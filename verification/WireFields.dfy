/** Wire formats field by field: where each value lies in a segment's bytes, and what a datagram says to any TCP. */
module WireFields {
  import opened Bytes
  import opened Checksum
  import opened Wire

  // ---------- Flags ----------

  /** Bit k of a number, k < 8. */
  predicate BitSet(x: nat, k: nat)
    decreases k
  {
    if k == 0 then x % 2 == 1 else BitSet(x / 2, k - 1)
  }

  /** The number that the lowest n bits make up. */
  function LowBits(x: nat, n: nat): nat
    decreases n
  {
    if n == 0 then 0 else x % 2 + 2 * LowBits(x / 2, n - 1)
  }

  lemma {:induction false} SameLowBits(x: nat, n: nat, k: nat)
    requires k < n
    ensures BitSet(LowBits(x, n), k) <==> BitSet(x, k)
    decreases n
  {
    var half := LowBits(x / 2, n - 1);
    assert LowBits(x, n) == x % 2 + 2 * half && LowBits(x, n) / 2 == half;
    if k > 0 {
      SameLowBits(x / 2, n - 1, k - 1);
    }
  }

  lemma LowByteIs(x: nat)
    ensures LowBits(x, 8) == x % 0x100
  {
    var a, b, c, d := x / 2, x / 4, x / 8, x / 16;
    var e, f, g, h := x / 32, x / 64, x / 128, x / 256;
    assert a / 2 == b && b / 2 == c && c / 2 == d && d / 2 == e && e / 2 == f && f / 2 == g && g / 2 == h;
    assert LowBits(h, 0) == 0;
    assert LowBits(g, 1) == g - 2 * h;
    assert LowBits(f, 2) == f - 4 * h;
    assert LowBits(e, 3) == e - 8 * h;
    assert LowBits(d, 4) == d - 16 * h;
    assert LowBits(c, 5) == c - 32 * h;
    assert LowBits(b, 6) == b - 64 * h;
    assert LowBits(a, 7) == a - 128 * h;
  }

  /** Setting a clear bit 4 sets that bit and no other. */
  lemma PlusSixteen(x: nat, k: nat)
    requires !BitSet(x, 4) && k < 8
    ensures BitSet(x + 16, k) <==> k == 4 || BitSet(x, k)
  {
    var a, b, c, d := x / 2, x / 2 / 2, x / 2 / 2 / 2, x / 2 / 2 / 2 / 2;
    assert BitSet(x, 1) == BitSet(a, 0) && BitSet(x, 2) == BitSet(b, 0) && BitSet(x, 3) == BitSet(c, 0);
    assert BitSet(x, 4) == BitSet(d, 0) && d % 2 == 0;
    assert (x + 16) / 2 == a + 8 && (a + 8) / 2 == b + 4 && (b + 4) / 2 == c + 2 && (c + 2) / 2 == d + 1;
    assert (d + 1) / 2 == d / 2;
    if k > 0 {
      assert BitSet(x + 16, k) == BitSet(a + 8, k - 1) && BitSet(x, k) == BitSet(a, k - 1);
    }
    if k > 1 {
      assert BitSet(a + 8, k - 1) == BitSet(b + 4, k - 2) && BitSet(a, k - 1) == BitSet(b, k - 2);
    }
    if k > 2 {
      assert BitSet(b + 4, k - 2) == BitSet(c + 2, k - 3) && BitSet(b, k - 2) == BitSet(c, k - 3);
    }
    if k > 3 {
      assert BitSet(c + 2, k - 3) == BitSet(d + 1, k - 4) && BitSet(c, k - 3) == BitSet(d, k - 4);
    }
    if k > 4 {
      assert BitSet(d + 1, k - 4) == BitSet(d / 2, k - 5) && BitSet(d, k - 4) == BitSet(d / 2, k - 5);
    }
  }

  lemma FlagsAreBits(flags: nat)
    requires flags < 0x1_0000_0000
    ensures HasFin(flags) <==> BitSet(flags, 0)
    ensures HasAck(flags) <==> BitSet(flags, 4)
  {
    var a, b, c, d := flags / 2, flags / 4, flags / 8, flags / 16;
    assert a / 2 == b && b / 2 == c && c / 2 == d;
    assert BitSet(flags, 4) == BitSet(a, 3) == BitSet(b, 2) == BitSet(c, 1) == BitSet(d, 0);
  }

  /** th_flags: the low eight bits, and ACK besides if the datagram goes to the web. */
  lemma LowFlagsBits(flags: u32, addAck: bool)
    ensures var r := LowFlags(flags, addAck);
      && (forall k: nat :: k < 8 && k != 4 ==> (BitSet(r, k) <==> BitSet(flags, k)))
      && (BitSet(r, 4) <==> BitSet(flags, 4) || addAck)
      && (HasFin(r) <==> HasFin(flags)) && (HasAck(r) <==> HasAck(flags) || addAck)
  {
    hide BitSet;
    hide LowBits;
    hide HasFin;
    hide HasAck;
    var f, r := flags % 0x100, LowFlags(flags, addAck);
    LowByteIs(flags);
    FlagsAreBits(flags);
    FlagsAreBits(f);
    FlagsAreBits(r);
    forall k: nat | k < 8
      ensures BitSet(f, k) <==> BitSet(flags, k)
      ensures BitSet(r, k) <==> BitSet(flags, k) || (k == 4 && addAck)
    {
      SameLowBits(flags, 8, k);
      if r != f { PlusSixteen(f, k); }
    }
  }

  /** What arrives carries the sender's low flag bits, with ACK set besides if asked, and no others. */
  lemma CarriedFlags(from: Host, dst: Peer, to: Host, src: Peer, s: Seg, addAck: bool)
    requires |s.data| <= MAX_WIRE_DATA
    ensures var r := Carried(from, dst, to, src, s, addAck);
      && r.flags < 0x100
      && (forall k: nat :: k < 8 && k != 4 ==> (BitSet(r.flags, k) <==> BitSet(s.flags, k)))
      && (BitSet(r.flags, 4) <==> BitSet(s.flags, 4) || addAck)
      && (HasFin(r.flags) <==> HasFin(s.flags)) && (HasAck(r.flags) <==> HasAck(s.flags) || addAck)
  {
    hide Carried;
    hide BitSet;
    hide LowFlags;
    hide HasFin;
    hide HasAck;
    RoundTrip(from, dst, to, src, s, addAck);
    LowFlagsBits(s.flags, addAck);
  }

  /** The masks of flipbit are the powers of two. */
  lemma BitDoubles(k: nat)
    requires k < 7
    ensures Bit(0) == 1 && Bit(k + 1) == 2 * Bit(k)
  {
  }

  // ---------- A segment's bytes ----------

  function Number16(b: seq<byte>, at: nat): int
    requires at + 2 <= |b|
  {
    0x100 * (b[at] as int) + b[at + 1] as int
  }

  function Number32(b: seq<byte>, at: nat): int
    requires at + 4 <= |b|
  {
    0x100_0000 * (b[at] as int) + 0x1_0000 * (b[at + 1] as int) + 0x100 * (b[at + 2] as int) + b[at + 3] as int
  }

  lemma Numbers(v: u16, n: u32)
    ensures Number16(BE16(v), 0) == v && Number32(BE32(n), 0) == n
  {
    ReadBack32(n);
  }

  /** Numbers, length, window and checksum in network order at their offsets, flags as the host keeps a word, the payload
      from byte 20 on. */
  lemma EncodeFields(host: Host, s: Seg)
    ensures var b := Encode(host, s);
      && Number32(b, 0) == s.seqno && Number32(b, 4) == s.ackno && Number16(b, 8) == (20 + |s.data|) % 0x1_0000
      && HostWord32(host, b[12], b[13], b[14], b[15]) == s.flags
      && Number16(b, 16) == s.window && Number16(b, 18) == s.cksum && b[20..] == s.data
  {
    hide BE16;
    hide BE32;
    hide Net32;
    hide HostWord32;
    var b := Encode(host, s);
    assert b[0..4] == BE32(s.seqno) && b[4..8] == BE32(s.ackno) && b[8..10] == BE16(ToU16(HEADER + |s.data|));
    assert b[12..16] == BE32(Net32(host, s.flags)) && b[16..18] == BE16(s.window) && b[18..20] == BE16(s.cksum);
    Numbers(ToU16(HEADER + |s.data|), s.seqno);
    Numbers(s.window, s.ackno);
    Numbers(s.cksum, 0);
    FlagsInMemory(host, s.flags, b[12..16]);
  }

  lemma FlagsInMemory(host: Host, flags: u32, b: seq<byte>)
    requires b == BE32(Net32(host, flags))
    ensures HostWord32(host, b[0], b[1], b[2], b[3]) == flags
  {
    hide BE32;
    hide Net32;
    hide HostWord32;
    Numbers(0, Net32(host, flags));
    NetworkOrder32(host, b[0], b[1], b[2], b[3]);
    NetRaw32(host, flags);
  }

  // ---------- Datagrams ----------

  /** What the datagram says, in the terms of its receiver: from our address and port to the peer's, the relative numbers
      moved by the initial ones, everything else the segment's. */
  lemma DatagramFields(host: Host, dst: Peer, s: Seg, addAck: bool)
    requires |s.data| <= MAX_WIRE_DATA
    ensures var d := ToDatagram(host, dst, s, addAck);
      && d.saddr == dst.myAddr && d.daddr == dst.addr && d.sport == dst.myPort && d.dport == dst.port
      && d.totLen == 20 + 20 + |s.data| && d.window == s.window && d.payload == s.data
      && (d.seqno - s.seqno - dst.init) % 0x1_0000_0000 == 0
      && (d.ackno - s.ackno - dst.theirInit) % 0x1_0000_0000 == 0
  {
    hide Shift;
    Wraps(s.seqno + dst.init);
    Wraps(s.ackno + dst.theirInit);
    WholeTurns(s.seqno + dst.init, ToU32(s.seqno + dst.init));
    WholeTurns(s.ackno + dst.theirInit, ToU32(s.ackno + dst.theirInit));
  }

  lemma WholeTurns(x: int, r: int)
    requires r == x - 0x1_0000_0000 * (x / 0x1_0000_0000)
    ensures (r - x) % 0x1_0000_0000 == 0
  {
    var q := x / 0x1_0000_0000;
    assert r - x == 0x1_0000_0000 * (0 - q);
  }

  /** Section 3.1 of RFC 793: the words of pseudo-header, header and payload. */
  function TcpSum(d: Datagram): nat
  {
    d.saddr / 0x1_0000 + d.saddr % 0x1_0000 + d.daddr / 0x1_0000 + d.daddr % 0x1_0000 + 6 + (20 + |d.payload|)
    + d.sport + d.dport + d.seqno / 0x1_0000 + d.seqno % 0x1_0000 + d.ackno / 0x1_0000 + d.ackno % 0x1_0000
    + (0x5000 + d.flags) + d.window + d.sum + WordSum(d.payload)
  }

  lemma Append16(front: seq<byte>, v: u16)
    requires |front| % 2 == 0
    ensures |front + BE16(v)| % 2 == 0 && WordSum(front + BE16(v)) == WordSum(front) + v
  {
    hide WordSum;
    hide BE16;
    WordSumConcat(front, BE16(v));
    WordSum16(v);
  }

  lemma Append32(front: seq<byte>, v: u32)
    requires |front| % 2 == 0
    ensures |front + BE32(v)| % 2 == 0 && WordSum(front + BE32(v)) == WordSum(front) + (v / 0x1_0000 + v % 0x1_0000)
  {
    hide WordSum;
    hide BE32;
    WordSumConcat(front, BE32(v));
    WordSum32(v);
  }

  /** Everything that is summed before the ports. */
  function PseudoHeader(d: Datagram, len: nat): seq<byte>
  {
    BE32(d.saddr) + BE32(d.daddr) + [0, 6] + BE16(ToU16(20 + len))
  }

  lemma PseudoHeaderSum(d: Datagram, len: nat)
    requires len <= MAX_WIRE_DATA
    ensures var h := PseudoHeader(d, len);
      && |h| % 2 == 0
      && WordSum(h)
        == d.saddr / 0x1_0000 + d.saddr % 0x1_0000 + (d.daddr / 0x1_0000 + d.daddr % 0x1_0000) + 6 + (20 + len)
  {
    hide WordSum;
    hide BE32;
    assert [0, 6] == BE16(6);
    hide BE16;
    WordSum32(d.saddr);
    Append32(BE32(d.saddr), d.daddr);
    Append16(BE32(d.saddr) + BE32(d.daddr), 6);
    Append16(BE32(d.saddr) + BE32(d.daddr) + BE16(6), 20 + len);
  }

  /** h, then the TCP header. */
  function WithHeader(h: seq<byte>, d: Datagram): seq<byte>
  {
    h + BE16(d.sport) + BE16(d.dport) + BE32(d.seqno) + BE32(d.ackno) + [0x50, d.flags] + BE16(d.window)
    + BE16(d.sum) + [0, 0]
  }

  lemma WithHeaderSum(h: seq<byte>, d: Datagram)
    requires |h| % 2 == 0
    ensures var r := WithHeader(h, d);
      && |r| % 2 == 0
      && WordSum(r) == WordSum(h) + d.sport + d.dport + (d.seqno / 0x1_0000 + d.seqno % 0x1_0000)
        + (d.ackno / 0x1_0000 + d.ackno % 0x1_0000) + (0x5000 + d.flags) + d.window + d.sum
  {
    hide WordSum;
    hide BE32;
    assert [0x50, d.flags] == BE16(0x5000 + d.flags) by { Parts16(0x50, d.flags); }
    assert [0, 0] == BE16(0);
    var p := h + BE16(d.sport);
    Append16(h, d.sport);
    Append16(p, d.dport);
    Append32(p + BE16(d.dport), d.seqno);
    var q := p + BE16(d.dport) + BE32(d.seqno);
    Append32(q, d.ackno);
    Append16(q + BE32(d.ackno), 0x5000 + d.flags);
    var t := q + BE32(d.ackno) + BE16(0x5000 + d.flags);
    Append16(t, d.window);
    Append16(t + BE16(d.window), d.sum);
    Append16(t + BE16(d.window) + BE16(d.sum), 0);
  }

  lemma PseudoBytesSum(d: Datagram)
    requires |d.payload| <= MAX_WIRE_DATA
    ensures WordSum(PseudoBytes(d, |d.payload|)) == TcpSum(d)
  {
    hide WordSum;
    hide BE16;
    hide BE32;
    var n := |d.payload|;
    var h := WithHeader(PseudoHeader(d, n), d);
    PseudoHeaderSum(d, n);
    WithHeaderSum(PseudoHeader(d, n), d);
    PseudoBytesSplit(d);
    WordSumConcat(h, d.payload);
  }

  lemma PseudoBytesSplit(d: Datagram)
    ensures PseudoBytes(d, |d.payload|) == WithHeader(PseudoHeader(d, |d.payload|), d) + d.payload
  {
    hide BE16;
    hide BE32;
    assert d.payload[..|d.payload|] == d.payload;
  }

  /** The datagram is one that any TCP accepts, its words adding up to zero, if and only if the segment passes. */
  lemma DatagramSum(host: Host, dst: Peer, s: Seg, addAck: bool)
    requires |s.data| <= MAX_WIRE_DATA
    ensures var d := ToDatagram(host, dst, s, addAck);
      Passes(host, s) <==> d.sum != 0 && TcpSum(d) % 0xffff == 0
  {
    hide Shift;
    hide Encode;
    hide PseudoBytes;
    hide Cksum;
    hide TcpSum;
    hide LowFlags;
    var d := ToDatagram(host, dst, s, addAck);
    var zero := d.(sum := 0);
    var right := Cksum(PseudoBytes(zero, |s.data|));
    ShiftZeroIff(host, right, Cksum(Encode(host, s.(cksum := 0))), s.cksum);
    PseudoBytesSum(zero);
    SumField(d);
    ChecksumUnique(PseudoBytes(zero, |s.data|), d.sum);
  }

  lemma SumField(d: Datagram)
    ensures TcpSum(d) == TcpSum(d.(sum := 0)) + d.sum
  {
  }
}
