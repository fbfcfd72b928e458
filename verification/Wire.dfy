/** cTCP segments, their bytes in memory, and the translation to and from TCP datagrams (ctcp_sys_internal.c). */
module Wire {
  import opened Bytes
  import opened Checksum

  const HEADER := 20          // sizeof(ctcp_segment_t)
  const FULL_HDR := 40        // IP and TCP headers
  const MAX_WIRE_DATA := 0xffff - FULL_HDR
  const TH_FIN: u32 := 0x01
  const TH_ACK: u32 := 0x10

  /** A ctcp_segment_t. Numbers that travel in network order are kept as the value they encode, `cksum` included;
      `flags` is in host order, as the source keeps it. `pad` is the two bytes malloc leaves between len and flags.
      The len field is not stored: it is always HEADER + |data|. */
  datatype Seg = Seg(seqno: u32, ackno: u32, pad: u16, flags: u32, window: u16, cksum: u16, data: seq<byte>)

  function End(s: Seg): nat { s.seqno + |s.data| }

  predicate HasFin(flags: u32) { flags % 2 == 1 }

  predicate HasAck(flags: u32) { flags / 0x10 % 2 == 1 }

  /** The segment's bytes in the memory of a host. */
  function Encode(host: Host, s: Seg): (b: seq<byte>)
    ensures |b| == HEADER + |s.data|
  {
    Front(host, s) + BE16(s.cksum) + s.data
  }

  /** Everything before the checksum field. */
  function Front(host: Host, s: Seg): (b: seq<byte>)
    ensures |b| == CKSUM_AT
  {
    BE32(s.seqno) + BE32(s.ackno) + BE16(ToU16(HEADER + |s.data|)) + BE16(s.pad)
    + BE32(Net32(host, s.flags)) + BE16(s.window)
  }

  /** Reads the fields back; the len field at bytes 8 and 9 is not looked at. */
  function Decode(host: Host, b: seq<byte>): Seg
    requires |b| >= HEADER
  {
    Seg(ReadBE32(b[0], b[1], b[2], b[3]), ReadBE32(b[4], b[5], b[6], b[7]), ReadBE16(b[10], b[11]),
        Net32(host, ReadBE32(b[12], b[13], b[14], b[15])), ReadBE16(b[16], b[17]), ReadBE16(b[18], b[19]), b[HEADER..])
  }

  lemma DecodeEncode(host: Host, s: Seg)
    ensures Decode(host, Encode(host, s)) == s
  {
    ReadBack32(s.seqno);
    ReadBack32(s.ackno);
    ReadBack32(Net32(host, s.flags));
    NetRaw32(host, s.flags);
    assert Encode(host, s)[HEADER..] == s.data;
  }

  lemma EncodeDecode(host: Host, b: seq<byte>)
    requires |b| >= HEADER && [b[8], b[9]] == BE16(ToU16(|b|))
    ensures Encode(host, Decode(host, b)) == b
  {
    hide BE16;
    hide BE32;
    hide ReadBE16;
    hide ReadBE32;
    hide Net32;
    hide ToU16;
    ReadAgain32(b[0], b[1], b[2], b[3]);
    ReadAgain32(b[4], b[5], b[6], b[7]);
    ReadAgain16(b[10], b[11]);
    ReadAgain32(b[12], b[13], b[14], b[15]);
    NetRaw32(host, ReadBE32(b[12], b[13], b[14], b[15]));
    ReadAgain16(b[16], b[17]);
    ReadAgain16(b[18], b[19]);
    assert b == [b[0], b[1], b[2], b[3]] + [b[4], b[5], b[6], b[7]] + [b[8], b[9]] + [b[10], b[11]]
             + [b[12], b[13], b[14], b[15]] + [b[16], b[17]] + [b[18], b[19]] + b[20..];
  }

  lemma EncodeCksum(host: Host, s: Seg, c: u16)
    ensures Field(Encode(host, s)) == s.cksum
    ensures Encode(host, s.(cksum := c)) == SetField(Encode(host, s), c)
  {
    assert Front(host, s.(cksum := c)) == Front(host, s);
    SplitWord(Front(host, s), s.cksum, c, s.data);
  }

  lemma SplitWord(front: seq<byte>, v: u16, c: u16, back: seq<byte>)
    requires |front| == CKSUM_AT
    ensures Field(front + BE16(v) + back) == v
    ensures SetField(front + BE16(v) + back, c) == front + BE16(c) + back
  {
  }

  /** checksum() of ctcp.c. */
  predicate Passes(host: Host, s: Seg)
  {
    s.cksum == Cksum(Encode(host, s.(cksum := 0)))
  }

  lemma PassesIsVerify(host: Host, s: Seg)
    ensures Passes(host, s) <==> Verify(Encode(host, s))
    ensures Passes(host, s) ==> s.cksum != 0
  {
    EncodeCksum(host, s, 0);
  }

  /** What ctcp_send and ctcp_retrans both do before conn_send: store the ackno, then recompute the checksum over
      the segment as it stands. Neither zeroes the field first. */
  function Stamp(host: Host, s: Seg, ackno: u32): (r: Seg)
    ensures r.cksum != 0 && r.seqno == s.seqno && r.data == s.data && r.ackno == ackno
  {
    var t := s.(ackno := ackno);
    t.(cksum := Cksum(Encode(host, t)))
  }

  /** The stamped copy passes the receiver's check if and only if the field held 0x0000 (never sent) or 0xffff. */
  lemma StampPassesIff(host: Host, s: Seg, ackno: u32)
    ensures Passes(host, Stamp(host, s, ackno)) <==> s.cksum == 0 || s.cksum == 0xffff
  {
    var t := s.(ackno := ackno);
    EncodeCksum(host, t, Cksum(Encode(host, t)));
    PassesIsVerify(host, Stamp(host, s, ackno));
    RefreshedVerifiesIff(Encode(host, t));
  }

  /** While the ackno stands still, retransmissions alternate: after a copy that passes comes one with 0xffff in the
      field, which passes only if the first held 0xffff too, and after that one that passes again. */
  lemma RestampAlternates(host: Host, s: Seg)
    requires Passes(host, s)
    ensures var once := Stamp(host, s, s.ackno);
      once.cksum == 0xffff && (Passes(host, once) <==> s.cksum == 0xffff) && Passes(host, Stamp(host, once, s.ackno))
  {
    var once := Stamp(host, s, s.ackno);
    PassesIsVerify(host, s);
    assert s.(ackno := s.ackno) == s;
    EncodeCksum(host, s, Cksum(Encode(host, s)));
    RefreshedTwiceVerifies(Encode(host, s));
    EncodeCksum(host, once, 0);
    StampPassesIff(host, s, s.ackno);
    StampPassesIff(host, once, s.ackno);
  }

  // ---------- conn_send's corruption ----------

  const FIRST_FLIPPABLE := 8 * 16     // after the flags

  function Corrupted(host: Host, s: Seg, bit: nat): Seg
    requires FIRST_FLIPPABLE <= bit < 8 * (HEADER + |s.data|)
  {
    Decode(host, FlipBit(Encode(host, s), bit))
  }

  predicate Flippable(s: Seg, bit: nat) { FIRST_FLIPPABLE <= bit < 8 * (HEADER + |s.data|) }

  predicate InPayload(bit: nat) { 8 * HEADER <= bit }

  /** A bit flipped at or after byte 16 leaves the numbers and the flags alone, and before byte 20 the payload too. */
  lemma CorruptionFields(host: Host, s: Seg, bit: nat)
    requires Flippable(s, bit)
    ensures var r := Corrupted(host, s, bit);
      && Encode(host, r) == FlipBit(Encode(host, s), bit)
      && r.seqno == s.seqno && r.ackno == s.ackno && r.flags == s.flags && |r.data| == |s.data|
      && (if InPayload(bit) then r.cksum == s.cksum && r.data == FlipBit(s.data, bit - 8 * HEADER) else r.data == s.data)
  {
    hide BE16;
    hide BE32;
    hide ReadBE16;
    hide ReadBE32;
    hide Net32;
    hide ToU16;
    hide Toggle;
    var b, c := Encode(host, s), FlipBit(Encode(host, s), bit);
    DecodeEncode(host, s);
    EncodeDecode(host, c);
    assert forall i :: 0 <= i < |c| && i != bit / 8 ==> c[i] == b[i];
    assert c[HEADER..] == if InPayload(bit) then FlipBit(b[HEADER..], bit - 8 * HEADER) else b[HEADER..];
  }

  /** Exactly when a copy passes after one flipped bit, whether or not it did before. */
  lemma CorruptionPassesIff(host: Host, s: Seg, bit: nat)
    requires Flippable(s, bit)
    ensures var r := Corrupted(host, s, bit);
      Passes(host, r) <==>
        r.cksum != 0 && (WordSum(Encode(host, s)) + FlipDelta(Encode(host, s), bit)) % 0xffff == 0
  {
    hide Passes;
    hide Corrupted;
    hide Verify;
    hide Encode;
    hide FlipBit;
    hide FlipDelta;
    hide WordSum;
    hide Field;
    var r := Corrupted(host, s, bit);
    CorruptionFields(host, s, bit);
    PassesIsVerify(host, r);
    EncodeCksum(host, r, 0);
    FlipVerifiesIff(Encode(host, s), bit);
  }

  /** No flipped bit goes unnoticed in a copy that passes. */
  lemma CorruptionDetected(host: Host, s: Seg, bit: nat)
    requires Flippable(s, bit) && Passes(host, s)
    ensures !Passes(host, Corrupted(host, s, bit))
  {
    hide Passes;
    hide Corrupted;
    hide Verify;
    hide Encode;
    hide FlipBit;
    CorruptionFields(host, s, bit);
    PassesIsVerify(host, s);
    PassesIsVerify(host, Corrupted(host, s, bit));
    FlipDetected(Encode(host, s), bit);
  }

  /** A payload bit flipped in a copy that was stamped over an old checksum goes unnoticed exactly when the old checksum
      was the weight of the bit, if the bit was clear, or 0xffff less the weight, if it was set. */
  lemma StampedCorruptionPassesIff(host: Host, s: Seg, ackno: u32, bit: nat)
    requires Flippable(s, bit) && InPayload(bit)
    ensures Passes(host, Corrupted(host, Stamp(host, s, ackno), bit)) <==>
      s.cksum == (if IsSet(s.data, bit - 8 * HEADER) then 0xffff - Weight(bit) else Weight(bit))
  {
    hide Passes;
    hide Corrupted;
    hide Verify;
    hide FlipBit;
    hide Refreshed;
    hide Encode;
    hide Stamp;
    hide Weight;
    hide IsSet;
    hide Field;
    var r := Stamp(host, s, ackno);
    StampIsRefreshed(host, s, ackno);
    CorruptionFields(host, r, bit);
    PassesIsVerify(host, Corrupted(host, r, bit));
    PayloadBit(host, s.(ackno := ackno), bit);
    RefreshedPayloadFlipVerifiesIff(Encode(host, s.(ackno := ackno)), bit);
  }

  lemma StampIsRefreshed(host: Host, s: Seg, ackno: u32)
    ensures var b := Encode(host, s.(ackno := ackno));
      Field(b) == s.cksum && Encode(host, Stamp(host, s, ackno)) == Refreshed(b)
  {
    hide Encode;
    hide Cksum;
    hide SetField;
    hide Field;
    var t := s.(ackno := ackno);
    EncodeCksum(host, t, Cksum(Encode(host, t)));
  }

  lemma PayloadBit(host: Host, s: Seg, bit: nat)
    requires Flippable(s, bit) && InPayload(bit)
    ensures IsSet(Encode(host, s), bit) <==> IsSet(s.data, bit - 8 * HEADER)
  {
    hide Front;
    assert Encode(host, s)[bit / 8] == s.data[bit / 8 - HEADER];
  }

  // ---------- Datagrams ----------

  /** The fields of a datagram that the translation reads or writes, as the values their bytes encode. */
  datatype Datagram = Datagram(saddr: u32, daddr: u32, totLen: u16, sport: u16, dport: u16, seqno: u32, ackno: u32,
                               flags: byte, window: u16, sum: u16, payload: seq<byte>)

  /** What a host knows of a connection: addresses, ports and both initial sequence numbers. */
  datatype Peer = Peer(myAddr: u32, addr: u32, myPort: u16, port: u16, init: u32, theirInit: u32)

  /** The buffer cksum_tcp sums: pseudo-header, TCP header, then the data length it is told. */
  function PseudoBytes(d: Datagram, len: nat): seq<byte>
    requires len <= |d.payload|
  {
    BE32(d.saddr) + BE32(d.daddr) + [0, 6] + BE16(ToU16(20 + len))
    + BE16(d.sport) + BE16(d.dport) + BE32(d.seqno) + BE32(d.ackno) + [0x50, d.flags] + BE16(d.window)
    + BE16(d.sum) + [0, 0] + d.payload[..len]
  }

  predicate Addressed(a: Peer, b: Peer)
  {
    a.init == b.theirInit && a.theirInit == b.init
  }

  function LowFlags(flags: u32, addAck: bool): byte
  {
    var f := flags % 0x100;
    if addAck && !HasAck(f) then f + TH_ACK else f
  }

  /** Adds the difference of two checksums, as uint16_t arithmetic in host order does. */
  function Shift(host: Host, base: u16, to: u16, from: u16): u16
  {
    Net16(host, ToU16(Raw16(host, base) + Raw16(host, to) - Raw16(host, from)))
  }

  function ToDatagram(host: Host, dst: Peer, s: Seg, addAck: bool): Datagram
    requires |s.data| <= MAX_WIRE_DATA
  {
    var d := Datagram(dst.myAddr, dst.addr, FULL_HDR + |s.data|, dst.myPort, dst.port, ToU32(s.seqno + dst.init),
                      ToU32(s.ackno + dst.theirInit), LowFlags(s.flags, addAck), s.window, 0, s.data);
    d.(sum := Shift(host, Cksum(PseudoBytes(d, |s.data|)), Cksum(Encode(host, s.(cksum := 0))), s.cksum))
  }

  /** The source copies as many bytes as the IP length promises. */
  predicate Complete(d: Datagram) { FULL_HDR <= d.totLen <= FULL_HDR + |d.payload| }

  function ToCtcp(host: Host, src: Peer, d: Datagram): Seg
    requires Complete(d)
  {
    var len := d.totLen - FULL_HDR;
    var s := Seg(ToU32(d.seqno - src.theirInit), ToU32(d.ackno - src.init), 0, d.flags, d.window, 0, d.payload[..len]);
    s.(cksum := Shift(host, Cksum(Encode(host, s)), Cksum(PseudoBytes(d.(sum := 0), len)), d.sum))
  }

  lemma ShiftZeroIff(host: Host, base: u16, to: u16, from: u16)
    ensures Shift(host, base, to, from) == base <==> to == from
  {
    RawInjective(host, to, from);
    RawShift(host, base, Raw16(host, to) - Raw16(host, from));
  }

  lemma RawInjective(host: Host, x: u16, y: u16)
    ensures Raw16(host, x) == Raw16(host, y) <==> x == y
  {
    NetRaw16(host, x);
    NetRaw16(host, y);
  }

  lemma RawShift(host: Host, base: u16, delta: int)
    requires -0x1_0000 < delta < 0x1_0000
    ensures Net16(host, ToU16(Raw16(host, base) + delta)) == base <==> delta == 0
  {
    WrapMoves(Raw16(host, base), delta);
    NetIs(host, ToU16(Raw16(host, base) + delta), base);
  }

  lemma WrapMoves(b: u16, delta: int)
    requires -0x1_0000 < delta < 0x1_0000
    ensures ToU16(b + delta) == b <==> delta == 0
  {
  }

  lemma NetIs(host: Host, raw: u16, v: u16)
    ensures Net16(host, raw) == v <==> raw == Raw16(host, v)
  {
    NetRaw16(host, v);
    NetRaw16(host, raw);
  }

  /** A segment that went out through one host and came in through another. */
  function Carried(from: Host, dst: Peer, to: Host, src: Peer, s: Seg, addAck: bool): Seg
    requires |s.data| <= MAX_WIRE_DATA
  {
    ToCtcp(to, src, ToDatagram(from, dst, s, addAck))
  }

  /** The round trip keeps length, window, payload and the low flag bits (with the ACK bit set if asked); it keeps the
      relative numbers exactly when the ends agree on the initial ones; and it carries the error in the checksum, so the
      result passes if and only if the original did, between hosts of either byte order. */
  lemma RoundTrip(from: Host, dst: Peer, to: Host, src: Peer, s: Seg, addAck: bool)
    requires |s.data| <= MAX_WIRE_DATA
    ensures var r := Carried(from, dst, to, src, s, addAck);
      && (r.seqno == s.seqno <==> src.theirInit == dst.init)
      && (r.ackno == s.ackno <==> src.init == dst.theirInit)
      && r.flags == LowFlags(s.flags, addAck) && r.window == s.window && r.data == s.data && r.pad == 0
      && (Passes(to, r) <==> Passes(from, s))
  {
    hide Passes;
    hide ChecksumError;
    hide Shift;
    hide Cksum;
    hide Encode;
    hide PseudoBytes;
    Relative(s.seqno, dst.init, src.theirInit);
    Relative(s.ackno, dst.theirInit, src.init);
    ErrorCarried(from, dst, to, src, s, addAck);
    NoErrorIff(from, s);
    NoErrorIff(to, Carried(from, dst, to, src, s, addAck));
  }

  /** How far the stored checksum is from the right one, as the host's 16-bit words. */
  function ChecksumError(host: Host, s: Seg): u16
  {
    ToU16(Raw16(host, s.cksum) - Raw16(host, Cksum(Encode(host, s.(cksum := 0)))))
  }

  lemma NoErrorIff(host: Host, s: Seg)
    ensures ChecksumError(host, s) == 0 <==> Passes(host, s)
  {
    hide Raw16;
    hide Cksum;
    hide Encode;
    RawInjective(host, s.cksum, Cksum(Encode(host, s.(cksum := 0))));
  }

  /** The error in the checksum goes over in the datagram and comes out unchanged between hosts of one byte order; between
      any two hosts, no error comes out as no error and an error as some error. */
  lemma ErrorCarried(from: Host, dst: Peer, to: Host, src: Peer, s: Seg, addAck: bool)
    requires |s.data| <= MAX_WIRE_DATA
    ensures var r := Carried(from, dst, to, src, s, addAck);
      && (from == to ==> ChecksumError(to, r) == ChecksumError(from, s))
      && (ChecksumError(to, r) == 0 <==> ChecksumError(from, s) == 0)
  {
    hide Raw16;
    hide Shift;
    hide ToU16;
    hide Cksum;
    hide Encode;
    hide PseudoBytes;
    var d := ToDatagram(from, dst, s, addAck);
    var r := Carried(from, dst, to, src, s, addAck);
    var right := Cksum(Encode(from, s.(cksum := 0)));
    var tcp := Cksum(PseudoBytes(d.(sum := 0), |s.data|));
    var own := Cksum(Encode(to, r.(cksum := 0)));
    assert d.payload[..d.totLen - FULL_HDR] == s.data;
    ShiftZeroIff(from, tcp, right, s.cksum);
    ShiftZeroIff(to, own, tcp, d.sum);
    NoErrorIff(from, s);
    NoErrorIff(to, r);
    if from == to { ShiftTwice(to, tcp, right, s.cksum, own); }
  }

  lemma ShiftTwice(host: Host, tcp: u16, right: u16, sum: u16, own: u16)
    ensures var d := Shift(host, tcp, right, sum);
      ToU16(Raw16(host, Shift(host, own, tcp, d)) - Raw16(host, own)) == ToU16(Raw16(host, sum) - Raw16(host, right))
  {
    hide Raw16;
    hide Net16;
    ShiftRaw(host, tcp, right, sum);
    ShiftRaw(host, own, tcp, Shift(host, tcp, right, sum));
  }

  lemma ShiftRaw(host: Host, base: u16, to: u16, from: u16)
    ensures Raw16(host, Shift(host, base, to, from)) == ToU16(Raw16(host, base) + Raw16(host, to) - Raw16(host, from))
  {
    hide Raw16;
    hide Net16;
    NetIs(host, ToU16(Raw16(host, base) + Raw16(host, to) - Raw16(host, from)), Shift(host, base, to, from));
  }

  lemma Relative(x: u32, add: u32, sub: u32)
    ensures ToU32(ToU32(x + add) - sub) == x <==> add == sub
  {
    var y := x + add;
    assert ToU32(y) == y || ToU32(y) == y - 0x1_0000_0000;
  }
}
