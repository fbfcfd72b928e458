/** The Internet checksum of ctcp_utils.c (RFC 1071), and the fault a single flipped bit is to it. */
module Checksum {
  import opened Bytes

  /** The sum of the big-endian words of `b`, an odd last byte padded with a zero. */
  function WordSum(b: seq<byte>): nat
  {
    if |b| == 0 then 0
    else if |b| == 1 then 0x100 * b[0]
    else ReadBE16(b[0], b[1]) + WordSum(b[2..])
  }

  /** RFC 1071: adding the checksum to the data gives zero in one's-complement arithmetic; zero is sent as ones. */
  predicate IsChecksum(v: int, b: seq<byte>)
  {
    1 <= v <= 0xffff && (v + WordSum(b)) % 0xffff == 0
  }

  function Cksum(b: seq<byte>): (v: u16)
    ensures IsChecksum(v, b)
  {
    0xffff - WordSum(b) % 0xffff
  }

  lemma ChecksumUnique(b: seq<byte>, v: int)
    ensures IsChecksum(v, b) <==> v == Cksum(b)
  {
    var s, c := WordSum(b), Cksum(b);
    if IsChecksum(v, b) {
      SubMultiple(v + s, c + s);
    }
  }

  lemma SubMultiple(x: int, y: int)
    requires x % 0xffff == 0 && y % 0xffff == 0
    ensures (x - y) % 0xffff == 0
  {
  }

  newtype uint32 = x: int | 0 <= x < 0x1_0000_0000

  /** cksum(): `sum` is a uint32, so every addition below is checked not to overflow it. */
  method ComputeCksum(host: Host, data: seq<byte>) returns (raw: u16)
    requires |data| < 0x1_0000
    ensures IsChecksum(Net16(host, raw), data)
    ensures raw == Raw16(host, Cksum(data))
  {
    var sum: uint32, len, p := 0, |data|, 0;
    while len >= 2
      invariant 0 <= len && p + len == |data|
      invariant sum as int + WordSum(data[p..]) == WordSum(data)
      invariant sum as int <= 0x8000 * p
    {
      sum := sum + ReadBE16(data[p], data[p + 1]) as uint32;
      assert data[p..][2..] == data[p + 2..];
      p, len := p + 2, len - 2;
    }
    if len > 0 {
      sum := sum + ReadBE16(data[p], 0) as uint32;
    }
    assert sum as int == WordSum(data);
    while sum > 0xffff
      invariant sum as int % 0xffff == WordSum(data) % 0xffff
    {
      FoldKeepsResidue(sum as int);
      sum := sum / 0x1_0000 + sum % 0x1_0000;
    }
    // ~sum, cut to 16 bits, in network order
    raw := Raw16(host, 0xffff - sum as int);
    FoldedIsChecksum(host, sum as int, data);
    if raw == 0 {
      raw := 0xffff;
    }
  }

  lemma FoldedIsChecksum(host: Host, sum: nat, data: seq<byte>)
    requires sum <= 0xffff && sum % 0xffff == WordSum(data) % 0xffff
    ensures var raw := Raw16(host, 0xffff - sum);
      (if raw == 0 then 0xffff else raw) == Raw16(host, Cksum(data))
    ensures Net16(host, Raw16(host, Cksum(data))) == Cksum(data)
  {
    hide WordSum;
    hide Raw16;
    hide Net16;
    hide Cksum;
    NetRaw16(host, Cksum(data));
    RawEnds(host, 0xffff - sum);
    CksumOfResidue(sum, data);
  }

  lemma CksumOfResidue(sum: nat, data: seq<byte>)
    requires sum <= 0xffff && sum % 0xffff == WordSum(data) % 0xffff
    ensures Cksum(data) == if sum == 0xffff then 0xffff else 0xffff - sum
  {
    hide WordSum;
  }

  /** Zero and all ones look the same in either byte order. */
  lemma RawEnds(host: Host, v: u16)
    ensures Raw16(host, v) == 0 <==> v == 0
    ensures Raw16(host, 0xffff) == 0xffff
  {
  }

  lemma FoldKeepsResidue(sum: nat)
    ensures (sum / 0x1_0000 + sum % 0x1_0000) % 0xffff == sum % 0xffff
  {
    assert sum == 0xffff * (sum / 0x1_0000) + (sum / 0x1_0000 + sum % 0x1_0000);
  }

  lemma {:induction false} WordSumConcat(a: seq<byte>, b: seq<byte>)
    requires |a| % 2 == 0
    ensures WordSum(a + b) == WordSum(a) + WordSum(b)
  {
    if |a| == 0 {
      assert a + b == b;
    } else {
      assert (a + b)[2..] == a[2..] + b;
      WordSumConcat(a[2..], b);
    }
  }

  lemma WordSum32(v: u32)
    ensures WordSum(BE32(v)) == v / 0x1_0000 + v % 0x1_0000
  {
    WordSum16(v / 0x1_0000);
    WordSum16(v % 0x1_0000);
    WordSumConcat(BE16(v / 0x1_0000), BE16(v % 0x1_0000));
  }

  lemma WordSum16(v: u16)
    ensures WordSum(BE16(v)) == v
  {
    assert BE16(v)[2..] == [];
  }

  /** What writing one byte does to the sum: the high byte of a word weighs 256, the low byte 1. */
  lemma {:induction false} WordSumUpdate(b: seq<byte>, i: nat, x: byte)
    requires i < |b|
    ensures WordSum(b[i := x]) == WordSum(b) + (if i % 2 == 0 then 0x100 else 1) * (x - b[i])
  {
    if i >= 2 {
      assert b[i := x][2..] == b[2..][i - 2 := x];
      WordSumUpdate(b[2..], i - 2, x);
    } else if |b| >= 2 {
      assert b[i := x][2..] == b[2..];
    }
  }

  // ---------- checksum() of ctcp.c, on the bytes of a segment ----------

  /** Where `cksum` lies in ctcp_segment_t, after seqno, ackno, len, two padding bytes, flags and window. */
  const CKSUM_AT := 18

  function Field(b: seq<byte>): u16
    requires CKSUM_AT + 2 <= |b|
  {
    ReadBE16(b[CKSUM_AT], b[CKSUM_AT + 1])
  }

  function SetField(b: seq<byte>, v: u16): (r: seq<byte>)
    requires CKSUM_AT + 2 <= |b|
    ensures |r| == |b|
  {
    b[CKSUM_AT := v / 0x100][CKSUM_AT + 1 := v % 0x100]
  }

  lemma WordSumSetField(b: seq<byte>, v: u16)
    requires CKSUM_AT + 2 <= |b|
    ensures WordSum(SetField(b, v)) == WordSum(b) - Field(b) + v
  {
    hide WordSum;
    hide Field;
    WordSumSetBytes(b, v / 0x100, v % 0x100);
  }

  lemma WordSumSetBytes(b: seq<byte>, hi: byte, lo: byte)
    requires CKSUM_AT + 2 <= |b|
    ensures WordSum(b[CKSUM_AT := hi][CKSUM_AT + 1 := lo]) == WordSum(b) - Field(b) + 0x100 * hi + lo
  {
    hide WordSum;
    WordSumUpdate(b, CKSUM_AT, hi);
    WordSumUpdate(b[CKSUM_AT := hi], CKSUM_AT + 1, lo);
  }

  /** The receiver zeroes the field, recomputes and compares. */
  predicate Verify(b: seq<byte>)
    requires CKSUM_AT + 2 <= |b|
  {
    Field(b) == Cksum(SetField(b, 0))
  }

  lemma VerifyIff(b: seq<byte>)
    requires CKSUM_AT + 2 <= |b|
    ensures Verify(b) <==> Field(b) != 0 && WordSum(b) % 0xffff == 0
  {
    hide WordSum;
    hide Cksum;
    hide Field;
    hide SetField;
    WordSumSetField(b, 0);
    ChecksumUnique(SetField(b, 0), Field(b));
  }

  /** Recomputing the field over whatever it holds, as both ctcp_send and ctcp_retrans do. */
  function Refreshed(b: seq<byte>): (r: seq<byte>)
    requires CKSUM_AT + 2 <= |b|
    ensures |r| == |b|
  {
    SetField(b, Cksum(b))
  }

  /** The result verifies exactly when the field held one of the two zeros of one's-complement arithmetic. */
  lemma RefreshedVerifiesIff(b: seq<byte>)
    requires CKSUM_AT + 2 <= |b|
    ensures Verify(Refreshed(b)) <==> Field(b) == 0 || Field(b) == 0xffff
  {
    var f, c, s := Field(b), Cksum(b), WordSum(b);
    WordSumSetField(b, c);
    VerifyIff(Refreshed(b));
    assert Field(Refreshed(b)) == c;
    if Verify(Refreshed(b)) {
      SubMultiple(c + s, s - f + c);
    } else {
      assert (s - f + c) % 0xffff != 0;
      if f == 0xffff { SubMultiple(s + c, 0xffff); }
    }
  }

  /** Refreshing bytes that verify leaves all ones in the field, so refreshing twice makes them verify again. */
  lemma RefreshedTwiceVerifies(b: seq<byte>)
    requires CKSUM_AT + 2 <= |b| && Verify(b)
    ensures Field(Refreshed(b)) == 0xffff
    ensures Verify(Refreshed(Refreshed(b)))
  {
    VerifyIff(b);
    ChecksumUnique(b, 0xffff);
    RefreshedVerifiesIff(Refreshed(b));
  }

  // ---------- flipbit() ----------

  function Bit(k: nat): (m: nat)
    requires k < 8
    ensures m in {1, 2, 4, 8, 16, 32, 64, 128}
  {
    [1, 2, 4, 8, 16, 32, 64, 128][k]
  }

  /** XOR with the mask of bit `k`. */
  function Toggle(x: byte, k: nat): (r: byte)
    requires k < 8
    ensures r - x == Bit(k) || x - r == Bit(k)
  {
    var m := Bit(k);
    ToggleInRange(x, m);
    if x / m % 2 == 1 then x - m else x + m
  }

  lemma ToggleInRange(x: byte, m: nat)
    requires m in {1, 2, 4, 8, 16, 32, 64, 128}
    ensures x / m % 2 == 1 ==> m <= x
    ensures x / m % 2 == 0 ==> x + m < 0x100
  {
  }

  function FlipBit(b: seq<byte>, bit: nat): (r: seq<byte>)
    requires bit < 8 * |b|
    ensures |r| == |b|
  {
    b[bit / 8 := Toggle(b[bit / 8], bit % 8)]
  }

  method FlipBitInPlace(a: array<byte>, bit: nat)
    requires bit < 8 * a.Length
    modifies a
    ensures a[..] == FlipBit(old(a[..]), bit)
  {
    a[bit / 8] := Toggle(a[bit / 8], bit % 8);
  }

  predicate IsSet(b: seq<byte>, bit: nat)
    requires bit < 8 * |b|
  {
    b[bit / 8] / Bit(bit % 8) % 2 == 1
  }

  /** What a bit counts for in the word it lies in. */
  function Weight(bit: nat): (w: int)
    ensures 1 <= w <= 0x8000
  {
    (if bit / 8 % 2 == 0 then 0x100 else 1) * Bit(bit % 8)
  }

  function FlipDelta(b: seq<byte>, bit: nat): int
    requires bit < 8 * |b|
  {
    if IsSet(b, bit) then -Weight(bit) else Weight(bit)
  }

  lemma FlipMovesSum(b: seq<byte>, bit: nat)
    requires bit < 8 * |b|
    ensures WordSum(FlipBit(b, bit)) == WordSum(b) + FlipDelta(b, bit)
  {
    hide WordSum;
    WordSumUpdate(b, bit / 8, Toggle(b[bit / 8], bit % 8));
  }

  /** Exactly when bytes verify after one flipped bit, whether or not they did before. */
  lemma FlipVerifiesIff(b: seq<byte>, bit: nat)
    requires CKSUM_AT + 2 <= |b| && bit < 8 * |b|
    ensures Verify(FlipBit(b, bit)) <==> Field(FlipBit(b, bit)) != 0 && (WordSum(b) + FlipDelta(b, bit)) % 0xffff == 0
  {
    hide WordSum;
    hide FlipBit;
    hide FlipDelta;
    hide Verify;
    FlipMovesSum(b, bit);
    VerifyIff(FlipBit(b, bit));
  }

  lemma RefreshedSum(a: seq<byte>)
    requires CKSUM_AT + 2 <= |a|
    ensures Field(Refreshed(a)) == Cksum(a)
    ensures (WordSum(Refreshed(a)) + Field(a)) % 0xffff == 0
  {
    hide WordSum;
    WordSumSetField(a, Cksum(a));
  }

  /** Exactly when a flipped bit makes bytes verify whose field was recomputed over what it held. */
  lemma RefreshedFlipVerifiesIff(a: seq<byte>, bit: nat)
    requires CKSUM_AT + 2 <= |a| && bit < 8 * |a|
    ensures var r := Refreshed(a);
      Verify(FlipBit(r, bit)) <==> Field(FlipBit(r, bit)) != 0 && (FlipDelta(r, bit) - Field(a)) % 0xffff == 0
  {
    hide WordSum;
    hide FlipBit;
    hide FlipDelta;
    hide Verify;
    hide Refreshed;
    hide Field;
    RefreshedSum(a);
    FlipVerifiesIff(Refreshed(a), bit);
    SameResidue(WordSum(Refreshed(a)) + FlipDelta(Refreshed(a), bit), FlipDelta(Refreshed(a), bit) - Field(a));
  }

  lemma SameResidue(x: int, y: int)
    requires (x - y) % 0xffff == 0
    ensures x % 0xffff == 0 <==> y % 0xffff == 0
  {
    if x % 0xffff == 0 {
      SubMultiple(x, x - y);
    } else if y % 0xffff == 0 {
      SubMultiple(0, x - y);
      SubMultiple(y, 0 - (x - y));
    }
  }

  /** Behind the field the condition is on the old field alone: it held the weight of the bit if that was clear, and
      0xffff less the weight if it was set. */
  lemma RefreshedPayloadFlipVerifiesIff(a: seq<byte>, bit: nat)
    requires CKSUM_AT + 2 <= |a| && 8 * (CKSUM_AT + 2) <= bit < 8 * |a|
    ensures Verify(FlipBit(Refreshed(a), bit)) <==> Field(a) == (if IsSet(a, bit) then 0xffff - Weight(bit) else Weight(bit))
  {
    hide WordSum;
    hide Verify;
    hide Cksum;
    hide Weight;
    hide Toggle;
    RefreshedFlipVerifiesIff(a, bit);
    RefreshedSum(a);
    assert Field(FlipBit(Refreshed(a), bit)) == Field(Refreshed(a)) == Cksum(a) != 0 by { ChecksumUnique(a, Cksum(a)); }
    assert IsSet(Refreshed(a), bit) <==> IsSet(a, bit);
    OnlyResidue(Field(a), Weight(bit));
  }

  lemma OnlyResidue(f: int, w: int)
    requires 0 <= f <= 0xffff && 1 <= w <= 0x8000
    ensures (w - f) % 0xffff == 0 <==> f == w
    ensures (-w - f) % 0xffff == 0 <==> f == 0xffff - w
  {
  }

  /** No single flipped bit goes unnoticed in bytes that verify, wherever it falls and whatever the length. */
  lemma FlipDetected(b: seq<byte>, bit: nat)
    requires CKSUM_AT + 2 <= |b| && bit < 8 * |b|
    requires Verify(b)
    ensures !Verify(FlipBit(b, bit))
  {
    hide WordSum;
    hide FlipBit;
    VerifyIff(b);
    FlipVerifiesIff(b, bit);
    SameResidue(WordSum(b) + FlipDelta(b, bit), FlipDelta(b, bit));
  }
}
