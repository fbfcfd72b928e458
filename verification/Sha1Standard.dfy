/** SHA-1 of a whole message, as FIPS PUB 180-1 defines it. */
module Sha1Standard {
  type word = bv32
  type octet = bv8

  datatype Registers = Registers(a: word, b: word, c: word, d: word, e: word)

  /** Section 3: the bytes of a word, most significant first. */
  function WordOf(b0: octet, b1: octet, b2: octet, b3: octet): word
  {
    b0 as bv32 * 0x100_0000 + b1 as bv32 * 0x1_0000 + b2 as bv32 * 0x100 + b3 as bv32
  }

  /** Section 4: a one bit, zeros up to 8 bytes short of a block boundary, the length in bits as 64-bit number. */
  function Zeros(n: nat): nat { (119 - n % 64) % 64 }

  lemma ZerosFill(n: nat)
    ensures Zeros(n) < 64 && (n + 1 + Zeros(n)) % 64 == 56 && (n + 9 + Zeros(n)) % 64 == 0
    ensures Zeros(n) == if n % 64 <= 55 then 55 - n % 64 else 119 - n % 64
  {
  }

  function Padded(m: seq<octet>): (r: seq<octet>)
    requires |m| < MAX_OCTETS
    ensures |r| % 64 == 0
  {
    var z := Zeros(|m|);
    assert (|m| + 9 + z) % 64 == 0 by { ZerosFill(|m|); }
    var r := m + [0x80] + seq(z, i => 0) + LengthOctets(8 * |m|);
    assert |r| == |m| + 9 + z;
    r
  }

  const MAX_OCTETS := 0x2000_0000_0000_0000     // 2^64 bits
  const TWO_32 := 0x1_0000_0000

  function Octets32(n: nat): (r: seq<octet>)
    requires n < TWO_32
    ensures |r| == 4
  {
    [Octet(n / 0x100_0000), Octet(n / 0x1_0000 % 0x100), Octet(n / 0x100 % 0x100), Octet(n % 0x100)]
  }

  /** Most significant octet first. */
  lemma OctetsNumber(n: nat)
    requires n < TWO_32
    ensures var b0, b1, b2, b3 := n / 0x100_0000, n / 0x1_0000 % 0x100, n / 0x100 % 0x100, n % 0x100;
      && 0x100_0000 * b0 + 0x1_0000 * b1 + 0x100 * b2 + b3 == n
      && Octets32(n) == [Octet(b0), Octet(b1), Octet(b2), Octet(b3)]
  {
    hide Octet;
    Digits(n);
  }

  lemma Digits(n: nat)
    ensures 0x100_0000 * (n / 0x100_0000) + 0x1_0000 * (n / 0x1_0000 % 0x100) + 0x100 * (n / 0x100 % 0x100) + n % 0x100 == n
  {
    var q, p := n / 0x100, n / 0x1_0000;
    assert p == q / 0x100 && n / 0x100_0000 == p / 0x100;
  }

  ghost predicate IsLength(bits: nat, high: nat, low: nat)
  {
    high < TWO_32 && low < TWO_32 && TWO_32 * high + low == bits
  }

  /** The length as one 64-bit number, most significant word first. */
  lemma LengthNumber(bits: nat, high: nat, low: nat)
    requires bits < 8 * MAX_OCTETS && IsLength(bits, high, low)
    ensures LengthOctets(bits) == Octets32(high) + Octets32(low)
  {
    hide Octets32;
  }

  function Octet(n: nat): octet
    requires n < 0x100
  {
    n as bv8
  }

  function LengthOctets(bits: nat): (r: seq<octet>)
    requires bits < 8 * MAX_OCTETS
    ensures |r| == 8
  {
    Octets32(bits / TWO_32) + Octets32(bits % TWO_32)
  }

  /** Section 5. */
  function Choose(b: word, c: word, d: word): word { (b & c) | (!b & d) }

  function Parity(b: word, c: word, d: word): word { b ^ c ^ d }

  function Majority(b: word, c: word, d: word): word { (b & c) | (b & d) | (c & d) }

  function F(t: nat, b: word, c: word, d: word): word
  {
    if t < 20 then Choose(b, c, d)
    else if t < 40 then Parity(b, c, d)
    else if t < 60 then Majority(b, c, d)
    else Parity(b, c, d)
  }

  /** In every position that m marks: where B is one Choose is C, where it is zero it is D. */
  lemma ChooseBits(b: word, c: word, d: word, m: word)
    ensures b & m == m ==> Choose(b, c, d) & m == c & m
    ensures b & m == 0 ==> Choose(b, c, d) & m == d & m
  {
  }

  function Marked(x: word, m: word): word { x & m }

  /** ... two operands that agree there decide Majority. */
  lemma MajorityBits(b: word, c: word, d: word, m: word)
    ensures Marked(b, m) == Marked(c, m) ==> Marked(Majority(b, c, d), m) == Marked(b, m)
    ensures Marked(b, m) == Marked(d, m) ==> Marked(Majority(b, c, d), m) == Marked(b, m)
    ensures Marked(c, m) == Marked(d, m) ==> Marked(Majority(b, c, d), m) == Marked(c, m)
  {
    hide Majority;
    hide Marked;
    FirstTwoDecide(b, c, d, m);
    FirstTwoDecide(d, b, c, m);
    FirstTwoDecide(c, d, b, m);
    MajorityTurns(b, c, d);
    MajorityTurns(c, d, b);
  }

  lemma FirstTwoDecide(b: word, c: word, d: word, m: word)
    ensures Marked(b, m) == Marked(c, m) ==> Marked(Majority(b, c, d), m) == Marked(b, m)
  {
  }

  lemma MajorityTurns(b: word, c: word, d: word)
    ensures Majority(b, c, d) == Majority(c, d, b)
  {
  }

  /** ... and Parity is the third operand where two agree, its complement where they differ. */
  lemma ParityBits(b: word, c: word, d: word, m: word)
    ensures b & m == c & m ==> Parity(b, c, d) & m == d & m
    ensures b & m == !c & m ==> Parity(b, c, d) & m == !d & m
  {
  }

  /** Section 6. */
  function K(t: nat): word
  {
    if t < 20 then 0x5A827999 else if t < 40 then 0x6ED9EBA1 else if t < 60 then 0x8F1BBCDC else 0xCA62C1D6
  }

  /** Section 3: the circular left shift. */
  function S(n: bv6, w: word): word
    requires n <= 32
  {
    (w << n) | (w >> (32 - n))
  }

  function Xor4(x: word, y: word, z: word, u: word): word { x ^ y ^ z ^ u }

  function Sum5(x: word, f: word, e: word, w: word, k: word): word { x + f + e + w + k }

  // Section 2: + is addition modulo 2^32. The sums are first taken with room for every carry.

  type wide = bv40

  function Number(x: word): int { x as int }

  function WideNumber(n: wide): int { n as int }

  function LowNumber(n: wide): int { ((n & 0xFFFF_FFFF) as bv32) as int }

  function HighNumber(n: wide): int { ((n >> 32) as bv8) as int }

  lemma TwoParts(n: wide)
    ensures WideNumber(n) == HighNumber(n) * 0x1_0000_0000 + LowNumber(n)
  {
  }

  lemma LowFits(n: wide)
    ensures 0 <= LowNumber(n) < 0x1_0000_0000
  {
  }

  lemma LowIsRemainder(n: wide, sum: int, s: int)
    requires WideNumber(n) == sum && LowNumber(n) == s
    ensures s == sum % TWO_32
  {
    hide WideNumber;
    hide LowNumber;
    hide HighNumber;
    TwoParts(n);
    LowFits(n);
    Remainder(WideNumber(n), HighNumber(n), LowNumber(n));
  }

  lemma Remainder(n: int, q: int, r: int)
    requires n == q * 0x1_0000_0000 + r && 0 <= r < 0x1_0000_0000
    ensures r == n % TWO_32
  {
  }

  lemma Sum5IsModular(x: word, f: word, e: word, w: word, k: word)
    ensures Number(Sum5(x, f, e, w, k)) == (Number(x) + Number(f) + Number(e) + Number(w) + Number(k)) % TWO_32
  {
    hide Sum5;
    hide Number;
    hide WideNumber;
    hide LowNumber;
    WideSum(x, f, e, w, k);
    LowSum(x, f, e, w, k);
    LowIsRemainder(x as wide + f as wide + e as wide + w as wide + k as wide,
      Number(x) + Number(f) + Number(e) + Number(w) + Number(k), Number(Sum5(x, f, e, w, k)));
  }

  lemma WideSum(x: word, f: word, e: word, w: word, k: word)
    ensures WideNumber(x as wide + f as wide + e as wide + w as wide + k as wide)
      == Number(x) + Number(f) + Number(e) + Number(w) + Number(k)
  {
  }

  lemma LowSum(x: word, f: word, e: word, w: word, k: word)
    ensures LowNumber(x as wide + f as wide + e as wide + w as wide + k as wide) == Number(Sum5(x, f, e, w, k))
  {
  }

  lemma AddIsModular(x: word, y: word)
    ensures Number(Add(x, y)) == (Number(x) + Number(y)) % TWO_32
  {
    hide Add;
    hide Number;
    hide WideNumber;
    hide LowNumber;
    WideAdd(x, y);
    LowAdd(x, y);
    LowIsRemainder(x as wide + y as wide, Number(x) + Number(y), Number(Add(x, y)));
  }

  lemma WideAdd(x: word, y: word)
    ensures WideNumber(x as wide + y as wide) == Number(x) + Number(y)
  {
  }

  lemma LowAdd(x: word, y: word)
    ensures LowNumber(x as wide + y as wide) == Number(Add(x, y))
  {
  }

  /** Section 7: the word sequence of a block. */
  function W(block: seq<octet>, t: nat): word
    requires |block| == 64 && t < 80
  {
    if t < 16 then WordOf(block[4 * t], block[4 * t + 1], block[4 * t + 2], block[4 * t + 3])
    else S(1, Xor4(W(block, t - 3), W(block, t - 8), W(block, t - 14), W(block, t - 16)))
  }

  function Round(r: Registers, t: nat, w: word): Registers
  {
    Registers(Sum5(S(5, r.a), F(t, r.b, r.c, r.d), r.e, w, K(t)), r.a, S(30, r.b), r.c, r.d)
  }

  /** The registers after the first t rounds. */
  function Rounds(h: Registers, block: seq<octet>, t: nat): Registers
    requires |block| == 64 && t <= 80
  {
    if t == 0 then h else Round(Rounds(h, block, t - 1), t - 1, W(block, t - 1))
  }

  function Compress(h: Registers, block: seq<octet>): Registers
    requires |block| == 64
  {
    Plus(h, Rounds(h, block, 80))
  }

  function Add(x: word, y: word): word { x + y }

  function Plus(h: Registers, r: Registers): Registers
  {
    Registers(Add(h.a, r.a), Add(h.b, r.b), Add(h.c, r.c), Add(h.d, r.d), Add(h.e, r.e))
  }

  function Blocks(h: Registers, m: seq<octet>): Registers
    requires |m| % 64 == 0
    decreases |m|
  {
    if m == [] then h else Blocks(Compress(h, m[..64]), m[64..])
  }

  const H0 := Registers(0x67452301, 0xEFCDAB89, 0x98BADCFE, 0x10325476, 0xC3D2E1F0)

  function Digest(m: seq<octet>): Registers
    requires |m| < MAX_OCTETS
  {
    Blocks(H0, Padded(m))
  }

  lemma {:induction false} BlocksConcat(h: Registers, a: seq<octet>, b: seq<octet>)
    requires |a| % 64 == 0 && |b| % 64 == 0
    ensures Blocks(h, a + b) == Blocks(Blocks(h, a), b)
    decreases |a|
  {
    hide Compress;
    if a == [] {
      assert a + b == b;
    } else {
      assert (a + b)[..64] == a[..64] && (a + b)[64..] == a[64..] + b;
      BlocksConcat(Compress(h, a[..64]), a[64..], b);
    }
  }

  lemma OneBlock(h: Registers, a: seq<octet>, block: seq<octet>)
    requires |a| % 64 == 0 && |block| == 64
    ensures Blocks(h, a + block) == Compress(Blocks(h, a), block)
  {
    hide Compress;
    BlocksConcat(h, a, block);
    assert block[..64] == block && block[64..] == [];
    assert Blocks(Compress(Blocks(h, a), block), []) == Compress(Blocks(h, a), block);
  }

  /** With at most 55 bytes left over, the padded message ends in one block made of them, the one bit, zeros and the
      length. */
  lemma PaddedShortTail(m: seq<octet>, rest: seq<octet>)
    requires |m| < MAX_OCTETS && rest == m[|m| - |m| % 64..] && |rest| <= 55
    ensures Padded(m) == m[..|m| - |rest|] + (rest + [0x80] + seq(55 - |rest|, i => 0) + LengthOctets(8 * |m|))
  {
    hide LengthOctets;
    hide Zeros;
    ZerosFill(|m|);
    assert m == m[..|m| - |rest|] + rest;
  }

  /** With more, in two: the length goes into a block of its own. */
  lemma PaddedLongTail(m: seq<octet>, rest: seq<octet>)
    requires |m| < MAX_OCTETS && rest == m[|m| - |m| % 64..] && |rest| > 55
    ensures Padded(m) == m[..|m| - |rest|] + (rest + [0x80] + seq(63 - |rest|, i => 0))
      + (seq(56, i => 0) + LengthOctets(8 * |m|))
  {
    hide LengthOctets;
    hide Zeros;
    ZerosFill(|m|);
    assert m == m[..|m| - |rest|] + rest;
    assert seq(119 - |rest|, i => 0 as bv8) == seq(63 - |rest|, i => 0) + seq(56, i => 0);
  }
}
