/** sha1.c: the streaming context, proved to compute the digest of the concatenation of its inputs. */
module Sha1 {
  import opened Sha1Standard

  class Sha1Context {
    const digest: array<word>
    const block: array<octet>
    var lengthLow: nat
    var lengthHigh: nat
    var index: nat
    var computed: bool
    var corrupted: bool
    ghost var absorbed: seq<octet>

    ghost function Regs(): Registers
      requires digest.Length == 5
      reads digest
    {
      Registers(digest[0], digest[1], digest[2], digest[3], digest[4])
    }

    predicate Shaped() { digest.Length == 5 && block.Length == 64 }

    /** The two length words hold the number of bits absorbed, modulo 2^64. */
    ghost predicate Counted()
      reads this`lengthLow, this`lengthHigh, this`absorbed
    {
      && lengthLow < TWO_32 && lengthHigh < TWO_32 && |absorbed| <= MAX_OCTETS
      && TWO_32 * lengthHigh + lengthLow == if |absorbed| == MAX_OCTETS then 0 else 8 * |absorbed|
    }

    /** Whole blocks are in the registers, the rest is in the block array. */
    ghost predicate Streaming()
      requires Shaped()
      reads this`index, this`absorbed, digest, block
    {
      && index == |absorbed| % 64
      && Regs() == Blocks(H0, absorbed[..|absorbed| - index])
      && block[..index] == absorbed[|absorbed| - index..]
    }

    ghost predicate Valid()
      reads this, digest, block
    {
      && Shaped()
      && (!computed ==> Counted() && Streaming() && (corrupted <==> |absorbed| == MAX_OCTETS))
      && (computed ==> |absorbed| < MAX_OCTETS && Regs() == Digest(absorbed))
    }

    constructor ()
      ensures Shaped() && fresh(digest) && fresh(block)
    {
      digest, block := new word[5], new octet[64];
      lengthLow, lengthHigh, index, computed, corrupted, absorbed := 0, 0, 0, false, false, [];
    }

    /** SHA1Reset: whatever the context held before. */
    method Reset()
      requires Shaped()
      modifies this, digest
      ensures Valid() && absorbed == [] && !computed && !corrupted
    {
      lengthLow, lengthHigh, index := 0, 0, 0;
      digest[0], digest[1], digest[2] := 0x67452301, 0xEFCDAB89, 0x98BADCFE;
      digest[3], digest[4] := 0x10325476, 0xC3D2E1F0;
      computed, corrupted, absorbed := false, false, [];
    }

    /** The macro SHA1CircularShift. */
    static function CircularShift(bits: bv6, w: word): word
      requires bits < 32
    {
      ((w << bits) & 0xFFFFFFFF) | (w >> (32 - bits))
    }

    static lemma CircularShifts(w: word)
      ensures CircularShift(1, w) == S(1, w)
      ensures CircularShift(5, w) == S(5, w)
      ensures CircularShift(30, w) == S(30, w)
    {
    }

    static lemma Shifted(b0: octet, b1: octet, b2: octet, b3: octet)
      ensures (b0 as bv32 << 24) | (b1 as bv32 << 16) | (b2 as bv32 << 8) | (b3 as bv32) == WordOf(b0, b1, b2, b3)
    {
    }

    static lemma FirstWords(m: seq<octet>, t: nat)
      requires |m| == 64 && t < 16
      ensures W(m, t)
        == (((m[t * 4] as bv32 << 24) | (m[t * 4 + 1] as bv32 << 16)) | (m[t * 4 + 2] as bv32 << 8)) | (m[t * 4 + 3] as bv32)
    {
      Shifted(m[t * 4], m[t * 4 + 1], m[t * 4 + 2], m[t * 4 + 3]);
    }

    static lemma LaterWords(m: seq<octet>, t: nat)
      requires |m| == 64 && 16 <= t < 80
      ensures W(m, t) == CircularShift(1, Xor4(W(m, t - 3), W(m, t - 8), W(m, t - 14), W(m, t - 16)))
    {
      hide Xor4;
      hide CircularShift;
      hide S;
      CircularShifts(Xor4(W(m, t - 3), W(m, t - 8), W(m, t - 14), W(m, t - 16)));
    }

    /** The first loop of SHA1ProcessMessageBlock, and the second. */
    method Schedule() returns (w: array<word>)
      requires Shaped()
      ensures fresh(w) && w.Length == 80 && forall j :: 0 <= j < 80 ==> w[j] == W(block[..], j)
    {
      hide W;
      hide CircularShift;
      hide S;
      hide Xor4;
      w := new word[80];
      ghost var m := block[..];
      for t := 0 to 16
        invariant block[..] == m && forall j :: 0 <= j < t ==> w[j] == W(m, j)
        modifies w
      {
        FirstWord(w, t);
      }
      for t := 16 to 80
        invariant block[..] == m && forall j :: 0 <= j < t ==> w[j] == W(m, j)
        modifies w
      {
        LaterWords(m, t);
        var mixed := Mixed(w[t - 3], w[t - 8], w[t - 14], w[t - 16]);
        w[t] := CircularShift(1, mixed);
      }
    }

    /** The body of the first loop. */
    method FirstWord(w: array<word>, t: nat)
      requires Shaped() && w.Length == 80 && t < 16
      modifies w
      ensures w[..] == old(w[..])[t := W(block[..], t)]
    {
      hide W;
      w[t] := block[t * 4] as bv32 << 24;
      w[t] := w[t] | (block[t * 4 + 1] as bv32 << 16);
      w[t] := w[t] | (block[t * 4 + 2] as bv32 << 8);
      w[t] := w[t] | (block[t * 4 + 3] as bv32);
      FirstWords(block[..], t);
    }

    /** One pass of any of the four round loops, with its function of B, C, D and its constant. */
    static lemma NextRound(h: Registers, m: seq<octet>, t: nat, r: Registers, f: word, k: word)
      requires |m| == 64 && t < 80 && r == Rounds(h, m, t)
      requires f == F(t, r.b, r.c, r.d) && k == K(t)
      ensures Registers(Sum5(CircularShift(5, r.a), f, r.e, W(m, t), k), r.a, CircularShift(30, r.b), r.c, r.d)
        == Rounds(h, m, t + 1)
    {
      hide CircularShift;
      hide S;
      hide Sum5;
      hide F;
      hide K;
      hide W;
      CircularShifts(r.a);
      CircularShifts(r.b);
    }

    /** The sum that every round forms; f is the round's function of B, C, D, k its constant. */
    static method Temp(shifted: word, f: word, e: word, w: word, k: word) returns (temp: word)
      ensures temp == Sum5(shifted, f, e, w, k)
    {
      temp := shifted + f + e + w + k;
    }

    // The expressions in B, C, D of the four round loops, the second and the last being the same.

    static method BitsOfBChoose(b: word, c: word, d: word) returns (f: word)
      ensures f == Choose(b, c, d)
    {
      f := (b & c) | ((!b) & d);
    }

    static method OddOnes(b: word, c: word, d: word) returns (f: word)
      ensures f == Parity(b, c, d)
    {
      f := b ^ c ^ d;
    }

    static method MostOnes(b: word, c: word, d: word) returns (f: word)
      ensures f == Majority(b, c, d)
    {
      f := (b & c) | (b & d) | (c & d);
    }

    static method Mixed(x: word, y: word, z: word, u: word) returns (r: word)
      ensures r == Xor4(x, y, z, u)
    {
      r := x ^ y ^ z ^ u;
    }

    static method Added(x: word, y: word) returns (r: word)
      ensures r == Add(x, y)
    {
      r := x + y;
    }

    /** The first two round loops of SHA1ProcessMessageBlock. */
    static method FirstHalf(w: array<word>, r: Registers, ghost h: Registers, ghost m: seq<octet>) returns (r': Registers)
      requires |m| == 64 && w.Length == 80 && forall j :: 0 <= j < 80 ==> w[j] == W(m, j)
      requires r == Rounds(h, m, 0)
      ensures r' == Rounds(h, m, 40)
    {
      hide W;
      hide CircularShift;
      hide S;
      hide Sum5;
      hide Rounds;
      hide F;
      hide K;
      hide Choose;
      hide Parity;
      hide Majority;
      var a, b, c, d, e := r.a, r.b, r.c, r.d, r.e;
      for t := 0 to 20
        invariant Registers(a, b, c, d, e) == Rounds(h, m, t)
      {
        Quarter(t, b, c, d);
        NextRound(h, m, t, Registers(a, b, c, d, e), Choose(b, c, d), 0x5A827999);
        var f := BitsOfBChoose(b, c, d);
        var temp := Temp(CircularShift(5, a), f, e, w[t], 0x5A827999);
        e, d, c, b, a := d, c, CircularShift(30, b), a, temp;
      }
      for t := 20 to 40
        invariant Registers(a, b, c, d, e) == Rounds(h, m, t)
      {
        Quarter(t, b, c, d);
        NextRound(h, m, t, Registers(a, b, c, d, e), Parity(b, c, d), 0x6ED9EBA1);
        var f := OddOnes(b, c, d);
        var temp := Temp(CircularShift(5, a), f, e, w[t], 0x6ED9EBA1);
        e, d, c, b, a := d, c, CircularShift(30, b), a, temp;
      }
      r' := Registers(a, b, c, d, e);
    }

    /** The last two. */
    static method SecondHalf(w: array<word>, r: Registers, ghost h: Registers, ghost m: seq<octet>) returns (r': Registers)
      requires |m| == 64 && w.Length == 80 && forall j :: 0 <= j < 80 ==> w[j] == W(m, j)
      requires r == Rounds(h, m, 40)
      ensures r' == Rounds(h, m, 80)
    {
      hide W;
      hide CircularShift;
      hide S;
      hide Sum5;
      hide Rounds;
      hide F;
      hide K;
      hide Choose;
      hide Parity;
      hide Majority;
      var a, b, c, d, e := r.a, r.b, r.c, r.d, r.e;
      for t := 40 to 60
        invariant Registers(a, b, c, d, e) == Rounds(h, m, t)
      {
        Quarter(t, b, c, d);
        NextRound(h, m, t, Registers(a, b, c, d, e), Majority(b, c, d), 0x8F1BBCDC);
        var f := MostOnes(b, c, d);
        var temp := Temp(CircularShift(5, a), f, e, w[t], 0x8F1BBCDC);
        e, d, c, b, a := d, c, CircularShift(30, b), a, temp;
      }
      for t := 60 to 80
        invariant Registers(a, b, c, d, e) == Rounds(h, m, t)
      {
        Quarter(t, b, c, d);
        NextRound(h, m, t, Registers(a, b, c, d, e), Parity(b, c, d), 0xCA62C1D6);
        var f := OddOnes(b, c, d);
        var temp := Temp(CircularShift(5, a), f, e, w[t], 0xCA62C1D6);
        e, d, c, b, a := d, c, CircularShift(30, b), a, temp;
      }
      r' := Registers(a, b, c, d, e);
    }

    method ProcessMessageBlock()
      requires Shaped()
      modifies this`index, digest
      ensures Regs() == Compress(old(Regs()), block[..]) && index == 0
    {
      hide W;
      hide Rounds;
      hide Plus;
      ghost var h, m := Regs(), block[..];
      var w := Schedule();
      NoRounds(h, m);
      var r := FirstHalf(w, Registers(digest[0], digest[1], digest[2], digest[3], digest[4]), h, m);
      r := SecondHalf(w, r, h, m);
      AddIn(r.a, r.b, r.c, r.d, r.e);
      index := 0;
    }

    method AddIn(a: word, b: word, c: word, d: word, e: word)
      requires Shaped()
      modifies digest
      ensures Regs() == Plus(old(Regs()), Registers(a, b, c, d, e))
    {
      hide Add;
      digest[0] := Added(digest[0], a);
      digest[1] := Added(digest[1], b);
      digest[2] := Added(digest[2], c);
      digest[3] := Added(digest[3], d);
      digest[4] := Added(digest[4], e);
    }

    static lemma Quarter(t: nat, b: word, c: word, d: word)
      ensures t < 20 ==> F(t, b, c, d) == Choose(b, c, d) && K(t) == 0x5A827999
      ensures 20 <= t < 40 ==> F(t, b, c, d) == Parity(b, c, d) && K(t) == 0x6ED9EBA1
      ensures 40 <= t < 60 ==> F(t, b, c, d) == Majority(b, c, d) && K(t) == 0x8F1BBCDC
      ensures 60 <= t < 80 ==> F(t, b, c, d) == Parity(b, c, d) && K(t) == 0xCA62C1D6
    {
    }

    static lemma NoRounds(h: Registers, m: seq<octet>)
      requires |m| == 64
      ensures Rounds(h, m, 0) == h
    {
    }

    // ---------- SHA1Input ----------

    /** The two length words after one more byte. */
    static lemma CountOneMore(low: nat, high: nat, n: nat)
      requires low < TWO_32 && high < TWO_32 && n < MAX_OCTETS && TWO_32 * high + low == 8 * n
      ensures var low1 := (low + 8) % TWO_32; var high1 := if low1 == 0 then (high + 1) % TWO_32 else high;
        && TWO_32 * high1 + low1 == (if n + 1 == MAX_OCTETS then 0 else 8 * (n + 1))
        && (low1 == 0 && high1 == 0 <==> n + 1 == MAX_OCTETS)
    {
      assert low % 8 == 0 by { assert low == 8 * (n - 0x2000_0000 * high); }
      if low + 8 < TWO_32 {
      } else {
        assert low + 8 == TWO_32;
        if high + 1 == TWO_32 { assert 8 * (n + 1) == 8 * MAX_OCTETS; }
      }
    }

    method CountByte()
      requires !corrupted && |absorbed| < MAX_OCTETS && Counted()
      modifies this`lengthLow, this`lengthHigh, this`corrupted
      ensures lengthLow < TWO_32 && lengthHigh < TWO_32 && (corrupted <==> |absorbed| + 1 == MAX_OCTETS)
      ensures TWO_32 * lengthHigh + lengthLow == if |absorbed| + 1 == MAX_OCTETS then 0 else 8 * (|absorbed| + 1)
    {
      CountOneMore(lengthLow, lengthHigh, |absorbed|);
      lengthLow := (lengthLow + 8) % TWO_32;
      if lengthLow == 0 {
        lengthHigh := (lengthHigh + 1) % TWO_32;
        if lengthHigh == 0 {
          corrupted := true;
        }
      }
    }

    /** Streaming, but with the block array possibly full. */
    ghost predicate Filled()
      requires Shaped()
      reads this`index, this`absorbed, digest, block
    {
      && index <= 64 && index <= |absorbed| && (|absorbed| - index) % 64 == 0
      && Regs() == Blocks(H0, absorbed[..|absorbed| - index])
      && block[..index] == absorbed[|absorbed| - index..]
    }

    method StoreByte(x: octet)
      requires Shaped() && Streaming()
      modifies this`index, this`absorbed, block
      ensures Filled() && absorbed == old(absorbed) + [x] && index == old(index) + 1
    {
      hide Blocks;
      ghost var m := absorbed;
      Multiple(|m|);
      block[index] := x;
      index := index + 1;
      absorbed := m + [x];
      assert absorbed[..|absorbed| - index] == m[..|absorbed| - index];
    }

    static lemma Multiple(n: nat)
      ensures n % 64 <= n && (n - n % 64) % 64 == 0
    {
    }

    static lemma Remainder(n: nat, index: nat)
      requires index < 64 && index <= n && (n - index) % 64 == 0
      ensures index == n % 64
    {
    }

    /** SHA1ProcessMessageBlock where SHA1Input calls it. */
    method ProcessIfFull()
      requires Shaped() && Filled()
      modifies this`index, digest
      ensures Streaming()
    {
      hide Blocks;
      hide Compress;
      if index == 64 {
        OneBlock(H0, absorbed[..|absorbed| - 64], block[..]);
        assert absorbed == absorbed[..|absorbed| - 64] + block[..];
        Multiple(|absorbed| - 64);
        ProcessMessageBlock();
        assert absorbed[..|absorbed|] == absorbed;
      } else {
        Remainder(|absorbed|, index);
      }
    }

    /** The body of SHA1Input's loop. */
    method AbsorbByte(x: octet)
      requires Valid() && !computed && !corrupted
      modifies this, digest, block
      ensures Valid() && !computed && absorbed == old(absorbed) + [x]
    {
      hide Streaming;
      hide Filled;
      hide Regs;
      CountByte();
      StoreByte(x);
      ProcessIfFull();
    }

    /** SHA1Input. */
    method Input(message: seq<octet>)
      requires Valid() && |message| < TWO_32
      modifies this, digest, block
      ensures Valid() && computed == old(computed)
      ensures message == [] || old(computed || corrupted) ==> absorbed == old(absorbed)
      ensures message == [] ==> corrupted == old(corrupted)
      ensures message != [] && old(computed || corrupted) ==> corrupted
      ensures message != [] && !old(computed || corrupted) ==>
        var left := MAX_OCTETS - |old(absorbed)|;
        absorbed == old(absorbed) + message[..if |message| < left then |message| else left]
    {
      hide Streaming;
      hide Regs;
      hide Digest;
      if |message| == 0 {
        return;
      }
      if computed || corrupted {
        corrupted := true;
        return;
      }
      var length, p := |message|, 0;
      while length != 0 && !corrupted
        invariant 0 <= length && p + length == |message|
        invariant Valid() && !computed && absorbed == old(absorbed) + message[..p]
      {
        AbsorbByte(message[p]);
        assert message[..p + 1] == message[..p] + [message[p]];
        length, p := length - 1, p + 1;
      }
    }

    // ---------- SHA1PadMessage, SHA1Result ----------

    /** Zeros from the index up to `end`. */
    method ZeroFill(end: nat)
      requires Shaped() && index <= end <= 64
      modifies this`index, block
      ensures index == end && block[..end] == old(block[..index]) + seq(end - old(index), i => 0)
    {
      while index < end
        invariant old(index) <= index <= end
        invariant block[..index] == old(block[..index]) + seq(index - old(index), i => 0)
        modifies this`index, block
      {
        block[index] := 0;
        index := index + 1;
      }
    }

    /** The last 8 octets. */
    method StoreLength()
      requires Shaped() && lengthLow < TWO_32 && lengthHigh < TWO_32
      modifies block
      ensures block[..] == old(block[..56]) + Octets32(lengthHigh) + Octets32(lengthLow)
    {
      hide Octets32;
      StoreWord(56, lengthHigh);
      StoreWord(60, lengthLow);
    }

    method StoreWord(at: nat, n: nat)
      requires Shaped() && at + 4 <= 64 && n < TWO_32
      modifies block
      ensures block[..] == old(block[..at]) + Octets32(n) + old(block[at + 4..])
    {
      hide Octet;
      block[at] := Octet(n / 0x100_0000);
      block[at + 1] := Octet(n / 0x1_0000 % 0x100);
      block[at + 2] := Octet(n / 0x100 % 0x100);
      block[at + 3] := Octet(n % 0x100);
    }

    /** 0x80, then zeros. */
    method MarkAndFill(end: nat)
      requires Shaped() && index < end <= 64
      modifies this`index, block
      ensures index == end && block[..end] == old(block[..index]) + [0x80] + seq(end - old(index) - 1, i => 0)
    {
      block[index] := 0x80;
      index := index + 1;
      ZeroFill(end);
    }

    // The branches of SHA1PadMessage. What is processed, the 56 bytes before the length, and the length make up the padded
    // message.

    method FillTwoBlocks() returns (ghost done: seq<octet>)
      requires Valid() && !computed && !corrupted && index > 55
      modifies this`index, digest, block
      ensures |done| % 64 == 0 && Regs() == Blocks(H0, done)
      ensures Padded(absorbed) == done + (block[..56] + LengthOctets(8 * |absorbed|))
    {
      hide Blocks;
      hide Compress;
      hide LengthOctets;
      hide Padded;
      ghost var m, rest := absorbed, block[..index];
      done := m[..|m| - |rest|];
      Multiple(|m|);
      PaddedLongTail(m, rest);
      MarkAndFill(64);
      ghost var first := block[..];
      assert first == block[..64];
      OneBlock(H0, done, first);
      ProcessMessageBlock();
      ZeroFill(56);
      done := done + first;
      assert block[..56] == seq(56, i => 0 as bv8);
    }

    method FillOneBlock() returns (ghost done: seq<octet>)
      requires Valid() && !computed && !corrupted && index <= 55
      modifies this`index, digest, block
      ensures |done| % 64 == 0 && Regs() == Blocks(H0, done)
      ensures Padded(absorbed) == done + (block[..56] + LengthOctets(8 * |absorbed|))
    {
      hide Blocks;
      hide Compress;
      hide LengthOctets;
      hide Padded;
      ghost var m, rest := absorbed, block[..index];
      done := m[..|m| - |rest|];
      Multiple(|m|);
      PaddedShortTail(m, rest);
      MarkAndFill(56);
      ghost var len := LengthOctets(8 * |m|);
      assert rest + [0x80] + seq(55 - |rest|, i => 0) + len == block[..56] + len;
    }

    method FillToLength() returns (ghost done: seq<octet>)
      requires Valid() && !computed && !corrupted
      modifies this`index, digest, block
      ensures |done| % 64 == 0 && Regs() == Blocks(H0, done)
      ensures Padded(absorbed) == done + (block[..56] + LengthOctets(8 * |absorbed|))
    {
      hide Blocks;
      hide Compress;
      hide LengthOctets;
      hide Padded;
      hide Streaming;
      if index > 55 {
        done := FillTwoBlocks();
      } else {
        done := FillOneBlock();
      }
    }

    method PadMessage()
      requires Valid() && !computed && !corrupted
      modifies this`index, digest, block
      ensures Regs() == Digest(absorbed)
    {
      hide Blocks;
      hide Compress;
      hide Octets32;
      hide Padded;
      hide Streaming;
      ghost var done := FillToLength();
      ghost var front := block[..56];
      StoreLength();
      assert block[..] == front + LengthOctets(8 * |absorbed|);
      OneBlock(H0, done, block[..]);
      ProcessMessageBlock();
    }

    /** SHA1Result. */
    method Result() returns (ok: bool)
      requires Valid()
      modifies this, digest, block
      ensures ok == !old(corrupted) && absorbed == old(absorbed) && corrupted == old(corrupted) && Valid()
      ensures ok ==> computed && Regs() == Digest(absorbed)
      ensures !ok ==> computed == old(computed)
    {
      if corrupted {
        return false;
      }
      if !computed {
        PadMessage();
        computed := true;
      }
      return true;
    }
  }

  function Concat(pieces: seq<seq<octet>>): seq<octet>
  {
    if pieces == [] then [] else Concat(pieces[..|pieces| - 1]) + pieces[|pieces| - 1]
  }

  /** Cut a message any way into SHA1Input calls: the result is the digest of the whole, and SHA1Result fails exactly
      when the whole has 2^64 bits or more. */
  method Hash(pieces: seq<seq<octet>>) returns (ok: bool, regs: Registers)
    requires forall i :: 0 <= i < |pieces| ==> |pieces[i]| < TWO_32
    ensures ok <==> |Concat(pieces)| < MAX_OCTETS
    ensures ok ==> regs == Digest(Concat(pieces))
  {
    var context := new Sha1Context();
    context.Reset();
    for i := 0 to |pieces|
      invariant context.Valid() && !context.computed
      invariant !context.corrupted ==> context.absorbed == Concat(pieces[..i])
      invariant context.corrupted ==> |Concat(pieces[..i])| >= MAX_OCTETS
      invariant fresh(context) && fresh(context.digest) && fresh(context.block)
    {
      assert pieces[..i + 1][..i] == pieces[..i];
      context.Input(pieces[i]);
    }
    assert pieces[..|pieces|] == pieces;
    ok := context.Result();
    regs := Registers(context.digest[0], context.digest[1], context.digest[2], context.digest[3], context.digest[4]);
  }
}
