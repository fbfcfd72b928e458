/** Bytes, machine words and the two ways a host lays a word out in memory. */
module Bytes {
  type byte = b: int | 0 <= b < 0x100
  type u16 = x: int | 0 <= x < 0x1_0000
  type u32 = x: int | 0 <= x < 0x1_0000_0000

  datatype Host = LittleEndian | BigEndian

  /** C's conversions to the unsigned types: reduction modulo the width. */
  function ToU16(x: int): (r: u16)
    ensures 0 <= x < 0x1_0000 ==> r == x
  {
    x % 0x1_0000
  }

  function ToU32(x: int): (r: u32)
    ensures 0 <= x < 0x1_0000_0000 ==> r == x
  {
    x % 0x1_0000_0000
  }

  /** `int n = ntohl(x)`: the upper half of the unsigned range turns negative. */
  function ToInt32(x: u32): int { if x < 0x8000_0000 then x else x - 0x1_0000_0000 }

  // Network order
  function BE16(v: u16): (s: seq<byte>)
    ensures |s| == 2
  {
    [v / 0x100, v % 0x100]
  }

  function BE32(v: u32): (s: seq<byte>)
    ensures |s| == 4
  {
    BE16(v / 0x1_0000) + BE16(v % 0x1_0000)
  }

  function ReadBE16(hi: byte, lo: byte): u16 { 0x100 * hi + lo }

  function ReadBE32(b0: byte, b1: byte, b2: byte, b3: byte): u32
  {
    0x1_0000 * ReadBE16(b0, b1) + ReadBE16(b2, b3)
  }

  function Swap16(v: u16): u16 { ReadBE16(v % 0x100, v / 0x100) }

  function Swap32(v: u32): u32 { ReadBE32(v % 0x100, v / 0x100 % 0x100, v / 0x1_0000 % 0x100, v / 0x100_0000) }

  /** The integer a host sees in a field whose bytes, read in network order, are `v`; `Net16` goes back. */
  function Raw16(host: Host, v: u16): u16 { if host.BigEndian? then v else Swap16(v) }

  function Net16(host: Host, raw: u16): u16 { if host.BigEndian? then raw else Swap16(raw) }

  function Net32(host: Host, raw: u32): u32 { if host.BigEndian? then raw else Swap32(raw) }

  lemma Parts16(hi: byte, lo: byte)
    ensures ReadBE16(hi, lo) / 0x100 == hi && ReadBE16(hi, lo) % 0x100 == lo
  {
  }

  lemma Parts32(b0: byte, b1: byte, b2: byte, b3: byte)
    ensures var v := ReadBE32(b0, b1, b2, b3);
      v / 0x100_0000 == b0 && v / 0x1_0000 % 0x100 == b1 && v / 0x100 % 0x100 == b2 && v % 0x100 == b3
  {
    var v, h := ReadBE32(b0, b1, b2, b3), ReadBE16(b0, b1);
    assert v / 0x1_0000 == h;
    assert v / 0x100_0000 == h / 0x100;
    assert v / 0x100 == 0x100 * h + b2;
  }

  lemma Whole32(v: u32)
    ensures v / 0x1_0000 / 0x100 == v / 0x100_0000 && v % 0x1_0000 / 0x100 == v / 0x100 % 0x100
    ensures v == ReadBE32(v / 0x100_0000, v / 0x1_0000 % 0x100, v / 0x100 % 0x100, v % 0x100)
  {
  }

  lemma NetRaw16(host: Host, v: u16)
    ensures Net16(host, Raw16(host, v)) == v && Raw16(host, Net16(host, v)) == v
    ensures Raw16(host, v) == 0 <==> v == 0
  {
    Parts16(v % 0x100, v / 0x100);
  }

  lemma NetRaw32(host: Host, v: u32)
    ensures Net32(host, Net32(host, v)) == v
  {
    Whole32(v);
    Parts32(v % 0x100, v / 0x100 % 0x100, v / 0x1_0000 % 0x100, v / 0x100_0000);
  }

  lemma ReadBack32(v: u32)
    ensures var s := BE32(v); ReadBE32(s[0], s[1], s[2], s[3]) == v
  {
    Whole32(v);
  }

  lemma ReadAgain16(hi: byte, lo: byte)
    ensures BE16(ReadBE16(hi, lo)) == [hi, lo]
  {
    Parts16(hi, lo);
  }

  lemma ReadAgain32(b0: byte, b1: byte, b2: byte, b3: byte)
    ensures BE32(ReadBE32(b0, b1, b2, b3)) == [b0, b1, b2, b3]
  {
    Parts32(b0, b1, b2, b3);
    Whole32(ReadBE32(b0, b1, b2, b3));
  }

  // Against the layouts themselves

  /** What a host sees in a word whose bytes, lowest address first, are these. */
  function HostWord16(host: Host, b0: byte, b1: byte): int
  {
    if host.BigEndian? then 0x100 * b0 + b1 else 0x100 * b1 + b0
  }

  function HostWord32(host: Host, b0: byte, b1: byte, b2: byte, b3: byte): int
  {
    if host.BigEndian? then 0x100_0000 * b0 + 0x1_0000 * b1 + 0x100 * b2 + b3
    else 0x100_0000 * b3 + 0x1_0000 * b2 + 0x100 * b1 + b0
  }

  /** ntohs and htons, ntohl and htonl: what the host sees in the bytes and what they mean in network order. */
  lemma NetworkOrder16(host: Host, b0: byte, b1: byte)
    ensures var w, v := HostWord16(host, b0, b1), 0x100 * b0 + b1;
      0 <= w < 0x1_0000 && 0 <= v < 0x1_0000 && Net16(host, w) == v && Raw16(host, v) == w && BE16(v) == [b0, b1]
  {
    Parts16(b0, b1);
    Parts16(b1, b0);
    ReadAgain16(b0, b1);
  }

  lemma NetworkOrder32(host: Host, b0: byte, b1: byte, b2: byte, b3: byte)
    ensures var w, v := HostWord32(host, b0, b1, b2, b3), 0x100_0000 * b0 + 0x1_0000 * b1 + 0x100 * b2 + b3;
      0 <= w < 0x1_0000_0000 && 0 <= v < 0x1_0000_0000 && Net32(host, w) == v && Net32(host, v) == w
      && BE32(v) == [b0, b1, b2, b3]
  {
    Parts32(b0, b1, b2, b3);
    Parts32(b3, b2, b1, b0);
    ReadAgain32(b0, b1, b2, b3);
    assert ReadBE32(b0, b1, b2, b3) == 0x100_0000 * b0 + 0x1_0000 * b1 + 0x100 * b2 + b3;
    assert ReadBE32(b3, b2, b1, b0) == 0x100_0000 * b3 + 0x1_0000 * b2 + 0x100 * b1 + b0;
  }

  /** A conversion to an unsigned type moves a number by whole turns; to int it keeps the lower half. */
  lemma Wraps(x: int)
    ensures ToU32(x) == x - 0x1_0000_0000 * (x / 0x1_0000_0000) && ToU16(x) == x - 0x1_0000 * (x / 0x1_0000)
  {
  }

  lemma SignedWraps(x: u32)
    ensures -0x8000_0000 <= ToInt32(x) < 0x8000_0000 && (ToInt32(x) == x || ToInt32(x) == x - 0x1_0000_0000)
  {
  }
}
