/** ctcp_segment_t as a heap object, and the translation functions that zero and restore its checksum field. */
module Segments {
  import opened Bytes
  import opened Checksum
  import opened Wire

  class Segment {
    var seqno: u32
    var ackno: u32
    var pad: u16
    var flags: u32
    var window: u16
    var cksum: u16
    const data: seq<byte>

    function Value(): Seg
      reads this
    {
      Seg(seqno, ackno, pad, flags, window, cksum, data)
    }

    constructor (s: Seg)
      ensures Value() == s
    {
      seqno, ackno, pad, flags, window, cksum, data := s.seqno, s.ackno, s.pad, s.flags, s.window, s.cksum, s.data;
    }

    /** cksum(segment, len), as the value its two bytes encode. */
    method Cksum(host: Host) returns (c: u16)
      requires |data| < 0x1_0000 - HEADER
      ensures c == Checksum.Cksum(Encode(host, Value()))
    {
      var raw := ComputeCksum(host, Encode(host, Value()));
      c := Net16(host, raw);
      NetRaw16(host, Checksum.Cksum(Encode(host, Value())));
    }

    /** `segment->ackno = ...; segment->cksum = cksum(segment, len)`. */
    method Stamp(host: Host, ackno: u32)
      requires |data| < 0x1_0000 - HEADER
      modifies this`ackno, this`cksum
      ensures Value() == Wire.Stamp(host, old(Value()), ackno)
    {
      this.ackno := ackno;
      cksum := Cksum(host);
    }

    /** checksum() of ctcp.c: it leaves the field zeroed. */
    method ChecksumOk(host: Host) returns (ok: bool)
      requires |data| < 0x1_0000 - HEADER
      modifies this`cksum
      ensures ok == Passes(host, old(Value())) && Value() == old(Value()).(cksum := 0)
    {
      var received := cksum;
      cksum := 0;
      var expected := Cksum(host);
      return received == expected;
    }
  }

  function Values(q: seq<Segment>): (v: seq<Seg>)
    reads q
    ensures |v| == |q|
  {
    seq(|q|, i requires 0 <= i < |q| reads q => q[i].Value())
  }

  /** A datagram being built or taken apart. */
  class DatagramBuffer {
    var d: Datagram

    constructor (d: Datagram)
      ensures this.d == d
    {
      this.d := d;
    }

    /** cksum_tcp: copies pseudo-header, header and data into a buffer and sums it. */
    method TcpCksum(host: Host, len: nat) returns (raw: u16)
      requires len <= |d.payload| && len <= MAX_WIRE_DATA
      ensures raw == Raw16(host, Cksum(PseudoBytes(d, len)))
    {
      raw := ComputeCksum(host, PseudoBytes(d, len));
    }
  }

  method ConvertToDatagram(host: Host, dst: Peer, segment: Segment, addAck: bool) returns (p: DatagramBuffer)
    requires |segment.data| <= MAX_WIRE_DATA
    modifies segment`cksum
    ensures segment.Value() == old(segment.Value())
    ensures fresh(p) && p.d == ToDatagram(host, dst, old(segment.Value()), addAck)
  {
    hide Encode;
    hide PseudoBytes;
    hide Raw16;
    hide Net16;
    hide LowFlags;
    var len := |segment.data|;
    p := new DatagramBuffer(Datagram(dst.myAddr, dst.addr, FULL_HDR + len, dst.myPort, dst.port, ToU32(segment.seqno + dst.init),
                             ToU32(segment.ackno + dst.theirInit), LowFlags(segment.flags, addAck), segment.window, 0,
                             segment.data));
    var sum := segment.cksum;
    segment.cksum := 0;
    var correct := ComputeCksum(host, Encode(host, segment.Value()));
    segment.cksum := sum;
    var tcp := p.TcpCksum(host, len);
    p.d := p.d.(sum := Net16(host, ToU16(tcp + correct - Raw16(host, sum))));
  }

  method ConvertToCtcp(host: Host, src: Peer, p: DatagramBuffer) returns (segment: Segment)
    requires Complete(p.d) && p.d.totLen - FULL_HDR <= MAX_WIRE_DATA
    modifies p
    ensures p.d == old(p.d).(sum := 0)
    ensures fresh(segment) && segment.Value() == ToCtcp(host, src, old(p.d))
  {
    hide Encode;
    hide PseudoBytes;
    hide Raw16;
    hide Net16;
    var len := p.d.totLen - FULL_HDR;
    segment := new Segment(Seg(ToU32(p.d.seqno - src.theirInit), ToU32(p.d.ackno - src.init), 0, p.d.flags, p.d.window, 0,
                               p.d.payload[..len]));
    var own := ComputeCksum(host, Encode(host, segment.Value()));
    var sum := p.d.sum;
    p.d := p.d.(sum := 0);
    var correct := p.TcpCksum(host, len);
    segment.cksum := Net16(host, ToU16(own + correct - Raw16(host, sum)));
  }
}
