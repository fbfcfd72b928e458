/** One cTCP endpoint as a value, and what each event handler of ctcp.c does to it. The classes of module Ctcp are
    proved to do exactly this; the invariants and the runs of two endpoints are about these functions. */
module Protocol {
  import opened Bytes
  import opened Wire

  const MAX_SEG_DATA_SIZE := 1440
  const MAX_RETRANSMISSIONS := 5

  /** send_window_t. `input` and `first` are histories: the bytes conn_input has returned, and the segments ctcp_send
      has transmitted. */
  datatype Sender = Sender(queue: seq<Seg>, maxSize: u16, size: int, recvWin: int, seqno: int, timer: int,
                           counter: int, input: seq<byte>, first: seq<Seg>)

  /** What conn_output has taken for the application, and the connection's wrote_eof and wrote_err. */
  datatype Output = Output(delivered: seq<byte>, eof: bool, err: bool)

  /** recv_window_t and the output side. At event boundaries its list is empty and its size 0, so they do not appear. */
  datatype Receiver = Receiver(maxSize: u16, ackno: int, out: Output)

  /** Crashed is the null dereference at the end of an empty receive list; Destroyed is ctcp_destroy. */
  datatype Status = Running | Destroyed | Crashed

  datatype Endpoint = Endpoint(host: Host, status: Status, sw: Sender, rw: Receiver, timeout: int, teardown: int)

  /** The state after an event, and the segments handed to conn_send during it, in order. */
  datatype Result<S> = Result(s: S, sent: seq<Seg>)

  function Init(host: Host, sendWindow: u16, recvWindow: u16, timeout: int): Endpoint
  {
    Endpoint(host, Running, Sender([], sendWindow, 0, MAX_SEG_DATA_SIZE, 1, -1, 0, [], []),
             Receiver(recvWindow, 1, Output([], false, false)), timeout, -1)
  }

  function FinAckFlags(host: Host): u32 { Net32(host, 0x11) }

  /** ctcp_makeseg: the segment before anything is stored in its checksum field. */
  function MakeSeg(sw: Sender, ackno: int, flags: u32, data: seq<byte>, pad: u16): Seg
  {
    Seg(ToU32(sw.seqno), ToU32(ackno), pad, flags, ToU16(sw.maxSize - sw.size), 0, data)
  }

  /** SEND_ACK and SEND_FIN_ACK: built, checksummed and sent without being queued. */
  function MakeControl(host: Host, sw: Sender, ackno: int, flags: u32, pad: u16): (s: Seg)
    ensures s.data == [] && s.ackno == ToU32(ackno)
  {
    Stamp(host, MakeSeg(sw, ackno, flags, [], pad), ToU32(ackno))
  }

  /** ctcp_send's loop: the queue with every unsent segment stamped. */
  function Flushed(host: Host, q: seq<Seg>, ackno: u32): (r: seq<Seg>)
    ensures |r| == |q|
  {
    if q == [] then [] else
    [if q[0].cksum == 0 then Stamp(host, q[0], ackno) else q[0]] + Flushed(host, q[1..], ackno)
  }

  /** ... and the segments it transmits. */
  function Unsent(host: Host, q: seq<Seg>, ackno: u32): seq<Seg>
  {
    if q == [] then [] else
    (if q[0].cksum == 0 then [Stamp(host, q[0], ackno)] else []) + Unsent(host, q[1..], ackno)
  }

  function Send(host: Host, sw: Sender, ackno: int, now: int): Result<Sender>
  {
    var sent := Unsent(host, sw.queue, ToU32(ackno));
    var sw1 := sw.(queue := Flushed(host, sw.queue, ToU32(ackno)), first := sw.first + sent);
    Result(if sw.queue == [] then sw1 else sw1.(timer := now, counter := 0), sent)
  }

  function Enqueued(sw: Sender, ackno: int, flags: u32, data: seq<byte>, pad: u16): Sender
  {
    sw.(queue := sw.queue + [MakeSeg(sw, ackno, flags, data, pad)],
        size := sw.size + |data|, seqno := sw.seqno + |data|, input := sw.input + data)
  }

  function SendNew(host: Host, sw: Sender, ackno: int, flags: u32, data: seq<byte>, pad: u16, now: int): Result<Sender>
  {
    Send(host, Enqueued(sw, ackno, flags, data, pad), ackno, now)
  }

  // ---------- ctcp_read ----------

  datatype Input = Data(data: seq<byte>) | Eof

  function Min(a: int, b: int): int { if a < b then a else b }

  /** How much ctcp_read asks conn_input for. */
  function ReadSpace(sw: Sender): int
  {
    Min(Min(sw.maxSize - sw.size, sw.recvWin), MAX_SEG_DATA_SIZE)
  }

  function Read(e: Endpoint, input: Input, pad: u16, now: int): Result<Endpoint>
  {
    if ReadSpace(e.sw) <= 0 then Result(e, [])
    else
      var r := match input
        case Data(data) => SendNew(e.host, e.sw, e.rw.ackno, TH_ACK, data, pad, now)
        case Eof => SendNew(e.host, e.sw, e.rw.ackno, TH_FIN, [], pad, now);
      Result(e.(sw := r.s), r.sent)
  }

  // ---------- ctcp_receive ----------

  /** What the environment decides during a receive: the clock, what malloc leaves in the padding of the segments
      built, conn_bufspace's answer, and whether write() fails for good. */
  datatype Env = Env(now: nat, pad: u16, finPad: u16, room: nat, writeFails: bool)

  /** conn_output: no bytes mean end of file; after that, and after a failed write, nothing more is taken. */
  function Accept(out: Output, data: seq<byte>, room: nat, writeFails: bool): Output
  {
    if out.eof then out
    else if data == [] then out.(eof := true)
    else if out.err || room == 0 then out
    else if writeFails then out.(err := true)
    else out.(delivered := out.delivered + data)
  }

  /** ctcp_output, for one segment: it hands over no more than conn_bufspace allows and forgets the rest. */
  function Deliver(out: Output, data: seq<byte>, env: Env): Output
  {
    Accept(out, data[..Min(env.room, |data|)], env.room, env.writeFails)
  }

  function ReceiveData(e: Endpoint, s: Seg, env: Env): Result<Endpoint>
  {
    if s.seqno < e.rw.ackno then
      Result(e, [MakeControl(e.host, e.sw, e.rw.ackno, TH_ACK, env.pad)])
    else if |s.data| > e.rw.maxSize then
      Result(e, [])
    else if s.seqno == e.rw.ackno then
      var ackno := e.rw.ackno + |s.data|;
      Result(e.(rw := e.rw.(ackno := ackno, out := Deliver(e.rw.out, s.data, env))),
             [MakeControl(e.host, e.sw, ackno, TH_ACK, env.pad)])
    else
      Result(e.(status := Crashed), [])
  }

  /** The cumulative-acknowledgement loop, over the whole queue: what stays, and how many payload bytes go. */
  function Unacked(q: seq<Seg>, ack: int): (r: seq<Seg>)
    ensures |r| <= |q|
  {
    if q == [] then [] else
    (if End(q[0]) <= ack then [] else [q[0]]) + Unacked(q[1..], ack)
  }

  function AckedBytes(q: seq<Seg>, ack: int): nat
  {
    if q == [] then 0 else
    (if End(q[0]) <= ack then |q[0].data| else 0) + AckedBytes(q[1..], ack)
  }

  /** The test on the head of the queue that lets an acknowledgement in. */
  predicate Acceptable(sw: Sender, ackno: u32)
  {
    sw.queue != [] && ToInt32(ackno) >= End(sw.queue[0])
  }

  function Slid(sw: Sender, ack: int): Sender
  {
    sw.(queue := Unacked(sw.queue, ack), size := sw.size - AckedBytes(sw.queue, ack), timer := -1, counter := 0)
  }

  function Acknowledge(host: Host, sw: Sender, received: u32, ackno: int, now: int): Result<Sender>
  {
    if Acceptable(sw, received) then Send(host, Slid(sw, ToInt32(received)), ackno, now) else Result(sw, [])
  }

  /** A FIN is answered by a FIN-ACK, and by a FIN of one's own unless a FIN-ACK has come in already. */
  function AnswerFin(e: Endpoint, flags: u32, env: Env): Result<Sender>
  {
    if !HasFin(flags) then Result(e.sw, [])
    else
      var finAck := [MakeControl(e.host, e.sw, e.rw.ackno, FinAckFlags(e.host), env.pad)];
      if e.teardown != -1 then Result(e.sw, finAck)
      else
        var r := SendNew(e.host, e.sw, e.rw.ackno, TH_FIN, [], env.finPad, env.now);
        Result(r.s, finAck + r.sent)
  }

  /** A segment without payload. A FIN-ACK is recognised by flags that are all zero (TH_ACK & TH_FIN). */
  function ReceiveControl(e: Endpoint, s: Seg, env: Env): Result<Endpoint>
  {
    var r1 := AnswerFin(e, s.flags, env);
    var e1 := if s.flags == 0 then e.(teardown := env.now) else e;
    var r2 := if HasAck(s.flags) || s.flags == 0 then Acknowledge(e.host, r1.s, s.ackno, e.rw.ackno, env.now)
              else Result(r1.s, []);
    Result(e1.(sw := r2.s), r1.sent + r2.sent)
  }

  function Receive(e: Endpoint, s: Seg, env: Env): Result<Endpoint>
  {
    if !Passes(e.host, s) then Result(e, [])
    else
      var e1 := e.(sw := e.sw.(recvWin := s.window));
      if s.data != [] then ReceiveData(e1, s, env) else ReceiveControl(e1, s, env)
  }

  // ---------- ctcp_timer ----------

  predicate TornDown(e: Endpoint, now: int) { e.teardown != -1 && now - e.teardown > 2 * e.timeout }

  predicate Expired(e: Endpoint, now: int) { e.sw.timer != -1 && now - e.sw.timer > e.timeout }

  /** ctcp_retrans: the head of the queue, stamped over the checksum it was last sent with. */
  function Retransmit(host: Host, sw: Sender, ackno: int, now: int): Result<Sender>
  {
    if sw.queue == [] then Result(sw, [])
    else
      var s := Stamp(host, sw.queue[0], ToU32(ackno));
      Result(sw.(queue := sw.queue[0 := s], timer := now), [s])
  }

  function Timer(e: Endpoint, now: int): Result<Endpoint>
  {
    if TornDown(e, now) then Result(e.(status := Destroyed), [])
    else if !Expired(e, now) then Result(e, [])
    else if e.sw.counter >= MAX_RETRANSMISSIONS then Result(e.(status := Destroyed), [])
    else
      var r := Retransmit(e.host, e.sw.(counter := e.sw.counter + 1, timer := now), e.rw.ackno, now);
      Result(e.(sw := r.s), r.sent)
  }

  /** conn_drain may meet a failing write(). */
  function Drained(e: Endpoint, writeFails: bool): Endpoint
  {
    e.(rw := e.rw.(out := e.rw.out.(err := e.rw.out.err || writeFails)))
  }
}
