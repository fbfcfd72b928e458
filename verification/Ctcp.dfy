/** ctcp.c: the connection state, its windows over linked lists of segments, and the event handlers, each proved to do
    what its function in module Protocol says. */
module Ctcp {
  import opened Bytes
  import Checksum
  import opened Wire
  import opened Segments
  import opened LinkedLists
  import opened OutputQueue
  import opened Protocol
  import opened ProtocolInvariant

  /** ctcp_send's loop after `i` turns over a queue that was `was`: what it holds now, and what has gone out. */
  ghost predicate Flushing(host: Host, ackno: u32, was: seq<Seg>, i: nat, q: seq<Seg>, emitted: seq<Seg>)
    requires i <= |was|
  {
    q == Flushed(host, was, ackno)[..i] + was[i..] && emitted == Unsent(host, was[..i], ackno)
  }

  function Flushed1(host: Host, s: Seg, ackno: u32): Seg
  {
    if s.cksum == 0 then Wire.Stamp(host, s, ackno) else s
  }

  function Unsent1(host: Host, s: Seg, ackno: u32): seq<Seg>
  {
    if s.cksum == 0 then [Wire.Stamp(host, s, ackno)] else []
  }

  lemma FlushingStep(host: Host, ackno: u32, was: seq<Seg>, i: nat, q: seq<Seg>, emitted: seq<Seg>)
    requires i < |was| && Flushing(host, ackno, was, i, q, emitted)
    ensures |q| == |was|
    ensures Flushing(host, ackno, was, i + 1, q[i := Flushed1(host, q[i], ackno)], emitted + Unsent1(host, q[i], ackno))
  {
    hide Flushed;
    hide Unsent;
    hide Wire.Stamp;
    FlushedAt(host, was, ackno, i);
    UnsentOneMore(host, was, ackno, i);
  }

  lemma FlushingEnds(host: Host, ackno: u32, was: seq<Seg>, q: seq<Seg>, emitted: seq<Seg>)
    ensures Flushing(host, ackno, was, 0, was, [])
    ensures Flushing(host, ackno, was, |was|, q, emitted) ==>
      q == Flushed(host, was, ackno) && emitted == Unsent(host, was, ackno)
  {
    assert was[..|was|] == was && was[..0] == [];
  }

  /** The acknowledgement loop at position k of a queue that was `was`, with `size` left of `whole`. */
  ghost predicate Acking(was: seq<Seg>, whole: int, q: seq<Seg>, size: int, k: nat, ack: int)
    requires k <= |q|
  {
    q[..k] + Unacked(q[k..], ack) == Unacked(was, ack) && size - AckedBytes(q[k..], ack) == whole - AckedBytes(was, ack)
  }

  lemma AckingStep(was: seq<Seg>, whole: int, q: seq<Seg>, size: int, k: nat, ack: int)
    requires k < |q| && Acking(was, whole, q, size, k, ack)
    ensures End(q[k]) <= ack ==> Acking(was, whole, q[..k] + q[k + 1..], size - |q[k].data|, k, ack)
    ensures End(q[k]) > ack ==> Acking(was, whole, q, size, k + 1, ack)
  {
    assert q[k..][1..] == q[k + 1..];
    var r := q[..k] + q[k + 1..];
    assert r[..k] == q[..k] && r[k..] == q[k + 1..];
  }

  lemma AckingStart(was: seq<Seg>, whole: int, ack: int)
    ensures Acking(was, whole, was, whole, 0, ack)
  {
    assert was[0..] == was;
  }

  lemma AckingDone(was: seq<Seg>, whole: int, q: seq<Seg>, size: int, ack: int)
    requires Acking(was, whole, q, size, |q|, ack)
    ensures q == Unacked(was, ack) && size == whole - AckedBytes(was, ack)
  {
    assert q[..|q|] == q && q[|q|..] == [];
  }

  /** send_window_t; `queue` is what the list holds, `input` and `first` the histories of Protocol.Sender. */
  class SendWindow {
    const segments: LinkedList
    const maxSize: u16
    var size: int
    var recvWinSize: int
    var seqno: int
    var timer: int
    var retransCounter: int
    ghost var queue: seq<Segment>
    ghost var input: seq<byte>
    ghost var first: seq<Seg>

    ghost predicate Valid()
      reads this`queue, segments, segments.nodes
    {
      && segments.Valid() && |queue| == |segments.objs|
      && Listed(queue, segments.objs) && Unshared(queue)
    }

    static ghost predicate Listed(q: seq<Segment>, objs: seq<object>)
      requires |q| == |objs|
    {
      forall i {:trigger q[i]} {:trigger objs[i]} :: 0 <= i < |q| ==> q[i] == objs[i] && |q[i].data| <= MAX_SEG_DATA_SIZE
    }

    static ghost predicate Unshared(q: seq<Segment>)
    {
      forall i, j :: 0 <= i < j < |q| ==> q[i] != q[j]
    }

    ghost function Abs(): Sender
      reads this, queue
    {
      Sender(Values(queue), maxSize, size, recvWinSize, seqno, timer, retransCounter, input, first)
    }

    constructor (maxSize: u16)
      ensures Valid() && fresh(segments) && segments.nodes == [] && queue == []
      ensures Abs() == Sender([], maxSize, 0, MAX_SEG_DATA_SIZE, 1, -1, 0, [], [])
    {
      segments := new LinkedList.Create();
      this.maxSize, size, recvWinSize, seqno, timer, retransCounter := maxSize, 0, MAX_SEG_DATA_SIZE, 1, -1, 0;
      queue, input, first := [], [], [];
    }

    /** What Valid says at one position. */
    lemma EntryAt(i: nat)
      requires Valid() && i < |queue|
      ensures |segments.nodes| == |queue| && segments.nodes[i].obj == queue[i]
      ensures segments.nodes[i].next == LinkedList.Nth(segments.nodes, i + 1)
      ensures |queue[i].data| <= MAX_SEG_DATA_SIZE
      ensures forall j :: 0 <= j < |queue| && j != i ==> queue[j] != queue[i]
    {
    }

    /** One turn of ctcp_send's loop, at position i of the list. */
    method TransmitIfUnsent(host: Host, ackno: u32, conn: Conn, node: Node, ghost i: nat) returns (next: Node?)
      requires Valid() && i < |queue| && node == LinkedList.Nth(segments.nodes, i)
      modifies this`first, queue, conn`sent
      ensures next == LinkedList.Nth(segments.nodes, i + 1)
      ensures var s := old(Values(queue))[i];
        && Values(queue) == old(Values(queue))[i := Flushed1(host, s, ackno)]
        && conn.sent == old(conn.sent) + Unsent1(host, s, ackno) && first == old(first) + Unsent1(host, s, ackno)
    {
      hide Listed;
      hide Unshared;
      hide LinkedList.Distinct;
      hide LinkedList.Linked;
      hide LinkedList.Holding;
      hide Wire.Stamp;
      EntryAt(i);
      var segment := node.obj as Segment;
      if segment.cksum == 0 {
        segment.Stamp(host, ackno);
        conn.sent := conn.sent + [segment.Value()];
        first := first + [segment.Value()];
      }
      next := node.next;
    }

    method Send(host: Host, ackno: int, conn: Conn, now: nat)
      requires Valid()
      modifies this`timer, this`retransCounter, this`first, queue, conn`sent
      ensures var r := Protocol.Send(host, old(Abs()), ackno, now);
        Abs() == r.s && conn.sent == old(conn.sent) + r.sent
    {
      hide Listed;
      hide Unshared;
      hide LinkedList.Distinct;
      hide LinkedList.Linked;
      hide LinkedList.Holding;
      hide Flushed;
      hide Unsent;
      hide Values;
      var node := segments.Front();
      if node != null {
        timer := now;
        retransCounter := 0;
      }
      TransmitUnsent(host, ToU32(ackno), conn, node);
    }

    /** The loop of ctcp_send, from the head of the list on. */
    method TransmitUnsent(host: Host, ackno: u32, conn: Conn, head: Node?)
      requires Valid() && head == LinkedList.Nth(segments.nodes, 0)
      modifies this`first, queue, conn`sent
      ensures Values(queue) == Flushed(host, old(Values(queue)), ackno)
      ensures conn.sent == old(conn.sent) + Unsent(host, old(Values(queue)), ackno)
      ensures first == old(first) + Unsent(host, old(Values(queue)), ackno)
    {
      hide Listed;
      hide Unshared;
      hide LinkedList.Distinct;
      hide LinkedList.Linked;
      hide LinkedList.Holding;
      hide Values;
      hide Flushing;
      hide Flushed1;
      hide Flushed;
      hide Unsent;
      hide Unsent1;
      ghost var was, i, emitted := Values(queue), 0, [];
      FlushingEnds(host, ackno, was, was, []);
      var node := head;
      while node != null
        invariant 0 <= i <= |queue| && node == LinkedList.Nth(segments.nodes, i)
        invariant Flushing(host, ackno, was, i, Values(queue), emitted)
        invariant conn.sent == old(conn.sent) + emitted && first == old(first) + emitted
        decreases |queue| - i
      {
        FlushingStep(host, ackno, was, i, Values(queue), emitted);
        ghost var s := Values(queue)[i];
        node := TransmitIfUnsent(host, ackno, conn, node, i);
        i, emitted := i + 1, emitted + Unsent1(host, s, ackno);
      }
      FlushingEnds(host, ackno, was, Values(queue), emitted);
    }

    method Retransmit(host: Host, ackno: int, conn: Conn, now: nat)
      requires Valid()
      modifies this`timer, queue, conn`sent
      ensures var r := Protocol.Retransmit(host, old(Abs()), ackno, now);
        Abs() == r.s && conn.sent == old(conn.sent) + r.sent
    {
      hide Listed;
      hide Unshared;
      hide LinkedList.Distinct;
      hide LinkedList.Linked;
      hide LinkedList.Holding;
      hide Wire.Stamp;
      hide Segment.Value;
      var node := segments.Front();
      if node != null {
        EntryAt(0);
        var segment := node.obj as Segment;
        segment.Stamp(host, ToU32(ackno));
        timer := now;
        conn.sent := conn.sent + [segment.Value()];
        assert Values(queue) == old(Values(queue))[0 := segment.Value()];
      }
    }

    /** ll_add, and the window moving with it. */
    method Enqueue(segment: Segment)
      requires Valid() && segment !in queue && |segment.data| <= MAX_SEG_DATA_SIZE
      modifies this`size, this`seqno, this`queue, this`input, segments, segments.nodes
      ensures Valid() && queue == old(queue) + [segment] && Values(queue) == old(Values(queue)) + [segment.Value()]
      ensures size == old(size) + |segment.data| && seqno == old(seqno) + |segment.data|
      ensures input == old(input) + segment.data
      ensures forall n :: n in segments.nodes ==> n in old(segments.nodes) || fresh(n)
    {
      var node := segments.Add(segment);
      size := size + |segment.data|;
      seqno := seqno + |segment.data|;
      input := input + segment.data;
      queue := queue + [segment];
    }

    /** Whether the acknowledgement covers the first segment in the queue, if there is one. */
    method HeadAcked(received: u32) returns (acked: bool)
      requires Valid()
      ensures acked == Acceptable(Abs(), received)
    {
      hide Listed;
      hide Unshared;
      hide LinkedList.Distinct;
      hide LinkedList.Linked;
      hide LinkedList.Holding;
      var node := segments.Front();
      if node == null {
        return false;
      }
      EntryAt(0);
      var expected := node.obj as Segment;
      return ToInt32(received) >= |expected.data| + expected.seqno;
    }

    static lemma WithoutEntry(q: seq<Segment>, objs: seq<object>, k: nat)
      requires k < |q| == |objs| && Listed(q, objs) && Unshared(q)
      ensures var r := q[..k] + q[k + 1..];
        && Listed(r, objs[..k] + objs[k + 1..]) && Unshared(r)
        && Values(r) == Values(q)[..k] + Values(q)[k + 1..]
        && (forall s :: s in r ==> s in q)
    {
    }

    /** One turn of the cumulative-acknowledgement loop, at position k of the list. */
    method RemoveIfAcked(node: Node, ack: int, ghost k: nat) returns (next: Node?, ghost k1: nat)
      requires Valid() && k < |queue| && node == LinkedList.Nth(segments.nodes, k)
      modifies this`size, this`queue, segments, segments.nodes
      ensures Valid() && next == LinkedList.Nth(segments.nodes, k1)
      ensures var q := old(Values(queue));
        if End(q[k]) <= ack
        then k1 == k && Values(queue) == q[..k] + q[k + 1..] && size == old(size) - |q[k].data|
        else k1 == k + 1 && Values(queue) == q && size == old(size)
      ensures forall s :: s in queue ==> s in old(queue)
      ensures forall n :: n in segments.nodes ==> n in old(segments.nodes)
    {
      hide Listed;
      hide Unshared;
      hide LinkedList.Distinct;
      hide LinkedList.Linked;
      hide LinkedList.Holding;
      EntryAt(k);
      WithoutEntry(queue, segments.objs, k);
      var segment := node.obj as Segment;
      next, k1 := node.next, k + 1;
      if |segment.data| + segment.seqno <= ack {
        size := size - |segment.data|;
        var _ := segments.Remove(node, k);
        queue := queue[..k] + queue[k + 1..];
        k1 := k;
      }
    }

    /** The loop that takes acknowledged segments out of the queue. */
    method RemoveAcked(ack: int)
      requires Valid()
      modifies this`size, this`queue, segments, segments.nodes
      ensures Valid() && Values(queue) == Unacked(old(Values(queue)), ack)
      ensures size == old(size) - AckedBytes(old(Values(queue)), ack)
      ensures forall s :: s in queue ==> s in old(queue)
      ensures forall n :: n in segments.nodes ==> n in old(segments.nodes)
    {
      hide Listed;
      hide Unshared;
      hide LinkedList.Distinct;
      hide LinkedList.Linked;
      hide LinkedList.Holding;
      hide Values;
      hide Unacked;
      hide AckedBytes;
      hide Acking;
      ghost var was, k: nat := Values(queue), 0;
      AckingStart(was, size, ack);
      var node := segments.Front();
      while node != null
        invariant Valid() && k <= |queue| && node == LinkedList.Nth(segments.nodes, k)
        invariant Acking(was, old(size), Values(queue), size, k, ack)
        invariant forall s :: s in queue ==> s in old(queue)
        invariant forall n :: n in segments.nodes ==> n in old(segments.nodes)
        decreases |queue| - k
      {
        assert forall i :: 0 <= i < |segments.nodes| ==> segments.nodes[i] in segments.nodes;
        AckingStep(was, old(size), Values(queue), size, k, ack);
        node, k := RemoveIfAcked(node, ack, k);
      }
      AckingDone(was, old(size), Values(queue), size, ack);
    }
  }

  /** recv_window_t. */
  class RecvWindow {
    const segments: LinkedList
    const maxSize: u16
    var size: int
    var ackno: int

    constructor (maxSize: u16)
      ensures segments.Valid() && fresh(segments) && segments.nodes == [] && segments.objs == []
      ensures this.maxSize == maxSize && size == 0 && ackno == 1
    {
      segments := new LinkedList.Create();
      this.maxSize, size, ackno := maxSize, 0, 1;
    }
  }

  class CtcpState {
    const host: Host
    const conn: Conn
    const sw: SendWindow
    const rw: RecvWindow
    const timeoutStandard: int
    var sendBuf: seq<byte>
    var timerTeardown: int
    var status: Status

    /** The two lists share nothing, and both windows hold together. */
    ghost predicate Wired()
      reads sw`queue, sw.segments, sw.segments.nodes, rw.segments, rw.segments.nodes
      reads conn`outQueue, conn`tail, conn`chunks, conn`accepted, conn`written, conn.chunks
    {
      && sw.Valid() && rw.segments.Valid() && conn.Valid()
      && sw.segments != rw.segments && (forall n :: n in sw.segments.nodes ==> n !in rw.segments.nodes)
    }

    ghost function Abs(): Endpoint
      reads this, conn, sw, sw.queue, rw
    {
      Endpoint(host, status, sw.Abs(), Receiver(rw.maxSize, rw.ackno, conn.Out()), timeoutStandard, timerTeardown)
    }

    constructor (host: Host, conn: Conn, sendWindow: u16, recvWindow: u16, timeout: int)
      requires conn.Valid() && conn.Out() == Output([], false, false)
      ensures Valid() && Abs() == Init(host, sendWindow, recvWindow, timeout) && this.conn == conn
    {
      this.host, this.conn, timeoutStandard := host, conn, timeout;
      sw := new SendWindow(sendWindow);
      rw := new RecvWindow(recvWindow);
      sendBuf, timerTeardown, status := [], -1, Running;
      new;
      InitInv(host, sendWindow, recvWindow, timeout);
    }

    /** ctcp_init. */
    static method Open(host: Host, conn: Conn?, sendWindow: u16, recvWindow: u16, timeout: int) returns (state: CtcpState?)
      requires conn != null ==> conn.Valid() && conn.Out() == Output([], false, false)
      ensures conn == null ==> state == null
      ensures conn != null ==> state != null && fresh(state) && state.conn == conn && state.Valid()
      ensures conn != null ==> state.Abs() == Init(host, sendWindow, recvWindow, timeout)
    {
      if conn == null {
        return null;
      }
      state := new CtcpState(host, conn, sendWindow, recvWindow, timeout);
    }

    /** ctcp_send: transmits what is queued with a zero checksum field. */
    method Send(now: nat)
      requires Wired()
      modifies sw`timer, sw`retransCounter, sw`first, sw.queue, conn`sent
      ensures Wired()
      ensures var r := Protocol.Send(host, old(sw.Abs()), rw.ackno, now);
        sw.Abs() == r.s && conn.sent == old(conn.sent) + r.sent
    {
      hide SendWindow.Listed;
      hide SendWindow.Unshared;
      hide LinkedList.Distinct;
      hide LinkedList.Linked;
      hide LinkedList.Holding;
      hide Protocol.Send;
      sw.Send(host, rw.ackno, conn, now);
    }

    /** ll_add on the send window leaves the receive window's list alone. */
    method Enqueue(segment: Segment)
      requires Wired() && segment !in sw.queue && |segment.data| <= MAX_SEG_DATA_SIZE
      modifies sw`size, sw`seqno, sw`queue, sw`input, sw.segments, sw.segments.nodes
      ensures Wired() && sw.queue == old(sw.queue) + [segment]
      ensures forall n :: n in sw.segments.nodes ==> n in old(sw.segments.nodes) || fresh(n)
      ensures sw.Abs() == old(sw.Abs()).(queue := old(Values(sw.queue)) + [segment.Value()],
        size := old(sw.size) + |segment.data|, seqno := old(sw.seqno) + |segment.data|, input := old(sw.input) + segment.data)
    {
      hide SendWindow.Listed;
      hide SendWindow.Unshared;
      hide LinkedList.Distinct;
      hide LinkedList.Linked;
      hide LinkedList.Holding;
      assert forall i :: 0 <= i < |rw.segments.nodes| ==> rw.segments.nodes[i] !in sw.segments.nodes;
      sw.Enqueue(segment);
      rw.segments.Untouched();
    }

    /** The header every mode of ctcp_makeseg starts from. */
    method NewSegment(flags: u32, pad: u16) returns (segment: Segment)
      ensures fresh(segment) && segment.data == sendBuf
      ensures segment.Value() == Protocol.MakeSeg(sw.Abs(), rw.ackno, flags, sendBuf, pad)
    {
      segment := new Segment(
        Seg(ToU32(sw.seqno), ToU32(rw.ackno), pad, flags, ToU16(sw.maxSize - sw.size), 0, sendBuf));
    }

    method QueueNew(segment: Segment, ghost flags: u32, ghost pad: u16, now: nat)
      requires Wired() && segment !in sw.queue && |segment.data| <= MAX_SEG_DATA_SIZE
      requires segment.Value() == Protocol.MakeSeg(sw.Abs(), rw.ackno, flags, segment.data, pad)
      modifies sw, sw.segments, sw.segments.nodes, sw.queue, segment, conn`sent
      ensures Wired() && sw.queue == old(sw.queue) + [segment]
      ensures forall n :: n in sw.segments.nodes ==> n in old(sw.segments.nodes) || fresh(n)
      ensures var r := SendNew(host, old(sw.Abs()), rw.ackno, flags, segment.data, pad, now);
        sw.Abs() == r.s && conn.sent == old(conn.sent) + r.sent
    {
      hide SendWindow.Listed;
      hide SendWindow.Unshared;
      hide LinkedList.Distinct;
      hide LinkedList.Linked;
      hide LinkedList.Holding;
      hide Protocol.Send;
      hide Protocol.MakeSeg;
      hide Values;
      hide Conn.Valid;
      Enqueue(segment);
      Send(now);
    }

    /** ctcp_makeseg, SEND_DATA and SEND_FIN. */
    method MakeQueued(flags: u32, pad: u16, now: nat)
      requires Wired() && |sendBuf| <= MAX_SEG_DATA_SIZE
      modifies sw, sw.segments, sw.segments.nodes, sw.queue, conn`sent
      ensures Wired() && (forall s :: s in sw.queue ==> s in old(sw.queue) || fresh(s))
      ensures forall n :: n in sw.segments.nodes ==> n in old(sw.segments.nodes) || fresh(n)
      ensures var r := SendNew(host, old(sw.Abs()), rw.ackno, flags, sendBuf, pad, now);
        sw.Abs() == r.s && conn.sent == old(conn.sent) + r.sent
    {
      hide SendWindow.Listed;
      hide SendWindow.Unshared;
      hide LinkedList.Distinct;
      hide LinkedList.Linked;
      hide LinkedList.Holding;
      hide SendNew;
      hide Protocol.MakeSeg;
      hide SendWindow.Abs;
      hide Segment.Value;
      var segment := NewSegment(flags, pad);
      QueueNew(segment, flags, pad, now);
    }

    lemma DirectIs(sw: Sender, ackno: int, flags: u32, pad: u16)
      ensures var s := Protocol.MakeSeg(sw, ackno, flags, [], pad);
        MakeControl(host, sw, ackno, flags, pad) == s.(cksum := Checksum.Cksum(Encode(host, s)))
    {
    }

    /** ctcp_makeseg, SEND_ACK and SEND_FIN_ACK. */
    method MakeDirect(flags: u32, pad: u16)
      requires sendBuf == []
      modifies conn`sent
      ensures conn.sent == old(conn.sent) + [MakeControl(host, sw.Abs(), rw.ackno, flags, pad)]
    {
      hide SendWindow.Abs;
      hide Protocol.MakeSeg;
      hide MakeControl;
      hide Encode;
      DirectIs(sw.Abs(), rw.ackno, flags, pad);
      var segment := NewSegment(flags, pad);
      segment.cksum := segment.Cksum(host);
      conn.sent := conn.sent + [segment.Value()];
    }

    /** ctcp_retrans. */
    method Retransmit(now: nat)
      requires Wired()
      modifies sw`timer, sw.queue, conn`sent
      ensures Wired()
      ensures var r := Protocol.Retransmit(host, old(sw.Abs()), rw.ackno, now);
        sw.Abs() == r.s && conn.sent == old(conn.sent) + r.sent
    {
      hide SendWindow.Listed;
      hide SendWindow.Unshared;
      hide LinkedList.Distinct;
      hide LinkedList.Linked;
      hide LinkedList.Holding;
      hide Protocol.Retransmit;
      sw.Retransmit(host, rw.ackno, conn, now);
    }

    /** Nothing waits in the receive list between events. */
    ghost predicate Idle()
      reads rw, rw.segments
    {
      rw.segments.objs == [] && rw.size == 0
    }

    ghost predicate Valid()
      reads this, conn, conn.chunks, sw, sw.queue, sw.segments, sw.segments.nodes, rw, rw.segments, rw.segments.nodes
    {
      Wired() && Inv(Abs()) && sendBuf == [] && (status == Running ==> Idle())
    }

    /** ctcp_read; `input` is what conn_input returns if it is asked. */
    method Read(input: Input, pad: u16, now: nat)
      requires Valid() && status == Running && ReadFits(sw.Abs(), input)
      modifies this`sendBuf, sw, sw.segments, sw.segments.nodes, sw.queue, conn`sent
      ensures Valid()
      ensures var r := Protocol.Read(old(Abs()), input, pad, now);
        Abs() == r.s && conn.sent == old(conn.sent) + r.sent
    {
      hide SendWindow.Listed;
      hide SendWindow.Unshared;
      hide LinkedList.Distinct;
      hide LinkedList.Linked;
      hide LinkedList.Holding;
      hide Inv;
      hide SendNew;
      hide Values;
      ReadInv(Abs(), input, pad, now);
      var remaining := sw.maxSize - sw.size;
      if remaining > sw.recvWinSize {
        remaining := sw.recvWinSize;
      }
      var bufferSize := if remaining >= MAX_SEG_DATA_SIZE then MAX_SEG_DATA_SIZE else remaining;
      if bufferSize <= 0 {
        return;
      }
      Take(input, pad, now);
    }

    /** What ctcp_read does with what conn_input returned. */
    method Take(input: Input, pad: u16, now: nat)
      requires Wired() && sendBuf == [] && (input.Data? ==> |input.data| <= MAX_SEG_DATA_SIZE)
      modifies this`sendBuf, sw, sw.segments, sw.segments.nodes, sw.queue, conn`sent
      ensures Wired() && sendBuf == []
      ensures var (flags, data) := if input.Data? then (TH_ACK, input.data) else (TH_FIN, []);
        var r := SendNew(host, old(sw.Abs()), rw.ackno, flags, data, pad, now);
        sw.Abs() == r.s && conn.sent == old(conn.sent) + r.sent
    {
      hide SendWindow.Listed;
      hide SendWindow.Unshared;
      hide LinkedList.Distinct;
      hide LinkedList.Linked;
      hide LinkedList.Holding;
      hide SendNew;
      hide SendWindow.Abs;
      match input {
        case Data(data) =>
          sendBuf := data;
          MakeQueued(TH_ACK, pad, now);
          sendBuf := [];
        case Eof =>
          MakeQueued(TH_FIN, pad, now);
      }
    }

    /** ctcp_receive, part 6: an acknowledgement. */
    method ReceiveAck(received: u32, now: nat)
      requires Wired()
      modifies sw, sw.segments, sw.segments.nodes, sw.queue, conn`sent
      ensures Wired()
      ensures var r := Acknowledge(host, old(sw.Abs()), received, rw.ackno, now);
        sw.Abs() == r.s && conn.sent == old(conn.sent) + r.sent
    {
      hide SendWindow.Listed;
      hide SendWindow.Unshared;
      hide LinkedList.Distinct;
      hide LinkedList.Linked;
      hide LinkedList.Holding;
      hide Protocol.Send;
      hide Slid;
      hide Acceptable;
      hide SendWindow.Abs;
      var acceptable := sw.HeadAcked(received);
      if acceptable {
        Slide(ToInt32(received));
        assert forall i :: 0 <= i < |sw.queue| ==> sw.queue[i] in sw.queue;
        Send(now);
      }
    }

    method Slide(ack: int)
      requires Wired()
      modifies sw`size, sw`queue, sw`timer, sw`retransCounter, sw.segments, sw.segments.nodes
      ensures Wired() && sw.Abs() == Slid(old(sw.Abs()), ack)
      ensures forall s :: s in sw.queue ==> s in old(sw.queue)
    {
      hide SendWindow.Listed;
      hide SendWindow.Unshared;
      hide LinkedList.Distinct;
      hide LinkedList.Linked;
      hide LinkedList.Holding;
      hide Unacked;
      hide AckedBytes;
      hide Values;
      assert forall i :: 0 <= i < |rw.segments.nodes| ==> rw.segments.nodes[i] !in sw.segments.nodes;
      sw.RemoveAcked(ack);
      sw.timer := -1;
      sw.retransCounter := 0;
      rw.segments.Untouched();
    }

    /** ctcp_receive, part 3: answers a FIN. */
    method ReceiveFin(flags: u32, pad: u16, finPad: u16, now: nat, ghost env: Env)
      requires Wired() && sendBuf == [] && env.pad == pad && env.finPad == finPad && env.now == now
      modifies sw, sw.segments, sw.segments.nodes, sw.queue, conn`sent
      ensures Wired() && (forall s :: s in sw.queue ==> s in old(sw.queue) || fresh(s))
      ensures forall n :: n in sw.segments.nodes ==> n in old(sw.segments.nodes) || fresh(n)
      ensures var r := AnswerFin(old(Abs()), flags, env);
        sw.Abs() == r.s && conn.sent == old(conn.sent) + r.sent
    {
      hide SendWindow.Listed;
      hide SendWindow.Unshared;
      hide LinkedList.Distinct;
      hide LinkedList.Linked;
      hide LinkedList.Holding;
      hide SendNew;
      hide MakeControl;
      hide SendWindow.Abs;
      hide HasFin;
      hide FinAckFlags;
      if HasFin(flags) {
        MakeDirect(FinAckFlags(host), pad);
        if timerTeardown == -1 {
          MakeQueued(TH_FIN, finPad, now);
        }
      }
    }

    /** ctcp_output. The receive list holds at most the one segment just accepted, `s`. */
    method OutputSegments(ghost s: Segment?) returns (ghost writeFails: bool)
      requires Wired() && rw.segments.objs == (if s == null then [] else [s])
      requires s != null ==> s.seqno < rw.ackno
      modifies rw`size, rw.segments, rw.segments.nodes
      modifies conn`outQueue, conn`tail, conn`wroteEof, conn`wroteErr, conn`chunks, conn`accepted, conn`written, conn`last
      modifies conn.chunks`next
      ensures Wired() && rw.segments.objs == []
      ensures s == null ==> conn.Out() == old(conn.Out()) && rw.size == old(rw.size)
      ensures s != null ==> rw.size == old(rw.size) - |s.data|
      ensures s != null ==> Delivered(old(conn.Out()), old(conn.Room()), s.data, writeFails)
    {
      hide SendWindow.Listed;
      hide SendWindow.Unshared;
      hide LinkedList.Distinct;
      hide LinkedList.Linked;
      hide LinkedList.Holding;
      hide Conn.Valid;
      hide Delivered;
      writeFails := false;
      rw.segments.Only();
      var node := rw.segments.Front();
      ghost var todo := s;
      while node != null
        invariant todo != null <==> node != null
        invariant todo == null ==> Wired() && rw.segments.objs == []
        invariant todo == null ==> if s == null then conn.Out() == old(conn.Out()) && rw.size == old(rw.size)
          else Delivered(old(conn.Out()), old(conn.Room()), s.data, writeFails) && rw.size == old(rw.size) - |s.data|
        invariant todo != null ==>
          && todo == s && unchanged(rw) && unchanged(rw.segments) && unchanged(rw.segments.nodes)
          && unchanged(conn) && unchanged(conn.chunks) && rw.segments.nodes == [node] && node.obj == s && node.next == null
        decreases node != null
      {
        var thisNode := node;
        var segment := node.obj as Segment;
        node := node.next;
        if segment.seqno >= rw.ackno {
          break;
        }
        writeFails := OutputOne(thisNode, segment);
        todo := null;
      }
    }

    /** What the application has after one segment's turn. */
    ghost predicate Delivered(out: Output, room: nat, data: seq<byte>, writeFails: bool)
      reads conn`accepted, conn`wroteEof, conn`wroteErr
    {
      conn.Out() == Accept(out, data[..Min(room, |data|)], room, writeFails)
    }

    method OutputOne(node: Node, segment: Segment) returns (ghost writeFails: bool)
      requires Wired() && rw.segments.nodes == [node]
      modifies rw`size, rw.segments, rw.segments.nodes
      modifies conn`outQueue, conn`tail, conn`wroteEof, conn`wroteErr, conn`chunks, conn`accepted, conn`written, conn`last
      modifies conn.chunks`next
      ensures Wired() && rw.segments.objs == []
      ensures Delivered(old(conn.Out()), old(conn.Room()), segment.data, writeFails)
      ensures rw.size == old(rw.size) - |segment.data|
    {
      hide SendWindow.Listed;
      hide SendWindow.Unshared;
      hide LinkedList.Distinct;
      hide LinkedList.Linked;
      hide LinkedList.Holding;
      hide Conn.Chained;
      hide Conn.Unwritten;
      hide Accept;
      var available := conn.BufSpace();
      var outputSize := if available < |segment.data| then available else |segment.data|;
      var _, failed := conn.ConnOutput(segment.data[..outputSize]);
      writeFails := failed;
      rw.size := rw.size - |segment.data|;
      TakeOut(node);
    }

    /** ll_remove of the only segment in the receive list. */
    method TakeOut(node: Node)
      requires Wired() && rw.segments.nodes == [node]
      modifies rw.segments, rw.segments.nodes
      ensures Wired() && rw.segments.objs == []
    {
      assert forall i :: 0 <= i < |sw.segments.nodes| ==> sw.segments.nodes[i] !in rw.segments.nodes;
      var _ := rw.segments.Remove(node, 0);
      sw.segments.Untouched();
    }

    /** ll_add on the empty receive list. */
    method Hold(segment: Segment)
      requires Wired() && rw.segments.objs == []
      modifies rw.segments, rw.segments.nodes
      ensures Wired() && rw.segments.objs == [segment] && |rw.segments.nodes| == 1 && fresh(rw.segments.nodes[0])
    {
      hide SendWindow.Listed;
      hide SendWindow.Unshared;
      hide LinkedList.Distinct;
      hide LinkedList.Linked;
      hide LinkedList.Holding;
      hide Conn.Valid;
      assert forall i :: 0 <= i < |sw.segments.nodes| ==> sw.segments.nodes[i] !in rw.segments.nodes;
      var node := rw.segments.Add(segment);
      sw.segments.Untouched();
    }

    /** ll_find in a list of one: nothing follows. */
    method FindAlone(segment: Segment)
      requires rw.segments.Valid() && rw.segments.objs == [segment]
    {
      rw.segments.Only();
      var node, k := rw.segments.Find(segment);
      assert node != null && node.next == null;
    }

    method HoldInOrder(segment: Segment)
      requires Wired() && rw.segments.objs == []
      modifies rw`size, rw`ackno, rw.segments, rw.segments.nodes
      ensures Wired() && rw.segments.objs == [segment] && |rw.segments.nodes| == 1 && fresh(rw.segments.nodes[0])
      ensures rw.size == old(rw.size) + |segment.data| && rw.ackno == old(rw.ackno) + |segment.data|
    {
      hide SendWindow.Listed;
      hide SendWindow.Unshared;
      hide LinkedList.Distinct;
      hide LinkedList.Linked;
      hide LinkedList.Holding;
      hide Conn.Valid;
      Hold(segment);
      rw.size := rw.size + |segment.data|;
      rw.ackno := rw.ackno + |segment.data|;
      FindAlone(segment);
    }

    /** A segment that is what the receiver expects, and fits: the list holds it only until it is output, so there is
        never a later segment for ackno to advance over. */
    method AcceptInOrder(segment: Segment, pad: u16) returns (ghost writeFails: bool)
      requires Wired() && Idle() && sendBuf == [] && segment.seqno == rw.ackno && segment.data != []
      modifies rw, rw.segments, rw.segments.nodes, conn, conn.chunks`next
      ensures Wired() && Idle() && rw.ackno == old(rw.ackno) + |segment.data|
      ensures conn.sent == old(conn.sent) + [MakeControl(host, sw.Abs(), rw.ackno, TH_ACK, pad)]
      ensures Delivered(old(conn.Out()), old(conn.Room()), segment.data, writeFails)
    {
      hide SendWindow.Listed;
      hide SendWindow.Unshared;
      hide LinkedList.Distinct;
      hide LinkedList.Linked;
      hide LinkedList.Holding;
      hide Conn.Valid;
      hide Conn.Room;
      hide Conn.Out;
      hide Delivered;
      hide MakeControl;
      hide SendWindow.Abs;
      HoldInOrder(segment);
      MakeDirect(TH_ACK, pad);
      writeFails := OutputSegments(segment);
    }

    /** ctcp_receive, part 5: a segment with payload. */
    method ReceiveData(segment: Segment, pad: u16, now: nat, ghost finPad: u16) returns (ghost env: Env)
      requires Wired() && Idle() && sendBuf == [] && status == Running && segment.data != []
      modifies this`status, rw, rw.segments, rw.segments.nodes, conn, conn.chunks`next
      ensures Wired() && (status == Running ==> Idle())
      ensures env.now == now && env.pad == pad && env.finPad == finPad && env.room == old(conn.Room())
      ensures var r := Protocol.ReceiveData(old(Abs()), segment.Value(), env);
        Abs() == r.s && conn.sent == old(conn.sent) + r.sent
    {
      hide SendWindow.Listed;
      hide SendWindow.Unshared;
      hide LinkedList.Distinct;
      hide LinkedList.Linked;
      hide LinkedList.Holding;
      hide Conn.Chained;
      hide Conn.Unwritten;
      hide MakeControl;
      hide SendWindow.Abs;
      hide Accept;
      env := Env(now, pad, finPad, conn.Room(), false);
      if segment.seqno < rw.ackno {
        MakeDirect(TH_ACK, pad);
      }
      if segment.seqno == rw.ackno && |segment.data| <= rw.maxSize - rw.size {
        ghost var writeFails := AcceptInOrder(segment, pad);
        env := env.(writeFails := writeFails);
      }
      if segment.seqno > rw.ackno && |segment.data| <= rw.maxSize - rw.size {
        Hold(segment);
        // the traversal that follows starts at the null it found in the empty list
        status := Crashed;
      }
    }

    /** ctcp_receive, parts 3, 4 and 6: a segment without payload. */
    method ReceiveControl(flags: u32, received: u32, pad: u16, finPad: u16, now: nat, ghost s: Seg, ghost env: Env)
      requires Wired() && sendBuf == [] && s.flags == flags && s.ackno == received
      requires env.pad == pad && env.finPad == finPad && env.now == now
      modifies this`timerTeardown, sw, sw.segments, sw.segments.nodes, sw.queue, conn`sent
      ensures Wired()
      ensures var r := Protocol.ReceiveControl(old(Abs()), s, env);
        Abs() == r.s && conn.sent == old(conn.sent) + r.sent
    {
      hide SendWindow.Listed;
      hide SendWindow.Unshared;
      hide LinkedList.Distinct;
      hide LinkedList.Linked;
      hide LinkedList.Holding;
      hide Conn.Valid;
      hide Conn.Out;
      hide Values;
      hide AnswerFin;
      hide Acknowledge;
      hide HasAck;
      hide SendWindow.Abs;
      ReceiveFin(flags, pad, finPad, now, env);
      assert forall i :: 0 <= i < |sw.queue| ==> sw.queue[i] in sw.queue;
      assert forall i :: 0 <= i < |sw.segments.nodes| ==> sw.segments.nodes[i] in sw.segments.nodes;
      ReceiveFinAckOrAck(flags, received, now);
    }

    /** ctcp_receive, parts 4 and 6. */
    method ReceiveFinAckOrAck(flags: u32, received: u32, now: nat)
      requires Wired()
      modifies this`timerTeardown, sw, sw.segments, sw.segments.nodes, sw.queue, conn`sent
      ensures Wired() && timerTeardown == if flags == 0 then now else old(timerTeardown)
      ensures var sw0 := old(sw.Abs());
        var r := if HasAck(flags) || flags == 0 then Acknowledge(host, sw0, received, rw.ackno, now) else Result(sw0, []);
        sw.Abs() == r.s && conn.sent == old(conn.sent) + r.sent
    {
      hide SendWindow.Listed;
      hide SendWindow.Unshared;
      hide LinkedList.Distinct;
      hide LinkedList.Linked;
      hide LinkedList.Holding;
      hide Conn.Valid;
      hide Acknowledge;
      hide HasAck;
      hide SendWindow.Abs;
      var forceAck := false;
      if flags == 0 {
        forceAck := true;
        timerTeardown := now;
      }
      if HasAck(flags) || forceAck {
        ReceiveAck(received, now);
      }
    }

    lemma ChecksumIgnored(e: Endpoint, s: Seg, env: Env)
      ensures Protocol.ReceiveData(e, s.(cksum := 0), env) == Protocol.ReceiveData(e, s, env)
    {
    }

    /** ctcp_receive, after the checksum. */
    method Dispatch(segment: Segment, pad: u16, finPad: u16, now: nat, ghost s: Seg) returns (ghost env: Env)
      requires Wired() && Idle() && sendBuf == [] && status == Running && segment !in sw.queue
      requires segment.Value() == s.(cksum := 0)
      modifies this`status, this`timerTeardown, rw, rw.segments, rw.segments.nodes
      modifies sw, sw.segments, sw.segments.nodes, sw.queue, conn, conn.chunks`next
      ensures Wired() && (status == Running ==> Idle())
      ensures env.now == now && env.pad == pad && env.finPad == finPad && env.room == old(conn.Room())
      ensures var e1 := old(Abs()).(sw := old(sw.Abs()).(recvWin := s.window));
        var r := if s.data != [] then Protocol.ReceiveData(e1, s, env) else Protocol.ReceiveControl(e1, s, env);
        Abs() == r.s && conn.sent == old(conn.sent) + r.sent
    {
      hide SendWindow.Listed;
      hide SendWindow.Unshared;
      hide LinkedList.Distinct;
      hide LinkedList.Linked;
      hide LinkedList.Holding;
      hide Conn.Valid;
      hide Conn.Room;
      hide Conn.Out;
      hide Protocol.ReceiveData;
      hide Protocol.ReceiveControl;
      sw.recvWinSize := segment.window;
      if |segment.data| != 0 {
        env := ReceiveData(segment, pad, now, finPad);
        ChecksumIgnored(old(Abs()).(sw := old(sw.Abs()).(recvWin := s.window)), s, env);
        return;
      }
      env := Env(now, pad, finPad, conn.Room(), false);
      ReceiveControl(segment.flags, segment.ackno, pad, finPad, now, s, env);
    }

    /** ctcp_receive, for a segment whose length field counts what arrived. */
    method Receive(segment: Segment, pad: u16, finPad: u16, now: nat) returns (ghost env: Env)
      requires Valid() && status == Running && segment !in sw.queue && |segment.data| <= MAX_WIRE_DATA
      requires ReceiveFits(Abs().rw, segment.Value())
      modifies this`status, this`timerTeardown, rw, rw.segments, rw.segments.nodes, segment`cksum
      modifies sw, sw.segments, sw.segments.nodes, sw.queue, conn, conn.chunks`next
      ensures Valid()
      ensures env.now == now && env.pad == pad && env.finPad == finPad && env.room == old(conn.Room())
      ensures var r := Protocol.Receive(old(Abs()), old(segment.Value()), env);
        Abs() == r.s && conn.sent == old(conn.sent) + r.sent
    {
      hide SendWindow.Listed;
      hide SendWindow.Unshared;
      hide LinkedList.Distinct;
      hide LinkedList.Linked;
      hide LinkedList.Holding;
      hide Inv;
      hide Conn.Valid;
      hide Conn.Room;
      hide Conn.Out;
      hide Passes;
      hide Protocol.ReceiveData;
      hide Protocol.ReceiveControl;
      hide SendWindow.Abs;
      hide ReceiveFits;
      ghost var e, s := Abs(), segment.Value();
      env := Env(now, pad, finPad, conn.Room(), false);
      var ok := segment.ChecksumOk(host);
      if ok {
        env := Dispatch(segment, pad, finPad, now, s);
      }
      ReceiveInv(e, s, env);
    }

    /** conn_drain, which ends by calling ctcp_output on the empty list. */
    method Drain()
      requires Valid() && status == Running
      modifies conn, conn.chunks, rw`size, rw.segments, rw.segments.nodes
      ensures Valid() && Abs() == Drained(old(Abs()), conn.wroteErr) && conn.sent == old(conn.sent)
    {
      hide SendWindow.Listed;
      hide SendWindow.Unshared;
      hide LinkedList.Distinct;
      hide LinkedList.Linked;
      hide LinkedList.Holding;
      hide SenderInv;
      hide Values;
      hide Conn.Valid;
      hide Accept;
      conn.Drain();
      assert forall i :: 0 <= i < |conn.chunks| ==> conn.chunks[i] in conn.chunks;
      var _ := OutputSegments(null);
    }

    /** ctcp_timer, for this connection. */
    method Timer(now: nat)
      requires Valid() && status == Running
      modifies this`status, sw`timer, sw`retransCounter, sw.queue, conn`sent
      ensures Valid()
      ensures var r := Protocol.Timer(old(Abs()), now);
        Abs() == r.s && conn.sent == old(conn.sent) + r.sent
    {
      hide SendWindow.Listed;
      hide SendWindow.Unshared;
      hide LinkedList.Distinct;
      hide LinkedList.Linked;
      hide LinkedList.Holding;
      hide Inv;
      hide Protocol.Retransmit;
      hide Values;
      TimerInv(Abs(), now);
      if timerTeardown != -1 {
        if now - timerTeardown > 2 * timeoutStandard {
          status := Destroyed;
          return;
        }
      }
      if sw.timer != -1 {
        if now - sw.timer > timeoutStandard {
          if sw.retransCounter >= MAX_RETRANSMISSIONS {
            status := Destroyed;
            return;
          }
          Retry(now);
        }
      }
    }

    method Retry(now: nat)
      requires Wired()
      modifies sw`timer, sw`retransCounter, sw.queue, conn`sent
      ensures Wired()
      ensures var sw0 := old(sw.Abs());
        var r := Protocol.Retransmit(host, sw0.(counter := sw0.counter + 1, timer := now), rw.ackno, now);
        sw.Abs() == r.s && conn.sent == old(conn.sent) + r.sent
    {
      hide SendWindow.Listed;
      hide SendWindow.Unshared;
      hide LinkedList.Distinct;
      hide LinkedList.Linked;
      hide LinkedList.Holding;
      hide Protocol.Retransmit;
      hide Values;
      sw.retransCounter := sw.retransCounter + 1;
      sw.timer := now;
      Retransmit(now);
    }
  }
}
