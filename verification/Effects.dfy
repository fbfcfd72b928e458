/** What each event sends, frees and accepts, spelled out field by field against the state before it. */
module Effects {
  import opened Bytes
  import opened Wire
  import opened Protocol
  import opened ProtocolInvariant
  import opened Network
  import opened Runs
  import Retry
  import WireFields

  // ---------- Acknowledgements ----------

  /** An acknowledgement frees exactly the segments that end at or below it, the timer stops when none is left and starts
      again otherwise, and one for all that was sent empties the queue. */
  lemma AcknowledgeExactly(host: Host, sw: Sender, received: u32, ackno: int, now: nat)
    requires SenderInv(sw)
    ensures var r := Acknowledge(host, sw, received, ackno, now);
      var n, q, rest := ToInt32(received), sw.queue, r.s.queue;
      && r.sent == [] && SenderInv(r.s) && r.s.first == sw.first && r.s.seqno == sw.seqno
      && |rest| <= |q| && rest == q[|q| - |rest|..]
      && (forall i :: 0 <= i < |q| - |rest| ==> End(q[i]) <= n)
      && (forall i :: 0 <= i < |rest| ==> End(rest[i]) > n)
      && (|rest| == |q| ==> r.s == sw)
      && (|rest| < |q| ==> r.s.counter == 0 && r.s.timer == (if rest == [] then -1 else now))
      && r.s.size == Total(rest)
      && (n >= sw.seqno ==> rest == [] && r.s.timer == -1)
  {
    hide AllQuote;
    hide AllSame;
    hide Unacked;
    hide AckedBytes;
    var n, q := ToInt32(received), sw.queue;
    QueueContiguous(sw);
    AcknowledgeInv(host, sw, received, ackno, now);
    var r := Acknowledge(host, sw, received, ackno, now);
    QueueHoldsTheRest(r.s);
    if Acceptable(sw, received) {
      AckRemovesPrefix(q, Unacknowledged(sw), sw.seqno, n);
      FlushSent(host, Slid(sw, n).queue, ToU32(ackno));
      SentNothing(host, Slid(sw, n), ackno, now);
    } else {
      HeadEndsFirst(q, Unacknowledged(sw), sw.seqno);
    }
    EndsWithin(r.s);
  }

  lemma HeadEndsFirst(q: seq<Seg>, lo: int, hi: int)
    requires Contiguous(q, lo, hi)
    ensures forall i :: 0 <= i < |q| ==> End(q[i]) >= End(q[0])
  {
    if q != [] {
      ContiguousFrom(q, lo, hi, 1);
    }
  }

  lemma EndsWithin(sw: Sender)
    requires SenderInv(sw)
    ensures forall i :: 0 <= i < |sw.queue| ==> End(sw.queue[i]) <= sw.seqno
  {
    hide AllQuote;
    QueueContiguous(sw);
    ContiguousFrom(sw.queue, Unacknowledged(sw), sw.seqno, 0);
  }

  /** Freeing what ends at or below the peer's ackno frees everything up to it. */
  lemma FreedUpTo(sw: Sender, sw1: Sender, rw: Receiver)
    requires SenderInv(sw) && Link(sw, rw) && sw1.seqno == sw.seqno
    requires |sw1.queue| <= |sw.queue| && sw1.queue == sw.queue[|sw.queue| - |sw1.queue|..]
    requires forall i :: 0 <= i < |sw.queue| - |sw1.queue| ==> End(sw.queue[i]) <= rw.ackno
    requires forall i :: 0 <= i < |sw1.queue| ==> End(sw1.queue[i]) > rw.ackno
    ensures Unacknowledged(sw1) == rw.ackno
  {
    hide AllQuote;
    hide Boundary;
    var q, j := sw.queue, |sw.queue| - |sw1.queue|;
    QueueContiguous(sw);
    if j > 0 { AckedUpTo(q, Unacknowledged(sw), sw.seqno, j); }
    if j < |q| {
      assert sw1.queue[0] == q[j];
      QueuedNeverSplit(sw, rw.ackno, j);
    }
  }

  lemma QueuedNeverSplit(sw: Sender, n: int, j: nat)
    requires SenderInv(sw) && Boundary(sw, n) && j < |sw.queue|
    ensures End(sw.queue[j]) <= n || n <= sw.queue[j].seqno
  {
    hide AllQuote;
    hide Contiguous;
    hide Boundary;
    var i := |sw.first| - |sw.queue| + j;
    assert SameBytes(sw.queue[j], Last(sw.first, |sw.queue|)[j]);
    BoundaryNeverSplits(sw, n, i);
  }

  /** A control segment that acknowledges all its sender has accepted moves the first unacknowledged byte there. */
  lemma ControlFrees(x: Endpoint, y: Endpoint, s: Seg, env: Env)
    requires PairInv(x, y) && s.ackno == y.rw.ackno && (HasAck(s.flags) || s.flags == 0)
    ensures var sw := ReceiveControl(x, s, env).s.sw;
      && Unacknowledged(sw) == y.rw.ackno
      && (y.rw.ackno == x.sw.seqno ==> sw.queue == [] && sw.timer == -1)
  {
    hide SenderInv;
    hide Boundary;
    var r1 := AnswerFin(x, s.flags, env);
    AnswerFinInv(x, s.flags, env);
    GrowsKeepsLink(x, x.(sw := r1.s), y.rw);
    AcknowledgeExactly(x.host, r1.s, s.ackno, x.rw.ackno, env.now);
    AcceptedFits(y);
    FreedUpTo(r1.s, ReceiveControl(x, s, env).s.sw, y.rw);
  }

  lemma AcceptedFits(y: Endpoint)
    requires Inv(y)
    ensures 1 <= y.rw.ackno < LIMIT && ToInt32(y.rw.ackno) == y.rw.ackno
  {
    hide SenderInv;
  }

  /** Over every run: an acknowledgement that passes and is up to date, when it arrives, frees all that was accepted. */
  lemma AcknowledgementFrees(w: World, p: Packet, addAck: bool, env: Env)
    requires WorldInv(w) && Enabled(w, Arriving(p, addAck, env))
    requires Passes(At(w, p.from).host, p.seg) && p.seg.data == [] && HasAck(p.seg.flags)
    requires p.seg.ackno == At(w, p.from).rw.ackno
    ensures var x, x1 := At(w, Other(p.from)), At(Next(w, Arriving(p, addAck, env)), Other(p.from));
      && Unacknowledged(x1.sw) == At(w, p.from).rw.ackno
      && (At(w, p.from).rw.ackno == x.sw.seqno ==> x1.sw.queue == [] && x1.sw.timer == -1)
  {
    hide PairInv;
    hide Placed;
    hide Passes;
    hide Carried;
    hide HasAck;
    hide ReceiveControl;
    hide LowFlags;
    var x, y, s := At(w, Other(p.from)), At(w, p.from), Arrived(w, p, addAck);
    ArrivedFaithful(w, p, addAck);
    ArrivedAcks(w, p, addAck);
    PairAt(w, Other(p.from));
    WindowUpdate(x, y, s.window);
    ControlFrees(x.(sw := x.sw.(recvWin := s.window)), y, s, env);
  }

  lemma ArrivedAcks(w: World, p: Packet, addAck: bool)
    requires |p.seg.data| <= MAX_WIRE_DATA && HasAck(p.seg.flags)
    ensures HasAck(Arrived(w, p, addAck).flags)
  {
    hide Carried;
    hide HasAck;
    WireFields.CarriedFlags(At(w, p.from).host, View(w, p.from), At(w, Other(p.from)).host, View(w, Other(p.from)),
      p.seg, addAck);
  }

  // ---------- Segments that arrive ----------

  lemma FailingIgnored(e: Endpoint, s: Seg, env: Env)
    requires !Passes(e.host, s)
    ensures Receive(e, s, env) == Result(e, [])
  {
    hide Passes;
  }

  /** A payload already accepted, or accepted now. */
  predicate Answered(e: Endpoint, s: Seg)
  {
    s.seqno < e.rw.ackno || (s.seqno == e.rw.ackno && |s.data| <= e.rw.maxSize)
  }

  /** A bare acknowledgement of all that has been accepted, from here on. */
  predicate IsAck(e: Endpoint, ackno: int, t: Seg)
  {
    && t.data == [] && t.flags == 0x10 && t.seqno == e.sw.seqno && t.ackno == ackno
    && t.window == e.sw.maxSize - e.sw.size && Passes(e.host, t)
  }

  /** A payload that passes is answered by exactly one acknowledgement of all accepted so far if it was accepted before or
      is accepted now, and by nothing otherwise; the ackno moves by its length exactly if it is the next and fits. */
  lemma PayloadAnswered(e: Endpoint, s: Seg, env: Env)
    requires Inv(e) && ReceiveFits(e.rw, s) && Passes(e.host, s) && s.data != []
    ensures var r := Receive(e, s, env);
      && (if Answered(e, s) then |r.sent| == 1 && IsAck(e, r.s.rw.ackno, r.sent[0]) else r.sent == [])
      && r.s.rw.ackno == e.rw.ackno + (if s.seqno == e.rw.ackno && |s.data| <= e.rw.maxSize then |s.data| else 0)
      && r.s.sw == e.sw.(recvWin := s.window) && r.s.teardown == e.teardown
  {
    hide Passes;
    hide Deliver;
    hide MakeControl;
    var e1 := e.(sw := e.sw.(recvWin := s.window));
    AckFields(e, e1, e.rw.ackno, env.pad);
    if s.seqno == e.rw.ackno { AckFields(e, e1, e.rw.ackno + |s.data|, env.pad); }
  }

  lemma AckFields(e: Endpoint, e1: Endpoint, ackno: int, pad: u16)
    requires Inv(e) && e1.sw == e.sw.(recvWin := e1.sw.recvWin) && 0 <= ackno < LIMIT
    ensures IsAck(e, ackno, MakeControl(e.host, e1.sw, ackno, TH_ACK, pad))
  {
    hide Passes;
    hide Encode;
    SenderFits(e.sw);
    Retry.ControlPasses(e.host, e1.sw, ackno, TH_ACK, pad);
  }

  lemma SenderFits(sw: Sender)
    requires SenderInv(sw)
    ensures 1 <= sw.seqno < LIMIT && 0 <= sw.size <= sw.maxSize
  {
    hide Contiguous;
    hide AllQuote;
    hide AllSame;
  }

  /** Over every run: a payload that its receiver has accepted or accepts, and the acknowledgement it is answered with,
      once both arrive, free at the sender everything the receiver had accepted then, this payload included. */
  lemma DeliveredThenFreed(w: World, p: Packet, addAck: bool, env: Env, ackAdd: bool, env2: Env)
    requires WorldInv(w) && Enabled(w, Arriving(p, addAck, env))
    requires Passes(At(w, p.from).host, p.seg) && p.seg.data != [] && Answered(At(w, Other(p.from)), p.seg)
    requires At(w, p.from).status == Running && env2.now == w.clock
    ensures var y, w1 := Other(p.from), Next(w, Arriving(p, addAck, env));
      var sent := Receive(At(w, y), Arrived(w, p, addAck), env).sent;
      && |sent| == 1
      && var ack := Arriving(Packet(y, sent[0], false), ackAdd, env2);
      && Enabled(w1, ack)
      && Unacknowledged(At(Next(w1, ack), p.from).sw) == At(w1, y).rw.ackno >= End(p.seg)
  {
    hide PairInv;
    hide Placed;
    hide Passes;
    hide Carried;
    hide Receive;
    hide WorldInv;
    hide HasAck;
    var y, w1 := Other(p.from), Next(w, Arriving(p, addAck, env));
    var e, s := At(w, y), Arrived(w, p, addAck);
    ArrivedFaithful(w, p, addAck);
    PayloadFacts(w, p);
    PayloadAnswered(e, s, env);
    NextInv(w, Arriving(p, addAck, env));
    var t := Receive(e, s, env).sent[0];
    assert Copies(y, Receive(e, s, env).sent)[0] == Packet(y, t, false);
    IsAckHasAck(t.flags);
    AcknowledgementFrees(w1, Packet(y, t, false), ackAdd, env2);
  }

  lemma IsAckHasAck(flags: u32)
    requires flags == 0x10
    ensures HasAck(flags)
  {
  }

  lemma PayloadFacts(w: World, p: Packet)
    requires WorldInv(w) && p in w.bag && p.seg.data != []
    ensures Inv(At(w, Other(p.from))) && ReceiveFits(At(w, Other(p.from)).rw, p.seg)
    ensures p.seg.seqno < At(w, Other(p.from)).rw.ackno ==> End(p.seg) <= At(w, Other(p.from)).rw.ackno
  {
    hide Boundary;
    hide Queued;
    hide Contiguous;
    var x := At(w, p.from);
    PairOf(w, p.from);
    PacketTruthful(w, p);
    assert InFlight(w, p);
    var i :| 0 <= i < |x.sw.first| && SamePlace(x.sw.first[i], p.seg);
    FirstEnds(x.sw, i);
  }

  /** What a FIN is answered with: a FIN-ACK, and a FIN of one's own unless a FIN-ACK has come in. */
  predicate IsControl(e: Endpoint, flags: u32, t: Seg)
  {
    && t.data == [] && t.flags == flags && t.seqno == e.sw.seqno && t.ackno == e.rw.ackno
    && t.window == e.sw.maxSize - e.sw.size && Passes(e.host, t)
  }

  /** A control segment that passes: what is sent, and when the teardown timer starts. */
  lemma ControlAnswered(e: Endpoint, s: Seg, env: Env)
    requires Inv(e) && Passes(e.host, s) && s.data == []
    ensures var r := Receive(e, s, env);
      var finAck := if e.host.BigEndian? then 0x11 else 0x1100_0000;
      && r.s.rw == e.rw && r.s.teardown == (if s.flags == 0 then env.now else e.teardown) && r.s.status == e.status
      && (!HasFin(s.flags) ==> r.sent == [])
      && (HasFin(s.flags) ==>
            && |r.sent| == (if e.teardown == -1 then 2 else 1) && IsControl(e, finAck, r.sent[0])
            && (e.teardown == -1 ==> IsControl(e, 0x01, r.sent[1])))
  {
    hide SenderInv;
    hide Passes;
    hide MakeControl;
    hide Acknowledge;
    hide SendNew;
    var e1 := e.(sw := e.sw.(recvWin := s.window));
    AnyWindowInv(e.sw, s.window);
    var r1 := AnswerFin(e1, s.flags, env);
    AnswerFinInv(e1, s.flags, env);
    AcknowledgeExactly(e.host, r1.s, s.ackno, e.rw.ackno, env.now);
    FinAckWord(e.host);
    ControlFields(e, e1, FinAckFlags(e.host), env.pad);
    FinSent(e, e1, env);
  }

  lemma FinAckWord(host: Host)
    ensures FinAckFlags(host) == if host.BigEndian? then 0x11 else 0x1100_0000
  {
    hide Net32;
    NetworkOrder32(host, 0, 0, 0, 0x11);
  }

  lemma ControlFields(e: Endpoint, e1: Endpoint, flags: u32, pad: u16)
    requires Inv(e) && e1.sw == e.sw.(recvWin := e1.sw.recvWin)
    ensures IsControl(e, flags, MakeControl(e.host, e1.sw, e.rw.ackno, flags, pad))
  {
    hide Passes;
    hide Encode;
    SenderFits(e.sw);
    Retry.ControlPasses(e.host, e1.sw, e.rw.ackno, flags, pad);
  }

  lemma FinSent(e: Endpoint, e1: Endpoint, env: Env)
    requires Inv(e) && SenderInv(e1.sw) && e1.sw == e.sw.(recvWin := e1.sw.recvWin)
    ensures var r := SendNew(e.host, e1.sw, e.rw.ackno, TH_FIN, [], env.finPad, env.now);
      |r.sent| == 1 && IsControl(e, 0x01, r.sent[0])
  {
    hide Numbered;
    SendNewIsOneTransmission(e.host, e1.sw, e.rw.ackno, TH_FIN, [], env.finPad, env.now);
    NewFields(e, e1, TH_FIN, [], env.finPad);
  }

  lemma NewFields(e: Endpoint, e1: Endpoint, flags: u32, data: seq<byte>, pad: u16)
    requires Inv(e) && e1.sw == e.sw.(recvWin := e1.sw.recvWin)
    ensures var t := Transmitted(e.host, e1.sw, e.rw.ackno, flags, data, pad);
      && t.data == data && t.flags == flags && t.seqno == e.sw.seqno && t.ackno == e.rw.ackno
      && t.window == e.sw.maxSize - e.sw.size && Passes(e.host, t) && t.cksum != 0
  {
    hide Passes;
    hide Encode;
    SenderFits(e.sw);
    Retry.TransmittedPasses(e.host, e1.sw, e.rw.ackno, flags, data, pad);
  }

  /** The FIN-ACK as it arrives: with no flags from a little-endian host, as FIN and ACK from a big-endian one, ACK set
      besides if the datagram goes to the web. */
  lemma FinAckArrives(from: Host, dst: Peer, to: Host, src: Peer, s: Seg, addAck: bool)
    requires |s.data| <= MAX_WIRE_DATA && s.flags == FinAckFlags(from)
    ensures var r := Carried(from, dst, to, src, s, addAck);
      r.flags == (if from.BigEndian? then 0x11 else if addAck then 0x10 else 0)
  {
    hide Carried;
    hide LowFlags;
    hide FinAckFlags;
    FinAckWord(from);
    RoundTrip(from, dst, to, src, s, addAck);
    FinAckLow(addAck);
  }

  lemma FinAckLow(addAck: bool)
    ensures LowFlags(0x1100_0000, addAck) == (if addAck then 0x10 else 0) && LowFlags(0x11, addAck) == 0x11
  {
    assert 0x1100_0000 % 0x100 == 0;
  }

  // ---------- Reading ----------

  /** With both windows open, reading transmits exactly one segment: the data or the end of file, within what the peer
      advertised, what is left of our own window, and 1440 bytes; otherwise it does nothing. */
  lemma ReadExactly(e: Endpoint, input: Input, pad: u16, now: nat)
    requires Inv(e) && ReadFits(e.sw, input)
    ensures var r := Read(e, input, pad, now);
      var data := if input.Data? then input.data else [];
      if e.sw.size < e.sw.maxSize && e.sw.recvWin > 0 then
        && |data| <= e.sw.recvWin && |data| <= e.sw.maxSize - e.sw.size && |data| <= 1440
        && |r.sent| == 1
        && var t := r.sent[0];
        && t.data == data && t.flags == (if input.Data? then 0x10 else 0x01)
        && t.seqno == e.sw.seqno && t.ackno == e.rw.ackno && t.window == e.sw.maxSize - e.sw.size && Passes(e.host, t)
        && r.s == e.(sw := e.sw.(queue := e.sw.queue + [t], first := e.sw.first + [t], input := e.sw.input + data,
                                 size := e.sw.size + |data|, seqno := e.sw.seqno + |data|, timer := now, counter := 0))
      else r == Result(e, [])
  {
    hide Passes;
    hide Transmitted;
    hide SendNew;
    hide SenderInv;
    hide Queued;
    QueuedInv(e.sw);
    SenderFits(e.sw);
    var (flags, data) := if input.Data? then (TH_ACK, input.data) else (TH_FIN, []);
    SendNewIsOneTransmission(e.host, e.sw, e.rw.ackno, flags, data, pad, now);
    NewFields(e, e, flags, data, pad);
  }

  /** conn_input is asked for as much as both windows and 1440 bytes allow, and for no less. */
  lemma ReadAsks(sw: Sender)
    ensures var n := ReadSpace(sw);
      && n <= sw.maxSize - sw.size && n <= sw.recvWin && n <= 1440
      && (n == sw.maxSize - sw.size || n == sw.recvWin || n == 1440)
  {
  }

  /** A connection starts with nothing sent, accepted or running, and with a full segment's credit. */
  lemma InitState(host: Host, sendWindow: u16, recvWindow: u16, timeout: int)
    ensures var e := Init(host, sendWindow, recvWindow, timeout);
      && e.status == Running && e.host == host && e.timeout == timeout && e.teardown == -1
      && e.sw.queue == [] && e.sw.size == 0 && e.sw.maxSize == sendWindow && e.sw.recvWin == 1440 && e.sw.seqno == 1
      && e.sw.timer == -1 && e.sw.counter == 0
      && e.rw.ackno == 1 && e.rw.maxSize == recvWindow && e.rw.out == Output([], false, false)
  {
  }

  lemma QueuedInv(sw: Sender)
    requires SenderInv(sw)
    ensures Queued(sw)
  {
    hide Numbered;
    hide Queued;
  }

  // ---------- The timer ----------

  /** The timer destroys the connection twice a timeout after a FIN-ACK, or at the sixth timeout in a row; it sends the head
      again at the first five, with the current ackno and otherwise as it was; at other times it does nothing. */
  lemma TimerExactly(e: Endpoint, now: nat)
    requires Inv(e) && e.status == Running
    ensures var r := Timer(e, now);
      var gone := e.teardown != -1 && now - e.teardown > 2 * e.timeout;
      var late := e.sw.timer != -1 && now - e.sw.timer > e.timeout;
      if gone || (late && e.sw.counter == 5) then r == Result(e.(status := Destroyed), [])
      else if !late then r == Result(e, [])
      else
        && e.sw.queue != [] && |r.sent| == 1
        && var head, t := e.sw.queue[0], r.sent[0];
        && t == head.(ackno := t.ackno, cksum := t.cksum) && t.ackno == e.rw.ackno && t.cksum != 0
        && r.s == e.(sw := e.sw.(queue := e.sw.queue[0 := t], counter := e.sw.counter + 1, timer := now))
  {
    hide SenderInv;
    Retry.TimerCases(e, now);
    Retry.TimedInv(e);
    AcceptedFits(e);
  }

  // ---------- Output that has come to an end ----------

  /** Nothing more will be given to the application. */
  predicate Closed(out: Output) { out.eof || out.err }

  /** What the application gets of a payload that is accepted: as much as there is room for, unless output has ended; no
      room at all marks the end of file, and a failing write the error. */
  lemma AcceptedOutput(e: Endpoint, s: Seg, env: Env)
    requires Passes(e.host, s) && s.data != [] && s.seqno == e.rw.ackno && |s.data| <= e.rw.maxSize
    ensures var out, out1 := e.rw.out, Receive(e, s, env).s.rw.out;
      if Closed(out) || env.room == 0 || env.writeFails then
        && out1.delivered == out.delivered && (out1.eof <==> out.eof || env.room == 0)
        && (out1.err <==> out.err || (!out.eof && env.room > 0 && env.writeFails))
      else
        out1 == out.(delivered := out.delivered + s.data[..if |s.data| <= env.room then |s.data| else env.room])
  {
    hide Passes;
    hide MakeControl;
    assert s.data[..0] == [];
  }

  /** A payload accepted while there is no room at all marks the end of file. */
  lemma NoRoomCloses(e: Endpoint, s: Seg, env: Env)
    requires Passes(e.host, s) && s.data != [] && s.seqno == e.rw.ackno && |s.data| <= e.rw.maxSize && env.room == 0
    ensures var r := Receive(e, s, env).s.rw;
      r.out.eof && r.out.delivered == e.rw.out.delivered && r.ackno == e.rw.ackno + |s.data|
  {
    hide Passes;
    hide MakeControl;
    assert s.data[..0] == [];
  }

  lemma ClosedReceives(e: Endpoint, s: Seg, env: Env)
    requires Closed(e.rw.out)
    ensures var out := Receive(e, s, env).s.rw.out; Closed(out) && out.delivered == e.rw.out.delivered
  {
    hide Passes;
    hide MakeControl;
    hide AnswerFin;
    hide Acknowledge;
  }

  /** Over every run: after the end of file or an error nothing is given to the application any more. */
  lemma {:induction false} ClosedForGood(w: World, steps: seq<Step>, side: Side)
    requires Legal(w, steps) && Closed(At(w, side).rw.out)
    ensures var out := At(Final(w, steps), side).rw.out;
      Closed(out) && out.delivered == At(w, side).rw.out.delivered
    decreases |steps|
  {
    hide Enabled;
    hide Next;
    hide Closed;
    if steps != [] {
      StepClosed(w, steps[0], side);
      ClosedForGood(Next(w, steps[0]), steps[1..], side);
    }
  }

  lemma StepClosed(w: World, step: Step, side: Side)
    requires Enabled(w, step) && Closed(At(w, side).rw.out)
    ensures var out := At(Next(w, step), side).rw.out;
      Closed(out) && out.delivered == At(w, side).rw.out.delivered
  {
    hide Receive;
    hide Arrived;
    hide Read;
    hide Timer;
    hide Corrupted;
    if step.Arriving? && Other(step.p.from) == side {
      ClosedReceives(At(w, side), Arrived(w, step.p, step.addAck), step.env);
    } else {
      OtherStepsDeliverNothing(w, step, side);
      ErrStays(w, step, side);
    }
  }

  lemma ErrStays(w: World, step: Step, side: Side)
    requires Enabled(w, step) && !(step.Arriving? && Other(step.p.from) == side)
    ensures At(w, side).rw.out.err ==> At(Next(w, step), side).rw.out.err
  {
    hide Corrupted;
    hide Arrived;
    hide Receive;
    hide SendNew;
    hide Retransmit;
  }
}
