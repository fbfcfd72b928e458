/** Safety over whole runs of two endpoints, from connection set-up on. */
module Runs {
  import opened Bytes
  import opened Checksum
  import opened Wire
  import opened Protocol
  import opened ProtocolInvariant
  import opened Network

  datatype Config = Config(host: Host, sendWindow: u16, recvWindow: u16, timeout: int, view: Peer)

  /** Both ends after the handshake; the ends agree on the initial sequence numbers. */
  function Start(a: Config, b: Config, clock: nat): World
  {
    World(Init(a.host, a.sendWindow, a.recvWindow, a.timeout), Init(b.host, b.sendWindow, b.recvWindow, b.timeout),
          a.view, b.view, multiset{}, clock)
  }

  predicate Legal(w: World, steps: seq<Step>)
    decreases |steps|
  {
    steps == [] || (Enabled(w, steps[0]) && Legal(Next(w, steps[0]), steps[1..]))
  }

  function Final(w: World, steps: seq<Step>): World
    requires Legal(w, steps)
    decreases |steps|
  {
    if steps == [] then w else Final(Next(w, steps[0]), steps[1..])
  }

  lemma {:induction false} RunInv(w: World, steps: seq<Step>)
    requires WorldInv(w) && Legal(w, steps)
    ensures WorldInv(Final(w, steps))
    decreases |steps|
  {
    hide WorldInv;
    hide Enabled;
    hide Next;
    if steps != [] {
      NextInv(w, steps[0]);
      RunInv(Next(w, steps[0]), steps[1..]);
    }
  }

  lemma StartInv(a: Config, b: Config, clock: nat)
    requires Addressed(a.view, b.view)
    ensures WorldInv(Start(a, b, clock))
  {
    InitInv(a.host, a.sendWindow, a.recvWindow, a.timeout);
    InitInv(b.host, b.sendWindow, b.recvWindow, b.timeout);
  }

  /** In every run, at every moment: what a side has not yet freed includes everything its peer has not yet accepted,
      the queue holds exactly the bytes from the first unacknowledged one on, and the peer has accepted no byte that
      was not read. */
  lemma NothingForgottenEarly(a: Config, b: Config, clock: nat, steps: seq<Step>, side: Side)
    requires Addressed(a.view, b.view) && Legal(Start(a, b, clock), steps)
    ensures var w := Final(Start(a, b, clock), steps);
      var sw, rw := At(w, side).sw, At(w, Other(side)).rw;
      && 1 <= Unacknowledged(sw) <= rw.ackno <= sw.seqno == 1 + |sw.input|
      && Payload(sw.queue) == sw.input[Unacknowledged(sw) - 1..]
      && Total(sw.queue) == sw.size <= sw.maxSize
      && (sw.timer != -1 <==> sw.queue != [])
  {
    hide WorldInv;
    hide PairInv;
    StartInv(a, b, clock);
    RunInv(Start(a, b, clock), steps);
    var w := Final(Start(a, b, clock), steps);
    PairOf(w, side);
    PairForgetsNothing(At(w, side), At(w, Other(side)));
  }

  lemma PairOf(w: World, side: Side)
    requires WorldInv(w)
    ensures PairInv(At(w, side), At(w, Other(side)))
  {
    hide PairInv;
    hide InFlight;
    PairAt(w, side);
  }

  lemma PairForgetsNothing(x: Endpoint, y: Endpoint)
    requires PairInv(x, y)
    ensures var sw, rw := x.sw, y.rw;
      && 1 <= Unacknowledged(sw) <= rw.ackno <= sw.seqno == 1 + |sw.input|
      && Payload(sw.queue) == sw.input[Unacknowledged(sw) - 1..]
      && Total(sw.queue) == sw.size <= sw.maxSize
      && (sw.timer != -1 <==> sw.queue != [])
  {
    hide Contiguous;
    hide AllQuote;
    hide AllSame;
    hide Boundary;
    QueueContiguous(x.sw);
    QueueHoldsTheRest(x.sw);
  }

  /** A copy in flight acknowledges no more than its sender has accepted; it lies wholly below its receiver's ackno or
      starts at or above it; and unless a bit of it was flipped it quotes the bytes its sender read. */
  ghost predicate Truthful(x: Endpoint, y: Endpoint, p: Packet)
  {
    && p.seg.ackno <= x.rw.ackno
    && (p.seg.data != [] ==> End(p.seg) <= y.rw.ackno || y.rw.ackno <= p.seg.seqno)
    && (p.seg.data != [] && !p.damaged ==> Quotes(p.seg, x.sw.input))
  }

  lemma InFlightIsTruthful(a: Config, b: Config, clock: nat, steps: seq<Step>, p: Packet)
    requires Addressed(a.view, b.view) && Legal(Start(a, b, clock), steps)
    requires p in Final(Start(a, b, clock), steps).bag
    ensures var w := Final(Start(a, b, clock), steps); Truthful(At(w, p.from), At(w, Other(p.from)), p)
  {
    hide WorldInv;
    hide Truthful;
    StartInv(a, b, clock);
    RunInv(Start(a, b, clock), steps);
    PacketTruthful(Final(Start(a, b, clock), steps), p);
  }

  lemma PacketTruthful(w: World, p: Packet)
    requires WorldInv(w) && p in w.bag
    ensures Truthful(At(w, p.from), At(w, Other(p.from)), p)
  {
    hide SenderInv;
    hide Boundary;
    var x, y := At(w, p.from), At(w, Other(p.from));
    PairAt(w, p.from);
    assert InFlight(w, p);
    if p.seg.data != [] {
      var i :| 0 <= i < |x.sw.first| && SamePlace(x.sw.first[i], p.seg);
      TransmittedTruthful(x.sw, i, y.rw.ackno);
      if !p.damaged { GenuineQuotes(x, p.seg); }
    }
  }

  lemma TransmittedTruthful(sw: Sender, i: nat, n: int)
    requires SenderInv(sw) && Boundary(sw, n) && i < |sw.first|
    ensures Quotes(sw.first[i], sw.input) && (End(sw.first[i]) <= n || n <= sw.first[i].seqno)
  {
    hide Queued;
    hide Contiguous;
    BoundaryNeverSplits(sw, n, i);
  }

  lemma GenuineQuotes(x: Endpoint, s: Seg)
    requires SenderInv(x.sw) && Genuine(x, s) && s.data != []
    ensures Quotes(s, x.sw.input)
  {
    hide Queued;
    hide Contiguous;
    var i :| 0 <= i < |x.sw.first| && SameBytes(x.sw.first[i], s);
    assert Quotes(x.sw.first[i], x.sw.input);
  }

  // ---------- Delivery ----------

  /** A payload that `side` accepts at a step finds room for all of it; other steps count as roomy. */
  predicate RoomyStep(w: World, step: Step, side: Side)
    requires Enabled(w, step)
  {
    step.Arriving? && Other(step.p.from) == side ==>
      var s := Arrived(w, step.p, step.addAck);
      Passes(At(w, side).host, s) && Accepts(At(w, side).rw, s) ==> Roomy(At(w, side).rw.out, s.data, step.env)
  }

  /** A payload that `side` accepts at a step is what its sender read. */
  predicate IntactStep(w: World, step: Step, side: Side)
    requires Enabled(w, step)
  {
    step.Arriving? && Other(step.p.from) == side ==>
      var s := Arrived(w, step.p, step.addAck);
      Passes(At(w, side).host, s) && Accepts(At(w, side).rw, s) ==> Quotes(s, At(w, step.p.from).sw.input)
  }

  predicate AllRoomy(w: World, steps: seq<Step>, side: Side)
    requires Legal(w, steps)
    decreases |steps|
  {
    steps == [] || (RoomyStep(w, steps[0], side) && AllRoomy(Next(w, steps[0]), steps[1..], side))
  }

  predicate AllIntact(w: World, steps: seq<Step>, side: Side)
    requires Legal(w, steps)
    decreases |steps|
  {
    steps == [] || (IntactStep(w, steps[0], side) && AllIntact(Next(w, steps[0]), steps[1..], side))
  }

  /** The application at `side` has exactly the bytes acknowledged so far, as the other side read them. */
  ghost predicate ExactAt(w: World, side: Side) { Exact(At(w, Other(side)).sw, At(w, side).rw) }

  /** Only an arriving segment changes the receive side in a way ExactAt can see. */
  lemma OtherStepsDeliverNothing(w: World, step: Step, side: Side)
    requires Enabled(w, step) && !(step.Arriving? && Other(step.p.from) == side)
    ensures var rw, rw1 := At(w, side).rw, At(Next(w, step), side).rw;
      rw1 == rw.(out := rw.out.(err := rw1.out.err))
  {
    hide Corrupted;
    hide Arrived;
    hide Receive;
    hide SendNew;
    hide Retransmit;
  }

  lemma StepDelivery(w: World, step: Step, side: Side)
    requires WorldInv(w) && Enabled(w, step)
    ensures ExactAt(Next(w, step), side) <==> ExactAt(w, side) && RoomyStep(w, step, side) && IntactStep(w, step, side)
  {
    hide WorldInv;
    hide Enabled;
    hide Next;
    hide ExactAt;
    hide RoomyStep;
    hide IntactStep;
    if step.Arriving? && Other(step.p.from) == side {
      ArrivalDelivery(w, step, side);
    } else {
      OtherDelivery(w, step, side);
    }
  }

  lemma OtherDelivery(w: World, step: Step, side: Side)
    requires WorldInv(w) && Enabled(w, step) && !(step.Arriving? && Other(step.p.from) == side)
    ensures ExactAt(Next(w, step), side) <==> ExactAt(w, side)
    ensures RoomyStep(w, step, side) && IntactStep(w, step, side)
  {
    hide WorldInv;
    hide Enabled;
    hide Next;
    hide Grows;
    hide Exact;
    NextInv(w, step);
    OtherStepsDeliverNothing(w, step, side);
    LinkAt(w, side);
    ExactGrows(At(w, Other(side)), At(Next(w, step), Other(side)), At(w, side).rw, At(Next(w, step), side).rw);
  }

  lemma LinkAt(w: World, side: Side)
    requires WorldInv(w)
    ensures 1 <= At(w, side).rw.ackno <= 1 + |At(w, Other(side)).sw.input|
  {
    hide Queued;
    hide Contiguous;
    hide AllQuote;
    hide Boundary;
  }

  lemma ExactGrows(y: Endpoint, y1: Endpoint, rw: Receiver, rw1: Receiver)
    requires Grows(y, y1) && rw1 == rw.(out := rw.out.(err := rw1.out.err)) && 1 <= rw.ackno <= 1 + |y.sw.input|
    ensures Exact(y1.sw, rw1) <==> Exact(y.sw, rw)
  {
    assert y1.sw.input[..rw.ackno - 1] == y.sw.input[..rw.ackno - 1];
  }

  lemma ArrivalDelivery(w: World, step: Step, side: Side)
    requires WorldInv(w) && Enabled(w, step) && step.Arriving? && Other(step.p.from) == side
    ensures ExactAt(Next(w, step), side) <==> ExactAt(w, side) && RoomyStep(w, step, side) && IntactStep(w, step, side)
  {
    hide SenderInv;
    hide Link;
    hide Arrived;
    hide Exact;
    hide Roomy;
    hide Quotes;
    var x, y, s := At(w, side), At(w, step.p.from), Arrived(w, step.p, step.addAck);
    assert InFlight(w, step.p);
    ArrivedFaithful(w, step.p, step.addAck);
    PairAt(w, side);
    PayloadDelivery(x, y, s, step.env);
  }

  lemma PayloadDelivery(x: Endpoint, y: Endpoint, s: Seg, env: Env)
    requires PairInv(x, y) && Placed(y, s) && |s.data| <= MAX_SEG_DATA_SIZE
    ensures Exact(y.sw, Receive(x, s, env).s.rw) <==>
      Exact(y.sw, x.rw)
      && (Passes(x.host, s) && Accepts(x.rw, s) ==> Roomy(x.rw.out, s.data, env) && Quotes(s, y.sw.input))
  {
    hide SenderInv;
    hide Link;
    hide Passes;
    hide Exact;
    hide Roomy;
    hide Quotes;
    hide Deliver;
    hide MakeControl;
    if Accepts(x.rw, s) {
      var i :| 0 <= i < |y.sw.first| && SamePlace(y.sw.first[i], s);
      FirstEnds(y.sw, i);
      AcceptExact(y.sw, x.rw, s, env);
    }
  }

  lemma FirstEnds(sw: Sender, i: nat)
    requires SenderInv(sw) && i < |sw.first|
    ensures End(sw.first[i]) <= 1 + |sw.input|
  {
    hide Queued;
    hide Contiguous;
    assert Quotes(sw.first[i], sw.input);
  }

  lemma {:induction false} RunDelivery(w: World, steps: seq<Step>, side: Side)
    requires WorldInv(w) && Legal(w, steps)
    ensures ExactAt(Final(w, steps), side) <==>
      ExactAt(w, side) && AllRoomy(w, steps, side) && AllIntact(w, steps, side)
    decreases |steps|
  {
    hide WorldInv;
    hide Enabled;
    hide Next;
    hide RoomyStep;
    hide IntactStep;
    hide ExactAt;
    if steps != [] {
      NextInv(w, steps[0]);
      StepDelivery(w, steps[0], side);
      RunDelivery(Next(w, steps[0]), steps[1..], side);
    }
  }

  /** Over a channel that loses, duplicates, delays, reorders and damages copies as it pleases: the bytes given to the
      application are exactly the first ackno - 1 bytes the peer read, if and only if every accepted payload found room
      and was what the peer read. */
  lemma ExactDelivery(a: Config, b: Config, clock: nat, steps: seq<Step>, side: Side)
    requires Addressed(a.view, b.view) && Legal(Start(a, b, clock), steps)
    ensures var w0 := Start(a, b, clock);
      var w := Final(w0, steps);
      var rw, sw := At(w, side).rw, At(w, Other(side)).sw;
      && 1 <= rw.ackno <= 1 + |sw.input|
      && (rw.out.delivered == sw.input[..rw.ackno - 1] <==> AllRoomy(w0, steps, side) && AllIntact(w0, steps, side))
  {
    hide WorldInv;
    StartInv(a, b, clock);
    RunInv(Start(a, b, clock), steps);
    StartExact(a, b, clock, side);
    RunDelivery(Start(a, b, clock), steps, side);
    LinkAt(Final(Start(a, b, clock), steps), side);
  }

  // ---------- Damage that goes unnoticed ----------

  /** A flipped payload bit that turns a copy failing the check into one that passes. */
  predicate Silent(w: World, step: Step)
  {
    && step.Damaging? && Flippable(step.p.seg, step.bit) && InPayload(step.bit)
    && !Passes(At(w, step.p.from).host, step.p.seg) && Passes(At(w, step.p.from).host, Flipped(w, step.p, step.bit).seg)
  }

  /** Exactly when that happens: a matter of the copy's words and of one bit, whatever the copy. For a retransmission,
      Wire.StampedCorruptionPassesIff reduces it to the checksum the copy was stamped over. */
  lemma SilentIff(w: World, p: Packet, bit: nat)
    requires Flippable(p.seg, bit)
    ensures var b := Encode(At(w, p.from).host, p.seg);
      Silent(w, Damaging(p, bit)) <==>
        InPayload(bit) && p.seg.cksum != 0 && (WordSum(b) + FlipDelta(b, bit)) % 0xffff == 0
  {
    hide Passes;
    hide Corrupted;
    hide Encode;
    hide WordSum;
    hide FlipDelta;
    var host := At(w, p.from).host;
    CorruptionPassesIff(host, p.seg, bit);
    CorruptionFields(host, p.seg, bit);
    if Passes(host, p.seg) { CorruptionDetected(host, p.seg, bit); }
  }

  predicate NoneSilent(w: World, steps: seq<Step>)
    requires Legal(w, steps)
    decreases |steps|
  {
    steps == [] || (!Silent(w, steps[0]) && NoneSilent(Next(w, steps[0]), steps[1..]))
  }

  /** What passes the check is genuine. */
  ghost predicate Honest(w: World)
  {
    forall p :: p in w.bag && Passes(At(w, p.from).host, p.seg) ==> Genuine(At(w, p.from), p.seg)
  }

  lemma StepHonest(w: World, step: Step)
    requires WorldInv(w) && Honest(w) && Enabled(w, step) && !Silent(w, step)
    ensures Honest(Next(w, step))
  {
    hide Passes;
    hide Genuine;
    hide PairInv;
    var w1 := Next(w, step);
    NextInv(w, step);
    forall p | p in w1.bag && Passes(At(w1, p.from).host, p.seg)
      ensures Genuine(At(w1, p.from), p.seg)
    {
      assert InFlight(w1, p);
      if p.damaged {
        if p in w.bag {
          GrowsKeepsGenuine(At(w, p.from), At(w1, p.from), p.seg);
        } else {
          NewDamage(w, step, p);
          assert InFlight(w, step.p);
          FlipHonest(At(w, step.p.from), step.p.seg, step.bit);
        }
      }
    }
  }

  lemma NewDamage(w: World, step: Step, p: Packet)
    requires Enabled(w, step) && p in Next(w, step).bag && p !in w.bag && p.damaged
    ensures step.Damaging? && p == Flipped(w, step.p, step.bit) && At(Next(w, step), p.from) == At(w, p.from)
  {
    hide Receive;
    hide Read;
    hide Timer;
    hide Corrupted;
    hide Arrived;
  }

  lemma FlipHonest(e: Endpoint, s: Seg, bit: nat)
    requires Genuine(e, s) && Flippable(s, bit) && Passes(e.host, Corrupted(e.host, s, bit))
    requires InPayload(bit) ==> Passes(e.host, s)
    ensures Genuine(e, Corrupted(e.host, s, bit))
  {
    hide Passes;
    hide Genuine;
    hide Corrupted;
    if Passes(e.host, s) {
      CorruptionDetected(e.host, s, bit);
      assert false;
    }
    CorruptionFields(e.host, s, bit);
    SameGenuine(e, s, Corrupted(e.host, s, bit));
  }

  lemma SameGenuine(e: Endpoint, s: Seg, t: Seg)
    requires Genuine(e, s) && SameBytes(s, t) && s.ackno == t.ackno
    ensures Genuine(e, t)
  {
    if s.data != [] {
      var i :| 0 <= i < |e.sw.first| && SameBytes(e.sw.first[i], s);
      assert SameBytes(e.sw.first[i], t);
    }
  }

  lemma {:induction false} RunHonest(w: World, steps: seq<Step>, side: Side)
    requires WorldInv(w) && Honest(w) && Legal(w, steps) && NoneSilent(w, steps)
    ensures Honest(Final(w, steps)) && AllIntact(w, steps, side)
    decreases |steps|
  {
    hide WorldInv;
    hide Enabled;
    hide Next;
    hide Silent;
    hide Honest;
    hide IntactStep;
    if steps != [] {
      NextInv(w, steps[0]);
      StepHonest(w, steps[0]);
      HonestIntact(w, steps[0], side);
      RunHonest(Next(w, steps[0]), steps[1..], side);
    }
  }

  lemma HonestIntact(w: World, step: Step, side: Side)
    requires WorldInv(w) && Honest(w) && Enabled(w, step)
    ensures IntactStep(w, step, side)
  {
    hide SenderInv;
    hide Link;
    hide Arrived;
    hide Passes;
    hide Genuine;
    hide Quotes;
    if step.Arriving? && Other(step.p.from) == side {
      var s, y := Arrived(w, step.p, step.addAck), At(w, step.p.from);
      ArrivedFaithful(w, step.p, step.addAck);
      PairAt(w, side);
      if Passes(At(w, side).host, s) && s.data != [] {
        SameGenuine(y, step.p.seg, s);
        GenuineQuotes(y, s);
      }
    }
  }

  /** Without silent damage every accepted payload is what the peer read, so room alone decides; and what passes the check
      in flight quotes its sender's input. */
  lemma DeliveryWithoutSilentDamage(a: Config, b: Config, clock: nat, steps: seq<Step>, side: Side)
    requires Addressed(a.view, b.view) && Legal(Start(a, b, clock), steps) && NoneSilent(Start(a, b, clock), steps)
    ensures var w0 := Start(a, b, clock);
      var w := Final(w0, steps);
      && (ExactAt(w, side) <==> AllRoomy(w0, steps, side))
      && Honest(w)
  {
    hide WorldInv;
    hide Exact;
    StartInv(a, b, clock);
    RunHonest(Start(a, b, clock), steps, side);
    RunDelivery(Start(a, b, clock), steps, side);
    StartExact(a, b, clock, side);
  }

  lemma StartExact(a: Config, b: Config, clock: nat, side: Side)
    ensures ExactAt(Start(a, b, clock), side)
  {
  }
}
