/** Two endpoints and a channel that keeps a bag of segments: the runs of the cTCP protocol. */
module Network {
  import opened Bytes
  import opened Wire
  import opened Protocol
  import opened ProtocolInvariant

  datatype Side = A | B

  function Other(side: Side): Side { if side == A then B else A }

  /** A copy in flight, as its sender's memory held it; conn_send has flipped a bit of it or not. */
  datatype Packet = Packet(from: Side, seg: Seg, damaged: bool)

  /** `viewA` is what A knows of the connection, `viewB` what B does. */
  datatype World = World(a: Endpoint, b: Endpoint, viewA: Peer, viewB: Peer, bag: multiset<Packet>, clock: nat)

  function At(w: World, side: Side): Endpoint { if side == A then w.a else w.b }

  function View(w: World, side: Side): Peer { if side == A then w.viewA else w.viewB }

  function Set(w: World, side: Side, e: Endpoint): World { if side == A then w.(a := e) else w.(b := e) }

  function Copies(from: Side, sent: seq<Seg>): seq<Packet>
  {
    seq(|sent|, i requires 0 <= i < |sent| => Packet(from, sent[i], false))
  }

  /** Event handlers run to completion; conn_send loses, duplicates, delays and damages copies as it pleases, at most one
      bit of each, and nothing orders the bag. */
  datatype Step =
    | Reading(side: Side, input: Input, pad: u16)
    | Arriving(p: Packet, addAck: bool, env: Env)
    | TimerFiring(side: Side)
    | Draining(side: Side, writeFails: bool)
    | Losing(p: Packet)
    | Duplicating(p: Packet)
    | Damaging(p: Packet, bit: nat)
    | Ticking(ms: nat)

  predicate Enabled(w: World, step: Step)
  {
    match step
    case Reading(side, input, pad) => At(w, side).status == Running && ReadFits(At(w, side).sw, input)
    case Arriving(p, _, env) => p in w.bag && |p.seg.data| <= MAX_WIRE_DATA
      && At(w, Other(p.from)).status == Running && env.now == w.clock
    case TimerFiring(side) => At(w, side).status == Running
    case Draining(side, _) => At(w, side).status == Running
    case Losing(p) => p in w.bag
    case Duplicating(p) => p in w.bag
    case Damaging(p, bit) => p in w.bag && !p.damaged && Flippable(p.seg, bit)
    case Ticking(_) => true
  }

  /** The segment that reaches the other side: translated to a datagram and back. */
  function Arrived(w: World, p: Packet, addAck: bool): Seg
    requires |p.seg.data| <= MAX_WIRE_DATA
  {
    Carried(At(w, p.from).host, View(w, p.from), At(w, Other(p.from)).host, View(w, Other(p.from)), p.seg, addAck)
  }

  function Flipped(w: World, p: Packet, bit: nat): Packet
    requires Flippable(p.seg, bit)
  {
    p.(seg := Corrupted(At(w, p.from).host, p.seg, bit), damaged := true)
  }

  function Acted(w: World, side: Side, r: Result<Endpoint>, bag: multiset<Packet>): World
  {
    Set(w, side, r.s).(bag := bag + multiset(Copies(side, r.sent)))
  }

  function Next(w: World, step: Step): World
    requires Enabled(w, step)
  {
    match step
    case Reading(side, input, pad) => Acted(w, side, Read(At(w, side), input, pad, w.clock), w.bag)
    case Arriving(p, addAck, env) =>
      Acted(w, Other(p.from), Receive(At(w, Other(p.from)), Arrived(w, p, addAck), env), w.bag - multiset{p})
    case TimerFiring(side) => Acted(w, side, Timer(At(w, side), w.clock), w.bag)
    case Draining(side, writeFails) => Set(w, side, Drained(At(w, side), writeFails))
    case Losing(p) => w.(bag := w.bag - multiset{p})
    case Duplicating(p) => w.(bag := w.bag + multiset{p})
    case Damaging(p, bit) =>
      w.(bag := w.bag - multiset{p} + multiset{Flipped(w, p, bit)})
    case Ticking(ms) => w.(clock := w.clock + ms)
  }

  // ---------- What two endpoints keep ----------

  /** A sequence number at which a transmitted segment ends. */
  ghost predicate Boundary(sw: Sender, n: int)
  {
    n == 1 || exists i :: 0 <= i < |sw.first| && End(sw.first[i]) == n
  }

  /** A sender and the receiver of its bytes. */
  ghost predicate Link(sw: Sender, rw: Receiver)
  {
    && Unacknowledged(sw) <= rw.ackno <= sw.seqno
    && Boundary(sw, rw.ackno)
    && |rw.out.delivered| <= rw.ackno - 1
  }

  predicate SamePlace(s: Seg, t: Seg) { s.seqno == t.seqno && |s.data| == |t.data| }

  /** `s` acknowledges nothing its sender has not accepted, and its payload, if any, lies where a transmitted one does. */
  ghost predicate Placed(e: Endpoint, s: Seg)
  {
    s.ackno <= e.rw.ackno && (s.data != [] ==> exists i :: 0 <= i < |e.sw.first| && SamePlace(e.sw.first[i], s))
  }

  /** ... and is that of the transmitted segment. */
  ghost predicate Genuine(e: Endpoint, s: Seg)
  {
    s.ackno <= e.rw.ackno && (s.data != [] ==> exists i :: 0 <= i < |e.sw.first| && SameBytes(e.sw.first[i], s))
  }

  lemma GenuineIsPlaced(e: Endpoint, s: Seg)
    requires Genuine(e, s)
    ensures Placed(e, s)
  {
    if s.data != [] {
      var i :| 0 <= i < |e.sw.first| && SameBytes(e.sw.first[i], s);
      assert SamePlace(e.sw.first[i], s);
    }
  }

  ghost predicate PairInv(x: Endpoint, y: Endpoint)
  {
    Inv(x) && Inv(y) && Link(x.sw, y.rw) && Link(y.sw, x.rw)
  }

  ghost predicate InFlight(w: World, p: Packet)
  {
    && |p.seg.data| <= MAX_SEG_DATA_SIZE && Placed(At(w, p.from), p.seg)
    && (!p.damaged ==> Genuine(At(w, p.from), p.seg))
  }

  ghost predicate WorldInv(w: World)
  {
    && PairInv(w.a, w.b) && Addressed(w.viewA, w.viewB)
    && forall p :: p in w.bag ==> InFlight(w, p)
  }

  // ---------- One endpoint acting ----------

  /** How an endpoint's own state may move: it transmits more, accepts more, and forgets nothing. */
  ghost predicate Grows(x: Endpoint, x1: Endpoint)
  {
    x1.host == x.host && x.sw.first <= x1.sw.first && x.sw.input <= x1.sw.input
    && x.sw.seqno <= x1.sw.seqno && x.rw.ackno <= x1.rw.ackno
  }

  lemma GrowsKeepsGenuine(x: Endpoint, x1: Endpoint, s: Seg)
    requires Grows(x, x1) && Genuine(x, s)
    ensures Genuine(x1, s)
  {
    if s.data != [] {
      var i :| 0 <= i < |x.sw.first| && SameBytes(x.sw.first[i], s);
      assert x1.sw.first[i] == x.sw.first[i];
    }
  }

  lemma GrowsKeepsPlaced(x: Endpoint, x1: Endpoint, s: Seg)
    requires Grows(x, x1) && Placed(x, s)
    ensures Placed(x1, s)
  {
    if s.data != [] {
      var i :| 0 <= i < |x.sw.first| && SamePlace(x.sw.first[i], s);
      assert x1.sw.first[i] == x.sw.first[i];
    }
  }

  lemma GrowsKeepsLink(x: Endpoint, x1: Endpoint, rw: Receiver)
    requires Grows(x, x1) && Link(x.sw, rw) && Unacknowledged(x1.sw) <= rw.ackno
    ensures Link(x1.sw, rw)
  {
    if rw.ackno != 1 {
      var i :| 0 <= i < |x.sw.first| && End(x.sw.first[i]) == rw.ackno;
      assert x1.sw.first[i] == x.sw.first[i];
    }
  }

  /** What any event at x must establish for the pair and for what is in flight. */
  ghost predicate Fine(x: Endpoint, y: Endpoint, r: Result<Endpoint>)
  {
    Grows(x, r.s) && PairInv(r.s, y) && forall s :: s in r.sent ==> Genuine(r.s, s) && |s.data| <= MAX_SEG_DATA_SIZE
  }

  lemma TransmittedGenuine(x: Endpoint, i: nat, s: Seg)
    requires Inv(x) && i < |x.sw.first| && SameBytes(x.sw.first[i], s) && s.ackno <= x.rw.ackno
    ensures Genuine(x, s) && |s.data| <= MAX_SEG_DATA_SIZE
  {
    assert Quotes(x.sw.first[i], x.sw.input);
  }

  lemma ReadFine(x: Endpoint, y: Endpoint, input: Input, pad: u16, now: nat)
    requires PairInv(x, y) && ReadFits(x.sw, input)
    ensures Fine(x, y, Read(x, input, pad, now))
  {
    hide Queued;
    hide AllQuote;
    hide Contiguous;
    if ReadSpace(x.sw) > 0 {
      var (flags, data) := if input.Data? then (TH_ACK, input.data) else (TH_FIN, []);
      var s := Transmitted(x.host, x.sw, x.rw.ackno, flags, data, pad);
      SendNewInv(x.host, x.sw, x.rw.ackno, flags, data, pad, now);
      var x1 := x.(sw := Extended(x.sw, s, now));
      assert Read(x, input, pad, now) == Result(x1, [s]);
      GrowsKeepsLink(x, x1, y.rw);
      TransmittedGenuine(x1, |x.sw.first|, s);
    }
  }

  /** Events that leave both windows alone and send nothing. */
  lemma IdleFine(x: Endpoint, y: Endpoint, x1: Endpoint)
    requires PairInv(x, y) && x1 == x.(status := x1.status)
    ensures Fine(x, y, Result(x1, []))
  {
  }

  lemma TimerFine(x: Endpoint, y: Endpoint, now: nat)
    requires PairInv(x, y)
    ensures Fine(x, y, Timer(x, now))
  {
    hide PairInv;
    hide Fine;
    var r := Timer(x, now);
    if TornDown(x, now) || !Expired(x, now) || x.sw.counter >= MAX_RETRANSMISSIONS {
      IdleFine(x, y, r.s);
    } else {
      RetransmitFine(x, y, now);
    }
  }

  lemma RetransmitFine(x: Endpoint, y: Endpoint, now: nat)
    requires PairInv(x, y) && Expired(x, now) && x.sw.counter < MAX_RETRANSMISSIONS
    ensures var r := Retransmit(x.host, x.sw.(counter := x.sw.counter + 1, timer := now), x.rw.ackno, now);
      Fine(x, y, Result(x.(sw := r.s), r.sent))
  {
    hide Numbered;
    hide Queued;
    var r := Retransmit(x.host, x.sw.(counter := x.sw.counter + 1, timer := now), x.rw.ackno, now);
    var x1 := x.(sw := r.s);
    RetransmitInv(x.host, x.sw, x.sw.counter + 1, x.rw.ackno, now);
    GrowsKeepsLink(x, x1, y.rw);
    TransmittedGenuine(x1, |x.sw.first| - |x.sw.queue|, r.sent[0]);
  }

  lemma DrainFine(x: Endpoint, y: Endpoint, writeFails: bool)
    requires PairInv(x, y)
    ensures Fine(x, y, Result(Drained(x, writeFails), []))
  {
  }

  // ---------- A segment arriving ----------

  /** Whether conn_output has room for the whole payload and takes it. */
  predicate Roomy(out: Output, data: seq<byte>, env: Env)
  {
    !out.eof && !out.err && !env.writeFails && |data| <= env.room
  }

  /** Accepting a payload that lies where a transmitted one does. */
  lemma AcceptLink(sw: Sender, rw: Receiver, i: nat, s: Seg, env: Env)
    requires SenderInv(sw) && Link(sw, rw)
    requires i < |sw.first| && SamePlace(sw.first[i], s) && s.seqno == rw.ackno && s.data != []
    ensures var rw1 := rw.(ackno := rw.ackno + |s.data|, out := Deliver(rw.out, s.data, env));
      Link(sw, rw1) && rw1.ackno < LIMIT
  {
    hide Queued;
    hide Contiguous;
    assert Quotes(sw.first[i], sw.input);
    ContiguousFrom(sw.first, 1, sw.seqno, i);
    assert End(sw.first[i]) == rw.ackno + |s.data|;
  }

  /** The application has been given exactly the bytes that have been acknowledged. */
  ghost predicate Exact(sw: Sender, rw: Receiver)
  {
    1 <= rw.ackno <= 1 + |sw.input| && rw.out.delivered == sw.input[..rw.ackno - 1]
  }

  /** After a payload is accepted the application has exactly the acknowledged bytes if and only if it had them before,
      this delivery found room, and the payload is what the sender read. */
  lemma AcceptExact(sw: Sender, rw: Receiver, s: Seg, env: Env)
    requires Link(sw, rw) && s.data != [] && s.seqno == rw.ackno && End(s) <= 1 + |sw.input|
    requires 1 <= rw.ackno && |s.data| <= MAX_SEG_DATA_SIZE
    ensures var rw1 := rw.(ackno := rw.ackno + |s.data|, out := Deliver(rw.out, s.data, env));
      Exact(sw, rw1) <==> Exact(sw, rw) && Roomy(rw.out, s.data, env) && Quotes(s, sw.input)
  {
    hide Boundary;
    if Roomy(rw.out, s.data, env) {
      assert s.data[..|s.data|] == s.data;
      Appended(rw.out.delivered, s.data, sw.input, rw.ackno - 1);
    }
  }

  lemma Appended(out: seq<byte>, data: seq<byte>, input: seq<byte>, had: nat)
    requires |out| <= had && had + |data| <= |input|
    ensures out + data == input[..had + |data|] <==> out == input[..had] && data == input[had..had + |data|]
  {
    assert input[..had + |data|] == input[..had] + input[had..had + |data|];
    if out + data == input[..had + |data|] {
      assert |out| == had;
      assert (out + data)[..had] == out && (out + data)[had..] == data;
    }
  }

  /** Every transmitted segment lies wholly below a boundary or starts at or above it. */
  lemma BoundaryNeverSplits(sw: Sender, n: int, i: nat)
    requires SenderInv(sw) && Boundary(sw, n) && i < |sw.first|
    ensures End(sw.first[i]) <= n || n <= sw.first[i].seqno
  {
    ContiguousFrom(sw.first, 1, sw.seqno, i);
    if n != 1 {
      var j :| 0 <= j < |sw.first| && End(sw.first[j]) == n;
      ContiguousFrom(sw.first, 1, sw.seqno, j);
    }
  }

  lemma WindowUpdate(x: Endpoint, y: Endpoint, window: u16)
    requires PairInv(x, y)
    ensures PairInv(x.(sw := x.sw.(recvWin := window)), y)
  {
    hide AllQuote;
    hide AllSame;
    hide Contiguous;
  }

  /** y's segment s reaches x, damaged or not. */
  lemma ReceiveFine(x: Endpoint, y: Endpoint, s: Seg, env: Env)
    requires PairInv(x, y) && Placed(y, s)
    ensures Fine(x, y, Receive(x, s, env))
  {
    if !Passes(x.host, s) {
      IdleFine(x, y, x);
    } else {
      var x1 := x.(sw := x.sw.(recvWin := s.window));
      WindowUpdate(x, y, s.window);
      if s.data != [] {
        ReceiveDataFine(x1, y, s, env);
      } else {
        ReceiveControlFine(x1, y, s, env);
      }
      FineBefore(x, x1, y, Receive(x, s, env));
    }
  }

  lemma FineBefore(x: Endpoint, x1: Endpoint, y: Endpoint, r: Result<Endpoint>)
    requires Fine(x1, y, r) && Grows(x, x1)
    ensures Fine(x, y, r)
  {
  }

  lemma ReceiveControlFine(x: Endpoint, y: Endpoint, s: Seg, env: Env)
    requires PairInv(x, y) && Placed(y, s)
    ensures Fine(x, y, ReceiveControl(x, s, env))
  {
    hide SenderInv;
    ControlInv(x, s, env);
    GrowsKeepsLink(x, ReceiveControl(x, s, env).s, y.rw);
  }

  lemma ReceiveDataFine(x: Endpoint, y: Endpoint, s: Seg, env: Env)
    requires PairInv(x, y) && Placed(y, s) && s.data != []
    ensures Fine(x, y, ReceiveData(x, s, env))
  {
    hide SenderInv;
    var r := ReceiveData(x, s, env);
    if Accepts(x.rw, s) {
      var i :| 0 <= i < |y.sw.first| && SamePlace(y.sw.first[i], s);
      AcceptLink(y.sw, x.rw, i, s, env);
      GrowsKeepsLink(x, r.s, y.rw);
    } else if r.sent == [] {
      IdleFine(x, y, r.s);
    }
  }

  predicate Accepts(rw: Receiver, s: Seg)
  {
    s.data != [] && s.seqno == rw.ackno && |s.data| <= rw.maxSize
  }

  // ---------- Every step, every run ----------

  lemma PairAt(w: World, side: Side)
    ensures PairInv(At(w, side), At(w, Other(side))) <==> PairInv(w.a, w.b)
  {
  }

  /** Nobody unsends, unreads or unaccepts. */
  ghost predicate WorldGrows(w: World, w1: World) { Grows(w.a, w1.a) && Grows(w.b, w1.b) }

  lemma ActedInv(w: World, side: Side, r: Result<Endpoint>, bag: multiset<Packet>)
    requires WorldInv(w) && Fine(At(w, side), At(w, Other(side)), r) && bag <= w.bag
    ensures WorldInv(Acted(w, side, r, bag)) && WorldGrows(w, Acted(w, side, r, bag))
  {
    var w1 := Acted(w, side, r, bag);
    PairAt(w1, side);
    forall p | p in w1.bag
      ensures InFlight(w1, p)
    {
      if p in bag {
        assert InFlight(w, p);
        if p.from == side {
          GrowsKeepsPlaced(At(w, side), r.s, p.seg);
          if !p.damaged { GrowsKeepsGenuine(At(w, side), r.s, p.seg); }
        }
      } else {
        assert p in Copies(side, r.sent);
        GenuineIsPlaced(r.s, p.seg);
      }
    }
  }

  lemma ArrivedFaithful(w: World, p: Packet, addAck: bool)
    requires WorldInv(w) && p in w.bag
    ensures var s := Arrived(w, p, addAck); var to := Other(p.from);
      && (Passes(At(w, to).host, s) <==> Passes(At(w, p.from).host, p.seg))
      && Placed(At(w, p.from), s)
      && s.data == p.seg.data && s.seqno == p.seg.seqno && s.ackno == p.seg.ackno
  {
    assert InFlight(w, p);
    RoundTrip(At(w, p.from).host, View(w, p.from), At(w, Other(p.from)).host, View(w, Other(p.from)), p.seg, addAck);
  }

  lemma NextInv(w: World, step: Step)
    requires WorldInv(w) && Enabled(w, step)
    ensures WorldInv(Next(w, step)) && WorldGrows(w, Next(w, step))
  {
    hide Enabled;
    hide Next;
    hide WorldInv;
    hide WorldGrows;
    match step
    case Reading(side, input, pad) => ReadingInv(w, side, input, pad);
    case Arriving(p, addAck, env) => ArrivingInv(w, p, addAck, env);
    case TimerFiring(side) => TimerFiringInv(w, side);
    case Draining(side, writeFails) => DrainingInv(w, side, writeFails);
    case Losing(_) => ChannelInv(w, step);
    case Duplicating(_) => ChannelInv(w, step);
    case Damaging(p, bit) => DamagingInv(w, p, bit);
    case Ticking(_) => ChannelInv(w, step);
  }

  lemma ChannelInv(w: World, step: Step)
    requires WorldInv(w) && Enabled(w, step) && (step.Losing? || step.Duplicating? || step.Ticking?)
    ensures WorldInv(Next(w, step)) && WorldGrows(w, Next(w, step))
  {
    hide WorldInv;
    SubBagInv(w, Next(w, step).bag, Next(w, step).clock);
  }

  lemma SubBagInv(w: World, bag: multiset<Packet>, clock: nat)
    requires WorldInv(w) && forall p :: p in bag ==> p in w.bag
    ensures WorldInv(w.(bag := bag, clock := clock))
  {
    hide PairInv;
    hide Placed;
    hide Genuine;
    forall p | p in bag
      ensures InFlight(w.(bag := bag, clock := clock), p)
    {
      assert InFlight(w, p);
    }
  }

  lemma ReadingInv(w: World, side: Side, input: Input, pad: u16)
    requires WorldInv(w) && Enabled(w, Reading(side, input, pad))
    ensures WorldInv(Next(w, Reading(side, input, pad))) && WorldGrows(w, Next(w, Reading(side, input, pad)))
  {
    PairAt(w, side);
    ReadFine(At(w, side), At(w, Other(side)), input, pad, w.clock);
    ActedInv(w, side, Read(At(w, side), input, pad, w.clock), w.bag);
  }

  lemma TimerFiringInv(w: World, side: Side)
    requires WorldInv(w) && Enabled(w, TimerFiring(side))
    ensures WorldInv(Next(w, TimerFiring(side))) && WorldGrows(w, Next(w, TimerFiring(side)))
  {
    PairAt(w, side);
    TimerFine(At(w, side), At(w, Other(side)), w.clock);
    ActedInv(w, side, Timer(At(w, side), w.clock), w.bag);
  }

  lemma DrainingInv(w: World, side: Side, writeFails: bool)
    requires WorldInv(w) && Enabled(w, Draining(side, writeFails))
    ensures WorldInv(Next(w, Draining(side, writeFails))) && WorldGrows(w, Next(w, Draining(side, writeFails)))
  {
    PairAt(w, side);
    var r := Result(Drained(At(w, side), writeFails), []);
    DrainFine(At(w, side), At(w, Other(side)), writeFails);
    ActedInv(w, side, r, w.bag);
    assert w.bag + multiset(Copies(side, r.sent)) == w.bag;
  }

  lemma ArrivingInv(w: World, p: Packet, addAck: bool, env: Env)
    requires WorldInv(w) && Enabled(w, Arriving(p, addAck, env))
    ensures WorldInv(Next(w, Arriving(p, addAck, env))) && WorldGrows(w, Next(w, Arriving(p, addAck, env)))
  {
    var to := Other(p.from);
    assert InFlight(w, p);
    ArrivedFaithful(w, p, addAck);
    PairAt(w, to);
    ReceiveFine(At(w, to), At(w, p.from), Arrived(w, p, addAck), env);
    ActedInv(w, to, Receive(At(w, to), Arrived(w, p, addAck), env), w.bag - multiset{p});
  }

  lemma DamagingInv(w: World, p: Packet, bit: nat)
    requires WorldInv(w) && Enabled(w, Damaging(p, bit))
    ensures WorldInv(Next(w, Damaging(p, bit))) && WorldGrows(w, Next(w, Damaging(p, bit)))
  {
    hide PairInv;
    hide Genuine;
    hide Corrupted;
    var w1 := Next(w, Damaging(p, bit));
    CorruptionFields(At(w, p.from).host, p.seg, bit);
    assert InFlight(w, p);
    StillPlaced(At(w, p.from), p.seg, Flipped(w, p, bit).seg);
    forall t | t in w1.bag
      ensures InFlight(w1, t)
    {
      if t != Flipped(w, p, bit) { assert InFlight(w, t); }
    }
  }

  lemma StillPlaced(e: Endpoint, s: Seg, t: Seg)
    requires Placed(e, s) && SamePlace(s, t) && s.ackno == t.ackno
    ensures Placed(e, t)
  {
    if s.data != [] {
      var i :| 0 <= i < |e.sw.first| && SamePlace(e.sw.first[i], s);
      assert SamePlace(e.sw.first[i], t);
    }
  }
}
