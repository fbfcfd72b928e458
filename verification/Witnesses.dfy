/** Runs that show the failing sides of the theorems can be reached: a crash, a lost tail, damage that goes unnoticed. */
module Witnesses {
  import opened Bytes
  import opened Wire
  import opened Protocol
  import opened ProtocolInvariant
  import opened Network
  import opened Runs
  import opened Crashes
  import Retry

  /** The segment in which A, reading `data`, transmits it. */
  function Sent(w: World, data: seq<byte>): Seg { Transmitted(w.a.host, w.a.sw, w.a.rw.ackno, TH_ACK, data, 0) }

  /** One byte read at A is one copy in flight more, undamaged and passing. */
  lemma ReadOne(w: World, x: byte)
    requires WorldInv(w) && w.a.status == Running && ReadSpace(w.a.sw) >= 1 && w.a.sw.seqno + 1 < LIMIT
    ensures var step, s := Reading(A, Data([x]), 0), Sent(w, [x]);
      && Enabled(w, step)
      && Next(w, step) == w.(a := w.a.(sw := Extended(w.a.sw, s, w.clock)), bag := w.bag + multiset{Packet(A, s, false)})
      && Passes(w.a.host, s) && s.seqno == w.a.sw.seqno && s.data == [x]
  {
    hide SenderInv;
    hide Link;
    hide Passes;
    hide Transmitted;
    hide SendNew;
    hide Extended;
    var s := Sent(w, [x]);
    SenderParts(w.a.sw);
    SendNewIsOneTransmission(w.a.host, w.a.sw, w.a.rw.ackno, TH_ACK, [x], 0, w.clock);
    TransmittedFields(w.a.host, w.a.sw, w.a.rw.ackno, TH_ACK, [x], 0);
    Retry.TransmittedPasses(w.a.host, w.a.sw, w.a.rw.ackno, TH_ACK, [x], 0);
    assert Copies(A, [s]) == [Packet(A, s, false)];
    assert multiset(Copies(A, [s])) == multiset{Packet(A, s, false)};
  }

  lemma SenderParts(sw: Sender)
    requires SenderInv(sw)
    ensures Queued(sw) && 1 <= sw.seqno < LIMIT
  {
  }

  const ENV := Env(0, 0, 0, 0, false)

  /** A reads two bytes, one after the other, and the second overtakes the first: B dereferences null. */
  lemma OvertakingCrashes(a: Config, b: Config, x: byte, y: byte)
    requires Addressed(a.view, b.view) && a.sendWindow >= 2 && b.recvWindow >= 1
    ensures var w := Start(a, b, 0);
      var w1 := Next(w, Reading(A, Data([x]), 0));
      var steps := [Reading(A, Data([x]), 0), Reading(A, Data([y]), 0), Arriving(Packet(A, Sent(w1, [y]), false), false, ENV)];
      Enabled(w, steps[0]) && Legal(w, steps) && Final(w, steps).b.status == Crashed
  {
    hide Passes;
    hide Transmitted;
    hide WorldInv;
    hide Enabled;
    hide Next;
    var w := Start(a, b, 0);
    var r1, r2 := Reading(A, Data([x]), 0), Reading(A, Data([y]), 0);
    StartInv(a, b, 0);
    ReadOne(w, x);
    var w1 := Next(w, r1);
    NextInv(w, r1);
    ReadOne(w1, y);
    var w2, p := Next(w1, r2), Packet(A, Sent(w1, [y]), false);
    NextInv(w1, r2);
    var step := Arriving(p, false, ENV);
    SecondOvertakes(w2, p);
    Nothing(Next(w2, step), B);
    Cons(w2, step, [], B);
    Cons(w1, r2, [step], B);
    Cons(w, r1, [r2, step], B);
    assert [r1] + ([r2] + ([step] + [])) == [r1, r2, step];
  }

  lemma SecondOvertakes(w: World, p: Packet)
    requires WorldInv(w) && p in w.bag && p.from == A && Passes(w.a.host, p.seg) && |p.seg.data| == 1 && p.seg.seqno == 2
    requires w.b.status == Running && w.b.rw.ackno == 1 && w.b.rw.maxSize >= 1 && w.clock == 0
    ensures Enabled(w, Arriving(p, false, ENV)) && Next(w, Arriving(p, false, ENV)).b.status == Crashed
  {
    hide Passes;
    hide Arrived;
    hide Receive;
    ArrivedFaithful(w, p, false);
    ReceiveCrashesIff(w.b, Arrived(w, p, false), ENV);
  }

  /** A run with one step put in front. */
  lemma Cons(w: World, step: Step, rest: seq<Step>, side: Side)
    requires Enabled(w, step) && Legal(Next(w, step), rest)
    ensures var w1, run := Next(w, step), [step] + rest;
      && Legal(w, run) && Final(w, run) == Final(w1, rest)
      && (AllRoomy(w, run, side) <==> RoomyStep(w, step, side) && AllRoomy(w1, rest, side))
      && (AllIntact(w, run, side) <==> IntactStep(w, step, side) && AllIntact(w1, rest, side))
      && (NoneSilent(w, run) <==> !Silent(w, step) && NoneSilent(w1, rest))
  {
    hide Enabled;
    hide Next;
    hide RoomyStep;
    hide IntactStep;
    hide Silent;
    assert ([step] + rest)[1..] == rest;
  }

  lemma Nothing(w: World, side: Side)
    ensures Legal(w, []) && Final(w, []) == w && AllRoomy(w, [], side) && AllIntact(w, [], side) && NoneSilent(w, [])
  {
  }

  /** A reads a byte and B accepts and acknowledges it while its output queue has no room: the byte is lost for good. */
  lemma NoRoomLoses(a: Config, b: Config, x: byte)
    requires Addressed(a.view, b.view) && a.sendWindow >= 1 && b.recvWindow >= 1
    ensures var w := Start(a, b, 0);
      var steps := [Reading(A, Data([x]), 0), Arriving(Packet(A, Sent(w, [x]), false), false, ENV)];
      && Enabled(w, steps[0]) && Legal(w, steps) && !AllRoomy(w, steps, B) && AllIntact(w, steps, B)
      && Final(w, steps).b.rw.ackno == 2 && Final(w, steps).b.rw.out.delivered == []
  {
    hide Passes;
    hide Transmitted;
    hide WorldInv;
    hide Enabled;
    hide Next;
    hide RoomyStep;
    hide IntactStep;
    var w := Start(a, b, 0);
    var r := Reading(A, Data([x]), 0);
    StartInv(a, b, 0);
    ReadOne(w, x);
    var w1, p := Next(w, r), Packet(A, Sent(w, [x]), false);
    NextInv(w, r);
    var step := Arriving(p, false, ENV);
    FullQueueLoses(w1, p);
    ReadIntact(w, r);
    Nothing(Next(w1, step), B);
    Cons(w1, step, [], B);
    Cons(w, r, [step], B);
    assert [r] + ([step] + []) == [r, step];
  }

  lemma ReadIntact(w: World, r: Step)
    requires Enabled(w, r) && r.Reading?
    ensures IntactStep(w, r, B)
  {
  }

  lemma FullQueueLoses(w: World, p: Packet)
    requires WorldInv(w) && p in w.bag && p.from == A && Passes(w.a.host, p.seg) && |p.seg.data| == 1 && p.seg.seqno == 1
    requires !p.damaged && w.clock == 0
    requires w.b.status == Running && w.b.rw.ackno == 1 && w.b.rw.maxSize >= 1 && w.b.rw.out == Output([], false, false)
    ensures var step := Arriving(p, false, ENV);
      && Enabled(w, step) && !RoomyStep(w, step, B) && IntactStep(w, step, B)
      && Next(w, step).b.rw.ackno == 2 && Next(w, step).b.rw.out.delivered == []
  {
    hide Passes;
    hide Arrived;
    hide WorldInv;
    hide Quotes;
    hide MakeControl;
    ArrivedFaithful(w, p, false);
    UndamagedQuotes(w, p);
  }

  lemma UndamagedQuotes(w: World, p: Packet)
    requires WorldInv(w) && p in w.bag && p.from == A && !p.damaged && p.seg.data != [] && |p.seg.data| <= MAX_WIRE_DATA
    ensures Quotes(Arrived(w, p, false), w.a.sw.input)
  {
    hide Arrived;
    hide WorldInv;
    ArrivedFaithful(w, p, false);
    PacketTruthful(w, p);
  }

  const VIEW := Peer(0, 0, 0, 0, 0, 0)
  const BIG := Config(BigEndian, 1440, 1440, 200, VIEW)

  /** A's first retransmission of two bytes fails the check; a flipped bit of it makes it pass, and B's application is given
      two bytes that A never read. */
  lemma SilentDamageIsDelivered()
    ensures var w := Start(BIG, BIG, 0);
      var env := Env(201, 0, 0, 2, false);
      var damaged := Packet(A, Corrupted(BigEndian, Retry.RESENT, 168), true);
      var steps := [Reading(A, Data(Retry.WORD), 0), Ticking(201), TimerFiring(A), Damaging(Packet(A, Retry.RESENT, false), 168),
                    Arriving(damaged, false, env)];
      && Legal(w, steps) && !NoneSilent(w, steps) && AllRoomy(w, steps, B) && !AllIntact(w, steps, B)
      && Final(w, steps).a.sw.input == Retry.WORD && Final(w, steps).b.rw.out.delivered == Retry.FLIPPED.data != Retry.WORD
  {
    hide Enabled;
    hide Next;
    hide RoomyStep;
    hide IntactStep;
    hide Silent;
    hide Corrupted;
    var damaged := Packet(A, Corrupted(BigEndian, Retry.RESENT, 168), true);
    var s1, s2, s3 := Reading(A, Data(Retry.WORD), 0), Ticking(201), TimerFiring(A);
    var s4 := Damaging(Packet(A, Retry.RESENT, false), 168);
    var s5 := Arriving(damaged, false, Env(201, 0, 0, 2, false));
    var w := Start(BIG, BIG, 0);
    var w3 := RetransmittedWord(s1, s2, s3);
    DamagedWord(w3, s4);
    var w4 := Next(w3, s4);
    DamagedWordArrives(w3, s4, s5);
    Nothing(Next(w4, s5), B);
    Cons(w4, s5, [], B);
    Cons(w3, s4, [s5], B);
    Cons(Next(Next(w, s1), s2), s3, [s4, s5], B);
    Cons(Next(w, s1), s2, [s3, s4, s5], B);
    Cons(w, s1, [s2, s3, s4, s5], B);
    assert [s1] + ([s2] + ([s3] + ([s4] + ([s5] + [])))) == [s1, s2, s3, s4, s5];
  }

  /** The word is read, a timeout passes, the word is retransmitted. */
  lemma RetransmittedWord(s1: Step, s2: Step, s3: Step) returns (w3: World)
    requires s1 == Reading(A, Data(Retry.WORD), 0) && s2 == Ticking(201) && s3 == TimerFiring(A)
    ensures var w := Start(BIG, BIG, 0);
      && Enabled(w, s1) && Enabled(Next(w, s1), s2) && Enabled(Next(Next(w, s1), s2), s3)
      && w3 == Next(Next(Next(w, s1), s2), s3)
      && Packet(A, Retry.RESENT, false) in w3.bag && w3.clock == 201 && w3.b == Start(BIG, BIG, 0).b
      && w3.a.sw.input == Retry.WORD && w3.a.host == BigEndian && w3.viewA == w3.viewB == VIEW
      && RoomyStep(w, s1, B) && RoomyStep(Next(w, s1), s2, B) && RoomyStep(Next(Next(w, s1), s2), s3, B)
  {
    hide Stamp;
    hide Passes;
    hide Corrupted;
    var w := Start(BIG, BIG, 0);
    Retry.RetransmissionCounterexample();
    SendNewIsOneTransmission(BigEndian, w.a.sw, 1, TH_ACK, Retry.WORD, 0, 0);
    var w2 := Next(Next(w, s1), s2);
    w3 := Next(w2, s3);
    assert Copies(A, [Retry.RESENT])[0] == Packet(A, Retry.RESENT, false);
  }

  /** The flip makes it pass. */
  lemma DamagedWord(w3: World, s4: Step)
    requires s4 == Damaging(Packet(A, Retry.RESENT, false), 168)
    requires s4.p in w3.bag && w3.a.host == BigEndian
    ensures Enabled(w3, s4) && Silent(w3, s4) && RoomyStep(w3, s4, B)
    ensures Next(w3, s4).bag[Packet(A, Corrupted(BigEndian, Retry.RESENT, 168), true)] > 0
  {
    hide Passes;
    hide Corrupted;
    Retry.RetransmissionCounterexample();
  }

  lemma DamagedWordArrives(w3: World, s4: Step, s5: Step)
    requires s4 == Damaging(Packet(A, Retry.RESENT, false), 168) && Enabled(w3, s4)
    requires var damaged := Packet(A, Corrupted(BigEndian, Retry.RESENT, 168), true);
      s5 == Arriving(damaged, false, Env(201, 0, 0, 2, false)) && damaged in Next(w3, s4).bag
    requires w3.clock == 201 && w3.b == Start(BIG, BIG, 0).b && w3.a.sw.input == Retry.WORD && w3.a.host == BigEndian
    requires w3.viewA == w3.viewB == VIEW
    ensures var w4 := Next(w3, s4);
      && Enabled(w4, s5) && RoomyStep(w4, s5, B) && !IntactStep(w4, s5, B)
      && Next(w4, s5).a.sw.input == Retry.WORD
      && Next(w4, s5).b.rw.out.delivered == Retry.FLIPPED.data != Retry.WORD
  {
    hide Passes;
    hide Corrupted;
    hide Carried;
    hide Receive;
    hide Quotes;
    Retry.RetransmissionCounterexample();
    Retry.OneFlipPasses();
    var s := Carried(BigEndian, VIEW, BigEndian, VIEW, Retry.FLIPPED, false);
    RoundTrip(BigEndian, VIEW, BigEndian, VIEW, Retry.FLIPPED, false);
    FreshTakes(s, s5.env);
    assert !Quotes(s, Retry.WORD) by { NotQuoted(s); }
  }

  lemma NotQuoted(s: Seg)
    requires s.seqno == 1 && s.data == Retry.FLIPPED.data
    ensures !Quotes(s, Retry.WORD)
  {
    assert Retry.WORD[0..2] == Retry.WORD && Retry.WORD[1] == 0x36 && s.data[1] == 0x37;
  }

  lemma FreshTakes(s: Seg, env: Env)
    requires Passes(BigEndian, s) && s.seqno == 1 && |s.data| == 2 && env.room == 2 && !env.writeFails
    ensures Receive(Start(BIG, BIG, 0).b, s, env).s.rw.out.delivered == s.data
  {
    hide Passes;
    hide MakeControl;
    assert s.data[..2] == s.data;
  }
}
