/** What ctcp_send and ctcp_retrans put on the wire, and how often: checksums of first transmissions and of
    retransmissions, and the bound on retries. */
module Retry {
  import opened Bytes
  import opened Checksum
  import opened Wire
  import opened Protocol
  import opened ProtocolInvariant
  import opened Spacing

  // ---------- First transmissions ----------

  lemma ControlPasses(host: Host, sw: Sender, ackno: int, flags: u32, pad: u16)
    ensures Passes(host, MakeControl(host, sw, ackno, flags, pad))
  {
    StampPassesIff(host, MakeSeg(sw, ackno, flags, [], pad), ToU32(ackno));
  }

  lemma TransmittedPasses(host: Host, sw: Sender, ackno: int, flags: u32, data: seq<byte>, pad: u16)
    ensures Passes(host, Transmitted(host, sw, ackno, flags, data, pad))
  {
    StampPassesIff(host, MakeSeg(sw, ackno, flags, data, pad), ToU32(ackno));
  }

  /** Everything sent on reading input or on receiving a segment carries a checksum that passes. */
  lemma FirstTransmissionsPass(e: Endpoint, input: Input, s: Seg, env: Env)
    requires Inv(e)
    ensures forall t :: t in Read(e, input, env.pad, env.now).sent ==> Passes(e.host, t)
    ensures forall t :: t in Receive(e, s, env).sent ==> Passes(e.host, t)
  {
    ReadPasses(e, input, env);
    if s.data != [] {
      DataReplyPasses(e.(sw := e.sw.(recvWin := s.window)), s, env);
    } else {
      ControlReplyPasses(e.(sw := e.sw.(recvWin := s.window)), s, env);
    }
  }

  lemma ReadPasses(e: Endpoint, input: Input, env: Env)
    requires Inv(e)
    ensures forall t :: t in Read(e, input, env.pad, env.now).sent ==> Passes(e.host, t)
  {
    hide Numbered;
    var (flags, data) := if input.Data? then (TH_ACK, input.data) else (TH_FIN, []);
    SendNewIsOneTransmission(e.host, e.sw, e.rw.ackno, flags, data, env.pad, env.now);
    hide Passes;
    hide Queued;
    TransmittedPasses(e.host, e.sw, e.rw.ackno, flags, data, env.pad);
  }

  lemma DataReplyPasses(e: Endpoint, s: Seg, env: Env)
    ensures forall t :: t in ReceiveData(e, s, env).sent ==> Passes(e.host, t)
  {
    hide Passes;
    hide MakeControl;
    ControlPasses(e.host, e.sw, e.rw.ackno, TH_ACK, env.pad);
    ControlPasses(e.host, e.sw, e.rw.ackno + |s.data|, TH_ACK, env.pad);
  }

  lemma ControlReplyPasses(e: Endpoint, s: Seg, env: Env)
    requires Inv(e)
    ensures forall t :: t in ReceiveControl(e, s, env).sent ==> Passes(e.host, t)
  {
    hide Passes;
    hide MakeControl;
    hide Transmitted;
    hide SenderInv;
    var r1 := AnswerFin(e, s.flags, env);
    AnswerFinInv(e, s.flags, env);
    AcknowledgeInv(e.host, r1.s, s.ackno, e.rw.ackno, env.now);
    AnswerFinPasses(e, s.flags, env);
  }

  lemma AnswerFinPasses(e: Endpoint, flags: u32, env: Env)
    requires SenderInv(e.sw)
    ensures forall t :: t in AnswerFin(e, flags, env).sent ==> Passes(e.host, t)
  {
    hide Numbered;
    SendNewIsOneTransmission(e.host, e.sw, e.rw.ackno, TH_FIN, [], env.finPad, env.now);
    hide Passes;
    hide MakeControl;
    hide Queued;
    TransmittedPasses(e.host, e.sw, e.rw.ackno, TH_FIN, [], env.finPad);
    ControlPasses(e.host, e.sw, e.rw.ackno, FinAckFlags(e.host), env.pad);
  }

  // ---------- Retransmissions ----------

  predicate Retransmits(e: Endpoint, now: int) { Timer(e, now).sent != [] }

  lemma TimerCases(e: Endpoint, now: nat)
    requires Inv(e)
    ensures Retransmits(e, now) <==> !TornDown(e, now) && Expired(e, now) && e.sw.counter < MAX_RETRANSMISSIONS
    ensures Timer(e, now).s.status != e.status ==>
      Timer(e, now).s.status == Destroyed && !Retransmits(e, now)
    ensures e.status == Running ==>
      (Timer(e, now).s.status == Destroyed
       <==> TornDown(e, now) || (Expired(e, now) && e.sw.counter == MAX_RETRANSMISSIONS))
    ensures Retransmits(e, now) ==>
      && e.sw.queue != []
      && Timer(e, now) == Result(e.(sw := e.sw.(queue := e.sw.queue[0 := Stamp(e.host, e.sw.queue[0], ToU32(e.rw.ackno))],
                                                counter := e.sw.counter + 1, timer := now)),
                                 [Stamp(e.host, e.sw.queue[0], ToU32(e.rw.ackno))])
    ensures !Retransmits(e, now) ==> Timer(e, now).s == e.(status := Timer(e, now).s.status)
  {
    hide Numbered;
    hide Queued;
    hide Stamp;
  }

  /** ctcp_retrans does not zero the field it recomputes: a retransmitted copy passes the receiver's check if and only
      if the head of the queue was last sent with 0xffff in it. */
  lemma RetransmissionPassesIff(e: Endpoint, now: nat)
    requires Inv(e) && Retransmits(e, now)
    ensures var s := Timer(e, now).sent[0];
      && SameBytes(s, e.sw.queue[0])
      && (Passes(e.host, s) <==> e.sw.queue[0].cksum == 0xffff)
  {
    TimerCases(e, now);
    assert e.sw.queue[0].cksum != 0;
    StampPassesIff(e.host, e.sw.queue[0], ToU32(e.rw.ackno));
  }

  /** Exactly when one flipped payload bit of a retransmission goes unnoticed: a matter of the checksum that the head of the
      queue was last sent with. */
  lemma DamagedRetransmissionPassesIff(e: Endpoint, now: nat, bit: nat)
    requires Inv(e) && Retransmits(e, now)
    requires var s := Timer(e, now).sent[0]; Flippable(s, bit) && InPayload(bit)
    ensures var head, s := e.sw.queue[0], Timer(e, now).sent[0];
      s.data == head.data
      && (Passes(e.host, Corrupted(e.host, s, bit)) <==>
            head.cksum == (if IsSet(head.data, bit - 8 * HEADER) then 0xffff - Weight(bit) else Weight(bit)))
  {
    hide Passes;
    hide Corrupted;
    hide Stamp;
    hide Weight;
    hide Timer;
    TimerCases(e, now);
    StampBytes(e.host, e.sw.queue[0], ToU32(e.rw.ackno));
    StampedCorruptionPassesIff(e.host, e.sw.queue[0], ToU32(e.rw.ackno), bit);
  }

  lemma StampBytes(host: Host, s: Seg, ackno: u32)
    ensures SameBytes(Stamp(host, s, ackno), s)
  {
  }

  // ---------- Bounded retry ----------

  datatype Event = Reading(input: Input, pad: u16, now: nat) | Arriving(s: Seg, env: Env) | Firing(now: nat)

  function Apply(e: Endpoint, ev: Event): Result<Endpoint>
  {
    match ev
    case Reading(input, pad, now) => Read(e, input, pad, now)
    case Arriving(s, env) => Receive(e, s, env)
    case Firing(now) => Timer(e, now)
  }

  /** No ctcp_send: nothing is read, no FIN has to be answered with one, and no acknowledgement lets the window slide. */
  predicate Quiet(e: Endpoint, ev: Event)
  {
    match ev
    case Reading(_, _, _) => ReadSpace(e.sw) <= 0
    case Arriving(s, _) =>
      ReceiveFits(e.rw, s)
      && (Passes(e.host, s) && s.data == [] ==>
            && !(HasFin(s.flags) && e.teardown == -1)
            && !((HasAck(s.flags) || s.flags == 0) && Acceptable(e.sw, s.ackno)))
    case Firing(_) => true
  }

  predicate QuietRun(e: Endpoint, evs: seq<Event>)
    decreases |evs|
  {
    evs == [] || (e.status == Running && Quiet(e, evs[0]) && QuietRun(Apply(e, evs[0]).s, evs[1..]))
  }

  function After(e: Endpoint, evs: seq<Event>): Endpoint
    decreases |evs|
  {
    if evs == [] then e else After(Apply(e, evs[0]).s, evs[1..])
  }

  /** When an event retransmits, if it does, and the copies it sends then. */
  function RetryOf(e: Endpoint, ev: Event): seq<int>
  {
    if ev.Firing? && Retransmits(e, ev.now) then [ev.now] else []
  }

  function CopiesOf(e: Endpoint, ev: Event): seq<Seg>
  {
    if ev.Firing? && Retransmits(e, ev.now) then Timer(e, ev.now).sent else []
  }

  function Retries(e: Endpoint, evs: seq<Event>): seq<int>
    decreases |evs|
  {
    if evs == [] then [] else RetryOf(e, evs[0]) + Retries(Apply(e, evs[0]).s, evs[1..])
  }

  function Resent(e: Endpoint, evs: seq<Event>): seq<Seg>
    decreases |evs|
  {
    if evs == [] then [] else CopiesOf(e, evs[0]) + Resent(Apply(e, evs[0]).s, evs[1..])
  }

  lemma QuietKeepsTheHead(e: Endpoint, ev: Event)
    requires Inv(e) && Quiet(e, ev) && !ev.Firing?
    ensures var e1 := Apply(e, ev).s;
      && e1.sw == e.sw.(recvWin := e1.sw.recvWin) && e1.timeout == e.timeout && e1.host == e.host
      && (e1.status == Destroyed ==> e.status == Destroyed)
  {
    hide SenderInv;
    hide Stamp;
    hide Passes;
  }

  lemma EventInv(e: Endpoint, ev: Event)
    requires Inv(e) && Quiet(e, ev)
    ensures Inv(Apply(e, ev).s)
  {
    hide SenderInv;
    match ev
    case Reading(_, _, _) =>
    case Arriving(s, env) => ReceiveInv(e, s, env);
    case Firing(now) => TimerInv(e, now);
  }

  /** The head of the queue, header fields aside, is the same in both. */
  predicate SameHead(sw: Sender, sw1: Sender)
  {
    if sw.queue == [] then sw1.queue == [] else sw1.queue != [] && SameBytes(sw1.queue[0], sw.queue[0])
  }

  ghost predicate AllCopies(copies: seq<Seg>, sw: Sender)
  {
    forall i :: 0 <= i < |copies| ==> sw.queue != [] && SameBytes(copies[i], sw.queue[0])
  }

  /** What a quiet stretch from e to f comes to, with the head retransmitted at the times t as the copies c. */
  ghost predicate Stretch(e: Endpoint, f: Endpoint, t: seq<int>, c: seq<Seg>)
  {
    && Spaced(t, e.sw.timer, e.timeout) && f.sw.timer == LastOf(t, e.sw.timer) && f.timeout == e.timeout
    && f.sw.counter == e.sw.counter + |t| <= MAX_RETRANSMISSIONS
    && SameHead(e.sw, f.sw) && AllCopies(c, e.sw) && |c| == |t|
    && (f.teardown == -1 ==> e.teardown == -1)
    && (f.status == Destroyed ==> f.teardown != -1 || f.sw.counter == MAX_RETRANSMISSIONS)
  }

  /** While nothing is sent anew and nothing acknowledged, whatever else happens: the head of the queue stays and it alone is
      retransmitted, at most 5 - retrans_counter times, always more than a timeout after the time before; the counter
      counts the times and the timer shows the last; and a connection that died did so after all five, unless its
      teardown timer was running. */
  lemma {:induction false} BoundedRetry(e: Endpoint, evs: seq<Event>)
    requires Inv(e) && e.status != Destroyed && QuietRun(e, evs)
    ensures Inv(After(e, evs)) && Stretch(e, After(e, evs), Retries(e, evs), Resent(e, evs))
    decreases |evs|
  {
    hide Inv;
    hide Quiet;
    hide Apply;
    hide RetryOf;
    hide CopiesOf;
    hide Stretch;
    if evs == [] {
      EmptyStretch(e);
    } else {
      var e1, rest := Apply(e, evs[0]).s, evs[1..];
      EventInv(e, evs[0]);
      OneEvent(e, evs[0]);
      if rest == [] {
        assert Retries(e1, rest) == [] && Resent(e1, rest) == [] && After(e1, rest) == e1;
        assert Retries(e, evs) == RetryOf(e, evs[0]) && Resent(e, evs) == CopiesOf(e, evs[0]);
      } else {
        BoundedRetry(e1, rest);
        Joined(e, e1, After(e1, rest), RetryOf(e, evs[0]), Retries(e1, rest), CopiesOf(e, evs[0]), Resent(e1, rest));
      }
    }
  }

  lemma EmptyStretch(e: Endpoint)
    requires Inv(e) && e.status != Destroyed
    ensures Stretch(e, e, [], [])
  {
    hide Numbered;
    hide Queued;
  }

  /** Stretches can be put end to end. */
  lemma Joined(e: Endpoint, e1: Endpoint, f: Endpoint, t: seq<int>, u: seq<int>, c: seq<Seg>, d: seq<Seg>)
    requires Stretch(e, e1, t, c) && Stretch(e1, f, u, d)
    ensures Stretch(e, f, t + u, c + d)
  {
    hide Spaced;
    hide LastOf;
    hide AllCopies;
    SpacedConcat(t, u, e.sw.timer, e.timeout);
    CopiesConcat(c, d, e.sw, e1.sw);
  }

  lemma CopiesConcat(c: seq<Seg>, d: seq<Seg>, sw: Sender, sw1: Sender)
    requires AllCopies(c, sw) && AllCopies(d, sw1) && SameHead(sw, sw1)
    ensures AllCopies(c + d, sw)
  {
    forall i | 0 <= i < |c + d|
      ensures sw.queue != [] && SameBytes((c + d)[i], sw.queue[0])
    {
      if i < |c| {
        assert SameBytes(c[i], sw.queue[0]);
      } else {
        assert SameBytes(d[i - |c|], sw1.queue[0]);
      }
    }
  }

  lemma OneEvent(e: Endpoint, ev: Event)
    requires Inv(e) && Quiet(e, ev) && e.status == Running
    ensures Stretch(e, Apply(e, ev).s, RetryOf(e, ev), CopiesOf(e, ev))
  {
    hide Numbered;
    hide Queued;
    if ev.Firing? {
      TimerCases(e, ev.now);
      RetryStretch(e, ev.now);
    } else {
      QuietKeepsTheHead(e, ev);
    }
  }

  lemma RetryStretch(e: Endpoint, now: nat)
    requires Inv(e) && e.status == Running
    ensures Stretch(e, Timer(e, now).s, RetryOf(e, Firing(now)), CopiesOf(e, Firing(now)))
  {
    hide Inv;
    hide Timer;
    hide Stamp;
    TimerCases(e, now);
    TimedInv(e);
    if Retransmits(e, now) {
      var head := e.sw.queue[0];
      StampBytes(e.host, head, ToU32(e.rw.ackno));
      assert Spaced([now], e.sw.timer, e.timeout) by { assert [now][1..] == []; }
      assert Timer(e, now).s.sw.queue[0] == Stamp(e.host, head, ToU32(e.rw.ackno));
    }
  }

  lemma TimedInv(e: Endpoint)
    requires Inv(e)
    ensures e.sw.counter <= MAX_RETRANSMISSIONS
  {
    hide Numbered;
    hide Queued;
  }

  function Firings(evs: seq<Event>): nat
  {
    if evs == [] then 0 else (if evs[0].Firing? then 1 else 0) + Firings(evs[1..])
  }

  /** Every time the timer fires it is overdue. */
  predicate Overdue(evs: seq<Event>, since: int, gap: int)
    decreases |evs|
  {
    evs != [] ==>
      if evs[0].Firing? then evs[0].now - since > gap && Overdue(evs[1..], evs[0].now, gap) else Overdue(evs[1..], since, gap)
  }

  /** In a quiet stretch in which each firing comes more than a timeout after the one before, each of the next firings
      retransmits the head, up to five in all. */
  lemma {:induction false} RetriedAtEveryFiring(e: Endpoint, evs: seq<Event>)
    requires Inv(e) && e.sw.queue != [] && e.status != Destroyed && QuietRun(e, evs) && Overdue(evs, e.sw.timer, e.timeout)
    requires After(e, evs).teardown == -1 && e.sw.counter + Firings(evs) <= MAX_RETRANSMISSIONS
    ensures |Retries(e, evs)| == Firings(evs) && After(e, evs).status != Destroyed
    decreases |evs|
  {
    hide Inv;
    hide Quiet;
    hide Apply;
    hide RetryOf;
    if evs != [] {
      var e1, rest := Apply(e, evs[0]).s, evs[1..];
      EventInv(e, evs[0]);
      TeardownAfter(e, evs);
      OneFiring(e, evs[0]);
      RetriedAtEveryFiring(e1, rest);
    }
  }

  lemma TeardownAfter(e: Endpoint, evs: seq<Event>)
    requires Inv(e) && e.status != Destroyed && evs != [] && QuietRun(e, evs) && After(e, evs).teardown == -1
    ensures e.teardown == -1 && Apply(e, evs[0]).s.teardown == -1
  {
    hide Inv;
    hide Quiet;
    hide Apply;
    hide Retries;
    hide Resent;
    var e1, rest := Apply(e, evs[0]).s, evs[1..];
    EventInv(e, evs[0]);
    OneEvent(e, evs[0]);
    if rest != [] {
      BoundedRetry(e1, rest);
    } else {
      assert After(e1, rest) == e1;
    }
  }

  lemma OneFiring(e: Endpoint, ev: Event)
    requires Inv(e) && e.sw.queue != [] && e.status == Running && Quiet(e, ev) && e.teardown == -1
    requires ev.Firing? ==> e.sw.counter < MAX_RETRANSMISSIONS && ev.now - e.sw.timer > e.timeout
    ensures var e1 := Apply(e, ev).s;
      && e1.status != Destroyed && e1.sw.queue != [] && e1.timeout == e.timeout
      && RetryOf(e, ev) == (if ev.Firing? then [ev.now] else [])
      && e1.sw.counter == e.sw.counter + (if ev.Firing? then 1 else 0)
      && e1.sw.timer == (if ev.Firing? then ev.now else e.sw.timer)
  {
    hide Numbered;
    hide Queued;
    if ev.Firing? {
      TimerCases(e, ev.now);
    } else {
      QuietKeepsTheHead(e, ev);
    }
  }

  /** After ctcp_send, in a quiet stretch whose firings are more than a timeout apart: up to five firings retransmit the
      head, and the next destroys the connection, sending nothing, if and only if all five have been. */
  lemma SixthTimeoutDestroys(e: Endpoint, evs: seq<Event>, now: nat)
    requires Inv(e) && e.sw.queue != [] && e.sw.counter == 0 && e.status != Destroyed
    requires QuietRun(e, evs) && Overdue(evs, e.sw.timer, e.timeout) && Firings(evs) <= 5
    requires var f := After(e, evs);
      f.teardown == -1 && f.status == Running && now - f.sw.timer > f.timeout
    ensures |Resent(e, evs)| == Firings(evs) && AllCopies(Resent(e, evs), e.sw)
    ensures var f := After(e, evs);
      && (Timer(f, now).s.status == Destroyed <==> Firings(evs) == 5)
      && (Firings(evs) == 5 ==> Timer(f, now) == Result(f.(status := Destroyed), []))
      && (Firings(evs) < 5 ==> |Timer(f, now).sent| == 1 && AllCopies(Timer(f, now).sent, e.sw))
  {
    hide Quiet;
    hide Apply;
    hide Retries;
    hide Resent;
    hide Timer;
    hide Numbered;
    hide Queued;
    RetriedAtEveryFiring(e, evs);
    BoundedRetry(e, evs);
    TimerCases(After(e, evs), now);
  }

  // ---------- A retransmission that fails the check, and a damaged one that passes ----------

  const FRESH := Init(BigEndian, 1440, 1440, 200)

  const WORD: seq<byte> := [0xfa, 0x36]

  lemma WordSumOfSix(a: seq<byte>, b: seq<byte>, c: seq<byte>, d: seq<byte>, e: seq<byte>, f: seq<byte>)
    requires |a| % 2 == 0 && |b| % 2 == 0 && |c| % 2 == 0 && |d| % 2 == 0 && |e| % 2 == 0
    ensures WordSum(a + b + c + d + e + f)
      == WordSum(a) + WordSum(b) + WordSum(c) + WordSum(d) + WordSum(e) + WordSum(f)
  {
    hide WordSum;
    WordSumConcat(a + b + c + d + e, f);
    WordSumConcat(a + b + c + d, e);
    WordSumConcat(a + b + c, d);
    WordSumConcat(a + b, c);
    WordSumConcat(a, b);
  }

  lemma WordSumFront(s: Seg)
    requires |s.data| <= MAX_SEG_DATA_SIZE && s.seqno < 0x1_0000 && s.ackno < 0x1_0000 && s.flags < 0x1_0000
    ensures WordSum(Front(BigEndian, s)) == s.seqno + s.ackno + HEADER + |s.data| + s.pad + s.flags + s.window
  {
    hide WordSum;
    hide BE16;
    hide BE32;
    WordSumOfSix(BE32(s.seqno), BE32(s.ackno), BE16(HEADER + |s.data|), BE16(s.pad), BE32(s.flags), BE16(s.window));
    WordSum32(s.seqno);
    WordSum32(s.ackno);
    WordSum32(s.flags);
    WordSum16(HEADER + |s.data|);
    WordSum16(s.pad);
    WordSum16(s.window);
  }

  lemma WordSumEncode(s: Seg)
    requires |s.data| <= MAX_SEG_DATA_SIZE && s.seqno < 0x1_0000 && s.ackno < 0x1_0000 && s.flags < 0x1_0000
    ensures WordSum(Encode(BigEndian, s))
      == s.seqno + s.ackno + HEADER + |s.data| + s.pad + s.flags + s.window + s.cksum + WordSum(s.data)
  {
    hide WordSum;
    hide BE16;
    hide Front;
    WordSumFront(s);
    WordSum16(s.cksum);
    WordSumConcat(Front(BigEndian, s), BE16(s.cksum));
    WordSumConcat(Front(BigEndian, s) + BE16(s.cksum), s.data);
  }

  /** The two-byte segment as ctcp_send transmits it, and as ctcp_retrans sends it the first time. */
  const SENT := Seg(1, 1, 0, TH_ACK, 1440, 1, WORD)

  const RESENT := SENT.(cksum := 0xffff)

  lemma Stamps()
    ensures Stamp(BigEndian, SENT.(cksum := 0), 1) == SENT && Stamp(BigEndian, SENT, 1) == RESENT
    ensures Passes(BigEndian, SENT) && !Passes(BigEndian, RESENT)
  {
    assert WORD[2..] == [];
    assert WordSum(WORD) == 0xfa36;
    WordSumEncode(SENT.(cksum := 0));
    StampPassesIff(BigEndian, SENT.(cksum := 0), 1);
    RestampAlternates(BigEndian, SENT);
  }

  const FLIPPED := RESENT.(data := [0xfa, 0x37])

  lemma FlippedPasses()
    ensures Passes(BigEndian, FLIPPED)
  {
    assert FLIPPED.data[2..] == [];
    assert WordSum(FLIPPED.data) == 0xfa37;
    WordSumEncode(FLIPPED);
    hide WordSum;
    hide Encode;
    hide Cksum;
    PassesIsVerify(BigEndian, FLIPPED);
    EncodeCksum(BigEndian, FLIPPED, 0);
    VerifyIff(Encode(BigEndian, FLIPPED));
  }

  lemma OneFlipPasses()
    ensures Corrupted(BigEndian, RESENT, 168) == FLIPPED
  {
    hide Encode;
    hide FlipBit;
    hide Decode;
    FlipLastByte();
    DecodeEncode(BigEndian, FLIPPED);
  }

  lemma FlipLastByte()
    ensures FlipBit(Encode(BigEndian, RESENT), 168) == Encode(BigEndian, FLIPPED)
  {
    var b := Encode(BigEndian, RESENT);
    var c := Encode(BigEndian, FLIPPED);
    assert Toggle(0x36, 0) == 0x37;
    assert b[21] == 0x36 && c == b[21 := 0x37];
  }

  /** Not every retransmission passes the check: this sender's first one fails, unchanged. And flipping one bit of that
      copy makes it pass with another payload; DamagedRetransmissionPassesIff says exactly when that can happen. */
  lemma RetransmissionCounterexample()
    ensures var e := Read(FRESH, Data(WORD), 0, 0).s;
      && Timer(e, 201).sent == [RESENT] && !Passes(BigEndian, RESENT)
      && Passes(BigEndian, Corrupted(BigEndian, RESENT, 168)) && Corrupted(BigEndian, RESENT, 168).data != WORD
  {
    hide Stamp;
    hide Passes;
    hide Corrupted;
    Stamps();
    OneFlipPasses();
    FlippedPasses();
    SendNewIsOneTransmission(BigEndian, FRESH.sw, 1, TH_ACK, WORD, 0, 0);
    var e := Read(FRESH, Data(WORD), 0, 0).s;
    assert MakeSeg(FRESH.sw, 1, TH_ACK, WORD, 0) == SENT.(cksum := 0);
    assert e.sw.queue == [SENT];
  }
}
