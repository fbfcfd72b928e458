/** When ctcp_receive runs off the end of an empty receive list, and runs in which it does. */
module Crashes {
  import opened Bytes
  import opened Wire
  import opened Protocol
  import opened ProtocolInvariant
  import opened Network
  import opened Runs

  /** A payload from beyond what the receiver expects, in a segment that passes the check and fits the window. */
  predicate Overtaking(x: Endpoint, s: Seg)
  {
    Passes(x.host, s) && s.data != [] && s.seqno > x.rw.ackno && |s.data| <= x.rw.maxSize
  }

  /** ctcp_receive dereferences null exactly on such a segment. */
  lemma ReceiveCrashesIff(x: Endpoint, s: Seg, env: Env)
    requires x.status == Running
    ensures Receive(x, s, env).s.status == Crashed <==> Overtaking(x, s)
    ensures Receive(x, s, env).s.status != Destroyed
  {
    hide Passes;
    hide MakeControl;
    hide AnswerFin;
    hide Acknowledge;
  }

  predicate CrashStep(w: World, step: Step, side: Side)
    requires Enabled(w, step)
  {
    step.Arriving? && Other(step.p.from) == side && Overtaking(At(w, side), Arrived(w, step.p, step.addAck))
  }

  lemma StepCrashesIff(w: World, step: Step, side: Side)
    requires Enabled(w, step)
    ensures At(Next(w, step), side).status == Crashed <==> At(w, side).status == Crashed || CrashStep(w, step, side)
  {
    hide Receive;
    hide Arrived;
    hide Overtaking;
    hide SendNew;
    hide Retransmit;
    hide Corrupted;
    if step.Arriving? && Other(step.p.from) == side {
      ReceiveCrashesIff(At(w, side), Arrived(w, step.p, step.addAck), step.env);
    }
  }

  predicate SomeCrashStep(w: World, steps: seq<Step>, side: Side)
    requires Legal(w, steps)
    decreases |steps|
  {
    steps != [] && (CrashStep(w, steps[0], side) || SomeCrashStep(Next(w, steps[0]), steps[1..], side))
  }

  /** Over every run: a side has crashed if and only if such a segment reached it. */
  lemma {:induction false} RunCrashesIff(w: World, steps: seq<Step>, side: Side)
    requires Legal(w, steps)
    ensures At(Final(w, steps), side).status == Crashed <==>
      At(w, side).status == Crashed || SomeCrashStep(w, steps, side)
    decreases |steps|
  {
    hide Enabled;
    hide Next;
    hide CrashStep;
    if steps != [] {
      StepCrashesIff(w, steps[0], side);
      RunCrashesIff(Next(w, steps[0]), steps[1..], side);
    }
  }

  /** A payload from beyond the receiver's ackno is not at the head of its sender's queue, but in it. */
  lemma OvertakingNeedsTwo(x: Endpoint, y: Endpoint, s: Seg)
    requires PairInv(x, y) && Placed(y, s) && Overtaking(x, s)
    ensures |y.sw.queue| >= 2
  {
    hide AllQuote;
    hide Passes;
    hide Boundary;
    var i :| 0 <= i < |y.sw.first| && SamePlace(y.sw.first[i], s);
    var k := |y.sw.first| - |y.sw.queue|;
    ContiguousFrom(y.sw.first, 1, y.sw.seqno, k);
    HeadIsFirst(y.sw);
  }

  lemma HeadIsFirst(sw: Sender)
    requires SenderInv(sw) && sw.queue != []
    ensures sw.first[|sw.first| - |sw.queue|].seqno == sw.queue[0].seqno
  {
    assert SameBytes(sw.queue[0], Last(sw.first, |sw.queue|)[0]);
  }

  predicate OneOutstanding(w: World, steps: seq<Step>, side: Side)
    requires Legal(w, steps)
    decreases |steps|
  {
    |At(w, side).sw.queue| <= 1 && (steps != [] ==> OneOutstanding(Next(w, steps[0]), steps[1..], side))
  }

  /** A sender that never has more than one segment outstanding never crashes its receiver. */
  lemma {:induction false} OneOutstandingIsSafe(w: World, steps: seq<Step>, side: Side)
    requires WorldInv(w) && Legal(w, steps) && At(w, side).status != Crashed && OneOutstanding(w, steps, Other(side))
    ensures At(Final(w, steps), side).status != Crashed
    decreases |steps|
  {
    hide WorldInv;
    hide Enabled;
    hide Next;
    hide CrashStep;
    if steps != [] {
      NextInv(w, steps[0]);
      StepCrashesIff(w, steps[0], side);
      if CrashStep(w, steps[0], side) { CrashStepNeedsTwo(w, steps[0], side); }
      OneOutstandingIsSafe(Next(w, steps[0]), steps[1..], side);
    }
  }

  lemma CrashStepNeedsTwo(w: World, step: Step, side: Side)
    requires WorldInv(w) && Enabled(w, step) && CrashStep(w, step, side)
    ensures |At(w, Other(side)).sw.queue| >= 2
  {
    hide PairInv;
    hide Placed;
    hide Arrived;
    hide Overtaking;
    ArrivedFaithful(w, step.p, step.addAck);
    PairAt(w, side);
    OvertakingNeedsTwo(At(w, side), At(w, step.p.from), Arrived(w, step.p, step.addAck));
  }
}
