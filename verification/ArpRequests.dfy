/** The router's list of unanswered ARP requests (sr_arpcache.c) as a value, and what holds of every run over it. */
module ArpRequests {
  import opened Bytes
  import opened Spacing

  datatype Option<T> = None | Some(value: T)

  datatype Frame = Frame(buf: seq<byte>, iface: string)
  datatype Pending = Pending(ip: u32, sent: int, times: nat, packets: seq<Frame>)

  /** What the router does for an address: ask for it, or deal with one packet that waits for it. */
  datatype Action =
    | Ask(ip: u32, at: int)
    | Unreachable(ip: u32, packet: Frame)
    | Forward(ip: u32, packet: Frame)

  const MAX_ASKS := 5

  ghost predicate Distinct(q: seq<Pending>) { forall i, j :: 0 <= i < j < |q| ==> q[i].ip != q[j].ip }

  ghost predicate Bounded(q: seq<Pending>) { forall i :: 0 <= i < |q| ==> q[i].times <= MAX_ASKS }

  ghost predicate Inv(q: seq<Pending>) { Distinct(q) && Bounded(q) }

  /** The place of the request for ip, |q| if there is none. */
  function Find(q: seq<Pending>, ip: u32): (k: nat)
    ensures k <= |q| && (k < |q| ==> q[k].ip == ip)
    ensures forall i :: 0 <= i < k ==> q[i].ip != ip
  {
    if q == [] || q[0].ip == ip then 0 else 1 + Find(q[1..], ip)
  }

  predicate IsPending(q: seq<Pending>, ip: u32) { Find(q, ip) < |q| }

  /** The request for ip; with none, the one that queueing would start from. */
  function Of(q: seq<Pending>, ip: u32): Pending
  {
    if IsPending(q, ip) then q[Find(q, ip)] else Pending(ip, 0, 0, [])
  }

  /** A packet that is absent or empty is not kept. */
  function Kept(packet: Option<Frame>): seq<Frame>
  {
    if packet.Some? && packet.value.buf != [] then [packet.value] else []
  }

  function WithPacket(r: Pending, packet: Option<Frame>): Pending { r.(packets := Kept(packet) + r.packets) }

  /** sr_arpcache_queuereq. */
  function Queued(q: seq<Pending>, ip: u32, packet: Option<Frame>): seq<Pending>
  {
    var r := WithPacket(Of(q, ip), packet);
    if IsPending(q, ip) then q[Find(q, ip) := r] else [r] + q
  }

  function RemovedAt(q: seq<Pending>, k: nat): seq<Pending>
  {
    if k < |q| then q[..k] + q[k + 1..] else q
  }

  /** The queue after sr_arpcache_insert, and after sr_arpreq_destroy of the request for ip. */
  function Without(q: seq<Pending>, ip: u32): seq<Pending> { RemovedAt(q, Find(q, ip)) }

  function Forwards(ip: u32, packets: seq<Frame>): seq<Action>
  {
    if packets == [] then [] else [Forward(ip, packets[0])] + Forwards(ip, packets[1..])
  }

  function Unreachables(ip: u32, packets: seq<Frame>): seq<Action>
  {
    if packets == [] then [] else [Unreachable(ip, packets[0])] + Unreachables(ip, packets[1..])
  }

  function Visited(r: Pending, now: int, cached: set<u32>): seq<Pending>
  {
    if now - r.sent < 1 then [r]
    else if r.times >= MAX_ASKS || r.ip in cached then []
    else [r.(times := r.times + 1, sent := now)]
  }

  function VisitActions(r: Pending, now: int, cached: set<u32>): seq<Action>
  {
    if now - r.sent < 1 then []
    else if r.times >= MAX_ASKS then Unreachables(r.ip, r.packets)
    else if r.ip in cached then Forwards(r.ip, r.packets)
    else [Ask(r.ip, now)]
  }

  /** sr_arpcache_sweepreqs over the first n requests; the clock is read once for each. */
  function Swept(q: seq<Pending>, n: nat, clock: nat -> int, cached: set<u32>): seq<Pending>
    requires n <= |q|
  {
    if n == 0 then [] else Swept(q, n - 1, clock, cached) + Visited(q[n - 1], clock(n - 1), cached)
  }

  function SweepActions(q: seq<Pending>, n: nat, clock: nat -> int, cached: set<u32>): seq<Action>
    requires n <= |q|
  {
    if n == 0 then [] else SweepActions(q, n - 1, clock, cached) + VisitActions(q[n - 1], clock(n - 1), cached)
  }

  // The invariant

  lemma FindFacts(q: seq<Pending>, ip: u32)
    ensures Find(q, ip) < |q| <==> IsPending(q, ip)
    ensures IsPending(q, ip) ==> Of(q, ip) == q[Find(q, ip)] && Of(q, ip).ip == ip
    ensures forall i :: 0 <= i < |q| && i < Find(q, ip) ==> q[i].ip != ip
  {
  }

  lemma FindIs(q: seq<Pending>, k: nat)
    requires Distinct(q) && k < |q|
    ensures Find(q, q[k].ip) == k
  {
  }

  lemma QueuedInv(q: seq<Pending>, ip: u32, packet: Option<Frame>)
    requires Inv(q)
    ensures Inv(Queued(q, ip, packet)) && IsPending(Queued(q, ip, packet), ip)
    ensures Of(Queued(q, ip, packet), ip) == WithPacket(Of(q, ip), packet)
    ensures forall other :: other != ip ==> Of(Queued(q, ip, packet), other) == Of(q, other)
    ensures forall other :: other != ip ==> (IsPending(Queued(q, ip, packet), other) <==> IsPending(q, other))
  {
    var s := Queued(q, ip, packet);
    FindIs(s, if IsPending(q, ip) then Find(q, ip) else 0);
    forall other | other != ip
      ensures Of(s, other) == Of(q, other) && (IsPending(s, other) <==> IsPending(q, other))
    {
      if IsPending(q, other) {
        var k := Find(q, other) + if IsPending(q, ip) then 0 else 1;
        assert s[k] == q[Find(q, other)];
        FindIs(s, k);
      }
    }
  }

  lemma RemovedInv(q: seq<Pending>, k: nat)
    requires Inv(q)
    ensures Inv(RemovedAt(q, k))
    ensures k < |q| ==>
      && |RemovedAt(q, k)| == |q| - 1
      && forall i :: 0 <= i < |q| - 1 ==> RemovedAt(q, k)[i] == q[if i < k then i else i + 1]
  {
    hide RemovedAt;
    if k < |q| {
      RemovedIndex(q, k);
    } else {
      RemovedNothing(q, k);
    }
  }

  lemma RemovedIndex(q: seq<Pending>, k: nat)
    requires k < |q|
    ensures |RemovedAt(q, k)| == |q| - 1
    ensures forall i :: 0 <= i < |q| - 1 ==> RemovedAt(q, k)[i] == q[if i < k then i else i + 1]
  {
    forall i | 0 <= i < |q| - 1
      ensures RemovedAt(q, k)[i] == q[if i < k then i else i + 1]
    {
    }
  }

  lemma RemovedNothing(q: seq<Pending>, k: nat)
    requires k >= |q|
    ensures RemovedAt(q, k) == q
  {
  }

  lemma WithoutInv(q: seq<Pending>, ip: u32)
    requires Inv(q)
    ensures Inv(Without(q, ip)) && !IsPending(Without(q, ip), ip)
    ensures forall other :: other != ip ==> Of(Without(q, ip), other) == Of(q, other)
    ensures forall other :: other != ip ==> (IsPending(Without(q, ip), other) <==> IsPending(q, other))
  {
    hide RemovedAt;
    var s, k := Without(q, ip), Find(q, ip);
    RemovedInv(q, k);
    if k == |q| { RemovedNothing(q, k); }
    forall other | other != ip
      ensures Of(s, other) == Of(q, other) && (IsPending(s, other) <==> IsPending(q, other))
    {
      if IsPending(q, other) {
        var i := Find(q, other);
        FindIs(s, if k < i then i - 1 else i);
      }
    }
  }

  /** A sweep keeps requests in order, each for an address it had before. */
  lemma {:induction false} SweptFrom(q: seq<Pending>, n: nat, clock: nat -> int, cached: set<u32>, i: nat) returns (k: nat)
    requires n <= |q| && Inv(q) && i < |Swept(q, n, clock, cached)|
    ensures k < n && Visited(q[k], clock(k), cached) == [Swept(q, n, clock, cached)[i]]
  {
    if i < |Swept(q, n - 1, clock, cached)| {
      k := SweptFrom(q, n - 1, clock, cached, i);
    } else {
      k := n - 1;
    }
  }

  lemma {:induction false} SweptInv(q: seq<Pending>, n: nat, clock: nat -> int, cached: set<u32>)
    requires n <= |q| && Inv(q)
    ensures Inv(Swept(q, n, clock, cached))
  {
    if n > 0 {
      SweptInv(q, n - 1, clock, cached);
      var s := Swept(q, n - 1, clock, cached);
      forall i | 0 <= i < |s|
        ensures s[i].ip != q[n - 1].ip
      {
        var k := SweptFrom(q, n - 1, clock, cached, i);
        assert Visited(q[k], clock(k), cached) == [s[i]];
      }
    }
  }

  /** A sweep treats the request for ip by itself alone, with the reading of its place. */
  lemma {:induction false} SweptOf(q: seq<Pending>, n: nat, clock: nat -> int, cached: set<u32>, ip: u32)
    requires n <= |q| && Inv(q)
    ensures
      var s, k := Swept(q, n, clock, cached), Find(q, ip);
      if k < n then
        && (IsPending(s, ip) <==> Visited(q[k], clock(k), cached) != [])
        && (IsPending(s, ip) ==> [Of(s, ip)] == Visited(q[k], clock(k), cached))
      else !IsPending(s, ip)
  {
    var s, k := Swept(q, n, clock, cached), Find(q, ip);
    SweptInv(q, n, clock, cached);
    if IsPending(s, ip) {
      var j := SweptFrom(q, n, clock, cached, Find(s, ip));
      assert [s[Find(s, ip)]] == Visited(q[j], clock(j), cached);
      FindIs(q, j);
    } else if k < n && Visited(q[k], clock(k), cached) != [] {
      SweptHas(q, n, clock, cached, k);
    }
  }

  lemma {:induction false} SweptHas(q: seq<Pending>, n: nat, clock: nat -> int, cached: set<u32>, k: nat)
    requires k < n <= |q| && Visited(q[k], clock(k), cached) != []
    ensures IsPending(Swept(q, n, clock, cached), q[k].ip)
  {
    hide Visited;
    hide IsPending;
    var before, last := Swept(q, n - 1, clock, cached), Visited(q[n - 1], clock(n - 1), cached);
    if k < n - 1 {
      SweptHas(q, n - 1, clock, cached, k);
    } else {
      VisitedIp(q[k], clock(k), cached);
    }
    PendingInConcat(before, last, q[k].ip);
  }

  lemma VisitedIp(r: Pending, now: int, cached: set<u32>)
    ensures Visited(r, now, cached) != [] ==> IsPending(Visited(r, now, cached), r.ip)
  {
  }

  lemma PendingInConcat(a: seq<Pending>, b: seq<Pending>, ip: u32)
    ensures IsPending(a, ip) || IsPending(b, ip) ==> IsPending(a + b, ip)
  {
    if IsPending(a, ip) {
      assert (a + b)[Find(a, ip)].ip == ip;
    } else if IsPending(b, ip) {
      assert (a + b)[|a| + Find(b, ip)].ip == ip;
    }
  }

  // Runs

  datatype Event =
    | Queue(ip: u32, packet: Option<Frame>)
    | Reply(ip: u32)
    | Sweep(clock: nat -> int, cached: set<u32>)

  /** Reply is what sr_arpcache.h lays down for an ARP reply: sr_arpcache_insert, and its caller forwards the packets. The
      router itself never calls it; its own sr_arpcacheinsert fills the cache alone, and the next sweep forwards. */
  function Next(q: seq<Pending>, e: Event): seq<Pending>
  {
    match e
    case Queue(ip, packet) => Queued(q, ip, packet)
    case Reply(ip) => Without(q, ip)
    case Sweep(clock, cached) => Swept(q, |q|, clock, cached)
  }

  function Actions(q: seq<Pending>, e: Event): seq<Action>
  {
    match e
    case Queue(_, _) => []
    case Reply(ip) => Forwards(ip, Of(q, ip).packets)
    case Sweep(clock, cached) => SweepActions(q, |q|, clock, cached)
  }

  function Run(q: seq<Pending>, es: seq<Event>): seq<Pending>
    decreases |es|
  {
    if es == [] then q else Run(Next(q, es[0]), es[1..])
  }

  function Log(q: seq<Pending>, es: seq<Event>): seq<Action>
    decreases |es|
  {
    if es == [] then [] else Actions(q, es[0]) + Log(Next(q, es[0]), es[1..])
  }

  lemma NextInv(q: seq<Pending>, e: Event)
    requires Inv(q)
    ensures Inv(Next(q, e))
  {
    match e
    case Queue(ip, packet) => QueuedInv(q, ip, packet);
    case Reply(ip) => WithoutInv(q, ip);
    case Sweep(clock, cached) => SweptInv(q, |q|, clock, cached);
  }

  /** Over every run: one request for an address, asked for at most five times. */
  lemma {:induction false} RunInv(q: seq<Pending>, es: seq<Event>)
    requires Inv(q)
    ensures Inv(Run(q, es))
    decreases |es|
  {
    if es != [] {
      NextInv(q, es[0]);
      RunInv(Next(q, es[0]), es[1..]);
    }
  }

  /** The part of a log that concerns ip. */
  function For(ip: u32, log: seq<Action>): seq<Action>
  {
    if log == [] then []
    else (if log[0].ip == ip then [log[0]] else []) + For(ip, log[1..])
  }

  lemma {:induction false} ForConcat(ip: u32, a: seq<Action>, b: seq<Action>)
    ensures For(ip, a + b) == For(ip, a) + For(ip, b)
  {
    hide For;
    ForNone(ip);
    if a == [] {
      assert a + b == b;
    } else {
      ForConcat(ip, a[1..], b);
      ForStep(ip, a);
      ForStep(ip, a + b);
      assert (a + b)[1..] == a[1..] + b;
    }
  }

  lemma ForStep(ip: u32, log: seq<Action>)
    requires log != []
    ensures For(ip, log) == (if log[0].ip == ip then [log[0]] else []) + For(ip, log[1..])
  {
  }

  lemma ForNone(ip: u32)
    ensures For(ip, []) == []
  {
  }

  lemma {:induction false} ForSame(ip: u32, log: seq<Action>)
    requires forall i :: 0 <= i < |log| ==> log[i].ip == ip
    ensures For(ip, log) == log
  {
    if log != [] { ForSame(ip, log[1..]); }
  }

  lemma {:induction false} ForOther(ip: u32, log: seq<Action>)
    requires forall i :: 0 <= i < |log| ==> log[i].ip != ip
    ensures For(ip, log) == []
  {
    if log != [] { ForOther(ip, log[1..]); }
  }

  lemma {:induction false} AllForwards(ip: u32, packets: seq<Frame>)
    ensures |Forwards(ip, packets)| == |packets|
    ensures forall i :: 0 <= i < |packets| ==> Forwards(ip, packets)[i] == Forward(ip, packets[i])
  {
    if packets != [] { AllForwards(ip, packets[1..]); }
  }

  lemma {:induction false} AllUnreachables(ip: u32, packets: seq<Frame>)
    ensures |Unreachables(ip, packets)| == |packets|
    ensures forall i :: 0 <= i < |packets| ==> Unreachables(ip, packets)[i] == Unreachable(ip, packets[i])
  {
    if packets != [] { AllUnreachables(ip, packets[1..]); }
  }

  lemma VisitFor(r: Pending, now: int, cached: set<u32>, ip: u32)
    ensures For(ip, VisitActions(r, now, cached)) == if r.ip == ip then VisitActions(r, now, cached) else []
  {
    AllForwards(r.ip, r.packets);
    AllUnreachables(r.ip, r.packets);
    if r.ip == ip {
      ForSame(ip, VisitActions(r, now, cached));
    } else {
      ForOther(ip, VisitActions(r, now, cached));
    }
  }

  lemma {:induction false} SweepFor(q: seq<Pending>, n: nat, clock: nat -> int, cached: set<u32>, ip: u32)
    requires n <= |q| && Distinct(q)
    ensures
      var k := Find(q, ip);
      For(ip, SweepActions(q, n, clock, cached)) == if k < n then VisitActions(q[k], clock(k), cached) else []
  {
    hide VisitActions;
    hide Find;
    hide For;
    FindFacts(q, ip);
    if n == 0 {
      ForNone(ip);
    } else {
      SweepFor(q, n - 1, clock, cached, ip);
      ForConcat(ip, SweepActions(q, n - 1, clock, cached), VisitActions(q[n - 1], clock(n - 1), cached));
      VisitFor(q[n - 1], clock(n - 1), cached, ip);
      FindIs(q, n - 1);
    }
  }

  predicate Quiet(ip: u32, e: Event)
  {
    match e
    case Queue(_, _) => true
    case Reply(other) => other != ip
    case Sweep(_, cached) => ip !in cached
  }

  /** No answer for ip comes: no reply, and no sweep that finds it in the cache. */
  ghost predicate Unanswered(ip: u32, es: seq<Event>)
  {
    forall i :: 0 <= i < |es| ==> Quiet(ip, es[i])
  }

  ghost predicate Lasts(q: seq<Pending>, es: seq<Event>, ip: u32)
    decreases |es|
  {
    IsPending(q, ip) && (es != [] ==> Lasts(Next(q, es[0]), es[1..], ip))
  }

  /** The packets queued for ip, the latest first. */
  function Offered(ip: u32, es: seq<Event>): seq<Frame>
  {
    if es == [] then [] else Offered(ip, es[1..]) + OfferedBy(ip, es[0])
  }

  function OfferedBy(ip: u32, e: Event): seq<Frame>
  {
    if e.Queue? && e.ip == ip then Kept(e.packet) else []
  }

  /** One packet for each queueing for ip that brought one with anything in it. */
  lemma OfferedOnce(ip: u32, e: Event, p: Frame)
    ensures OfferedBy(ip, e) == [p] <==> e == Queue(ip, Some(p)) && |p.buf| > 0
    ensures OfferedBy(ip, e) == [] || exists f :: OfferedBy(ip, e) == [f]
  {
  }

  function Asks(ip: u32, times: seq<int>): seq<Action>
  {
    if times == [] then [] else [Ask(ip, times[0])] + Asks(ip, times[1..])
  }

  /** What one event does to the request for ip, seen from ip alone. */
  lemma EventFor(q: seq<Pending>, e: Event, ip: u32)
    requires Inv(q)
    ensures Inv(Next(q, e))
    ensures e.Queue? && e.ip == ip ==> IsPending(Next(q, e), ip)
    ensures e.Queue? ==> For(ip, Actions(q, e)) == []
    ensures (e.Queue? && e.ip != ip) || (e.Reply? && e.ip != ip) ==> (IsPending(Next(q, e), ip) <==> IsPending(q, ip))
    ensures e.Queue? ==> Of(Next(q, e), ip) == Of(q, ip).(packets := OfferedBy(ip, e) + Of(q, ip).packets)
    ensures e.Reply? ==>
      && For(ip, Actions(q, e)) == (if e.ip == ip then Forwards(ip, Of(q, ip).packets) else [])
      && (e.ip == ip ==> !IsPending(Next(q, e), ip))
      && Of(Next(q, e), ip) == if e.ip == ip then Pending(ip, 0, 0, []) else Of(q, ip)
    ensures e.Sweep? && !IsPending(q, ip) ==> For(ip, Actions(q, e)) == [] && !IsPending(Next(q, e), ip)
    ensures e.Sweep? && IsPending(q, ip) ==>
      var now := e.clock(Find(q, ip));
      && For(ip, Actions(q, e)) == VisitActions(Of(q, ip), now, e.cached)
      && (IsPending(Next(q, e), ip) <==> Visited(Of(q, ip), now, e.cached) != [])
      && (IsPending(Next(q, e), ip) ==> [Of(Next(q, e), ip)] == Visited(Of(q, ip), now, e.cached))
  {
    hide Find;
    hide Swept;
    hide SweepActions;
    hide Queued;
    hide Without;
    hide For;
    hide Visited;
    hide VisitActions;
    hide Forwards;
    NextInv(q, e);
    ForNone(ip);
    match e
    case Queue(other, packet) => QueuedInv(q, other, packet);
    case Reply(other) =>
      WithoutInv(q, other);
      ReplyFor(other, Of(q, other).packets, ip);
    case Sweep(clock, cached) =>
      FindFacts(q, ip);
      SweptOf(q, |q|, clock, cached, ip);
      SweepFor(q, |q|, clock, cached, ip);
  }

  lemma ReplyFor(other: u32, packets: seq<Frame>, ip: u32)
    ensures For(ip, Forwards(other, packets)) == if other == ip then Forwards(other, packets) else []
  {
    AllForwards(other, packets);
    if other == ip {
      ForSame(ip, Forwards(other, packets));
    } else {
      ForOther(ip, Forwards(other, packets));
    }
  }

  /** An event that leaves a request waiting asks for it once or not at all. */
  lemma StillWaiting(q: seq<Pending>, e: Event, ip: u32) returns (times: seq<int>)
    requires Inv(q) && IsPending(q, ip) && IsPending(Next(q, e), ip)
    ensures For(ip, Actions(q, e)) == Asks(ip, times) && Spaced(times, Of(q, ip).sent, 0)
    ensures Of(Next(q, e), ip) == Grown(Of(q, ip), times, OfferedBy(ip, e))
  {
    hide Find;
    hide Next;
    hide Actions;
    hide Of;
    hide For;
    hide IsPending;
    FindFacts(q, ip);
    EventFor(q, e, ip);
    var r := Of(q, ip);
    if e.Sweep? && e.clock(Find(q, ip)) - r.sent >= 1 {
      times := [e.clock(Find(q, ip))];
      var s := Visited(r, times[0], e.cached);
      assert s[0] == Of(Next(q, e), ip);
      assert Asks(ip, times) == [Ask(ip, times[0])] + Asks(ip, times[1..]);
    } else {
      times := [];
      if e.Sweep? {
        var s := Visited(r, e.clock(Find(q, ip)), e.cached);
        assert s[0] == Of(Next(q, e), ip);
      }
    }
  }

  function Grown(r: Pending, times: seq<int>, packets: seq<Frame>): Pending
  {
    Pending(r.ip, LastOf(times, r.sent), r.times + |times|, packets + r.packets)
  }

  lemma {:induction false} AsksConcat(ip: u32, a: seq<int>, b: seq<int>)
    ensures Asks(ip, a + b) == Asks(ip, a) + Asks(ip, b)
  {
    if a == [] {
      assert a + b == b;
    } else {
      assert (a + b)[1..] == a[1..] + b;
      AsksConcat(ip, a[1..], b);
    }
  }

  lemma GrownTwice(r: Pending, a: seq<int>, b: seq<int>, p: seq<Frame>, q: seq<Frame>)
    ensures Grown(Grown(r, a, p), b, q) == Grown(r, a + b, q + p)
  {
    assert q + (p + r.packets) == (q + p) + r.packets;
  }

  /** As long as a request lasts its log holds its asks alone, spaced, and counted. */
  lemma {:induction false} WhileItLasts(q: seq<Pending>, es: seq<Event>, ip: u32) returns (times: seq<int>)
    requires Inv(q) && Lasts(q, es, ip)
    ensures Inv(Run(q, es)) && IsPending(Run(q, es), ip)
    ensures For(ip, Log(q, es)) == Asks(ip, times) && Spaced(times, Of(q, ip).sent, 0)
    ensures Of(Run(q, es), ip) == Grown(Of(q, ip), times, Offered(ip, es))
    decreases |es|
  {
    hide Find;
    hide Next;
    hide Actions;
    hide Of;
    hide For;
    hide IsPending;
    hide Asks;
    hide OfferedBy;
    hide Grown;
    hide Inv;
    if es == [] {
      times := [];
      NothingYet(q, ip);
    } else {
      var e, next := es[0], Next(q, es[0]);
      LastsNow(next, es[1..], ip);
      var step := StillWaiting(q, e, ip);
      NextInv(q, e);
      var rest := WhileItLasts(next, es[1..], ip);
      times := step + rest;
      ForConcat(ip, Actions(q, e), Log(next, es[1..]));
      AsksConcat(ip, step, rest);
      GrownTwice(Of(q, ip), step, rest, OfferedBy(ip, e), Offered(ip, es[1..]));
      GrownSent(Of(q, ip), step, OfferedBy(ip, e));
      SpacedConcat(step, rest, Of(q, ip).sent, 0);
    }
  }

  lemma LastsNow(q: seq<Pending>, es: seq<Event>, ip: u32)
    requires Lasts(q, es, ip)
    ensures IsPending(q, ip)
  {
  }

  lemma GrownSent(r: Pending, times: seq<int>, packets: seq<Frame>)
    ensures Grown(r, times, packets).sent == LastOf(times, r.sent)
  {
  }

  lemma NothingYet(q: seq<Pending>, ip: u32)
    ensures For(ip, []) == Asks(ip, [])
    ensures Of(q, ip) == Grown(Of(q, ip), [], [])
  {
  }

  /** One action of a kind for each packet, in order. */
  ghost predicate AllForwarded(ip: u32, acts: seq<Action>, packets: seq<Frame>)
  {
    |acts| == |packets| && forall i :: 0 <= i < |packets| ==> acts[i] == Forward(ip, packets[i])
  }

  ghost predicate AllUnreachable(ip: u32, acts: seq<Action>, packets: seq<Frame>)
  {
    |acts| == |packets| && forall i :: 0 <= i < |packets| ==> acts[i] == Unreachable(ip, packets[i])
  }

  /** What a sweep does for a request that has waited through es since it was made, whatever came in meanwhile. Less than a
      second after the last ask: nothing. Otherwise, after five asks it answers every packet that waits host unreachable;
      after fewer it forwards every one if the address is in the cache, and asks once more if not. The request goes with
      its packets. */
  lemma SweepDecides(q: seq<Pending>, packet: Option<Frame>, es: seq<Event>, sweep: Event, ip: u32)
    returns (times: seq<int>)
    requires Inv(q) && !IsPending(q, ip) && sweep.Sweep?
    requires Lasts(Next(q, Queue(ip, packet)), es, ip)
    ensures |times| <= 5 && Spaced(times, 0, 0)
    ensures var q1 := Next(q, Queue(ip, packet));
      var end := Run(q1, es);
      var now, waiting := sweep.clock(Find(end, ip)), Offered(ip, [Queue(ip, packet)] + es);
      var acts := For(ip, Actions(end, sweep));
      && For(ip, Log(q1, es)) == Asks(ip, times)
      && (!IsPending(Next(end, sweep), ip) <==> now - LastOf(times, 0) >= 1 && (|times| == 5 || ip in sweep.cached))
      && if now - LastOf(times, 0) < 1 then acts == []
         else if |times| == 5 then AllUnreachable(ip, acts, waiting)
         else if ip in sweep.cached then AllForwarded(ip, acts, waiting)
         else acts == [Ask(ip, now)]
  {
    hide Find;
    hide Next;
    hide Actions;
    hide Of;
    hide For;
    hide IsPending;
    hide Inv;
    hide Run;
    hide Log;
    var end;
    times, end := WaitedThrough(q, packet, es, ip);
    var r := Of(end, ip);
    EventFor(end, sweep, ip);
    FindFacts(end, ip);
    AllUnreachables(ip, r.packets);
    AllForwards(ip, r.packets);
  }

  /** A request made by an event and waiting through es has its asks counted and its packets in the order queued. */
  lemma WaitedThrough(q: seq<Pending>, packet: Option<Frame>, es: seq<Event>, ip: u32)
    returns (times: seq<int>, end: seq<Pending>)
    requires Inv(q) && !IsPending(q, ip) && Lasts(Next(q, Queue(ip, packet)), es, ip)
    ensures end == Run(Next(q, Queue(ip, packet)), es) && Inv(end) && IsPending(end, ip)
    ensures For(ip, Log(Next(q, Queue(ip, packet)), es)) == Asks(ip, times) && Spaced(times, 0, 0) && |times| <= 5
    ensures Of(end, ip) == Pending(ip, LastOf(times, 0), |times|, Offered(ip, [Queue(ip, packet)] + es))
  {
    hide Find;
    hide Next;
    hide Actions;
    hide Of;
    hide For;
    hide IsPending;
    hide OfferedBy;
    hide Kept;
    hide Inv;
    hide Run;
    hide Log;
    var q1 := Next(q, Queue(ip, packet));
    EventFor(q, Queue(ip, packet), ip);
    OfNone(q, ip);
    times := WhileItLasts(q1, es, ip);
    end := Run(q1, es);
    OfInv(end, ip);
    OfferedFirst(ip, Queue(ip, packet), es);
    assert Of(end, ip).packets == Offered(ip, es) + (OfferedBy(ip, Queue(ip, packet)) + []);
    assert Of(end, ip).packets == Offered(ip, es) + OfferedBy(ip, Queue(ip, packet));
  }

  /** An address that is never answered is asked for exactly five times, at least a second apart; then, again a second
      later at the least, the request goes and every packet that waited is answered host unreachable, once. */
  lemma AskedFiveTimes(q: seq<Pending>, packet: Option<Frame>, es: seq<Event>, last: Event, ip: u32)
    returns (times: seq<int>)
    requires Inv(q) && !IsPending(q, ip)
    requires Unanswered(ip, es) && last.Sweep? && Quiet(ip, last)
    requires var q1 := Next(q, Queue(ip, packet));
      Lasts(q1, es, ip) && !IsPending(Next(Run(q1, es), last), ip)
    ensures |times| == 5 && Spaced(times, 0, 0)
    ensures
      var q1 := Next(q, Queue(ip, packet));
      && last.clock(Find(Run(q1, es), ip)) - times[4] >= 1
      && For(ip, Log(q1, es)) == Asks(ip, times)
      && AllUnreachable(ip, For(ip, Actions(Run(q1, es), last)), Offered(ip, [Queue(ip, packet)] + es))
  {
    hide Find;
    hide Next;
    hide Actions;
    hide For;
    hide IsPending;
    hide Inv;
    hide Run;
    hide Log;
    hide Lasts;
    hide AllUnreachable;
    hide AllForwarded;
    times := SweepDecides(q, packet, es, last, ip);
  }

  lemma OfferedFirst(ip: u32, e: Event, es: seq<Event>)
    ensures Offered(ip, [e] + es) == Offered(ip, es) + OfferedBy(ip, e)
  {
    assert ([e] + es)[1..] == es;
  }

  lemma OfInv(q: seq<Pending>, ip: u32)
    requires Inv(q)
    ensures Of(q, ip).times <= MAX_ASKS && Of(q, ip).ip == ip
  {
  }

  lemma OfNone(q: seq<Pending>, ip: u32)
    requires !IsPending(q, ip)
    ensures Of(q, ip) == Pending(ip, 0, 0, [])
  {
  }

  function Sweeps(es: seq<Event>): nat
  {
    if es == [] then 0 else (if es[0].Sweep? then 1 else 0) + Sweeps(es[1..])
  }

  /** Every sweep reads a clock at least a second past all that the sweep before it read. */
  ghost predicate Ticking(since: int, es: seq<Event>)
    decreases |es|
  {
    es != [] ==>
      if es[0].Sweep? then forall n: nat :: es[0].clock(n) - since >= 1 && Ticking(es[0].clock(n), es[1..])
      else Ticking(since, es[1..])
  }

  /** With sweeps a second apart, an unanswered request is asked for at each of the next sweeps, up to five asks. */
  lemma {:induction false} AskedAtEverySweep(q: seq<Pending>, es: seq<Event>, last: Event, ip: u32)
    requires Inv(q) && IsPending(q, ip) && Unanswered(ip, es) && Ticking(Of(q, ip).sent, es + [last])
    requires Of(q, ip).times + Sweeps(es) <= MAX_ASKS
    ensures Lasts(q, es, ip) && Inv(Run(q, es)) && IsPending(Run(q, es), ip)
    ensures Of(Run(q, es), ip).times == Of(q, ip).times + Sweeps(es)
    ensures Ticking(Of(Run(q, es), ip).sent, [last])
    decreases |es|
  {
    hide Find;
    hide Next;
    hide Actions;
    hide Of;
    hide IsPending;
    hide Inv;
    hide Quiet;
    hide Ticking;
    if es == [] {
      assert [] + [last] == [last];
    } else {
      var e, next := es[0], Next(q, es[0]);
      assert Quiet(ip, es[0]);
      assert Unanswered(ip, es[1..]);
      assert (es + [last])[1..] == es[1..] + [last] && (es + [last])[0] == e;
      assert es + [last] == [e] + (es[1..] + [last]);
      AskedAtSweep(q, e, es[1..] + [last], ip);
      AskedAtEverySweep(next, es[1..], last, ip);
    }
  }

  lemma AskedAtSweep(q: seq<Pending>, e: Event, rest: seq<Event>, ip: u32)
    requires Inv(q) && IsPending(q, ip) && Quiet(ip, e) && Ticking(Of(q, ip).sent, [e] + rest)
    requires e.Sweep? ==> Of(q, ip).times < MAX_ASKS
    ensures Inv(Next(q, e)) && IsPending(Next(q, e), ip) && Ticking(Of(Next(q, e), ip).sent, rest)
    ensures Of(Next(q, e), ip).times == Of(q, ip).times + if e.Sweep? then 1 else 0
  {
    hide Find;
    hide Next;
    hide Actions;
    hide Of;
    hide For;
    hide IsPending;
    hide Inv;
    FindFacts(q, ip);
    EventFor(q, e, ip);
    assert ([e] + rest)[1..] == rest;
    if e.Sweep? {
      var now := e.clock(Find(q, ip));
      assert [Of(Next(q, e), ip)] == Visited(Of(q, ip), now, e.cached);
      assert Of(Next(q, e), ip) == Visited(Of(q, ip), now, e.cached)[0];
    }
  }

  /** With sweeps a second apart, an unanswered request outlives five sweeps and never the sixth. */
  lemma GoneAtSixthSweep(q: seq<Pending>, packet: Option<Frame>, es: seq<Event>, last: Event, ip: u32)
    requires Inv(q) && !IsPending(q, ip)
    requires Unanswered(ip, es) && last.Sweep? && Quiet(ip, last) && Ticking(0, es + [last])
    requires Sweeps(es) <= MAX_ASKS
    ensures
      var q1 := Next(q, Queue(ip, packet));
      Lasts(q1, es, ip) && (!IsPending(Next(Run(q1, es), last), ip) <==> Sweeps(es) == MAX_ASKS)
  {
    hide Find;
    hide Next;
    hide Actions;
    hide Of;
    hide For;
    hide IsPending;
    hide Inv;
    hide Run;
    hide Lasts;
    hide OfferedBy;
    var q1 := Next(q, Queue(ip, packet));
    EventFor(q, Queue(ip, packet), ip);
    OfNone(q, ip);
    AskedAtEverySweep(q1, es, last, ip);
    var end := Run(q1, es);
    FindFacts(end, ip);
    EventFor(end, last, ip);
    assert last == [last][0];
  }

  // Unreachable only after five asks

  /** At i the log says unreachable, as it has since just after the five asks from j on. */
  ghost predicate EarnedAt(log: seq<Action>, i: nat, j: nat)
  {
    && j + 5 <= i < |log|
    && (forall k :: j <= k < j + 5 ==> log[k].Ask?) && (forall k :: j + 5 <= k <= i ==> log[k].Unreachable?)
  }

  ghost predicate Earned(log: seq<Action>)
  {
    forall i: nat :: i < |log| && log[i].Unreachable? ==> exists j: nat :: EarnedAt(log, i, j)
  }

  ghost predicate EndsInAsks(log: seq<Action>, n: nat)
  {
    n <= |log| && forall k :: |log| - n <= k < |log| ==> log[k].Ask?
  }

  lemma EarnedMore(log: seq<Action>, acts: seq<Action>)
    requires Earned(log)
    requires (forall k :: 0 <= k < |acts| ==> !acts[k].Unreachable?)
      || (EndsInAsks(log, 5) && forall k :: 0 <= k < |acts| ==> acts[k].Unreachable?)
    ensures Earned(log + acts)
  {
    var all := log + acts;
    forall i: nat | i < |all| && all[i].Unreachable?
      ensures exists j: nat :: EarnedAt(all, i, j)
    {
      if i < |log| {
        var j: nat :| EarnedAt(log, i, j);
        assert EarnedAt(all, i, j);
      } else {
        assert EarnedAt(all, i, |log| - 5);
      }
    }
  }

  /** One event after a log that ends in the asks made so far for the request that waits, if one does. */
  lemma EventEarned(q: seq<Pending>, e: Event, ip: u32, log: seq<Action>)
    requires Inv(q) && Earned(log) && EndsInAsks(log, Of(q, ip).times)
    ensures var log1 := log + For(ip, Actions(q, e));
      Earned(log1) && EndsInAsks(log1, Of(Next(q, e), ip).times)
  {
    hide Find;
    hide Next;
    hide Actions;
    hide Of;
    hide For;
    hide IsPending;
    hide Inv;
    hide Earned;
    hide Forwards;
    hide Unreachables;
    var r, acts := Of(q, ip), For(ip, Actions(q, e));
    EventFor(q, e, ip);
    FindFacts(q, ip);
    OfInv(q, ip);
    AllForwards(ip, r.packets);
    AllUnreachables(ip, r.packets);
    if !IsPending(q, ip) { OfNone(q, ip); }
    if !IsPending(Next(q, e), ip) { OfNone(Next(q, e), ip); }
    if e.Sweep? && IsPending(q, ip) && IsPending(Next(q, e), ip) {
      assert Of(Next(q, e), ip) == Visited(r, e.clock(Find(q, ip)), e.cached)[0];
    }
    if acts == [] { assert log + acts == log; }
    EarnedMore(log, acts);
  }

  /** Over every run from an empty queue: whenever the log for an address says host unreachable, that address was asked
      for five times in a row right before the answers began. */
  lemma UnreachableOnlyAfterFiveAsks(es: seq<Event>, ip: u32)
    ensures Earned(For(ip, Log([], es)))
  {
    hide Earned;
    NothingEarned();
    RunEarned([], es, ip, []);
    assert [] + For(ip, Log([], es)) == For(ip, Log([], es));
  }

  lemma NothingEarned()
    ensures Earned([])
  {
  }

  lemma {:induction false} RunEarned(q: seq<Pending>, es: seq<Event>, ip: u32, log: seq<Action>)
    requires Inv(q) && Earned(log) && EndsInAsks(log, Of(q, ip).times)
    ensures Earned(log + For(ip, Log(q, es)))
    decreases |es|
  {
    hide Next;
    hide Actions;
    hide Of;
    hide For;
    hide Inv;
    hide Earned;
    hide EndsInAsks;
    if es == [] {
      ForNone(ip);
      assert log + For(ip, []) == log;
    } else {
      var now, rest := For(ip, Actions(q, es[0])), Log(Next(q, es[0]), es[1..]);
      EventEarned(q, es[0], ip, log);
      NextInv(q, es[0]);
      RunEarned(Next(q, es[0]), es[1..], ip, log + now);
      ForConcat(ip, Actions(q, es[0]), rest);
      assert log + (now + For(ip, rest)) == log + now + For(ip, rest);
    }
  }

  // Every packet is dealt with once

  function Packets(log: seq<Action>): seq<Frame>
  {
    if log == [] then []
    else (if log[0].Ask? then [] else [log[0].packet]) + Packets(log[1..])
  }

  lemma {:induction false} PacketsOfForwards(ip: u32, packets: seq<Frame>)
    ensures Packets(Forwards(ip, packets)) == packets && Packets(Unreachables(ip, packets)) == packets
  {
    if packets != [] {
      PacketsOfForwards(ip, packets[1..]);
    }
  }

  lemma PacketsStep(log: seq<Action>)
    requires log != []
    ensures Packets(log) == (if log[0].Ask? then [] else [log[0].packet]) + Packets(log[1..])
  {
  }

  lemma {:induction false} PacketsConcat(a: seq<Action>, b: seq<Action>)
    ensures Packets(a + b) == Packets(a) + Packets(b)
  {
    hide Packets;
    if a == [] {
      assert a + b == b;
      assert Packets([]) == [] by { PacketsOfForwards(0, []); }
    } else {
      PacketsStep(a);
      PacketsStep(a + b);
      PacketsConcat(a[1..], b);
      assert (a + b)[1..] == a[1..] + b;
    }
  }

  lemma PacketsOfEvent(q: seq<Pending>, e: Event, ip: u32)
    requires Inv(q)
    ensures
      Of(Next(q, e), ip).packets + Packets(For(ip, Actions(q, e))) == OfferedBy(ip, e) + Of(q, ip).packets
  {
    hide Find;
    hide Next;
    hide Actions;
    hide Of;
    hide For;
    hide IsPending;
    hide Inv;
    hide Kept;
    hide Forwards;
    hide Unreachables;
    FindFacts(q, ip);
    EventFor(q, e, ip);
    PacketsOfForwards(ip, Of(q, ip).packets);
    if !IsPending(q, ip) { OfNone(q, ip); }
    if !IsPending(Next(q, e), ip) { OfNone(Next(q, e), ip); }
    if e.Sweep? && IsPending(q, ip) && IsPending(Next(q, e), ip) {
      assert Of(Next(q, e), ip) == Visited(Of(q, ip), e.clock(Find(q, ip)), e.cached)[0];
    }
  }

  /** Over every run, each packet queued for ip either waits still or was forwarded or answered, exactly once. */
  lemma {:induction false} EveryPacketOnce(q: seq<Pending>, es: seq<Event>, ip: u32)
    requires Inv(q)
    ensures
      multiset(Of(Run(q, es), ip).packets) + multiset(Packets(For(ip, Log(q, es)))) ==
      multiset(Offered(ip, es)) + multiset(Of(q, ip).packets)
    decreases |es|
  {
    hide Find;
    hide Next;
    hide Actions;
    hide Of;
    hide For;
    hide Inv;
    hide OfferedBy;
    hide Packets;
    if es == [] {
      ForNone(ip);
      assert Packets([]) == [] by { PacketsOfForwards(ip, []); }
    } else {
      var next := Next(q, es[0]);
      NextInv(q, es[0]);
      EveryPacketOnce(next, es[1..], ip);
      PacketsOfEvent(q, es[0], ip);
      ForConcat(ip, Actions(q, es[0]), Log(next, es[1..]));
      var now, later := For(ip, Actions(q, es[0])), For(ip, Log(next, es[1..]));
      PacketsConcat(now, later);
      Balance(Of(q, ip).packets, OfferedBy(ip, es[0]), Packets(now), Of(next, ip).packets,
        Offered(ip, es[1..]), Packets(later), Of(Run(next, es[1..]), ip).packets);
    }
  }

  lemma Balance<T>(w0: seq<T>, o0: seq<T>, d0: seq<T>, w1: seq<T>, o1: seq<T>, d1: seq<T>, w2: seq<T>)
    requires w1 + d0 == o0 + w0 && multiset(w2) + multiset(d1) == multiset(o1) + multiset(w1)
    ensures multiset(w2) + multiset(d0 + d1) == multiset(o1 + o0) + multiset(w0)
  {
    MultisetOfConcat(w1, d0);
    MultisetOfConcat(o0, w0);
    MultisetOfConcat(d0, d1);
    MultisetOfConcat(o1, o0);
    assert multiset(w2) + (multiset(d0) + multiset(d1)) == (multiset(w2) + multiset(d1)) + multiset(d0);
    assert multiset(o1) + (multiset(w1) + multiset(d0)) == (multiset(o1) + multiset(w1)) + multiset(d0);
    assert multiset(o1) + (multiset(o0) + multiset(w0)) == (multiset(o1) + multiset(o0)) + multiset(w0);
  }

  lemma MultisetOfConcat<T>(a: seq<T>, b: seq<T>)
    ensures multiset(a + b) == multiset(a) + multiset(b)
  {
  }
}
