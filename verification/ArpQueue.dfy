/** The linked list of ARP requests of sr_arpcache.c, relinked in place. */
module ArpQueue {
  import opened Bytes
  import opened ArpRequests

  /** struct sr_arpreq. */
  class Request {
    const ip: u32
    var sent: int
    var times: nat
    var packets: seq<Frame>
    var next: Request?

    constructor (ip: u32)
      ensures this.ip == ip && Value() == Pending(ip, 0, 0, []) && next == null
    {
      this.ip, sent, times, packets, next := ip, 0, 0, [], null;
    }

    ghost function Value(): Pending
      reads this
    {
      Pending(ip, sent, times, packets)
    }
  }

  /** The request at a position, null outside the list. */
  ghost function Nth(s: seq<Request>, i: int): Request? { if 0 <= i < |s| then s[i] else null }

  ghost predicate Linked(s: seq<Request>)
    reads s
  {
    forall i {:trigger s[i].next} :: 0 <= i < |s| ==> s[i].next == Nth(s, i + 1)
  }

  ghost function Values(s: seq<Request>): (v: seq<Pending>)
    reads s
    ensures |v| == |s|
    ensures forall i :: 0 <= i < |s| ==> v[i] == s[i].Value()
  {
    seq(|s|, i requires 0 <= i < |s| reads s => s[i].Value())
  }

  /** Different addresses, so different nodes. */
  lemma NodesDiffer(s: seq<Request>)
    requires Inv(Values(s))
    ensures forall i, j :: 0 <= i < j < |s| ==> s[i] != s[j]
  {
    var v := Values(s);
    assert forall i, j :: 0 <= i < j < |s| ==> v[i].ip != v[j].ip;
  }

  /** The request list of struct sr_arpcache. */
  class Cache {
    var requests: Request?
    ghost var list: seq<Request>

    ghost predicate Valid()
      reads this, list
    {
      && requests == Nth(list, 0)
      && Linked(list)
      && Inv(Values(list))
    }

    ghost function Contents(): seq<Pending>
      reads this, list
    {
      Values(list)
    }

    constructor ()
      ensures Valid() && Contents() == []
    {
      requests, list := null, [];
    }

    /** The search that queuereq and insert start with. */
    method Search(ip: u32) returns (prev: Request?, req: Request?)
      requires Valid()
      ensures var k := Find(Contents(), ip); prev == Nth(list, k - 1) && req == Nth(list, k)
    {
      ghost var i := 0;
      prev, req := null, requests;
      while req != null && req.ip != ip
        invariant 0 <= i <= |list| && req == Nth(list, i) && prev == Nth(list, i - 1)
        invariant forall j :: 0 <= j < i ==> Contents()[j].ip != ip
        decreases |list| - i
      {
        prev, req, i := req, req.next, i + 1;
      }
      FoundAt(Contents(), ip, i);
    }

    method QueueReq(ip: u32, packet: Option<Frame>) returns (req: Request)
      requires Valid()
      modifies this, list
      ensures Valid() && Contents() == Queued(old(Contents()), ip, packet)
      ensures req in list && req.ip == ip
    {
      hide Valid;
      hide Contents;
      hide Inv;
      hide Queued;
      hide WithPacket;
      ghost var q := Contents();
      ghost var k := Find(q, ip);
      QueuedCases(q, ip, packet);
      ContentsAgree();
      var _, found := Search(ip);
      if found == null {
        req := Push(ip);
        k := 0;
      } else {
        req := found;
      }
      AddPacket(req, k, packet);
    }

    lemma ContentsAgree()
      requires Valid()
      ensures |Contents()| == |list|
      ensures forall i :: 0 <= i < |list| ==> Contents()[i].ip == list[i].ip
    {
    }

    lemma Front()
      requires Valid()
      ensures requests == Nth(list, 0) && |Contents()| == |list|
    {
    }

    lemma Place(k: nat)
      requires Valid() && k < |list|
      ensures |Contents()| == |list| && Contents()[k] == list[k].Value() && list[k].next == Nth(list, k + 1)
    {
    }

    /** calloc and the link in front. */
    method Push(ip: u32) returns (req: Request)
      requires Valid() && !IsPending(Contents(), ip)
      modifies this
      ensures Valid() && fresh(req) && list == [req] + old(list)
      ensures req.ip == ip && Contents() == [Pending(ip, 0, 0, [])] + old(Contents())
    {
      hide Inv;
      ghost var q := Contents();
      PushedInv(q, ip);
      req := new Request(ip);
      req.next := requests;
      requests, list := req, [req] + list;
      assert Contents() == [Pending(ip, 0, 0, [])] + q;
    }

    method AddPacket(req: Request, ghost k: nat, packet: Option<Frame>)
      requires Valid() && k < |list| && req == list[k]
      modifies req`packets
      ensures Valid() && list == old(list)
      ensures Contents() == old(Contents())[k := WithPacket(old(Contents())[k], packet)]
    {
      ghost var q := Contents();
      NodesDiffer(list);
      assert [] + q[k].packets == q[k].packets;
      if packet.Some? && packet.value.buf != [] {
        req.packets := [packet.value] + req.packets;
      }
      assert Contents() == q[k := WithPacket(q[k], packet)];
    }

    /** Takes the k-th request out of the list. */
    method Unlink(prev: Request?, req: Request, ghost k: nat)
      requires Valid() && k < |list| && req == list[k] && prev == Nth(list, k - 1)
      modifies this, list
      ensures Valid() && list == old(list[..k] + list[k + 1..])
      ensures Contents() == RemovedAt(old(Contents()), k)
      ensures forall r <- old(list) :: r.Value() == old(r.Value())
      ensures req.next == old(req.next)
    {
      hide Inv;
      hide RemovedAt;
      ghost var q := Contents();
      NodesDiffer(list);
      RemovedInv(q, k);
      Relink(prev, req.next, k);
      ValuesRemoved(list, k);
      list := list[..k] + list[k + 1..];
    }

    method Relink(prev: Request?, next: Request?, ghost k: nat)
      requires requests == Nth(list, 0) && Linked(list) && k < |list| && forall i, j :: 0 <= i < j < |list| ==> list[i] != list[j]
      requires prev == Nth(list, k - 1) && next == Nth(list, k + 1)
      modifies this`requests, list`next
      ensures Linked(list[..k] + list[k + 1..]) && requests == Nth(list[..k] + list[k + 1..], 0)
      ensures list[k].next == old(list[k].next)
      ensures Values(list) == old(Values(list)) && forall r <- list :: r.Value() == old(r.Value())
    {
      ghost var v := Values(list);
      if prev != null {
        prev.next := next;
      } else {
        requests := next;
      }
      assert Values(list) == v;
    }

    lemma ValuesRemoved(s: seq<Request>, k: nat)
      requires k < |s| && Inv(Values(s))
      ensures Values(s[..k] + s[k + 1..]) == RemovedAt(Values(s), k)
    {
      hide Inv;
      hide RemovedAt;
      var r := s[..k] + s[k + 1..];
      RemovedInv(Values(s), k);
      assert forall i :: 0 <= i < |r| ==> r[i] == s[if i < k then i else i + 1];
    }

    /** sr_arpcache_insert, as far as the list is concerned. */
    method Insert(ip: u32) returns (req: Request?)
      requires Valid()
      modifies this, list
      ensures Valid() && Contents() == Without(old(Contents()), ip)
      ensures req == old(Nth(list, Find(Contents(), ip)))
      ensures req != null ==> req.Value() == old(req.Value()) && req !in list
    {
      ghost var k := Find(Contents(), ip);
      var prev;
      prev, req := Search(ip);
      if req != null {
        Unlink(prev, req, k);
      }
    }

    /** sr_arpreq_destroy; a request that is not on the list leaves it as it is. */
    method Destroy(entry: Request?)
      requires Valid()
      modifies this, list
      ensures Valid()
      ensures entry == null || entry !in old(list) ==> list == old(list) && Contents() == old(Contents())
      ensures forall k :: 0 <= k < |old(list)| && entry == old(list)[k] ==>
        list == old(list)[..k] + old(list)[k + 1..] && Contents() == RemovedAt(old(Contents()), k)
      ensures forall r <- old(list) :: r.Value() == old(r.Value())
      ensures entry != null ==> entry.next == old(entry.next)
    {
      if entry != null {
        ghost var i := 0;
        var prev: Request?, req := null, requests;
        while req != null && req != entry
          invariant 0 <= i <= |list| && req == Nth(list, i) && prev == Nth(list, i - 1)
          invariant entry !in list[..i]
          decreases |list| - i
        {
          prev, req, i := req, req.next, i + 1;
        }
        if req != null {
          Unlink(prev, req, i);
        }
      }
    }

    /** The body of the sweep, for the k-th request. */
    method Visit(req: Request, ghost k: nat, now: int, cached: set<u32>) returns (log: seq<Action>)
      requires Valid() && k < |list| && req == list[k]
      modifies this, list
      ensures Valid()
      ensures log == VisitActions(old(req.Value()), now, cached)
      ensures
        var kept := Visited(old(req.Value()), now, cached);
        && Contents() == old(Contents())[..k] + kept + old(Contents())[k + 1..]
        && list == old(list)[..k] + (if kept == [] then [] else [req]) + old(list)[k + 1..]
    {
      hide Inv;
      hide Valid;
      hide Contents;
      hide Unreachables;
      hide Forwards;
      log := [];
      ghost var q, was := Contents(), list;
      Place(k);
      BoundAt(k);
      Spliced(q, k);
      Spliced(was, k);
      if now - req.sent >= 1 {
        if req.times >= MAX_ASKS {
          log := Unreachables(req.ip, req.packets);
          Destroy(req);
        } else if req.ip in cached {
          log := Forwards(req.ip, req.packets);
          Destroy(req);
        } else {
          log := [Ask(req.ip, now)];
          Stamp(req, k, now);
        }
      }
    }

    lemma BoundAt(k: nat)
      requires Valid() && k < |list|
      ensures list[k].times <= MAX_ASKS
    {
      hide Inv;
      TimesBound(Contents(), k);
    }

    method Stamp(req: Request, ghost k: nat, now: int)
      requires Valid() && k < |list| && req == list[k] && req.times < MAX_ASKS
      modifies req`sent, req`times
      ensures Valid() && list == old(list)
      ensures
        var r := old(Contents())[k];
        Contents() == old(Contents())[k := r.(times := r.times + 1, sent := now)]
    {
      ghost var q := Contents();
      NodesDiffer(list);
      req.times, req.sent := req.times + 1, now;
      assert Contents() == q[k := q[k].(times := q[k].times + 1, sent := now)];
    }

    /** One turn of the sweep: `kept` is what the requests before `req` have become. */
    method Turn(req: Request, ghost kept: seq<Pending>, ghost i: nat, ghost q: seq<Pending>, now: int, cached: set<u32>)
      returns (log: seq<Action>)
      requires Valid() && |kept| < |list| && req == list[|kept|] && i < |q| && Contents() == kept + q[i..]
      modifies this, list
      ensures Valid() && Contents() == kept + Visited(q[i], now, cached) + q[i + 1..]
      ensures log == VisitActions(q[i], now, cached)
      ensures var d := |kept + Visited(q[i], now, cached)|;
        d <= |list| && Nth(list, d) == old(Nth(list, |kept| + 1)) && |list| - d == |old(list)| - |kept| - 1
      ensures Within(list, old(list))
    {
      hide Inv;
      hide Valid;
      hide Contents;
      hide Visited;
      hide VisitActions;
      ghost var stayed := Visited(q[i], now, cached);
      InTheMiddle(kept, q, i, stayed);
      Place(|kept|);
      VisitedSize(q[i], now, cached);
      Shorter(list, |kept|, if stayed == [] then [] else [req]);
      log := Visit(req, |kept|, now, cached);
    }

    /** sr_arpcache_sweepreqs, the next request saved before one is destroyed. `clock` gives the reading at each request,
        `cached` the addresses in the cache; `log` is what the router is told to do. */
    method SweepReqs(clock: nat -> int, cached: set<u32>) returns (log: seq<Action>)
      requires Valid()
      modifies this, list
      ensures Valid()
      ensures Contents() == Swept(old(Contents()), |old(list)|, clock, cached)
      ensures log == SweepActions(old(Contents()), |old(list)|, clock, cached)
    {
      hide Inv;
      hide Valid;
      hide Contents;
      hide Swept;
      hide SweepActions;
      hide Visited;
      hide VisitActions;
      hide Within;
      Front();
      WithinItself(list);
      ghost var was, q := list, Contents();
      var req := requests;
      var i := 0;
      log := [];
      NothingSwept(q, clock, cached);
      while req != null
        invariant Valid() && 0 <= i <= |q| && Within(list, was)
        invariant Contents() == Swept(q, i, clock, cached) + q[i..]
        invariant var d := |Swept(q, i, clock, cached)|;
          d <= |list| && req == Nth(list, d) && |list| - d == |q| - i
        invariant log == SweepActions(q, i, clock, cached)
        decreases |q| - i
      {
        ghost var kept, before := Swept(q, i, clock, cached), list;
        Place(|kept|);
        var next := req.next;
        SweptStep(q, i, clock, cached);
        assert forall k :: 0 <= k < |list| ==> list[k] in was by { InWas(list, was); }
        var acts := Turn(req, kept, i, q, clock(i), cached);
        WithinTwice(list, before, was);
        log := log + acts;
        req, i := next, i + 1;
      }
    }
  }

  ghost predicate Within(s: seq<Request>, was: seq<Request>) { forall k :: 0 <= k < |s| ==> s[k] in was }

  lemma WithinItself(s: seq<Request>)
    ensures Within(s, s)
  {
  }

  lemma WithinTwice(s: seq<Request>, t: seq<Request>, u: seq<Request>)
    requires Within(s, t) && Within(t, u)
    ensures Within(s, u)
  {
  }

  lemma InWas(s: seq<Request>, was: seq<Request>)
    requires Within(s, was)
    ensures forall k :: 0 <= k < |s| ==> s[k] in was
  {
  }

  /** What taking out or leaving one element does to the rest. */
  lemma Shorter(s: seq<Request>, d: nat, x: seq<Request>)
    requires d < |s| && (x == [] || x == [s[d]])
    ensures var r := s[..d] + x + s[d + 1..];
      |r| == |s| - 1 + |x| && Nth(r, d + |x|) == Nth(s, d + 1) && Within(r, s)
  {
  }

  lemma QueuedCases(q: seq<Pending>, ip: u32, packet: Option<Frame>)
    ensures
      var r := Pending(ip, 0, 0, []);
      Queued(q, ip, packet) ==
        if IsPending(q, ip) then q[Find(q, ip) := WithPacket(q[Find(q, ip)], packet)]
        else ([r] + q)[0 := WithPacket(([r] + q)[0], packet)]
  {
  }

  lemma Spliced<T>(q: seq<T>, k: nat)
    requires k < |q|
    ensures forall x :: q[k := x] == q[..k] + [x] + q[k + 1..]
    ensures q[..k] + [q[k]] + q[k + 1..] == q && q[..k] + [] + q[k + 1..] == q[..k] + q[k + 1..]
  {
  }

  lemma InTheMiddle<T>(a: seq<T>, b: seq<T>, i: nat, x: seq<T>)
    requires i < |b|
    ensures var s := a + b[i..]; |a| < |s| && s[|a|] == b[i] && s[..|a|] + x + s[|a| + 1..] == (a + x) + b[i + 1..]
  {
  }

  lemma VisitedSize(r: Pending, now: int, cached: set<u32>)
    ensures |Visited(r, now, cached)| <= 1
  {
  }

  lemma NothingSwept(q: seq<Pending>, clock: nat -> int, cached: set<u32>)
    ensures Swept(q, 0, clock, cached) == [] && SweepActions(q, 0, clock, cached) == []
  {
  }

  lemma SweptStep(q: seq<Pending>, i: nat, clock: nat -> int, cached: set<u32>)
    requires i < |q|
    ensures Swept(q, i + 1, clock, cached) == Swept(q, i, clock, cached) + Visited(q[i], clock(i), cached)
    ensures SweepActions(q, i + 1, clock, cached) ==
      SweepActions(q, i, clock, cached) + VisitActions(q[i], clock(i), cached)
  {
  }

  lemma PushedInv(q: seq<Pending>, ip: u32)
    requires Inv(q) && !IsPending(q, ip)
    ensures Inv([Pending(ip, 0, 0, [])] + q)
  {
  }

  lemma TimesBound(q: seq<Pending>, k: nat)
    requires Inv(q) && k < |q|
    ensures q[k].times <= MAX_ASKS
  {
  }

  lemma FoundAt(q: seq<Pending>, ip: u32, k: nat)
    requires k <= |q| && (k < |q| ==> q[k].ip == ip) && forall j :: 0 <= j < k ==> q[j].ip != ip
    ensures Find(q, ip) == k
  {
  }
}
