/** longestprefixmatch of sr_router.c, over masks compared as raw network-order words. */
module Routing {
  import opened Bytes

  type address = bv32
  type prefix = n: bv32 | n <= 32

  /** The netmask of a prefix length, as the number its bytes encode. */
  function Mask(n: prefix): address { (0xFFFF_FFFF as bv32) << (32 - n) }

  /** The same bytes as a host reads them from s_addr. */
  function Raw(host: Host, a: address): address
  {
    if host.BigEndian? then a else Reversed(a)
  }

  function Reversed(a: address): address
  {
    (a << 24) | ((a & 0xFF00) << 8) | ((a >> 8) & 0xFF00) | (a >> 24)
  }

  /** Section 5.2.4.3 of RFC 1812: the leading bits agree. */
  predicate Agree(a: address, b: address, n: prefix)
  {
    Leading(a, n) == Leading(b, n)
  }

  function Leading(a: address, n: prefix): address { a >> (32 - n) }

  /** Raw contiguous masks are ordered as their prefix lengths are, in either byte order. */
  lemma MaskOrder(host: Host, m: prefix, n: prefix)
    ensures Above(Raw(host, Mask(m)), Raw(host, Mask(n))) <==> m > n
  {
    hide Above;
    hide Mask;
    hide Reversed;
    MaskOrderAsIs(m, n);
    MaskOrderReversed(m, n);
  }

  lemma MaskOrderAsIs(m: prefix, n: prefix)
    ensures Above(Mask(m), Mask(n)) <==> m > n
  {
  }

  lemma MaskOrderReversed(m: prefix, n: prefix)
    ensures Above(Reversed(Mask(m)), Reversed(Mask(n))) <==> m > n
  {
  }

  predicate Above(a: address, b: address) { a as int > b as int }

  function And(a: address, b: address): address { a & b }

  /** Masking and comparing raw words compares the leading bits. */
  lemma MaskedEqualIff(host: Host, a: address, b: address, n: prefix)
    ensures And(Raw(host, Mask(n)), Raw(host, a)) == And(Raw(host, Mask(n)), Raw(host, b)) <==> Agree(a, b, n)
  {
    hide Mask;
    hide Raw;
    hide And;
    hide Agree;
    RawAnd(host, Mask(n), a);
    RawAnd(host, Mask(n), b);
    RawInjective(host, And(Mask(n), a), And(Mask(n), b));
    MaskKeeps(a, b, n);
  }

  lemma RawAnd(host: Host, m: address, a: address)
    ensures And(Raw(host, m), Raw(host, a)) == Raw(host, And(m, a))
  {
    hide Reversed;
    hide And;
    ReversedAnd(m, a);
  }

  lemma ReversedAnd(m: address, a: address)
    ensures And(Reversed(m), Reversed(a)) == Reversed(And(m, a))
  {
  }

  lemma RawInjective(host: Host, a: address, b: address)
    ensures Raw(host, a) == Raw(host, b) <==> a == b
  {
    hide Reversed;
    ReversedTwice(a);
    ReversedTwice(b);
  }

  lemma ReversedTwice(a: address)
    ensures Reversed(Reversed(a)) == a
  {
  }

  lemma MaskKeeps(a: address, b: address, n: prefix)
    ensures And(Mask(n), a) == And(Mask(n), b) <==> Agree(a, b, n)
  {
    hide And;
    hide Mask;
    hide Leading;
    hide Spread;
    MaskIsLeading(a, n);
    MaskIsLeading(b, n);
  }

  function Spread(l: address, n: prefix): address { l << (32 - n) }

  lemma MaskIsLeading(a: address, n: prefix)
    ensures And(Mask(n), a) == Spread(Leading(a, n), n)
    ensures Leading(And(Mask(n), a), n) == Leading(a, n)
  {
  }

  /** A row as the table holds it: destination and mask are raw words, and the mask may be any word. */
  datatype Row = Row(dest: address, mask: address)

  predicate Hits(row: Row, target: address) { And(row.mask, row.dest) == And(row.mask, target) }

  /** Among the first n rows, k is the first of those that match with the largest mask word; k is the table's length if
      none matches. */
  ghost predicate IsChosen(rows: seq<Row>, target: address, n: nat, k: nat)
    requires n <= |rows|
  {
    if k < n then
      && Hits(rows[k], target)
      && (forall i :: 0 <= i < k && Hits(rows[i], target) ==> Above(rows[k].mask, rows[i].mask))
      && (forall i :: k < i < n && Hits(rows[i], target) ==> !Above(rows[i].mask, rows[k].mask))
    else
      k == |rows| && forall i :: 0 <= i < n ==> !Hits(rows[i], target)
  }

  lemma ChosenOneMore(rows: seq<Row>, target: address, n: nat, k: nat)
    requires n < |rows| && IsChosen(rows, target, n, k)
    ensures k < n || k == |rows|
    ensures IsChosen(rows, target, n + 1,
      if Hits(rows[n], target) && (k >= n || Above(rows[n].mask, rows[k].mask)) then n else k)
  {
    hide And;
    hide Above;
    if k < n {
      forall i | 0 <= i < n
        ensures Above(rows[n].mask, rows[k].mask) && !Above(rows[i].mask, rows[k].mask) ==>
          Above(rows[n].mask, rows[i].mask)
        ensures Above(rows[n].mask, rows[k].mask) && Above(rows[k].mask, rows[i].mask) ==>
          Above(rows[n].mask, rows[i].mask)
      {
        AboveChains(rows[n].mask, rows[k].mask, rows[i].mask);
      }
    }
  }

  lemma AboveChains(a: address, b: address, c: address)
    ensures Above(a, b) && !Above(c, b) ==> Above(a, c)
    ensures Above(a, b) && Above(b, c) ==> Above(a, c)
  {
  }

  /** A route: a destination and the length of its prefix. */
  datatype Route = Route(dest: address, length: prefix)

  function RowOf(host: Host, r: Route): Row { Row(Raw(host, r.dest), Raw(host, Mask(r.length))) }

  predicate Matches(r: Route, target: address) { Agree(r.dest, target, r.length) }

  /** k is the first of the matching routes with the longest prefix; it is the table's length if none matches. */
  ghost predicate IsBest(routes: seq<Route>, target: address, k: nat)
  {
    if k < |routes| then
      && Matches(routes[k], target)
      && (forall i :: 0 <= i < k && Matches(routes[i], target) ==> routes[i].length < routes[k].length)
      && (forall i :: k < i < |routes| && Matches(routes[i], target) ==> routes[i].length <= routes[k].length)
    else
      k == |routes| && forall i :: 0 <= i < |routes| ==> !Matches(routes[i], target)
  }

  /** Working on raw words, the router finds the longest prefix, on either kind of host. */
  lemma ChosenIsBest(host: Host, routes: seq<Route>, rows: seq<Row>, target: address, k: nat)
    requires |rows| == |routes| && forall i :: 0 <= i < |rows| ==> rows[i] == RowOf(host, routes[i])
    ensures IsChosen(rows, Raw(host, target), |rows|, k) <==> IsBest(routes, target, k)
  {
    hide And;
    hide Above;
    hide Raw;
    hide Mask;
    hide Agree;
    forall i | 0 <= i < |rows|
      ensures Hits(rows[i], Raw(host, target)) <==> Matches(routes[i], target)
    {
      MaskedEqualIff(host, routes[i].dest, target, routes[i].length);
    }
    forall i, j | 0 <= i < |rows| && 0 <= j < |rows|
      ensures Above(rows[i].mask, rows[j].mask) <==> routes[i].length > routes[j].length
    {
      MaskOrder(host, routes[i].length, routes[j].length);
    }
  }

  /** There is one best route, or none. */
  lemma BestUnique(routes: seq<Route>, target: address, j: nat, k: nat)
    requires IsBest(routes, target, j) && IsBest(routes, target, k)
    ensures j == k
  {
    hide Agree;
  }

  /** struct sr_rt. */
  class Entry {
    const row: Row
    var next: Entry?

    constructor (row: Row, next: Entry?)
      ensures this.row == row && this.next == next
    {
      this.row, this.next := row, next;
    }
  }

  /** The list of entries that starts at `head`. */
  ghost predicate Chain(head: Entry?, entries: seq<Entry>)
    reads entries
  {
    if head == null then entries == []
    else |entries| > 0 && entries[0] == head && Chain(head.next, entries[1..])
  }

  ghost function Rows(entries: seq<Entry>): (rows: seq<Row>)
    ensures |rows| == |entries|
  {
    seq(|entries|, i requires 0 <= i < |entries| => entries[i].row)
  }

  ghost function Nth(entries: seq<Entry>, i: nat): Entry? { if i < |entries| then entries[i] else null }

  /** The entries of the table, in the memory of a host, of these routes. */
  ghost predicate TableOf(host: Host, routes: seq<Route>, entries: seq<Entry>)
  {
    |routes| == |entries| && forall i :: 0 <= i < |entries| ==> entries[i].row == RowOf(host, routes[i])
  }

  lemma HopIsBest(host: Host, routes: seq<Route>, entries: seq<Entry>, target: address, k: nat)
    requires TableOf(host, routes, entries) && IsChosen(Rows(entries), Raw(host, target), |entries|, k)
    ensures IsBest(routes, target, k)
  {
    hide IsBest;
    hide IsChosen;
    hide Raw;
    hide RowOf;
    ChosenIsBest(host, routes, Rows(entries), target, k);
  }

  /** longestprefixmatch: for any masks, and in particular for a table of routes. */
  method LongestPrefixMatch(table: Entry?, target: address, ghost entries: seq<Entry>) returns (hop: Entry?)
    requires Chain(table, entries)
    ensures exists k: nat :: IsChosen(Rows(entries), target, |entries|, k) && hop == Nth(entries, k)
    ensures forall host, routes, address | TableOf(host, routes, entries) && target == Raw(host, address) ::
      exists k: nat :: IsBest(routes, address, k) && hop == Nth(entries, k)
  {
    hide And;
    hide Above;
    hide Raw;
    hide RowOf;
    hide IsBest;
    var next, longest: address := table, 0;
    hop := null;
    ghost var i: nat, k: nat := 0, |entries|;
    ghost var rows := Rows(entries);
    while next != null
      invariant i <= |entries| && Chain(next, entries[i..])
      invariant k <= |entries| && hop == Nth(entries, k)
      invariant k < |entries| ==> longest == rows[k].mask
      invariant IsChosen(rows, target, i, k)
      decreases |entries| - i
    {
      var mask := next.row.mask;
      ChosenOneMore(rows, target, i, k);
      assert next == entries[i] && next.row == rows[i];
      if And(mask, next.row.dest) == And(mask, target) {
        if hop == null || Above(mask, longest) {
          hop, longest, k := next, mask, i;
        }
      }
      assert entries[i..][1..] == entries[i + 1..];
      next, i := next.next, i + 1;
    }
    forall host, routes, address | TableOf(host, routes, entries) && target == Raw(host, address)
      ensures IsBest(routes, address, k)
    {
      HopIsBest(host, routes, entries, address, k);
    }
  }
}
