/** The doubly linked list of ctcp_linked_list.c, kept in step with a sequence of nodes and one of objects. */
module LinkedLists {
  class Node {
    var next: Node?
    var prev: Node?
    var obj: object

    constructor (obj: object)
      ensures next == null && prev == null && this.obj == obj
    {
      next, prev, this.obj := null, null, obj;
    }
  }

  class LinkedList {
    var head: Node?
    var tail: Node?
    var length: nat
    ghost var nodes: seq<Node>
    ghost var objs: seq<object>

    /** `prev` and `next` are mutually inverse along `nodes`, and head, tail, length and contents agree with it. */
    ghost predicate Valid()
      reads this, nodes
    {
      && |nodes| == |objs| == length
      && Distinct(nodes)
      && Linked(nodes)
      && Holding(nodes, objs)
      && head == Nth(nodes, 0)
      && tail == Nth(nodes, |nodes| - 1)
    }

    static ghost predicate Distinct(s: seq<Node>)
    {
      forall i, j :: 0 <= i < j < |s| ==> s[i] != s[j]
    }

    static ghost predicate Holding(s: seq<Node>, o: seq<object>)
      requires |s| == |o|
      reads s
    {
      forall i {:trigger s[i].obj} {:trigger o[i]} :: 0 <= i < |s| ==> s[i].obj == o[i]
    }

    static ghost predicate Linked(s: seq<Node>)
      reads s
    {
      && (forall i {:trigger s[i].next} :: 0 <= i < |s| ==> s[i].next == Nth(s, i + 1))
      && (forall i {:trigger s[i].prev} :: 0 <= i < |s| ==> s[i].prev == Nth(s, i - 1))
    }

    /** The node at a position, null outside the list. */
    static ghost function Nth(s: seq<Node>, i: int): Node? { if 0 <= i < |s| then s[i] else null }

    constructor Create()
      ensures Valid() && nodes == [] && objs == []
    {
      head, tail, length, nodes, objs := null, null, 0, [], [];
    }

    method Add(obj: object?) returns (node: Node?)
      requires Valid()
      modifies this, nodes
      ensures obj == null ==> node == null && unchanged(this) && unchanged(nodes)
      ensures obj != null ==>
        && Valid() && node != null && fresh(node)
        && nodes == old(nodes) + [node] && objs == old(objs) + [obj]
    {
      if obj == null {
        return null;
      }
      var n := new Node(obj);
      if head == null {
        head := n;
        tail := n;
      } else {
        tail.next := n;
        n.prev := tail;
        tail := n;
      }
      length := length + 1;
      nodes, objs := nodes + [n], objs + [obj];
      return n;
    }

    method AddFront(obj: object?) returns (node: Node?)
      requires Valid()
      modifies this, nodes
      ensures obj == null ==> node == null && unchanged(this) && unchanged(nodes)
      ensures obj != null ==>
        && Valid() && node != null && fresh(node)
        && nodes == [node] + old(nodes) && objs == [obj] + old(objs)
    {
      if obj == null {
        return null;
      }
      var n := new Node(obj);
      PushIn(n);
      WithFront(nodes, objs, n);
      length := length + 1;
      nodes, objs := [n] + nodes, [obj] + objs;
      return n;
    }

    /** The pointer updates of ll_add_front. */
    method PushIn(n: Node)
      requires Valid() && n !in nodes && n.next == null && n.prev == null
      modifies this`head, this`tail, nodes, n
      ensures n.prev == null && n.next == Nth(nodes, 0) && n.obj == old(n.obj) && Holding(nodes, objs)
      ensures forall i {:trigger nodes[i].next} :: 0 <= i < |nodes| ==> nodes[i].next == Nth(nodes, i + 1)
      ensures forall i {:trigger nodes[i].prev} :: 0 <= i < |nodes| ==>
        nodes[i].prev == if i == 0 then n else nodes[i - 1]
      ensures head == n && tail == if nodes == [] then n else old(tail)
    {
      if head == null {
        head := n;
        tail := n;
      } else {
        n.next := head;
        head.prev := n;
        head := n;
      }
    }

    static lemma WithFront(s: seq<Node>, o: seq<object>, n: Node)
      requires |s| == |o| && Distinct(s) && n !in s && Holding(s, o) && n.prev == null && n.next == Nth(s, 0)
      requires forall i {:trigger s[i].next} :: 0 <= i < |s| ==> s[i].next == Nth(s, i + 1)
      requires forall i {:trigger s[i].prev} :: 0 <= i < |s| ==> s[i].prev == if i == 0 then n else s[i - 1]
      ensures Distinct([n] + s) && Linked([n] + s) && Holding([n] + s, [n.obj] + o)
    {
      var r := [n] + s;
      forall i | 0 <= i < |r|
        ensures r[i].next == Nth(r, i + 1) && r[i].prev == Nth(r, i - 1)
      {
        assert i == 0 || r[i] == s[i - 1];
      }
    }

    /** `k` is the position of `at`: the caller holds a pointer into this list. */
    method AddAfter(at: Node?, obj: object?, ghost k: nat) returns (node: Node?)
      requires Valid()
      requires at != null ==> k < |nodes| && nodes[k] == at
      modifies this, nodes
      ensures at == null || obj == null ==>
        node == null && unchanged(this) && unchanged(nodes)
      ensures at != null && obj != null ==>
        && Valid() && node != null && fresh(node) && node.obj == obj
        && nodes == old(nodes[..k + 1]) + [node] + old(nodes[k + 1..])
        && objs == old(objs[..k + 1]) + [node.obj] + old(objs[k + 1..])
    {
      hide Distinct;
      hide Linked;
      hide Holding;
      hide Spliced;
      if at == null || obj == null {
        return null;
      }
      var n := new Node(obj);
      SpliceIn(at, n, k);
      With(nodes, objs, k, n, nodes[..k + 1] + [n] + nodes[k + 1..]);
      length := length + 1;
      nodes, objs := nodes[..k + 1] + [n] + nodes[k + 1..], objs[..k + 1] + [n.obj] + objs[k + 1..];
      return n;
    }

    /** The pointer updates of ll_add_after. */
    method SpliceIn(at: Node, n: Node, ghost k: nat)
      requires Valid() && k < |nodes| && nodes[k] == at && n !in nodes
      modifies this`tail, nodes, n
      ensures Spliced(nodes, k, n) && Holding(nodes, objs) && n.obj == old(n.obj)
      ensures tail == if k + 1 == |nodes| then n else old(tail)
    {
      n.prev := at;
      n.next := at.next;
      if at.next != null {
        at.next.prev := n;
      }
      at.next := n;
      if at == tail {
        tail := n;
      }
    }

    /** The pointer work of an insertion: node k and its old successor now point at `n`. */
    static ghost predicate Spliced(s: seq<Node>, k: nat, n: Node)
      requires k < |s|
      reads s, n
    {
      && n !in s && n.prev == s[k] && n.next == Nth(s, k + 1)
      && (forall i {:trigger s[i].next} :: 0 <= i < |s| ==> s[i].next == if i == k then n else Nth(s, i + 1))
      && (forall i {:trigger s[i].prev} :: 0 <= i < |s| ==> s[i].prev == if i == k + 1 then n else Nth(s, i - 1))
    }

    static lemma With(s: seq<Node>, o: seq<object>, k: nat, n: Node, r: seq<Node>)
      requires k < |s| == |o| && Spliced(s, k, n) && Distinct(s) && Holding(s, o) && r == s[..k + 1] + [n] + s[k + 1..]
      ensures Distinct(r) && Linked(r) && Holding(r, o[..k + 1] + [n.obj] + o[k + 1..])
      ensures Nth(r, 0) == Nth(s, 0) && Nth(r, |r| - 1) == if k + 1 == |s| then n else Nth(s, |s| - 1)
    {
      DistinctWith(s, k, n, r);
      hide Distinct;
      forall i | 0 <= i < |r|
        ensures r[i].next == Nth(r, i + 1) && r[i].prev == Nth(r, i - 1)
      {
        assert i == k + 1 || r[i] == s[if i <= k then i else i - 1];
      }
    }

    static lemma DistinctWith(s: seq<Node>, k: nat, n: Node, r: seq<Node>)
      requires k < |s| && n !in s && Distinct(s) && r == s[..k + 1] + [n] + s[k + 1..]
      ensures Distinct(r)
    {
    }

    method Remove(node: Node?, ghost k: nat) returns (obj: object?)
      requires Valid()
      requires node != null ==> k < |nodes| && nodes[k] == node
      modifies this, nodes
      ensures node == null ==> obj == null && unchanged(this) && unchanged(nodes)
      ensures node != null ==>
        && Valid() && obj == old(objs[k])
        && nodes == old(nodes[..k]) + old(nodes[k + 1..])
        && objs == old(objs[..k]) + old(objs[k + 1..])
    {
      if node == null {
        return null;
      }
      obj := node.obj;
      if node == head {
        head := node.next;
      } else {
        node.prev.next := node.next;
      }
      if node == tail {
        tail := node.prev;
      } else {
        node.next.prev := node.prev;
      }
      length := length - 1;
      ghost var was, held := nodes, objs;
      nodes, objs := was[..k] + was[k + 1..], held[..k] + held[k + 1..];
      assert Bypassed(was, k);
      Without(was, held, k, nodes);
    }

    /** The pointer work of a removal: node k's neighbours now point past it. */
    static ghost predicate Bypassed(s: seq<Node>, k: nat)
      requires k < |s|
      reads s
    {
      && (forall i {:trigger s[i].next} :: 0 <= i < |s| && i != k ==>
            s[i].next == Nth(s, if i + 1 == k then k + 1 else i + 1))
      && (forall i {:trigger s[i].prev} :: 0 <= i < |s| && i != k ==>
            s[i].prev == Nth(s, if i - 1 == k then k - 1 else i - 1))
    }

    static lemma Without(s: seq<Node>, o: seq<object>, k: nat, r: seq<Node>)
      requires k < |s| == |o| && Bypassed(s, k) && Distinct(s) && Holding(s, o) && r == s[..k] + s[k + 1..]
      ensures Distinct(r) && Linked(r) && Holding(r, o[..k] + o[k + 1..])
      ensures k == 0 ==> Nth(r, 0) == Nth(s, 1)
      ensures k > 0 ==> Nth(r, 0) == Nth(s, 0)
      ensures Nth(r, |r| - 1) == if k + 1 == |s| then Nth(s, k - 1) else Nth(s, |s| - 1)
    {
      DistinctWithout(s, k, r);
      hide Distinct;
      forall i | 0 <= i < |r|
        ensures r[i].next == Nth(r, i + 1) && r[i].prev == Nth(r, i - 1)
      {
        assert r[i] == s[if i < k then i else i + 1];
      }
    }

    static lemma DistinctWithout(s: seq<Node>, k: nat, r: seq<Node>)
      requires k < |s| && Distinct(s) && r == s[..k] + s[k + 1..]
      ensures Distinct(r)
    {
    }

    /** The first node holding the object; `k` is its position, the length if there is none. */
    method Find(obj: object?) returns (node: Node?, ghost k: nat)
      requires Valid()
      ensures obj == null ==> node == null
      ensures obj != null ==>
        && k <= |nodes| && node == Nth(nodes, k) && obj !in objs[..k]
        && (k < |nodes| ==> objs[k] == obj)
    {
      k := 0;
      if obj == null {
        return null, 0;
      }
      var curr := head;
      while curr != null
        invariant k <= |nodes| && curr == Nth(nodes, k)
        invariant obj !in objs[..k]
        decreases |nodes| - k
      {
        if curr.obj == obj {
          return curr, k;
        }
        curr := curr.next;
        k := k + 1;
      }
      return null, k;
    }

    method Front() returns (node: Node?)
      requires Valid()
      ensures node == Nth(nodes, 0)
    {
      node := head;
    }

    method Back() returns (node: Node?)
      requires Valid()
      ensures node == Nth(nodes, |nodes| - 1)
    {
      node := tail;
    }

    method Length() returns (n: nat)
      requires Valid()
      ensures n == |objs|
    {
      n := length;
    }

    lemma Only()
      requires Valid() && |objs| <= 1
      ensures |nodes| == |objs| && (objs != [] ==> nodes == [nodes[0]] && nodes[0].obj == objs[0] && nodes[0].next == null)
    {
    }

    /** A list none of whose parts has changed is as good as before. */
    twostate lemma Untouched()
      requires old(Valid()) && unchanged(this) && forall i :: 0 <= i < |nodes| ==> unchanged(nodes[i])
      ensures Valid()
    {
    }
  }
}
