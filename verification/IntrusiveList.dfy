/** The intrusive doubly linked list (kernel/lib/list/container.hpp), with and without a tail pointer.  A list
    refines the sequence of its nodes: the pointers are rewired in place and the ghost sequence says what the
    rewiring means. */
module IntrusiveList {
  class Node {
    var next: Node?
    var prev: Node?

    constructor ()
      ensures next == null && prev == null
    {
      next, prev := null, null;
    }
  }

  ghost predicate Distinct(s: seq<Node>) {
    forall i, j :: 0 <= i < j < |s| ==> s[i] != s[j]
  }

  /** Neighbours point at each other; nothing is said about the two ends. */
  ghost predicate Chain(s: seq<Node>)
    reads s
  {
    forall i, j :: 0 <= i && i + 1 == j < |s| ==> s[i].next == s[j] && s[j].prev == s[i]
  }

  ghost predicate Closed(s: seq<Node>)
    reads s
  {
    Distinct(s) && Chain(s) && (s != [] ==> s[0].prev == null && s[|s| - 1].next == null)
  }

  ghost predicate Apart(a: seq<Node>, b: seq<Node>) {
    forall i, j :: 0 <= i < |a| && 0 <= j < |b| ==> a[i] != b[j]
  }

  lemma ApartJoin(a: seq<Node>, b: seq<Node>, c: seq<Node>)
    ensures Apart(a + b, c) <==> Apart(a, c) && Apart(b, c)
    ensures Apart(c, a + b) <==> Apart(c, a) && Apart(c, b)
  {
    assert forall i :: 0 <= i < |a| ==> (a + b)[i] == a[i];
    assert forall i :: 0 <= i < |b| ==> (a + b)[|a| + i] == b[i];
  }

  lemma Slices(s: seq<Node>, k: int)
    requires 0 <= k <= |s| && Distinct(s) && Chain(s)
    ensures Distinct(s[..k]) && Distinct(s[k..]) && Apart(s[..k], s[k..])
    ensures Chain(s[..k]) && Chain(s[k..])
    ensures 0 < k < |s| ==> s[k].prev == s[k - 1] && s[k - 1].next == s[k]
  {
  }

  /** Three chains, the middle one linked in between the others. */
  ghost predicate LinkedIn(a: seq<Node>, segment: seq<Node>, b: seq<Node>)
    requires segment != []
    reads a, segment, b
  {
    && segment[0].prev == (if a == [] then null else a[|a| - 1])
    && segment[|segment| - 1].next == (if b == [] then null else b[0])
    && (a != [] ==> a[0].prev == null && a[|a| - 1].next == segment[0])
    && (b != [] ==> b[0].prev == segment[|segment| - 1] && b[|b| - 1].next == null)
    && Chain(a) && Chain(segment) && Chain(b)
  }

  ghost predicate Disjoint3(a: seq<Node>, segment: seq<Node>, b: seq<Node>) {
    Distinct(a) && Distinct(segment) && Distinct(b) && Apart(a, segment) && Apart(a, b) && Apart(segment, b)
  }

  lemma LinkedInCloses(a: seq<Node>, segment: seq<Node>, b: seq<Node>)
    requires segment != [] && LinkedIn(a, segment, b) && Disjoint3(a, segment, b)
    ensures Closed(a + segment + b)
  {
  }

  lemma SplitParts(s: seq<Node>, l: int, r: int)
    requires 0 <= l < r <= |s| && Distinct(s)
    ensures Disjoint3(s[..l], s[l..r], s[r..])
  {
  }

  lemma SplitChains(s: seq<Node>, l: int, r: int)
    requires 0 <= l < r <= |s| && Chain(s)
    ensures Chain(s[..l]) && Chain(s[l..r]) && Chain(s[r..])
    ensures 0 < l ==> s[l].prev == s[l - 1] && s[l - 1].next == s[l]
    ensures r < |s| ==> s[r].prev == s[r - 1] && s[r - 1].next == s[r]
  {
  }

  lemma JoinEnds(a: seq<Node>, segment: seq<Node>, b: seq<Node>)
    requires segment != []
    ensures var s := a + segment + b;
            && s != [] && s[0] == (if a == [] then segment[0] else a[0])
            && s[|s| - 1] == if b == [] then segment[|segment| - 1] else b[|b| - 1]
  {
  }

  lemma Thirds(s: seq<Node>, l: int, r: int)
    requires 0 <= l <= r <= |s|
    ensures s == s[..l] + s[l..r] + s[r..]
  {
  }

  lemma SplitLinks(s: seq<Node>, l: int, r: int)
    requires 0 <= l < r <= |s| && s[0].prev == null && s[|s| - 1].next == null
    requires Chain(s[..l]) && Chain(s[l..r]) && Chain(s[r..])
    requires 0 < l ==> s[l].prev == s[l - 1] && s[l - 1].next == s[l]
    requires r < |s| ==> s[r].prev == s[r - 1] && s[r - 1].next == s[r]
    ensures LinkedIn(s[..l], s[l..r], s[r..])
  {
    hide Chain;
    var a, segment, b := s[..l], s[l..r], s[r..];
    assert segment[0] == s[l] && segment[|segment| - 1] == s[r - 1];
    assert l > 0 ==> a[0] == s[0] && a[|a| - 1] == s[l - 1];
    assert r < |s| ==> b[0] == s[r] && b[|b| - 1] == s[|s| - 1];
  }

  lemma Split(s: seq<Node>, l: int, r: int)
    requires 0 <= l < r <= |s| && Closed(s)
    ensures var a, segment, b := s[..l], s[l..r], s[r..];
            s == a + segment + b && Disjoint3(a, segment, b) && LinkedIn(a, segment, b)
  {
    hide Distinct, Chain, Disjoint3, LinkedIn;
    SplitParts(s, l, r);
    SplitChains(s, l, r);
    Thirds(s, l, r);
    SplitLinks(s, l, r);
  }

  lemma Disjoint2(a: seq<Node>, segment: seq<Node>, b: seq<Node>)
    requires Disjoint3(a, segment, b)
    ensures Distinct(a) && Distinct(b) && Apart(a, b)
  {
  }

  lemma OutCloses(a: seq<Node>, b: seq<Node>)
    requires Distinct(a) && Distinct(b) && Apart(a, b) && Chain(a) && Chain(b)
    requires a != [] ==> a[0].prev == null && a[|a| - 1].next == (if b == [] then null else b[0])
    requires b != [] ==> b[|b| - 1].next == null && b[0].prev == (if a == [] then null else a[|a| - 1])
    ensures Closed(a + b)
  {
  }

  lemma ApartSwap(a: seq<Node>, b: seq<Node>)
    requires Apart(a, b)
    ensures Apart(b, a)
  {
  }

  class List {
    const withTail: bool
    var head: Node?
    var tail: Node?
    ghost var nodes: seq<Node>

    ghost predicate Ends()
      reads this
    {
      && head == (if nodes == [] then null else nodes[0])
      && (withTail ==> tail == if nodes == [] then null else nodes[|nodes| - 1])
    }

    ghost predicate Valid()
      reads this, nodes
    {
      Closed(nodes) && Ends()
    }

    constructor (withTail: bool)
      ensures Valid() && nodes == [] && this.withTail == withTail
    {
      this.withTail := withTail;
      head, tail, nodes := null, null, [];
    }

    predicate Empty()
      reads this
    {
      head == null
    }

    /** Links the chain from..to in before pos, which is the k-th node, or the end. */
    method InsertInclusive(pos: Node?, from: Node, to: Node, ghost k: nat, ghost segment: seq<Node>)
      requires Valid() && k <= |nodes| && pos == (if k < |nodes| then nodes[k] else null)
      requires withTail || nodes == [] || pos != null
      requires segment != [] && segment[0] == from && segment[|segment| - 1] == to
      requires Distinct(segment) && Chain(segment) && Apart(nodes, segment)
      modifies this, nodes, segment
      ensures Valid() && nodes == old(nodes)[..k] + segment + old(nodes)[k..]
    {
      hide Distinct, Apart, Chain, LinkedIn;
      ghost var a, b := nodes[..k], nodes[k..];
      Slices(nodes, k);
      assert nodes == a + b;
      ApartJoin(a, b, segment);
      ApartSwap(b, segment);
      Place(pos, from, to, a, b, segment);
    }

    method Place(pos: Node?, from: Node, to: Node, ghost a: seq<Node>, ghost b: seq<Node>, ghost segment: seq<Node>)
      requires nodes == a + b && Ends() && pos == (if b == [] then null else b[0])
      requires withTail || nodes == [] || pos != null
      requires segment != [] && segment[0] == from && segment[|segment| - 1] == to && Disjoint3(a, segment, b)
      requires Chain(a) && Chain(segment) && Chain(b)
      requires a != [] ==> a[0].prev == null
      requires b != [] ==> b[|b| - 1].next == null && b[0].prev == (if a == [] then null else a[|a| - 1])
      modifies this, a, b, segment
      ensures Valid() && nodes == a + segment + b
    {
      hide Distinct, Apart, Chain, LinkedIn, Disjoint3, Closed;
      assert (a != [] ==> nodes[0] == a[0]) && (b != [] ==> nodes[|nodes| - 1] == b[|b| - 1]);
      Rewire(pos, from, to, a, b, segment);
      LinkedInCloses(a, segment, b);
      JoinEnds(a, segment, b);
      nodes := a + segment + b;
    }

    method Rewire(pos: Node?, from: Node, to: Node, ghost a: seq<Node>, ghost b: seq<Node>, ghost segment: seq<Node>)
      requires nodes == a + b && Ends() && pos == (if b == [] then null else b[0])
      requires withTail || nodes == [] || pos != null
      requires segment != [] && segment[0] == from && segment[|segment| - 1] == to && Disjoint3(a, segment, b)
      requires Chain(a) && Chain(segment) && Chain(b)
      requires a != [] ==> a[0].prev == null
      requires b != [] ==> b[|b| - 1].next == null && b[0].prev == (if a == [] then null else a[|a| - 1])
      modifies this, a, b, segment
      ensures nodes == old(nodes) && LinkedIn(a, segment, b)
      ensures head == (if a == [] then from else old(head)) && (withTail ==> tail == if b == [] then to else old(tail))
    {
      if Empty() {
        from.prev := null;
        to.next := null;
        head := from;
        tail := to;
      } else if pos == null {
        from.prev := tail;
        to.next := null;
        tail.next := from;
        tail := to;
      } else if pos.prev == null {
        from.prev := null;
        to.next := head;
        head.prev := to;
        head := from;
      } else {
        from.prev := pos.prev;
        to.next := pos;
        pos.prev.next := from;
        pos.prev := to;
      }
    }

    /** Unlinks the chain from..to, the nodes l to r; a null `to` means up to the end.  The chain comes out
        closed at both ends. */
    method ExtractInclusive(from: Node?, to: Node?, ghost l: nat, ghost r: nat)
      requires Valid() && l <= r <= |nodes|
      requires if l == r then nodes == [] && from == null && to == null
               else from == nodes[l] && (to == nodes[r - 1] || (to == null && r == |nodes|))
      modifies this, nodes
      ensures Valid() && nodes == old(nodes)[..l] + old(nodes)[r..] && Closed(old(nodes)[l..r])
    {
      hide Distinct, Apart, Chain, LinkedIn, Disjoint3, Closed;
      if from == null {   // popping an empty list
        Clear();
        return;
      }
      ghost var a, segment, b := nodes[..l], nodes[l..r], nodes[r..];
      Split(nodes, l, r);
      Unlink(from, to, a, b, segment);
      Disjoint2(a, segment, b);
      OutCloses(a, b);
    }

    method Clear()
      modifies this
      ensures head == null && (withTail ==> tail == null) && nodes == []
    {
      head := null;
      tail := null;
      nodes := [];
    }

    method Unlink(from: Node?, to: Node?, ghost a: seq<Node>, ghost b: seq<Node>, ghost segment: seq<Node>)
      requires nodes == a + segment + b && Ends() && segment != [] && Disjoint3(a, segment, b)
      requires from == segment[0] && (to == segment[|segment| - 1] || (to == null && b == []))
      requires LinkedIn(a, segment, b)
      modifies this, a, b, segment
      ensures nodes == a + b && Chain(a) && Chain(b) && Closed(segment)
      ensures a != [] ==> a[0].prev == null && a[|a| - 1].next == (if b == [] then null else b[0])
      ensures b != [] ==> b[|b| - 1].next == null && b[0].prev == (if a == [] then null else a[|a| - 1])
      ensures head == (if a != [] then a[0] else if b != [] then b[0] else null)
      ensures withTail ==> tail == if b != [] then b[|b| - 1] else if a != [] then a[|a| - 1] else null
    {
      if head == from {
        if to == null || to.next == null {
          Clear();
        } else {
          head := to.next;
          to.next := null;
          head.prev := null;
        }
      } else {
        if to == null || to.next == null {
          tail := from.prev;
          tail.next := null;
          from.prev := null;
        } else {
          from.prev.next := to.next;
          to.next.prev := from.prev;
          from.prev := null;
          to.next := null;
        }
      }
      nodes := a + b;
    }

    method PushFront(item: Node)
      requires Valid() && item !in nodes
      modifies this, nodes, item
      ensures Valid() && nodes == [item] + old(nodes)
    {
      InsertInclusive(head, item, item, 0, [item]);
    }

    method PushBack(item: Node)
      requires Valid() && withTail && item !in nodes
      modifies this, nodes, item
      ensures Valid() && nodes == old(nodes) + [item]
    {
      InsertInclusive(null, item, item, |nodes|, [item]);
    }

    method PopFront()
      requires Valid()
      modifies this, nodes
      ensures Valid() && nodes == if old(nodes) == [] then [] else old(nodes)[1..]
      ensures old(nodes) != [] ==> Closed([old(nodes)[0]])
    {
      ghost var n := if nodes == [] then 0 else 1;
      ExtractInclusive(head, head, 0, n);
      assert n == 1 ==> old(nodes)[0..1] == [old(nodes)[0]];
    }

    method PopBack()
      requires Valid() && withTail
      modifies this, nodes
      ensures Valid() && nodes == if old(nodes) == [] then [] else old(nodes)[..|old(nodes)| - 1]
    {
      ghost var n := |nodes|;
      ExtractInclusive(tail, tail, if n == 0 then 0 else n - 1, n);
    }

    /** Returns the node that followed. */
    method Erase(pos: Node, ghost k: nat) returns (next: Node?)
      requires Valid() && k < |nodes| && pos == nodes[k]
      modifies this, nodes
      ensures Valid() && nodes == old(nodes)[..k] + old(nodes)[k + 1..] && Closed([pos])
      ensures next == if k < |nodes| then nodes[k] else null
    {
      next := pos.next;
      ExtractInclusive(pos, pos, k, k + 1);
      assert old(nodes)[k..k + 1] == [pos];
    }

    /** Erases the nodes from `from` up to, not including, `to`. */
    method EraseRange(from: Node?, to: Node?, ghost l: nat, ghost r: nat)
      requires Valid() && l <= r <= |nodes|
      requires from == (if l < |nodes| then nodes[l] else null) && to == if r < |nodes| then nodes[r] else null
      modifies this, nodes
      ensures Valid() && nodes == old(nodes)[..l] + old(nodes)[r..]
    {
      if from == to {
        OnePlace(nodes, l, r);
        return;
      }
      if to == null {
        ExtractInclusive(from, null, l, r);
      } else {
        Slices(nodes, r);
        ExtractInclusive(from, to.prev, l, r);
      }
    }

    method Insert(pos: Node?, item: Node, ghost k: nat)
      requires Valid() && k <= |nodes| && pos == (if k < |nodes| then nodes[k] else null) && item !in nodes
      requires withTail || nodes == [] || pos != null
      modifies this, nodes, item
      ensures Valid() && nodes == old(nodes)[..k] + [item] + old(nodes)[k..]
    {
      InsertInclusive(pos, item, item, k, [item]);
    }

    /** Moves all of another list in before pos. */
    method SpliceAll(pos: Node?, list: List, ghost k: nat)
      requires Valid() && k <= |nodes| && pos == if k < |nodes| then nodes[k] else null
      requires withTail || nodes == [] || pos != null
      requires list != this && list.withTail && list.Valid() && Apart(nodes, list.nodes)
      modifies this, nodes, list, list.nodes
      ensures Valid() && list.Valid() && list.nodes == []
      ensures nodes == old(nodes)[..k] + old(list.nodes) + old(nodes)[k..]
    {
      hide Distinct, Apart, Chain;
      EmptyClosed();
      if list.Empty() {
        return;
      }
      InsertInclusive(pos, list.head, list.tail, k, list.nodes);
      list.Clear();
    }
  }

  lemma EmptyClosed()
    ensures Closed([])
  {
  }

  lemma OnePlace(s: seq<Node>, l: nat, r: nat)
    requires Distinct(s) && l <= r <= |s|
    requires (if l < |s| then s[l] else null) == (if r < |s| then s[r] else null)
    ensures l == r && s == s[..l] + s[r..]
  {
  }

  /** The pointers alone determine the sequence: a walk along `next` from the head meets exactly these nodes
      and stops. */
  lemma WalkIsSequence(s: seq<Node>, t: seq<Node>)
    requires Closed(s) && Closed(t) && s != [] && t != [] && s[0] == t[0]
    ensures s == t
  {
    WalkAgrees(s, t, if |s| < |t| then |s| else |t|);
  }

  lemma {:induction false} WalkAgrees(s: seq<Node>, t: seq<Node>, n: nat)
    requires Chain(s) && Chain(t) && 0 < n <= |s| && n <= |t| && s[0] == t[0]
    ensures s[..n] == t[..n] && s[n - 1] == t[n - 1]
    ensures (n < |s| ==> s[n - 1].next == s[n]) && (n < |t| ==> t[n - 1].next == t[n])
  {
    if n > 1 {
      WalkAgrees(s, t, n - 1);
      assert s[n - 2].next == s[n - 1] && t[n - 2].next == t[n - 1];
    }
  }
}
