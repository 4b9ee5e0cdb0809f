/** The kernel's lists as sequences: what inserting and erasing do to the members.  Module IntrusiveList ties
    the pointers to these sequences. */
module Lists {
  predicate NoDup(q: seq<nat>) {
    forall i, j :: 0 <= i < j < |q| ==> q[i] != q[j]
  }

  function IndexOf(q: seq<nat>, t: nat, i: nat := 0): (k: nat)
    requires i <= |q|
    ensures i <= k <= |q| && (k < |q| ==> q[k] == t) && forall j :: i <= j < k ==> q[j] != t
    decreases |q| - i
  {
    if i < |q| && q[i] != t then IndexOf(q, t, i + 1) else i
  }

  /** erase of a member. */
  function Remove(q: seq<nat>, t: nat): (r: seq<nat>) {
    var i := IndexOf(q, t);
    if i < |q| then q[..i] + q[i + 1..] else q
  }

  lemma RemoveMembers(q: seq<nat>, t: nat)
    requires NoDup(q)
    ensures NoDup(Remove(q, t)) && forall x :: x in Remove(q, t) <==> x in q && x != t
  {
  }

  lemma RemoveFront(q: seq<nat>)
    requires q != []
    ensures Remove(q, q[0]) == q[1..]
  {
  }

  function InsertAt(q: seq<nat>, p: nat, t: nat): seq<nat>
    requires p <= |q|
  {
    q[..p] + [t] + q[p..]
  }
}
