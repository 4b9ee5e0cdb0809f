/** The scheduler's lists over the one list slot of each task (kernel/task/tcb.hpp, kernel/task/wait.hpp): the
    ready queue, the sleepers and every wait list link the same nodes, so a task that were in two lists, or
    twice in one, would corrupt them.  Modules Scheduler and IntrusiveList meet here. */
module TaskLists {
  import opened Basics
  import opened Lists
  import opened IntrusiveList
  import opened Scheduler

  datatype Which = ReadyList | SleepList | WaitList(id: ListId)

  function Contents(s: Sched, w: Which): seq<nat> {
    match w
    case ReadyList => s.pending
    case SleepList => s.sleeping
    case WaitList(l) => WaitersOf(s.waits, l)
  }

  function SetList(s: Sched, w: Which, q: seq<nat>): Sched {
    match w
    case ReadyList => s.(pending := q)
    case SleepList => s.(sleeping := q)
    case WaitList(l) => s.(waits := s.waits[l := q])
  }

  lemma SetListIs(s: Sched, w: Which, q: seq<nat>, v: Which)
    ensures Contents(SetList(s, w, q), v) == if v == w then q else Contents(s, v)
  {
  }

  /** Each task is in at most one place of one list. */
  ghost predicate Separate(s: Sched) {
    && (forall w :: NoDup(Contents(s, w)))
    && (forall v, w, t :: v != w && t in Contents(s, v) ==> t !in Contents(s, w))
  }

  /** The scheduler's invariant says so. */
  lemma ListsSeparate(s: Sched)
    requires ListsOk(s)
    ensures Separate(s)
  {
    forall w ensures NoDup(Contents(s, w)) {
      Placed(s, w, 0);
    }
    forall v, w, t | v != w && t in Contents(s, v) ensures t !in Contents(s, w) {
      Placed(s, v, t);
      Placed(s, w, t);
    }
  }

  /** Where a task's state and detach hook say it is. */
  function PlaceOf(t: nat, tcb: Tcb): Option<Which> {
    if IsReady(t, tcb) then Some(ReadyList)
    else if tcb.state != Blocked then None
    else
      match tcb.detach
      case Nowhere => None
      case FromSleep => Some(SleepList)
      case FromWait(l) => Some(WaitList(l))
  }

  lemma Placed(s: Sched, w: Which, t: nat)
    requires ListsOk(s)
    ensures NoDup(Contents(s, w)) && (t in Contents(s, w) <==> t in s.tasks && PlaceOf(t, s.tasks[t]) == Some(w))
  {
    if w.WaitList? {
      assert WaitListOk(WaitersOf(s.waits, w.id), s.tasks, w.id);
    }
  }

  lemma RemoveAt(q: seq<nat>, t: nat)
    requires t in q
    ensures var k := IndexOf(q, t); k < |q| && q[k] == t && Remove(q, t) == q[..k] + q[k + 1..]
  {
  }

  lemma ApartFrom(s: Sched, w: Which, t: nat, v: Which)
    requires Separate(s) && t in Contents(s, w) && v != w
    ensures t !in Contents(s, v)
  {
    hide Contents;
  }

  class SlotLists {
    const slot: map<nat, Node>
    const task: map<Node, nat>
    const lists: map<Which, List>

    /** Empty lists, and a slot for every task there may be. */
    constructor (slot: map<nat, Node>, task: map<Node, nat>, lists: map<Which, List>, ghost s: Sched)
      requires forall w :: w in lists ==> lists[w].withTail && lists[w].nodes == [] && lists[w].Valid()
      requires forall v, w :: v in lists && w in lists && lists[v] == lists[w] ==> v == w
      requires forall t :: t in slot ==> slot[t] in task && task[slot[t]] == t
      requires forall w :: Contents(s, w) == []
      ensures this.slot == slot && this.task == task && this.lists == lists && Holds(s)
    {
      this.slot, this.task, this.lists := slot, task, lists;
    }

    /** A slot leads back to its task, and every list has its own head. */
    ghost predicate Shape() {
      && (forall w :: w in lists ==> lists[w].withTail)
      && (forall v, w :: v in lists && w in lists && lists[v] == lists[w] ==> v == w)
      && (forall t :: t in slot ==> slot[t] in task && task[slot[t]] == t)
    }

    ghost predicate Known(q: seq<nat>) {
      forall t :: t in q ==> t in slot
    }

    ghost function Slots(q: seq<nat>): (ns: seq<Node>)
      requires Known(q)
      ensures |ns| == |q| && forall i :: 0 <= i < |q| ==> ns[i] == slot[q[i]]
    {
      seq(|q|, i requires 0 <= i < |q| => slot[q[i]])
    }

    ghost predicate HoldsAt(q: seq<nat>, w: Which)
      requires w in lists
      reads lists[w], slot.Values
    {
      && Known(q) && lists[w].nodes == Slots(q)
      && (forall n :: n in lists[w].nodes ==> n in slot.Values)
      && lists[w].Valid()
    }

    /** Every list is well linked and links exactly the slots of its tasks, in order. */
    ghost predicate Holds(s: Sched)
      reads lists.Values, slot.Values
    {
      && Shape()
      && (forall w :: w in lists ==> HoldsAt(Contents(s, w), w))
      && (forall w :: w !in lists ==> Contents(s, w) == [])
    }

    lemma SlotIn(q: seq<nat>, t: nat)
      requires Shape() && Known(q) && t in slot
      ensures slot[t] in Slots(q) <==> t in q
    {
      if t in q {
        var i :| 0 <= i < |q| && q[i] == t;
        assert Slots(q)[i] == slot[t];
      }
    }

    /** Two lists that share no node. */
    ghost predicate Foreign(v: Which, w: Which)
      requires v in lists && w in lists
      reads lists[v], lists[w]
    {
      lists[v] != lists[w] && forall i :: 0 <= i < |lists[v].nodes| ==> lists[v].nodes[i] !in lists[w].nodes
    }

    lemma NodesApart(s: Sched, v: Which, w: Which, t: nat)
      requires Holds(s) && Separate(s) && v in lists && w in lists && v != w && t in slot && t !in Contents(s, v)
      ensures Foreign(v, w) && slot[t] !in lists[v].nodes
    {
      hide Contents, Closed;
      assert HoldsAt(Contents(s, v), v) && HoldsAt(Contents(s, w), w);
      SlotIn(Contents(s, v), t);
      forall i | 0 <= i < |lists[v].nodes| ensures lists[v].nodes[i] !in lists[w].nodes {
        var u := Contents(s, v)[i];
        assert u in Contents(s, v);
        SlotIn(Contents(s, w), u);
      }
    }

    lemma SlotsInsert(q: seq<nat>, k: nat, t: nat)
      requires Known(q) && t in slot && k <= |q|
      ensures Known(InsertAt(q, k, t)) && Slots(InsertAt(q, k, t)) == Slots(q)[..k] + [slot[t]] + Slots(q)[k..]
      ensures forall n :: n in Slots(InsertAt(q, k, t)) ==> n in slot.Values
    {
    }

    lemma SlotsErase(q: seq<nat>, k: nat)
      requires Known(q) && k < |q|
      ensures Known(q[..k] + q[k + 1..]) && Slots(q[..k] + q[k + 1..]) == Slots(q)[..k] + Slots(q)[k + 1..]
      ensures forall n :: n in Slots(q[..k] + q[k + 1..]) ==> n in slot.Values
    {
    }

    lemma AllHold(s: Sched, w: Which, q: seq<nat>)
      requires Shape() && w in lists && HoldsAt(q, w)
      requires forall v :: v in lists && v != w ==> HoldsAt(Contents(s, v), v)
      requires forall v :: v !in lists ==> Contents(s, v) == []
      ensures Holds(SetList(s, w, q))
    {
      hide Contents, SetList, HoldsAt;
      forall v ensures Contents(SetList(s, w, q), v) == if v == w then q else Contents(s, v) {
        SetListIs(s, w, q, v);
      }
    }

    /** One list at a time: linking a slot in before another task's, or at the end. */
    method Link(w: Which, before: Option<nat>, t: nat, ghost k: nat, ghost q: seq<nat>)
      requires Shape() && w in lists && HoldsAt(q, w) && t in slot && t !in q
      requires k <= |q| && before == if k < |q| then Some(q[k]) else None
      modifies lists[w], lists[w].nodes, slot[t]
      ensures HoldsAt(InsertAt(q, k, t), w)
    {
      hide Closed;
      SlotIn(q, t);
      SlotsInsert(q, k, t);
      var pos: Node? := null;
      if before.Some? {
        pos := slot[before.value];
      }
      lists[w].Insert(pos, slot[t], k);
    }

    method Unlink(w: Which, t: nat, ghost q: seq<nat>)
      requires Shape() && w in lists && HoldsAt(q, w) && t in q && t in slot
      modifies lists[w], lists[w].nodes
      ensures HoldsAt(Remove(q, t), w)
    {
      hide Closed, IndexOf;
      ghost var k := IndexOf(q, t);
      RemoveAt(q, t);
      SlotsErase(q, k);
      hide Remove;
      var _ := lists[w].Erase(slot[t], k);
    }

    /** Linking a task that is in no list leaves every other list as it was. */
    method Insert(w: Which, before: Option<nat>, t: nat, ghost k: nat, ghost s: Sched)
      requires Holds(s) && Separate(s) && w in lists && t in slot && (forall v :: t !in Contents(s, v))
      requires k <= |Contents(s, w)| && before == if k < |Contents(s, w)| then Some(Contents(s, w)[k]) else None
      modifies lists.Values, slot.Values
      ensures Holds(SetList(s, w, InsertAt(Contents(s, w), k, t)))
    {
      hide Contents, SetList, Separate, InsertAt, Closed, Known, Slots;
      forall v | v in lists && v != w ensures Foreign(v, w) && slot[t] !in lists[v].nodes {
        NodesApart(s, v, w, t);
      }
      Link(w, before, t, k, Contents(s, w));
      forall v | v in lists && v != w ensures HoldsAt(Contents(s, v), v) {
        assert old(Foreign(v, w)) && old(HoldsAt(Contents(s, v), v));
        forall i | 0 <= i < |lists[v].nodes| ensures unchanged(lists[v].nodes[i]) { }
        assert unchanged(lists[v]) && Closed(lists[v].nodes);
      }
      AllHold(s, w, InsertAt(Contents(s, w), k, t));
    }

    /** So does taking one out. */
    method Erase(w: Which, t: nat, ghost s: Sched)
      requires Holds(s) && Separate(s) && w in lists && t in slot && t in Contents(s, w)
      modifies lists.Values, slot.Values
      ensures Holds(SetList(s, w, Remove(Contents(s, w), t)))
    {
      hide Contents, SetList, Separate, Remove, Closed, Known, Slots;
      forall v | v in lists && v != w ensures Foreign(v, w) {
        ApartFrom(s, w, t, v);
        NodesApart(s, v, w, t);
      }
      Unlink(w, t, Contents(s, w));
      forall v | v in lists && v != w ensures HoldsAt(Contents(s, v), v) {
        assert old(Foreign(v, w)) && old(HoldsAt(Contents(s, v), v));
        forall i | 0 <= i < |lists[v].nodes| ensures unchanged(lists[v].nodes[i]) { }
        assert unchanged(lists[v]) && Closed(lists[v].nodes);
      }
      AllHold(s, w, Remove(Contents(s, w), t));
    }

    // ----- The scheduler's own moves

    ghost predicate Same(s: Sched, s': Sched) {
      forall w :: Contents(s', w) == Contents(s, w)
    }

    lemma SameHolds(s: Sched, s': Sched)
      requires Holds(s) && Same(s, s')
      ensures Holds(s')
    {
      hide Contents, HoldsAt;
    }

    /** wake: out of whatever list the task is in, and to the end of the ready queue. */
    method WakeTask(t: nat, place: Option<Which>, ghost s: Sched, ghost reason: WakeReason)
      requires ListsOk(s) && Holds(s) && ReadyList in lists && t in slot
      requires t in s.tasks && s.tasks[t].state == Blocked && place == PlaceOf(t, s.tasks[t])
      modifies lists.Values, slot.Values
      ensures Holds(Wake(s, t, reason))
    {
      hide ListsOk, Contents, Separate, HoldsAt, Remove;
      ListsSeparate(s);
      ghost var s1 := s;
      if place.Some? {
        Placed(s, place.value, t);
        Erase(place.value, t, s);
        s1 := SetList(s, place.value, Remove(Contents(s, place.value), t));
      }
      InNone(s, t, place, s1);
      ReadyIs(s1);
      Insert(ReadyList, None, t, |Contents(s1, ReadyList)|, s1);
      WakeIs(s, t, reason, place, s1);
      SameHolds(SetList(s1, ReadyList, InsertAt(s1.pending, |s1.pending|, t)), Wake(s, t, reason));
    }

    /** The current task goes to the place that its new state calls for. */
    method Park(t: nat, tcb: Tcb, w: Which, before: Option<nat>, ghost k: nat, ghost s: Sched)
      requires Scheduler.Inv(s) && Holds(s) && t == s.current && t in slot && w in lists
      requires tcb.state == Blocked && PlaceOf(t, tcb) == Some(w)
      requires k == (if w == SleepList then SleepPos(s.sleeping, s.tasks, tcb.time) else |Contents(s, w)|)
      requires before == if k < |Contents(s, w)| then Some(Contents(s, w)[k]) else None
      modifies lists.Values, slot.Values
      ensures Holds(Parked(s, tcb))
    {
      hide ListsOk, Separate, HoldsAt;
      ListsSeparate(s);
      RunningInNone(s);
      CurrentKnown(s);
      Insert(w, before, t, k, s);
      SameHolds(SetList(s, w, InsertAt(Contents(s, w), k, t)), Parked(s, tcb));
    }

    /** addTask: a new task starts at the end of the ready queue. */
    method Enter(t: nat, ghost parent: nat, ghost mask: set<nat>, ghost s: Sched)
      requires ListsOk(s) && Holds(s) && ReadyList in lists && t in slot && t !in s.tasks
      modifies lists.Values, slot.Values
      ensures Holds(Queued(s, t, parent, mask))
    {
      hide ListsOk, Separate, HoldsAt;
      ListsSeparate(s);
      forall v ensures t !in Contents(s, v) {
        Placed(s, v, t);
      }
      Insert(ReadyList, None, t, |s.pending|, s);
      SameHolds(SetList(s, ReadyList, InsertAt(s.pending, |s.pending|, t)), Queued(s, t, parent, mask));
    }

    /** yield: the front of the ready queue leaves it, and the current task, if it is still running and not the
        idle task, goes to the end. */
    method Rotate(first: nat, again: Option<nat>, ghost s: Sched)
      requires ListsOk(s) && Holds(s) && ReadyList in lists && s.disabled == 0 && s.pending != []
      requires first == s.pending[0] && first in slot && (again.Some? ==> again.value in slot)
      requires again == if s.tasks[s.current].state == Running && s.current != IDLE then Some(s.current) else None
      modifies lists.Values, slot.Values
      ensures Holds(Yield(s))
    {
      hide ListsOk, Separate, HoldsAt, Remove, Yield, Contents, SetList;
      ListsSeparate(s);
      ReadyIs(s);
      Erase(ReadyList, first, s);
      ghost var s1 := SetList(s, ReadyList, Remove(s.pending, first));
      SetListIs(s, ReadyList, Remove(s.pending, first), ReadyList);
      ReadyIs(s1);
      YieldIs(s, s1, again);
      if again.Some? {
        RunningInNone(s);
        FrontLeaves(s, s1);
        Insert(ReadyList, None, again.value, |s1.pending|, s1);
        SameHolds(SetList(s1, ReadyList, InsertAt(s1.pending, |s1.pending|, again.value)), Yield(s));
      } else {
        SameHolds(s1, Yield(s));
      }
    }

    // ----- Loops over a list

    /** front, if the list is not empty. */
    method Front(w: Which, ghost s: Sched) returns (t: Option<nat>)
      requires Holds(s) && w in lists
      ensures t == FrontOf(s, w) && (t.Some? ==> t.value in slot)
    {
      hide Contents, Closed;
      assert HoldsAt(Contents(s, w), w);
      var first := lists[w].head;
      if first == null {
        return None;
      }
      assert first == slot[Contents(s, w)[0]];
      return Some(task[first]);
    }

    /** wakeAll: the list is emptied from the front. */
    method WakeAllOf(l: ListId, ghost s: Sched, ghost reason: WakeReason)
      requires ListsOk(s) && Holds(s) && ReadyList in lists && WaitList(l) in lists
      modifies lists.Values, slot.Values
      ensures Holds(WakeAll(s, l, reason))
    {
      hide ListsOk, HoldsAt, Wake, WakeFront, Holds;
      ghost var cur := s;
      var t := Front(WaitList(l), cur);
      while t.Some?
        invariant ListsOk(cur) && Holds(cur) && t == FrontOf(cur, WaitList(l)) && (t.Some? ==> t.value in slot)
        invariant WakeAll(cur, l, reason) == WakeAll(s, l, reason)
        decreases |WaitersOf(cur.waits, l)|
      {
        WakeFrontIs(cur, l, reason);
        WakeTask(t.value, Some(WaitList(l)), cur, reason);
        cur := WakeFront(cur, l, reason);
        t := Front(WaitList(l), cur);
      }
    }

    /** checkSleep: the front of the sleep queue is woken as long as its time has passed. */
    method CheckSleep(s: Sched)
      requires Loose(s) && Holds(s) && ReadyList in lists && SleepList in lists
      modifies lists.Values, slot.Values
      ensures Holds(WakeSleepers(s))
    {
      hide ListsOk, HoldsAt, Holds, Wake, WakeSleeper, Sorted, TcbsOk;
      var cur := s;
      var t := Front(SleepList, cur);
      while t.Some? && TimeOf(cur.tasks, t.value) < cur.now
        invariant Loose(cur) && Holds(cur) && t == FrontOf(cur, SleepList) && (t.Some? ==> t.value in slot)
        invariant WakeSleepers(cur) == WakeSleepers(s)
        decreases |cur.sleeping|
      {
        WakeSleeperIs(cur);
        WakeTask(t.value, Some(SleepList), cur, Normal);
        cur := WakeSleeper(cur);
        t := Front(SleepList, cur);
      }
    }

    /** The end of exit: the front of the ready queue leaves it, if there is one. */
    method TakeNext(ghost s: Sched)
      requires ListsOk(s) && Holds(s) && ReadyList in lists
      modifies lists.Values, slot.Values
      ensures s.pending != [] ==> s.pending[0] in s.tasks && Holds(Switch(s.(pending := s.pending[1..]), s.pending[0]))
      ensures s.pending == [] ==> IDLE in s.tasks && Holds(Switch(s, IDLE))
    {
      hide ListsOk, Separate, HoldsAt, Remove;
      ListsSeparate(s);
      NextReady(s);
      CurrentKnown(s);
      var t := Front(ReadyList, s);
      if t.Some? {
        Erase(ReadyList, t.value, s);
        RemoveFront(s.pending);
        SameHolds(SetList(s, ReadyList, Remove(s.pending, t.value)), Switch(s.(pending := s.pending[1..]), t.value));
      } else {
        SameHolds(s, Switch(s, IDLE));
      }
    }
  }

  ghost function FrontOf(s: Sched, w: Which): Option<nat> {
    if Contents(s, w) == [] then None else Some(Contents(s, w)[0])
  }

  /** After leaving its list a task is in none. */
  lemma InNone(s: Sched, t: nat, place: Option<Which>, s1: Sched)
    requires ListsOk(s) && Separate(s) && t in s.tasks && place == PlaceOf(t, s.tasks[t])
    requires s1 == if place.Some? then SetList(s, place.value, Remove(Contents(s, place.value), t)) else s
    ensures Separate(s1) && forall v :: t !in Contents(s1, v)
  {
    hide ListsOk, Contents, SetList, Remove;
    if place.Some? {
      RemoveMembers(Contents(s, place.value), t);
    }
    forall v
      ensures NoDup(Contents(s1, v)) && t !in Contents(s1, v)
      ensures forall u :: u in Contents(s1, v) ==> u in Contents(s, v)
    {
      Placed(s, v, t);
      if place.Some? {
        SetListIs(s, place.value, Remove(Contents(s, place.value), t), v);
      }
    }
  }

  lemma WakeIs(s: Sched, t: nat, reason: WakeReason, place: Option<Which>, s1: Sched)
    requires t in s.tasks && s.tasks[t].state == Blocked && place == PlaceOf(t, s.tasks[t])
    requires s1 == if place.Some? then SetList(s, place.value, Remove(Contents(s, place.value), t)) else s
    ensures forall w :: Contents(Wake(s, t, reason), w) ==
                        Contents(SetList(s1, ReadyList, InsertAt(s1.pending, |s1.pending|, t)), w)
  {
    hide Remove;
    assert InsertAt(s1.pending, |s1.pending|, t) == s1.pending + [t];
  }

  lemma YieldIs(s: Sched, s1: Sched, again: Option<nat>)
    requires ListsOk(s) && s.disabled == 0 && s.pending != []
    requires s1 == SetList(s, ReadyList, Remove(s.pending, s.pending[0]))
    requires again == if s.tasks[s.current].state == Running && s.current != IDLE then Some(s.current) else None
    ensures forall w :: Contents(Yield(s), w) ==
                        Contents(if again.None? then s1
                                 else SetList(s1, ReadyList, InsertAt(s1.pending, |s1.pending|, again.value)), w)
  {
    hide PendingOk, SleepingOk, WaitsOk, Remove;
    RemoveFront(s.pending);
    if again.Some? {
      assert InsertAt(s1.pending, |s1.pending|, again.value) == s1.pending + [again.value];
    }
  }

  /** The running task is in no list. */
  lemma RunningInNone(s: Sched)
    requires ListsOk(s) && s.tasks[s.current].state == Running
    ensures forall v :: s.current !in Contents(s, v)
  {
    hide ListsOk, Contents;
    forall v ensures s.current !in Contents(s, v) {
      Placed(s, v, s.current);
    }
  }

  /** Taking the front off the ready queue keeps the lists separate. */
  lemma FrontLeaves(s: Sched, s1: Sched)
    requires Separate(s) && s.pending != [] && s1 == SetList(s, ReadyList, Remove(s.pending, s.pending[0]))
    ensures Separate(s1) && forall v, u :: u in Contents(s1, v) ==> u in Contents(s, v)
  {
    hide Contents, SetList, Remove;
    ReadyIs(s);
    RemoveMembers(s.pending, s.pending[0]);
    forall v ensures NoDup(Contents(s1, v)) && forall u :: u in Contents(s1, v) ==> u in Contents(s, v) {
      SetListIs(s, ReadyList, Remove(s.pending, s.pending[0]), v);
    }
  }

  lemma ReadyIs(s: Sched)
    ensures Contents(s, ReadyList) == s.pending
  {
  }
}
