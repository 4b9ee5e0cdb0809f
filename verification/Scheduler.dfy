/** The scheduler, its wait lists and its sleep queue (kernel/task/scheduler.self.cpp,
    kernel/task/scheduler.other.cpp, kernel/task/scheduler.task.cpp, kernel/task/wait.cpp) as a step system.

    A task has one list node, shared by the ready queue, the sleep queue and every wait list.  The
    __request_detach closure of a blocked task names the list that holds its node; here that is a datatype.
    Steps run with interrupts disabled, so each is atomic.  A blocked call is cut in two: the step that
    gives the processor away, and Resume, which the task performs when it is dispatched again. */
module Scheduler {
  import opened Basics
  import opened Lists

  const INIT: nat := 1
  const IDLE: nat := 2
  const SIGCHLD: nat := 17
  const TIME_WRAP: int := 0x1_0000_0000_0000_0000

  datatype State = Ready | Running | Exited | Blocked

  /** Wait lists: each task's own list of parents waiting for children, and all others. */
  datatype ListId = Children(pid: nat) | Other(id: nat)

  datatype Detach = Nowhere | FromSleep | FromWait(list: ListId)

  datatype WakeReason = Normal | Signal

  /** What a task does next when it has the processor: its program, or the rest of a blocking call. */
  datatype Call = Program | InBlock | InSleep(until: int)

  datatype Tcb = Tcb(
    state: State,
    detach: Detach,
    wake: WakeReason,
    time: int,
    parent: nat,
    signals: set<nat>,
    mask: set<nat>,
    call: Call)

  datatype Sched = Sched(
    current: nat,
    pending: seq<nat>,
    sleeping: seq<nat>,
    waits: map<ListId, seq<nat>>,
    tasks: map<nat, Tcb>,
    disabled: nat,
    needYield: bool,
    now: int)

  // ----- What every step keeps

  function WaitersOf(waits: map<ListId, seq<nat>>, l: ListId): seq<nat> {
    if l in waits then waits[l] else []
  }

  predicate IsReady(t: nat, tcb: Tcb) {
    tcb.state == Ready && t != IDLE
  }

  predicate IsAsleep(tcb: Tcb) {
    tcb.state == Blocked && tcb.detach == FromSleep
  }

  predicate IsWaiting(tcb: Tcb, l: ListId) {
    tcb.state == Blocked && tcb.detach == FromWait(l)
  }

  /** __pending holds exactly the ready tasks (the idle task is never queued), each once. */
  ghost predicate PendingOk(q: seq<nat>, tasks: map<nat, Tcb>) {
    NoDup(q) && forall t :: t in q <==> t in tasks && IsReady(t, tasks[t])
  }

  /** __sleeping holds exactly the blocked tasks whose __request_detach names it, each once. */
  ghost predicate SleepingOk(q: seq<nat>, tasks: map<nat, Tcb>) {
    NoDup(q) && forall t :: t in q <==> t in tasks && IsAsleep(tasks[t])
  }

  ghost predicate WaitListOk(q: seq<nat>, tasks: map<nat, Tcb>, l: ListId) {
    NoDup(q) && forall t :: t in q <==> t in tasks && IsWaiting(tasks[t], l)
  }

  ghost predicate WaitsOk(waits: map<ListId, seq<nat>>, tasks: map<nat, Tcb>) {
    forall l :: WaitListOk(WaitersOf(waits, l), tasks, l)
  }

  ghost predicate TasksOk(tasks: map<nat, Tcb>, current: nat) {
    && current in tasks
    && IDLE in tasks && tasks[IDLE].state in {Ready, Running}
    && (forall t :: t in tasks ==> (tasks[t].detach != Nowhere ==> tasks[t].state == Blocked))
    && (forall t :: t in tasks && tasks[t].state == Running ==> t == current)
  }

  /** Every task is in exactly the list that its state and __request_detach call for. */
  ghost predicate ListsOk(s: Sched) {
    && TasksOk(s.tasks, s.current)
    && PendingOk(s.pending, s.tasks)
    && SleepingOk(s.sleeping, s.tasks)
    && WaitsOk(s.waits, s.tasks)
  }

  function TimeOf(tasks: map<nat, Tcb>, t: nat): int {
    if t in tasks then tasks[t].time else 0
  }

  /** __sleeping is in order of wake time. */
  ghost predicate Sorted(q: seq<nat>, tasks: map<nat, Tcb>) {
    forall i, j :: 0 <= i < j < |q| ==> TimeOf(tasks, q[i]) <= TimeOf(tasks, q[j])
  }

  /** A task inside sleep is queued under its own deadline; once woken normally its deadline has passed. */
  ghost predicate Timed(tcb: Tcb, now: int) {
    tcb.call.InSleep? ==>
      && (tcb.state == Blocked ==> tcb.detach == FromSleep && tcb.time == tcb.call.until)
      && (tcb.state in {Ready, Running} && tcb.wake == Normal ==> tcb.call.until < now)
  }

  /** Only a task itself waits on its own list for children. */
  ghost predicate OwnList(t: nat, tcb: Tcb) {
    tcb.detach.FromWait? && tcb.detach.list.Children? ==> tcb.detach.list.pid == t
  }

  ghost predicate TcbsOk(tasks: map<nat, Tcb>, now: int) {
    forall t :: t in tasks ==> Timed(tasks[t], now) && OwnList(t, tasks[t])
  }

  /** All of it but for the current task, which may be on its way out. */
  ghost predicate Loose(s: Sched) {
    ListsOk(s) && Sorted(s.sleeping, s.tasks) && TcbsOk(s.tasks, s.now)
  }

  ghost predicate Inv(s: Sched) {
    Loose(s) && s.tasks[s.current].state == Running
  }

  // ----- Changing one task

  lemma PendingFrame(q: seq<nat>, tasks: map<nat, Tcb>, t: nat, tcb: Tcb)
    requires PendingOk(q, tasks) && t in tasks && !IsReady(t, tasks[t]) && !IsReady(t, tcb)
    ensures PendingOk(q, tasks[t := tcb])
  {
  }

  lemma SleepingFrame(q: seq<nat>, tasks: map<nat, Tcb>, t: nat, tcb: Tcb)
    requires SleepingOk(q, tasks) && (t in tasks ==> !IsAsleep(tasks[t])) && !IsAsleep(tcb)
    ensures SleepingOk(q, tasks[t := tcb])
  {
  }

  lemma WaitsFrame(waits: map<ListId, seq<nat>>, tasks: map<nat, Tcb>, t: nat, tcb: Tcb)
    requires WaitsOk(waits, tasks) && (forall l :: (t in tasks ==> !IsWaiting(tasks[t], l)) && !IsWaiting(tcb, l))
    ensures WaitsOk(waits, tasks[t := tcb])
  {
  }

  /** A task that becomes ready joins the end of the ready queue. */
  lemma PendingPush(q: seq<nat>, tasks: map<nat, Tcb>, t: nat, tcb: Tcb)
    requires PendingOk(q, tasks) && (t in tasks ==> !IsReady(t, tasks[t])) && IsReady(t, tcb)
    ensures PendingOk(q + [t], tasks[t := tcb])
  {
  }

  // ----- Dispatching

  /** switchToTask, and the state the dispatched task gives itself. */
  function Switch(s: Sched, next: nat): Sched
    requires next in s.tasks
  {
    s.(current := next, tasks := s.tasks[next := s.tasks[next].(state := Running)])
  }

  function Yield(s: Sched): Sched
    requires ListsOk(s)
  {
    if s.disabled != 0 then s.(needYield := true)
    else if s.pending != [] then
      var next, rest := s.pending[0], s.pending[1..];
      var cur := s.tasks[s.current];
      if cur.state == Running then
        Switch(s.(tasks := s.tasks[s.current := cur.(state := Ready)],
                  pending := if s.current != IDLE then rest + [s.current] else rest), next)
      else Switch(s.(pending := rest), next)
    else if s.tasks[s.current].state != Running then Switch(s, IDLE)
    else s
  }

  /** Taking the front of the ready queue. */
  lemma DispatchKeeps(s: Sched)
    requires ListsOk(s) && s.pending != [] && s.tasks[s.current].state != Running
    ensures s.pending[0] in s.tasks
    ensures var s' := Switch(s.(pending := s.pending[1..]), s.pending[0]);
            ListsOk(s') && s'.tasks[s'.current].state == Running
  {
  }

  lemma FrontReady(q: seq<nat>, tasks: map<nat, Tcb>)
    requires PendingOk(q, tasks) && q != []
    ensures q[0] in tasks && IsReady(q[0], tasks[q[0]])
  {
  }

  lemma IdleKeeps(s: Sched)
    requires ListsOk(s) && s.tasks[s.current].state != Running
    ensures var s' := Switch(s, IDLE); ListsOk(s') && s'.tasks[s'.current].state == Running
  {
  }

  /** A running task steps back to the end of the queue (the idle task only steps back). */
  lemma RequeueKeeps(s: Sched)
    requires ListsOk(s) && s.tasks[s.current].state == Running
    ensures ListsOk(s.(tasks := s.tasks[s.current := s.tasks[s.current].(state := Ready)],
                       pending := if s.current != IDLE then s.pending + [s.current] else s.pending))
  {
  }

  /** Giving the processor away from a consistent state, whether the current task is still running or has
      just been blocked or exited, leads to a consistent state in which the current task runs. */
  lemma YieldKeeps(s: Sched)
    requires ListsOk(s) && s.tasks[s.current].state != Ready
             && (s.tasks[s.current].state != Running ==> s.disabled == 0)
    ensures ListsOk(Yield(s)) && Yield(s).tasks[Yield(s).current].state == Running
  {
    hide PendingOk, SleepingOk, WaitsOk;
    if s.disabled == 0 {
      if s.pending != [] {
        if s.tasks[s.current].state == Running {
          RequeueKeeps(s);
          var s1 := s.(tasks := s.tasks[s.current := s.tasks[s.current].(state := Ready)],
                       pending := if s.current != IDLE then s.pending + [s.current] else s.pending);
          DispatchKeeps(s1);
          assert s1.pending[1..] == if s.current != IDLE then s.pending[1..] + [s.current] else s.pending[1..];
        } else {
          DispatchKeeps(s);
        }
      } else if s.tasks[s.current].state != Running {
        IdleKeeps(s);
      }
    }
  }

  // ----- Waking

  /** The lists once t's node is taken out of the one its __request_detach names. */
  function Detached(s: Sched, t: nat): Sched
    requires t in s.tasks
  {
    match s.tasks[t].detach
    case Nowhere => s
    case FromSleep => s.(sleeping := Remove(s.sleeping, t))
    case FromWait(l) => s.(waits := s.waits[l := Remove(WaitersOf(s.waits, l), t)])
  }

  function Wake(s: Sched, t: nat, reason: WakeReason): Sched
    requires t in s.tasks
  {
    if s.tasks[t].state != Blocked then s
    else
      var s1 := Detached(s, t);
      s1.(tasks := s.tasks[t := s.tasks[t].(state := Ready, wake := reason, detach := Nowhere)],
          pending := s.pending + [t])
  }

  /** A task as wake leaves it. */
  function Woken(tcb: Tcb, reason: WakeReason): Tcb {
    tcb.(state := Ready, wake := reason, detach := Nowhere)
  }

  lemma SleepingLeave(q: seq<nat>, tasks: map<nat, Tcb>, t: nat, tcb: Tcb)
    requires SleepingOk(q, tasks) && t in tasks && !IsAsleep(tcb)
    ensures SleepingOk(Remove(q, t), tasks[t := tcb])
  {
  }

  lemma WaitsLeave(waits: map<ListId, seq<nat>>, tasks: map<nat, Tcb>, t: nat, tcb: Tcb, l: ListId)
    requires WaitsOk(waits, tasks) && t in tasks && tasks[t].detach == FromWait(l) && tcb.detach == Nowhere
    ensures WaitsOk(waits[l := Remove(WaitersOf(waits, l), t)], tasks[t := tcb])
  {
    var waits' := waits[l := Remove(WaitersOf(waits, l), t)];
    forall k ensures WaitListOk(WaitersOf(waits', k), tasks[t := tcb], k) {
      assert WaitListOk(WaitersOf(waits, k), tasks, k);
      RemoveMembers(WaitersOf(waits, l), t);
    }
  }

  /** Waking takes the task out of whatever list holds it and queues it once; the wait lists and the sleep
      queue otherwise keep their members. */
  lemma WakeKeeps(s: Sched, t: nat, reason: WakeReason)
    requires ListsOk(s) && t in s.tasks
    ensures ListsOk(Wake(s, t, reason))
  {
    hide PendingOk, SleepingOk, WaitsOk, Remove;
    if s.tasks[t].state == Blocked {
      var tcb := s.tasks[t].(state := Ready, wake := reason, detach := Nowhere);
      PendingPush(s.pending, s.tasks, t, tcb);
      match s.tasks[t].detach
      case Nowhere =>
        SleepingFrame(s.sleeping, s.tasks, t, tcb);
        WaitsFrame(s.waits, s.tasks, t, tcb);
      case FromSleep =>
        SleepingLeave(s.sleeping, s.tasks, t, tcb);
        WaitsFrame(s.waits, s.tasks, t, tcb);
      case FromWait(l) =>
        SleepingFrame(s.sleeping, s.tasks, t, tcb);
        WaitsLeave(s.waits, s.tasks, t, tcb, l);
    }
  }

  /** One turn of a WaitList loop: unlink the front node, reset its __request_detach, wake it. */
  function WakeFront(s: Sched, l: ListId, reason: WakeReason): Sched
    requires ListsOk(s) && WaitersOf(s.waits, l) != []
  {
    var q := WaitersOf(s.waits, l);
    WaiterKnown(s, l, q[0]);
    Wake(s.(waits := s.waits[l := q[1..]], tasks := s.tasks[q[0] := s.tasks[q[0]].(detach := Nowhere)]), q[0], reason)
  }

  lemma WaiterKnown(s: Sched, l: ListId, t: nat)
    requires ListsOk(s) && t in WaitersOf(s.waits, l)
    ensures t in s.tasks && IsWaiting(s.tasks[t], l)
  {
  }

  /** Unlinking first and then waking is waking with the closure still in place. */
  lemma WakeFrontIs(s: Sched, l: ListId, reason: WakeReason)
    requires ListsOk(s) && WaitersOf(s.waits, l) != []
    ensures var q := WaitersOf(s.waits, l);
            && q[0] in s.tasks && IsWaiting(s.tasks[q[0]], l)
            && WakeFront(s, l, reason) == Wake(s, q[0], reason)
            && WakeFront(s, l, reason) ==
               s.(waits := s.waits[l := q[1..]], pending := s.pending + [q[0]],
                  tasks := s.tasks[q[0] := s.tasks[q[0]].(state := Ready, wake := reason, detach := Nowhere)])
            && ListsOk(WakeFront(s, l, reason))
  {
    hide PendingOk, SleepingOk, WaitsOk, TasksOk;
    var q := WaitersOf(s.waits, l);
    WaiterKnown(s, l, q[0]);
    RemoveFront(q);
    WakeKeeps(s, q[0], reason);
  }

  lemma RemoveSorted(q: seq<nat>, tasks: map<nat, Tcb>, t: nat)
    requires Sorted(q, tasks)
    ensures Sorted(Remove(q, t), tasks)
  {
  }

  lemma SortedFrame(q: seq<nat>, tasks: map<nat, Tcb>, t: nat, tcb: Tcb)
    requires Sorted(q, tasks) && (t in q ==> t in tasks && tcb.time == tasks[t].time)
    ensures Sorted(q, tasks[t := tcb])
  {
  }

  lemma TcbsFrame(tasks: map<nat, Tcb>, now: int, t: nat, tcb: Tcb)
    requires TcbsOk(tasks, now) && Timed(tcb, now) && OwnList(t, tcb)
    ensures TcbsOk(tasks[t := tcb], now)
  {
  }

  /** Waking, seen whole: a sleeper may be taken from the middle of the sleep queue without disturbing its
      order; it is woken normally only when its time is up. */
  lemma WakeKeepsLoose(s: Sched, t: nat, reason: WakeReason)
    requires Loose(s) && t in s.tasks && (IsAsleep(s.tasks[t]) && reason == Normal ==> s.tasks[t].time < s.now)
    ensures Loose(Wake(s, t, reason))
  {
    hide ListsOk, Sorted, TcbsOk, Remove, OwnList;
    WakeKeeps(s, t, reason);
    if s.tasks[t].state == Blocked {
      var tcb := s.tasks[t].(state := Ready, wake := reason, detach := Nowhere);
      TcbOk(s.tasks, s.now, t);
      OwnNowhere(t, tcb);
      TcbsFrame(s.tasks, s.now, t, tcb);
      SortedFrame(s.sleeping, s.tasks, t, tcb);
      RemoveSorted(s.sleeping, s.tasks[t := tcb], t);
    }
  }

  lemma OwnNowhere(t: nat, tcb: Tcb)
    requires tcb.detach == Nowhere
    ensures OwnList(t, tcb)
  {
  }

  lemma TcbOk(tasks: map<nat, Tcb>, now: int, t: nat)
    requires TcbsOk(tasks, now) && t in tasks
    ensures Timed(tasks[t], now) && OwnList(t, tasks[t])
  {
  }

  function WakeAll(s: Sched, l: ListId, reason: WakeReason): Sched
    requires ListsOk(s)
    decreases |WaitersOf(s.waits, l)|
  {
    if WaitersOf(s.waits, l) == [] then s
    else
      WakeFrontIs(s, l, reason);
      WakeAll(WakeFront(s, l, reason), l, reason)
  }

  /** wakeAll empties its list and moves exactly its members, in order, to the end of the ready queue. */
  lemma {:induction false} WakeAllKeeps(s: Sched, l: ListId, reason: WakeReason)
    requires ListsOk(s)
    ensures var s' := WakeAll(s, l, reason);
            && ListsOk(s') && s'.pending == s.pending + WaitersOf(s.waits, l) && WaitersOf(s'.waits, l) == []
            && s'.current == s.current && s'.sleeping == s.sleeping && s'.disabled == s.disabled
            && s'.tasks.Keys == s.tasks.Keys && s'.now == s.now && s'.needYield == s.needYield
            && (forall k :: k != l ==> WaitersOf(s'.waits, k) == WaitersOf(s.waits, k))
            && (forall t :: t in s.tasks && !IsWaiting(s.tasks[t], l) ==> s'.tasks[t] == s.tasks[t])
            && (forall t :: t in s.tasks && IsWaiting(s.tasks[t], l) ==>
                  s'.tasks[t] == s.tasks[t].(state := Ready, wake := reason, detach := Nowhere))
    decreases |WaitersOf(s.waits, l)|
  {
    hide ListsOk, WakeFront, Wake;
    var q := WaitersOf(s.waits, l);
    if q == [] {
      NobodyWaits(s, l);
    } else {
      WakeFrontIs(s, l, reason);
      var s1 := WakeFront(s, l, reason);
      assert WaitersOf(s1.waits, l) == q[1..];
      WakeAllKeeps(s1, l, reason);
      assert s1.pending + q[1..] == s.pending + q;
    }
  }

  lemma NobodyWaits(s: Sched, l: ListId)
    requires ListsOk(s) && WaitersOf(s.waits, l) == []
    ensures forall t :: t in s.tasks ==> !IsWaiting(s.tasks[t], l)
  {
  }

  lemma {:induction false} WakeAllLoose(s: Sched, l: ListId, reason: WakeReason)
    requires Loose(s)
    ensures Loose(WakeAll(s, l, reason))
    decreases |WaitersOf(s.waits, l)|
  {
    hide ListsOk, Sorted, TcbsOk, WakeFront;
    if WaitersOf(s.waits, l) != [] {
      WakeFrontIs(s, l, reason);
      WakeKeepsLoose(s, WaitersOf(s.waits, l)[0], reason);
      WakeAllLoose(WakeFront(s, l, reason), l, reason);
    }
  }

  // ----- The sleep queue

  /** Where sleep inserts: before the first task that wakes no earlier. */
  function SleepPos(q: seq<nat>, tasks: map<nat, Tcb>, time: int, i: nat := 0): (p: nat)
    requires i <= |q|
    ensures i <= p <= |q|
    ensures forall j :: i <= j < p ==> TimeOf(tasks, q[j]) < time
    ensures p < |q| ==> time <= TimeOf(tasks, q[p])
    decreases |q| - i
  {
    if i < |q| && !(time <= TimeOf(tasks, q[i])) then SleepPos(q, tasks, time, i + 1) else i
  }

  lemma {:induction false} SleepPosFrame(q: seq<nat>, tasks: map<nat, Tcb>, t: nat, tcb: Tcb, time: int, i: nat)
    requires i <= |q| && t !in q
    ensures SleepPos(q, tasks[t := tcb], time, i) == SleepPos(q, tasks, time, i)
    decreases |q| - i
  {
  }

  /** The current task as the blocking calls leave it, queued where detach says. */
  function Parked(s: Sched, tcb: Tcb): Sched
    requires s.current in s.tasks
  {
    var t := s.current;
    match tcb.detach
    case Nowhere => s.(tasks := s.tasks[t := tcb])
    case FromWait(l) => s.(tasks := s.tasks[t := tcb], waits := s.waits[l := WaitersOf(s.waits, l) + [t]])
    case FromSleep =>
      s.(tasks := s.tasks[t := tcb], sleeping := InsertAt(s.sleeping, SleepPos(s.sleeping, s.tasks, tcb.time), t))
  }

  lemma SleepingJoin(q: seq<nat>, tasks: map<nat, Tcb>, t: nat, tcb: Tcb, p: nat)
    requires SleepingOk(q, tasks) && t in tasks && !IsAsleep(tasks[t]) && IsAsleep(tcb) && p <= |q|
    ensures SleepingOk(InsertAt(q, p, t), tasks[t := tcb])
  {
  }

  lemma SortedJoin(q: seq<nat>, tasks: map<nat, Tcb>, t: nat, tcb: Tcb)
    requires Sorted(q, tasks) && t !in q
    ensures Sorted(InsertAt(q, SleepPos(q, tasks, tcb.time), t), tasks[t := tcb])
  {
  }

  lemma WaitsJoin(waits: map<ListId, seq<nat>>, tasks: map<nat, Tcb>, t: nat, tcb: Tcb, l: ListId)
    requires WaitsOk(waits, tasks) && t in tasks && (forall k :: !IsWaiting(tasks[t], k)) && IsWaiting(tcb, l)
    ensures WaitsOk(waits[l := WaitersOf(waits, l) + [t]], tasks[t := tcb])
  {
    var waits' := waits[l := WaitersOf(waits, l) + [t]];
    forall k ensures WaitListOk(WaitersOf(waits', k), tasks[t := tcb], k) {
      assert WaitListOk(WaitersOf(waits, k), tasks, k);
    }
  }

  lemma ParkedKeeps(s: Sched, tcb: Tcb)
    requires Inv(s) && s.current != IDLE && tcb.state == Blocked && Timed(tcb, s.now) && OwnList(s.current, tcb)
    ensures Loose(Parked(s, tcb))
  {
    hide PendingOk, SleepingOk, WaitsOk, Sorted, TcbsOk, OwnList, Timed;
    var t := s.current;
    PendingFrame(s.pending, s.tasks, t, tcb);
    TcbsFrame(s.tasks, s.now, t, tcb);
    NotAsleep(s.sleeping, s.tasks, t);
    match tcb.detach
    case Nowhere =>
      SleepingFrame(s.sleeping, s.tasks, t, tcb);
      WaitsFrame(s.waits, s.tasks, t, tcb);
      SortedFrame(s.sleeping, s.tasks, t, tcb);
    case FromWait(l) =>
      SleepingFrame(s.sleeping, s.tasks, t, tcb);
      WaitsJoin(s.waits, s.tasks, t, tcb, l);
      SortedFrame(s.sleeping, s.tasks, t, tcb);
    case FromSleep =>
      SleepingJoin(s.sleeping, s.tasks, t, tcb, SleepPos(s.sleeping, s.tasks, tcb.time));
      WaitsFrame(s.waits, s.tasks, t, tcb);
      SortedJoin(s.sleeping, s.tasks, t, tcb);
  }

  lemma NotAsleep(q: seq<nat>, tasks: map<nat, Tcb>, t: nat)
    requires SleepingOk(q, tasks) && t in tasks && !IsAsleep(tasks[t])
    ensures t !in q
  {
  }

  lemma RunningDetached(s: Sched)
    requires Inv(s)
    ensures s.tasks[s.current].detach == Nowhere
  {
  }

  // ----- Calls of the current task

  /** A task on its way to being dispatched keeps its times. */
  lemma YieldLoose(s: Sched)
    requires Loose(s) && s.tasks[s.current].state != Ready && (s.tasks[s.current].state != Running ==> s.disabled == 0)
    ensures Inv(Yield(s))
  {
    hide ListsOk, Sorted, TcbsOk;
    YieldKeeps(s);
    CurrentKnown(s);
    if s.disabled == 0 && (s.pending != [] || s.tasks[s.current].state != Running) {
      var tasks1 := if s.tasks[s.current].state == Running
                    then s.tasks[s.current := s.tasks[s.current].(state := Ready)] else s.tasks;
      var next := if s.pending != [] then s.pending[0] else IDLE;
      NextReady(s);
      StateSwap(s.sleeping, s.tasks, s.now, s.current, tasks1[s.current].state);
      StateSwap(s.sleeping, tasks1, s.now, next, Running);
    }
  }

  lemma CurrentKnown(s: Sched)
    requires ListsOk(s)
    ensures s.current in s.tasks && IDLE in s.tasks
  {
  }

  lemma NextReady(s: Sched)
    requires ListsOk(s)
    ensures s.pending != [] ==> s.pending[0] in s.tasks && s.pending[0] != IDLE && s.tasks[s.pending[0]].state == Ready
    ensures s.tasks[IDLE].state in {Ready, Running}
  {
  }

  /** Moving between Ready and Running, or not moving, changes no time. */
  lemma StateSwap(q: seq<nat>, tasks: map<nat, Tcb>, now: int, t: nat, state: State)
    requires Sorted(q, tasks) && TcbsOk(tasks, now) && t in tasks
    requires state == tasks[t].state || (state in {Ready, Running} && tasks[t].state in {Ready, Running})
    ensures Sorted(q, tasks[t := tasks[t].(state := state)]) && TcbsOk(tasks[t := tasks[t].(state := state)], now)
  {
  }

  /** block, sleep and WaitList::wait up to the switch: park the task, then give the processor away. */
  function Park(s: Sched, detach: Detach, time: int, call: Call): Option<Sched>
    requires Inv(s) && s.current != IDLE && (call.InSleep? ==> detach == FromSleep && time == call.until)
    requires detach.FromWait? && detach.list.Children? ==> detach.list.pid == s.current
  {
    if s.disabled != 0 then None   // kfatal
    else
      var tcb := s.tasks[s.current].(state := Blocked, wake := Normal, detach := detach, time := time, call := call);
      ParkedKeeps(s, tcb);
      Some(Yield(Parked(s, tcb)))
  }

  function Block(s: Sched): Option<Sched>
    requires Inv(s) && s.current != IDLE
  {
    Park(s, Nowhere, s.tasks[s.current].time, InBlock)
  }

  function Sleep(s: Sched, ms: nat): Option<Sched>
    requires Inv(s) && s.current != IDLE
  {
    var until := (s.now + ms) % TIME_WRAP;
    Park(s, FromSleep, until, InSleep(until))
  }

  function WaitOn(s: Sched, l: ListId): Option<Sched>
    requires Inv(s) && s.current != IDLE && (l.Children? ==> l.pid == s.current)
  {
    Park(s, FromWait(l), s.tasks[s.current].time, InBlock)
  }

  lemma ParkKeeps(s: Sched, detach: Detach, time: int, call: Call)
    requires Inv(s) && s.current != IDLE && (call.InSleep? ==> detach == FromSleep && time == call.until)
    requires detach.FromWait? && detach.list.Children? ==> detach.list.pid == s.current
    requires Park(s, detach, time, call).Some?
    ensures Inv(Park(s, detach, time, call).value)
  {
    hide ListsOk, Sorted, TcbsOk;
    CurrentKnown(s);
    var tcb := s.tasks[s.current].(state := Blocked, wake := Normal, detach := detach, time := time, call := call);
    ParkedKeeps(s, tcb);
    YieldLoose(Parked(s, tcb));
  }

  /** The end of a blocking call: the reason is read and reset; sleep also reports the time left. */
  function Resume(s: Sched): (r: (Sched, WakeReason, int))
    requires s.current in s.tasks
  {
    var tcb := s.tasks[s.current];
    var rest := if tcb.call.InSleep? && s.now < tcb.call.until then tcb.call.until - s.now else 0;
    (s.(tasks := s.tasks[s.current := tcb.(wake := Normal, call := Program)]), tcb.wake, rest)
  }

  /** A sleep that was not interrupted reports no time left. */
  lemma ResumeKeeps(s: Sched)
    requires Inv(s)
    ensures Inv(Resume(s).0)
    ensures s.tasks[s.current].call.InSleep? && Resume(s).1 == Normal ==> Resume(s).2 == 0
  {
  }

  // ----- The timer

  ghost predicate Expired(s: Sched) {
    s.sleeping != [] && TimeOf(s.tasks, s.sleeping[0]) < s.now
  }

  lemma SleeperKnown(s: Sched, t: nat)
    requires ListsOk(s) && t in s.sleeping
    ensures t in s.tasks && IsAsleep(s.tasks[t])
  {
  }

  /** One turn of checkSleep's loop: unlink the front node, reset its __request_detach, wake it. */
  function WakeSleeper(s: Sched): Sched
    requires ListsOk(s) && s.sleeping != []
  {
    var t := s.sleeping[0];
    SleeperKnown(s, t);
    Wake(s.(sleeping := s.sleeping[1..], tasks := s.tasks[t := s.tasks[t].(detach := Nowhere)]), t, Normal)
  }

  lemma WakeSleeperIs(s: Sched)
    requires Loose(s) && Expired(s)
    ensures var t := s.sleeping[0];
            && t in s.tasks && IsAsleep(s.tasks[t]) && WakeSleeper(s) == Wake(s, t, Normal)
            && WakeSleeper(s) ==
               s.(sleeping := s.sleeping[1..], pending := s.pending + [t],
                  tasks := s.tasks[t := s.tasks[t].(state := Ready, wake := Normal, detach := Nowhere)])
            && Loose(WakeSleeper(s))
  {
    hide ListsOk, Sorted, TcbsOk, Remove;
    var t := s.sleeping[0];
    SleeperKnown(s, t);
    RemoveFront(s.sleeping);
    WakeKeepsLoose(s, t, Normal);
  }

  function WakeSleepers(s: Sched): Sched
    requires Loose(s)
    decreases |s.sleeping|
  {
    if s.sleeping == [] || !(TimeOf(s.tasks, s.sleeping[0]) < s.now) then s
    else
      WakeSleeperIs(s);
      WakeSleepers(WakeSleeper(s))
  }

  /** How many sleepers are due. */
  function Due(q: seq<nat>, tasks: map<nat, Tcb>, now: int): (n: nat)
    ensures n <= |q|
  {
    if q == [] || !(TimeOf(tasks, q[0]) < now) then 0 else 1 + Due(q[1..], tasks, now)
  }

  /** In a sorted queue the due ones are exactly those whose time has passed. */
  lemma {:induction false} DueExact(q: seq<nat>, tasks: map<nat, Tcb>, now: int)
    requires Sorted(q, tasks)
    ensures forall i :: 0 <= i < |q| ==> (TimeOf(tasks, q[i]) < now <==> i < Due(q, tasks, now))
  {
    if q != [] {
      if TimeOf(tasks, q[0]) < now {
        DueExact(q[1..], tasks, now);
        forall i | 0 <= i < |q| ensures TimeOf(tasks, q[i]) < now <==> i < Due(q, tasks, now) {
          assert i == 0 || q[1..][i - 1] == q[i];
        }
      } else {
        forall i | 0 <= i < |q| ensures now <= TimeOf(tasks, q[i]) {
          assert i == 0 || TimeOf(tasks, q[0]) <= TimeOf(tasks, q[i]);
        }
      }
    }
  }

  lemma {:induction false} DueFrame(q: seq<nat>, tasks: map<nat, Tcb>, now: int, t: nat, tcb: Tcb)
    requires t in tasks && tcb.time == tasks[t].time
    ensures Due(q, tasks[t := tcb], now) == Due(q, tasks, now)
  {
    if q != [] {
      DueFrame(q[1..], tasks, now, t, tcb);
    }
  }

  /** checkSleep wakes exactly the tasks whose time has passed, in order of their time. */
  lemma {:induction false} WakeSleepersExact(s: Sched)
    requires Loose(s)
    ensures var s', n := WakeSleepers(s), Due(s.sleeping, s.tasks, s.now);
            && Loose(s') && s'.sleeping == s.sleeping[n..] && s'.pending == s.pending + s.sleeping[..n]
            && s'.current == s.current && s'.waits == s.waits && s'.now == s.now && s'.disabled == s.disabled
            && s'.needYield == s.needYield && s'.tasks.Keys == s.tasks.Keys
            && (forall t :: t in s.tasks ==>
                  s'.tasks[t] == if t in s.sleeping[..n]
                                 then s.tasks[t].(state := Ready, wake := Normal, detach := Nowhere) else s.tasks[t])
    decreases |s.sleeping|
  {
    hide ListsOk, Sorted, TcbsOk, WakeSleeper, Wake, IsAsleep;
    if Expired(s) {
      WakeSleeperIs(s);
      var s1, q := WakeSleeper(s), s.sleeping;
      WakeSleepersExact(s1);
      DueFrame(q[1..], s.tasks, s.now, q[0], s1.tasks[q[0]]);
      FirstMoved(s.pending, q, Due(q[1..], s.tasks, s.now));
    }
  }

  lemma FirstMoved(p: seq<nat>, q: seq<nat>, n: nat)
    requires n < |q|
    ensures q[1..][n..] == q[n + 1..] && (p + [q[0]]) + q[1..][..n] == p + q[..n + 1]
  {
  }

  /** The timer interrupt: time advances, sleepers are checked, and every tenth millisecond yields. */
  function Tick(s: Sched): Sched
    requires Inv(s)
  {
    var s1 := s.(now := s.now + 1);
    LaterLoose(s);
    var s2 := WakeSleepers(s1);
    WakeSleepersExact(s1);
    if s2.now % 10 == 0 then Yield(s2) else s2
  }

  lemma LaterLoose(s: Sched)
    requires Loose(s)
    ensures Loose(s.(now := s.now + 1))
  {
    hide TasksOk, PendingOk, SleepingOk, WaitsOk, Sorted;
  }

  lemma TickKeeps(s: Sched)
    requires Inv(s)
    ensures Inv(Tick(s))
  {
    hide ListsOk, Sorted, TcbsOk, WakeSleepers, Yield;
    LaterLoose(s);
    var s1 := s.(now := s.now + 1);
    WakeSleepersExact(s1);
    RunningAwake(s);
    var s2 := WakeSleepers(s1);
    if s2.now % 10 == 0 {
      YieldLoose(s2);
    }
  }

  lemma RunningAwake(s: Sched)
    requires Inv(s)
    ensures s.current in s.tasks && s.current !in s.sleeping && s.current !in s.pending
    ensures forall l :: s.current !in WaitersOf(s.waits, l)
  {
  }

  // ----- Signals, creation and exit

  function SendSignal(s: Sched, t: nat, sig: nat): Sched
    requires t in s.tasks
  {
    if s.tasks[t].state == Exited then s
    else
      var s1 := s.(tasks := s.tasks[t := s.tasks[t].(signals := s.tasks[t].signals + {sig})]);
      if sig in s.tasks[t].mask then s1
      else if s.tasks[t].state == Blocked then Wake(s1, t, Signal)
      else s1
  }

  lemma SendSignalKeeps(s: Sched, t: nat, sig: nat)
    requires Loose(s) && t in s.tasks
    ensures Loose(SendSignal(s, t, sig))
  {
    hide PendingOk, SleepingOk, WaitsOk, Sorted, TcbsOk, Wake, OwnList;
    var tcb := s.tasks[t].(signals := s.tasks[t].signals + {sig});
    var s1 := s.(tasks := s.tasks[t := tcb]);
    SignalsFrame(s, t, tcb);
    WakeKeepsLoose(s1, t, Signal);
  }

  /** A signal becomes pending for a task that has not exited; it wakes the task, and says so, exactly when the
      task is blocked and does not mask it; no other task changes. */
  lemma SendSignalExact(s: Sched, t: nat, sig: nat)
    requires t in s.tasks
    ensures var s', tcb := SendSignal(s, t, sig), s.tasks[t];
            && s'.tasks.Keys == s.tasks.Keys && s'.current == s.current
            && (forall u :: u in s.tasks && u != t ==> s'.tasks[u] == s.tasks[u])
            && (tcb.state == Exited ==> s' == s)
            && (tcb.state != Exited ==> s'.tasks[t].signals == tcb.signals + {sig})
            && (tcb.state == Blocked && sig !in tcb.mask <==> s'.pending == s.pending + [t])
            && (tcb.state == Blocked && sig !in tcb.mask ==>
                  s'.tasks[t] == Woken(tcb, Signal).(signals := s'.tasks[t].signals))
            && (!(tcb.state == Blocked && sig !in tcb.mask) ==>
                  s' == s.(tasks := s'.tasks) && s'.tasks[t] == tcb.(signals := s'.tasks[t].signals))
  {
    hide Remove;
  }

  /** Changing a task's signal sets changes nothing that the lists depend on. */
  lemma SignalsFrame(s: Sched, t: nat, tcb: Tcb)
    requires Loose(s) && t in s.tasks && tcb == s.tasks[t].(signals := tcb.signals, mask := tcb.mask)
    ensures Loose(s.(tasks := s.tasks[t := tcb]))
  {
    var tasks' := s.tasks[t := tcb];
    assert forall l :: WaitListOk(WaitersOf(s.waits, l), s.tasks, l) ==> WaitListOk(WaitersOf(s.waits, l), tasks', l);
  }

  /** A forked task has its parent's mask, a created one none. */
  function NewTcb(parent: nat, mask: set<nat>): Tcb {
    Tcb(Ready, Nowhere, Normal, 0, parent, {}, mask, Program)
  }

  function Queued(s: Sched, t: nat, parent: nat, mask: set<nat>): Sched {
    s.(tasks := s.tasks[t := NewTcb(parent, mask)], pending := s.pending + [t])
  }

  /** addTask as fork calls it; None where a full table stops the kernel. */
  function AddTask(s: Sched, parent: nat, mask: set<nat>): (r: Option<Sched>) {
    match FreePid(s.tasks.Keys, FIRST_PID)
    case None => None
    case Some(t) => Some(Queued(s, t, parent, mask))
  }

  lemma QueuedKeeps(s: Sched, t: nat, parent: nat, mask: set<nat>)
    requires Inv(s) && t !in s.tasks && t != IDLE
    ensures Inv(Queued(s, t, parent, mask))
  {
    hide PendingOk, SleepingOk, WaitsOk, Sorted, TcbsOk;
    PendingPush(s.pending, s.tasks, t, NewTcb(parent, mask));
    SleepingFrame(s.sleeping, s.tasks, t, NewTcb(parent, mask));
    WaitsFrame(s.waits, s.tasks, t, NewTcb(parent, mask));
    NotListed(s.sleeping, s.tasks, t);
    SortedFrame(s.sleeping, s.tasks, t, NewTcb(parent, mask));
    TcbsFrame(s.tasks, s.now, t, NewTcb(parent, mask));
  }

  /** A new task gets the lowest free pid from 16 on and is last in the ready queue, where it is for the first
      time; no other task changes.  There is no room exactly when all 240 entries are taken. */
  lemma AddTaskKeeps(s: Sched, parent: nat, mask: set<nat>)
    requires Inv(s)
    ensures match AddTask(s, parent, mask)
            case None => forall q :: FIRST_PID <= q < MAX_TASK ==> q in s.tasks
            case Some(s') =>
              && Inv(s') && |s'.pending| == |s.pending| + 1
              && var t := s'.pending[|s.pending|];
              && FIRST_PID <= t < MAX_TASK && t !in s.tasks && t !in s.pending
              && (forall q :: FIRST_PID <= q < t ==> q in s.tasks)
              && s'.pending[..|s.pending|] == s.pending && s'.sleeping == s.sleeping && s'.waits == s.waits
              && s'.tasks.Keys == s.tasks.Keys + {t} && (forall q :: q in s.tasks ==> s'.tasks[q] == s.tasks[q])
              && s' == s.(tasks := s'.tasks, pending := s'.pending)
              && var tcb := s'.tasks[t];
              && tcb.state == Ready && tcb.detach == Nowhere && tcb.call == Program
              && tcb.parent == parent && tcb.signals == {} && tcb.mask == mask
  {
    hide Inv, FreePid;
    var r := FreePid(s.tasks.Keys, FIRST_PID);
    if r.Some? {
      QueuedKeeps(s, r.value, parent, mask);
      PendingKnown(s, r.value);
    }
  }

  lemma PendingKnown(s: Sched, t: nat)
    requires Inv(s) && t !in s.tasks
    ensures t !in s.pending
  {
    hide SleepingOk, WaitsOk, Sorted, TcbsOk;
  }

  lemma NotListed(q: seq<nat>, tasks: map<nat, Tcb>, t: nat)
    requires SleepingOk(q, tasks) && t !in tasks
    ensures t !in q
  {
  }

  /** Closing the exiting task's descriptors wakes the wait lists behind them. */
  function WakeEach(s: Sched, ls: seq<ListId>): Sched
    requires Loose(s)
    decreases |ls|
  {
    if ls == [] then s
    else
      WakeAllLoose(s, ls[0], Normal);
      WakeEach(WakeAll(s, ls[0], Normal), ls[1..])
  }

  lemma {:induction false} WakeEachKeeps(s: Sched, ls: seq<ListId>)
    requires Inv(s)
    ensures Inv(WakeEach(s, ls)) && WakeEach(s, ls).current == s.current && WakeEach(s, ls).tasks.Keys == s.tasks.Keys
    decreases |ls|
  {
    hide ListsOk, Sorted, TcbsOk, WakeAll;
    if ls != [] {
      CurrentKnown(s);
      WakeAllLoose(s, ls[0], Normal);
      WakeAllKeeps(s, ls[0], Normal);
      WakeEachKeeps(WakeAll(s, ls[0], Normal), ls[1..]);
    }
  }

  /** exit of a task without children: close files, become Exited, tell the parent, leave for good. */
  function Exit(s: Sched, closing: seq<ListId>): Option<Sched>
    requires Inv(s) && s.current != IDLE
  {
    if s.current == INIT then None   // kfatal
    else
      WakeEachKeeps(s, closing);
      var s1 := WakeEach(s, closing);
      ExitedKeeps(s1);
      var s2 := s1.(tasks := s1.tasks[s1.current := s1.tasks[s1.current].(state := Exited)]);
      var s3 := NotifyParent(s2, s2.tasks[s2.current].parent);
      NotifyParentKeeps(s2, s2.tasks[s2.current].parent);
      NextReady(s3);
      Some(if s3.pending != [] then Switch(s3.(pending := s3.pending[1..]), s3.pending[0]) else Switch(s3, IDLE))
  }

  function NotifyParent(s: Sched, parent: nat): Sched
    requires Loose(s)
  {
    if parent !in s.tasks then s
    else
      WakeAllLoose(s, Children(parent), Normal);
      WakeAllKeeps(s, Children(parent), Normal);
      SendSignal(WakeAll(s, Children(parent), Normal), parent, SIGCHLD)
  }

  lemma ExitedKeeps(s: Sched)
    requires Inv(s) && s.current != IDLE
    ensures Loose(s.(tasks := s.tasks[s.current := s.tasks[s.current].(state := Exited)]))
  {
  }

  /** Telling the parent wakes nobody who has exited. */
  lemma NotifyParentKeeps(s: Sched, parent: nat)
    requires Loose(s)
    ensures var s' := NotifyParent(s, parent);
            && Loose(s') && s'.current == s.current && s'.tasks.Keys == s.tasks.Keys
            && (forall t :: t in s.tasks && s.tasks[t].state == Exited ==> s'.tasks[t] == s.tasks[t])
  {
    hide ListsOk, Sorted, TcbsOk, WakeAll;
    CurrentKnown(s);
    if parent in s.tasks {
      WakeAllLoose(s, Children(parent), Normal);
      WakeAllKeeps(s, Children(parent), Normal);
      var s1 := WakeAll(s, Children(parent), Normal);
      SendSignalKeeps(s1, parent, SIGCHLD);
    }
  }

  lemma ExitKeeps(s: Sched, closing: seq<ListId>)
    requires Inv(s) && s.current != IDLE && Exit(s, closing).Some?
    ensures Inv(Exit(s, closing).value)
    ensures var s' := Exit(s, closing).value;
            s'.current != s.current && s.current in s'.tasks && s'.tasks[s.current].state == Exited
  {
    hide ListsOk, Sorted, TcbsOk, WakeEach, NotifyParent;
    CurrentKnown(s);
    WakeEachKeeps(s, closing);
    var s1 := WakeEach(s, closing);
    ExitedKeeps(s1);
    var s2 := s1.(tasks := s1.tasks[s1.current := s1.tasks[s1.current].(state := Exited)]);
    NotifyParentKeeps(s2, s2.tasks[s2.current].parent);
    var s3 := NotifyParent(s2, s2.tasks[s2.current].parent);
    CurrentKnown(s3);
    NextReady(s3);
    var next := if s3.pending != [] then s3.pending[0] else IDLE;
    StateSwap(s3.sleeping, s3.tasks, s3.now, next, Running);
    if s3.pending != [] { DispatchKeeps(s3); } else { IdleKeeps(s3); }
  }

  /** An exit leaves nobody waiting on what it closed, nor its parent waiting for children; the parent gets
      SIGCHLD. */
  lemma ExitTells(s: Sched, closing: seq<ListId>)
    requires Inv(s) && s.current != IDLE && Exit(s, closing).Some?
    ensures var s', parent := Exit(s, closing).value, s.tasks[s.current].parent;
            && (forall l :: l in closing ==> WaitersOf(s'.waits, l) == [])
            && (parent in s.tasks && parent != s.current ==> WaitersOf(s'.waits, Children(parent)) == [])
            && (parent in s.tasks && parent != s.current && s.tasks[parent].state != Exited ==>
                  parent in s'.tasks && SIGCHLD in s'.tasks[parent].signals)
  {
    hide ListsOk, Sorted, TcbsOk, WakeEach, NotifyParent;
    CurrentKnown(s);
    WakeEachKeeps(s, closing);
    WakeEachWakes(s, closing);
    var s1, parent := WakeEach(s, closing), s.tasks[s.current].parent;
    ExitedKeeps(s1);
    var s2 := s1.(tasks := s1.tasks[s1.current := s1.tasks[s1.current].(state := Exited)]);
    assert s2.tasks[s2.current].parent == parent;
    NotifyParentKeeps(s2, parent);
    NotifyParentTells(s2, parent, closing);
    NextReady(NotifyParent(s2, parent));
  }

  lemma {:induction false} WakeEachWakes(s: Sched, ls: seq<ListId>)
    requires Inv(s)
    ensures var s' := WakeEach(s, ls);
            && (forall l :: l in ls ==> WaitersOf(s'.waits, l) == [])
            && (forall l :: WaitersOf(s.waits, l) == [] ==> WaitersOf(s'.waits, l) == [])
            && s'.tasks.Keys == s.tasks.Keys
            && (forall t :: t in s.tasks ==>
                  && s'.tasks[t].parent == s.tasks[t].parent
                  && (s'.tasks[t].state == Exited <==> s.tasks[t].state == Exited))
    decreases |ls|
  {
    hide ListsOk, Sorted, TcbsOk, WakeAll;
    if ls != [] {
      CurrentKnown(s);
      RunningAwake(s);
      WakeAllLoose(s, ls[0], Normal);
      WakeAllKeeps(s, ls[0], Normal);
      WakeEachWakes(WakeAll(s, ls[0], Normal), ls[1..]);
    }
  }

  lemma NotifyParentTells(s: Sched, parent: nat, ls: seq<ListId>)
    requires Loose(s) && forall l :: l in ls ==> WaitersOf(s.waits, l) == []
    ensures var s' := NotifyParent(s, parent);
            && (forall l :: l in ls ==> WaitersOf(s'.waits, l) == [])
            && (parent in s.tasks ==> WaitersOf(s'.waits, Children(parent)) == [])
            && (parent in s.tasks && s.tasks[parent].state != Exited ==>
                  parent in s'.tasks && SIGCHLD in s'.tasks[parent].signals)
  {
    hide ListsOk, Sorted, TcbsOk, WakeAll, SendSignal;
    if parent in s.tasks {
      WakeAllLoose(s, Children(parent), Normal);
      WakeAllKeeps(s, Children(parent), Normal);
      var s1 := WakeAll(s, Children(parent), Normal);
      SendSignalExact(s1, parent, SIGCHLD);
      SignalWaits(s1, parent, SIGCHLD);
    }
  }

  /** A signal only ever takes its target out of a list. */
  lemma SignalWaits(s: Sched, t: nat, sig: nat)
    requires t in s.tasks
    ensures forall l :: WaitersOf(s.waits, l) == [] ==> WaitersOf(SendSignal(s, t, sig).waits, l) == []
  {
  }

  /** freeTask acts on exited tasks only. */
  function FreeTask(s: Sched, t: nat): Sched {
    if t in s.tasks && s.tasks[t].state == Exited then s.(tasks := s.tasks - {t}) else s
  }

  /** An exited task is nowhere: not current, in no list, and nobody waits on the list inside it.  Freeing
      its control block therefore leaves no dangling node. */
  lemma FreeTaskSafe(s: Sched, t: nat)
    requires Inv(s) && t in s.tasks && s.tasks[t].state == Exited
    ensures t != s.current && t !in s.pending && t !in s.sleeping && (forall l :: t !in WaitersOf(s.waits, l))
    ensures WaitersOf(s.waits, Children(t)) == []
    ensures Inv(FreeTask(s, t))
  {
    var tasks' := s.tasks - {t};
    forall l
      ensures t !in WaitersOf(s.waits, l)
      ensures WaitListOk(WaitersOf(s.waits, l), tasks', l)
    {
      assert WaitListOk(WaitersOf(s.waits, l), s.tasks, l);
    }
    var q := WaitersOf(s.waits, Children(t));
    if q != [] {
      WaiterKnown(s, Children(t), q[0]);
      TcbOk(s.tasks, s.now, q[0]);
    }
  }

  function WakeOne(s: Sched, l: ListId, reason: WakeReason): Sched
    requires ListsOk(s)
  {
    if WaitersOf(s.waits, l) == [] then s else WakeFront(s, l, reason)
  }

  function EnableYield(s: Sched): Sched
    requires ListsOk(s) && s.disabled > 0
  {
    var s1 := s.(disabled := s.disabled - 1);
    if s1.disabled == 0 && s1.needYield then Yield(s1.(needYield := false)) else s1
  }

  // ----- What each call does

  /** The current task is left as tcb, and the front of the queue, or else the idle task, gets the processor. */
  ghost predicate GivesWay(s: Sched, s': Sched, tcb: Tcb) {
    var next := if s.pending == [] then IDLE else s.pending[0];
    && s'.current == next && s'.pending == (if s.pending == [] then [] else s.pending[1..])
    && s'.disabled == s.disabled && s'.needYield == s.needYield && s'.now == s.now
    && s'.tasks.Keys == s.tasks.Keys
    && forall t :: t in s.tasks ==>
         s'.tasks[t] == if t == s.current then tcb else if t == next then s.tasks[t].(state := Running) else s.tasks[t]
  }

  lemma ParkExact(s: Sched, detach: Detach, time: int, call: Call)
    requires Inv(s) && s.current != IDLE && (call.InSleep? ==> detach == FromSleep && time == call.until)
    requires detach.FromWait? && detach.list.Children? ==> detach.list.pid == s.current
    ensures Park(s, detach, time, call).Some? <==> s.disabled == 0
    ensures s.disabled == 0 ==>
              var s' := Park(s, detach, time, call).value;
              var tcb := s.tasks[s.current].(
                state := Blocked, wake := Normal, detach := detach, time := time, call := call);
              && GivesWay(s, s', tcb) && s'.waits == Parked(s, tcb).waits && s'.sleeping == Parked(s, tcb).sleeping
  {
    hide ListsOk, Sorted, TcbsOk, Yield, Parked, GivesWay;
    CurrentKnown(s);
    if s.disabled == 0 {
      var tcb := s.tasks[s.current].(state := Blocked, wake := Normal, detach := detach, time := time, call := call);
      ParkedKeeps(s, tcb);
      ParkedSame(s, tcb);
      NextReady(s);
      RunningAwake(s);
      YieldGives(s, Parked(s, tcb), tcb);
    }
  }

  lemma ParkedSame(s: Sched, tcb: Tcb)
    requires s.current in s.tasks
    ensures var s1 := Parked(s, tcb);
            s1 == s.(tasks := s.tasks[s.current := tcb], sleeping := s1.sleeping, waits := s1.waits)
  {
    hide SleepPos;
  }

  lemma YieldGives(s: Sched, s1: Sched, tcb: Tcb)
    requires ListsOk(s1) && s.disabled == 0 && tcb.state == Blocked && s.current in s.tasks && s.current != IDLE
    requires s1 == s.(tasks := s.tasks[s.current := tcb], sleeping := s1.sleeping, waits := s1.waits)
    requires s.current !in s.pending
    ensures GivesWay(s, Yield(s1), tcb) && Yield(s1).waits == s1.waits && Yield(s1).sleeping == s1.sleeping
  {
    hide ListsOk;
    CurrentKnown(s1);
    NextReady(s1);
  }

  /** block: the task is in no list. */
  lemma BlockExact(s: Sched)
    requires Inv(s) && s.current != IDLE
    ensures Block(s).Some? <==> s.disabled == 0
    ensures s.disabled == 0 ==>
              var s' := Block(s).value;
              && GivesWay(s, s', s.tasks[s.current].(
                             state := Blocked, wake := Normal, detach := Nowhere, call := InBlock))
              && s'.waits == s.waits && s'.sleeping == s.sleeping
  {
    hide Inv, Park, GivesWay;
    CurrentThere(s);
    ParkExact(s, Nowhere, s.tasks[s.current].time, InBlock);
    var tcb := s.tasks[s.current];
    assert tcb.(state := Blocked, wake := Normal, detach := Nowhere, time := tcb.time, call := InBlock)
        == tcb.(state := Blocked, wake := Normal, detach := Nowhere, call := InBlock);
  }

  /** WaitList::wait: the task is last in the list, and names it; no other list changes. */
  lemma WaitExact(s: Sched, l: ListId)
    requires Inv(s) && s.current != IDLE && (l.Children? ==> l.pid == s.current)
    ensures WaitOn(s, l).Some? <==> s.disabled == 0
    ensures s.disabled == 0 ==>
              var s' := WaitOn(s, l).value;
              && GivesWay(s, s', s.tasks[s.current].(
                             state := Blocked, wake := Normal, detach := FromWait(l), call := InBlock))
              && WaitersOf(s'.waits, l) == WaitersOf(s.waits, l) + [s.current]
              && (forall k :: k != l ==> WaitersOf(s'.waits, k) == WaitersOf(s.waits, k))
              && s'.sleeping == s.sleeping
  {
    hide Inv, Park, GivesWay;
    CurrentThere(s);
    ParkExact(s, FromWait(l), s.tasks[s.current].time, InBlock);
    var tcb := s.tasks[s.current];
    assert tcb.(state := Blocked, wake := Normal, detach := FromWait(l), time := tcb.time, call := InBlock)
        == tcb.(state := Blocked, wake := Normal, detach := FromWait(l), call := InBlock);
  }

  lemma CurrentThere(s: Sched)
    requires Inv(s)
    ensures s.current in s.tasks && IDLE in s.tasks
  {
    hide ListsOk, Sorted, TcbsOk;
    CurrentKnown(s);
  }

  /** Before place p everybody wakes earlier, from there on nobody does. */
  ghost predicate SlotFor(q: seq<nat>, tasks: map<nat, Tcb>, time: int, p: nat) {
    && p <= |q|
    && (forall j :: 0 <= j < p ==> TimeOf(tasks, q[j]) < time)
    && (forall j :: p <= j < |q| ==> time <= TimeOf(tasks, q[j]))
  }

  lemma SleepPosSlot(q: seq<nat>, tasks: map<nat, Tcb>, time: int)
    requires Sorted(q, tasks)
    ensures SlotFor(q, tasks, time, SleepPos(q, tasks, time))
  {
    hide SleepPos;
    var p := SleepPos(q, tasks, time);
    forall j | p <= j < |q| ensures time <= TimeOf(tasks, q[j]) {
      assert p == j || TimeOf(tasks, q[p]) <= TimeOf(tasks, q[j]);
    }
  }

  /** A task that goes to sleep is blocked in the sleep queue under its deadline, before those that wake no earlier. */
  lemma SleepsUntil(s: Sched, ms: nat)
    requires Inv(s) && s.current != IDLE
    ensures Sleep(s, ms).Some? <==> s.disabled == 0
    ensures s.disabled == 0 ==>
              var s', until := Sleep(s, ms).value, (s.now + ms) % 0x1_0000_0000_0000_0000;
              && GivesWay(s, s', s.tasks[s.current].(
                             state := Blocked, wake := Normal, detach := FromSleep, time := until,
                             call := InSleep(until)))
              && s'.waits == s.waits
              && exists p: nat :: SlotFor(s.sleeping, s.tasks, until, p)
                                  && s'.sleeping == s.sleeping[..p] + [s.current] + s.sleeping[p..]
  {
    hide ListsOk, Sorted, TcbsOk, Park, GivesWay, SleepPos, SlotFor;
    CurrentThere(s);
    var until := (s.now + ms) % TIME_WRAP;
    ParkExact(s, FromSleep, until, InSleep(until));
    SleepPosSlot(s.sleeping, s.tasks, until);
  }

  /** A yield that is refused is remembered; one with nobody queued changes nothing; any other puts the front of the
      queue on the processor and the caller, unless it is the idle task, at the end. */
  lemma YieldExact(s: Sched)
    requires Inv(s)
    ensures var s' := Yield(s);
            && (s.disabled != 0 ==> s' == s.(needYield := true))
            && (s.disabled == 0 && s.pending == [] ==> s' == s)
            && (s.disabled == 0 && s.pending != [] ==>
                  && s'.current == s.pending[0] && s.pending[0] in s.tasks && s.pending[0] != s.current
                  && s'.pending == s.pending[1..] + (if s.current == IDLE then [] else [s.current])
                  && s' == s.(current := s'.current, pending := s'.pending,
                              tasks := s.tasks[s.current := s.tasks[s.current].(state := Ready)][
                                s.pending[0] := s.tasks[s.pending[0]].(state := Running)]))
  {
    hide ListsOk, Sorted, TcbsOk;
    CurrentKnown(s);
    NextReady(s);
    RunningAwake(s);
  }

  /** The yield that was refused happens when the last enableYield comes, and only then. */
  lemma EnableExact(s: Sched)
    requires Inv(s) && s.disabled > 0
    ensures var s' := EnableYield(s);
            && s'.disabled == s.disabled - 1
            && (s.disabled > 1 || !s.needYield ==> s' == s.(disabled := s.disabled - 1))
            && (s.disabled == 1 && s.needYield ==>
                  !s'.needYield && s'.current == if s.pending == [] then s.current else s.pending[0])
  {
    hide ListsOk, Sorted, TcbsOk;
    CurrentKnown(s);
    NextReady(s);
    DisabledLoose(s, s.disabled - 1, false);
  }

  /** wake makes a blocked task ready, tells it the reason, and moves it from its list to the end of the queue; it does
      nothing to any other task. */
  lemma WakeExact(s: Sched, t: nat, reason: WakeReason)
    requires ListsOk(s) && t in s.tasks
    ensures var s' := Wake(s, t, reason);
            && (s.tasks[t].state != Blocked ==> s' == s)
            && (s.tasks[t].state == Blocked ==>
                  && s'.pending == s.pending + [t]
                  && s'.tasks == s.tasks[t := s.tasks[t].(state := Ready, wake := reason, detach := Nowhere)]
                  && (forall u :: u in s'.sleeping <==> u in s.sleeping && u != t)
                  && (forall l, u :: u in WaitersOf(s'.waits, l) <==> u in WaitersOf(s.waits, l) && u != t)
                  && s' == s.(pending := s'.pending, tasks := s'.tasks, sleeping := s'.sleeping, waits := s'.waits))
  {
    hide Sorted, PendingOk, Remove;
    if s.tasks[t].state == Blocked {
      var d := s.tasks[t].detach;
      if d.FromWait? {
        assert WaitListOk(WaitersOf(s.waits, d.list), s.tasks, d.list);
        RemoveMembers(WaitersOf(s.waits, d.list), t);
      }
      RemoveMembers(s.sleeping, t);
      forall l | !IsWaiting(s.tasks[t], l) ensures t !in WaitersOf(s.waits, l) {
        assert WaitListOk(WaitersOf(s.waits, l), s.tasks, l);
      }
    }
  }

  /** wakeOne wakes the first in the list, if there is one. */
  lemma WakeOneExact(s: Sched, l: ListId, reason: WakeReason)
    requires ListsOk(s)
    ensures var s', q := WakeOne(s, l, reason), WaitersOf(s.waits, l);
            && (q == [] ==> s' == s)
            && (q != [] ==>
                  && q[0] in s.tasks && s'.pending == s.pending + [q[0]] && WaitersOf(s'.waits, l) == q[1..]
                  && s'.tasks == s.tasks[q[0] := s.tasks[q[0]].(state := Ready, wake := reason, detach := Nowhere)]
                  && (forall k :: k != l ==> WaitersOf(s'.waits, k) == WaitersOf(s.waits, k))
                  && s' == s.(pending := s'.pending, tasks := s'.tasks, waits := s'.waits))
  {
    hide ListsOk, WakeFront, Wake;
    if WaitersOf(s.waits, l) != [] {
      WakeFrontIs(s, l, reason);
    }
  }

  /** A millisecond passes: the due sleepers join the queue; every tenth one the queue is served, or the wish to serve
      it remembered. */
  lemma TickExact(s: Sched)
    requires Inv(s)
    ensures var s', n := Tick(s), Due(s.sleeping, s.tasks, s.now + 1);
            var q := s.pending + s.sleeping[..n];
            && s'.now == s.now + 1 && s'.sleeping == s.sleeping[n..] && s'.waits == s.waits && s'.disabled == s.disabled
            && ((s.now + 1) % 10 != 0 ==> s'.current == s.current && s'.pending == q && s'.needYield == s.needYield)
            && ((s.now + 1) % 10 == 0 && s.disabled != 0 ==> s'.current == s.current && s'.pending == q && s'.needYield)
            && ((s.now + 1) % 10 == 0 && s.disabled == 0 ==>
                  s'.current == (if q == [] then s.current else q[0]) && s'.needYield == s.needYield)
  {
    hide ListsOk, Sorted, TcbsOk, WakeSleepers;
    LaterLoose(s);
    CurrentKnown(s);
    RunningAwake(s);
    WakeSleepersExact(s.(now := s.now + 1));
    NextReady(WakeSleepers(s.(now := s.now + 1)));
  }

  /** Only init cannot exit. */
  lemma ExitHaltsIff(s: Sched, closing: seq<ListId>)
    requires Inv(s) && s.current != IDLE
    ensures Exit(s, closing).None? <==> s.current == 1
  {
    hide Inv, WakeEach, NotifyParent;
  }

  ghost predicate WaitsIn(tcb: Tcb, ls: seq<ListId>) {
    exists l :: l in ls && IsWaiting(tcb, l)
  }

  lemma {:induction false} WakeEachExact(s: Sched, ls: seq<ListId>)
    requires Inv(s)
    ensures var s' := WakeEach(s, ls);
            && s'.tasks.Keys == s.tasks.Keys && s'.current == s.current
            && forall t :: t in s.tasks ==>
                 s'.tasks[t] == if WaitsIn(s.tasks[t], ls) then Woken(s.tasks[t], Normal) else s.tasks[t]
    decreases |ls|
  {
    hide ListsOk, Sorted, TcbsOk, WakeAll;
    if ls != [] {
      CurrentKnown(s);
      RunningAwake(s);
      WakeAllLoose(s, ls[0], Normal);
      WakeAllKeeps(s, ls[0], Normal);
      var s1 := WakeAll(s, ls[0], Normal);
      WakeEachExact(s1, ls[1..]);
      forall t | t in s.tasks
        ensures WaitsIn(s.tasks[t], ls) <==> IsWaiting(s.tasks[t], ls[0]) || WaitsIn(s.tasks[t], ls[1..])
      {
        WaitsStep(s.tasks[t], ls);
      }
    }
  }

  lemma WaitsStep(tcb: Tcb, ls: seq<ListId>)
    requires ls != []
    ensures WaitsIn(tcb, ls) <==> IsWaiting(tcb, ls[0]) || WaitsIn(tcb, ls[1..])
  {
    hide IsWaiting;
    assert ls == [ls[0]] + ls[1..];
  }

  lemma NotifyParentFrame(s: Sched, parent: nat)
    requires Loose(s)
    ensures var s' := NotifyParent(s, parent);
            && s'.tasks.Keys == s.tasks.Keys && s'.current == s.current
            && (forall t :: t in s.tasks && t != parent ==> s'.tasks[t] == s.tasks[t])
            && (parent in s.tasks && s.tasks[parent].state !in {Blocked, Exited} ==>
                  s'.tasks[parent] == s.tasks[parent].(signals := s.tasks[parent].signals + {SIGCHLD}))
  {
    hide ListsOk, Sorted, WakeAll, SendSignal;
    if parent in s.tasks {
      WakeAllLoose(s, Children(parent), Normal);
      WakeAllKeeps(s, Children(parent), Normal);
      SendSignalExact(WakeAll(s, Children(parent), Normal), parent, SIGCHLD);
      forall t | t in s.tasks && t != parent ensures !IsWaiting(s.tasks[t], Children(parent)) {
        TcbOk(s.tasks, s.now, t);
      }
    }
  }

  /** An exit wakes those who wait for what it closes, normally; besides them and the parent no task but the next one
      to run changes. */
  lemma ExitExact(s: Sched, closing: seq<ListId>)
    requires Inv(s) && s.current != IDLE && Exit(s, closing).Some?
    ensures var s', parent := Exit(s, closing).value, s.tasks[s.current].parent;
            && s'.tasks.Keys == s.tasks.Keys && s'.tasks[s.current] == s.tasks[s.current].(state := Exited)
            && forall t :: t in s.tasks && t != s.current && t != parent ==>
                 var tcb := if WaitsIn(s.tasks[t], closing) then Woken(s.tasks[t], Normal) else s.tasks[t];
                 s'.tasks[t] == if t == s'.current then tcb.(state := Running) else tcb
  {
    hide ListsOk, Sorted, TcbsOk, WakeEach, NotifyParent;
    CurrentKnown(s);
    WakeEachKeeps(s, closing);
    WakeEachExact(s, closing);
    var s1 := WakeEach(s, closing);
    ExitedKeeps(s1);
    var s2 := s1.(tasks := s1.tasks[s1.current := s1.tasks[s1.current].(state := Exited)]);
    var parent := s2.tasks[s2.current].parent;
    NotifyParentKeeps(s2, parent);
    NotifyParentFrame(s2, parent);
    NextReady(NotifyParent(s2, parent));
  }

  /** freeTask empties the slot of an exited task and touches nothing else. */
  lemma FreeTaskExact(s: Sched, t: nat)
    ensures var s' := FreeTask(s, t);
            && (t in s'.tasks <==> t in s.tasks && s.tasks[t].state != Exited)
            && (forall u :: u != t ==>
                  (u in s'.tasks <==> u in s.tasks) && (u in s.tasks ==> s'.tasks[u] == s.tasks[u]))
            && s' == s.(tasks := s'.tasks) && (t in s'.tasks ==> s'.tasks[t] == s.tasks[t])
  {
  }

  // ----- Runs

  datatype Op =
    | OpYield
    | OpBlock
    | OpSleep(ms: nat)
    | OpWait(list: ListId)
    | OpResume
    | OpExit(closing: seq<ListId>)
    | OpDisable
    | OpEnable
    | OpTick
    | OpWake(task: nat, reason: WakeReason)
    | OpWakeOne(list: ListId, reason: WakeReason)
    | OpWakeAll(list: ListId, reason: WakeReason)
    | OpSignal(task: nat, sig: nat)
    | OpHandle(signals: set<nat>, mask: set<nat>)
    | OpAdd(parent: nat, mask: set<nat>)
    | OpFree(task: nat)

  /** What the callers keep to: the idle task never blocks or exits, a task waits for its own children only,
      yielding is enabled as often as it was disabled, sleepers are woken early by signals only, and new
      tasks get unused numbers. */
  predicate Allowed(s: Sched, op: Op) {
    match op
    case OpBlock => s.current != IDLE
    case OpSleep(_) => s.current != IDLE
    case OpWait(l) => s.current != IDLE && (l.Children? ==> l.pid == s.current)
    case OpExit(_) => s.current != IDLE
    case OpEnable => s.disabled > 0
    case OpWake(t, reason) => t in s.tasks && (reason == Normal ==> !IsAsleep(s.tasks[t]))
    case OpSignal(t, _) => t in s.tasks
    case _ => true
  }

  /** One step; None where the kernel stops for good.  OpHandle stands for whatever the current task does to
      its own pending signals and mask. */
  function Step(s: Sched, op: Op): Option<Sched>
    requires Inv(s) && Allowed(s, op)
  {
    match op
    case OpYield => Some(Yield(s))
    case OpBlock => Block(s)
    case OpSleep(ms) => Sleep(s, ms)
    case OpWait(l) => WaitOn(s, l)
    case OpResume => Some(Resume(s).0)
    case OpExit(closing) => Exit(s, closing)
    case OpDisable => Some(s.(disabled := s.disabled + 1))
    case OpEnable => Some(EnableYield(s))
    case OpTick => Some(Tick(s))
    case OpWake(t, reason) => Some(Wake(s, t, reason))
    case OpWakeOne(l, reason) => Some(WakeOne(s, l, reason))
    case OpWakeAll(l, reason) => Some(WakeAll(s, l, reason))
    case OpSignal(t, sig) => Some(SendSignal(s, t, sig))
    case OpHandle(signals, mask) =>
      Some(s.(tasks := s.tasks[s.current := s.tasks[s.current].(signals := signals, mask := mask)]))
    case OpAdd(parent, mask) => AddTask(s, parent, mask)
    case OpFree(t) => Some(FreeTask(s, t))
  }

  /** The task that a step puts on the processor, if it takes one from the ready queue. */
  function Dispatched(s: Sched, s': Sched): seq<nat> {
    if s'.current != s.current && s'.current != IDLE then [s'.current] else []
  }

  /** First in, first out: the queue gives up its front only, grows at its end only, and the idle task gets
      the processor only when nobody is queued. */
  predicate Fifo(s: Sched, s': Sched) {
    && s.pending <= Dispatched(s, s') + s'.pending
    && (s'.current == IDLE != s.current ==> s'.pending == [])
  }

  lemma FifoAfter(s: Sched, s1: Sched, s2: Sched)
    requires s1.current == s.current && s.pending <= s1.pending && Fifo(s1, s2)
    ensures Fifo(s, s2)
  {
  }

  lemma YieldFifo(s: Sched)
    requires ListsOk(s) && s.tasks[s.current].state != Ready
    ensures Fifo(s, Yield(s))
  {
  }

  /** Whoever yields with somebody queued makes way for the front of the queue, and joins its end unless it is
      blocked, exited or idle. */
  lemma YieldDispatches(s: Sched)
    requires ListsOk(s) && s.disabled == 0 && s.pending != []
    ensures Yield(s).current == s.pending[0] && s.pending[0] in s.tasks
    ensures Yield(s).pending ==
            if s.tasks[s.current].state == Running && s.current != IDLE then s.pending[1..] + [s.current]
              else s.pending[1..]
  {
  }

  /** Every tenth millisecond the front of the queue gets the processor. */
  lemma TimeSlice(s: Sched)
    requires Inv(s) && s.disabled == 0 && s.pending != [] && (s.now + 1) % 10 == 0
    ensures Tick(s).current == s.pending[0] && Dispatched(s, Tick(s)) == [s.pending[0]]
  {
    hide ListsOk, Sorted, TcbsOk, WakeSleepers, Yield;
    LaterLoose(s);
    var s1 := s.(now := s.now + 1);
    WakeSleepersExact(s1);
    YieldDispatches(WakeSleepers(s1));
    RunningAwake(s);
    NextReady(s);
  }

  /** A yield that was asked for while yielding was disabled happens when it is enabled again. */
  lemma DeferredYield(s: Sched)
    requires Inv(s) && s.disabled == 1 && s.needYield && s.pending != []
    ensures EnableYield(s).current == s.pending[0] && !EnableYield(s).needYield
  {
    hide PendingOk, SleepingOk, WaitsOk, Sorted, TcbsOk;
  }

  lemma ParkFifo(s: Sched, detach: Detach, time: int, call: Call)
    requires Inv(s) && s.current != IDLE && (call.InSleep? ==> detach == FromSleep && time == call.until)
    requires detach.FromWait? && detach.list.Children? ==> detach.list.pid == s.current
    requires Park(s, detach, time, call).Some?
    ensures Fifo(s, Park(s, detach, time, call).value)
  {
    hide PendingOk, SleepingOk, WaitsOk, TcbsOk, Sorted, Yield, Fifo;
    var tcb := s.tasks[s.current].(state := Blocked, wake := Normal, detach := detach, time := time, call := call);
    ParkedKeeps(s, tcb);
    YieldFifo(Parked(s, tcb));
    FifoAfter(s, Parked(s, tcb), Yield(Parked(s, tcb)));
  }

  lemma {:induction false} WakeEachGrows(s: Sched, ls: seq<ListId>)
    requires Inv(s)
    ensures s.pending <= WakeEach(s, ls).pending
    decreases |ls|
  {
    hide ListsOk, Sorted, TcbsOk, WakeAll;
    if ls != [] {
      CurrentKnown(s);
      RunningAwake(s);
      WakeAllLoose(s, ls[0], Normal);
      WakeAllKeeps(s, ls[0], Normal);
      WakeEachGrows(WakeAll(s, ls[0], Normal), ls[1..]);
    }
  }

  lemma NotifyParentGrows(s: Sched, parent: nat)
    requires Loose(s)
    ensures s.pending <= NotifyParent(s, parent).pending
  {
    hide ListsOk, Sorted, TcbsOk, WakeAll;
    if parent in s.tasks {
      WakeAllLoose(s, Children(parent), Normal);
      WakeAllKeeps(s, Children(parent), Normal);
    }
  }

  lemma ExitFifo(s: Sched, closing: seq<ListId>)
    requires Inv(s) && s.current != IDLE && Exit(s, closing).Some?
    ensures Fifo(s, Exit(s, closing).value)
  {
    hide ListsOk, Sorted, TcbsOk, WakeEach, NotifyParent;
    CurrentKnown(s);
    WakeEachKeeps(s, closing);
    WakeEachGrows(s, closing);
    var s1 := WakeEach(s, closing);
    ExitedKeeps(s1);
    var s2 := s1.(tasks := s1.tasks[s1.current := s1.tasks[s1.current].(state := Exited)]);
    NotifyParentKeeps(s2, s2.tasks[s2.current].parent);
    NotifyParentGrows(s2, s2.tasks[s2.current].parent);
    var s3 := NotifyParent(s2, s2.tasks[s2.current].parent);
    NextReady(s3);
    if s3.pending != [] {
      assert s3.pending == [s3.pending[0]] + s3.pending[1..];
    }
  }

  lemma TickFifo(s: Sched)
    requires Inv(s)
    ensures Fifo(s, Tick(s))
  {
    hide ListsOk, Sorted, TcbsOk, WakeSleepers, Yield, Fifo;
    LaterLoose(s);
    var s1 := s.(now := s.now + 1);
    WakeSleepersExact(s1);
    RunningAwake(s);
    var s2 := WakeSleepers(s1);
    if s2.now % 10 == 0 {
      YieldFifo(s2);
      FifoAfter(s, s2, Yield(s2));
    } else {
      FifoIdle(s, s2);
    }
  }

  lemma FifoIdle(s: Sched, s': Sched)
    requires s'.current == s.current && s.pending <= s'.pending
    ensures Fifo(s, s')
  {
  }

  /** Every step keeps the invariant and the order of the queue. */
  lemma StepKeeps(s: Sched, op: Op)
    requires Inv(s) && Allowed(s, op) && Step(s, op).Some?
    ensures Inv(Step(s, op).value) && Fifo(s, Step(s, op).value)
  {
    hide ListsOk, Sorted, TcbsOk, Yield, Wake, WakeFront, WakeAll, Exit, Tick, Fifo, SendSignal, Park, WakeSleepers;
    CurrentKnown(s);
    match op {
      case OpYield => YieldLoose(s); YieldFifo(s);
      case OpBlock =>
        ParkKeeps(s, Nowhere, s.tasks[s.current].time, InBlock);
        ParkFifo(s, Nowhere, s.tasks[s.current].time, InBlock);
      case OpSleep(ms) =>
        var until := (s.now + ms) % TIME_WRAP;
        ParkKeeps(s, FromSleep, until, InSleep(until));
        ParkFifo(s, FromSleep, until, InSleep(until));
      case OpWait(l) =>
        ParkKeeps(s, FromWait(l), s.tasks[s.current].time, InBlock);
        ParkFifo(s, FromWait(l), s.tasks[s.current].time, InBlock);
      case OpResume => ResumeKeeps(s); FifoIdle(s, Resume(s).0);
      case OpExit(closing) => ExitKeeps(s, closing); ExitFifo(s, closing);
      case OpDisable => DisabledLoose(s, s.disabled + 1, s.needYield); FifoIdle(s, s.(disabled := s.disabled + 1));
      case OpEnable => EnableKeeps(s);
      case OpTick => TickKeeps(s); TickFifo(s);
      case OpWake(t, reason) => WakeStep(s, t, reason);
      case OpWakeOne(l, reason) => WakeOneStep(s, l, reason);
      case OpWakeAll(l, reason) => WakeAllStep(s, l, reason);
      case OpSignal(t, sig) => SignalStep(s, t, sig);
      case OpHandle(signals, mask) =>
        SignalsFrame(s, s.current, s.tasks[s.current].(signals := signals, mask := mask));
        FifoIdle(s, s.(tasks := s.tasks[s.current := s.tasks[s.current].(signals := signals, mask := mask)]));
      case OpAdd(parent, mask) =>
        AddTaskKeeps(s, parent, mask);
        FifoIdle(s, AddTask(s, parent, mask).value);
      case OpFree(t) => FreeStep(s, t);
    }
  }

  lemma DisabledLoose(s: Sched, disabled: nat, needYield: bool)
    requires Inv(s)
    ensures Inv(s.(disabled := disabled, needYield := needYield))
  {
  }

  lemma EnableKeeps(s: Sched)
    requires Inv(s) && s.disabled > 0
    ensures Inv(EnableYield(s)) && Fifo(s, EnableYield(s))
  {
    hide ListsOk, Sorted, TcbsOk, Yield, Fifo;
    var s1 := s.(disabled := s.disabled - 1);
    DisabledLoose(s, s1.disabled, s.needYield);
    if s1.disabled == 0 && s1.needYield {
      var s2 := s1.(needYield := false);
      DisabledLoose(s, 0, false);
      YieldLoose(s2);
      YieldFifo(s2);
      FifoAfter(s, s2, Yield(s2));
    } else {
      FifoIdle(s, s1);
    }
  }

  lemma WakeStep(s: Sched, t: nat, reason: WakeReason)
    requires Inv(s) && t in s.tasks && (reason == Normal ==> !IsAsleep(s.tasks[t]))
    ensures Inv(Wake(s, t, reason)) && Fifo(s, Wake(s, t, reason))
  {
    hide ListsOk, Sorted, TcbsOk, Remove;
    CurrentKnown(s);
    WakeKeepsLoose(s, t, reason);
  }

  lemma WakeOneStep(s: Sched, l: ListId, reason: WakeReason)
    requires Inv(s)
    ensures Inv(WakeOne(s, l, reason)) && Fifo(s, WakeOne(s, l, reason))
  {
    hide ListsOk, Sorted, TcbsOk, WakeFront, Wake, Fifo;
    if WaitersOf(s.waits, l) == [] {
      FifoIdle(s, s);
    } else {
      WakeFrontIs(s, l, reason);
      WakeStep(s, WaitersOf(s.waits, l)[0], reason);
    }
  }

  lemma WakeAllStep(s: Sched, l: ListId, reason: WakeReason)
    requires Inv(s)
    ensures Inv(WakeAll(s, l, reason)) && Fifo(s, WakeAll(s, l, reason))
  {
    hide ListsOk, Sorted, TcbsOk, WakeAll;
    CurrentKnown(s);
    WakeAllLoose(s, l, reason);
    WakeAllKeeps(s, l, reason);
  }

  lemma SignalStep(s: Sched, t: nat, sig: nat)
    requires Inv(s) && t in s.tasks
    ensures Inv(SendSignal(s, t, sig)) && Fifo(s, SendSignal(s, t, sig))
  {
    hide ListsOk, Sorted, TcbsOk, Remove;
    CurrentKnown(s);
    SendSignalKeeps(s, t, sig);
  }

  lemma FreeStep(s: Sched, t: nat)
    requires Inv(s)
    ensures Inv(FreeTask(s, t)) && Fifo(s, FreeTask(s, t))
  {
    hide ListsOk, Sorted, TcbsOk;
    CurrentKnown(s);
    if t in s.tasks && s.tasks[t].state == Exited {
      FreeTaskSafe(s, t);
    }
  }

  /** A run: the last state, and the tasks taken from the ready queue, in order.  None if a caller breaks
      the rules or the kernel stops. */
  function Run(s: Sched, ops: seq<Op>): Option<(Sched, seq<nat>)>
    requires Inv(s)
    decreases |ops|
  {
    if ops == [] then Some((s, []))
    else if !Allowed(s, ops[0]) || Step(s, ops[0]).None? then None
    else
      var s1 := Step(s, ops[0]).value;
      StepKeeps(s, ops[0]);
      match Run(s1, ops[1..])
      case None => None
      case Some((s', ds)) => Some((s', Dispatched(s, s1) + ds))
  }

  /** In every run the one-list invariant holds throughout, and the queue at the start is a prefix of the
      tasks dispatched since followed by the queue at the end. */
  lemma {:induction false} RunKeeps(s: Sched, ops: seq<Op>)
    requires Inv(s) && Run(s, ops).Some?
    ensures var (s', ds) := Run(s, ops).value; Inv(s') && s.pending <= ds + s'.pending
    decreases |ops|
  {
    hide Inv, Step, Allowed, Fifo, Dispatched;
    if ops != [] {
      var s1 := Step(s, ops[0]).value;
      StepKeeps(s, ops[0]);
      RunKeeps(s1, ops[1..]);
      FifoPrefix(s, s1);
      var (s', ds) := Run(s1, ops[1..]).value;
      PrefixesJoin(s.pending, Dispatched(s, s1), s1.pending, ds, s'.pending);
    }
  }

  /** A step stops the kernel exactly if it blocks with yielding disabled, if init exits, or if all pids are taken. */
  lemma StepStopsIff(s: Sched, op: Op)
    requires Inv(s) && Allowed(s, op)
    ensures Step(s, op).None? <==>
            || ((op.OpBlock? || op.OpSleep? || op.OpWait?) && s.disabled != 0)
            || (op.OpExit? && s.current == 1)
            || (op.OpAdd? && forall q :: 16 <= q < 256 ==> q in s.tasks)
  {
    hide Inv, Exit, Yield, Tick, FreePid, Parked;
    match op
    case OpExit(closing) => ExitHaltsIff(s, closing);
    case _ =>
  }

  /** The run comes to step i, which breaks the rules or stops the kernel. */
  ghost predicate StuckAt(s: Sched, ops: seq<Op>, i: nat)
    requires Inv(s) && i < |ops|
  {
    && Run(s, ops[..i]).Some?
    && var s' := Run(s, ops[..i]).value.0;
    Inv(s') && (!Allowed(s', ops[i]) || Step(s', ops[i]).None?)
  }

  /** A run comes to its end exactly if it has no such step. */
  lemma {:induction false} RunStuckIff(s: Sched, ops: seq<Op>)
    requires Inv(s)
    ensures Run(s, ops).None? <==> exists i: nat :: i < |ops| && StuckAt(s, ops, i)
    decreases |ops|
  {
    hide Inv, Allowed, Step, StuckAt, Fifo;
    if ops != [] {
      StuckFirst(s, ops);
      if Allowed(s, ops[0]) && Step(s, ops[0]).Some? {
        StepKeeps(s, ops[0]);
        var s1 := Step(s, ops[0]).value;
        RunStuckIff(s1, ops[1..]);
        forall i: nat | i < |ops| - 1 ensures StuckAt(s1, ops[1..], i) <==> StuckAt(s, ops, i + 1) {
          StuckLater(s, ops, s1, i);
        }
        if i: nat :| i < |ops| && StuckAt(s, ops, i) {
          assert StuckAt(s1, ops[1..], i - 1);
        }
        if i: nat :| i < |ops| - 1 && StuckAt(s1, ops[1..], i) {
          assert StuckAt(s, ops, i + 1);
        }
      }
    }
  }

  lemma StuckFirst(s: Sched, ops: seq<Op>)
    requires Inv(s) && ops != []
    ensures StuckAt(s, ops, 0) <==> !Allowed(s, ops[0]) || Step(s, ops[0]).None?
  {
    hide Inv, Allowed, Step;
    assert ops[..0] == [];
  }

  lemma StuckLater(s: Sched, ops: seq<Op>, s1: Sched, i: nat)
    requires Inv(s) && i < |ops| - 1 && Allowed(s, ops[0]) && Step(s, ops[0]) == Some(s1) && Inv(s1)
    ensures StuckAt(s1, ops[1..], i) <==> StuckAt(s, ops, i + 1)
  {
    hide Inv, Allowed, Step;
    assert ops[..i + 1][0] == ops[0] && ops[..i + 1][1..] == ops[1..][..i];
  }

  // The reason a task was woken for reaches it.

  /** tcb' is tcb as others may leave a task that waits for its turn: dispatched perhaps, and with more signals. */
  ghost predicate LeftAlone(tcb: Tcb, tcb': Tcb) {
    && tcb' == tcb.(state := tcb'.state, signals := tcb'.signals) && tcb.signals <= tcb'.signals
    && tcb'.state in {Ready, Running}
  }

  lemma ExitLeaves(s: Sched, closing: seq<ListId>, t: nat)
    requires Inv(s) && s.current != IDLE && Exit(s, closing).Some? && t in s.tasks && s.tasks[t].state == Ready
    ensures t in Exit(s, closing).value.tasks && LeftAlone(s.tasks[t], Exit(s, closing).value.tasks[t])
  {
    hide ListsOk, Sorted, TcbsOk, WakeEach, NotifyParent;
    CurrentKnown(s);
    WakeEachKeeps(s, closing);
    WakeEachExact(s, closing);
    var s1 := WakeEach(s, closing);
    ExitedKeeps(s1);
    var s2 := s1.(tasks := s1.tasks[s1.current := s1.tasks[s1.current].(state := Exited)]);
    var parent := s2.tasks[s2.current].parent;
    NotifyParentKeeps(s2, parent);
    NotifyParentFrame(s2, parent);
    NextReady(NotifyParent(s2, parent));
  }

  lemma YieldLeaves(s: Sched, t: nat)
    requires Loose(s) && t in s.tasks && s.tasks[t].state == Ready
    ensures t in Yield(s).tasks && LeftAlone(s.tasks[t], Yield(s).tasks[t])
  {
    hide ListsOk, Sorted, TcbsOk;
    CurrentKnown(s);
    NextReady(s);
  }

  lemma TickLeaves(s: Sched, t: nat)
    requires Inv(s) && t in s.tasks && s.tasks[t].state == Ready
    ensures t in Tick(s).tasks && LeftAlone(s.tasks[t], Tick(s).tasks[t])
  {
    hide Sorted, TcbsOk, WakeSleepers, Yield, PendingOk, WaitsOk, TasksOk;
    LaterLoose(s);
    var s1 := s.(now := s.now + 1);
    WakeSleepersExact(s1);
    assert t !in s.sleeping;
    YieldLeaves(WakeSleepers(s1), t);
  }

  lemma ParkLeaves(s: Sched, detach: Detach, time: int, call: Call, t: nat)
    requires Inv(s) && s.current != IDLE && (call.InSleep? ==> detach == FromSleep && time == call.until)
    requires detach.FromWait? && detach.list.Children? ==> detach.list.pid == s.current
    requires s.disabled == 0 && t in s.tasks && s.tasks[t].state == Ready
    ensures var r := Park(s, detach, time, call);
            r.Some? && t in r.value.tasks && LeftAlone(s.tasks[t], r.value.tasks[t])
  {
    hide ListsOk, Sorted, TcbsOk, Park;
    CurrentKnown(s);
    ParkExact(s, detach, time, call);
  }

  lemma EnableLeaves(s: Sched, t: nat)
    requires Inv(s) && s.disabled > 0 && t in s.tasks && s.tasks[t].state == Ready
    ensures t in EnableYield(s).tasks && LeftAlone(s.tasks[t], EnableYield(s).tasks[t])
  {
    hide ListsOk, Sorted, TcbsOk, Yield;
    DisabledLoose(s, s.disabled - 1, false);
    YieldLeaves(s.(disabled := s.disabled - 1, needYield := false), t);
  }

  /** What others do leaves a task that waits for its turn as it is. */
  lemma StepLeaves(s: Sched, op: Op, t: nat)
    requires Inv(s) && Allowed(s, op) && Step(s, op).Some? && t in s.tasks && s.tasks[t].state == Ready
    ensures var s' := Step(s, op).value; t in s'.tasks && LeftAlone(s.tasks[t], s'.tasks[t])
  {
    hide ListsOk, Sorted, TcbsOk, Yield, Wake, WakeFront, WakeAll, Exit, Tick, SendSignal, Park, EnableYield, WakeOne,
         AddTask;
    CurrentKnown(s);
    StepStopsIff(s, op);
    match op {
      case OpYield => YieldLeaves(s, t);
      case OpBlock => ParkLeaves(s, Nowhere, s.tasks[s.current].time, InBlock, t);
      case OpSleep(ms) =>
        var until := (s.now + ms) % TIME_WRAP;
        ParkLeaves(s, FromSleep, until, InSleep(until), t);
      case OpWait(l) => ParkLeaves(s, FromWait(l), s.tasks[s.current].time, InBlock, t);
      case OpExit(closing) => ExitLeaves(s, closing, t);
      case OpEnable => EnableLeaves(s, t);
      case OpTick => TickLeaves(s, t);
      case OpWake(u, reason) => WakeExact(s, u, reason);
      case OpWakeOne(l, reason) => WakeOneLeaves(s, l, reason, t);
      case OpWakeAll(l, reason) => WakeAllKeeps(s, l, reason);
      case OpSignal(u, sig) => SendSignalExact(s, u, sig);
      case OpAdd(parent, mask) => AddTaskKeeps(s, parent, mask);
      case OpFree(u) => FreeTaskExact(s, u);
      case _ =>
    }
  }

  lemma WakeOneLeaves(s: Sched, l: ListId, reason: WakeReason, t: nat)
    requires ListsOk(s) && t in s.tasks && s.tasks[t].state == Ready
    ensures var s' := WakeOne(s, l, reason); t in s'.tasks && LeftAlone(s.tasks[t], s'.tasks[t])
  {
    hide ListsOk, WakeOne;
    WakeOneExact(s, l, reason);
    if WaitersOf(s.waits, l) != [] {
      WaiterKnown(s, l, WaitersOf(s.waits, l)[0]);
    }
  }

  /** Task t does not have the processor when any of the steps begins. */
  ghost predicate Elsewhere(s: Sched, ops: seq<Op>, t: nat)
    requires Inv(s) && Run(s, ops).Some?
    decreases |ops|
  {
    ops != [] ==>
      && s.current != t
      && var s1 := Step(s, ops[0]).value;
      StepKeeps(s, ops[0]);
      Elsewhere(s1, ops[1..], t)
  }

  lemma {:induction false} RunLeaves(s: Sched, ops: seq<Op>, t: nat)
    requires Inv(s) && Run(s, ops).Some? && Elsewhere(s, ops, t)
    requires t in s.tasks && s.tasks[t].state in {Ready, Running}
    ensures var s' := Run(s, ops).value.0; t in s'.tasks && LeftAlone(s.tasks[t], s'.tasks[t])
    decreases |ops|
  {
    hide Loose, Step, Allowed, Fifo;
    if ops != [] {
      ReadyThen(s, t);
      StepLeaves(s, ops[0], t);
      StepKeeps(s, ops[0]);
      RunLeaves(Step(s, ops[0]).value, ops[1..], t);
    }
  }

  lemma ReadyThen(s: Sched, t: nat)
    requires Inv(s) && t in s.tasks && s.tasks[t].state in {Ready, Running} && t != s.current
    ensures s.tasks[t].state == Ready
  {
  }

  /** The reason for which a blocked task is woken is the one its call returns, whatever happens until it has the
      processor again; a sleep that a signal ended also reports the time that was left. */
  lemma ReasonReturned(s: Sched, t: nat, reason: WakeReason, ops: seq<Op>)
    requires Inv(s) && t in s.tasks && s.tasks[t].state == Blocked && Allowed(s, OpWake(t, reason))
    requires Inv(Wake(s, t, reason)) && Run(Wake(s, t, reason), ops).Some? && Elsewhere(Wake(s, t, reason), ops, t)
    ensures var s' := Run(Wake(s, t, reason), ops).value.0;
            s'.current == t ==>
              && t in s'.tasks && s'.tasks[t].call == s.tasks[t].call
              && var (after, r, rest) := Resume(s');
              && r == reason && after.tasks[t].wake == Normal && after.tasks[t].call == Program
              && rest == if s.tasks[t].call.InSleep? then Max(0, s.tasks[t].call.until - s'.now) else 0
  {
    hide Inv, Run, Elsewhere, Wake;
    WakeTells(s, t, reason);
    RunLeaves(Wake(s, t, reason), ops, t);
  }

  lemma WakeTells(s: Sched, t: nat, reason: WakeReason)
    requires Inv(s) && t in s.tasks && s.tasks[t].state == Blocked
    ensures var s' := Wake(s, t, reason); t in s'.tasks && s'.tasks[t] == Woken(s.tasks[t], reason)
  {
    hide ListsOk, Sorted, TcbsOk;
  }

  lemma PrefixesJoin(p: seq<nat>, d: seq<nat>, p1: seq<nat>, ds: seq<nat>, p2: seq<nat>)
    requires p <= d + p1 && p1 <= ds + p2
    ensures p <= d + ds + p2
  {
    assert d + p1 <= d + (ds + p2);
    assert d + (ds + p2) == d + ds + p2;
  }

  lemma FifoPrefix(s: Sched, s': Sched)
    requires Fifo(s, s')
    ensures s.pending <= Dispatched(s, s') + s'.pending
  {
  }

  /** No starvation: the task at index k of the ready queue is the (k+1)-th to be dispatched from then on;
      until then it moves up one place for every dispatch. */
  lemma NoStarvation(s: Sched, ops: seq<Op>, k: nat)
    requires Inv(s) && Run(s, ops).Some? && k < |s.pending|
    ensures var (s', ds) := Run(s, ops).value;
            if k < |ds| then ds[k] == s.pending[k]
            else k - |ds| < |s'.pending| && s'.pending[k - |ds|] == s.pending[k]
  {
    hide Inv, Run;
    RunKeeps(s, ops);
    var (s', ds) := Run(s, ops).value;
    assert s.pending[k] == (ds + s'.pending)[k];
  }

  function Ticks(ops: seq<Op>): nat {
    if ops == [] then 0 else (if ops[0].OpTick? then 1 else 0) + Ticks(ops[1..])
  }

  /** Whenever the timer ticks, yielding is enabled. */
  ghost predicate Preemptible(s: Sched, ops: seq<Op>)
    requires Inv(s) && Run(s, ops).Some?
    decreases |ops|
  {
    ops != [] ==>
      && (ops[0].OpTick? ==> s.disabled == 0)
      && var s1 := Step(s, ops[0]).value;
      StepKeeps(s, ops[0]);
      Preemptible(s1, ops[1..])
  }

  lemma {:induction false} WakeEachNow(s: Sched, ls: seq<ListId>)
    requires Loose(s)
    ensures WakeEach(s, ls).now == s.now
    decreases |ls|
  {
    hide ListsOk, Sorted, TcbsOk, WakeAll;
    if ls != [] {
      WakeAllLoose(s, ls[0], Normal);
      WakeAllNow(s, ls[0]);
      WakeEachNow(WakeAll(s, ls[0], Normal), ls[1..]);
    }
  }

  lemma WakeAllNow(s: Sched, l: ListId)
    requires Loose(s)
    ensures WakeAll(s, l, Normal).now == s.now
  {
    hide ListsOk, WakeAll;
    WakeAllKeeps(s, l, Normal);
  }

  /** Only the timer moves the clock. */
  lemma StepNow(s: Sched, op: Op)
    requires Inv(s) && Allowed(s, op) && Step(s, op).Some?
    ensures Step(s, op).value.now == s.now + if op.OpTick? then 1 else 0
  {
    hide ListsOk, Sorted, TcbsOk, WakeAll, WakeSleepers, Remove, FreePid, Exit, Tick;
    match op
    case OpExit(closing) => ExitNow(s, closing);
    case OpTick => TickNow(s);
    case OpWakeAll(l, reason) => WakeAllKeeps(s, l, reason);
    case _ =>
  }

  lemma ExitNow(s: Sched, closing: seq<ListId>)
    requires Inv(s) && s.current != IDLE && Exit(s, closing).Some?
    ensures Exit(s, closing).value.now == s.now
  {
    hide ListsOk, Sorted, TcbsOk, WakeEach, NotifyParent;
    WakeEachKeeps(s, closing);
    WakeEachNow(s, closing);
    var s1 := WakeEach(s, closing);
    CurrentKnown(s1);
    ExitedKeeps(s1);
    NotifyParentNow(s1.(tasks := s1.tasks[s1.current := s1.tasks[s1.current].(state := Exited)]),
                    s1.tasks[s1.current].parent);
  }

  lemma TickNow(s: Sched)
    requires Inv(s)
    ensures Tick(s).now == s.now + 1
  {
    hide ListsOk, Sorted, TcbsOk, WakeSleepers;
    LaterLoose(s);
    WakeSleepersExact(s.(now := s.now + 1));
  }

  lemma NotifyParentNow(s: Sched, parent: nat)
    requires Loose(s)
    ensures NotifyParent(s, parent).now == s.now
  {
    hide ListsOk, Sorted, TcbsOk, WakeAll, Remove;
    if parent in s.tasks {
      WakeAllLoose(s, Children(parent), Normal);
      WakeAllNow(s, Children(parent));
    }
  }

  /** As many tasks are dispatched as tenth milliseconds pass, while there are any queued. */
  lemma {:induction false} SlicesServe(s: Sched, ops: seq<Op>)
    requires Inv(s) && Run(s, ops).Some? && Preemptible(s, ops)
    ensures |Run(s, ops).value.1| >= Min(|s.pending|, (s.now + Ticks(ops)) / 10 - s.now / 10)
    decreases |ops|
  {
    hide Inv, Step, Allowed, Fifo;
    if ops != [] {
      var s1 := Step(s, ops[0]).value;
      StepKeeps(s, ops[0]);
      StepNow(s, ops[0]);
      FifoPrefix(s, s1);
      SlicesServe(s1, ops[1..]);
      if ops[0].OpTick? {
        TickSlice(s);
      }
    }
  }

  lemma TickSlice(s: Sched)
    requires Inv(s) && s.disabled == 0
    ensures Step(s, OpTick).Some?
    ensures (s.now + 1) % 10 == 0 && s.pending != [] ==> |Dispatched(s, Step(s, OpTick).value)| == 1
  {
    hide Inv, Tick;
    if (s.now + 1) % 10 == 0 && s.pending != [] {
      TimeSlice(s);
    }
  }

  /** With yielding enabled whenever the timer ticks, the task at index k of the ready queue has had the processor
      within 10 * (k + 1) milliseconds, whatever else happens. */
  lemma ServedWithin(s: Sched, ops: seq<Op>, k: nat)
    requires Inv(s) && Run(s, ops).Some? && Preemptible(s, ops) && k < |s.pending| && Ticks(ops) >= 10 * (k + 1)
    ensures var ds := Run(s, ops).value.1; k < |ds| && ds[k] == s.pending[k]
  {
    hide Inv, Run;
    SlicesServe(s, ops);
    NoStarvation(s, ops, k);
  }

  /** After setupKnownTasks: init runs, idle is ready and queued nowhere.  No task has number 0, which stands
      for the invalid parent. */
  function Boot(): Sched {
    Sched(INIT, [], [], map[], map[INIT := NewTcb(0, {}).(state := Running), IDLE := NewTcb(0, {})], 0, false, 0)
  }

  lemma BootedRun(ops: seq<Op>)
    ensures Inv(Boot()) && (Run(Boot(), ops).Some? ==> Inv(Run(Boot(), ops).value.0))
  {
    var s := Boot();
    assert Inv(s) by {
      assert forall l :: WaitListOk(WaitersOf(s.waits, l), s.tasks, l);
    }
    if Run(s, ops).Some? {
      RunKeeps(s, ops);
    }
  }
}
