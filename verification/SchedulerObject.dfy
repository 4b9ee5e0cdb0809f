/** The scheduler object and its wait lists as the kernel keeps them, updated in place.  Every method is
    proved to do what the step of the same name in module Scheduler does. */
module SchedulerObject {
  import opened Basics
  import opened Lists
  import opened Scheduler

  class TaskScheduler {
    var current: nat
    var pending: seq<nat>
    var sleeping: seq<nat>
    var waits: map<ListId, seq<nat>>
    var tasks: map<nat, Tcb>
    var disabled: nat
    var needYield: bool
    var now: int

    ghost function Value(): Sched
      reads this
    {
      Sched(current, pending, sleeping, waits, tasks, disabled, needYield, now)
    }

    constructor ()
      ensures Value() == Boot() && Inv(Value())
    {
      current, pending, sleeping, waits := INIT, [], [], map[];
      tasks := map[INIT := NewTcb(0, {}).(state := Running), IDLE := NewTcb(0, {})];
      disabled, needYield, now := 0, false, 0;
      BootedRun([]);
    }

    method SwitchTo(next: nat)
      requires next in tasks
      modifies this`current, this`tasks
      ensures Value() == Switch(old(Value()), next)
    {
      current := next;
      tasks := tasks[next := tasks[next].(state := Running)];
    }

    method YieldCpu()
      requires ListsOk(Value())
      modifies this
      ensures Value() == Yield(old(Value()))
    {
      hide SleepingOk, WaitsOk;
      if disabled != 0 {
        needYield := true;
        return;
      }
      if pending != [] {
        var next := pending[0];
        FrontReady(pending, tasks);
        pending := pending[1..];
        if tasks[current].state == Running {
          tasks := tasks[current := tasks[current].(state := Ready)];
          if current != IDLE {
            pending := pending + [current];
          }
        }
        SwitchTo(next);
      } else if tasks[current].state != Running {
        SwitchTo(IDLE);
      }
    }

    method Enable()
      requires ListsOk(Value()) && disabled > 0
      modifies this
      ensures Value() == EnableYield(old(Value()))
    {
      hide TasksOk, PendingOk, SleepingOk, WaitsOk, Yield;
      disabled := disabled - 1;
      if disabled == 0 && needYield {
        needYield := false;
        YieldCpu();
      }
    }

    method WakeTask(t: nat, reason: WakeReason)
      requires t in tasks
      modifies this`tasks, this`pending, this`sleeping, this`waits
      ensures Value() == Wake(old(Value()), t, reason)
    {
      hide Remove;
      if tasks[t].state != Blocked {
        return;
      }
      var detach := tasks[t].detach;
      tasks := tasks[t := tasks[t].(state := Ready, wake := reason, detach := Nowhere)];
      match detach {
        case Nowhere =>
        case FromSleep => sleeping := Remove(sleeping, t);
        case FromWait(l) => waits := waits[l := Remove(WaitersOf(waits, l), t)];
      }
      pending := pending + [t];
    }

    method WakeFirst(l: ListId, reason: WakeReason)
      requires ListsOk(Value()) && WaitersOf(waits, l) != []
      modifies this`tasks, this`pending, this`sleeping, this`waits
      ensures Value() == WakeFront(old(Value()), l, reason)
    {
      hide ListsOk, Wake;
      var q := WaitersOf(waits, l);
      WaiterKnown(Value(), l, q[0]);
      waits := waits[l := q[1..]];
      tasks := tasks[q[0] := tasks[q[0]].(detach := Nowhere)];
      WakeTask(q[0], reason);
    }

    method WakeOneOf(l: ListId, reason: WakeReason) returns (woken: bool)
      requires ListsOk(Value())
      modifies this`tasks, this`pending, this`sleeping, this`waits
      ensures Value() == WakeOne(old(Value()), l, reason) && woken == (WaitersOf(old(waits), l) != [])
    {
      hide ListsOk, WakeFront;
      woken := WaitersOf(waits, l) != [];
      if woken {
        WakeFirst(l, reason);
      }
    }

    method WakeAllOf(l: ListId, reason: WakeReason)
      requires ListsOk(Value())
      modifies this`tasks, this`pending, this`sleeping, this`waits
      ensures Value() == WakeAll(old(Value()), l, reason)
    {
      hide ListsOk, WakeFront;
      while WaitersOf(waits, l) != []
        invariant ListsOk(Value()) && WakeAll(Value(), l, reason) == WakeAll(old(Value()), l, reason)
        decreases |WaitersOf(waits, l)|
      {
        WakeFrontIs(Value(), l, reason);
        WakeFirst(l, reason);
      }
    }

    /** find_if over the sleep queue. */
    method FindSleepPos(time: int) returns (p: nat)
      ensures p == SleepPos(sleeping, tasks, time)
    {
      p := 0;
      while p < |sleeping| && !(time <= TimeOf(tasks, sleeping[p]))
        invariant p <= |sleeping| && SleepPos(sleeping, tasks, time, p) == SleepPos(sleeping, tasks, time)
      {
        p := p + 1;
      }
    }

    /** block, once the caller has queued the task; the switch itself. */
    method BlockCurrent(call: Call)
      requires disabled == 0 && current in tasks
      requires ListsOk(Value().(
                 tasks := tasks[current := tasks[current].(state := Blocked, wake := Normal, call := call)]))
      modifies this
      ensures Value() == Yield(old(Value().(
                 tasks := tasks[current := tasks[current].(state := Blocked, wake := Normal, call := call)])))
    {
      hide TasksOk, PendingOk, SleepingOk, WaitsOk, Yield;
      tasks := tasks[current := tasks[current].(state := Blocked, wake := Normal, call := call)];
      YieldCpu();
    }

    method BlockHere() returns (ok: bool)
      requires Inv(Value()) && current != IDLE
      modifies this
      ensures ok <==> Block(old(Value())).Some?
      ensures Value() == if ok then Block(old(Value())).value else old(Value())
    {
      hide TasksOk, PendingOk, SleepingOk, WaitsOk, Sorted, TcbsOk, Yield;
      CurrentKnown(Value());
      ok := disabled == 0;
      if ok {
        ghost var tcb := tasks[current].(state := Blocked, wake := Normal, detach := Nowhere, call := InBlock);
        RunningDetached(Value());
        ParkedKeeps(Value(), tcb);
        BlockCurrent(InBlock);
      }
    }

    method SleepHere(ms: nat) returns (ok: bool)
      requires Inv(Value()) && current != IDLE
      modifies this
      ensures ok <==> Sleep(old(Value()), ms).Some?
      ensures Value() == if ok then Sleep(old(Value()), ms).value else old(Value())
    {
      hide TasksOk, PendingOk, SleepingOk, WaitsOk, Sorted, TcbsOk, Yield, SleepPos, InsertAt;
      CurrentKnown(Value());
      ok := disabled == 0;
      if ok {
        var until := (now + ms) % TIME_WRAP;
        ghost var tcb :=
          tasks[current].(state := Blocked, wake := Normal, detach := FromSleep, time := until, call := InSleep(until));
        ParkedKeeps(Value(), tcb);
        RunningAwake(Value());
        SleepPosFrame(sleeping, tasks, current, tasks[current].(time := until), until, 0);
        tasks := tasks[current := tasks[current].(time := until)];
        var pos := FindSleepPos(until);
        sleeping := InsertAt(sleeping, pos, current);
        tasks := tasks[current := tasks[current].(detach := FromSleep)];
        assert tasks[current := tcb] == old(tasks)[current := tcb];
        BlockCurrent(InSleep(until));
      }
    }

    method WaitHere(l: ListId) returns (ok: bool)
      requires Inv(Value()) && current != IDLE && (l.Children? ==> l.pid == current)
      modifies this
      ensures ok <==> WaitOn(old(Value()), l).Some?
      ensures ok ==> Value() == WaitOn(old(Value()), l).value
    {
      hide TasksOk, PendingOk, SleepingOk, WaitsOk, Sorted, TcbsOk, Yield;
      CurrentKnown(Value());
      ghost var tcb := tasks[current].(state := Blocked, wake := Normal, detach := FromWait(l), call := InBlock);
      ParkedKeeps(Value(), tcb);
      waits := waits[l := WaitersOf(waits, l) + [current]];
      tasks := tasks[current := tasks[current].(detach := FromWait(l))];
      assert tasks[current := tcb] == old(tasks)[current := tcb];
      ok := disabled == 0;
      if ok {
        BlockCurrent(InBlock);
      }
    }

    method CheckSleep()
      requires Loose(Value())
      modifies this
      ensures Value() == WakeSleepers(old(Value()))
    {
      hide ListsOk, Sorted, TcbsOk, WakeSleeper;
      while sleeping != [] && TimeOf(tasks, sleeping[0]) < now
        invariant Loose(Value()) && WakeSleepers(Value()) == WakeSleepers(old(Value()))
        decreases |sleeping|
      {
        WakeSleeperIs(Value());
        WakeFirstSleeper();
      }
    }

    method WakeFirstSleeper()
      requires Loose(Value()) && Expired(Value())
      modifies this
      ensures Value() == WakeSleeper(old(Value()))
    {
      hide ListsOk, Sorted, TcbsOk, Wake;
      var t := sleeping[0];
      SleeperKnown(Value(), t);
      sleeping := sleeping[1..];
      tasks := tasks[t := tasks[t].(detach := Nowhere)];
      WakeTask(t, Normal);
    }

    method TimerInterrupt()
      requires Inv(Value())
      modifies this
      ensures Value() == Tick(old(Value()))
    {
      hide ListsOk, Sorted, TcbsOk, WakeSleepers, Yield;
      LaterLoose(Value());
      now := now + 1;
      WakeSleepersExact(Value());
      CheckSleep();
      if now % 10 == 0 {
        YieldCpu();
      }
    }

    method Send(t: nat, sig: nat)
      requires t in tasks
      modifies this`tasks, this`pending, this`sleeping, this`waits
      ensures Value() == SendSignal(old(Value()), t, sig)
    {
      hide Wake;
      if tasks[t].state == Exited {
        return;
      }
      tasks := tasks[t := tasks[t].(signals := tasks[t].signals + {sig})];
      if sig in tasks[t].mask {
        return;
      }
      if tasks[t].state == Blocked {
        WakeTask(t, Signal);
      }
    }

    /** addTask of a task that has no pid yet. */
    method Add(parent: nat, mask: set<nat>) returns (pid: Option<nat>)
      modifies this`tasks, this`pending
      ensures match pid
              case None =>
                AddTask(old(Value()), parent, mask) == None && forall q :: FIRST_PID <= q < MAX_TASK ==> q in tasks
              case Some(t) =>
                && AddTask(old(Value()), parent, mask) == Some(Value()) && (old(Inv(Value())) ==> Inv(Value()))
                && FIRST_PID <= t < MAX_TASK && t !in old(tasks)
                && (forall q :: FIRST_PID <= q < t ==> q in old(tasks))
                && pending == old(pending) + [t]
    {
      hide Inv;
      var p := FIRST_PID;
      while p < MAX_TASK
        invariant FIRST_PID <= p <= MAX_TASK && forall q :: FIRST_PID <= q < p ==> q in tasks
        invariant FreePid(tasks.Keys, p) == FreePid(tasks.Keys, FIRST_PID)
        invariant tasks == old(tasks) && pending == old(pending)
      {
        if p !in tasks {
          if Inv(Value()) {
            AddTaskKeeps(Value(), parent, mask);
          }
          tasks := tasks[p := NewTcb(parent, mask)];
          pending := pending + [p];
          return Some(p);
        }
        p := p + 1;
      }
      return None;
    }

    method Free(t: nat) returns (ok: bool)
      modifies this`tasks
      ensures Value() == FreeTask(old(Value()), t) && (ok <==> t in old(tasks) && old(tasks)[t].state == Exited)
    {
      if t !in tasks {
        return false;
      }
      if tasks[t].state != Exited {
        return false;
      }
      tasks := tasks - {t};
      return true;
    }

    /** The end of block and sleep, after the switch back. */
    method FinishCall() returns (reason: WakeReason, rest: int)
      requires current in tasks
      modifies this`tasks
      ensures (Value(), reason, rest) == Resume(old(Value()))
    {
      reason, rest := tasks[current].wake, 0;
      match tasks[current].call {
        case InSleep(until) =>
          if !(until <= now) {
            rest := until - now;
          }
        case _ =>
      }
      tasks := tasks[current := tasks[current].(wake := Normal, call := Program)];
    }

    method CloseFiles(closing: seq<ListId>)
      requires Loose(Value())
      modifies this`tasks, this`pending, this`sleeping, this`waits
      ensures Value() == WakeEach(old(Value()), closing)
    {
      hide ListsOk, Sorted, TcbsOk, WakeAll;
      var i := 0;
      while i < |closing|
        invariant i <= |closing| && Loose(Value())
        invariant WakeEach(Value(), closing[i..]) == WakeEach(old(Value()), closing)
      {
        WakeAllLoose(Value(), closing[i], Normal);
        WakeAllOf(closing[i], Normal);
        assert closing[i..][1..] == closing[i + 1..];
        i := i + 1;
      }
    }

    method TellParent(parent: nat)
      requires Loose(Value())
      modifies this`tasks, this`pending, this`sleeping, this`waits
      ensures Value() == NotifyParent(old(Value()), parent)
    {
      hide ListsOk, Sorted, TcbsOk, WakeAll, SendSignal;
      if parent in tasks {
        WakeAllKeeps(Value(), Children(parent), Normal);
        WakeAllOf(Children(parent), Normal);
        Send(parent, SIGCHLD);
      }
    }

    method ExitCurrent(closing: seq<ListId>) returns (ok: bool)
      requires Inv(Value()) && current != IDLE
      modifies this
      ensures ok <==> Exit(old(Value()), closing).Some?
      ensures Value() == if ok then Exit(old(Value()), closing).value else old(Value())
    {
      hide ListsOk, Sorted, TcbsOk, WakeEach, NotifyParent;
      if current == INIT {
        return false;
      }
      CurrentKnown(Value());
      WakeEachKeeps(Value(), closing);
      CloseFiles(closing);
      ExitedKeeps(Value());
      tasks := tasks[current := tasks[current].(state := Exited)];
      NotifyParentKeeps(Value(), tasks[current].parent);
      TellParent(tasks[current].parent);
      NextReady(Value());
      if pending != [] {
        var next := pending[0];
        pending := pending[1..];
        SwitchTo(next);
      } else {
        CurrentKnown(Value());
        SwitchTo(IDLE);
      }
      return true;
    }
  }
}
