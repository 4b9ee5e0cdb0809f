/** The pipe (kernel/fs/pipe.cpp, kernel/fs/pipe.hpp): a bounded byte queue shared by readers and writers that
    block on two wait lists, as a step system over any number of callers.

    A call makes passes.  A pass either finishes the call or queues the caller; a queued caller makes its next
    pass after it has been woken.  Interrupts are off during a pass, so passes are atomic. */
module Pipe {
  import opened Basics
  import opened Lists

  const CAPACITY: nat := 0x1000

  datatype Pipe = Pipe(queue: seq<Byte>, readers: seq<nat>, writers: seq<nat>, readAlive: bool, writeAlive: bool)

  datatype Job = Reading(size: nat) | Writing(bytes: seq<Byte>)

  datatype Result = Waits | Got(bytes: seq<Byte>) | Put(count: nat) | Eintr | Epipe | Silent

  function ReadPass(p: Pipe, pid: nat, size: nat): (Pipe, Result) {
    if p.queue == [] && p.writeAlive then (p.(readers := p.readers + [pid]), Waits)
    else if p.queue == [] then (p, Got([]))
    else
      var len := Min(|p.queue|, size);
      (p.(queue := p.queue[len..], writers := []), Got(p.queue[..len]))
  }

  function WritePass(p: Pipe, pid: nat, bytes: seq<Byte>): (Pipe, Result)
    requires |p.queue| <= CAPACITY
  {
    if |p.queue| == CAPACITY && p.readAlive then (p.(writers := p.writers + [pid]), Waits)
    else if !p.readAlive then (p, Epipe)
    else
      var len := Min(CAPACITY - |p.queue|, |bytes|);
      (p.(queue := p.queue + bytes[..len], readers := []), Put(len))
  }

  function Pass(p: Pipe, pid: nat, job: Job): (Pipe, Result)
    requires |p.queue| <= CAPACITY
  {
    match job
    case Reading(size) => ReadPass(p, pid, size)
    case Writing(bytes) => WritePass(p, pid, bytes)
  }

  function CloseRead(p: Pipe): Pipe {
    p.(readAlive := false, writers := [])
  }

  function CloseWrite(p: Pipe): Pipe {
    p.(writeAlive := false, readers := [])
  }

  // ----- The callers

  datatype Phase = Queued | Woken | Interrupted

  /** The pipe, the calls in progress, and everything written to and read from it so far. */
  datatype System = System(pipe: Pipe, calls: map<nat, (Job, Phase)>, sent: seq<Byte>, received: seq<Byte>)

  datatype Event =
    | Call(pid: nat, job: Job)
    | Resume(pid: nat)
    | Interrupt(pid: nat)
    | ReadEndClosed
    | WriteEndClosed

  /** wakeAll: whoever is queued no longer is, and may make another pass. */
  function Rouse(calls: map<nat, (Job, Phase)>, p: Pipe): map<nat, (Job, Phase)> {
    map pid | pid in calls ::
      (calls[pid].0, if calls[pid].1 == Queued && pid !in p.readers && pid !in p.writers then Woken else calls[pid].1)
  }

  function Record(s: System, p: Pipe, pid: nat, job: Job, r: Result): System {
    var calls := if r == Waits then s.calls[pid := (job, Queued)] else s.calls - {pid};
    System(p, Rouse(calls, p),
           if r.Put? && job.Writing? && r.count <= |job.bytes| then s.sent + job.bytes[..r.count] else s.sent,
           if r.Got? then s.received + r.bytes else s.received)
  }

  predicate Enabled(s: System, e: Event) {
    match e
    case Call(pid, _) => pid !in s.calls
    case Resume(pid) => pid in s.calls && s.calls[pid].1 != Queued
    case Interrupt(pid) => pid in s.calls
    case _ => true
  }

  function Step(s: System, e: Event): (System, Result)
    requires |s.pipe.queue| <= CAPACITY && Enabled(s, e)
  {
    match e
    case Call(pid, job) => var (p, r) := Pass(s.pipe, pid, job); (Record(s, p, pid, job, r), r)
    case Resume(pid) =>
      var (job, phase) := s.calls[pid];
      if phase == Interrupted then (s.(calls := s.calls - {pid}), Eintr)
      else var (p, r) := Pass(s.pipe, pid, job); (Record(s, p, pid, job, r), r)
    case Interrupt(pid) =>
      if s.calls[pid].1 != Queued then (s, Silent)
      else
        (s.(pipe := s.pipe.(readers := Remove(s.pipe.readers, pid), writers := Remove(s.pipe.writers, pid)),
            calls := s.calls[pid := (s.calls[pid].0, Interrupted)]), Silent)
    case ReadEndClosed => var p := CloseRead(s.pipe); (s.(pipe := p, calls := Rouse(s.calls, p)), Silent)
    case WriteEndClosed => var p := CloseWrite(s.pipe); (s.(pipe := p, calls := Rouse(s.calls, p)), Silent)
  }

  // ----- What every step keeps

  ghost predicate Exact(q: seq<nat>, calls: map<nat, (Job, Phase)>, reading: bool) {
    NoDup(q) && forall pid :: pid in q <==> pid in calls && calls[pid].1 == Queued && calls[pid].0.Reading? == reading
  }

  /** Within its bounds; and nobody waits who could go on. */
  ghost predicate Idle(p: Pipe) {
    && |p.queue| <= CAPACITY
    && (p.readers != [] ==> p.queue == [] && p.writeAlive)
    && (p.writers != [] ==> |p.queue| == CAPACITY && p.readAlive)
  }

  /** Conservation, the bound, no lost wakeup, and the lists holding exactly the queued callers. */
  ghost predicate Inv(s: System) {
    && s.sent == s.received + s.pipe.queue
    && Idle(s.pipe)
    && Exact(s.pipe.readers, s.calls, true)
    && Exact(s.pipe.writers, s.calls, false)
  }

  ghost predicate Within(q: seq<nat>, calls: map<nat, (Job, Phase)>, reading: bool) {
    NoDup(q) && forall pid :: pid in q ==> pid in calls && calls[pid].1 == Queued && calls[pid].0.Reading? == reading
  }

  /** Rousing everybody who is in no list leaves the lists exact. */
  lemma RouseLists(calls: map<nat, (Job, Phase)>, p: Pipe)
    requires Within(p.readers, calls, true) && Within(p.writers, calls, false)
    ensures Exact(p.readers, Rouse(calls, p), true) && Exact(p.writers, Rouse(calls, p), false)
  {
  }

  lemma PassLists(s: System, pid: nat, job: Job)
    requires Inv(s) && (pid in s.calls ==> s.calls[pid].1 != Queued)
    ensures var (p, r) := Pass(s.pipe, pid, job);
            var calls := if r == Waits then s.calls[pid := (job, Queued)] else s.calls - {pid};
            Within(p.readers, calls, true) && Within(p.writers, calls, false)
  {
  }

  lemma PassIdle(p: Pipe, pid: nat, job: Job)
    requires Idle(p)
    ensures Idle(Pass(p, pid, job).0)
  {
  }

  /** What the calls report: a read of some bytes reports the end only when the pipe is drained and nobody
      can write any more; what was got is what was at the front, as much as was asked for or all there is; what was
      put is as much as fits; an interrupted or refused call moves no byte. */
  ghost predicate Honest(s: System, s': System, job: Option<Job>, r: Result) {
    && (r.Got? ==>
          && job.Some? && job.value.Reading?
          && |r.bytes| <= job.value.size && (|r.bytes| == job.value.size || s'.pipe.queue == [])
          && s'.received == s.received + r.bytes && r.bytes + s'.pipe.queue == s.pipe.queue && s'.sent == s.sent
          && (r.bytes == [] && job != Some(Reading(0)) ==> s.pipe.queue == [] && !s.pipe.writeAlive))
    && (r.Put? ==>
          && job.Some? && job.value.Writing? && r.count <= |job.value.bytes|
          && s'.sent == s.sent + job.value.bytes[..r.count] && s'.received == s.received
          && s'.pipe.queue == s.pipe.queue + job.value.bytes[..r.count]
          && (r.count == |job.value.bytes| || |s'.pipe.queue| == CAPACITY)
          && (r.count == 0 ==> job.value.bytes == []))
    && (r == Epipe ==> !s.pipe.readAlive)
    && (!r.Got? && !r.Put? ==> s'.received == s.received && s'.sent == s.sent && s'.pipe.queue == s.pipe.queue)
  }

  lemma PassReports(s: System, pid: nat, job: Job)
    requires Idle(s.pipe)
    ensures var (p, r) := Pass(s.pipe, pid, job); Honest(s, Record(s, p, pid, job, r), Some(job), r)
  {
  }

  lemma Conserved(s: System, s': System, job: Option<Job>, r: Result)
    requires Honest(s, s', job, r) && s.sent == s.received + s.pipe.queue
    ensures s'.sent == s'.received + s'.pipe.queue
  {
  }

  lemma PassKeeps(s: System, pid: nat, job: Job)
    requires Inv(s) && (pid in s.calls ==> s.calls[pid].1 != Queued)
    ensures var (p, r) := Pass(s.pipe, pid, job); Inv(Record(s, p, pid, job, r))
  {
    hide Exact, Within, Rouse, Pass, Honest;
    var (p, r) := Pass(s.pipe, pid, job);
    PassIdle(s.pipe, pid, job);
    PassLists(s, pid, job);
    PassReports(s, pid, job);
    Conserved(s, Record(s, p, pid, job, r), Some(job), r);
    RouseLists(if r == Waits then s.calls[pid := (job, Queued)] else s.calls - {pid}, p);
  }

  lemma StepKeeps(s: System, e: Event)
    requires Inv(s) && Enabled(s, e)
    ensures Inv(Step(s, e).0)
  {
    match e
    case Call(pid, job) => PassKeeps(s, pid, job);
    case Resume(pid) =>
      if s.calls[pid].1 != Interrupted {
        PassKeeps(s, pid, s.calls[pid].0);
      }
    case Interrupt(pid) =>
      RemoveMembers(s.pipe.readers, pid);
      RemoveMembers(s.pipe.writers, pid);
    case _ =>
  }

  lemma StepReports(s: System, e: Event)
    requires Inv(s) && Enabled(s, e)
    ensures Honest(s, Step(s, e).0, JobOf(s, e), Step(s, e).1)
  {
    hide Pass, Record, Rouse, Exact;
    match e
    case Call(pid, job) => PassReports(s, pid, job);
    case Resume(pid) =>
      if s.calls[pid].1 != Interrupted {
        PassReports(s, pid, s.calls[pid].0);
      }
    case _ =>
  }

  /** A read waits for a byte, a write for room, as long as the other end may still bring it. */
  predicate Blocked(p: Pipe, job: Job) {
    match job
    case Reading(_) => p.queue == [] && p.writeAlive
    case Writing(_) => |p.queue| == 0x1000 && p.readAlive
  }

  /** Which report a pass makes. */
  ghost predicate Decided(p: Pipe, job: Job, r: Result) {
    && (r == Waits <==> Blocked(p, job))
    && (r.Got? <==> job.Reading? && !Blocked(p, job))
    && (r == Epipe <==> job.Writing? && !p.readAlive)
    && (r.Put? <==> job.Writing? && p.readAlive && !Blocked(p, job))
  }

  /** Other callers keep their jobs; one that was queued may have been woken. */
  ghost predicate OthersKept(s: System, s': System, pid: nat) {
    forall q :: q != pid ==>
      && (q in s'.calls <==> q in s.calls)
      && (q in s.calls ==>
            && s'.calls[q].0 == s.calls[q].0
            && (s'.calls[q].1 == s.calls[q].1 || (s.calls[q].1 == Queued && s'.calls[q].1 == Woken)))
  }

  lemma PassDecides(s: System, pid: nat, job: Job)
    requires Inv(s) && (pid in s.calls ==> s.calls[pid].1 != Queued)
    ensures var (p, r) := Pass(s.pipe, pid, job);
            var s' := Record(s, p, pid, job, r);
            && Decided(s.pipe, job, r) && OthersKept(s, s', pid)
            && (r == Waits ==> pid in s'.calls && s'.calls[pid] == (job, Queued))
            && (r != Waits ==> pid !in s'.calls)
  {
    hide Inv;
    InvFits(s);
    PassKeeps(s, pid, job);
  }

  /** What every step reports and to whom it matters: a call waits exactly as long as it must, EINTR goes to whoever a
      signal woke, EPIPE to writers without readers; a signal takes a queued caller off the lists. */
  lemma StepDecides(s: System, e: Event)
    requires Inv(s) && Enabled(s, e) && |s.pipe.queue| <= CAPACITY
    ensures var (s', r) := Step(s, e);
            match e
            case Call(pid, job) =>
              && Decided(s.pipe, job, r) && OthersKept(s, s', pid)
              && (if r == Waits then pid in s'.calls && s'.calls[pid] == (job, Queued) else pid !in s'.calls)
            case Resume(pid) =>
              var (job, phase) := s.calls[pid];
              && (if phase == Interrupted then r == Eintr && s'.pipe == s.pipe else Decided(s.pipe, job, r))
              && OthersKept(s, s', pid)
              && (if r == Waits then pid in s'.calls && s'.calls[pid] == (job, Queued) else pid !in s'.calls)
            case Interrupt(pid) =>
              && r == Silent && OthersKept(s, s', pid) && pid in s'.calls && s'.calls[pid].0 == s.calls[pid].0
              && (if s.calls[pid].1 == Queued
                  then s'.calls[pid].1 == Interrupted && pid !in s'.pipe.readers && pid !in s'.pipe.writers
                  else s' == s)
            case _ => r == Silent && s'.calls.Keys == s.calls.Keys && forall q :: OthersKept(s, s', q)
  {
    hide Pass, Record, Decided;
    match e
    case Call(pid, job) => PassDecides(s, pid, job);
    case Resume(pid) =>
      if s.calls[pid].1 != Interrupted {
        PassDecides(s, pid, s.calls[pid].0);
      }
    case Interrupt(pid) =>
      if s.calls[pid].1 == Queued {
        RemoveMembers(s.pipe.readers, pid);
        RemoveMembers(s.pipe.writers, pid);
      }
    case _ =>
  }

  function JobOf(s: System, e: Event): Option<Job> {
    match e
    case Call(_, job) => Some(job)
    case Resume(pid) => if pid in s.calls then Some(s.calls[pid].0) else None
    case _ => None
  }

  /** A closed end stays closed, and nobody waits for it: without readers a write is refused, without writers
      a read returns what is left or the end. */
  lemma ClosedEnds(s: System, e: Event, pid: nat, job: Job)
    requires Inv(s) && Enabled(s, e) && |Step(s, e).0.pipe.queue| <= CAPACITY
    ensures var p := Step(s, e).0.pipe;
            && (e == ReadEndClosed || !s.pipe.readAlive ==> !p.readAlive && p.writers == [])
            && (e == WriteEndClosed || !s.pipe.writeAlive ==> !p.writeAlive && p.readers == [])
            && (!p.readAlive && job.Writing? ==> Pass(p, pid, job).1 == Epipe)
            && (!p.writeAlive && job.Reading? ==> Pass(p, pid, job).1.Got?)
            && (e != ReadEndClosed ==> p.readAlive == s.pipe.readAlive)
            && (e != WriteEndClosed ==> p.writeAlive == s.pipe.writeAlive)
  {
    hide Exact, Rouse;
    StepKeeps(s, e);
  }

  // ----- Runs

  function Empty(): System {
    System(Pipe([], [], [], true, true), map[], [], [])
  }

  /** The system after a run, and what each step reported. */
  function Run(s: System, es: seq<Event>): Option<(System, seq<Result>)>
    requires Inv(s)
    decreases |es|
  {
    if es == [] then Some((s, []))
    else if !Enabled(s, es[0]) then None
    else
      StepKeeps(s, es[0]);
      var (s1, r) := Step(s, es[0]);
      match Run(s1, es[1..])
      case None => None
      case Some((s', rs)) => Some((s', [r] + rs))
  }

  /** The run comes to event i, which cannot happen then. */
  ghost predicate StuckAt(s: System, es: seq<Event>, i: nat)
    requires Inv(s) && i < |es|
  {
    Run(s, es[..i]).Some? && !Enabled(Run(s, es[..i]).value.0, es[i])
  }

  /** Every sequence of events that can happen is a run. */
  lemma {:induction false} RunStuckIff(s: System, es: seq<Event>)
    requires Inv(s)
    ensures Run(s, es).None? <==> exists i: nat :: i < |es| && StuckAt(s, es, i)
    decreases |es|
  {
    hide Inv, Enabled, Step, StuckAt;
    if es != [] {
      StuckFirst(s, es);
      if Enabled(s, es[0]) {
        InvFits(s);
        StepKeeps(s, es[0]);
        var s1 := Step(s, es[0]).0;
        RunStuckIff(s1, es[1..]);
        forall i: nat | i < |es| - 1 ensures StuckAt(s1, es[1..], i) <==> StuckAt(s, es, i + 1) {
          StuckLater(s, es, i);
        }
        if i: nat :| i < |es| && StuckAt(s, es, i) {
          assert StuckAt(s1, es[1..], i - 1);
        }
        if i: nat :| i < |es| - 1 && StuckAt(s1, es[1..], i) {
          assert StuckAt(s, es, i + 1);
        }
      }
    }
  }

  lemma StuckFirst(s: System, es: seq<Event>)
    requires Inv(s) && es != []
    ensures StuckAt(s, es, 0) <==> !Enabled(s, es[0])
  {
    hide Inv, Enabled;
    assert es[..0] == [];
  }

  lemma StuckLater(s: System, es: seq<Event>, i: nat)
    requires Inv(s) && i < |es| - 1 && Enabled(s, es[0]) && |s.pipe.queue| <= CAPACITY && Inv(Step(s, es[0]).0)
    ensures StuckAt(Step(s, es[0]).0, es[1..], i) <==> StuckAt(s, es, i + 1)
  {
    hide Inv, Enabled, Step;
    assert es[..i + 1][0] == es[0] && es[..i + 1][1..] == es[1..][..i];
  }

  function GotBy(r: Result): seq<Byte> {
    if r.Got? then r.bytes else []
  }

  /** Everything the reads reported, in order. */
  function AllGot(rs: seq<Result>): seq<Byte> {
    if rs == [] then [] else GotBy(rs[0]) + AllGot(rs[1..])
  }

  /** The last call each caller made. */
  function Asked(asked: map<nat, Job>, e: Event): map<nat, Job> {
    if e.Call? then asked[e.pid := e.job] else asked
  }

  /** The front of the caller's own bytes, as long as the report says. */
  function PutBy(asked: map<nat, Job>, e: Event, r: Result): seq<Byte> {
    if r.Put? && (e.Call? || e.Resume?) && e.pid in asked && asked[e.pid].Writing? && r.count <= |asked[e.pid].bytes|
    then asked[e.pid].bytes[..r.count] else []
  }

  /** Everything the writes put, in order, from the calls and what was reported. */
  function AllPut(asked: map<nat, Job>, es: seq<Event>, rs: seq<Result>): seq<Byte>
    requires |rs| == |es|
    decreases |es|
  {
    if es == [] then [] else PutBy(Asked(asked, es[0]), es[0], rs[0]) + AllPut(Asked(asked, es[0]), es[1..], rs[1..])
  }

  /** Calls in progress are the last ones made. */
  ghost predicate Known(s: System, asked: map<nat, Job>) {
    forall pid :: pid in s.calls ==> pid in asked && asked[pid] == s.calls[pid].0
  }

  lemma StepPuts(s: System, e: Event, asked: map<nat, Job>)
    requires Inv(s) && Enabled(s, e) && Known(s, asked)
    ensures var (s', r), asked' := Step(s, e), Asked(asked, e);
            && Known(s', asked') && s'.sent == s.sent + PutBy(asked', e, r)
            && s'.received == s.received + GotBy(r)
  {
    hide Exact, Pass, Inv;
    StepReports(s, e);
  }

  lemma InvFits(s: System)
    requires Inv(s)
    ensures |s.pipe.queue| <= CAPACITY
  {
    hide Exact;
  }

  lemma {:induction false} RunKeeps(s: System, es: seq<Event>, asked: map<nat, Job>)
    requires Inv(s) && Run(s, es).Some? && Known(s, asked)
    ensures var (s', rs) := Run(s, es).value;
            && Inv(s') && |rs| == |es|
            && s'.received == s.received + AllGot(rs) && s'.sent == s.sent + AllPut(asked, es, rs)
    decreases |es|
  {
    hide Inv, Enabled, Step, Known, PutBy, Asked, GotBy;
    if es != [] {
      StepKeeps(s, es[0]);
      StepPuts(s, es[0], asked);
      InvFits(s);
      var (s1, r) := Step(s, es[0]);
      RunKeeps(s1, es[1..], Asked(asked, es[0]));
      var (s', rs) := Run(s1, es[1..]).value;
      assert ([r] + rs)[1..] == rs;
    }
  }

  /** First in, first out over every run: what the reads got, followed by what is still in the pipe, is what
      the writes put. */
  lemma FirstInFirstOut(es: seq<Event>)
    ensures Inv(Empty())
    ensures Run(Empty(), es).Some? ==>
              var (s', rs) := Run(Empty(), es).value;
              |rs| == |es| && AllGot(rs) + s'.pipe.queue == AllPut(map[], es, rs)
  {
    hide Enabled, Step, Run;
    if Run(Empty(), es).Some? {
      RunKeeps(Empty(), es, map[]);
      var (s', rs) := Run(Empty(), es).value;
      assert [] + AllPut(map[], es, rs) == AllPut(map[], es, rs) && [] + AllGot(rs) == AllGot(rs);
    }
  }

  /** No wakeup is lost: whoever is queued in a reachable state would have to wait again if it were to look
      now, and whoever would not have to wait is not queued. */
  lemma NoLostWakeup(s: System, es: seq<Event>, pid: nat)
    requires Inv(s) && Run(s, es).Some?
    ensures var s' := Run(s, es).value.0;
            pid in s'.calls && s'.calls[pid].1 == Queued ==>
              |s'.pipe.queue| <= CAPACITY && Pass(s'.pipe, pid, s'.calls[pid].0).1 == Waits
  {
    hide Run;
    RunKeeps(s, es, map p | p in s.calls :: s.calls[p].0);
  }
}
