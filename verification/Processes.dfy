/** All user processes together: runs of process creation, mmap, munmap, loads, stores, fork and reaping
    (kernel/task/task.cpp, kernel/task/pid.cpp, kernel/task/scheduler.task.cpp), against a specification in
    which every process owns its memory outright and fork copies it. */
module Processes {
  import opened Basics
  import opened Frames
  import opened Ranges
  import opened AddressSpace

  datatype Task = Task(cr3: nat, vmas: Vmas)

  datatype Kernel = Kernel(mem: Mem, tasks: map<nat, Task>)

  /** What a process does to its own address space. */
  datatype Call =
    | Mmap(addr: int, length: int, prot: bv32, flags: bv32)
    | Munmap(addr: int, length: int)
    | Write(addr: int, b: Byte)
    | Read(addr: int)

  /** KernelTake and KernelGive stand for whatever the kernel allocates for itself in between. */
  datatype Op =
    | Spawn
    | Local(pid: nat, call: Call)
    | Fork(pid: nat)
    | Reap(pid: nat)
    | KernelTake
    | KernelGive(frame: nat)

  const NO_AREAS: Vmas := [Range(0, VM_BASE, Attr(0, 0)), Range(VM_TOP, SENTINEL_END, Attr(0, 0))]

  // ----- The specification: private memories

  datatype Space = Space(vmas: Vmas, mem: map<nat, PageView>)

  type Spaces = map<nat, Space>

  ghost predicate SpecOk(s: Spaces) {
    forall pid :: pid in s ==> SpaceOk(s[pid].vmas, s[pid].mem)
  }

  predicate ArgsOk(c: Call) {
    match c
    case Mmap(addr, length, _, _) => 0 <= addr < WORD && 0 <= length < WORD
    case Munmap(addr, length) => 0 <= addr < WORD && 0 <= length < WORD
    case Write(addr, _) => 0 <= addr < WORD
    case Read(addr) => 0 <= addr < WORD
  }

  /** What the kernel's code demands of a call and does not check: that its vector operations are defined, and the
      exact conditions of MmapSafeIff, MunmapSafeIff and CheckStackAgrees.  An mmap that runs on at an unaligned hint
      is allowed: it does not come back. */
  ghost predicate CallSafe(vmas: Vmas, c: Call)
    requires AreasOk(vmas) && ArgsOk(c)
  {
    match c
    case Mmap(addr, length, _, flags) =>
      && MmapDefined(vmas, addr, length, flags)
      && (MmapSafe(vmas, addr, length, flags) || MmapRunsOn(vmas, addr, length, flags))
    case Munmap(addr, length) => MunmapSafe(addr, length)
    case Write(addr, _) => GrowSafe(vmas, addr)
    case Read(addr) => GrowSafe(vmas, addr)
  }

  ghost predicate StepSafe(s: Spaces, op: Op)
    requires SpecOk(s)
  {
    op.Local? ==> ArgsOk(op.call) && (op.pid in s ==> CallSafe(s[op.pid].vmas, op.call))
  }

  ghost function CallSpec(sp: Space, c: Call): (Vmas, map<nat, PageView>, Reply)
    requires SpaceOk(sp.vmas, sp.mem) && ArgsOk(c) && CallSafe(sp.vmas, c)
  {
    match c
    case Mmap(addr, length, prot, flags) => MmapSpec(sp.vmas, sp.mem, addr, length, prot, flags)
    case Munmap(addr, length) => MunmapSpec(sp.vmas, sp.mem, addr, length)
    case Write(addr, b) => StoreSpec(sp.vmas, sp.mem, addr, b)
    case Read(addr) => LoadSpec(sp.vmas, sp.mem, addr)
  }

  /** One step over private memories: fork copies the whole memory, everything else is the caller's own
      business. */
  ghost function SpecStep(s: Spaces, op: Op): (Spaces, Reply)
    requires SpecOk(s) && StepSafe(s, op)
  {
    match op
    case Spawn => SpecAdopt(s, Space(NO_AREAS, map[]))
    case Fork(pid) => if pid !in s then (s, Nobody) else SpecAdopt(s, s[pid])
    case Reap(pid) => if pid !in s then (s, Nobody) else (s - {pid}, Zero)
    case KernelTake => (s, Zero)
    case KernelGive(_) => (s, Zero)
    case Local(pid, call) =>
      if pid !in s then (s, Nobody)
      else
        var (vmas, v, r) := CallSpec(s[pid], call);
        (s[pid := Space(vmas, v)], r)
  }

  ghost function SpecAdopt(s: Spaces, sp: Space): (Spaces, Reply) {
    match FreePid(s.Keys, FIRST_PID)
    case None => (s, Nobody)
    case Some(pid) => (s[pid := sp], Child(pid))
  }

  // ----- The kernel

  ghost predicate TaskOk(mem: Mem, t: Task) {
    Running(mem, t.cr3, t.vmas)
  }

  ghost predicate KernelOk(k: Kernel) {
    && Inv(k.mem) && Fit(k.mem) && Linked(k.mem)
    && (forall pid :: pid in k.tasks ==> FIRST_PID <= pid < MAX_TASK && TaskOk(k.mem, k.tasks[pid]))
    && (forall pid, qid :: pid in k.tasks && qid in k.tasks && k.tasks[pid].cr3 == k.tasks[qid].cr3 ==> pid == qid)
    && Dirs(k.mem.owner) == Cr3s(k.tasks)
  }

  ghost function Cr3s(tasks: map<nat, Task>): set<nat> {
    set pid | pid in tasks :: tasks[pid].cr3
  }

  /** What the processes see. */
  ghost function Abs(k: Kernel): (s: Spaces)
    requires Linked(k.mem)
    ensures s.Keys == k.tasks.Keys
  {
    map pid | pid in k.tasks :: Space(k.tasks[pid].vmas, View(k.mem, k.tasks[pid].cr3))
  }

  ghost function Execute(m: Mem, t: Task, c: Call): Option<(Mem, Vmas, Reply)>
    requires TaskOk(m, t) && ArgsOk(c) && CallSafe(t.vmas, c)
  {
    match c
    case Mmap(addr, length, prot, flags) => (
      match AddressSpace.Mmap(m, t.cr3, t.vmas, addr, length, prot, flags)
      case Returns(m', vmas', r) => Some((m', vmas', r))
      case _ => None)
    case Munmap(addr, length) => Some(AddressSpace.Munmap(m, t.cr3, t.vmas, addr, length))
    case Write(addr, b) => StoreByte(m, t.cr3, t.vmas, addr, b)
    case Read(addr) => LoadByte(m, t.cr3, t.vmas, addr)
  }

  ghost predicate Ready(k: Kernel, op: Op) {
    KernelOk(k) && SpecOk(Abs(k)) && StepSafe(Abs(k), op)
  }

  /** One step of the kernel; None is a halt (no frame or no pid left, an mmap at an unaligned hint, or a
      frame freed that the kernel does not hold). */
  ghost function Step(k: Kernel, op: Op): Option<(Kernel, Reply)>
    requires Ready(k, op)
  {
    match op
    case Spawn => (
      match NewDir(k.mem)
      case None => None
      case Some((m, dir)) => Adopt(m, k.tasks, Task(dir, NO_AREAS)))
    case Fork(pid) => (
      if pid !in k.tasks then Some((k, Nobody))
      else
        match ForkCow(k.mem, k.tasks[pid].cr3)
        case None => None
        case Some((m, dir)) => Adopt(m, k.tasks, Task(dir, k.tasks[pid].vmas)))
    case Reap(pid) =>
      if pid !in k.tasks then Some((k, Nobody))
      else
        var t := k.tasks[pid];
        assert TaskOk(k.mem, t);
        Some((Kernel(Teardown(k.mem, t.cr3, t.vmas), k.tasks - {pid}), Zero))
    case KernelTake => (
      match Frames.KernelTake(k.mem)
      case None => None
      case Some((m, _)) => Some((Kernel(m, k.tasks), Zero)))
    case KernelGive(f) =>
      if f !in k.mem.owner || k.mem.owner[f] != KernelFrame then None
      else
        KernelGiveKeeps(k.mem, f);
        Some((Kernel(DropOwned(k.mem, f), k.tasks), Zero))
    case Local(pid, call) =>
      if pid !in k.tasks then Some((k, Nobody))
      else
        var t := k.tasks[pid];
        assert TaskOk(k.mem, t) && Abs(k)[pid].vmas == t.vmas;
        match Execute(k.mem, t, call)
        case None => None
        case Some((m, vmas, r)) => Some((Kernel(m, k.tasks[pid := Task(t.cr3, vmas)]), r))
  }

  /** The new task takes the lowest free pid; without one the kernel halts. */
  function Adopt(m: Mem, tasks: map<nat, Task>, t: Task): Option<(Kernel, Reply)> {
    match FreePid(tasks.Keys, FIRST_PID)
    case None => None
    case Some(pid) => Some((Kernel(m, tasks[pid := t]), Child(pid)))
  }

  // ----- Each step refines the specification

  lemma RunningAreas(m: Mem, d: nat, vmas: Vmas)
    requires Running(m, d, vmas)
    ensures Linked(m) && SpaceOk(vmas, View(m, d)) && Valid(vmas, VM_BASE, VM_TOP)
  {
  }

  lemma ExecuteAgrees(m: Mem, t: Task, c: Call)
    requires TaskOk(m, t) && ArgsOk(c) && CallSafe(t.vmas, c) && Execute(m, t, c).Some?
    ensures var (m', vmas', r) := Execute(m, t, c).value;
            var (vmasS, vS, rS) := CallSpec(Space(t.vmas, View(m, t.cr3)), c);
            vmas' == vmasS && r == rS && Follows(m, t.cr3, m', vmas', vS)
  {
    hide Running, Follows, AddressSpace.Mmap, AddressSpace.Munmap, StoreByte, LoadByte, MmapSpec, MunmapSpec,
         StoreSpec, LoadSpec, MmapSafe, MmapRunsOn, MmapDefined, MunmapSafe, GrowSafe;
    RunningAreas(m, t.cr3, t.vmas);
    match c
    case Mmap(addr, length, prot, flags) => MmapFollows(m, t.cr3, t.vmas, addr, length, prot, flags);
    case Munmap(addr, length) => MunmapAgrees(m, t.cr3, t.vmas, addr, length);
    case Write(addr, b) => StoreAgrees(m, t.cr3, t.vmas, addr, b);
    case Read(addr) => LoadAgrees(m, t.cr3, t.vmas, addr);
  }

  /** A task keeps running when its own memory is kept. */
  lemma TaskKept(m: Mem, m': Mem, t: Task)
    requires TaskOk(m, t) && Inv(m') && Linked(m') && t.cr3 in Dirs(m'.owner) && ViewKept(m, m', t.cr3)
    ensures TaskOk(m', t)
  {
  }

  lemma Cr3sUpdate(tasks: map<nat, Task>, pid: nat, t: Task)
    requires pid in tasks ==> tasks[pid].cr3 == t.cr3
    ensures Cr3s(tasks[pid := t]) == Cr3s(tasks) + {t.cr3}
  {
    var tasks' := tasks[pid := t];
    forall d | d in Cr3s(tasks) + {t.cr3} ensures d in Cr3s(tasks') {
      if d == t.cr3 {
        assert pid in tasks';
      } else {
        var q :| q in tasks && tasks[q].cr3 == d;
        assert q in tasks' && tasks'[q].cr3 == d;
      }
    }
  }

  lemma Cr3sRemove(tasks: map<nat, Task>, pid: nat)
    requires pid in tasks
    requires forall p, q :: p in tasks && q in tasks && tasks[p].cr3 == tasks[q].cr3 ==> p == q
    ensures Cr3s(tasks - {pid}) == Cr3s(tasks) - {tasks[pid].cr3}
  {
    forall d | d in Cr3s(tasks) - {tasks[pid].cr3} ensures d in Cr3s(tasks - {pid}) {
      var q :| q in tasks && tasks[q].cr3 == d;
      assert q in tasks - {pid};
    }
  }

  lemma LocalRefines(k: Kernel, pid: nat, c: Call)
    requires Ready(k, Local(pid, c)) && pid in k.tasks && Step(k, Local(pid, c)).Some?
    ensures var (k', r) := Step(k, Local(pid, c)).value;
            KernelOk(k') && (Abs(k'), r) == SpecStep(Abs(k), Local(pid, c))
  {
    hide Inv, Linked, View, Dirs, Running, SpaceOk, Execute, CallSpec, CallSafe, ArgsOk, Cr3s;
    var t := k.tasks[pid];
    assert TaskOk(k.mem, t) && Abs(k)[pid] == Space(t.vmas, View(k.mem, t.cr3));
    ExecuteAgrees(k.mem, t, c);
    var (m, vmas, r) := Execute(k.mem, t, c).value;
    var k' := Step(k, Local(pid, c)).value.0;
    FollowsRuns(k.mem, t, m, vmas, CallSpec(Abs(k)[pid], c).1);
    forall q | q in k'.tasks ensures TaskOk(m, k'.tasks[q]) {
      if q != pid {
        OtherKept(k, q, m, t.cr3);
      }
    }
    Cr3sUpdate(k.tasks, pid, Task(t.cr3, vmas));
    assert Abs(k') == Abs(k)[pid := Space(vmas, View(m, t.cr3))] by {
      forall q | q in k.tasks && q != pid ensures View(m, k.tasks[q].cr3) == View(k.mem, k.tasks[q].cr3) {
        assert ViewKept(k.mem, m, k.tasks[q].cr3);
      }
    }
  }

  lemma FollowsRuns(m: Mem, t: Task, m': Mem, vmas': Vmas, v': map<nat, PageView>)
    requires TaskOk(m, t) && Follows(m, t.cr3, m', vmas', v')
    ensures TaskOk(m', Task(t.cr3, vmas')) && Fit(m') && t.cr3 in Dirs(m.owner)
  {
  }

  lemma OtherKept(k: Kernel, q: nat, m: Mem, d: nat)
    requires KernelOk(k) && q in k.tasks && k.tasks[q].cr3 != d
    requires Inv(m) && Linked(m) && Dirs(k.mem.owner) - {d} <= Dirs(m.owner)
    requires forall e :: e != d ==> ViewKept(k.mem, m, e)
    ensures TaskOk(m, k.tasks[q])
  {
    hide Inv, Linked, View, SpaceOk;
    assert TaskOk(k.mem, k.tasks[q]);
    TaskKept(k.mem, m, k.tasks[q]);
  }

  // Creating a process.

  lemma {:induction false} PidCount(pids: set<nat>, n: nat)
    requires forall p :: p in pids ==> FIRST_PID <= p < FIRST_PID + n
    ensures |pids| <= n
  {
    if n == 0 {
      assert pids == {};
    } else {
      PidCount(pids - {FIRST_PID + n - 1}, n - 1);
    }
  }

  lemma {:induction false} Cr3Count(tasks: map<nat, Task>)
    ensures |Cr3s(tasks)| <= |tasks|
  {
    if tasks.Keys != {} {
      var pid :| pid in tasks;
      var rest := tasks - {pid};
      Cr3Count(rest);
      assert rest.Keys == tasks.Keys - {pid};
      assert Cr3s(tasks) <= Cr3s(rest) + {tasks[pid].cr3} by {
        forall d | d in Cr3s(tasks) ensures d in Cr3s(rest) + {tasks[pid].cr3} {
          var q :| q in tasks && tasks[q].cr3 == d;
          assert q == pid || q in rest;
        }
      }
      SubsetSize(Cr3s(tasks), Cr3s(rest) + {tasks[pid].cr3});
    }
  }

  /** 256 task slots bound the number of directories, and with it every 16-bit reference count. */
  lemma DirectoriesBounded(k: Kernel)
    requires KernelOk(k)
    ensures |Dirs(k.mem.owner)| < MAX_DIRS
  {
    hide Inv, Dirs, TaskOk, Cr3s;
    PidCount(k.tasks.Keys, MAX_TASK - FIRST_PID);
    Cr3Count(k.tasks);
  }

  ghost predicate Joined(k: Kernel, m: Mem, t: Task) {
    && Linked(k.mem) && Inv(m) && Linked(m) && t.cr3 !in Dirs(k.mem.owner)
       && Dirs(m.owner) == Dirs(k.mem.owner) + {t.cr3}
    && SpaceOk(t.vmas, View(m, t.cr3))
    && forall e :: e in Dirs(k.mem.owner) ==> ViewKept(k.mem, m, e)
  }

  lemma AdoptRefines(k: Kernel, m: Mem, t: Task)
    requires KernelOk(k) && Joined(k, m, t) && Adopt(m, k.tasks, t).Some?
    ensures var (k', r) := Adopt(m, k.tasks, t).value;
            KernelOk(k') && (Abs(k'), r) == SpecAdopt(Abs(k), Space(t.vmas, View(m, t.cr3)))
  {
    hide Inv, Linked, View, Dirs, SpaceOk, Cr3s, Abs;
    Lengths(m);
    var pid := FreePid(k.tasks.Keys, FIRST_PID).value;
    var k' := Kernel(m, k.tasks[pid := t]);
    Cr3sUpdate(k.tasks, pid, t);
    forall q | q in k.tasks ensures TaskOk(m, k.tasks[q]) && k.tasks[q].cr3 != t.cr3 {
      assert TaskOk(k.mem, k.tasks[q]);
      assert ViewKept(k.mem, m, k.tasks[q].cr3);
      TaskKept(k.mem, m, k.tasks[q]);
    }
    assert TaskOk(m, t);
    AdoptSees(k, m, t, pid);
  }

  lemma AdoptSees(k: Kernel, m: Mem, t: Task, pid: nat)
    requires KernelOk(k) && Joined(k, m, t) && Linked(m)
    ensures Abs(Kernel(m, k.tasks[pid := t])) == Abs(k)[pid := Space(t.vmas, View(m, t.cr3))]
  {
    hide Inv, Linked, View, Dirs, SpaceOk, Cr3s;
    forall q | q in k.tasks ensures View(m, k.tasks[q].cr3) == View(k.mem, k.tasks[q].cr3) {
      assert TaskOk(k.mem, k.tasks[q]);
      assert ViewKept(k.mem, m, k.tasks[q].cr3);
    }
  }

  lemma NoAreasOk()
    ensures SpaceOk(NO_AREAS, map[])
  {
  }

  lemma SpawnJoins(k: Kernel, m: Mem, dir: nat)
    requires KernelOk(k) && NewDir(k.mem) == Some((m, dir))
    ensures Joined(k, m, Task(dir, NO_AREAS)) && View(m, dir) == map[]
  {
    hide Inv, Dirs, NewDir, SpaceOk, Cr3s, TaskOk;
    DirectoriesBounded(k);
    NewDirKeeps(k.mem);
    NewDirEmpty(k.mem, m, dir, dir);
    NoAreasOk();
    Lengths(m);
    FreshDirectory(k.mem, dir);
    forall p: nat ensures p !in View(m, dir) { ViewAt(m, dir, p); }
    assert View(m, dir) == map[];
    forall e | e in Dirs(k.mem.owner) ensures ViewKept(k.mem, m, e) { }
  }

  lemma FreshDirectory(m: Mem, d: nat)
    requires Inv(m) && d !in m.owner
    ensures d !in Dirs(m.owner) && forall p: nat :: Slot(d, p) !in m.pages
  {
  }

  lemma ForkJoins(k: Kernel, pid: nat, m: Mem, dir: nat)
    requires KernelOk(k) && pid in k.tasks && ForkCow(k.mem, k.tasks[pid].cr3) == Some((m, dir))
    ensures Joined(k, m, Task(dir, k.tasks[pid].vmas)) && View(m, dir) == View(k.mem, k.tasks[pid].cr3)
  {
    hide Inv, Dirs, ForkCow, SpaceOk, Cr3s, View, Linked;
    assert TaskOk(k.mem, k.tasks[pid]);
    DirectoriesBounded(k);
    ForkCopies(k.mem, k.tasks[pid].cr3);
    Lengths(m);
    FreshDirectory(k.mem, dir);
  }

  lemma ReapRefines(k: Kernel, pid: nat, t: Task, k': Kernel)
    requires KernelOk(k) && pid in k.tasks && t == k.tasks[pid] && TaskOk(k.mem, t)
    requires k' == Kernel(Teardown(k.mem, t.cr3, t.vmas), k.tasks - {pid})
    ensures KernelOk(k') && Abs(k') == Abs(k) - {pid}
  {
    hide Inv, Linked, View, Dirs, SpaceOk, Cr3s, Teardown, Removed;
    TeardownKeeps(k.mem, t.cr3, t.vmas);
    var m := k'.mem;
    Lengths(m);
    Cr3sRemove(k.tasks, pid);
    forall q | q in k'.tasks
      ensures TaskOk(m, k.tasks[q]) && View(m, k.tasks[q].cr3) == View(k.mem, k.tasks[q].cr3)
    {
      assert k.tasks[q].cr3 != t.cr3;
      OtherKept(k, q, m, t.cr3);
      assert ViewKept(k.mem, m, k.tasks[q].cr3);
    }
    assert Abs(k') == Abs(k) - {pid};
  }

  /** The kernel's own frames concern no process. */
  lemma KernelRefines(k: Kernel, m: Mem)
    requires KernelOk(k) && Inv(m) && Dirs(m.owner) == Dirs(k.mem.owner) && m.pages == k.mem.pages
             && m.data == k.mem.data
    ensures KernelOk(Kernel(m, k.tasks)) && Abs(Kernel(m, k.tasks)) == Abs(k)
  {
    hide Inv, Dirs, SpaceOk, Cr3s;
    Lengths(m);
    forall d ensures ViewKept(k.mem, m, d) { }
    forall pid | pid in k.tasks ensures TaskOk(m, k.tasks[pid]) {
      assert TaskOk(k.mem, k.tasks[pid]);
      TaskKept(k.mem, m, k.tasks[pid]);
    }
    assert Abs(Kernel(m, k.tasks)) == Abs(k) by {
      assert forall pid :: pid in k.tasks ==> ViewKept(k.mem, m, k.tasks[pid].cr3);
    }
  }

  lemma KernelRuns(k: Kernel)
    requires KernelOk(k)
    ensures Inv(k.mem) && Fit(k.mem) && Linked(k.mem)
    ensures forall pid :: pid in k.tasks ==> TaskOk(k.mem, k.tasks[pid])
  {
  }

  /** Each kernel step that does not halt is the specification's step, with the same reply, and leads to a
      consistent state. */
  lemma StepRefines(k: Kernel, op: Op)
    requires Ready(k, op) && Step(k, op).Some?
    ensures var (k', r) := Step(k, op).value;
            KernelOk(k') && (Abs(k'), r) == SpecStep(Abs(k), op)
  {
    hide KernelOk, NewDir, ForkCow, Teardown, Execute, CallSpec, Adopt, SpecAdopt, Joined, SpecOk, View, Linked,
         TaskOk, Frames.KernelTake, DropOwned, Inv, Dirs;
    KernelRuns(k);
    match op
    case Spawn =>
      var (m, dir) := NewDir(k.mem).value;
      SpawnJoins(k, m, dir);
      AdoptRefines(k, m, Task(dir, NO_AREAS));
    case Fork(pid) =>
      if pid in k.tasks {
        var (m, dir) := ForkCow(k.mem, k.tasks[pid].cr3).value;
        ForkJoins(k, pid, m, dir);
        AdoptRefines(k, m, Task(dir, k.tasks[pid].vmas));
      }
    case Reap(pid) =>
      if pid in k.tasks {
        ReapRefines(k, pid, k.tasks[pid], Step(k, op).value.0);
      }
    case KernelTake =>
      KernelTakeKeeps(k.mem);
      KernelRefines(k, Step(k, op).value.0.mem);
    case KernelGive(f) =>
      KernelGiveKeeps(k.mem, f);
      KernelRefines(k, Step(k, op).value.0.mem);
    case Local(pid, call) =>
      if pid in k.tasks {
        LocalRefines(k, pid, call);
      }
  }

  // ----- Which steps halt

  ghost predicate NoPid(tasks: map<nat, Task>) {
    forall pid :: FIRST_PID <= pid < MAX_TASK ==> pid in tasks
  }

  ghost predicate CallHalts(m: Mem, t: Task, c: Call)
    requires TaskOk(m, t) && ArgsOk(c)
  {
    match c
    case Mmap(addr, length, _, flags) =>
      MmapShort(m, t.cr3, t.vmas, addr, length, flags) || MmapRunsOn(t.vmas, addr, length, flags)
    case Munmap(_, _) => false
    case Write(addr, _) => CopyShort(m, Slot(t.cr3, addr / PAGE)) || StackShort(m, t.cr3, t.vmas, addr)
    case Read(addr) => StackShort(m, t.cr3, t.vmas, addr)
  }

  /** For each step how many free frames it needs and what else can stop it. */
  ghost predicate Halting(k: Kernel, op: Op)
    requires Ready(k, op)
  {
    match op
    case Spawn => |FreeFrames(k.mem)| < 1 || NoPid(k.tasks)
    case Fork(pid) =>
      && pid in k.tasks
      && (|FreeFrames(k.mem)| < 1 + |TablesOf(k.mem.tabs, k.tasks[pid].cr3, 0)| || NoPid(k.tasks))
    case Reap(_) => false
    case KernelTake => |FreeFrames(k.mem)| < 1
    case KernelGive(f) => f !in k.mem.owner || k.mem.owner[f] != KernelFrame
    case Local(pid, call) => pid in k.tasks && TaskOk(k.mem, k.tasks[pid]) && CallHalts(k.mem, k.tasks[pid], call)
  }

  lemma ExecuteHaltsIff(m: Mem, t: Task, c: Call)
    requires TaskOk(m, t) && ArgsOk(c) && CallSafe(t.vmas, c)
    ensures Execute(m, t, c).None? <==> CallHalts(m, t, c)
  {
    hide Running, AddressSpace.Mmap, AddressSpace.Munmap, StoreByte, LoadByte, MmapSafe, MmapRunsOn, MmapDefined,
         MmapShort, MunmapSafe, GrowSafe, CopyShort, StackShort, Ordered;
    RunningAreas(m, t.cr3, t.vmas);
    match c
    case Mmap(addr, length, prot, flags) => MmapHaltsIff(m, t.cr3, t.vmas, addr, length, prot, flags);
    case Munmap(_, _) =>
    case Write(addr, b) => StoreHaltsIff(m, t.cr3, t.vmas, addr, b);
    case Read(addr) => LoadHaltsIff(m, t.cr3, t.vmas, addr);
  }

  lemma AdoptHaltsIff(m: Mem, tasks: map<nat, Task>, t: Task)
    ensures Adopt(m, tasks, t).None? <==> NoPid(tasks)
  {
  }

  /** A step halts exactly for want of frames or a pid, at an mmap that runs on, or when a frame is given back that the
      kernel does not hold. */
  lemma StepHaltsIff(k: Kernel, op: Op)
    requires Ready(k, op)
    ensures Step(k, op).None? <==> Halting(k, op)
  {
    hide KernelOk, NewDir, ForkCow, Teardown, Execute, Adopt, SpecOk, View, Linked, TaskOk, Frames.KernelTake,
         DropOwned, Inv, Dirs, CallHalts, NoPid, TablesOf, FreeFrames, Fit;
    KernelRuns(k);
    match op
    case Spawn =>
      NewDirTakes(k.mem);
      if NewDir(k.mem).Some? {
        AdoptHaltsIff(NewDir(k.mem).value.0, k.tasks, Task(NewDir(k.mem).value.1, NO_AREAS));
      }
    case Fork(pid) =>
      if pid in k.tasks {
        TaskDirectory(k, pid);
        ForkTakes(k.mem, k.tasks[pid].cr3);
        if ForkCow(k.mem, k.tasks[pid].cr3).Some? {
          var (m, dir) := ForkCow(k.mem, k.tasks[pid].cr3).value;
          AdoptHaltsIff(m, k.tasks, Task(dir, k.tasks[pid].vmas));
        }
      }
    case Reap(_) =>
    case KernelTake => KernelTakeTakes(k.mem);
    case KernelGive(_) =>
    case Local(pid, call) =>
      if pid in k.tasks {
        ExecuteHaltsIff(k.mem, k.tasks[pid], call);
      }
  }

  lemma TaskDirectory(k: Kernel, pid: nat)
    requires KernelOk(k) && pid in k.tasks
    ensures k.tasks[pid].cr3 in Dirs(k.mem.owner)
  {
    hide Inv, Dirs, Linked;
  }

  // ----- Whole runs

  ghost predicate RunSafe(s: Spaces, ops: seq<Op>)
    decreases |ops|
  {
    SpecOk(s) && (ops != [] ==> StepSafe(s, ops[0]) && RunSafe(SpecStep(s, ops[0]).0, ops[1..]))
  }

  ghost function SpecRun(s: Spaces, ops: seq<Op>): (Spaces, seq<Reply>)
    requires RunSafe(s, ops)
    decreases |ops|
  {
    if ops == [] then (s, [])
    else
      var (s1, r) := SpecStep(s, ops[0]);
      var (s2, rs) := SpecRun(s1, ops[1..]);
      (s2, [r] + rs)
  }

  ghost function Run(k: Kernel, ops: seq<Op>): Option<(Kernel, seq<Reply>)>
    requires KernelOk(k) && RunSafe(Abs(k), ops)
    decreases |ops|
  {
    if ops == [] then Some((k, []))
    else
      match Step(k, ops[0])
      case None => None
      case Some((k1, r)) =>
        StepRefines(k, ops[0]);
        match Run(k1, ops[1..])
        case None => None
        case Some((k2, rs)) => Some((k2, [r] + rs))
  }

  /** Every run that does not exhaust memory or pids shows every process exactly the memory and the replies
      of a system whose fork deep-copies all pages, and ends in a consistent state. */
  lemma {:induction false} RunRefines(k: Kernel, ops: seq<Op>)
    requires KernelOk(k) && RunSafe(Abs(k), ops) && Run(k, ops).Some?
    ensures var (k', rs) := Run(k, ops).value;
            KernelOk(k') && (Abs(k'), rs) == SpecRun(Abs(k), ops)
    decreases |ops|
  {
    hide KernelOk, Step, SpecStep, SpecOk, StepSafe;
    if ops != [] {
      StepRefines(k, ops[0]);
      RunRefines(Step(k, ops[0]).value.0, ops[1..]);
    }
  }

  /** The run comes to step i, and that step halts. */
  ghost predicate HaltsAt(k: Kernel, ops: seq<Op>, i: nat)
    requires KernelOk(k) && i < |ops|
  {
    && RunSafe(Abs(k), ops[..i]) && Run(k, ops[..i]).Some?
    && var k' := Run(k, ops[..i]).value.0;
    Ready(k', ops[i]) && Halting(k', ops[i])
  }

  /** A run comes back exactly when it has no step that halts. */
  lemma {:induction false} RunHaltsIff(k: Kernel, ops: seq<Op>)
    requires KernelOk(k) && RunSafe(Abs(k), ops)
    ensures Run(k, ops).None? <==> exists i: nat :: i < |ops| && HaltsAt(k, ops, i)
    decreases |ops|
  {
    hide KernelOk, Step, SpecStep, SpecOk, StepSafe, Halting, HaltsAt;
    if ops != [] {
      StepHaltsIff(k, ops[0]);
      HaltsFirst(k, ops);
      if Step(k, ops[0]).Some? {
        StepRefines(k, ops[0]);
        var k1 := Step(k, ops[0]).value.0;
        RunHaltsIff(k1, ops[1..]);
        forall i: nat | i < |ops| - 1 ensures HaltsAt(k1, ops[1..], i) <==> HaltsAt(k, ops, i + 1) {
          HaltsLater(k, ops, k1, i);
        }
        HaltsShift(k, ops, k1);
      }
    }
  }

  lemma HaltsFirst(k: Kernel, ops: seq<Op>)
    requires KernelOk(k) && RunSafe(Abs(k), ops) && ops != []
    ensures HaltsAt(k, ops, 0) <==> Halting(k, ops[0])
  {
    hide KernelOk, Step, SpecStep, Halting;
  }

  lemma HaltsLater(k: Kernel, ops: seq<Op>, k1: Kernel, i: nat)
    requires KernelOk(k) && RunSafe(Abs(k), ops) && i < |ops| - 1
    requires Step(k, ops[0]).Some? && k1 == Step(k, ops[0]).value.0
    requires KernelOk(k1) && Abs(k1) == SpecStep(Abs(k), ops[0]).0
    ensures HaltsAt(k1, ops[1..], i) <==> HaltsAt(k, ops, i + 1)
  {
    hide KernelOk, Step, SpecStep, SpecOk, StepSafe, Halting;
    assert ops[..i + 1][0] == ops[0] && ops[..i + 1][1..] == ops[1..][..i];
  }

  lemma HaltsShift(k: Kernel, ops: seq<Op>, k1: Kernel)
    requires KernelOk(k) && KernelOk(k1) && ops != [] && !HaltsAt(k, ops, 0)
    requires forall i: nat :: i < |ops| - 1 ==> (HaltsAt(k1, ops[1..], i) <==> HaltsAt(k, ops, i + 1))
    ensures (exists i: nat :: i < |ops| && HaltsAt(k, ops, i)) <==>
            exists i: nat :: i < |ops[1..]| && HaltsAt(k1, ops[1..], i)
  {
    hide KernelOk, HaltsAt;
    if i: nat :| i < |ops| && HaltsAt(k, ops, i) {
      assert HaltsAt(k1, ops[1..], i - 1);
    }
    if i: nat :| i < |ops[1..]| && HaltsAt(k1, ops[1..], i) {
      assert HaltsAt(k, ops, i + 1);
    }
  }

  /** A kernel with n free frames and no user process. */
  function Boot(n: nat): Kernel {
    Kernel(Mem(seq(n, _ => false), seq(n, _ => 0), map[], map[], map[], map[]), map[])
  }

  lemma BootOk(n: nat)
    ensures KernelOk(Boot(n)) && Abs(Boot(n)) == map[]
  {
  }

  /** From boot, any safe run that does not halt. */
  lemma BootedRun(n: nat, ops: seq<Op>)
    requires RunSafe(map[], ops)
    ensures KernelOk(Boot(n)) && Abs(Boot(n)) == map[]
    ensures Run(Boot(n), ops).Some? ==>
              var (k', rs) := Run(Boot(n), ops).value;
              KernelOk(k') && (Abs(k'), rs) == SpecRun(map[], ops)
  {
    hide KernelOk, Boot, Run, SpecRun, RunSafe;
    BootOk(n);
    if Run(Boot(n), ops).Some? {
      RunRefines(Boot(n), ops);
    }
  }

  /** In every state that a run from boot reaches, a frame's count is the number of entries mapping it, plus one
      for a directory, a table or a frame of the kernel's own; it is below the 16-bit limit; the pool bit says
      whether it is positive; and an entry that can be written is the only reference to its frame. */
  lemma FramesCounted(n: nat, ops: seq<Op>, f: nat)
    requires RunSafe(map[], ops)
    ensures KernelOk(Boot(n)) && Abs(Boot(n)) == map[]
    ensures Run(Boot(n), ops).Some? ==>
              var m := Run(Boot(n), ops).value.0.mem;
              |m.used| == |m.ref| && (f < |m.ref| ==>
              && m.ref[f] == |Mappers(m.pages, f)| + (if f in m.owner then 1 else 0)
              && (m.used[f] <==> m.ref[f] > 0)
              && m.ref[f] < REF_WRAP
              && (forall s :: s in m.pages && m.pages[s].frame == f && m.pages[s].writable ==> m.ref[f] == 1))
  {
    hide KernelOk, Run, RunSafe, Inv, Mappers, SpecRun;
    BootedRun(n, ops);
    if Run(Boot(n), ops).Some? {
      var m := Run(Boot(n), ops).value.0.mem;
      KernelRuns(Run(Boot(n), ops).value.0);
      Lengths(m);
      if f < |m.ref| {
        OneFrameCounted(m, f);
      }
    }
  }

  lemma OneFrameCounted(m: Mem, f: nat)
    requires Inv(m) && f < |m.ref|
    ensures m.ref[f] == |Mappers(m.pages, f)| + (if f in m.owner then 1 else 0)
    ensures f < |m.used| && (m.used[f] <==> m.ref[f] > 0) && m.ref[f] < REF_WRAP
    ensures forall s :: s in m.pages && m.pages[s].frame == f && m.pages[s].writable ==> m.ref[f] == 1
  {
    hide Dirs, Inv;
    FrameCount(m, f);
    RefBounded(m, f);
    forall s | s in m.pages && m.pages[s].frame == f && m.pages[s].writable ensures m.ref[f] == 1 {
      DataCount(m, s);
      SoleMapper(m, s);
    }
  }
}
