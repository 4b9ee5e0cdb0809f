/** The system calls and faults that change a process's address space (kernel/syscall/mmap_pgoff.cpp,
    kernel/syscall/munmap.cpp, kernel/task/mod.cpp, kernel/paging/vma.hpp, kernel/interrupt/impl.cpp):
    its list of areas and its page tables must agree. */
module AddressSpace {
  import opened Basics
  import opened Frames
  import opened Ranges

  const VM_BASE: int := 0x00400000
  const VM_TOP: int := 0xC0000000
  const STACK_LOW: int := 0xBF800000   // stackRange.first of every task

  const MAP_SHARED: bv32 := 0x01
  const MAP_PRIVATE: bv32 := 0x02
  const MAP_FIXED: bv32 := 0x10
  const MAP_GROWSDOWN: bv32 := 0x100
  const PROT_READ: bv32 := 0x01
  const PROT_WRITE: bv32 := 0x02

  datatype Attr = Attr(flags: bv32, prot: bv32)

  type Vmas = seq<Range<Attr>>

  predicate Writes(x: Attr) {
    x.prot & PROT_WRITE != 0
  }

  predicate GrowsDown(x: Attr) {
    x.flags & MAP_GROWSDOWN != 0
  }

  /** What the lower half of an area cut in two inherits. */
  function SplitAttr(x: Attr): Attr {
    Attr(x.flags & !MAP_GROWSDOWN, x.prot)
  }

  lemma SplitAttrDrops(x: Attr)
    ensures !GrowsDown(SplitAttr(x)) && Writes(SplitAttr(x)) == Writes(x)
  {
  }

  // ----- Agreement of areas and page tables

  /** Areas are whole pages; a length that wraps when it is rounded up makes one of no pages. */
  ghost predicate AreaOk(e: Range<Attr>) {
    Aligned(e.begin) && Aligned(e.end) && e.begin <= e.end
  }

  ghost predicate AreasOk(vmas: Vmas) {
    && Valid(vmas, VM_BASE, VM_TOP)
    && (forall i :: 0 < i < |vmas| - 1 ==> AreaOk(vmas[i]))
    && !GrowsDown(vmas[|vmas| - 1].attr)
  }

  /** A page is present exactly when an area covers it, and can be written exactly when that area can. */
  ghost predicate PageAgrees(vmas: Vmas, v: map<nat, PageView>, p: nat) {
    && (p in v <==> AttrAt(vmas, p * PAGE).Some?)
    && (p in v ==> v[p].writable == Writes(AttrAt(vmas, p * PAGE).value) && |v[p].bytes| == PAGE)
  }

  ghost predicate Agree(vmas: Vmas, v: map<nat, PageView>) {
    forall p: nat :: PageAgrees(vmas, v, p)
  }

  ghost predicate SpaceOk(vmas: Vmas, v: map<nat, PageView>) {
    AreasOk(vmas) && Agree(vmas, v)
  }

  // ----- Erasing a range

  predicate Forward(ps: seq<(int, int)>) {
    forall i :: 0 <= i < |ps| ==> 0 <= ps[i].0 <= ps[i].1
  }

  /** The release callback on each stretch in turn. */
  function ReleaseAll(m: Mem, d: nat, ps: seq<(int, int)>): (m': Mem)
    requires Fit(m) && Forward(ps)
    ensures Fit(m')
    decreases |ps|
  {
    if ps == [] then m
    else ReleaseAll(FreeFrom(m, d, ps[0].0 / PAGE, ps[0].1 / PAGE), d, ps[1..])
  }

  ghost predicate Paged(ps: seq<(int, int)>) {
    forall i :: 0 <= i < |ps| ==> 0 <= ps[i].0 <= ps[i].1 && Aligned(ps[i].0) && Aligned(ps[i].1)
  }

  /** A view without the pages that lie in one of the stretches. */
  ghost function CutAll(v: map<nat, PageView>, ps: seq<(int, int)>): map<nat, PageView> {
    map p | p in v && !InSome(ps, p * PAGE) :: v[p]
  }

  lemma CutAllStep(v: map<nat, PageView>, ps: seq<(int, int)>)
    requires Paged(ps) && ps != []
    ensures CutAll(Cut(v, ps[0].0 / PAGE, ps[0].1 / PAGE), ps[1..]) == CutAll(v, ps)
  {
  }

  lemma {:induction false} ReleaseAllCuts(m: Mem, d: nat, ps: seq<(int, int)>)
    requires Inv(m) && Fit(m) && Paged(ps)
    ensures Forward(ps)
    ensures var m' := ReleaseAll(m, d, ps);
            && Linked(m) && Inv(m') && Linked(m') && m'.owner == m.owner
            && View(m', d) == CutAll(View(m, d), ps)
            && forall e :: e != d ==> ViewKept(m, m', e)
    decreases |ps|
  {
    hide Inv, FreeFrom, Linked, View, CutAll, Cut;
    Lengths(m);
    if ps == [] {
      CutAllNone(View(m, d), ps);
      forall e ensures ViewKept(m, m, e) { }
    } else {
      var m1 := FreeFrom(m, d, ps[0].0 / PAGE, ps[0].1 / PAGE);
      ViewFreeFrom(m, d, ps[0].0 / PAGE, ps[0].1 / PAGE);
      ReleaseAllCuts(m1, d, ps[1..]);
      CutAllStep(View(m, d), ps);
      var m' := ReleaseAll(m, d, ps);
      forall e | e != d ensures ViewKept(m, m', e) {
        assert ViewKept(m, m1, e) && ViewKept(m1, m', e);
      }
    }
  }

  lemma CutAllNone(v: map<nat, PageView>, ps: seq<(int, int)>)
    requires ps == []
    ensures CutAll(v, ps) == v
  {
  }

  // Erasing at or above the base: areas and pages go together.

  lemma CarveAreas(vmas: Vmas, lower: int, upper: int)
    requires AreasOk(vmas) && VM_BASE <= lower <= upper <= VM_TOP && lower < VM_TOP && Aligned(lower) && Aligned(upper)
    ensures AreasOk(Carve(vmas, lower, upper, SplitAttr))
  {
    hide Ordered, Carve, SplitAttr;
    EraseKeepsValid(vmas, VM_BASE, VM_TOP, lower, upper, SplitAttr);
    var vmas' := Carve(vmas, lower, upper, SplitAttr);
    forall i | 0 < i < |vmas'| - 1 ensures AreaOk(vmas'[i]) {
      var j := CarveEntry(vmas, VM_BASE, VM_TOP, lower, upper, SplitAttr, i);
      assert AreaOk(vmas[j]);
    }
    CarveLast(vmas, VM_BASE, VM_TOP, lower, upper, SplitAttr);
  }

  lemma ReleasedPaged(vmas: Vmas, lower: int, upper: int)
    requires AreasOk(vmas) && VM_BASE <= lower <= upper <= VM_TOP && lower < VM_TOP && Aligned(lower) && Aligned(upper)
    ensures Paged(Released(vmas, lower, upper))
  {
    hide Ordered, Paged;
    TouchedTouches(vmas, VM_BASE, VM_TOP, lower, upper);
    var l, r := FirstTouched(vmas, lower), LastTouched(vmas, upper);
    CarveIs(vmas, l, r, lower, upper, SplitAttr);
    if l <= r {
      CutOutPaged(vmas, l, r, lower, upper);
    } else {
      NonePaged();
    }
  }

  lemma NonePaged()
    ensures Paged([])
  {
  }

  lemma CutOutPaged(vmas: Vmas, l: int, r: int, lower: int, upper: int)
    requires AreasOk(vmas) && 0 < l <= r < |vmas| - 1 && Touches(vmas, l, r, lower, upper)
    requires 0 <= lower <= upper && Aligned(lower) && Aligned(upper)
    ensures Paged(CutOut(vmas, l, r, lower, upper))
  {
    hide AreaOk;
    var ps := CutOut(vmas, l, r, lower, upper);
    forall i | 0 <= i < |ps| ensures 0 <= ps[i].0 <= ps[i].1 && Aligned(ps[i].0) && Aligned(ps[i].1) {
      var j := Source(l, r, vmas[l].begin < lower, upper < vmas[r].end, i);
      assert ps[i] == Clip(vmas[j], lower, upper) && AreaOk(vmas[j]);
      AreaAligned(vmas[j]);
      AreaForward(vmas[j]);
    }
  }

  lemma AreaAligned(e: Range<Attr>)
    requires AreaOk(e)
    ensures Aligned(e.begin) && Aligned(e.end)
  {
  }

  /** Cutting the released stretches is cutting the whole erased range: nothing else was present in it. */
  lemma ReleasedIsRange(vmas: Vmas, v: map<nat, PageView>, lower: int, upper: int)
    requires SpaceOk(vmas, v) && VM_BASE <= lower <= upper <= VM_TOP && lower < VM_TOP && Aligned(lower)
             && Aligned(upper)
    ensures CutAll(v, Released(vmas, lower, upper)) == Cut(v, lower / PAGE, upper / PAGE)
  {
    hide Released, Ordered, AreaOk;
    ReleasedPartition(vmas, VM_BASE, VM_TOP, lower, upper);
    var ps := Released(vmas, lower, upper);
    forall p | p in v ensures InSome(ps, p * PAGE) <==> lower / PAGE <= p < upper / PAGE {
      assert PageAgrees(vmas, v, p);
      assert InSome(ps, p * PAGE) <==> lower <= p * PAGE < upper && Covered(vmas, p * PAGE);
    }
  }

  lemma EraseAgrees(vmas: Vmas, v: map<nat, PageView>, lower: int, upper: int)
    requires SpaceOk(vmas, v) && VM_BASE <= lower <= upper <= VM_TOP && lower < VM_TOP && Aligned(lower)
             && Aligned(upper)
    ensures SpaceOk(Carve(vmas, lower, upper, SplitAttr), Cut(v, lower / PAGE, upper / PAGE))
  {
    hide Carve, Ordered, AreaOk, SplitAttr;
    var vmas', v' := Carve(vmas, lower, upper, SplitAttr), Cut(v, lower / PAGE, upper / PAGE);
    CarveAreas(vmas, lower, upper);
    forall p: nat ensures PageAgrees(vmas', v', p) {
      EraseExact(vmas, VM_BASE, VM_TOP, lower, upper, SplitAttr, p * PAGE);
      assert PageAgrees(vmas, v, p);
      assert lower <= p * PAGE < upper <==> lower / PAGE <= p < upper / PAGE;
      if At(vmas, p * PAGE).Some? {
        SplitAttrDrops(At(vmas, p * PAGE).value.attr);
      }
    }
  }

  /** The erased areas and the freed pages are the same: what is left agrees, and no other address space
      notices. */
  lemma EraseSpace(m: Mem, d: nat, vmas: Vmas, lower: int, upper: int)
    requires Inv(m) && Fit(m) && Linked(m) && SpaceOk(vmas, View(m, d))
    requires VM_BASE <= lower <= upper <= VM_TOP && lower < VM_TOP && Aligned(lower) && Aligned(upper)
    ensures var ps := Released(vmas, lower, upper);
            && Forward(ps)
            && var m' := ReleaseAll(m, d, ps);
            && Inv(m') && Linked(m') && m'.owner == m.owner
            && View(m', d) == Cut(View(m, d), lower / PAGE, upper / PAGE)
            && SpaceOk(Carve(vmas, lower, upper, SplitAttr), View(m', d))
            && forall e :: e != d ==> ViewKept(m, m', e)
  {
    hide Inv, Linked, View, Cut, CutAll, Released, Carve, Agree, AreaOk, Ordered, ReleaseAll;
    ReleasedPaged(vmas, lower, upper);
    ReleaseAllCuts(m, d, Released(vmas, lower, upper));
    ReleasedIsRange(vmas, View(m, d), lower, upper);
    EraseAgrees(vmas, View(m, d), lower, upper);
  }

  // ----- Allocating the pages of an area

  /** VMA::alloc: a zeroed page for each page number from p to end. */
  function AllocRange(m: Mem, d: nat, p: nat, end: nat, writable: bool): (r: Option<Mem>)
    requires Fit(m) && p <= end
    ensures r.Some? ==> Fit(r.value)
    decreases end - p
  {
    if p == end then Some(m)
    else
      match AllocPage(m, Slot(d, p), writable)
      case None => None
      case Some(m1) => AllocRange(m1, d, p + 1, end, writable)
  }

  /** The tables that the pages from p to end lie in and that are not there yet. */
  ghost function MissingTables(tabs: map<Slot, nat>, d: nat, p: nat, end: nat): set<nat> {
    set t: nat | t < end && p < end && p / ENTRIES <= t <= (end - 1) / ENTRIES && Slot(d, t) !in tabs
  }

  /** One frame for each page and each missing table. */
  ghost function Needs(m: Mem, d: nat, p: nat, end: nat): nat
    requires p <= end
  {
    end - p + |MissingTables(m.tabs, d, p, end)|
  }

  lemma MissingStep(tabs: map<Slot, nat>, tabs': map<Slot, nat>, d: nat, p: nat, end: nat)
    requires p < end && tabs'.Keys == tabs.Keys + {Slot(d, p / ENTRIES)}
    ensures MissingTables(tabs', d, p + 1, end) == MissingTables(tabs, d, p, end) - {p / ENTRIES}
    ensures p / ENTRIES in MissingTables(tabs, d, p, end) <==> Slot(d, p / ENTRIES) !in tabs
  {
    assert forall t: nat :: Slot(d, t) in tabs' <==> Slot(d, t) in tabs || t == p / ENTRIES;
  }

  /** An area gets its pages exactly when there are frames for them and their missing tables. */
  lemma {:induction false} AllocRangeIff(m: Mem, d: nat, p: nat, end: nat, writable: bool)
    requires Fit(m) && p <= end
    ensures AllocRange(m, d, p, end, writable).Some? <==> Needs(m, d, p, end) <= |FreeFrames(m)|
    decreases end - p
  {
    hide AllocPage, FreeFrames, MissingTables;
    if p == end {
      NoneMissing(m.tabs, d, p);
    } else {
      AllocPageTakes(m, Slot(d, p), writable);
      match AllocPage(m, Slot(d, p), writable)
      case None => SomeMissing(m.tabs, d, p, end, p);
      case Some(m1) =>
        MissingStep(m.tabs, m1.tabs, d, p, end);
        AllocRangeIff(m1, d, p + 1, end, writable);
    }
  }

  lemma NoneMissing(tabs: map<Slot, nat>, d: nat, p: nat)
    ensures MissingTables(tabs, d, p, p) == {}
  {
  }

  lemma SomeMissing(tabs: map<Slot, nat>, d: nat, p: nat, end: nat, q: nat)
    requires p <= q < end
    ensures Slot(d, q / ENTRIES) !in tabs ==> |MissingTables(tabs, d, p, end)| > 0
  {
    assert Slot(d, q / ENTRIES) !in tabs ==> q / ENTRIES in MissingTables(tabs, d, p, end);
  }

  function ZeroPage(p: nat, writable: bool): PageView {
    PageView(Zeros(), writable)
  }

  /** A view with zeroed pages from p to end. */
  ghost function Fill(v: map<nat, PageView>, p: nat, end: nat, writable: bool): (v': map<nat, PageView>)
    ensures forall q :: q in v' <==> q in v || p <= q < end
    ensures forall q :: q in v' ==> v'[q] == if p <= q < end then PageView(Zeros(), writable) else v[q]
  {
    v + map q: nat | p <= q < end :: ZeroPage(q, writable)
  }

  lemma FillStep(v: map<nat, PageView>, p: nat, end: nat, writable: bool)
    requires p < end
    ensures Fill(v[p := PageView(Zeros(), writable)], p + 1, end, writable) == Fill(v, p, end, writable)
  {
  }

  lemma Absent(m: Mem, d: nat, p: nat)
    requires Inv(m) && Linked(m) && p !in View(m, d)
    ensures Slot(d, p) !in m.pages
  {
    hide Counted, Mappers, Exclusive, Sized, TablesLinked, Mapped, Pooled, Dirs;
  }

  lemma {:induction false} AllocRangeFills(m: Mem, d: nat, p: nat, end: nat, writable: bool)
    requires Inv(m) && Fit(m) && Linked(m) && d in Dirs(m.owner) && p <= end <= USER_PAGES
    requires forall q: nat :: p <= q < end ==> q !in View(m, d)
    requires AllocRange(m, d, p, end, writable).Some?
    ensures var m' := AllocRange(m, d, p, end, writable).value;
            && Inv(m') && Linked(m') && Dirs(m'.owner) == Dirs(m.owner)
            && View(m', d) == Fill(View(m, d), p, end, writable)
            && forall e :: e != d ==> ViewKept(m, m', e)
    decreases end - p
  {
    hide Inv, Dirs, AllocPage, Linked, View;
    var m' := AllocRange(m, d, p, end, writable).value;
    if p == end {
      forall e ensures ViewKept(m, m, e) { }
    } else {
      Absent(m, d, p);
      ViewAllocPage(m, Slot(d, p), writable);
      var m1 := AllocPage(m, Slot(d, p), writable).value;
      AllocRangeFills(m1, d, p + 1, end, writable);
      FillStep(View(m, d), p, end, writable);
      forall e | e != d ensures ViewKept(m, m', e) {
        assert ViewKept(m, m1, e) && ViewKept(m1, m', e);
      }
    }
  }

  /** Stack growth allocates downward from page p to page end. */
  function AllocDown(m: Mem, d: nat, p: nat, end: nat): (r: Option<Mem>)
    requires Fit(m) && end <= p
    ensures r.Some? ==> Fit(r.value)
    decreases p - end
  {
    if p == end then Some(m)
    else
      match AllocPage(m, Slot(d, p - 1), true)
      case None => None
      case Some(m1) => AllocDown(m1, d, p - 1, end)
  }

  lemma MissingStepDown(tabs: map<Slot, nat>, tabs': map<Slot, nat>, d: nat, p: nat, end: nat)
    requires end < p && tabs'.Keys == tabs.Keys + {Slot(d, (p - 1) / ENTRIES)}
    ensures MissingTables(tabs', d, end, p - 1) == MissingTables(tabs, d, end, p) - {(p - 1) / ENTRIES}
    ensures (p - 1) / ENTRIES in MissingTables(tabs, d, end, p) <==> Slot(d, (p - 1) / ENTRIES) !in tabs
  {
    assert forall t: nat :: Slot(d, t) in tabs' <==> Slot(d, t) in tabs || t == (p - 1) / ENTRIES;
  }

  /** Downward the same number of frames decides. */
  lemma {:induction false} AllocDownIff(m: Mem, d: nat, p: nat, end: nat)
    requires Fit(m) && end <= p
    ensures AllocDown(m, d, p, end).Some? <==> Needs(m, d, end, p) <= |FreeFrames(m)|
    decreases p - end
  {
    hide AllocPage, FreeFrames, MissingTables;
    if p == end {
      NoneMissing(m.tabs, d, p);
    } else {
      AllocPageTakes(m, Slot(d, p - 1), true);
      match AllocPage(m, Slot(d, p - 1), true)
      case None => SomeMissing(m.tabs, d, end, p, p - 1);
      case Some(m1) =>
        MissingStepDown(m.tabs, m1.tabs, d, p, end);
        AllocDownIff(m1, d, p - 1, end);
    }
  }

  /** The entries made are writable outright, not copy-on-write. */
  lemma {:induction false} AllocDownWritable(m: Mem, d: nat, p: nat, end: nat, q: nat)
    requires Fit(m) && end <= p && AllocDown(m, d, p, end).Some?
    ensures var m' := AllocDown(m, d, p, end).value;
            && (end <= q < p || (Slot(d, q) in m.pages && m.pages[Slot(d, q)].writable) ==>
                  Slot(d, q) in m'.pages && m'.pages[Slot(d, q)].writable)
    decreases p - end
  {
    hide AllocPage;
    if end < p {
      AllocPageEntry(m, Slot(d, p - 1), true);
      AllocDownWritable(AllocPage(m, Slot(d, p - 1), true).value, d, p - 1, end, q);
    }
  }

  lemma FillStepDown(v: map<nat, PageView>, p: nat, end: nat)
    requires end < p
    ensures Fill(v[p - 1 := PageView(Zeros(), true)], end, p - 1, true) == Fill(v, end, p, true)
  {
  }

  lemma {:induction false} AllocDownFills(m: Mem, d: nat, p: nat, end: nat)
    requires Inv(m) && Fit(m) && Linked(m) && d in Dirs(m.owner) && end <= p <= USER_PAGES
    requires forall q: nat :: end <= q < p ==> q !in View(m, d)
    requires AllocDown(m, d, p, end).Some?
    ensures var m' := AllocDown(m, d, p, end).value;
            && Inv(m') && Linked(m') && Dirs(m'.owner) == Dirs(m.owner)
            && View(m', d) == Fill(View(m, d), end, p, true)
            && forall e :: e != d ==> ViewKept(m, m', e)
    decreases p - end
  {
    hide Inv, Dirs, AllocPage, Linked, View;
    var m' := AllocDown(m, d, p, end).value;
    if p == end {
      forall e ensures ViewKept(m, m, e) { }
    } else {
      Absent(m, d, p - 1);
      ViewAllocPage(m, Slot(d, p - 1), true);
      var m1 := AllocPage(m, Slot(d, p - 1), true).value;
      AllocDownFills(m1, d, p - 1, end);
      FillStepDown(View(m, d), p, end);
      forall e | e != d ensures ViewKept(m, m', e) {
        assert ViewKept(m, m1, e) && ViewKept(m1, m', e);
      }
    }
  }

  // ----- munmap

  datatype Reply =
    | Zero | Placed(addr: int) | Einval | Enomem | Enosys | Stored | Loaded(b: Byte) | Segv | Child(pid: nat) | Nobody

  predicate InRange(addr: int, size: int) {
    addr < VM_TOP && addr + size < WORD && addr + size <= VM_TOP
  }

  function Munmap(m: Mem, d: nat, vmas: Vmas, addr: int, len: int): (r: (Mem, Vmas, Reply))
    requires Fit(m) && Valid(vmas, VM_BASE, VM_TOP) && 0 <= addr < WORD && 0 <= len < WORD
  {
    if ThisPage(addr) != addr then (m, vmas, Einval)
    else
      var size := RoundUp(len);
      RoundUpExact(len);
      if !InRange(addr, size) then (m, vmas, Einval)
      else
        ReleasedForward(vmas, addr, addr + size);
        (ReleaseAll(m, d, Released(vmas, addr, addr + size)), Carve(vmas, addr, addr + size, SplitAttr), Zero)
  }

  lemma ReleasedForward(vmas: Vmas, lower: int, upper: int)
    requires Valid(vmas, VM_BASE, VM_TOP) && 0 <= lower <= upper <= VM_TOP && lower < VM_TOP
    ensures Forward(Released(vmas, lower, upper))
  {
  }

  /** What munmap means: the pages of a page-aligned range inside user space disappear. */
  ghost function MunmapSpec(vmas: Vmas, v: map<nat, PageView>, addr: int, len: int): (Vmas, map<nat, PageView>, Reply)
    requires Valid(vmas, VM_BASE, VM_TOP) && 0 <= addr < WORD && 0 <= len < WORD
  {
    var size := RoundUp(len);
    if !Aligned(addr) || !InRange(addr, size) then (vmas, v, Einval)
    else (Carve(vmas, addr, addr + size, SplitAttr), Cut(v, addr / PAGE, (addr + size) / PAGE), Zero)
  }

  /** munmap never looks at the lower end of user space: the call is safe exactly when it is refused, or
      starts at or above VM_BASE (or is the empty call at 0), as EraseKeepsSentinelsIff shows. */
  predicate MunmapSafe(addr: int, len: int) {
    Aligned(addr) && InRange(addr, RoundUp(len)) ==> VM_BASE <= addr || addr + RoundUp(len) == 0
  }

  /** MunmapSafe is the exact condition under which munmap leaves a well-formed list of areas. */
  lemma MunmapSafeIff(m: Mem, d: nat, vmas: Vmas, addr: int, len: int)
    requires Fit(m) && Valid(vmas, VM_BASE, VM_TOP) && 0 <= addr < WORD && 0 <= len < WORD
    ensures Valid(Munmap(m, d, vmas, addr, len).1, VM_BASE, VM_TOP) <==> MunmapSafe(addr, len)
  {
    hide Valid, ReleaseAll, Released, Carve;
    RoundUpExact(len);
    if Aligned(addr) && InRange(addr, RoundUp(len)) {
      EraseKeepsSentinelsIff(vmas, VM_BASE, VM_TOP, addr, addr + RoundUp(len), SplitAttr);
    }
  }

  lemma EraseNothing(m: Mem, d: nat, vmas: Vmas)
    requires Fit(m) && Valid(vmas, VM_BASE, VM_TOP)
    ensures Carve(vmas, 0, 0, SplitAttr) == vmas && Released(vmas, 0, 0) == [] && ReleaseAll(m, d, []) == m
  {
  }

  lemma CutNothing(v: map<nat, PageView>)
    ensures Cut(v, 0, 0) == v
  {
  }

  /** What one call must keep for its own address space and for all others. */
  ghost predicate Follows(m: Mem, d: nat, m': Mem, vmas': Vmas, v': map<nat, PageView>) {
    && Linked(m)
    && Inv(m') && Linked(m') && Dirs(m'.owner) == Dirs(m.owner)
    && View(m', d) == v' && SpaceOk(vmas', v')
    && forall e :: e != d ==> ViewKept(m, m', e)
  }

  ghost predicate Running(m: Mem, d: nat, vmas: Vmas) {
    Inv(m) && Fit(m) && Linked(m) && d in Dirs(m.owner) && SpaceOk(vmas, View(m, d))
  }

  ghost predicate NoneCovered(vmas: Vmas, begin: int, length: int) {
    forall a :: begin <= a < begin + length ==> !Covered(vmas, a)
  }

  lemma CoveredAttr(vmas: Vmas, a: int)
    ensures Covered(vmas, a) <==> AttrAt(vmas, a).Some?
  {
  }

  /** A length above 0xFFFFF000 is rounded up to 0: a successful munmap then leaves every area where it was, and
      leaves nothing of the range covered exactly if nothing was. */
  lemma MunmapUncovers(m: Mem, d: nat, vmas: Vmas, addr: int, len: int)
    requires Fit(m) && Valid(vmas, VM_BASE, VM_TOP) && 0 <= addr < WORD && 0 <= len < WORD && MunmapSafe(addr, len)
    ensures var (_, vmas', r) := Munmap(m, d, vmas, addr, len);
            r == Zero ==> (NoneCovered(vmas', addr, len) <==> len <= WORD - PAGE || NoneCovered(vmas, addr, len))
  {
    hide Carve, Released, ReleaseAll, Ordered, Covered;
    RoundUpExact(len);
    var upper := addr + RoundUp(len);
    if Aligned(addr) && InRange(addr, RoundUp(len)) {
      if VM_BASE <= addr {
        forall a ensures Covered(Carve(vmas, addr, upper, SplitAttr), a) <==> !(addr <= a < upper) && Covered(vmas, a) {
          EraseExact(vmas, VM_BASE, VM_TOP, addr, upper, SplitAttr, a);
          CoveredAttr(vmas, a);
          CoveredAttr(Carve(vmas, addr, upper, SplitAttr), a);
        }
      } else {
        EraseNothing(m, d, vmas);
      }
    }
  }

  /** Every safe munmap does to areas and pages what MunmapSpec says, and keeps them in agreement. */
  lemma MunmapAgrees(m: Mem, d: nat, vmas: Vmas, addr: int, len: int)
    requires Running(m, d, vmas) && 0 <= addr < WORD && 0 <= len < WORD && MunmapSafe(addr, len)
    ensures var (m', vmas', r) := Munmap(m, d, vmas, addr, len);
            var (vmasS, vS, rS) := MunmapSpec(vmas, View(m, d), addr, len);
            vmas' == vmasS && r == rS && Follows(m, d, m', vmas', vS)
  {
    hide Inv, Linked, View, Cut, Released, Carve, Agree, AreaOk, Ordered, ReleaseAll, Dirs;
    RoundUpExact(len);
    forall e ensures ViewKept(m, m, e) { }
    if Aligned(addr) && InRange(addr, RoundUp(len)) {
      var upper := addr + RoundUp(len);
      if VM_BASE <= addr {
        EraseSpace(m, d, vmas, addr, upper);
      } else {
        EraseNothing(m, d, vmas);
        CutNothing(View(m, d));
      }
    }
  }

  // ----- mmap

  /** What a call comes to.  Halts: it does not come back, because no frame is left or because it has run on into
      the kernel's half. */
  datatype Outcome = Halts | Returns(mem: Mem, vmas: Vmas, reply: Reply)

  /** nextPage on a 32-bit address. */
  function NextPage(a: int): int {
    (ThisPage(a) + PAGE) % WORD
  }

  /** VMA::alloc: page by page from a until the address is exactly the end.  Every turn takes a frame.  None when no
      frame is left, and at the top of user space, from where on the loop writes the kernel's own tables. */
  function AllocLoop(m: Mem, d: nat, a: int, end: int, writable: bool): (r: Option<Mem>)
    requires Fit(m) && 0 <= a
    ensures r.Some? ==> Fit(r.value)
    decreases VM_TOP - a
  {
    if a == end then Some(m)
    else if a >= VM_TOP then None
    else
      match AllocPage(m, Slot(d, a / PAGE), writable)
      case None => None
      case Some(m1) => NextAligned(a); AllocLoop(m1, d, NextPage(a), end, writable)
  }

  lemma NextAligned(a: int)
    requires 0 <= a < VM_TOP
    ensures a < NextPage(a) <= VM_TOP && Aligned(NextPage(a)) && NextPage(a) / PAGE == a / PAGE + 1
    ensures Aligned(a) ==> NextPage(a) == a + PAGE
  {
  }

  lemma {:induction false} LoopAligned(m: Mem, d: nat, a: int, end: int, writable: bool)
    requires Fit(m) && 0 <= a <= end <= VM_TOP && Aligned(a) && Aligned(end)
    ensures AllocLoop(m, d, a, end, writable) == AllocRange(m, d, a / PAGE, end / PAGE, writable)
    decreases VM_TOP - a
  {
    hide AllocPage, NextPage;
    if a < end {
      NextAligned(a);
      match AllocPage(m, Slot(d, a / PAGE), writable)
      case None =>
      case Some(m1) => LoopAligned(m1, d, NextPage(a), end, writable);
    }
  }

  lemma {:induction false} LoopMisses(m: Mem, d: nat, a: int, end: int, writable: bool)
    requires Fit(m) && 0 <= a && a != end && !Aligned(end)
    ensures AllocLoop(m, d, a, end, writable) == None
    decreases VM_TOP - a
  {
    hide AllocPage, NextPage;
    if a < VM_TOP {
      NextAligned(a);
      match AllocPage(m, Slot(d, a / PAGE), writable)
      case None =>
      case Some(m1) => LoopMisses(m1, d, NextPage(a), end, writable);
    }
  }

  /** The loop meets the end of the area if the area has no pages or starts at one, and then gives it its pages; else
      it goes on past the end and does not come back. */
  lemma AllocLoopIs(m: Mem, d: nat, begin: int, size: int, writable: bool)
    requires Fit(m) && 0 <= begin && 0 <= size && begin + size <= VM_TOP && Aligned(size)
    ensures AllocLoop(m, d, begin, begin + size, writable) ==
            if size == 0 || Aligned(begin)
            then AllocRange(m, d, begin / PAGE, (begin + size) / PAGE, writable) else None
  {
    hide AllocRange, AllocPage;
    if size == 0 {
      NoTurn(m, d, begin, writable);
    } else if Aligned(begin) {
      LoopAligned(m, d, begin, begin + size, writable);
    } else {
      LoopMisses(m, d, begin, begin + size, writable);
    }
  }

  lemma NoTurn(m: Mem, d: nat, a: int, writable: bool)
    requires Fit(m) && 0 <= a
    ensures AllocLoop(m, d, a, a, writable) == Some(m) == AllocRange(m, d, a / PAGE, a / PAGE, writable)
  {
  }

  /** The tail of both mmap paths: record the area, then give it pages. */
  function MapArea(m: Mem, d: nat, vmas: Vmas, place: int, size: int, x: Attr): (r: Outcome)
    requires Fit(m) && Valid(vmas, VM_BASE, VM_TOP) && 0 <= place < VM_TOP && 0 <= size
  {
    match Insert(vmas, Range(place, place + size, x))
    case None => Returns(m, vmas, Enomem)
    case Some(vmas') =>
      match AllocLoop(m, d, place, place + size, Writes(x))
      case None => Halts
      case Some(m') => Returns(m', vmas', Placed(place))
  }

  /** Where the vector operations have an entry to look at.  An erase that takes away everything up to the base
      leaves locate none to step back to; a search for 0 bytes that ends at the top leaves insert none to look
      ahead to. */
  predicate MmapDefined(vmas: Vmas, addr: int, length: int, flags: bv32)
    requires Valid(vmas, VM_BASE, VM_TOP) && 0 <= addr && 0 <= length < WORD
  {
    RoundUpExact(length);
    length != 0 ==> SizeDefined(vmas, addr, RoundUp(length), flags)
  }

  predicate SizeDefined(vmas: Vmas, addr: int, size: int, flags: bv32)
    requires Valid(vmas, VM_BASE, VM_TOP) && 0 <= addr && 0 <= size
  {
    if flags & MAP_FIXED != 0 then
      ThisPage(addr) == addr && InRange(addr, size) ==> Locatable(Carve(vmas, addr, addr + size, SplitAttr))
    else
      flags & MAP_PRIVATE != 0 ==> FindFree(vmas, VM_BASE, VM_TOP, size, addr) != Some(VM_TOP)
  }

  /** The conditions behind MmapDefined.  A fixed range must not run from 0 past the base, nor up to it unless an area
      starts there; a request that rounds to 0 bytes must not start in an area that ends at the top. */
  lemma MmapDefinedIff(vmas: Vmas, addr: int, length: int, flags: bv32)
    requires Valid(vmas, VM_BASE, VM_TOP) && 0 <= addr && 0 <= length < WORD
    ensures !MmapDefined(vmas, addr, length, flags) <==>
            && length != 0
            && if flags & MAP_FIXED != 0 then
                 && addr == 0 && InRange(0, RoundUp(length))
                 && (VM_BASE < RoundUp(length) || (VM_BASE == RoundUp(length) && !StartsAt(vmas, VM_BASE)))
               else
                 && flags & MAP_PRIVATE != 0 && RoundUp(length) == 0 && addr < VM_TOP
                 && exists i :: Has(vmas, i, Max(addr, VM_BASE)) && vmas[i].end == VM_TOP
  {
    hide Carve, FindFree, Ordered, Covered, Locatable, StartsAt;
    RoundUpExact(length);
    var size := RoundUp(length);
    if flags & MAP_FIXED != 0 {
      if InRange(addr, size) {
        CarveLocatable(vmas, addr, size);
      }
    } else if size > 0 {
      if FindFree(vmas, VM_BASE, VM_TOP, size, addr).Some? {
        FoundPlaceExact(vmas, VM_BASE, VM_TOP, size, addr, Attr(0, 0));
      }
    } else {
      FindFreeExact(vmas, VM_BASE, VM_TOP, 0, addr);
      if addr < VM_TOP {
        FindNothing(vmas, VM_BASE, VM_TOP, addr);
      }
    }
  }

  ghost predicate StartsAt(vmas: Vmas, a: int) {
    exists i :: 0 < i < |vmas| - 1 && vmas[i].begin == a
  }

  lemma CarveLocatable(vmas: Vmas, addr: int, size: int)
    requires Valid(vmas, VM_BASE, VM_TOP) && 0 <= addr && 0 <= size && InRange(addr, size)
    ensures Locatable(Carve(vmas, addr, addr + size, SplitAttr)) <==>
            0 < addr || size < VM_BASE || (size == VM_BASE && StartsAt(vmas, VM_BASE))
  {
    hide Ordered, StartsAt, FirstTouched, LastTouched, Remains, Splice, Touches;
    var l, r := FirstTouched(vmas, addr), LastTouched(vmas, addr + size);
    TouchedTouches(vmas, VM_BASE, VM_TOP, addr, addr + size);
    TouchedRange(vmas, l, r, addr, addr + size);
    CarveIs(vmas, l, r, addr, addr + size, SplitAttr);
    FirstAt(vmas, addr, l);
    if l <= r {
      if l > 0 || addr > 0 {
        CutKeepsFront(vmas, l, r, addr, addr + size);
      } else {
        CutFromZero(vmas, r, size);
      }
    } else if addr == 0 {
      LastAt(vmas, size, r);
    }
  }

  lemma TouchedRange(vmas: Vmas, l: int, r: int, lower: int, upper: int)
    requires Touches(vmas, l, r, lower, upper)
    ensures 0 <= l < |vmas| && -1 <= r < |vmas| - 1
  {
  }

  lemma FirstAt(vmas: Vmas, addr: int, l: int)
    requires Valid(vmas, VM_BASE, VM_TOP) && 0 <= addr < VM_TOP && l == FirstTouched(vmas, addr)
    ensures l == 0 <==> addr < VM_BASE
  {
    LocateSplits(vmas, addr);
  }

  lemma LastAt(vmas: Vmas, upper: int, r: int)
    requires Valid(vmas, VM_BASE, VM_TOP) && 0 <= upper <= VM_TOP && r == LastTouched(vmas, upper)
    ensures r < 0 ==> upper == 0
    ensures 0 < upper < VM_BASE ==> r == 0
    ensures upper == VM_BASE && r >= 0 ==>
              vmas[r].end <= VM_BASE && r + 1 < |vmas| && (vmas[r + 1].begin <= VM_BASE <==> StartsAt(vmas, VM_BASE))
    ensures upper > VM_BASE && r >= 0 ==> r + 1 < |vmas| && upper <= vmas[r + 1].begin
  {
    LocateSplits(vmas, upper);
    var pos := Locate(vmas, upper);
    Monotone(vmas, 0, pos);
    if upper == VM_BASE && StartsAt(vmas, VM_BASE) {
      var i :| 0 < i < |vmas| - 1 && vmas[i].begin == VM_BASE;
      assert i <= pos;
      Monotone(vmas, i, pos);
      assert vmas[pos].begin == VM_BASE;
    }
    assert pos == 0 || vmas[pos - 1].end <= vmas[pos].begin;
    assert vmas[pos].begin == VM_BASE ==> 0 < pos < |vmas| - 1;
  }

  lemma CutKeepsFront(vmas: Vmas, l: int, r: int, lower: int, upper: int)
    requires Valid(vmas, VM_BASE, VM_TOP) && 0 <= l <= r < |vmas| - 1 && (l > 0 || 0 < lower <= VM_BASE)
    ensures Locatable(Splice(vmas, l, r + 1, Remains(vmas, l, r, lower, upper, SplitAttr)))
  {
  }

  lemma CutFromZero(vmas: Vmas, r: int, upper: int)
    requires Valid(vmas, VM_BASE, VM_TOP) && 0 <= r < |vmas| - 1
    requires 0 <= upper <= VM_TOP && r == LastTouched(vmas, upper)
    ensures Locatable(Splice(vmas, 0, r + 1, Remains(vmas, 0, r, 0, upper, SplitAttr))) <==>
            upper < VM_BASE || (upper == VM_BASE && StartsAt(vmas, VM_BASE))
  {
    hide Ordered, StartsAt, LastTouched;
    LastAt(vmas, upper, r);
    NothingBelow(vmas, upper, r);
  }

  lemma NothingBelow(vmas: Vmas, upper: int, r: int)
    requires Valid(vmas, VM_BASE, VM_TOP) && 0 <= upper && r == LastTouched(vmas, upper)
    ensures upper == 0 ==> r < 0
  {
    LocateSplits(vmas, upper);
  }

  predicate Locatable(vmas: Vmas) {
    |vmas| > 0 && vmas[0].begin <= VM_BASE
  }

  /** The calls that keep areas and pages in agreement (MmapSafeIff): a MAP_FIXED erase starts at or above the
      base, or is the empty one at 0; a MAP_PRIVATE hint is page aligned, or not a place the area could go. */
  ghost predicate MmapSafe(vmas: Vmas, addr: int, length: int, flags: bv32) {
    var size := RoundUp(length);
    length != 0 ==>
      if flags & MAP_FIXED != 0 then
        Aligned(addr) && InRange(addr, size) ==> VM_BASE <= addr || addr + size == 0
      else
        flags & MAP_PRIVATE != 0 ==> Aligned(addr) || addr < VM_BASE || !Gap(vmas, addr, size)
  }

  function Mmap(m: Mem, d: nat, vmas: Vmas, addr: int, length: int, prot: bv32, flags: bv32): (r: Outcome)
    requires Fit(m) && Valid(vmas, VM_BASE, VM_TOP) && 0 <= addr < WORD && 0 <= length < WORD
    requires MmapDefined(vmas, addr, length, flags)
  {
    RoundUpExact(length);
    MmapSized(m, d, vmas, addr, length == 0, RoundUp(length), prot, flags)
  }

  function MmapSized(m: Mem, d: nat, vmas: Vmas, addr: int, nothing: bool, size: int, prot: bv32, flags: bv32)
    : (r: Outcome)
    requires Fit(m) && Valid(vmas, VM_BASE, VM_TOP) && 0 <= addr && 0 <= size
    requires !nothing ==> SizeDefined(vmas, addr, size, flags)
  {
    if flags & MAP_FIXED != 0 then
      if nothing || ThisPage(addr) != addr then Returns(m, vmas, Einval)
      else MmapFixed(m, d, vmas, addr, size, Attr(flags, prot))
    else if flags & MAP_PRIVATE != 0 then
      if nothing then Returns(m, vmas, Einval)
      else MmapPrivate(m, d, vmas, addr, size, Attr(flags, prot))
    else Returns(m, vmas, if flags & MAP_SHARED != 0 then Enosys else Einval)
  }

  function MmapPrivate(m: Mem, d: nat, vmas: Vmas, addr: int, size: int, x: Attr): (r: Outcome)
    requires Fit(m) && Valid(vmas, VM_BASE, VM_TOP) && 0 <= addr && 0 <= size
    requires FindFree(vmas, VM_BASE, VM_TOP, size, addr) != Some(VM_TOP)
  {
    match FindFree(vmas, VM_BASE, VM_TOP, size, addr)
    case None => Returns(m, vmas, Enomem)
    case Some(place) =>
      FoundPlaceExact(vmas, VM_BASE, VM_TOP, size, addr, x);
      MapArea(m, d, vmas, place, size, x)
  }

  /** The MAP_FIXED path; the result of the erase is ignored. */
  function MmapFixed(m: Mem, d: nat, vmas: Vmas, addr: int, size: int, x: Attr): (r: Outcome)
    requires Fit(m) && Valid(vmas, VM_BASE, VM_TOP) && 0 <= addr && 0 <= size
    requires InRange(addr, size) ==> Locatable(Carve(vmas, addr, addr + size, SplitAttr))
  {
    var (m1, vmas1) := EraseQuietly(m, d, vmas, addr, size);
    ErasedValid(m, d, vmas, addr, size);
    MapAt(m1, d, vmas1, addr, size, x)
  }

  /** Map at the hint, if that is where the search ends. */
  function MapAt(m: Mem, d: nat, vmas: Vmas, addr: int, size: int, x: Attr): (r: Outcome)
    requires Fit(m) && Locatable(vmas) && (VM_BASE <= addr ==> Valid(vmas, VM_BASE, VM_TOP)) && 0 <= size
  {
    if FindFree(vmas, VM_BASE, VM_TOP, size, addr) != Some(addr) then Returns(m, vmas, Enomem)
    else MapArea(m, d, vmas, addr, size, x)
  }

  function EraseQuietly(m: Mem, d: nat, vmas: Vmas, addr: int, size: int): (r: (Mem, Vmas))
    requires Fit(m) && Valid(vmas, VM_BASE, VM_TOP) && 0 <= addr && 0 <= size
    ensures Fit(r.0)
    ensures r.1 == if InRange(addr, size) then Carve(vmas, addr, addr + size, SplitAttr) else vmas
  {
    if !InRange(addr, size) then (m, vmas)
    else
      ReleasedForward(vmas, addr, addr + size);
      (ReleaseAll(m, d, Released(vmas, addr, addr + size)), Carve(vmas, addr, addr + size, SplitAttr))
  }

  lemma ErasedValid(m: Mem, d: nat, vmas: Vmas, addr: int, size: int)
    requires Fit(m) && Valid(vmas, VM_BASE, VM_TOP) && 0 <= addr && 0 <= size
    requires InRange(addr, size) ==> Locatable(Carve(vmas, addr, addr + size, SplitAttr))
    ensures Locatable(EraseQuietly(m, d, vmas, addr, size).1)
    ensures VM_BASE <= addr ==> Valid(EraseQuietly(m, d, vmas, addr, size).1, VM_BASE, VM_TOP)
  {
    hide Ordered, Carve;
    if InRange(addr, size) && VM_BASE <= addr {
      EraseKeepsValid(vmas, VM_BASE, VM_TOP, addr, addr + size, SplitAttr);
    }
  }

  /** What mmap means.  MAP_FIXED replaces whatever the range held and lands exactly there, or fails with
      ENOMEM when the range is not inside user space.  MAP_PRIVATE takes the least place at or above the hint that
      is unused and has no empty area inside.  Either way the new pages are zero and writable exactly if asked for. */
  ghost function MmapSpec(vmas: Vmas, v: map<nat, PageView>, addr: int, length: int, prot: bv32, flags: bv32)
    : (Vmas, map<nat, PageView>, Reply)
    requires Valid(vmas, VM_BASE, VM_TOP) && 0 <= addr < WORD && 0 <= length < WORD
    requires MmapDefined(vmas, addr, length, flags)
  {
    RoundUpExact(length);
    var size := RoundUp(length);
    var x := Attr(flags, prot);
    if flags & MAP_FIXED != 0 then
      if length == 0 || !Aligned(addr) then (vmas, v, Einval)
      else MmapFixedSpec(vmas, v, addr, size, x)
    else if flags & MAP_PRIVATE != 0 then
      if length == 0 then (vmas, v, Einval)
      else
        match FindFree(vmas, VM_BASE, VM_TOP, size, addr)
        case None => (vmas, v, Enomem)
        case Some(place) =>
          FoundPlaceExact(vmas, VM_BASE, VM_TOP, size, addr, x);
          MapAreaSpec(vmas, v, place, size, x)
    else (vmas, v, if flags & MAP_SHARED != 0 then Enosys else Einval)
  }

  ghost function MmapFixedSpec(vmas: Vmas, v: map<nat, PageView>, addr: int, size: int, x: Attr)
    : (Vmas, map<nat, PageView>, Reply)
    requires Valid(vmas, VM_BASE, VM_TOP) && 0 <= addr && 0 <= size
  {
    if !InRange(addr, size) || addr < VM_BASE then (vmas, v, Enomem)
    else
      EraseKeepsValid(vmas, VM_BASE, VM_TOP, addr, addr + size, SplitAttr);
      MapAreaSpec(Carve(vmas, addr, addr + size, SplitAttr), Cut(v, addr / PAGE, (addr + size) / PAGE), addr, size, x)
  }

  /** The stretch is unused, and no empty area is inside it. */
  ghost predicate Room(vmas: Vmas, a: int, size: int) {
    Unused(vmas, VM_BASE, VM_TOP, a, size) && !Straddles(vmas, a, size)
  }

  /** MAP_PRIVATE takes the least place at or above the hint with room, and fails exactly if there is none. */
  lemma MmapLeast(vmas: Vmas, v: map<nat, PageView>, addr: int, length: int, prot: bv32, flags: bv32)
    requires Valid(vmas, VM_BASE, VM_TOP) && 0 <= addr < WORD && 0 < length <= WORD - PAGE
    requires flags & MAP_FIXED == 0 && flags & MAP_PRIVATE != 0
    ensures MmapDefined(vmas, addr, length, flags)
    ensures var r, size, start := MmapSpec(vmas, v, addr, length, prot, flags).2, RoundUp(length), Max(addr, VM_BASE);
            if exists a :: start <= a && Room(vmas, a, size) then
              && r.Placed? && start <= r.addr && Room(vmas, r.addr, size)
              && forall a :: start <= a < r.addr ==> !Room(vmas, a, size)
            else r == Enomem
  {
    hide Ordered, FindFree, Unused, Straddles, Gap, Covered, Fill, StartsAt;
    RoundUpExact(length);
    MmapDefinedIff(vmas, addr, length, flags);
    var size := RoundUp(length);
    FindFreeLeast(vmas, VM_BASE, VM_TOP, size, addr);
    forall a ensures Gap(vmas, a, size) <==> Room(vmas, a, size) {
      GapIsUncovered(vmas, VM_BASE, VM_TOP, a, size);
    }
  }

  /** The area is taken, unless it has no pages and its address is in another one. */
  ghost function MapAreaSpec(vmas: Vmas, v: map<nat, PageView>, place: int, size: int, x: Attr)
    : (Vmas, map<nat, PageView>, Reply)
    requires Valid(vmas, VM_BASE, VM_TOP) && 0 <= place < VM_TOP && 0 <= size
  {
    if size == 0 && Covered(vmas, place) then (vmas, v, Enomem)
    else
      var pos := Locate(vmas, place);
      (Splice(vmas, pos + 1, pos + 1, [Range(place, place + size, x)]),
       Fill(v, place / PAGE, (place + size) / PAGE, Writes(x)),
       Placed(place))
  }

  // An accepted area: its pages were absent, and afterwards they are exactly its own.

  lemma InsertAreas(vmas: Vmas, e: Range<Attr>)
    requires AreasOk(vmas) && VM_BASE <= e.begin < VM_TOP && AreaOk(e) && Insert(vmas, e).Some?
    ensures AreasOk(Insert(vmas, e).value)
  {
    hide Ordered, AreaOk;
    AreaForward(e);
    InsertAdds(vmas, VM_BASE, VM_TOP, e);
    var vmas' := Insert(vmas, e).value;
    var pos := Locate(vmas, e.begin);
    forall i | 0 < i < |vmas'| - 1 ensures AreaOk(vmas'[i]) {
      assert vmas'[i] == if i <= pos then vmas[i] else if i == pos + 1 then e else vmas[i - 1];
    }
  }

  lemma PagesOfArea(e: Range<Attr>, p: nat)
    requires AreaOk(e) && 0 <= e.begin
    ensures e.Contains(p * PAGE) <==> e.begin / PAGE <= p < e.end / PAGE
  {
  }

  lemma InsertAgrees(vmas: Vmas, v: map<nat, PageView>, e: Range<Attr>)
    requires SpaceOk(vmas, v) && VM_BASE <= e.begin < VM_TOP && e.end <= VM_TOP && AreaOk(e) && Insert(vmas, e).Some?
    ensures forall p: nat :: e.begin / PAGE <= p < e.end / PAGE ==> p !in v
    ensures SpaceOk(Insert(vmas, e).value, Fill(v, e.begin / PAGE, e.end / PAGE, Writes(e.attr)))
  {
    hide Ordered, AreaOk, Insert, Writes, GrowsDown;
    AreaForward(e);
    InsertAdds(vmas, VM_BASE, VM_TOP, e);
    InsertAreas(vmas, e);
    var vmas', v' := Insert(vmas, e).value, Fill(v, e.begin / PAGE, e.end / PAGE, Writes(e.attr));
    forall p: nat
      ensures e.begin / PAGE <= p < e.end / PAGE ==> p !in v
      ensures PageAgrees(vmas', v', p)
    {
      PagesOfArea(e, p);
      assert PageAgrees(vmas, v, p);
      assert At(vmas', p * PAGE) == if e.Contains(p * PAGE) then Some(e) else At(vmas, p * PAGE);
    }
  }

  lemma AreaForward(e: Range<Attr>)
    requires AreaOk(e)
    ensures e.begin <= e.end
  {
  }

  lemma MapAreaAgrees(m: Mem, d: nat, vmas: Vmas, place: int, size: int, x: Attr)
    requires Running(m, d, vmas) && Valid(vmas, VM_BASE, VM_TOP)
    requires VM_BASE <= place < VM_TOP && place + size <= VM_TOP && 0 <= size && Aligned(place) && Aligned(size)
    requires size > 0 ==> Insert(vmas, Range(place, place + size, x)).Some?
    requires MapArea(m, d, vmas, place, size, x).Returns?
    ensures var Returns(m', vmas', r) := MapArea(m, d, vmas, place, size, x);
            var (vmasS, vS, rS) := MapAreaSpec(vmas, View(m, d), place, size, x);
            vmas' == vmasS && r == rS && Follows(m, d, m', vmas', vS)
  {
    hide Inv, Linked, View, Agree, Ordered, Dirs, AllocRange, AllocLoop, Writes, GrowsDown, Fill, AreasOk, Covered,
         Insert;
    var e := Range(place, place + size, x);
    AllocLoopIs(m, d, place, size, Writes(x));
    InsertExact(vmas, VM_BASE, VM_TOP, e);
    if Insert(vmas, e).Some? {
      InsertAgrees(vmas, View(m, d), e);
      AllocRangeFills(m, d, place / PAGE, (place + size) / PAGE, Writes(x));
      SpliceIsInsert(vmas, e);
    } else {
      forall e ensures ViewKept(m, m, e) { }
    }
  }

  lemma AreasValid(vmas: Vmas)
    requires AreasOk(vmas)
    ensures Valid(vmas, VM_BASE, VM_TOP)
  {
  }

  lemma SpliceIsInsert(vmas: Vmas, e: Range<Attr>)
    requires Valid(vmas, VM_BASE, VM_TOP) && VM_BASE <= e.begin < VM_TOP && Insert(vmas, e).Some?
    ensures var pos := Locate(vmas, e.begin); Splice(vmas, pos + 1, pos + 1, [e]) == Insert(vmas, e).value
  {
  }

  // Where the area goes.

  lemma {:induction false} FoundWhere<A>(rs: seq<Range<A>>, size: int, start: int, pos: nat)
    requires pos < |rs| && FindFrom(rs, size, start, pos).Some?
    ensures var r := FindFrom(rs, size, start, pos).value; r == start || exists i :: 0 <= i < |rs| - 1 && r == rs[i].end
    decreases |rs| - pos
  {
    var lower := Max(rs[pos].end, start);
    if !(lower + size < WORD && rs[pos].Bounds(rs[pos + 1], lower, lower + size)) {
      FoundWhere(rs, size, start, pos + 1);
    }
  }

  lemma Below(vmas: Vmas, i: int, j: int)
    requires Ordered(vmas) && 0 <= i < |vmas| && 0 <= j < |vmas|
    ensures i <= j ==> vmas[i].begin <= vmas[j].begin
  {
    if i <= j {
      Monotone(vmas, i, j);
    }
  }

  /** An unaligned address can only lie in the hole after the entry located. */
  lemma UnalignedGap(vmas: Vmas, a: int, size: int)
    requires AreasOk(vmas) && VM_BASE <= a && !Aligned(a) && 0 <= size && Gap(vmas, a, size)
    ensures a + size <= VM_TOP && a < VM_TOP && vmas[Locate(vmas, a)].end <= a
  {
    hide AreaOk, Ordered;
    var g :| Fits(vmas, g, a, size);
    Monotone(vmas, g + 1, |vmas| - 1);
    LocateSplits(vmas, a);
    var l := Locate(vmas, a);
    Below(vmas, g + 1, l);
    EntryShape(vmas, l);
    EntryShape(vmas, g);
    assert g == l;
  }

  lemma EntryShape(vmas: Vmas, i: nat)
    requires AreasOk(vmas) && i < |vmas|
    ensures Aligned(vmas[i].begin) && vmas[i].begin <= vmas[i].end
  {
    assert i == 0 || i == |vmas| - 1 || AreaOk(vmas[i]);
  }

  /** An unaligned hint with room at it is where the area goes. */
  lemma FoundAtHint(vmas: Vmas, size: int, hint: int)
    requires AreasOk(vmas) && VM_BASE <= hint && !Aligned(hint) && 0 <= size && Gap(vmas, hint, size)
    ensures hint < VM_TOP && FindFree(vmas, VM_BASE, VM_TOP, size, hint) == Some(hint)
  {
    hide Gap, Ordered, AreaOk, FindFree;
    UnalignedGap(vmas, hint, size);
    if size > 0 {
      FindFreeLeast(vmas, VM_BASE, VM_TOP, size, hint);
    } else {
      FindNothing(vmas, VM_BASE, VM_TOP, hint);
    }
  }

  /** The place found is page aligned exactly when the hint is, or lies below user space, or has no room at it. */
  lemma PlaceAligned(vmas: Vmas, size: int, hint: int)
    requires AreasOk(vmas) && 0 <= size && FindFree(vmas, VM_BASE, VM_TOP, size, hint).Some?
    ensures var place := FindFree(vmas, VM_BASE, VM_TOP, size, hint).value;
            Aligned(place) <==> Aligned(hint) || hint < VM_BASE || !Gap(vmas, hint, size)
  {
    hide Ordered, FindFrom, Gap;
    var start := Max(hint, VM_BASE);
    var place := FindFree(vmas, VM_BASE, VM_TOP, size, hint).value;
    FoundWhere(vmas, size, start, Locate(vmas, start));
    FindFromFits(vmas, size, start, Locate(vmas, start));
    if place != start {
      var i :| 0 <= i < |vmas| - 1 && place == vmas[i].end;
      assert i == 0 || AreaOk(vmas[i]);
    }
    if !Aligned(hint) && VM_BASE <= hint && Gap(vmas, hint, size) {
      FoundAtHint(vmas, size, hint);
    }
  }

  /** After an in-range erase the first fit at its start is its start: MAP_FIXED lands where asked. */
  lemma FixedPlace(vmas: Vmas, addr: int, size: int)
    requires AreasOk(vmas) && VM_BASE <= addr && 0 < size && addr + size <= VM_TOP && Aligned(addr) && Aligned(size)
    ensures var vmas1 := Carve(vmas, addr, addr + size, SplitAttr);
            AreasOk(vmas1) && FindFree(vmas1, VM_BASE, VM_TOP, size, addr) == Some(addr)
  {
    hide Ordered, Carve, FindFree, AreaOk, Gap;
    CarveAreas(vmas, addr, addr + size);
    CarveGap(vmas, VM_BASE, VM_TOP, addr, addr + size, SplitAttr);
    FindFreeLeast(Carve(vmas, addr, addr + size, SplitAttr), VM_BASE, VM_TOP, size, addr);
  }

  /** An erase of no bytes leaves no hole, but an address in none is still where the search stops. */
  lemma FixedNothing(vmas: Vmas, addr: int)
    requires AreasOk(vmas) && VM_BASE <= addr < VM_TOP
    ensures FindFree(vmas, VM_BASE, VM_TOP, 0, addr) == Some(addr) <==> !Covered(vmas, addr)
  {
    hide Ordered, FindFree, AreaOk, Covered;
    FindNothing(vmas, VM_BASE, VM_TOP, addr);
  }

  lemma FixedAgrees(m: Mem, d: nat, vmas: Vmas, addr: int, size: int, m1: Mem, vmas1: Vmas)
    requires Running(m, d, vmas) && Aligned(addr) && Aligned(size) && 0 <= size && VM_BASE <= addr
             && InRange(addr, size)
    requires EraseQuietly(m, d, vmas, addr, size) == (m1, vmas1)
    ensures vmas1 == Carve(vmas, addr, addr + size, SplitAttr)
    ensures Running(m1, d, vmas1) && Dirs(m1.owner) == Dirs(m.owner) && Valid(vmas1, VM_BASE, VM_TOP)
    ensures View(m1, d) == Cut(View(m, d), addr / PAGE, (addr + size) / PAGE)
    ensures forall e :: e != d ==> ViewKept(m, m1, e)
    ensures FindFree(vmas1, VM_BASE, VM_TOP, size, addr) == Some(addr) <==> size > 0 || !Covered(vmas1, addr)
  {
    hide Inv, View, Cut, Released, Carve, Agree, AreaOk, Ordered, ReleaseAll, FindFree, Dirs, Covered;
    EraseSpace(m, d, vmas, addr, addr + size);
    AreasValid(vmas1);
    if size > 0 {
      FixedPlace(vmas, addr, size);
    } else {
      FixedNothing(vmas1, addr);
    }
  }

  /** A range that is not inside user space is never found at its start. */
  lemma FixedRefused(vmas: Vmas, addr: int, size: int)
    requires Valid(vmas, VM_BASE, VM_TOP) && 0 <= size && (!InRange(addr, size) || addr < VM_BASE)
    ensures FindFree(vmas, VM_BASE, VM_TOP, size, addr) != Some(addr)
  {
    hide Ordered, FindFrom, Gap;
    if size > 0 {
      FindFreeLeast(vmas, VM_BASE, VM_TOP, size, addr);
    }
  }

  lemma MmapFixedAgrees(m: Mem, d: nat, vmas: Vmas, addr: int, size: int, x: Attr)
    requires Running(m, d, vmas) && Valid(vmas, VM_BASE, VM_TOP) && 0 <= addr && Aligned(addr) && 0 <= size
             && Aligned(size)
    requires InRange(addr, size) ==> VM_BASE <= addr && Locatable(Carve(vmas, addr, addr + size, SplitAttr))
    requires MmapFixed(m, d, vmas, addr, size, x).Returns?
    ensures var Returns(m', vmas', r) := MmapFixed(m, d, vmas, addr, size, x);
            var (vmasS, vS, rS) := MmapFixedSpec(vmas, View(m, d), addr, size, x);
            vmas' == vmasS && r == rS && Follows(m, d, m', vmas', vS)
  {
    hide Inv, Linked, View, Cut, Released, Carve, Agree, AreaOk, Ordered, ReleaseAll, Dirs, FindFree, Insert, Fill,
         MapArea, EraseQuietly, Covered, Valid;
    forall e ensures ViewKept(m, m, e) { }
    var (m1, vmas1) := EraseQuietly(m, d, vmas, addr, size);
    if InRange(addr, size) {
      FixedAgrees(m, d, vmas, addr, size, m1, vmas1);
      if size > 0 || !Covered(vmas1, addr) {
        FoundPlaceExact(vmas1, VM_BASE, VM_TOP, size, addr, x);
        MapAreaAgrees(m1, d, vmas1, addr, size, x);
        var m' := MmapFixed(m, d, vmas, addr, size, x).mem;
        forall e | e != d ensures ViewKept(m, m', e) { assert ViewKept(m, m1, e) && ViewKept(m1, m', e); }
      }
    } else {
      EraseRefused(m, d, vmas, addr, size);
      FixedRefused(vmas, addr, size);
    }
  }

  lemma EraseRefused(m: Mem, d: nat, vmas: Vmas, addr: int, size: int)
    requires Fit(m) && Valid(vmas, VM_BASE, VM_TOP) && 0 <= addr && 0 <= size && !InRange(addr, size)
    ensures EraseQuietly(m, d, vmas, addr, size) == (m, vmas)
  {
  }

  /** The empty call at 0 erases nothing and finds nothing. */
  lemma MmapAtZero(m: Mem, d: nat, vmas: Vmas, x: Attr)
    requires Fit(m) && Valid(vmas, VM_BASE, VM_TOP)
    ensures Locatable(Carve(vmas, 0, 0, SplitAttr)) && MmapFixed(m, d, vmas, 0, 0, x) == Returns(m, vmas, Enomem)
  {
    hide Ordered, FindFrom;
    EraseNothing(m, d, vmas);
  }

  lemma MmapPrivateAgrees(m: Mem, d: nat, vmas: Vmas, addr: int, size: int, x: Attr)
    requires Running(m, d, vmas) && Valid(vmas, VM_BASE, VM_TOP) && 0 <= size && Aligned(size)
    requires FindFree(vmas, VM_BASE, VM_TOP, size, addr).Some?
    requires Aligned(addr) || addr < VM_BASE || !Gap(vmas, addr, size)
    ensures var place := FindFree(vmas, VM_BASE, VM_TOP, size, addr).value;
            place < VM_TOP ==>
              match MapArea(m, d, vmas, place, size, x)
              case Halts => true
              case Returns(m', vmas', r) =>
                var (vmasS, vS, rS) := MapAreaSpec(vmas, View(m, d), place, size, x);
                vmas' == vmasS && r == rS && Follows(m, d, m', vmas', vS)
  {
    hide Inv, Linked, View, Agree, AreaOk, Ordered, Dirs, FindFree, Insert, Fill, Gap, MapAreaSpec, AllocLoop,
         Covered;
    var place := FindFree(vmas, VM_BASE, VM_TOP, size, addr).value;
    FoundPlaceExact(vmas, VM_BASE, VM_TOP, size, addr, x);
    PlaceAligned(vmas, size, addr);
    if place < VM_TOP && MapArea(m, d, vmas, place, size, x).Returns? {
      MapAreaAgrees(m, d, vmas, place, size, x);
    }
  }

  /** Every safe mmap that comes back does to areas and pages what MmapSpec says and keeps them in agreement; which
      ones come back is MmapHaltsIff. */
  lemma MmapAgrees(m: Mem, d: nat, vmas: Vmas, addr: int, length: int, prot: bv32, flags: bv32)
    requires Running(m, d, vmas) && 0 <= addr < WORD && 0 <= length < WORD && Valid(vmas, VM_BASE, VM_TOP)
    requires MmapDefined(vmas, addr, length, flags) && MmapSafe(vmas, addr, length, flags)
    ensures match Mmap(m, d, vmas, addr, length, prot, flags)
            case Halts => true
            case Returns(m', vmas', r) =>
              var (vmasS, vS, rS) := MmapSpec(vmas, View(m, d), addr, length, prot, flags);
              vmas' == vmasS && r == rS && Follows(m, d, m', vmas', vS)
  {
    hide Inv, Linked, View, Cut, Released, Carve, Agree, AreaOk, Ordered, ReleaseAll, Dirs, FindFree, Insert, Fill,
         MapArea, MapAreaSpec, MmapFixed, Gap, Locatable;
    RoundUpExact(length);
    var size, x := RoundUp(length), Attr(flags, prot);
    forall e ensures ViewKept(m, m, e) { }
    if flags & MAP_FIXED != 0 && length != 0 && Aligned(addr) {
      if addr + size == 0 {
        MmapAtZero(m, d, vmas, x);
      } else {
        if MmapFixed(m, d, vmas, addr, size, x).Returns? {
          MmapFixedAgrees(m, d, vmas, addr, size, x);
        }
      }
    } else if flags & MAP_FIXED == 0 && flags & MAP_PRIVATE != 0 && length != 0 {
      if FindFree(vmas, VM_BASE, VM_TOP, size, addr).Some? {
        FoundPlaceExact(vmas, VM_BASE, VM_TOP, size, addr, x);
        MmapPrivateAgrees(m, d, vmas, addr, size, x);
      }
    }
  }

  /** An erase that starts below the base cuts the low sentinel, and the call then fails. */
  lemma MmapBelowBase(m: Mem, d: nat, vmas: Vmas, addr: int, size: int, x: Attr)
    requires Fit(m) && Valid(vmas, VM_BASE, VM_TOP) && 0 <= addr < VM_BASE && 0 <= size && InRange(addr, size)
             && addr + size != 0
    requires Locatable(Carve(vmas, addr, addr + size, SplitAttr))
    ensures var o := MmapFixed(m, d, vmas, addr, size, x); o.Returns? && !Valid(o.vmas, VM_BASE, VM_TOP)
  {
    hide Valid, Carve, FindFree, Released, ReleaseAll;
    EraseKeepsSentinelsIff(vmas, VM_BASE, VM_TOP, addr, addr + size, SplitAttr);
  }

  /** An area at an unaligned hint: with pages the call does not come back, without it leaves an unaligned area. */
  lemma MmapUnaligned(m: Mem, d: nat, vmas: Vmas, addr: int, size: int, x: Attr)
    requires Fit(m) && AreasOk(vmas) && VM_BASE <= addr && !Aligned(addr) && 0 <= size && Aligned(size)
    requires Gap(vmas, addr, size)
    ensures addr < VM_TOP && Valid(vmas, VM_BASE, VM_TOP)
    ensures size > 0 ==> MapArea(m, d, vmas, addr, size, x) == Halts
    ensures size == 0 ==>
              var o := MapArea(m, d, vmas, addr, size, x); o.Returns? && o.reply == Placed(addr) && !AreasOk(o.vmas)
  {
    hide Gap, Ordered, AllocLoop, AllocRange;
    UnalignedGap(vmas, addr, size);
    var e := Range(addr, addr + size, x);
    LocateSplits(vmas, addr);
    var pos := Locate(vmas, addr);
    HintFits(vmas, addr, size, e);
    AllocLoopIs(m, d, addr, size, Writes(x));
    NoTurn(m, d, addr, Writes(x));
    var vmas' := Insert(vmas, e).value;
    assert vmas'[pos + 1] == e && !AreaOk(e);
  }

  lemma HintFits(vmas: Vmas, addr: int, size: int, e: Range<Attr>)
    requires AreasOk(vmas) && VM_BASE <= addr < VM_TOP && !Aligned(addr) && 0 <= size && Gap(vmas, addr, size)
    requires e.begin == addr && e.end == addr + size
    ensures Insert(vmas, e).Some?
  {
    hide Gap, Insert, Ordered, FindFree;
    FoundAtHint(vmas, size, addr);
    FoundPlaceExact(vmas, VM_BASE, VM_TOP, size, addr, e.attr);
    FindNothing(vmas, VM_BASE, VM_TOP, addr);
  }

  // Which calls come back.

  /** There are fewer free frames than the pages from place on need, missing tables included. */
  ghost predicate Short(m: Mem, d: nat, place: int, size: int)
    requires 0 <= place && 0 <= size
  {
    |FreeFrames(m)| < Needs(m, d, place / PAGE, place / PAGE + size / PAGE)
  }

  /** The call asks for more frames than there are once the range is erased. */
  ghost predicate MmapShort(m: Mem, d: nat, vmas: Vmas, addr: int, length: int, flags: bv32)
    requires Fit(m) && Valid(vmas, VM_BASE, VM_TOP) && 0 <= addr && 0 <= length < WORD
  {
    RoundUpExact(length);
    length != 0 && SizeShort(m, d, vmas, addr, RoundUp(length), flags)
  }

  ghost predicate SizeShort(m: Mem, d: nat, vmas: Vmas, addr: int, size: int, flags: bv32)
    requires Fit(m) && Valid(vmas, VM_BASE, VM_TOP) && 0 <= addr && 0 <= size
  {
    if flags & MAP_FIXED != 0 then
      && ThisPage(addr) == addr && VM_BASE <= addr && InRange(addr, size)
      && Short(EraseQuietly(m, d, vmas, addr, size).0, d, addr, size)
    else
      && flags & MAP_PRIVATE != 0
      && var place := FindFree(vmas, VM_BASE, VM_TOP, size, addr); place.Some? && Short(m, d, place.value, size)
  }

  /** The call puts an area with pages at an unaligned hint. */
  ghost predicate MmapRunsOn(vmas: Vmas, addr: int, length: int, flags: bv32) {
    && length != 0 && RoundUp(length) != 0 && flags & MAP_FIXED == 0 && flags & MAP_PRIVATE != 0
    && !Aligned(addr) && VM_BASE <= addr && Gap(vmas, addr, RoundUp(length))
  }

  lemma MapAreaHalts(m: Mem, d: nat, vmas: Vmas, place: int, size: int, x: Attr)
    requires Fit(m) && Valid(vmas, VM_BASE, VM_TOP)
    requires VM_BASE <= place < VM_TOP && place + size <= VM_TOP && 0 <= size && Aligned(size)
    requires size > 0 ==> Insert(vmas, Range(place, place + size, x)).Some?
    ensures MapArea(m, d, vmas, place, size, x) == Halts <==> size > 0 && (Short(m, d, place, size) || !Aligned(place))
    ensures size == 0 ==> !Short(m, d, place, size)
  {
    hide Ordered, AllocLoop, AllocRange, Insert, MissingTables, FreeFrames;
    AllocLoopIs(m, d, place, size, Writes(x));
    NoTurn(m, d, place, Writes(x));
    NoneMissing(m.tabs, d, place / PAGE);
    AllocRangeIff(m, d, place / PAGE, place / PAGE + size / PAGE, Writes(x));
    if Aligned(place) {
      assert (place + size) / PAGE == place / PAGE + size / PAGE;
    }
  }

  lemma MmapFixedHalts(m: Mem, d: nat, vmas: Vmas, addr: int, size: int, x: Attr)
    requires Running(m, d, vmas) && Valid(vmas, VM_BASE, VM_TOP)
    requires 0 <= addr && Aligned(addr) && 0 <= size && Aligned(size)
    requires InRange(addr, size) ==> Locatable(Carve(vmas, addr, addr + size, SplitAttr))
    ensures MmapFixed(m, d, vmas, addr, size, x) == Halts <==>
            VM_BASE <= addr && InRange(addr, size) && Short(EraseQuietly(m, d, vmas, addr, size).0, d, addr, size)
  {
    hide Inv, Linked, View, Cut, Released, Carve, Agree, AreaOk, Ordered, ReleaseAll, Dirs, FindFree, Insert, MapArea,
         EraseQuietly, Covered, Short, Valid;
    var (m1, vmas1) := EraseQuietly(m, d, vmas, addr, size);
    if InRange(addr, size) && VM_BASE <= addr {
      FixedAgrees(m, d, vmas, addr, size, m1, vmas1);
      if FindFree(vmas1, VM_BASE, VM_TOP, size, addr) == Some(addr) {
        FoundPlaceExact(vmas1, VM_BASE, VM_TOP, size, addr, x);
      }
      MapAreaHalts(m1, d, vmas1, addr, size, x);
    } else if !InRange(addr, size) {
      EraseRefused(m, d, vmas, addr, size);
      FixedRefused(vmas, addr, size);
    }
  }

  lemma MmapPrivateHalts(m: Mem, d: nat, vmas: Vmas, addr: int, size: int, x: Attr)
    requires Running(m, d, vmas) && Valid(vmas, VM_BASE, VM_TOP) && 0 <= addr && 0 <= size && Aligned(size)
    requires FindFree(vmas, VM_BASE, VM_TOP, size, addr) != Some(VM_TOP)
    ensures MmapPrivate(m, d, vmas, addr, size, x) == Halts <==>
            || (var place := FindFree(vmas, VM_BASE, VM_TOP, size, addr); place.Some? && Short(m, d, place.value, size))
            || (size > 0 && !Aligned(addr) && VM_BASE <= addr && Gap(vmas, addr, size))
  {
    hide Inv, Linked, View, Agree, AreaOk, Ordered, Dirs, FindFree, Insert, Gap, MapArea, Covered, Short;
    if FindFree(vmas, VM_BASE, VM_TOP, size, addr).Some? {
      var place := FindFree(vmas, VM_BASE, VM_TOP, size, addr).value;
      FoundPlaceExact(vmas, VM_BASE, VM_TOP, size, addr, x);
      PlaceAligned(vmas, size, addr);
      MapAreaHalts(m, d, vmas, place, size, x);
    } else if VM_BASE <= addr && size > 0 {
      FindFreeLeast(vmas, VM_BASE, VM_TOP, size, addr);
    }
  }

  /** A call comes back unless the frames do not suffice or it puts an area with pages at an unaligned hint. */
  lemma MmapHaltsIff(m: Mem, d: nat, vmas: Vmas, addr: int, length: int, prot: bv32, flags: bv32)
    requires Running(m, d, vmas) && 0 <= addr < WORD && 0 <= length < WORD && Valid(vmas, VM_BASE, VM_TOP)
    requires MmapDefined(vmas, addr, length, flags)
    ensures Mmap(m, d, vmas, addr, length, prot, flags) == Halts <==>
            MmapShort(m, d, vmas, addr, length, flags) || MmapRunsOn(vmas, addr, length, flags)
  {
    hide Inv, Linked, View, Carve, Agree, AreaOk, Ordered, Dirs, FindFree, MmapFixed, MmapPrivate, Gap, Short,
         EraseQuietly;
    RoundUpExact(length);
    var size, x := RoundUp(length), Attr(flags, prot);
    if flags & MAP_FIXED != 0 && length != 0 && ThisPage(addr) == addr {
      MmapFixedHalts(m, d, vmas, addr, size, x);
    } else if flags & MAP_FIXED == 0 && flags & MAP_PRIVATE != 0 && length != 0 {
      MmapPrivateHalts(m, d, vmas, addr, size, x);
    }
  }

  /** A call that comes back follows MmapSpec unless it erases below the base. */
  lemma MmapFollows(m: Mem, d: nat, vmas: Vmas, addr: int, length: int, prot: bv32, flags: bv32)
    requires Running(m, d, vmas) && 0 <= addr < WORD && 0 <= length < WORD && Valid(vmas, VM_BASE, VM_TOP)
    requires MmapDefined(vmas, addr, length, flags)
    requires MmapSafe(vmas, addr, length, flags) || MmapRunsOn(vmas, addr, length, flags)
    ensures match Mmap(m, d, vmas, addr, length, prot, flags)
            case Halts => true
            case Returns(m', vmas', r) =>
              var (vmasS, vS, rS) := MmapSpec(vmas, View(m, d), addr, length, prot, flags);
              vmas' == vmasS && r == rS && Follows(m, d, m', vmas', vS)
  {
    hide Running, Mmap, MmapSpec, MmapDefined, MmapSafe, MmapRunsOn, MmapShort, Follows, Ordered;
    if MmapSafe(vmas, addr, length, flags) {
      MmapAgrees(m, d, vmas, addr, length, prot, flags);
    } else {
      MmapHaltsIff(m, d, vmas, addr, length, prot, flags);
    }
  }

  /** What a call must do to keep areas and pages in agreement: come back with them agreeing. */
  ghost predicate Keeps(o: Outcome, d: nat) {
    o.Returns? && Linked(o.mem) && SpaceOk(o.vmas, View(o.mem, d))
  }

  /** With frames enough MmapSafe is the exact condition. */
  lemma MmapSafeIff(m: Mem, d: nat, vmas: Vmas, addr: int, length: int, prot: bv32, flags: bv32)
    requires Running(m, d, vmas) && 0 <= addr < WORD && 0 <= length < WORD && Valid(vmas, VM_BASE, VM_TOP)
    requires MmapDefined(vmas, addr, length, flags)
    ensures Keeps(Mmap(m, d, vmas, addr, length, prot, flags), d) <==>
            MmapSafe(vmas, addr, length, flags) && !MmapShort(m, d, vmas, addr, length, flags)
  {
    hide Inv, Linked, View, Carve, Agree, AreaOk, Ordered, Dirs, FindFree, MapArea, MmapFixed, Gap, MmapSpec,
         MmapShort;
    RoundUpExact(length);
    var size, x := RoundUp(length), Attr(flags, prot);
    MmapHaltsIff(m, d, vmas, addr, length, prot, flags);
    if MmapSafe(vmas, addr, length, flags) {
      MmapAgrees(m, d, vmas, addr, length, prot, flags);
    } else if flags & MAP_FIXED != 0 {
      MmapBelowBase(m, d, vmas, addr, size, x);
    } else {
      FoundAtHint(vmas, size, addr);
      MmapUnaligned(m, d, vmas, addr, size, x);
    }
  }

  /** In a new address space with two free frames: a page at the hint 0x500001, for which they suffice, is never mapped
      to the end, and a fixed page just below the base costs the vector its low sentinel. */
  lemma MmapLosesAgreement(m: Mem, d: nat, vmas: Vmas, prot: bv32)
    requires Running(m, d, vmas) && Valid(vmas, VM_BASE, VM_TOP) && |vmas| == 2 && |FreeFrames(m)| >= 2
    ensures MmapDefined(vmas, 0x50_0001, PAGE, MAP_PRIVATE) && !MmapShort(m, d, vmas, 0x50_0001, PAGE, MAP_PRIVATE)
    ensures Mmap(m, d, vmas, 0x50_0001, PAGE, prot, MAP_PRIVATE) == Halts
    ensures MmapDefined(vmas, VM_BASE - PAGE, PAGE, MAP_FIXED)
    ensures var o := Mmap(m, d, vmas, VM_BASE - PAGE, PAGE, prot, MAP_FIXED); o.Returns? && !Keeps(o, d)
  {
    hide Inv, Linked, View, Agree, AreaOk, Dirs, Mmap, Keeps, FindFree, FindFrom, FreeFrames, MissingTables;
    assert RoundUp(PAGE) == PAGE;
    assert Fits(vmas, 0, 0x50_0001, PAGE);
    FoundAtHint(vmas, PAGE, 0x50_0001);
    assert vmas[0].begin == 0;
    OneMissing(m.tabs, d, 0x500);
    MmapHaltsIff(m, d, vmas, 0x50_0001, PAGE, prot, MAP_PRIVATE);
    LowCutLocates(vmas);
    MmapHaltsIff(m, d, vmas, VM_BASE - PAGE, PAGE, prot, MAP_FIXED);
    MmapSafeIff(m, d, vmas, VM_BASE - PAGE, PAGE, prot, MAP_FIXED);
  }

  lemma OneMissing(tabs: map<Slot, nat>, d: nat, p: nat)
    ensures |MissingTables(tabs, d, p, p + 1)| <= 1
  {
    assert MissingTables(tabs, d, p, p + 1) <= {p / ENTRIES};
    if MissingTables(tabs, d, p, p + 1) != {} {
      assert MissingTables(tabs, d, p, p + 1) == {p / ENTRIES};
    }
  }

  /** In a new address space 0xFFFFFFFF bytes at 0x401000 are a safe request, and leave an empty area there. */
  lemma MmapLeavesEmpty(m: Mem, d: nat, vmas: Vmas, addr: int, prot: bv32)
    requires Fit(m) && Valid(vmas, VM_BASE, VM_TOP) && |vmas| == 2 && VM_BASE <= addr < VM_TOP
    ensures MmapDefined(vmas, addr, WORD - 1, MAP_PRIVATE)
    ensures var x := Attr(MAP_PRIVATE, prot);
            Mmap(m, d, vmas, addr, WORD - 1, prot, MAP_PRIVATE) ==
            Returns(m, [vmas[0], Range(addr, addr, x), vmas[1]], Placed(addr))
    ensures Aligned(addr) ==> MmapSafe(vmas, addr, WORD - 1, MAP_PRIVATE)
    ensures forall a :: !Covered([vmas[0], Range(addr, addr, Attr(MAP_PRIVATE, prot)), vmas[1]], a)
  {
    hide FindFree, AllocLoop;
    RoundUpExact(WORD - 1);
    FindNothing(vmas, VM_BASE, VM_TOP, addr);
    LocateSplits(vmas, addr);
    assert Locate(vmas, addr) == 0;
    var e := Range(addr, addr, Attr(MAP_PRIVATE, prot));
    assert vmas[..1] + [e] + vmas[1..] == [vmas[0], e, vmas[1]];
    NoTurn(m, d, addr, Writes(e.attr));
  }

  /** Around an empty area first fit is no longer least fit: with one at 0x401000 two pages from the base on go to
      0x401000 although no address is covered, and with one anywhere inside there is no room for all of user space. */
  lemma EmptyAreaMovesSearch(vmas: Vmas)
    requires Valid(vmas, VM_BASE, VM_TOP) && |vmas| == 3 && VM_BASE < vmas[1].begin == vmas[1].end < VM_TOP
    ensures forall a :: !Covered(vmas, a)
    ensures vmas[1].begin == VM_BASE + PAGE ==>
              FindFree(vmas, VM_BASE, VM_TOP, 2 * PAGE, VM_BASE) == Some(VM_BASE + PAGE)
    ensures FindFree(vmas, VM_BASE, VM_TOP, VM_TOP - VM_BASE, VM_BASE) == None
  {
    LocateSplits(vmas, VM_BASE);
    assert Locate(vmas, VM_BASE) == 0;
    assert vmas[1].begin == VM_BASE + PAGE ==>
             FindFrom(vmas, 2 * PAGE, VM_BASE, 0) == FindFrom(vmas, 2 * PAGE, VM_BASE, 1);
    assert FindFrom(vmas, VM_TOP - VM_BASE, VM_BASE, 2) == None;
    assert FindFrom(vmas, VM_TOP - VM_BASE, VM_BASE, 1) == None;
  }

  /** An empty area at an unaligned hint makes a later request fail whose own hint is aligned and for which there are
      frames enough. */
  lemma UnalignedAreaStays(m: Mem, d: nat, vmas: Vmas, prot: bv32)
    requires Fit(m) && Valid(vmas, VM_BASE, VM_TOP) && |FreeFrames(m)| >= 2
    requires |vmas| == 3 && vmas[1].begin == vmas[1].end == 0x50_0001
    ensures MmapDefined(vmas, 0x50_0000, PAGE, MAP_PRIVATE) && !MmapShort(m, d, vmas, 0x50_0000, PAGE, MAP_PRIVATE)
    ensures Mmap(m, d, vmas, 0x50_0000, PAGE, prot, MAP_PRIVATE) == Halts
  {
    hide AllocLoop, FreeFrames, MissingTables, Insert;
    assert RoundUp(PAGE) == PAGE;
    LocateSplits(vmas, 0x50_0000);
    assert Locate(vmas, 0x50_0000) == 0;
    assert FindFrom(vmas, PAGE, 0x50_0000, 0) == FindFrom(vmas, PAGE, 0x50_0000, 1);
    assert FindFree(vmas, VM_BASE, VM_TOP, PAGE, 0x50_0000) == Some(0x50_0001);
    OneMissing(m.tabs, d, 0x500);
    FoundPlaceExact(vmas, VM_BASE, VM_TOP, PAGE, 0x50_0000, Attr(MAP_PRIVATE, prot));
    AllocLoopIs(m, d, 0x50_0001, PAGE, Writes(Attr(MAP_PRIVATE, prot)));
  }

  lemma LowCutLocates(vmas: Vmas)
    requires Valid(vmas, VM_BASE, VM_TOP) && |vmas| == 2
    ensures Locatable(Carve(vmas, VM_BASE - PAGE, VM_BASE, SplitAttr))
  {
  }

  /** A length above 0xFFFFF000 is rounded up to 0: exactly then the call succeeds without covering what was
      asked for. */
  lemma MmapCovers(m: Mem, d: nat, vmas: Vmas, addr: int, length: int, prot: bv32, flags: bv32)
    requires Running(m, d, vmas) && 0 <= addr < WORD && 0 <= length < WORD && Valid(vmas, VM_BASE, VM_TOP)
    requires MmapDefined(vmas, addr, length, flags) && MmapSafe(vmas, addr, length, flags)
    requires Mmap(m, d, vmas, addr, length, prot, flags).Returns?
    ensures var Returns(_, vmas', r) := Mmap(m, d, vmas, addr, length, prot, flags);
            r.Placed? ==> (AllCovered(vmas', r.addr, length) <==> length <= WORD - PAGE)
  {
    hide Inv, Linked, View, Cut, Carve, Agree, AreaOk, Ordered, Dirs, FindFree, Fill, MapArea, MapAreaSpec, Gap, Mmap;
    RoundUpExact(length);
    var size, x := RoundUp(length), Attr(flags, prot);
    MmapAgrees(m, d, vmas, addr, length, prot, flags);
    var (vmas', v', r) := MmapSpec(vmas, View(m, d), addr, length, prot, flags);
    if r.Placed? {
      if flags & MAP_FIXED != 0 {
        EraseKeepsValid(vmas, VM_BASE, VM_TOP, addr, addr + size, SplitAttr);
        var v1 := Cut(View(m, d), addr / PAGE, (addr + size) / PAGE);
        PlacedCovers(Carve(vmas, addr, addr + size, SplitAttr), v1, addr, size, length, x, vmas');
      } else {
        FoundPlaceExact(vmas, VM_BASE, VM_TOP, size, addr, x);
        PlacedCovers(vmas, View(m, d), FindFree(vmas, VM_BASE, VM_TOP, size, addr).value, size, length, x, vmas');
      }
    }
  }

  ghost predicate AllCovered(vmas: Vmas, begin: int, length: int) {
    forall a :: begin <= a < begin + length ==> Covered(vmas, a)
  }

  lemma PlacedCovers(vmas: Vmas, v: map<nat, PageView>, place: int, size: int, length: int, x: Attr, vmas': Vmas)
    requires Valid(vmas, VM_BASE, VM_TOP) && 0 <= place < VM_TOP && size == RoundUp(length) && 0 < length < WORD
             && 0 <= size
    requires MapAreaSpec(vmas, v, place, size, x).2.Placed? && MapAreaSpec(vmas, v, place, size, x).0 == vmas'
    requires Valid(vmas', VM_BASE, VM_TOP)
    ensures MapAreaSpec(vmas, v, place, size, x).2 == Placed(place)
    ensures AllCovered(vmas', place, length) <==> length <= WORD - PAGE
  {
    hide Fill, Locate;
    RoundUpExact(length);
    var pos := Locate(vmas, place);
    if length <= WORD - PAGE {
      forall a | place <= a < place + length ensures Covered(vmas', a) {
        assert Has(vmas', pos + 1, a);
      }
    } else {
      assert place <= VM_TOP < place + length;
      forall i ensures !Has(vmas', i, VM_TOP) {
        if 0 < i < |vmas'| - 1 { Monotone(vmas', i, |vmas'| - 1); }
      }
      assert !Covered(vmas', VM_TOP);
    }
  }

  // ----- Stack growth

  /** The fault lies in the hole right below an area that grows down, and not below the stack's range. */
  predicate StackFault(vmas: Vmas, target: int)
    requires Valid(vmas, VM_BASE, VM_TOP) && 0 <= target
  {
    && VM_BASE <= target < VM_TOP
    && var pos := Locate(vmas, target);
    && vmas[pos].end <= target < vmas[pos + 1].begin
    && GrowsDown(vmas[pos + 1].attr)
    && STACK_LOW <= target
  }

  /** Area i is the first one above the address, and nothing below it reaches the address. */
  ghost predicate FirstAbove(vmas: Vmas, i: int, target: int) {
    0 < i < |vmas| - 1 && target < vmas[i].begin && forall j :: 0 < j < i ==> vmas[j].end <= target
  }

  /** A fault grows the stack exactly if it is in the last 8 MiB of user space, in no area, and the first area above it
      grows down. */
  lemma StackFaultIff(vmas: Vmas, target: int)
    requires AreasOk(vmas) && Valid(vmas, VM_BASE, VM_TOP) && 0 <= target
    ensures StackFault(vmas, target) <==>
            && 0xBF80_0000 <= target < 0xC000_0000
            && exists i :: FirstAbove(vmas, i, target) && GrowsDown(vmas[i].attr)
  {
    hide AreaOk, GrowsDown;
    LocateSplits(vmas, target);
    var pos := Locate(vmas, target);
    if StackFault(vmas, target) {
      forall j | 0 < j < pos + 1 ensures vmas[j].end <= target {
        Monotone(vmas, j, pos);
      }
      assert FirstAbove(vmas, pos + 1, target);
    }
    if i :| VM_BASE <= target && FirstAbove(vmas, i, target) && GrowsDown(vmas[i].attr) {
      FirstAboveIs(vmas, i, target);
    }
  }

  lemma FirstAboveIs(vmas: Vmas, i: int, target: int)
    requires Valid(vmas, VM_BASE, VM_TOP) && VM_BASE <= target && FirstAbove(vmas, i, target)
    ensures Locate(vmas, target) == i - 1 && vmas[i - 1].end <= target
  {
    LocateSplits(vmas, target);
    assert vmas[i - 1].end <= target;
    assert vmas[i - 1].begin <= target;
  }

  function GrownArea(vmas: Vmas, target: int): Range<Attr>
    requires Valid(vmas, VM_BASE, VM_TOP) && 0 <= target && StackFault(vmas, target)
  {
    vmas[Locate(vmas, target) + 1].(begin := ThisPage(target))
  }

  function CheckStack(m: Mem, d: nat, vmas: Vmas, target: int): (r: Option<(Mem, Vmas, bool)>)
    requires Fit(m) && Valid(vmas, VM_BASE, VM_TOP) && 0 <= target
  {
    if !StackFault(vmas, target) then Some((m, vmas, false))
    else
      var next := Locate(vmas, target) + 1;
      match AllocDown(m, d, vmas[next].begin / PAGE, target / PAGE)
      case None => None
      case Some(m') => Some((m', vmas[next := GrownArea(vmas, target)], true))
  }

  /** There are fewer free frames than the pages up to the growing area and their missing tables need. */
  ghost predicate StackShort(m: Mem, d: nat, vmas: Vmas, target: int)
    requires Valid(vmas, VM_BASE, VM_TOP) && 0 <= target
  {
    && StackFault(vmas, target)
    && |FreeFrames(m)| < Needs(m, d, target / PAGE, vmas[Locate(vmas, target) + 1].begin / PAGE)
  }

  /** Growth comes back exactly when the frames suffice. */
  lemma CheckStackHaltsIff(m: Mem, d: nat, vmas: Vmas, target: int)
    requires Fit(m) && Valid(vmas, VM_BASE, VM_TOP) && 0 <= target
    ensures CheckStack(m, d, vmas, target).None? <==> StackShort(m, d, vmas, target)
  {
    hide Ordered, Locate, AllocDown, MissingTables, FreeFrames, Fit;
    if StackFault(vmas, target) {
      AllocDownIff(m, d, vmas[Locate(vmas, target) + 1].begin / PAGE, target / PAGE);
    }
  }

  /** What growth means: the pages from the fault up to the area appear, zeroed and writable. */
  ghost function GrowSpec(vmas: Vmas, v: map<nat, PageView>, target: int): (Vmas, map<nat, PageView>)
    requires Valid(vmas, VM_BASE, VM_TOP) && 0 <= target && StackFault(vmas, target)
  {
    var next := Locate(vmas, target) + 1;
    (vmas[next := GrownArea(vmas, target)], Fill(v, target / PAGE, vmas[next].begin / PAGE, true))
  }

  /** The area that grows is no sentinel, and its new first page lies above its lower neighbour. */
  lemma GrownFits(vmas: Vmas, target: int, next: int, e: Range<Attr>)
    requires AreasOk(vmas) && 0 <= target && StackFault(vmas, target)
    requires next == Locate(vmas, target) + 1 && e == GrownArea(vmas, target)
    ensures 0 < next < |vmas| - 1 && AreaOk(e) && vmas[next].begin > e.begin && vmas[next].end == e.end <= VM_TOP
    ensures vmas[next - 1].end <= e.begin && e.end <= vmas[next + 1].begin
  {
    assert next < |vmas| - 1;
    assert AreaOk(vmas[next]);
    assert Aligned(vmas[next - 1].end) by { assert next == 1 || AreaOk(vmas[next - 1]); }
    assert vmas[next].end <= vmas[|vmas| - 1].begin;
  }

  lemma GrowAreas(vmas: Vmas, target: int, next: int, e: Range<Attr>)
    requires AreasOk(vmas) && 0 <= target && StackFault(vmas, target)
    requires next == Locate(vmas, target) + 1 && e == GrownArea(vmas, target)
    ensures 0 < next < |vmas| - 1 && AreaOk(e) && vmas[next].begin > e.begin && vmas[next].end == e.end <= VM_TOP
    ensures vmas[next := e] == Splice(vmas, next, next + 1, [e]) && Between(vmas, next, next + 1, [e])
    ensures AreasOk(vmas[next := e])
  {
    hide AreaOk, StackFault, Locate, GrowsDown;
    AreasValid(vmas);
    GrownFits(vmas, target, next, e);
    AreaForward(e);
    assert [e][0] == e;
    SpliceKeepsValid(vmas, VM_BASE, VM_TOP, next, next + 1, [e]);
  }

  /** Each page after growth: the new ones belong to the grown area, all others are as before. */
  lemma GrowAt(vmas: Vmas, target: int, next: int, e: Range<Attr>, a: int)
    requires AreasOk(vmas) && 0 <= target && StackFault(vmas, target)
    requires next == Locate(vmas, target) + 1 && e == GrownArea(vmas, target)
    ensures 0 < next < |vmas| - 1
    ensures AttrAt(vmas[next := e], a) == if e.begin <= a < vmas[next].begin then Some(e.attr) else AttrAt(vmas, a)
    ensures e.begin <= a < vmas[next].begin ==> AttrAt(vmas, a).None?
  {
    hide AreasOk, AreaOk, Splice;
    AreasValid(vmas);
    GrowAreas(vmas, target, next, e);
    SpliceAt(vmas, VM_BASE, VM_TOP, next, next + 1, [e], a);
    assert [e][0] == e;
    assert vmas[next].Contains(a) <==> Has(vmas, next, a);
    if i :| Has(vmas, i, a) {
      AtIs(vmas, i, a);
      HasUnique(vmas, i, a);
      if i < next { Monotone(vmas, i, next - 1); } else { Monotone(vmas, next, i); }
    }
  }

  /** Growth allocates writable pages whatever the area allows, so areas and pages still agree afterwards
      exactly when the area that grows is writable. */
  lemma GrowAgreesIff(vmas: Vmas, v: map<nat, PageView>, target: int)
    requires SpaceOk(vmas, v) && 0 <= target && StackFault(vmas, target)
    ensures forall p: nat :: target / PAGE <= p < vmas[Locate(vmas, target) + 1].begin / PAGE ==> p !in v
    ensures AreasOk(GrowSpec(vmas, v, target).0)
    ensures Agree(GrowSpec(vmas, v, target).0, GrowSpec(vmas, v, target).1) <==>
            Writes(vmas[Locate(vmas, target) + 1].attr)
  {
    hide AreaOk, Ordered, Writes, GrowsDown;
    var next := Locate(vmas, target) + 1;
    var e := GrownArea(vmas, target);
    GrowAreas(vmas, target, next, e);
    var (vmas', v') := GrowSpec(vmas, v, target);
    AreaAligned(vmas[next]);
    forall p: nat
      ensures target / PAGE <= p < vmas[next].begin / PAGE ==> p !in v
      ensures PageAgrees(vmas', v', p) <==> (target / PAGE <= p < vmas[next].begin / PAGE ==> Writes(e.attr))
    {
      GrowAt(vmas, target, next, e, p * PAGE);
      assert PageAgrees(vmas, v, p);
      assert e.begin <= p * PAGE < vmas[next].begin <==> target / PAGE <= p < vmas[next].begin / PAGE;
    }
    assert PageAgrees(vmas', v', target / PAGE) <==> Writes(e.attr);
  }

  /** Whoever touches the hole below a growing area may write that area. */
  predicate GrowSafe(vmas: Vmas, addr: int)
    requires Valid(vmas, VM_BASE, VM_TOP) && 0 <= addr
  {
    StackFault(vmas, addr) ==> Writes(vmas[Locate(vmas, addr) + 1].attr)
  }

  /** A fault below a growing area brings exactly the pages between; any other changes nothing. */
  lemma CheckStackGrows(m: Mem, d: nat, vmas: Vmas, target: int)
    requires Running(m, d, vmas) && Valid(vmas, VM_BASE, VM_TOP) && 0 <= target && CheckStack(m, d, vmas, target).Some?
    ensures var (m', vmas', ok) := CheckStack(m, d, vmas, target).value;
            && Inv(m') && Linked(m') && Dirs(m'.owner) == Dirs(m.owner) && (forall e :: e != d ==> ViewKept(m, m', e))
            && ok == StackFault(vmas, target)
            && (!ok ==> m' == m && vmas' == vmas)
            && (ok ==> (vmas', View(m', d)) == GrowSpec(vmas, View(m, d), target))
  {
    hide Inv, Linked, View, Agree, AreaOk, Ordered, Dirs, Fill, Writes, GrowsDown, AllocDown;
    forall e ensures ViewKept(m, m, e) { }
    if StackFault(vmas, target) {
      var next := Locate(vmas, target) + 1;
      GrowAreas(vmas, target, next, GrownArea(vmas, target));
      GrowAgreesIff(vmas, View(m, d), target);
      AreaForward(vmas[next]);
      AllocDownFills(m, d, vmas[next].begin / PAGE, target / PAGE);
    }
  }

  /** Areas and pages agree afterwards exactly when whoever touched the hole may write the area above it. */
  lemma CheckStackAgrees(m: Mem, d: nat, vmas: Vmas, target: int)
    requires Running(m, d, vmas) && Valid(vmas, VM_BASE, VM_TOP) && 0 <= target && CheckStack(m, d, vmas, target).Some?
    ensures var (m', vmas', _) := CheckStack(m, d, vmas, target).value;
            Linked(m') && (Follows(m, d, m', vmas', View(m', d)) <==> GrowSafe(vmas, target))
  {
    hide Inv, Linked, View, Agree, AreasOk, StackFault, Dirs, Fill, Writes, CheckStack;
    CheckStackGrows(m, d, vmas, target);
    if StackFault(vmas, target) {
      GrowAgreesIff(vmas, View(m, d), target);
    }
  }

  /** A fault one page below a read-only area that grows down is such a failure. */
  lemma ReadOnlyGrowth(m: Mem, d: nat, vmas: Vmas)
    requires Running(m, d, vmas) && Valid(vmas, VM_BASE, VM_TOP) && |vmas| == 3
    requires vmas[1] == Range(VM_TOP - PAGE, VM_TOP, Attr(MAP_GROWSDOWN, PROT_READ))
    requires CheckStack(m, d, vmas, VM_TOP - 2 * PAGE).Some?
    ensures var (m', vmas', grown) := CheckStack(m, d, vmas, VM_TOP - 2 * PAGE).value;
            grown && Linked(m') && !Follows(m, d, m', vmas', View(m', d))
  {
    hide Inv, Linked, View, Agree, AreasOk, Dirs, Follows, CheckStack;
    LocateSplits(vmas, VM_TOP - 2 * PAGE);
    assert Locate(vmas, VM_TOP - 2 * PAGE) == 0;
    assert StackFault(vmas, VM_TOP - 2 * PAGE);
    CheckStackGrows(m, d, vmas, VM_TOP - 2 * PAGE);
    CheckStackAgrees(m, d, vmas, VM_TOP - 2 * PAGE);
  }

  // ----- User loads and stores, with their page faults

  /** A page is present, writable or copy-on-write in the tables exactly as the view says. */
  lemma Entry(m: Mem, d: nat, p: nat)
    requires Inv(m) && Linked(m)
    ensures Slot(d, p) in m.pages <==> p in View(m, d)
    ensures Slot(d, p) in m.pages ==>
              var e := m.pages[Slot(d, p)];
              && e.frame in m.data && |m.data[e.frame]| == PAGE
              && View(m, d)[p] == PageView(m.data[e.frame], e.writable || e.cow)
  {
    hide Counted, Mappers, Exclusive, TablesLinked, Mapped, Pooled, Dirs;
  }

  /** A store that no longer faults. */
  function Poke(m: Mem, d: nat, addr: int, b: Byte): (m': Mem)
    requires Inv(m) && Linked(m) && 0 <= addr
    requires Slot(d, addr / PAGE) in m.pages && m.pages[Slot(d, addr / PAGE)].writable
  {
    Entry(m, d, addr / PAGE);
    Store(m, Slot(d, addr / PAGE), addr % PAGE, b)
  }

  /** The faulting store goes to the copy-on-write handler when the page is present in a covering area, then
      to stack growth; whichever succeeds, the instruction is retried. */
  function StoreByte(m: Mem, d: nat, vmas: Vmas, addr: int, b: Byte): (r: Option<(Mem, Vmas, Reply)>)
    requires Running(m, d, vmas) && 0 <= addr < WORD
  {
    AreasValid(vmas);
    Entry(m, d, addr / PAGE);
    var s := Slot(d, addr / PAGE);
    if s in m.pages && m.pages[s].writable then Some((Poke(m, d, addr, b), vmas, Stored))
    else if VM_BASE <= addr < VM_TOP && vmas[Locate(vmas, addr)].Contains(addr) && s in m.pages then
      match HandleCow(m, s)
      case None => None
      case Some((m1, ok)) =>
        ViewHandleCow(m, s);
        if ok then Some((Poke(m1, d, addr, b), vmas, Stored)) else StoreAfterGrowth(m, d, vmas, addr, b)
    else StoreAfterGrowth(m, d, vmas, addr, b)
  }

  function StoreAfterGrowth(m: Mem, d: nat, vmas: Vmas, addr: int, b: Byte): (r: Option<(Mem, Vmas, Reply)>)
    requires Running(m, d, vmas) && 0 <= addr < WORD
  {
    AreasValid(vmas);
    match CheckStack(m, d, vmas, addr)
    case None => None
    case Some((m1, vmas1, ok)) =>
      CheckStackGrows(m, d, vmas, addr);
      if !ok then Some((m1, vmas1, Segv))
      else
        GrownPresent(m, m1, d, vmas, addr);
        Some((Poke(m1, d, addr, b), vmas1, Stored))
  }

  lemma GrownPresent(m: Mem, m1: Mem, d: nat, vmas: Vmas, addr: int)
    requires Linked(m) && Valid(vmas, VM_BASE, VM_TOP) && 0 <= addr && StackFault(vmas, addr) && AreasOk(vmas)
    requires Fit(m) && CheckStack(m, d, vmas, addr).Some? && CheckStack(m, d, vmas, addr).value.0 == m1
    requires Inv(m1) && Linked(m1) && View(m1, d) == GrowSpec(vmas, View(m, d), addr).1
    ensures Slot(d, addr / PAGE) in m1.pages && View(m1, d)[addr / PAGE] == PageView(Zeros(), true)
    ensures m1.pages[Slot(d, addr / PAGE)].writable
  {
    hide Inv, Ordered, AllocDown;
    var next := Locate(vmas, addr) + 1;
    GrowAreas(vmas, addr, next, GrownArea(vmas, addr));
    AllocDownWritable(m, d, vmas[next].begin / PAGE, addr / PAGE, addr / PAGE);
    Entry(m1, d, addr / PAGE);
  }

  function LoadByte(m: Mem, d: nat, vmas: Vmas, addr: int): (r: Option<(Mem, Vmas, Reply)>)
    requires Running(m, d, vmas) && 0 <= addr < WORD
  {
    AreasValid(vmas);
    Entry(m, d, addr / PAGE);
    var s := Slot(d, addr / PAGE);
    if s in m.pages then Some((m, vmas, Loaded(m.data[m.pages[s].frame][addr % PAGE])))
    else
      match CheckStack(m, d, vmas, addr)
      case None => None
      case Some((m1, vmas1, ok)) =>
        CheckStackGrows(m, d, vmas, addr);
        if !ok then Some((m1, vmas1, Segv))
        else
          GrownPresent(m, m1, d, vmas, addr);
          Entry(m1, d, addr / PAGE);
          Some((m1, vmas1, Loaded(m1.data[m1.pages[s].frame][addr % PAGE])))
  }

  /** What a store means to a process with private memory: it goes through where the page is writable, in
      the stack's growth range it creates the page, anywhere else it is a segmentation fault. */
  ghost function StoreSpec(vmas: Vmas, v: map<nat, PageView>, addr: int, b: Byte): (Vmas, map<nat, PageView>, Reply)
    requires SpaceOk(vmas, v) && 0 <= addr < WORD
  {
    AreasValid(vmas);
    var p, off := addr / PAGE, addr % PAGE;
    assert PageAgrees(vmas, v, p);
    if p in v then
      if v[p].writable then (vmas, v[p := v[p].(bytes := v[p].bytes[off := b])], Stored) else (vmas, v, Segv)
    else if StackFault(vmas, addr) then
      var (vmas', v') := GrowSpec(vmas, v, addr);
      (vmas', v'[p := PageView(Zeros()[off := b], true)], Stored)
    else (vmas, v, Segv)
  }

  ghost function LoadSpec(vmas: Vmas, v: map<nat, PageView>, addr: int): (Vmas, map<nat, PageView>, Reply)
    requires SpaceOk(vmas, v) && 0 <= addr < WORD
  {
    AreasValid(vmas);
    var p := addr / PAGE;
    assert PageAgrees(vmas, v, p);
    if p in v then (vmas, v, Loaded(v[p].bytes[addr % PAGE]))
    else if StackFault(vmas, addr) then
      var (vmas', v') := GrowSpec(vmas, v, addr); (vmas', v', Loaded(0))
    else (vmas, v, Segv)
  }

  lemma CoveredNoGrowth(vmas: Vmas, addr: int)
    requires Valid(vmas, VM_BASE, VM_TOP) && 0 <= addr && Covered(vmas, addr)
    ensures VM_BASE <= addr < VM_TOP && vmas[Locate(vmas, addr)].Contains(addr) && !StackFault(vmas, addr)
  {
  }

  lemma PresentCovered(vmas: Vmas, v: map<nat, PageView>, addr: int)
    requires SpaceOk(vmas, v) && 0 <= addr && addr / PAGE in v
    ensures Covered(vmas, addr)
  {
    hide Ordered;
    var p := addr / PAGE;
    assert PageAgrees(vmas, v, p);
    var i :| Has(vmas, i, p * PAGE);
    assert AreaOk(vmas[i]);
    assert Has(vmas, i, addr);
  }

  /** The page is shared copy-on-write and there is no frame for a copy. */
  ghost predicate CopyShort(m: Mem, s: Slot)
    requires Fit(m)
  {
    && s in m.pages && !m.pages[s].writable && m.pages[s].cow && m.ref[m.pages[s].frame] != 1
    && FreeFrames(m) == {}
  }

  /** A store comes back unless it needs a copy of a shared page, or stack, and the frames do not suffice. */
  lemma StoreHaltsIff(m: Mem, d: nat, vmas: Vmas, addr: int, b: Byte)
    requires Running(m, d, vmas) && 0 <= addr < WORD && Valid(vmas, VM_BASE, VM_TOP)
    ensures StoreByte(m, d, vmas, addr, b).None? <==>
            CopyShort(m, Slot(d, addr / PAGE)) || StackShort(m, d, vmas, addr)
  {
    hide Inv, View, Ordered, HandleCow, CheckStack, Agree, AreaOk, Dirs, Poke, StackFault, FreeFrames, Covered;
    var s := Slot(d, addr / PAGE);
    Entry(m, d, addr / PAGE);
    CheckStackHaltsIff(m, d, vmas, addr);
    if s in m.pages {
      PresentCovered(vmas, View(m, d), addr);
      CoveredNoGrowth(vmas, addr);
      HandleCowTakes(m, s);
      if HandleCow(m, s).Some? {
        HandleCowKeeps(m, s);
      }
    }
  }

  /** A load comes back unless it needs stack and the frames do not suffice. */
  lemma LoadHaltsIff(m: Mem, d: nat, vmas: Vmas, addr: int)
    requires Running(m, d, vmas) && 0 <= addr < WORD && Valid(vmas, VM_BASE, VM_TOP)
    ensures LoadByte(m, d, vmas, addr).None? <==> StackShort(m, d, vmas, addr)
  {
    hide Inv, View, Ordered, CheckStack, Agree, AreaOk, Dirs, StackFault, FreeFrames, Covered;
    Entry(m, d, addr / PAGE);
    CheckStackHaltsIff(m, d, vmas, addr);
    if Slot(d, addr / PAGE) in m.pages {
      PresentCovered(vmas, View(m, d), addr);
      CoveredNoGrowth(vmas, addr);
    }
  }

  /** Storing into a page whose entry is writable by now. */
  lemma PokeFollows(m: Mem, m1: Mem, d: nat, vmas: Vmas, addr: int, b: Byte, v: map<nat, PageView>)
    requires Linked(m) && Follows(m, d, m1, vmas, v) && 0 <= addr && addr / PAGE in v && v[addr / PAGE].writable
    requires Slot(d, addr / PAGE) in m1.pages && m1.pages[Slot(d, addr / PAGE)].writable
    ensures |v[addr / PAGE].bytes| == PAGE
    ensures var p := addr / PAGE;
            Follows(m, d, Poke(m1, d, addr, b), vmas, v[p := v[p].(bytes := v[p].bytes[addr % PAGE := b])])
  {
    hide Inv, Linked, View, Dirs, AreasOk, AttrAt, Writes;
    var p := addr / PAGE;
    Entry(m1, d, p);
    assert PageAgrees(vmas, v, p);
    ViewStore(m1, Slot(d, p), addr % PAGE, b);
    var m' := Poke(m1, d, addr, b);
    var v' := v[p := v[p].(bytes := v[p].bytes[addr % PAGE := b])];
    forall q: nat ensures PageAgrees(vmas, v', q) { assert PageAgrees(vmas, v, q); }
    forall e | e != d ensures ViewKept(m, m', e) { assert ViewKept(m, m1, e) && ViewKept(m1, m', e); }
  }

  lemma Idle(m: Mem, d: nat, vmas: Vmas)
    requires Running(m, d, vmas)
    ensures Follows(m, d, m, vmas, View(m, d))
  {
  }

  lemma GrowthStoreAgrees(m: Mem, d: nat, vmas: Vmas, addr: int, b: Byte)
    requires Running(m, d, vmas) && 0 <= addr < WORD && addr / PAGE !in View(m, d)
    requires Valid(vmas, VM_BASE, VM_TOP) && GrowSafe(vmas, addr)
    requires StoreAfterGrowth(m, d, vmas, addr, b).Some?
    ensures var (m', vmas', r) := StoreAfterGrowth(m, d, vmas, addr, b).value;
            var (vmasS, vS, rS) := StoreSpec(vmas, View(m, d), addr, b);
            vmas' == vmasS && r == rS && Follows(m, d, m', vmas', vS)
  {
    hide Inv, Linked, View, Dirs, AreasOk, Agree, StackFault, CheckStack, GrowSpec, Poke;
    CheckStackGrows(m, d, vmas, addr);
    CheckStackAgrees(m, d, vmas, addr);
    var (m1, vmas1, ok) := CheckStack(m, d, vmas, addr).value;
    if ok {
      GrownPresent(m, m1, d, vmas, addr);
      Entry(m1, d, addr / PAGE);
      PokeFollows(m, m1, d, vmas1, addr, b, GrowSpec(vmas, View(m, d), addr).1);
    } else {
      Idle(m, d, vmas);
    }
  }

  /** Every store a process makes, fault handling included, does what StoreSpec says: with copy-on-write
      sharing underneath, it changes one byte of its own memory and nothing in any other process. */
  lemma StoreAgrees(m: Mem, d: nat, vmas: Vmas, addr: int, b: Byte)
    requires Running(m, d, vmas) && 0 <= addr < WORD && StoreByte(m, d, vmas, addr, b).Some?
    requires Valid(vmas, VM_BASE, VM_TOP) && GrowSafe(vmas, addr)
    ensures var (m', vmas', r) := StoreByte(m, d, vmas, addr, b).value;
            var (vmasS, vS, rS) := StoreSpec(vmas, View(m, d), addr, b);
            vmas' == vmasS && r == rS && Follows(m, d, m', vmas', vS)
  {
    hide Inv, Linked, View, Dirs, AreasOk, Agree, Poke, StoreAfterGrowth, HandleCow;
    AreasValid(vmas);
    var p, s, v := addr / PAGE, Slot(d, addr / PAGE), View(m, d);
    Entry(m, d, p);
    Idle(m, d, vmas);
    if p !in v {
      GrowthStoreAgrees(m, d, vmas, addr, b);
    } else {
      PresentCovered(vmas, v, addr);
      CoveredNoGrowth(vmas, addr);
      if m.pages[s].writable {
        PokeFollows(m, m, d, vmas, addr, b, v);
      } else {
        ViewHandleCow(m, s);
        var (m1, ok) := HandleCow(m, s).value;
        if ok {
          assert ViewKept(m, m1, d);
          PokeFollows(m, m1, d, vmas, addr, b, v);
        } else {
          RefusedStore(m, d, vmas, addr, b);
        }
      }
    }
  }

  lemma RefusedStore(m: Mem, d: nat, vmas: Vmas, addr: int, b: Byte)
    requires Running(m, d, vmas) && 0 <= addr < WORD && Valid(vmas, VM_BASE, VM_TOP) && !StackFault(vmas, addr)
    ensures StoreAfterGrowth(m, d, vmas, addr, b) == Some((m, vmas, Segv))
  {
    hide Inv, Linked, View, Dirs, AreasOk, Agree, Poke;
  }

  lemma LoadAgrees(m: Mem, d: nat, vmas: Vmas, addr: int)
    requires Running(m, d, vmas) && 0 <= addr < WORD && LoadByte(m, d, vmas, addr).Some?
    requires Valid(vmas, VM_BASE, VM_TOP) && GrowSafe(vmas, addr)
    ensures var (m', vmas', r) := LoadByte(m, d, vmas, addr).value;
            var (vmasS, vS, rS) := LoadSpec(vmas, View(m, d), addr);
            vmas' == vmasS && r == rS && Follows(m, d, m', vmas', vS)
  {
    hide Inv, Linked, View, Dirs, AreasOk, Agree, StackFault, CheckStack, GrowSpec;
    AreasValid(vmas);
    Entry(m, d, addr / PAGE);
    Idle(m, d, vmas);
    if addr / PAGE !in View(m, d) {
      CheckStackGrows(m, d, vmas, addr);
      CheckStackAgrees(m, d, vmas, addr);
      var (m1, vmas1, ok) := CheckStack(m, d, vmas, addr).value;
      if ok {
        GrownPresent(m, m1, d, vmas, addr);
        Entry(m1, d, addr / PAGE);
      }
    }
  }

  // ----- Teardown

  function Spans(vmas: Vmas): (ps: seq<(int, int)>)
    ensures |ps| == |vmas| && forall i :: 0 <= i < |vmas| ==> ps[i] == (vmas[i].begin, vmas[i].end)
  {
    seq(|vmas|, i requires 0 <= i < |vmas| => (vmas[i].begin, vmas[i].end))
  }

  /** freeTask's release of an address space: vmSpace.free, freePageTables, then the directory frame. */
  function Teardown(m: Mem, d: nat, vmas: Vmas): (m': Mem)
    requires Running(m, d, vmas)
  {
    SpansPaged(vmas);
    var m1 := ReleaseAll(m, d, Spans(vmas[1..|vmas| - 1]));
    ReleaseAllCuts(m, d, Spans(vmas[1..|vmas| - 1]));
    DestroyKeeps(m1, d);
    Destroy(m1, d)
  }

  lemma SpansPaged(vmas: Vmas)
    requires AreasOk(vmas)
    ensures Paged(Spans(vmas[1..|vmas| - 1])) && Forward(Spans(vmas[1..|vmas| - 1]))
  {
  }

  lemma {:induction false} ReleaseAllOthers(m: Mem, d: nat, ps: seq<(int, int)>)
    requires Inv(m) && Fit(m) && Linked(m) && Paged(ps) && Forward(ps)
    ensures var m' := ReleaseAll(m, d, ps);
            Inv(m') && Linked(m') && OthersKept(m, m', d) && m'.owner == m.owner && |m'.ref| == |m.ref|
    decreases |ps|
  {
    hide Inv, FreeFrom, Linked;
    Lengths(m);
    if ps != [] {
      var p, end := ps[0].0 / PAGE, ps[0].1 / PAGE;
      var m1 := FreeFrom(m, d, p, end);
      FreeFromKeeps(m, d, p, end);
      FreeFromTables(m, d, p, end);
      Lengths(m1);
      ReleaseAllOthers(m1, d, ps[1..]);
    }
  }

  /** Teardown removes the address space and nothing else: no other process's memory changes. */
  lemma TeardownKeeps(m: Mem, d: nat, vmas: Vmas)
    requires Running(m, d, vmas)
    ensures var m' := Teardown(m, d, vmas);
            && Inv(m') && Linked(m') && Dirs(m'.owner) == Dirs(m.owner) - {d}
            && Removed(m, m', d) && forall e :: e != d ==> ViewKept(m, m', e)
  {
    hide Inv, Linked, Dirs, ReleaseAll, Destroy, AreasOk, Agree, View, OwnedBy;
    AreasValid(vmas);
    SpansPaged(vmas);
    var ps := Spans(vmas[1..|vmas| - 1]);
    ReleaseAllCuts(m, d, ps);
    ReleaseAllOthers(m, d, ps);
    var m1 := ReleaseAll(m, d, ps);
    DestroyKeeps(m1, d);
    DestroyLength(m1, d);
    ViewDestroy(m1, d);
    var m' := Teardown(m, d, vmas);
    Lengths(m');
    OwnedBySame(m, m1, d);
    forall e | e != d ensures ViewKept(m, m', e) { assert ViewKept(m, m1, e) && ViewKept(m1, m', e); }
  }

  lemma OwnedBySame(m: Mem, m1: Mem, d: nat)
    requires m1.owner == m.owner
    ensures forall f :: OwnedBy(m1, d, f) == OwnedBy(m, d, f)
  {
  }

  /** Teardown gives back exactly what the process held, each reference once. */
  lemma TeardownConserves(m: Mem, d: nat, vmas: Vmas, f: nat)
    requires Running(m, d, vmas) && f < |m.ref|
    ensures var m' := Teardown(m, d, vmas);
            && |m'.ref| == |m.ref| && |m'.used| == |m.used| == |m.ref|
            && m.ref[f] == m'.ref[f] + |MappersIn(m, d, f)| + (if OwnedBy(m, d, f) then 1 else 0)
            && (m.used[f] && !m'.used[f] <==> HeldOnlyBy(m, d, f))
            && (m'.used[f] ==> m.used[f])
  {
    hide Inv, Teardown, MappersIn, OwnedBy, HeldOnlyBy, SpaceOk, Linked, Dirs;
    TeardownKeeps(m, d, vmas);
    RemovalConserves(m, Teardown(m, d, vmas), d, f);
  }
}
