/** Physical frames, reference counts and user address spaces (kernel/allocator/mod.cpp,
    kernel/allocator/pool.cpp, kernel/paging/directory.cpp), as values.

    An address space is named by the frame of its page directory.  `pages` holds every present user page
    table entry of every directory, `tabs` the frame of each page table, `data` the contents of the frames
    that user entries map, `owner` the frames held for anything else.  Running out of frames halts the kernel
    (kfatal), which is the None result. */
module Frames {
  import opened Basics

  const ENTRIES: int := 1024          // entries of a page table
  const USER_TABLES: int := 768       // directory entries below 0xC0000000
  const USER_PAGES: int := 768 * 1024
  const REF_WRAP: int := 0x10000      // __ref is a uint16_t
  const MAX_DIRS: int := 257          // one for each of 256 tasks, one more while a fork is under way

  datatype Pte = Pte(frame: nat, writable: bool, cow: bool)

  /** A page (or page table) number within the address space of a directory. */
  datatype Slot = Slot(dir: nat, index: nat)

  /** What a frame that no user entry maps is held for. */
  datatype Owner = KernelFrame | Directory | Table(slot: Slot)

  datatype Mem = Mem(
    used: seq<bool>,
    ref: seq<nat>,
    owner: map<nat, Owner>,
    tabs: map<Slot, nat>,
    pages: map<Slot, Pte>,
    data: map<nat, seq<Byte>>)

  function TableOf(s: Slot): Slot {
    Slot(s.dir, s.index / ENTRIES)
  }

  function Zeros(): (z: seq<Byte>)
    ensures |z| == PAGE && forall i :: 0 <= i < PAGE ==> z[i] == 0
  {
    seq(PAGE, _ => 0)
  }

  // ----- What holds in every reachable state

  /** The entries that map frame f. */
  ghost function Mappers(pages: map<Slot, Pte>, f: nat): set<Slot> {
    set s | s in pages && pages[s].frame == f
  }

  /** Enough to run the operations: every entry names an existing frame. */
  ghost predicate Fit(m: Mem) {
    |m.used| == |m.ref| && forall s :: s in m.pages ==> m.pages[s].frame < |m.ref|
  }

  ghost function Dirs(owner: map<nat, Owner>): set<nat> {
    set f | f in owner && owner[f].Directory?
  }

  ghost predicate Sized(used: seq<bool>, ref: seq<nat>, owner: map<nat, Owner>, data: map<nat, seq<Byte>>) {
    && |used| == |ref|
    && (forall f :: f in owner ==> f < |ref|)
    && (forall f :: f in data ==> f < |ref| && |data[f]| == PAGE)
    && owner.Keys !! data.Keys
  }

  /** Each present directory entry points to the table frame held for it, in a live directory. */
  ghost predicate TablesLinked(owner: map<nat, Owner>, tabs: map<Slot, nat>) {
    && (forall f :: f in owner && owner[f].Table? ==> owner[f].slot in tabs && tabs[owner[f].slot] == f)
    && (forall s :: s in tabs ==> tabs[s] in owner && owner[tabs[s]] == Table(s))
    && (forall s :: s in tabs ==> s.dir in owner && owner[s.dir].Directory? && s.index < USER_TABLES)
  }

  /** Each present entry sits in a present table and maps a data frame. */
  ghost predicate PagesLinked(tabs: map<Slot, nat>, pages: map<Slot, Pte>, data: map<nat, seq<Byte>>) {
    forall s :: s in pages ==> s.index < USER_PAGES && TableOf(s) in tabs && pages[s].frame in data
  }

  /** __ref counts the entries that map a frame, plus one for a directory, table or kernel frame. */
  ghost predicate Counted(ref: seq<nat>, owner: map<nat, Owner>, pages: map<Slot, Pte>) {
    forall f :: 0 <= f < |ref| ==> ref[f] == |Mappers(pages, f)| + if f in owner then 1 else 0
  }

  /** The pool bit of a frame is set exactly while its count is positive. */
  ghost predicate Pooled(used: seq<bool>, ref: seq<nat>) {
    |used| == |ref| && forall f :: 0 <= f < |ref| ==> (used[f] <==> ref[f] > 0)
  }

  /** Contents are kept for mapped frames only. */
  ghost predicate Mapped(pages: map<Slot, Pte>, data: map<nat, seq<Byte>>) {
    forall f :: f in data ==> Mappers(pages, f) != {}
  }

  /** No directory maps a frame twice, and a writable entry is the only one on its frame. */
  ghost predicate Exclusive(pages: map<Slot, Pte>) {
    && (forall s, t :: s in pages && t in pages && s != t && pages[s].frame == pages[t].frame ==>
          s.dir != t.dir && !pages[s].writable)
    && (forall s :: s in pages ==> !(pages[s].writable && pages[s].cow))
  }

  ghost predicate Inv(m: Mem) {
    && Sized(m.used, m.ref, m.owner, m.data)
    && TablesLinked(m.owner, m.tabs)
    && PagesLinked(m.tabs, m.pages, m.data)
    && Counted(m.ref, m.owner, m.pages)
    && Pooled(m.used, m.ref)
    && Mapped(m.pages, m.data)
    && Exclusive(m.pages)
    && |Dirs(m.owner)| <= MAX_DIRS
  }

  ghost predicate Linked(m: Mem) {
    PagesLinked(m.tabs, m.pages, m.data)
  }

  lemma Lengths(m: Mem)
    requires Inv(m)
    ensures Fit(m) && |m.used| == |m.ref| && Linked(m)
  {
  }

  // ----- What a process sees

  datatype PageView = PageView(bytes: seq<Byte>, writable: bool)

  /** The memory of directory d: each present page with its bytes and whether a store ends up allowed. */
  ghost function View(m: Mem, d: nat): (v: map<nat, PageView>)
    requires Linked(m)
  {
    map p: nat | p < USER_PAGES && Slot(d, p) in m.pages ::
      var e := m.pages[Slot(d, p)]; PageView(m.data[e.frame], e.writable || e.cow)
  }

  // ----- Counting

  lemma MappersAdd(pages: map<Slot, Pte>, s: Slot, e: Pte, f: nat)
    requires s !in pages
    ensures Mappers(pages[s := e], f) == if f == e.frame then Mappers(pages, f) + {s} else Mappers(pages, f)
    ensures |Mappers(pages[s := e], f)| == |Mappers(pages, f)| + if f == e.frame then 1 else 0
  {
  }

  lemma MappersDrop(pages: map<Slot, Pte>, s: Slot, f: nat)
    requires s in pages
    ensures Mappers(pages - {s}, f) == Mappers(pages, f) - {s}
    ensures |Mappers(pages - {s}, f)| == |Mappers(pages, f)| - if f == pages[s].frame then 1 else 0
  {
  }

  lemma MappersKeep(pages: map<Slot, Pte>, s: Slot, e: Pte, f: nat)
    requires s in pages && pages[s].frame == e.frame
    ensures Mappers(pages[s := e], f) == Mappers(pages, f)
  {
  }

  /** Mapping a frame at most once per directory, at most |dirs| entries map it: the 16-bit count of a
      frame cannot wrap. */
  lemma RefBounded(m: Mem, f: nat)
    requires Inv(m) && f < |m.ref|
    ensures |Mappers(m.pages, f)| <= |Dirs(m.owner)| && m.ref[f] < REF_WRAP - 1
  {
    var ss := Mappers(m.pages, f);
    var ds := set s | s in ss :: s.dir;
    assert |ds| == |ss| by {
      hide *;
      assert forall s, t :: s in ss && t in ss && s.dir == t.dir ==> s == t;
      DistinctDirs(ss);
    }
    assert ds <= Dirs(m.owner) by {
      forall s | s in ss ensures s.dir in Dirs(m.owner) { assert TableOf(s) in m.tabs; }
    }
    SubsetSize(ds, Dirs(m.owner));
  }

  lemma {:induction false} DistinctDirs(ss: set<Slot>)
    requires forall s, t :: s in ss && t in ss && s.dir == t.dir ==> s == t
    ensures |set s | s in ss :: s.dir| == |ss|
  {
    if ss != {} {
      var s :| s in ss;
      DistinctDirs(ss - {s});
      assert (set t | t in ss :: t.dir) == (set t | t in ss - {s} :: t.dir) + {s.dir};
    }
  }

  lemma {:induction false} SubsetSize(a: set<nat>, b: set<nat>)
    requires a <= b
    ensures |a| <= |b|
  {
    if a != {} {
      var x :| x in a;
      SubsetSize(a - {x}, b - {x});
    }
  }

  // ----- The pool and the reference counts

  /** Pool allocation takes the lowest clear bit at or above n. */
  function FirstClear(used: seq<bool>, n: nat := 0): (r: Option<nat>)
    requires n <= |used|
    ensures r.Some? ==> n <= r.value < |used| && !used[r.value] && forall i :: n <= i < r.value ==> used[i]
    ensures r.None? ==> forall i :: n <= i < |used| ==> used[i]
    decreases |used| - n
  {
    if n == |used| then None else if !used[n] then Some(n) else FirstClear(used, n + 1)
  }

  function AllocFrame(m: Mem): (r: Option<(Mem, nat)>)
    requires |m.used| == |m.ref|
    ensures r.Some? <==> exists f :: 0 <= f < |m.used| && !m.used[f]
    ensures r.Some? ==> r.value.1 < |m.used| && !m.used[r.value.1]
  {
    match FirstClear(m.used)
    case None => None
    case Some(f) => Some((m.(used := m.used[f := true], ref := m.ref[f := 1]), f))
  }

  function Retain(m: Mem, f: nat): (m': Mem)
    requires f < |m.ref|
  {
    m.(ref := m.ref[f := (m.ref[f] + 1) % REF_WRAP])
  }

  /** Dropping the last reference returns the frame to the pool; its contents are gone. */
  function Release(m: Mem, f: nat): (m': Mem)
    requires f < |m.ref| && f < |m.used|
  {
    var n := (m.ref[f] + REF_WRAP - 1) % REF_WRAP;
    if n == 0 then m.(ref := m.ref[f := n], used := m.used[f := false], data := m.data - {f})
    else m.(ref := m.ref[f := n])
  }

  /** A frame off the pool has no role and nobody maps it. */
  lemma FreshFrame(m: Mem, f: nat)
    requires Inv(m) && f < |m.used| && !m.used[f]
    ensures f !in m.owner && f !in m.data && Mappers(m.pages, f) == {}
    ensures f < |m.ref| && m.ref[f] == 0
    ensures forall s :: s in m.pages ==> m.pages[s].frame != f
  {
  }

  /** What the table walk needs and mapping over a present page keeps: frames held or filled are in use, tables are
      linked, and entries sit in present tables. */
  ghost predicate Held(m: Mem) {
    && |m.used| == |m.ref|
    && (forall f :: f in m.owner ==> f < |m.used| && m.used[f])
    && (forall f :: f in m.data ==> f < |m.used| && m.used[f])
    && TablesLinked(m.owner, m.tabs) && PagesLinked(m.tabs, m.pages, m.data)
  }

  lemma InvHeld(m: Mem)
    requires Inv(m)
    ensures Held(m) && Fit(m)
  {
    hide TablesLinked, PagesLinked, Counted, Pooled, Mapped, Exclusive, Dirs;
    Lengths(m);
    forall f: nat | f < |m.used| && !m.used[f] ensures f !in m.owner && f !in m.data {
      FreshFrame(m, f);
    }
  }

  lemma HeldFresh(m: Mem, f: nat)
    requires Held(m) && f < |m.used| && !m.used[f]
    ensures f !in m.owner && f !in m.data && forall s :: s in m.pages ==> m.pages[s].frame != f
  {
  }

  // ----- Directories and tables

  /** A new user directory: kernel half copied (not modelled), user half empty. */
  function NewDir(m: Mem): (r: Option<(Mem, nat)>)
    requires Fit(m)
    ensures r.Some? ==> Fit(r.value.0)
  {
    match AllocFrame(m)
    case None => None
    case Some((m', d)) => Some((m'.(owner := m'.owner[d := Directory]), d))
  }

  function EnsureTable(m: Mem, t: Slot): (r: Option<Mem>)
    requires Fit(m)
    ensures r.Some? ==> Fit(r.value)
  {
    if t in m.tabs then Some(m)
    else
      match AllocFrame(m)
      case None => None
      case Some((m', f)) => Some(m'.(owner := m'.owner[f := Table(t)], tabs := m'.tabs[t := f]))
  }

  /** Invariants when the free frame f is taken for o. */
  lemma TakeSized(m: Mem, f: nat, o: Owner)
    requires Inv(m) && f < |m.ref| && f !in m.owner && f !in m.data && Mappers(m.pages, f) == {}
    ensures Sized(m.used[f := true], m.ref[f := 1], m.owner[f := o], m.data)
    ensures Pooled(m.used[f := true], m.ref[f := 1])
    ensures Counted(m.ref[f := 1], m.owner[f := o], m.pages)
  {
    hide TablesLinked, PagesLinked, Mapped, Exclusive, Mappers, Dirs;
  }

  lemma TakeDirs(owner: map<nat, Owner>, f: nat, o: Owner)
    requires f !in owner
    ensures Dirs(owner[f := o]) == Dirs(owner) + if o.Directory? then {f} else {}
  {
  }

  /** The free frame f becomes a directory. */
  lemma TakeDirectory(m: Mem, f: nat)
    requires Inv(m) && |Dirs(m.owner)| < MAX_DIRS && f < |m.used| && !m.used[f]
    ensures Inv(m.(used := m.used[f := true], ref := m.ref[f := 1], owner := m.owner[f := Directory]))
    ensures f !in m.owner && Dirs(m.owner[f := Directory]) == Dirs(m.owner) + {f}
  {
    hide Sized, Counted, Pooled, Mapped, PagesLinked, Exclusive, Mappers, Dirs;
    Lengths(m);
    FreshFrame(m, f);
    TakeSized(m, f, Directory);
    TakeDirs(m.owner, f, Directory);
  }

  /** The free frame f becomes the page table for t. */
  lemma TakeTable(m: Mem, t: Slot, f: nat)
    requires Inv(m) && t !in m.tabs && t.dir in Dirs(m.owner) && t.index < USER_TABLES && f < |m.used| && !m.used[f]
    ensures Inv(m.(used := m.used[f := true], ref := m.ref[f := 1], owner := m.owner[f := Table(t)],
            tabs := m.tabs[t := f]))
    ensures Dirs(m.owner[f := Table(t)]) == Dirs(m.owner)
  {
    hide Sized, Counted, Pooled, Mapped, Exclusive, Mappers;
    Lengths(m);
    FreshFrame(m, f);
    TakeSized(m, f, Table(t));
    TakeDirs(m.owner, f, Table(t));
  }

  lemma NewDirKeeps(m: Mem)
    requires Inv(m) && |Dirs(m.owner)| < MAX_DIRS && NewDir(m).Some?
    ensures var (m', d) := NewDir(m).value;
            && Inv(m') && Dirs(m'.owner) == Dirs(m.owner) + {d} && d !in m.owner
            && m'.tabs == m.tabs && m'.pages == m.pages && m'.data == m.data
  {
    hide Inv, Dirs, FirstClear;
    Lengths(m);
    TakeDirectory(m, NewDir(m).value.1);
  }

  lemma EnsureTableKeeps(m: Mem, t: Slot)
    requires Inv(m) && t.dir in Dirs(m.owner) && t.index < USER_TABLES && EnsureTable(m, t).Some?
    ensures var m' := EnsureTable(m, t).value;
            && Inv(m') && Dirs(m'.owner) == Dirs(m.owner)
            && m'.tabs.Keys == m.tabs.Keys + {t} && m'.pages == m.pages && m'.data == m.data
  {
    hide Inv, Dirs, FirstClear;
    Lengths(m);
    if t !in m.tabs {
      TakeTable(m, t, AllocFrame(m).value.1);
    }
  }

  // ----- Mapping a page

  /** A zeroed frame mapped at s (the table is made present first). */
  function AllocPage(m: Mem, s: Slot, writable: bool): (r: Option<Mem>)
    requires Fit(m)
    ensures r.Some? ==> Fit(r.value)
  {
    match EnsureTable(m, TableOf(s))
    case None => None
    case Some(m1) =>
      match AllocFrame(m1)
      case None => None
      case Some((m2, f)) => Some(WithPage(m2, s, Pte(f, writable, false), Zeros()))
  }

  ghost function FreeFrames(m: Mem): set<nat> {
    set f: nat | f < |m.used| && !m.used[f]
  }

  lemma AllocFrameTakes(m: Mem)
    requires |m.used| == |m.ref|
    ensures AllocFrame(m).None? <==> FreeFrames(m) == {}
    ensures AllocFrame(m).Some? ==>
              var (m', f) := AllocFrame(m).value; f in FreeFrames(m) && FreeFrames(m') == FreeFrames(m) - {f}
  {
    if AllocFrame(m).Some? {
      assert AllocFrame(m).value.1 in FreeFrames(m);
    }
  }

  /** A page takes one frame, and one more for its table if that is missing. */
  lemma AllocPageTakes(m: Mem, s: Slot, writable: bool)
    requires Fit(m)
    ensures var k := if TableOf(s) in m.tabs then 1 else 2;
            && (AllocPage(m, s, writable).Some? <==> k <= |FreeFrames(m)|)
            && (AllocPage(m, s, writable).Some? ==>
                  var m' := AllocPage(m, s, writable).value;
                  |FreeFrames(m')| == |FreeFrames(m)| - k && m'.tabs.Keys == m.tabs.Keys + {TableOf(s)})
  {
    hide FirstClear, FreeFrames, EnsureTable;
    EnsureTableTakes(m, TableOf(s));
    var r := EnsureTable(m, TableOf(s));
    if r.Some? {
      AllocFrameTakes(r.value);
      if AllocPage(m, s, writable).Some? {
        var m2 := AllocFrame(r.value).value.0;
        assert AllocPage(m, s, writable).value.used == m2.used;
        UsedFree(AllocPage(m, s, writable).value, m2);
      }
    }
  }

  lemma UsedFree(m: Mem, m': Mem)
    requires m.used == m'.used
    ensures FreeFrames(m) == FreeFrames(m')
  {
  }

  /** A missing table takes one frame, a present one none. */
  lemma EnsureTableTakes(m: Mem, t: Slot)
    requires Fit(m)
    ensures var k := if t in m.tabs then 0 else 1;
            && (EnsureTable(m, t).Some? <==> k <= |FreeFrames(m)|)
            && (EnsureTable(m, t).Some? ==>
                  var m' := EnsureTable(m, t).value;
                  |FreeFrames(m')| == |FreeFrames(m)| - k && m'.tabs.Keys == m.tabs.Keys + {t})
  {
    hide FirstClear, FreeFrames;
    AllocFrameTakes(m);
    if t !in m.tabs && EnsureTable(m, t).Some? {
      UsedFree(EnsureTable(m, t).value, AllocFrame(m).value.0);
    }
  }

  function WithPage(m: Mem, s: Slot, e: Pte, bytes: seq<Byte>): Mem {
    m.(pages := m.pages[s := e], data := m.data[e.frame := bytes])
  }

  lemma AllocPageEntry(m: Mem, s: Slot, writable: bool)
    requires Fit(m) && AllocPage(m, s, writable).Some?
    ensures var m' := AllocPage(m, s, writable).value;
            s in m'.pages && m'.pages[s].writable == writable && m'.pages == m.pages[s := m'.pages[s]]
  {
  }

  lemma MapCounted(ref: seq<nat>, owner: map<nat, Owner>, pages: map<Slot, Pte>, s: Slot, e: Pte)
    requires Counted(ref, owner, pages) && s !in pages && e.frame < |ref|
    ensures Counted(ref[e.frame := ref[e.frame] + 1], owner, pages[s := e])
  {
    hide Mappers;
    var pages' := pages[s := e];
    forall f: nat ensures |Mappers(pages', f)| == |Mappers(pages, f)| + if f == e.frame then 1 else 0 {
      MappersAdd(pages, s, e, f);
    }
  }

  lemma MapExclusive(pages: map<Slot, Pte>, s: Slot, e: Pte)
    requires Exclusive(pages) && s !in pages && !(e.writable && e.cow)
    requires forall t :: t in pages ==> pages[t].frame != e.frame
    ensures Exclusive(pages[s := e])
  {
  }

  lemma MapMapped(pages: map<Slot, Pte>, data: map<nat, seq<Byte>>, s: Slot, e: Pte, bytes: seq<Byte>)
    requires Mapped(pages, data) && s !in pages
    ensures Mapped(pages[s := e], data[e.frame := bytes])
  {
    var pages', data' := pages[s := e], data[e.frame := bytes];
    forall f | f in data' ensures Mappers(pages', f) != {} {
      MappersAdd(pages, s, e, f);
      assert f != e.frame || s in Mappers(pages', f);
    }
  }

  lemma MapSized(m: Mem, f: nat, bytes: seq<Byte>)
    requires Inv(m) && f < |m.ref| && f !in m.owner && |bytes| == PAGE
    ensures Sized(m.used[f := true], m.ref[f := 1], m.owner, m.data[f := bytes])
    ensures Pooled(m.used[f := true], m.ref[f := 1])
  {
    hide TablesLinked, PagesLinked, Mapped, Exclusive, Mappers, Dirs, Counted;
  }

  /** Mapping the free frame f with given contents at an absent entry of a present table. */
  lemma MapFresh(m: Mem, s: Slot, f: nat, writable: bool, bytes: seq<Byte>)
    requires Inv(m) && s !in m.pages && s.index < USER_PAGES && TableOf(s) in m.tabs && |bytes| == PAGE
    requires f < |m.used| && !m.used[f]
    ensures Inv(WithPage(m.(used := m.used[f := true], ref := m.ref[f := 1]), s, Pte(f, writable, false), bytes))
  {
    hide Sized, TablesLinked, Counted, Pooled, Mapped, Exclusive, Mappers, Dirs;
    Lengths(m);
    FreshFrame(m, f);
    var e := Pte(f, writable, false);
    MapCounted(m.ref, m.owner, m.pages, s, e);
    MapExclusive(m.pages, s, e);
    MapMapped(m.pages, m.data, s, e, bytes);
    MapSized(m, f, bytes);
  }

  ghost function PageAt(m: Mem, s: Slot): PageView
    requires s in m.pages && m.pages[s].frame in m.data
  {
    PageView(m.data[m.pages[s].frame], m.pages[s].writable || m.pages[s].cow)
  }

  /** Only what is seen at s may differ between m and m'. */
  ghost predicate SameElsewhere(m: Mem, m': Mem, s: Slot)
    requires Linked(m) && Linked(m')
  {
    forall t: Slot {:trigger t in m.pages} {:trigger t in m'.pages} ::
      t != s ==> (t in m'.pages <==> t in m.pages) && (t in m.pages ==> PageAt(m', t) == PageAt(m, t))
  }

  lemma EnsureTableHeld(m: Mem, t: Slot)
    requires Held(m) && Fit(m) && t.dir in Dirs(m.owner) && t.index < USER_TABLES && EnsureTable(m, t).Some?
    ensures var m' := EnsureTable(m, t).value;
            && Held(m') && Dirs(m'.owner) == Dirs(m.owner) && t in m'.tabs && m'.pages == m.pages && m'.data == m.data
  {
    hide FirstClear, TablesLinked, PagesLinked;
    if t !in m.tabs {
      HeldFresh(m, AllocFrame(m).value.1);
      TakeDirs(m.owner, AllocFrame(m).value.1, Table(t));
      LinkTable(m, t, AllocFrame(m).value.1);
    }
  }

  lemma LinkTable(m: Mem, t: Slot, f: nat)
    requires TablesLinked(m.owner, m.tabs) && PagesLinked(m.tabs, m.pages, m.data)
    requires f !in m.owner && t !in m.tabs && t.dir in Dirs(m.owner) && t.index < USER_TABLES
    ensures TablesLinked(m.owner[f := Table(t)], m.tabs[t := f]) && PagesLinked(m.tabs[t := f], m.pages, m.data)
  {
  }

  lemma HeldLinked(m: Mem)
    requires Held(m)
    ensures Linked(m)
    ensures forall s :: s in m.pages ==> var f := m.pages[s].frame; f in m.data && f < |m.used| && m.used[f]
  {
    hide TablesLinked;
  }

  /** A page is zeroed and writable as asked, whether it was present or not; nothing else that is seen changes. */
  lemma AllocPageHeld(m: Mem, s: Slot, writable: bool)
    requires Held(m) && Fit(m) && s.dir in Dirs(m.owner) && s.index < USER_PAGES && AllocPage(m, s, writable).Some?
    ensures var m' := AllocPage(m, s, writable).value;
            && Held(m') && Dirs(m'.owner) == Dirs(m.owner) && Linked(m) && Linked(m')
            && s in m'.pages && PageAt(m', s) == PageView(Zeros(), writable)
            && (forall t :: t in m'.pages && t != s ==> m'.pages[t].frame != m'.pages[s].frame)
            && SameElsewhere(m, m', s)
  {
    hide Dirs, FirstClear, EnsureTable, TablesLinked, Zeros, Held, SameElsewhere, PageAt, PagesLinked;
    EnsureTableHeld(m, TableOf(s));
    var m1 := EnsureTable(m, TableOf(s)).value;
    var (m2, f) := AllocFrame(m1).value;
    PlaceHeld(m1, m2, f, s, Pte(f, writable, false));
    HeldLinked(m);
    HeldLinked(AllocPage(m, s, writable).value);
    PlaceSame(m, AllocPage(m, s, writable).value, s, Pte(f, writable, false));
  }

  lemma PlaceSame(m: Mem, m': Mem, s: Slot, e: Pte)
    requires Linked(m) && Linked(m') && e.frame !in m.data
    requires m'.pages == m.pages[s := e] && m'.data == m.data[e.frame := Zeros()]
    ensures s in m'.pages && PageAt(m', s) == PageView(Zeros(), e.writable || e.cow)
    ensures forall t :: t in m'.pages && t != s ==> m'.pages[t].frame != m'.pages[s].frame
    ensures SameElsewhere(m, m', s)
  {
    hide Zeros;
  }

  /** The free frame f is taken and mapped at s. */
  lemma PlaceHeld(m: Mem, m2: Mem, f: nat, s: Slot, e: Pte)
    requires Held(m) && f < |m.used| && !m.used[f] && TableOf(s) in m.tabs && s.index < USER_PAGES && e.frame == f
    requires m2 == m.(used := m.used[f := true], ref := m.ref[f := 1])
    ensures f !in m.data && Held(WithPage(m2, s, e, Zeros()))
  {
    hide TablesLinked, Zeros;
    HeldFresh(m, f);
  }

  /** More references are counted for frame f than there are. */
  ghost predicate Overcounted(m: Mem, f: nat) {
    && f < |m.used| == |m.ref| && m.used[f]
    && m.ref[f] > |Mappers(m.pages, f)| + if f in m.owner then 1 else 0
  }

  lemma NotOvercounted(m: Mem, f: nat)
    ensures Inv(m) ==> !Overcounted(m, f)
  {
    hide TablesLinked, PagesLinked, Pooled, Mapped, Exclusive, Dirs, Mappers;
  }

  lemma MappersLess(pages: map<Slot, Pte>, s: Slot, e: Pte, f: nat)
    requires e.frame != f
    ensures Mappers(pages[s := e], f) == Mappers(pages, f) - {s}
    ensures |Mappers(pages[s := e], f)| <= |Mappers(pages, f)|
    ensures s in pages && pages[s].frame == f ==> |Mappers(pages[s := e], f)| < |Mappers(pages, f)|
  {
    assert Mappers(pages[s := e], f) == Mappers(pages, f) - {s};
    if s in Mappers(pages, f) {
      assert |Mappers(pages, f) - {s}| == |Mappers(pages, f)| - 1;
    } else {
      assert Mappers(pages, f) - {s} == Mappers(pages, f);
    }
  }

  /** Nothing that is in use changes its count or owner when a page is allocated. */
  lemma AllocPageCounts(m: Mem, s: Slot, writable: bool, f: nat)
    requires Fit(m) && AllocPage(m, s, writable).Some? && f < |m.used| && m.used[f]
    ensures var m' := AllocPage(m, s, writable).value;
            && |m'.used| == |m.used| && |m'.ref| == |m.ref| && m'.used[f] && m'.ref[f] == m.ref[f]
            && (f in m'.owner <==> f in m.owner)
            && s in m'.pages && m'.pages[s].frame != f && m'.pages == m.pages[s := m'.pages[s]]
  {
    hide FirstClear;
  }

  /** A lost reference is never found again. */
  lemma OvercountedStays(m: Mem, s: Slot, writable: bool, f: nat)
    requires Fit(m) && AllocPage(m, s, writable).Some? && Overcounted(m, f)
    ensures Overcounted(AllocPage(m, s, writable).value, f)
  {
    hide AllocPage, Mappers;
    AllocPageCounts(m, s, writable, f);
    var m' := AllocPage(m, s, writable).value;
    MappersLess(m.pages, s, m'.pages[s], f);
  }

  /** Mapping a page over a present one loses a reference. */
  lemma MappedOver(m: Mem, s: Slot, writable: bool)
    requires Inv(m) && Fit(m) && s in m.pages && AllocPage(m, s, writable).Some?
    ensures Overcounted(AllocPage(m, s, writable).value, m.pages[s].frame)
  {
    hide AllocPage, Mappers, TablesLinked, Exclusive, Dirs;
    var f := m.pages[s].frame;
    FrameInUse(m, s);
    AllocPageCounts(m, s, writable, f);
    MappersLess(m.pages, s, AllocPage(m, s, writable).value.pages[s], f);
  }

  lemma FrameInUse(m: Mem, s: Slot)
    requires Inv(m) && s in m.pages
    ensures var f := m.pages[s].frame; f < |m.used| == |m.ref| && m.used[f]
  {
    hide TablesLinked, PagesLinked, Counted, Pooled, Mapped, Exclusive, Dirs;
    InvHeld(m);
    HeldLinked(m);
  }

  /** An absent page becomes present, zeroed and writable as asked; nothing else changes. */
  lemma AllocPageKeeps(m: Mem, s: Slot, writable: bool)
    requires Inv(m) && s.dir in Dirs(m.owner) && s.index < USER_PAGES && s !in m.pages
    requires AllocPage(m, s, writable).Some?
    ensures var m' := AllocPage(m, s, writable).value;
            && Inv(m') && Dirs(m'.owner) == Dirs(m.owner)
            && s in m'.pages && PageAt(m', s) == PageView(Zeros(), writable)
            && SameElsewhere(m, m', s)
  {
    hide Inv, Dirs, FirstClear, Mappers, EnsureTable;
    Lengths(m);
    EnsureTableKeeps(m, TableOf(s));
    var m1 := EnsureTable(m, TableOf(s)).value;
    Lengths(m1);
    var (m2, f) := AllocFrame(m1).value;
    FreshFrame(m1, f);
    MapFresh(m1, s, f, writable, Zeros());
  }

  // ----- Unmapping a page

  /** The present entry s is cleared and its frame released. */
  function Unmap(m: Mem, s: Slot): (m': Mem)
    requires Fit(m) && s in m.pages
    ensures Fit(m')
  {
    Release(m, m.pages[s].frame).(pages := m.pages - {s})
  }

  /** Frames with a reference have a count that steps down without wrapping. */
  lemma ReleaseSteps(m: Mem, f: nat)
    requires Inv(m) && (f in m.owner || f in m.data)
    ensures f < |m.ref| && f < |m.used| && 0 < m.ref[f]
    ensures (m.ref[f] + REF_WRAP - 1) % REF_WRAP == m.ref[f] - 1
  {
    hide Exclusive, TablesLinked, PagesLinked, Mappers;
    RefBounded(m, f);
  }

  /** A data frame is counted by its entries alone. */
  lemma DataCount(m: Mem, s: Slot)
    requires Inv(m) && s in m.pages
    ensures var f := m.pages[s].frame;
            f in m.data && f !in m.owner && f < |m.ref| && m.ref[f] == |Mappers(m.pages, f)| && s in Mappers(m.pages, f)
  {
    hide Exclusive, TablesLinked, Pooled;
  }

  lemma DropCounted(ref: seq<nat>, owner: map<nat, Owner>, pages: map<Slot, Pte>, s: Slot)
    requires Counted(ref, owner, pages) && s in pages && pages[s].frame < |ref| && 0 < ref[pages[s].frame]
    ensures Counted(ref[pages[s].frame := ref[pages[s].frame] - 1], owner, pages - {s})
  {
    hide Mappers;
    var pages' := pages - {s};
    forall f: nat ensures |Mappers(pages', f)| == |Mappers(pages, f)| - if f == pages[s].frame then 1 else 0 {
      MappersDrop(pages, s, f);
    }
  }

  /** The last entry on a frame takes the contents with it. */
  lemma DropMapped(pages: map<Slot, Pte>, data: map<nat, seq<Byte>>, s: Slot, last: bool)
    requires Mapped(pages, data) && s in pages
    requires last <==> |Mappers(pages, pages[s].frame)| == 1
    ensures Mapped(pages - {s}, if last then data - {pages[s].frame} else data)
    ensures last ==> forall t :: t in pages && t != s ==> pages[t].frame != pages[s].frame
  {
    var data' := if last then data - {pages[s].frame} else data;
    var pages' := pages - {s};
    forall f | f in data' ensures Mappers(pages', f) != {} {
      MappersDrop(pages, s, f);
      assert |Mappers(pages', f)| != 0;
    }
    if last {
      MappersDrop(pages, s, pages[s].frame);
      forall t | t in pages && t != s ensures pages[t].frame != pages[s].frame {
        assert t !in Mappers(pages', pages[s].frame);
      }
    }
  }

  lemma DropLinked(tabs: map<Slot, nat>, pages: map<Slot, Pte>, data: map<nat, seq<Byte>>, s: Slot, last: bool)
    requires PagesLinked(tabs, pages, data) && s in pages
    requires last ==> forall t :: t in pages && t != s ==> pages[t].frame != pages[s].frame
    ensures PagesLinked(tabs, pages - {s}, if last then data - {pages[s].frame} else data)
  {
  }

  lemma DropExclusive(pages: map<Slot, Pte>, s: Slot)
    requires Exclusive(pages)
    ensures Exclusive(pages - {s})
  {
  }

  lemma DropSized(m: Mem, f: nat)
    requires Inv(m) && f < |m.ref| && f < |m.used| && 0 < m.ref[f]
    ensures var n := m.ref[f] - 1;
            var used' := if n == 0 then m.used[f := false] else m.used;
            && Pooled(used', m.ref[f := n])
            && Sized(used', m.ref[f := n], m.owner, m.data)
            && Sized(used', m.ref[f := n], m.owner, m.data - {f})
            && Sized(used', m.ref[f := n], m.owner - {f}, m.data)
  {
    hide Exclusive, TablesLinked, PagesLinked, Mappers, Mapped, Counted, Dirs;
  }

  /** Unmapping removes exactly one page from one address space. */
  lemma UnmapKeeps(m: Mem, s: Slot)
    requires Inv(m) && s in m.pages
    ensures Fit(m)
    ensures var m' := Unmap(m, s);
            && Inv(m') && m'.owner == m.owner && m'.tabs == m.tabs
            && s !in m'.pages && SameElsewhere(m, m', s)
  {
    hide Sized, TablesLinked, PagesLinked, Counted, Pooled, Mapped, Exclusive, Mappers, Dirs;
    Lengths(m);
    var f := m.pages[s].frame;
    DataCount(m, s);
    ReleaseSteps(m, f);
    DropCounted(m.ref, m.owner, m.pages, s);
    var last := m.ref[f] == 1;
    DropMapped(m.pages, m.data, s, last);
    DropLinked(m.tabs, m.pages, m.data, s, last);
    DropExclusive(m.pages, s);
    DropSized(m, f);
  }

  function FreePage(m: Mem, s: Slot): (m': Mem)
    requires Fit(m)
    ensures Fit(m')
  {
    if s in m.pages then Unmap(m, s) else m
  }

  // ----- Sharing a page

  /** The entry both processes get: write permission becomes the copy-on-write mark. */
  function Downgrade(e: Pte): Pte {
    if e.writable then Pte(e.frame, false, true) else e
  }

  function Share(m: Mem, s: Slot, t: Slot): (m': Mem)
    requires Fit(m) && s in m.pages
    ensures Fit(m')
  {
    var e := Downgrade(m.pages[s]);
    Retain(m, e.frame).(pages := m.pages[s := e][t := e])
  }

  lemma DowngradeCounted(ref: seq<nat>, owner: map<nat, Owner>, pages: map<Slot, Pte>, s: Slot, e: Pte)
    requires Counted(ref, owner, pages) && s in pages && e.frame == pages[s].frame
    ensures Counted(ref, owner, pages[s := e])
  {
    hide Mappers;
    var pages' := pages[s := e];
    forall f: nat ensures Mappers(pages', f) == Mappers(pages, f) {
      MappersKeep(pages, s, e, f);
    }
  }

  lemma ShareMapped(pages: map<Slot, Pte>, data: map<nat, seq<Byte>>, s: Slot, t: Slot, e: Pte)
    requires Mapped(pages, data) && s in pages && e.frame == pages[s].frame && t !in pages
    ensures Mapped(pages[s := e][t := e], data)
  {
  }

  lemma ShareExclusive(pages: map<Slot, Pte>, s: Slot, t: Slot)
    requires Exclusive(pages) && s in pages && t !in pages && s.dir != t.dir
    requires forall u :: u in pages && u.dir == t.dir ==> pages[u].frame != pages[s].frame
    ensures var e := Downgrade(pages[s]); Exclusive(pages[s := e][t := e])
  {
  }

  /** Sharing gives the other address space the same page and takes nothing from the first; the 16-bit
      count does not wrap. */
  lemma ShareKeeps(m: Mem, s: Slot, t: Slot)
    requires Inv(m) && s in m.pages && t !in m.pages && s.dir != t.dir && t.index == s.index && TableOf(t) in m.tabs
    requires forall u :: u in m.pages && u.dir == t.dir ==> m.pages[u].frame != m.pages[s].frame
    ensures Fit(m)
    ensures var m' := Share(m, s, t);
            && Inv(m') && m'.owner == m.owner && m'.tabs == m.tabs && m'.used == m.used
            && t in m'.pages && PageAt(m', t) == PageAt(m, s) && SameElsewhere(m, m', t)
            && m'.pages[t].frame == m.pages[s].frame
            && (forall u :: u in m.pages ==> m'.pages[u].frame == m.pages[u].frame)
  {
    hide Sized, TablesLinked, Counted, Pooled, Mapped, Exclusive, Mappers, Dirs;
    Lengths(m);
    var f := m.pages[s].frame;
    var e := Downgrade(m.pages[s]);
    DataCount(m, s);
    RefBounded(m, f);
    DowngradeCounted(m.ref, m.owner, m.pages, s, e);
    MapCounted(m.ref, m.owner, m.pages[s := e], t, e);
    ShareMapped(m.pages, m.data, s, t, e);
    ShareExclusive(m.pages, s, t);
    RaiseSized(m, f);
  }

  lemma RaiseSized(m: Mem, f: nat)
    requires Inv(m) && f < |m.ref| && f in m.data
    ensures Sized(m.used, m.ref[f := m.ref[f] + 1], m.owner, m.data)
    ensures Pooled(m.used, m.ref[f := m.ref[f] + 1])
  {
    hide Exclusive, TablesLinked, PagesLinked, Mappers, Dirs;
  }

  // ----- The write fault

  /** Resolving a write fault on s: false when it is not a copy-on-write fault; the only user of the frame
      gets write permission back; otherwise the entry moves to a private copy. */
  function HandleCow(m: Mem, s: Slot): (r: Option<(Mem, bool)>)
    requires Fit(m) && (s in m.pages ==> m.pages[s].frame in m.data)
    ensures r.Some? ==> Fit(r.value.0)
  {
    if s !in m.pages || !m.pages[s].cow then Some((m, false))
    else
      var f := m.pages[s].frame;
      if m.ref[f] == 1 then Some((m.(pages := m.pages[s := Pte(f, true, false)]), true))
      else
        match AllocFrame(m)
        case None => None
        case Some((m1, g)) =>
          var m2 := Release(m1.(data := m1.data[g := m.data[f]]), f);
          Some((m2.(pages := m2.pages[s := Pte(g, true, false)]), true))
  }

  lemma ReclaimExclusive(pages: map<Slot, Pte>, s: Slot)
    requires Exclusive(pages) && s in pages && |Mappers(pages, pages[s].frame)| == 1
    ensures Exclusive(pages[s := Pte(pages[s].frame, true, false)])
  {
    var ms := Mappers(pages, pages[s].frame);
    assert ms - {s} == {} by { assert |ms - {s}| == 0; }
    assert forall t :: t in pages && t != s ==> t !in ms - {s};
  }

  lemma ReclaimMapped(pages: map<Slot, Pte>, data: map<nat, seq<Byte>>, s: Slot, e: Pte)
    requires Mapped(pages, data) && s in pages && e.frame == pages[s].frame
    ensures Mapped(pages[s := e], data)
  {
  }

  lemma ReclaimKeeps(m: Mem, s: Slot)
    requires Inv(m) && s in m.pages && m.pages[s].cow && m.pages[s].frame < |m.ref| && m.ref[m.pages[s].frame] == 1
    ensures var m' := m.(pages := m.pages[s := Pte(m.pages[s].frame, true, false)]);
            Inv(m') && PageAt(m', s) == PageAt(m, s) && SameElsewhere(m, m', s)
  {
    hide Sized, TablesLinked, Counted, Pooled, Mapped, Exclusive, Mappers, Dirs;
    var e := Pte(m.pages[s].frame, true, false);
    DataCount(m, s);
    DowngradeCounted(m.ref, m.owner, m.pages, s, e);
    ReclaimMapped(m.pages, m.data, s, e);
    ReclaimExclusive(m.pages, s);
  }

  /** With other users left, the copy is an unmap followed by mapping the fresh frame. */
  lemma CopyIs(m: Mem, s: Slot, g: nat)
    requires Fit(m) && s in m.pages && m.pages[s].cow && m.pages[s].frame in m.data && m.ref[m.pages[s].frame] != 1
    requires AllocFrame(m).Some? && g == AllocFrame(m).value.1 && g != m.pages[s].frame
    requires (m.ref[m.pages[s].frame] + REF_WRAP - 1) % REF_WRAP != 0
    ensures HandleCow(m, s).Some? && HandleCow(m, s).value.1
    ensures var m1 := Unmap(m, s);
            && m1.used == m.used && m1.data == m.data && m1.pages == m.pages - {s}
            && HandleCow(m, s).value.0 ==
               WithPage(m1.(used := m1.used[g := true], ref := m1.ref[g := 1]), s, Pte(g, true, false),
                 m.data[m.pages[s].frame])
  {
  }

  lemma CopyKeeps(m: Mem, s: Slot, g: nat)
    requires Inv(m) && s in m.pages && m.pages[s].cow && m.pages[s].frame < |m.ref| && m.ref[m.pages[s].frame] != 1
    requires AllocFrame.requires(m) && AllocFrame(m).Some? && g == AllocFrame(m).value.1
    ensures HandleCow.requires(m, s) && HandleCow(m, s).Some?
    ensures var m' := HandleCow(m, s).value.0;
            && Inv(m') && m'.owner == m.owner && m'.tabs == m.tabs
            && s in m'.pages && m'.pages[s].writable && PageAt(m', s) == PageAt(m, s) && SameElsewhere(m, m', s)
  {
    hide Inv, Mappers, Dirs, HandleCow, Unmap;
    var f := m.pages[s].frame;
    Lengths(m);
    DataCount(m, s);
    ReleaseSteps(m, f);
    FreshFrame(m, g);
    CopyIs(m, s, g);
    UnmapKeeps(m, s);
    var m1 := Unmap(m, s);
    Present(m, s);
    MapFresh(m1, s, g, true, m.data[f]);
    Lengths(HandleCow(m, s).value.0);
  }

  lemma Present(m: Mem, s: Slot)
    requires Inv(m) && s in m.pages
    ensures s.index < USER_PAGES && TableOf(s) in m.tabs && m.pages[s].frame in m.data
    ensures |m.data[m.pages[s].frame]| == PAGE
    ensures s.dir in Dirs(m.owner)
  {
  }

  /** A write fault that is handled leaves every address space unchanged and the entry writable, so the
      retried store goes through; one that is not handled changes nothing. */
  lemma HandleCowKeeps(m: Mem, s: Slot)
    requires Inv(m) && HandleCow.requires(m, s) && HandleCow(m, s).Some?
    ensures var (m', ok) := HandleCow(m, s).value;
            && Inv(m') && m'.owner == m.owner && m'.tabs == m.tabs && SameElsewhere(m, m', s)
            && ok == (s in m.pages && m.pages[s].cow)
            && (s in m'.pages <==> s in m.pages)
            && (s in m.pages ==> PageAt(m', s) == PageAt(m, s))
            && (ok ==> m'.pages[s].writable)
            && (!ok ==> m' == m)
  {
    hide Inv, Mappers, Dirs, FirstClear;
    Lengths(m);
    if s in m.pages && m.pages[s].cow {
      DataCount(m, s);
      if m.ref[m.pages[s].frame] == 1 {
        ReclaimKeeps(m, s);
      } else {
        CopyKeeps(m, s, AllocFrame(m).value.1);
      }
    }
  }

  /** A write fault halts exactly if it needs a copy and no frame is free; the only user of a frame keeps it. */
  lemma HandleCowTakes(m: Mem, s: Slot)
    requires Inv(m) && HandleCow.requires(m, s)
    ensures var copies := s in m.pages && m.pages[s].cow && m.ref[m.pages[s].frame] != 1;
            && (HandleCow(m, s).None? <==> copies && FreeFrames(m) == {})
            && (HandleCow(m, s).Some? ==>
                  |FreeFrames(HandleCow(m, s).value.0)| == |FreeFrames(m)| - if copies then 1 else 0)
  {
    hide Inv, FirstClear, FreeFrames, Mappers;
    Lengths(m);
    AllocFrameTakes(m);
    if s in m.pages && m.pages[s].cow {
      DataCount(m, s);
      var f := m.pages[s].frame;
      if m.ref[f] == 1 {
        UsedFree(m, HandleCow(m, s).value.0);
      } else if AllocFrame(m).Some? {
        ReleaseSteps(m, f);
        FreshFrame(m, AllocFrame(m).value.1);
        UsedFree(AllocFrame(m).value.0, HandleCow(m, s).value.0);
      }
    }
  }

  // ----- Storing a byte

  /** What the processor does for a store through a writable entry. */
  function Store(m: Mem, s: Slot, off: nat, b: Byte): (m': Mem)
    requires s in m.pages && m.pages[s].frame in m.data && off < |m.data[m.pages[s].frame]|
  {
    var f := m.pages[s].frame;
    var page: seq<Byte> := m.data[f][off := b];
    m.(data := m.data[f := page])
  }

  /** A store through a writable entry changes one byte of one page of one address space. */
  lemma StoreKeeps(m: Mem, s: Slot, off: nat, b: Byte)
    requires Inv(m) && s in m.pages && m.pages[s].writable && off < PAGE && Store.requires(m, s, off, b)
    ensures var m' := Store(m, s, off, b);
            && Inv(m') && SameElsewhere(m, m', s)
            && PageAt(m', s) == PageAt(m, s).(bytes := PageAt(m, s).bytes[off := b])
  {
    hide Counted, Mappers, Dirs, TablesLinked;
  }

  /** What the kernel does to a page through a mapping of its own. */
  function FillPage(m: Mem, s: Slot, bytes: seq<Byte>): Mem
    requires s in m.pages
  {
    m.(data := m.data[m.pages[s].frame := bytes])
  }

  // ----- Fork

  function ShareEntry(m: Mem, s: Slot, t: Slot): (m': Mem)
    requires Fit(m)
    ensures Fit(m')
  {
    if s in m.pages then Share(m, s, t) else m
  }

  /** The inner loop of forkCOW, from page p to page end of src and dst. */
  function ShareFrom(m: Mem, src: nat, dst: nat, p: nat, end: nat): (m': Mem)
    requires Fit(m) && p <= end
    ensures Fit(m')
    decreases end - p
  {
    if p == end then m else ShareFrom(ShareEntry(m, Slot(src, p), Slot(dst, p)), src, dst, p + 1, end)
  }

  /** The outer loop of forkCOW, from table i on. */
  function ForkTables(m: Mem, src: nat, dst: nat, i: nat): (r: Option<Mem>)
    requires Fit(m) && i <= USER_TABLES
    ensures r.Some? ==> Fit(r.value)
    decreases USER_TABLES - i
  {
    if i == USER_TABLES then Some(m)
    else if Slot(src, i) !in m.tabs then ForkTables(m, src, dst, i + 1)
    else
      match EnsureTable(m, Slot(dst, i))
      case None => None
      case Some(m1) => ForkTables(ShareFrom(m1, src, dst, i * ENTRIES, (i + 1) * ENTRIES), src, dst, i + 1)
  }

  function ForkCow(m: Mem, src: nat): (r: Option<(Mem, nat)>)
    requires Fit(m)
    ensures r.Some? ==> Fit(r.value.0)
  {
    match NewDir(m)
    case None => None
    case Some((m1, dst)) =>
      match ForkTables(m1, src, dst, 0)
      case None => None
      case Some(m2) => Some((m2, dst))
  }

  /** Below page p dst has exactly the pages of src; from p on it has none. */
  ghost predicate Copied(m: Mem, src: nat, dst: nat, p: nat)
    requires Linked(m)
  {
    && (forall q: nat :: Slot(dst, q) in m.pages ==>
          q < p && Slot(src, q) in m.pages && m.pages[Slot(dst, q)].frame == m.pages[Slot(src, q)].frame
          && PageAt(m, Slot(dst, q)) == PageAt(m, Slot(src, q)))
    && (forall q: nat :: Slot(src, q) in m.pages && q < p ==> Slot(dst, q) in m.pages)
  }

  /** Outside directory d nothing that is seen changes. */
  ghost predicate SameOutside(m: Mem, m': Mem, d: nat)
    requires Linked(m) && Linked(m')
  {
    forall t: Slot {:trigger t in m.pages} {:trigger t in m'.pages} ::
      t.dir != d ==> (t in m'.pages <==> t in m.pages) && (t in m.pages ==> PageAt(m', t) == PageAt(m, t))
  }

  lemma ShareEntryKeeps(m: Mem, src: nat, dst: nat, p: nat)
    requires Inv(m) && src != dst && p < USER_PAGES && Slot(dst, p / ENTRIES) in m.tabs && Copied(m, src, dst, p)
    ensures Fit(m)
    ensures var m' := ShareEntry(m, Slot(src, p), Slot(dst, p));
            && Inv(m') && m'.owner == m.owner && m'.tabs == m.tabs && m'.used == m.used
            && SameOutside(m, m', dst) && Copied(m', src, dst, p + 1)
  {
    hide Inv, Dirs, Mappers, Share, SameElsewhere, PageAt;
    Lengths(m);
    var s, t := Slot(src, p), Slot(dst, p);
    if s in m.pages {
      forall u | u in m.pages && u.dir == dst ensures m.pages[u].frame != m.pages[s].frame {
        assert u == Slot(dst, u.index);
        OncePerDirectory(m, Slot(src, u.index), s);
      }
      ShareKeeps(m, s, t);
      var m' := Share(m, s, t);
      Lengths(m');
      ElsewhereOutside(m, m', t);
      ShareCopied(m, m', src, dst, p);
    } else {
      assert Copied(m, src, dst, p + 1);
    }
  }

  lemma ElsewhereOutside(m: Mem, m': Mem, t: Slot)
    requires Linked(m) && Linked(m') && SameElsewhere(m, m', t)
    ensures SameOutside(m, m', t.dir)
  {
  }

  lemma ShareCopied(m: Mem, m': Mem, src: nat, dst: nat, p: nat)
    requires Linked(m) && Linked(m') && src != dst && Copied(m, src, dst, p) && Slot(src, p) in m.pages
    requires SameElsewhere(m, m', Slot(dst, p)) && Slot(dst, p) in m'.pages
    requires PageAt(m', Slot(dst, p)) == PageAt(m, Slot(src, p))
    requires m'.pages[Slot(dst, p)].frame == m.pages[Slot(src, p)].frame
    requires forall u :: u in m.pages && u in m'.pages ==> m'.pages[u].frame == m.pages[u].frame
    ensures Copied(m', src, dst, p + 1)
  {
    hide PageAt;
  }

  lemma OncePerDirectory(m: Mem, s: Slot, t: Slot)
    requires Inv(m) && s in m.pages && t in m.pages && s.dir == t.dir && s != t
    ensures m.pages[s].frame != m.pages[t].frame
  {
  }

  lemma {:induction false} ShareFromKeeps(m: Mem, src: nat, dst: nat, p: nat, end: nat)
    requires Inv(m) && Fit(m) && src != dst && p <= end <= USER_PAGES && Copied(m, src, dst, p)
    requires forall q :: p <= q < end ==> Slot(dst, q / ENTRIES) in m.tabs
    ensures var m' := ShareFrom(m, src, dst, p, end);
            && Inv(m') && m'.owner == m.owner && m'.tabs == m.tabs && m'.used == m.used
            && SameOutside(m, m', dst) && Copied(m', src, dst, end)
    decreases end - p
  {
    hide Inv, ShareEntry, Copied;
    if p < end {
      ShareEntryKeeps(m, src, dst, p);
      ShareFromKeeps(ShareEntry(m, Slot(src, p), Slot(dst, p)), src, dst, p + 1, end);
    }
  }

  lemma {:induction false} ForkTablesKeeps(m: Mem, src: nat, dst: nat, i: nat)
    requires Inv(m) && Fit(m) && src != dst && i <= USER_TABLES && dst in Dirs(m.owner)
    requires Copied(m, src, dst, i * ENTRIES) && ForkTables(m, src, dst, i).Some?
    ensures var m' := ForkTables(m, src, dst, i).value;
            && Inv(m') && Dirs(m'.owner) == Dirs(m.owner)
            && SameOutside(m, m', dst) && Copied(m', src, dst, USER_PAGES)
    decreases USER_TABLES - i
  {
    hide Inv, EnsureTable, ShareFrom, Dirs, Copied;
    if i < USER_TABLES {
      if Slot(src, i) !in m.tabs {
        NoTableNoPages(m, src, dst, i);
        ForkTablesKeeps(m, src, dst, i + 1);
      } else {
        EnsureTableKeeps(m, Slot(dst, i));
        var m1 := EnsureTable(m, Slot(dst, i)).value;
        CopiedKept(m, m1, src, dst, i * ENTRIES);
        forall q | i * ENTRIES <= q < (i + 1) * ENTRIES ensures q / ENTRIES == i { }
        ShareFromKeeps(m1, src, dst, i * ENTRIES, (i + 1) * ENTRIES);
        ForkTablesKeeps(ShareFrom(m1, src, dst, i * ENTRIES, (i + 1) * ENTRIES), src, dst, i + 1);
      }
    }
  }

  lemma CopiedKept(m: Mem, m': Mem, src: nat, dst: nat, p: nat)
    requires Inv(m) && Inv(m') && m'.pages == m.pages && m'.data == m.data && Copied(m, src, dst, p)
    ensures Copied(m', src, dst, p)
  {
    hide Sized, TablesLinked, Counted, Pooled, Mapped, Exclusive, Dirs;
    assert forall s: Slot :: s in m.pages ==> PageAt(m', s) == PageAt(m, s);
  }

  lemma NoTableNoPages(m: Mem, src: nat, dst: nat, i: nat)
    requires Inv(m) && Slot(src, i) !in m.tabs && Copied(m, src, dst, i * ENTRIES)
    ensures Copied(m, src, dst, (i + 1) * ENTRIES)
  {
    hide Counted, Mappers, Exclusive, Sized, TablesLinked, Mapped, Pooled, Dirs;
    forall q: nat | Slot(src, q) in m.pages && q < (i + 1) * ENTRIES ensures q < i * ENTRIES {
      assert TableOf(Slot(src, q)) in m.tabs;
    }
  }

  /** Fork deep-copies as far as anyone can see: the new address space holds exactly the parent's pages,
      and no existing address space changes, the parent's included. */
  lemma ForkCopies(m: Mem, src: nat)
    requires Inv(m) && Fit(m) && src in Dirs(m.owner) && |Dirs(m.owner)| < MAX_DIRS && ForkCow(m, src).Some?
    ensures var (m', dst) := ForkCow(m, src).value;
            && Inv(m') && dst !in m.owner && Dirs(m'.owner) == Dirs(m.owner) + {dst}
            && View(m', dst) == View(m, src)
            && forall d :: d in Dirs(m.owner) ==> View(m', d) == View(m, d)
  {
    hide Inv, NewDir, ForkTables, Dirs, View, Copied, SameOutside, PagesLinked;
    NewDirKeeps(m);
    var (m1, dst) := NewDir(m).value;
    assert src != dst by { DirsOwned(m.owner, src); }
    NewDirEmpty(m, m1, src, dst);
    ForkTablesKeeps(m1, src, dst, 0);
    var m' := ForkTables(m1, src, dst, 0).value;
    Lengths(m);
    Lengths(m1);
    Lengths(m');
    ViewCopied(m1, m', src, dst);
    forall d | d in Dirs(m.owner) ensures View(m', d) == View(m, d) {
      DirsOwned(m.owner, d);
      ViewOutside(m1, m', dst, d);
    }
  }

  // Which forks come back.

  /** The tables of directory d from table i on. */
  ghost function TablesOf(tabs: map<Slot, nat>, d: nat, i: nat): set<nat> {
    set j: nat | i <= j < USER_TABLES && Slot(d, j) in tabs
  }

  lemma {:induction false} ShareFromSame(m: Mem, src: nat, dst: nat, p: nat, end: nat)
    requires Fit(m) && p <= end
    ensures var m' := ShareFrom(m, src, dst, p, end); m'.used == m.used && m'.tabs == m.tabs
    decreases end - p
  {
    if p < end {
      ShareFromSame(ShareEntry(m, Slot(src, p), Slot(dst, p)), src, dst, p + 1, end);
    }
  }

  /** Each table of src takes one frame for its copy; shared pages take none. */
  lemma {:induction false} ForkTablesTakes(m: Mem, src: nat, dst: nat, i: nat)
    requires Fit(m) && src != dst && i <= USER_TABLES && TablesOf(m.tabs, dst, i) == {}
    ensures var n := |TablesOf(m.tabs, src, i)|;
            && (ForkTables(m, src, dst, i).Some? <==> n <= |FreeFrames(m)|)
            && (ForkTables(m, src, dst, i).Some? ==>
                  |FreeFrames(ForkTables(m, src, dst, i).value)| == |FreeFrames(m)| - n)
    decreases USER_TABLES - i
  {
    hide FreeFrames, EnsureTable, ShareFrom, Fit;
    if i < USER_TABLES {
      TablesStep(m.tabs, src, i);
      TablesStep(m.tabs, dst, i);
      if Slot(src, i) !in m.tabs {
        ForkTablesTakes(m, src, dst, i + 1);
      } else {
        EnsureTableTakes(m, Slot(dst, i));
        if EnsureTable(m, Slot(dst, i)).Some? {
          var m1 := EnsureTable(m, Slot(dst, i)).value;
          ShareFromSame(m1, src, dst, i * ENTRIES, (i + 1) * ENTRIES);
          var m2 := ShareFrom(m1, src, dst, i * ENTRIES, (i + 1) * ENTRIES);
          UsedFree(m1, m2);
          TablesKept(m.tabs, m2.tabs, Slot(dst, i), src, i + 1);
          TablesKept(m.tabs, m2.tabs, Slot(dst, i), dst, i + 1);
          ForkTablesTakes(m2, src, dst, i + 1);
        }
      }
    } else {
      assert TablesOf(m.tabs, src, i) == {};
    }
  }

  lemma TablesStep(tabs: map<Slot, nat>, d: nat, i: nat)
    requires i < USER_TABLES
    ensures TablesOf(tabs, d, i + 1) == TablesOf(tabs, d, i) - {i}
    ensures i in TablesOf(tabs, d, i) <==> Slot(d, i) in tabs
    ensures |TablesOf(tabs, d, i)| == |TablesOf(tabs, d, i + 1)| + if Slot(d, i) in tabs then 1 else 0
  {
    assert TablesOf(tabs, d, i + 1) == TablesOf(tabs, d, i) - {i};
  }

  lemma TablesKept(tabs: map<Slot, nat>, tabs': map<Slot, nat>, t: Slot, d: nat, i: nat)
    requires tabs'.Keys == tabs.Keys + {t} && (t.dir != d || t.index < i)
    ensures TablesOf(tabs', d, i) == TablesOf(tabs, d, i)
  {
    assert forall j: nat :: i <= j ==> (Slot(d, j) in tabs' <==> Slot(d, j) in tabs);
  }

  /** A fork takes one frame for the directory and one for each table of the parent, and comes back exactly when there
      are that many. */
  lemma ForkTakes(m: Mem, src: nat)
    requires Inv(m) && Fit(m) && src in Dirs(m.owner)
    ensures var n := 1 + |TablesOf(m.tabs, src, 0)|;
            && (ForkCow(m, src).Some? <==> n <= |FreeFrames(m)|)
            && (ForkCow(m, src).Some? ==> |FreeFrames(ForkCow(m, src).value.0)| == |FreeFrames(m)| - n)
  {
    hide Inv, FreeFrames, ForkTables, Fit, TablesOf, FirstClear;
    NewDirTakes(m);
    if NewDir(m).Some? {
      var (m1, dst) := NewDir(m).value;
      NoTablesYet(m, dst);
      DirsOwned(m.owner, src);
      ForkTablesTakes(m1, src, dst, 0);
    }
  }

  lemma NewDirTakes(m: Mem)
    requires Fit(m)
    ensures NewDir(m).Some? <==> 1 <= |FreeFrames(m)|
    ensures NewDir(m).Some? ==>
              var (m', d) := NewDir(m).value;
              |FreeFrames(m')| == |FreeFrames(m)| - 1 && d in FreeFrames(m) && m'.tabs == m.tabs
  {
    hide FirstClear, FreeFrames;
    AllocFrameTakes(m);
    if NewDir(m).Some? {
      UsedFree(NewDir(m).value.0, AllocFrame(m).value.0);
    }
  }

  lemma NoTablesYet(m: Mem, f: nat)
    requires Inv(m) && f in FreeFrames(m)
    ensures f !in m.owner && TablesOf(m.tabs, f, 0) == {}
  {
    hide Counted, PagesLinked, Mapped, Exclusive, Mappers, Dirs;
    FreshFrame(m, f);
    assert forall j: nat :: Slot(f, j) !in m.tabs;
  }

  lemma DirsOwned(owner: map<nat, Owner>, d: nat)
    requires d in Dirs(owner)
    ensures d in owner
  {
  }

  lemma NewDirEmpty(m: Mem, m1: Mem, src: nat, dst: nat)
    requires Inv(m) && Inv(m1) && m1.pages == m.pages && m1.data == m.data && dst !in m.owner
    ensures Copied(m1, src, dst, 0)
    ensures forall d :: View(m1, d) == View(m, d)
  {
    hide Counted, Mappers, Exclusive, Mapped, Pooled, Dirs;
    forall q: nat ensures Slot(dst, q) !in m.pages {
      assert Slot(dst, q) in m.pages ==> TableOf(Slot(dst, q)) in m.tabs;
    }
  }

  lemma ViewCopied(m1: Mem, m': Mem, src: nat, dst: nat)
    requires Linked(m1) && Linked(m')
    requires src != dst && SameOutside(m1, m', dst) && Copied(m', src, dst, USER_PAGES)
    ensures View(m', dst) == View(m1, src)
  {
  }

  lemma ViewOutside(m: Mem, m': Mem, dst: nat, d: nat)
    requires Linked(m) && Linked(m')
    requires d != dst && SameOutside(m, m', dst)
    ensures View(m', d) == View(m, d)
  {
  }

  // ----- Releasing a range and tearing an address space down

  /** __release_range (and the dangling-page loop of a table): frees pages p to end of directory d. */
  function FreeFrom(m: Mem, d: nat, p: nat, end: nat): (m': Mem)
    requires Fit(m) && p <= end
    ensures Fit(m')
    decreases end - p
  {
    if p == end then m else FreeFrom(FreePage(m, Slot(d, p)), d, p + 1, end)
  }

  /** Everything survives except the pages p to end of d. */
  ghost predicate Without(m: Mem, m': Mem, d: nat, p: nat, end: nat)
    requires Linked(m) && Linked(m')
  {
    forall t: Slot {:trigger t in m.pages} {:trigger t in m'.pages} ::
      && (t in m'.pages <==> t in m.pages && !(t.dir == d && p <= t.index < end))
      && (t in m'.pages ==> PageAt(m', t) == PageAt(m, t) && m'.pages[t] == m.pages[t])
  }

  lemma FreePageKeeps(m: Mem, s: Slot)
    requires Inv(m) && Fit(m)
    ensures var m' := FreePage(m, s);
            Inv(m') && m'.owner == m.owner && m'.tabs == m.tabs && Without(m, m', s.dir, s.index, s.index + 1)
  {
    hide Inv;
    Lengths(m);
    if s in m.pages {
      UnmapKeeps(m, s);
      Lengths(Unmap(m, s));
    }
    forall t: Slot ensures (t.dir == s.dir && s.index <= t.index < s.index + 1) <==> t == s { }
  }

  lemma {:induction false} FreeFromKeeps(m: Mem, d: nat, p: nat, end: nat)
    requires Inv(m) && Fit(m) && p <= end
    ensures var m' := FreeFrom(m, d, p, end);
            Inv(m') && m'.owner == m.owner && m'.tabs == m.tabs && Without(m, m', d, p, end)
    decreases end - p
  {
    hide Inv, FreePage, PagesLinked;
    Lengths(m);
    if p < end {
      var m1 := FreePage(m, Slot(d, p));
      FreePageKeeps(m, Slot(d, p));
      FreeFromKeeps(m1, d, p + 1, end);
      Lengths(m1);
      Lengths(FreeFrom(m, d, p, end));
    }
  }

  /** Gives back the frame of a table or directory. */
  function DropOwned(m: Mem, f: nat): (m': Mem)
    requires Fit(m) && f < |m.ref|
    ensures Fit(m')
  {
    Release(m, f).(owner := m.owner - {f})
  }

  function DropTable(m: Mem, t: Slot): (m': Mem)
    requires Fit(m) && t in m.tabs && m.tabs[t] < |m.ref|
    ensures Fit(m')
  {
    DropOwned(m, m.tabs[t]).(tabs := m.tabs - {t})
  }

  ghost predicate TablesFit(m: Mem) {
    forall t :: t in m.tabs ==> m.tabs[t] < |m.ref|
  }

  /** freePageTables from table i on: dangling pages, then the table itself. */
  function FreeTables(m: Mem, d: nat, i: nat): (m': Mem)
    requires Fit(m) && TablesFit(m) && i <= USER_TABLES
    ensures Fit(m')
    decreases USER_TABLES - i
  {
    if i == USER_TABLES then m
    else if Slot(d, i) in m.tabs then
      var m1 := FreeFrom(m, d, i * ENTRIES, (i + 1) * ENTRIES);
      FreeFromTables(m, d, i * ENTRIES, (i + 1) * ENTRIES);
      FreeTables(DropTable(m1, Slot(d, i)), d, i + 1)
    else FreeTables(m, d, i + 1)
  }

  lemma {:induction false} FreeFromTables(m: Mem, d: nat, p: nat, end: nat)
    requires Fit(m) && p <= end
    ensures var m' := FreeFrom(m, d, p, end); m'.tabs == m.tabs && |m'.ref| == |m.ref|
    decreases end - p
  {
    if p < end {
      FreeFromTables(FreePage(m, Slot(d, p)), d, p + 1, end);
    }
  }

  lemma OwnedSteps(m: Mem, f: nat)
    requires Inv(m) && f in m.owner
    ensures f < |m.ref| && f !in m.data && m.ref[f] == 1 && Mappers(m.pages, f) == {}
  {
  }

  lemma DropOwnedCounted(ref: seq<nat>, owner: map<nat, Owner>, pages: map<Slot, Pte>, f: nat)
    requires Counted(ref, owner, pages) && f < |ref| && f in owner && ref[f] == 1
    ensures Counted(ref[f := 0], owner - {f}, pages)
  {
    hide Mappers;
  }

  /** Dropping an empty table keeps everything but the table. */
  lemma DropTableKeeps(m: Mem, t: Slot)
    requires Inv(m) && t in m.tabs && forall s :: s in m.pages ==> TableOf(s) != t
    ensures Fit(m) && m.tabs[t] < |m.ref|
    ensures var m' := DropTable(m, t);
            && Inv(m') && m'.tabs == m.tabs - {t} && m'.pages == m.pages && m'.data == m.data
            && m.tabs[t] in m.owner && m.owner[m.tabs[t]] == Table(t) && m'.owner == m.owner - {m.tabs[t]}
            && Dirs(m'.owner) == Dirs(m.owner)
  {
    hide Sized, Counted, Pooled, Mapped, Exclusive, Mappers;
    Lengths(m);
    var f := m.tabs[t];
    OwnedSteps(m, f);
    ReleaseSteps(m, f);
    DropOwnedCounted(m.ref, m.owner, m.pages, f);
    DropSized(m, f);
    assert m.data - {f} == m.data;
    assert Dirs(m.owner - {f}) == Dirs(m.owner);
  }

  /** Directory d has no pages and no tables below table i. */
  ghost predicate Cleared(m: Mem, d: nat, i: nat) {
    && (forall s :: s in m.tabs && s.dir == d ==> i <= s.index)
    && (forall s :: s in m.pages && s.dir == d ==> i <= s.index / ENTRIES)
  }

  /** What is owned after the tables of d are gone. */
  ghost predicate TablesGone(m: Mem, m': Mem, d: nat, i: nat) {
    forall f ::
      && (f in m'.owner <==>
            f in m.owner && !(m.owner[f].Table? && m.owner[f].slot.dir == d && i <= m.owner[f].slot.index))
      && (f in m'.owner ==> m'.owner[f] == m.owner[f])
  }

  ghost predicate OthersKept(m: Mem, m': Mem, d: nat)
    requires Linked(m) && Linked(m')
  {
    forall t: Slot {:trigger t in m.pages} {:trigger t in m'.pages} :: t.dir != d ==>
      && (t in m'.pages <==> t in m.pages)
      && (t in m'.pages ==> PageAt(m', t) == PageAt(m, t) && m'.pages[t] == m.pages[t])
  }

  lemma FreeTableKeeps(m: Mem, d: nat, i: nat)
    requires Inv(m) && Fit(m) && i < USER_TABLES && Slot(d, i) in m.tabs && Cleared(m, d, i)
    ensures TablesFit(m)
    ensures var m1 := FreeFrom(m, d, i * ENTRIES, (i + 1) * ENTRIES);
            && m1.tabs == m.tabs && |m1.ref| == |m.ref|
            && var m' := DropTable(m1, Slot(d, i));
            && Inv(m') && Cleared(m', d, i + 1) && OthersKept(m, m', d)
            && m'.tabs == m.tabs - {Slot(d, i)} && m'.owner == m.owner - {m.tabs[Slot(d, i)]}
            && m.tabs[Slot(d, i)] in m.owner && m.owner[m.tabs[Slot(d, i)]] == Table(Slot(d, i))
            && Dirs(m'.owner) == Dirs(m.owner)
  {
    hide Inv, Dirs, FreeFrom, DropTable;
    var m1 := FreeFrom(m, d, i * ENTRIES, (i + 1) * ENTRIES);
    TablesInRange(m);
    FreeFromTables(m, d, i * ENTRIES, (i + 1) * ENTRIES);
    FreeFromKeeps(m, d, i * ENTRIES, (i + 1) * ENTRIES);
    Lengths(m);
    Lengths(m1);
    forall s | s in m1.pages ensures TableOf(s) != Slot(d, i) {
      assert s in m.pages;
    }
    DropTableKeeps(m1, Slot(d, i));
    Lengths(DropTable(m1, Slot(d, i)));
  }

  lemma TablesInRange(m: Mem)
    requires Inv(m)
    ensures TablesFit(m)
  {
  }

  lemma {:induction false} FreeTablesKeeps(m: Mem, d: nat, i: nat)
    requires Inv(m) && Fit(m) && TablesFit(m) && i <= USER_TABLES && Cleared(m, d, i)
    ensures var m' := FreeTables(m, d, i);
            && Inv(m') && Cleared(m', d, USER_TABLES) && OthersKept(m, m', d) && TablesGone(m, m', d, i)
            && Dirs(m'.owner) == Dirs(m.owner)
    decreases USER_TABLES - i
  {
    hide Inv, Dirs, FreeFrom, DropTable, PagesLinked, OthersKept, TablesGone;
    Lengths(m);
    if i < USER_TABLES {
      if Slot(d, i) in m.tabs {
        FreeTableKeeps(m, d, i);
        var m1 := DropTable(FreeFrom(m, d, i * ENTRIES, (i + 1) * ENTRIES), Slot(d, i));
        TablesInRange(m1);
        Lengths(m1);
        FreeTablesKeeps(m1, d, i + 1);
        var m' := FreeTables(m1, d, i + 1);
        Lengths(m');
        TableOwner(m, Slot(d, i));
        OthersKeptOn(m, m1, m', d);
        TablesGoneOn(m, m1, m', d, i);
      } else {
        ClearedSkip(m, d, i);
        FreeTablesKeeps(m, d, i + 1);
        Lengths(FreeTables(m, d, i + 1));
        TablesGoneSkip(m, FreeTables(m, d, i + 1), d, i);
      }
    } else {
      TablesGoneAtEnd(m, d);
      OthersKeptSelf(m, d);
    }
  }

  lemma OthersKeptSelf(m: Mem, d: nat)
    requires Linked(m)
    ensures OthersKept(m, m, d)
  {
  }

  lemma TablesGoneOn(m: Mem, m1: Mem, m': Mem, d: nat, i: nat)
    requires Slot(d, i) in m.tabs && m1.owner == m.owner - {m.tabs[Slot(d, i)]} && TablesGone(m1, m', d, i + 1)
    requires forall f :: f in m.owner && m.owner[f] == Table(Slot(d, i)) <==> f == m.tabs[Slot(d, i)]
    ensures TablesGone(m, m', d, i)
  {
  }

  lemma TablesGoneSkip(m: Mem, m': Mem, d: nat, i: nat)
    requires Inv(m) && Slot(d, i) !in m.tabs && TablesGone(m, m', d, i + 1)
    ensures TablesGone(m, m', d, i)
  {
    hide Sized, PagesLinked, Counted, Pooled, Mapped, Exclusive, Dirs;
  }

  lemma OthersKeptOn(m: Mem, m1: Mem, m': Mem, d: nat)
    requires Linked(m) && Linked(m1) && Linked(m') && OthersKept(m, m1, d) && OthersKept(m1, m', d)
    ensures OthersKept(m, m', d)
  {
  }

  lemma TableOwner(m: Mem, t: Slot)
    requires Inv(m) && t in m.tabs
    ensures forall f :: f in m.owner && m.owner[f] == Table(t) <==> f == m.tabs[t]
  {
    hide Counted, Mappers, Exclusive, Mapped, Pooled, Dirs, PagesLinked;
  }

  lemma ClearedSkip(m: Mem, d: nat, i: nat)
    requires Inv(m) && Slot(d, i) !in m.tabs && Cleared(m, d, i)
    ensures Cleared(m, d, i + 1)
    ensures forall f :: f in m.owner ==> m.owner[f] != Table(Slot(d, i))
  {
  }

  lemma TablesGoneAtEnd(m: Mem, d: nat)
    requires Inv(m)
    ensures TablesGone(m, m, d, USER_TABLES)
  {
    hide Counted, Mappers, Exclusive, Mapped, Pooled, Dirs, PagesLinked;
  }

  /** Releasing an address space: its tables with whatever they still map, then the directory. */
  function Destroy(m: Mem, d: nat): (m': Mem)
    requires Fit(m) && TablesFit(m) && d < |FreeTables(m, d, 0).ref|
    ensures Fit(m')
  {
    DropOwned(FreeTables(m, d, 0), d)
  }

  /** Frames held for directory d alone: itself and its tables. */
  ghost predicate OwnedBy(m: Mem, d: nat, f: nat) {
    f in m.owner && (f == d || (m.owner[f].Table? && m.owner[f].slot.dir == d))
  }

  lemma DestroyKeeps(m: Mem, d: nat)
    requires Inv(m) && d in Dirs(m.owner)
    ensures Destroy.requires(m, d)
    ensures var m' := Destroy(m, d);
            && Inv(m') && Dirs(m'.owner) == Dirs(m.owner) - {d}
            && OthersKept(m, m', d) && (forall s :: s in m'.pages ==> s.dir != d)
            && (forall f :: f in m'.owner <==> f in m.owner && !OwnedBy(m, d, f))
  {
    hide Inv, Dirs, FreeTables, PagesLinked;
    Lengths(m);
    TablesInRange(m);
    FreeTablesKeeps(m, d, 0);
    var m1 := FreeTables(m, d, 0);
    Lengths(m1);
    DropDirectoryKeeps(m1, d);
    Lengths(Destroy(m, d));
    DirectoryOwner(m, d);
  }

  lemma DirectoryOwner(m: Mem, d: nat)
    requires d in Dirs(m.owner)
    ensures d in m.owner && m.owner[d] == Directory
  {
  }

  lemma DropDirectoryKeeps(m: Mem, d: nat)
    requires Inv(m) && d in Dirs(m.owner) && Cleared(m, d, USER_TABLES)
    ensures Fit(m) && d < |m.ref|
    ensures var m' := DropOwned(m, d);
            && Inv(m') && m'.pages == m.pages && m'.data == m.data && m'.tabs == m.tabs && m'.owner == m.owner - {d}
            && Dirs(m'.owner) == Dirs(m.owner) - {d}
            && (forall s :: s in m.pages ==> s.dir != d)
  {
    hide Sized, Counted, Pooled, Mapped, Exclusive, Mappers;
    Lengths(m);
    OwnedSteps(m, d);
    ReleaseSteps(m, d);
    DropOwnedCounted(m.ref, m.owner, m.pages, d);
    DropSized(m, d);
    assert m.data - {d} == m.data;
    assert Dirs(m.owner - {d}) == Dirs(m.owner) - {d};
    forall s | s in m.pages ensures s.dir != d {
      assert s.index / ENTRIES < USER_TABLES;
    }
  }

  // ----- Frames of the kernel itself

  /** A frame for the kernel's own use: frameAlloc and its relatives. */
  function KernelTake(m: Mem): (r: Option<(Mem, nat)>)
    requires Fit(m)
    ensures r.Some? ==> Fit(r.value.0)
  {
    match AllocFrame(m)
    case None => None
    case Some((m', f)) => Some((m'.(owner := m'.owner[f := KernelFrame]), f))
  }

  lemma KernelTakeTakes(m: Mem)
    requires Fit(m)
    ensures KernelTake(m).Some? <==> 1 <= |FreeFrames(m)|
    ensures KernelTake(m).Some? ==> |FreeFrames(KernelTake(m).value.0)| == |FreeFrames(m)| - 1
  {
    hide FirstClear, FreeFrames;
    AllocFrameTakes(m);
    if KernelTake(m).Some? {
      UsedFree(KernelTake(m).value.0, AllocFrame(m).value.0);
    }
  }

  lemma KernelTakeKeeps(m: Mem)
    requires Inv(m) && Fit(m) && KernelTake(m).Some?
    ensures var (m', f) := KernelTake(m).value;
            && Inv(m') && Dirs(m'.owner) == Dirs(m.owner) && f !in m.owner && m'.owner == m.owner[f := KernelFrame]
            && m'.tabs == m.tabs && m'.pages == m.pages && m'.data == m.data
  {
    hide Sized, Counted, Pooled, Mapped, PagesLinked, Exclusive, Mappers, Dirs, FirstClear;
    Lengths(m);
    var f := KernelTake(m).value.1;
    FreshFrame(m, f);
    TakeSized(m, f, KernelFrame);
    TakeDirs(m.owner, f, KernelFrame);
  }

  lemma KernelGiveKeeps(m: Mem, f: nat)
    requires Inv(m) && f in m.owner && m.owner[f] == KernelFrame
    ensures Fit(m) && f < |m.ref|
    ensures var m' := DropOwned(m, f);
            && Inv(m') && Dirs(m'.owner) == Dirs(m.owner) && m'.owner == m.owner - {f}
            && m'.tabs == m.tabs && m'.pages == m.pages && m'.data == m.data
  {
    hide Sized, Counted, Pooled, Mapped, Exclusive, Mappers;
    Lengths(m);
    OwnedSteps(m, f);
    ReleaseSteps(m, f);
    DropOwnedCounted(m.ref, m.owner, m.pages, f);
    DropSized(m, f);
    assert m.data - {f} == m.data;
    assert Dirs(m.owner - {f}) == Dirs(m.owner);
  }

  // ----- Conservation of frames

  /** d's own entries on frame f. */
  ghost function MappersIn(m: Mem, d: nat, f: nat): set<Slot> {
    set s | s in Mappers(m.pages, f) && s.dir == d
  }

  /** Nobody but d holds f. */
  ghost predicate HeldOnlyBy(m: Mem, d: nat, f: nat) {
    OwnedBy(m, d, f) || (f !in m.owner && Mappers(m.pages, f) != {} && MappersIn(m, d, f) == Mappers(m.pages, f))
  }

  /** m' is m without anything that belongs to directory d. */
  ghost predicate Removed(m: Mem, m': Mem, d: nat) {
    && |m'.ref| == |m.ref|
    && (forall t :: t in m'.pages <==> t in m.pages && t.dir != d)
    && (forall t :: t in m'.pages ==> m'.pages[t] == m.pages[t])
    && (forall f :: f in m'.owner <==> f in m.owner && !OwnedBy(m, d, f))
  }

  /** Between two consistent states, removing an address space drops exactly its own references on every
      frame and returns to the pool exactly the frames that nobody else holds. */
  lemma RemovalConserves(m: Mem, m': Mem, d: nat, f: nat)
    requires Inv(m) && Inv(m') && Removed(m, m', d) && f < |m.ref|
    ensures |m'.used| == |m.used| == |m.ref|
    ensures m.ref[f] == m'.ref[f] + |MappersIn(m, d, f)| + (if OwnedBy(m, d, f) then 1 else 0)
    ensures m.used[f] && !m'.used[f] <==> HeldOnlyBy(m, d, f)
    ensures m'.used[f] ==> m.used[f]
  {
    hide Inv;
    Lengths(m);
    Lengths(m');
    assert Mappers(m'.pages, f) == Mappers(m.pages, f) - MappersIn(m, d, f);
    FrameCount(m, f);
    FrameCount(m', f);
    SetEmptied(Mappers(m.pages, f), MappersIn(m, d, f));
    if f in m.owner {
      OwnedSteps(m, f);
    }
  }

  lemma SoleMapper(m: Mem, s: Slot)
    requires Inv(m) && s in m.pages && m.pages[s].writable
    ensures Mappers(m.pages, m.pages[s].frame) == {s}
  {
    hide Counted, Pooled, Sized, TablesLinked, PagesLinked, Mapped, Dirs;
  }

  lemma SetEmptied(a: set<Slot>, b: set<Slot>)
    requires b <= a
    ensures |a - b| == |a| - |b| && (a - b == {} <==> a == b) && (a == {} <==> |a| == 0)
            && (a - b == {} <==> |a - b| == 0)
  {
  }

  lemma FrameCount(m: Mem, f: nat)
    requires Inv(m) && f < |m.ref|
    ensures m.ref[f] == |Mappers(m.pages, f)| + if f in m.owner then 1 else 0
    ensures f < |m.used| && (m.used[f] <==> m.ref[f] > 0)
  {
    hide Exclusive, TablesLinked, PagesLinked, Mapped, Mappers, Dirs;
  }

  lemma DestroyLength(m: Mem, d: nat)
    requires Destroy.requires(m, d)
    ensures |Destroy(m, d).ref| == |m.ref|
  {
    FreeTablesLength(m, d, 0);
  }

  lemma {:induction false} FreeTablesLength(m: Mem, d: nat, i: nat)
    requires Fit(m) && TablesFit(m) && i <= USER_TABLES
    ensures |FreeTables(m, d, i).ref| == |m.ref|
    decreases USER_TABLES - i
  {
    hide FreeFrom;
    if i < USER_TABLES {
      if Slot(d, i) in m.tabs {
        FreeFromTables(m, d, i * ENTRIES, (i + 1) * ENTRIES);
        FreeTablesLength(DropTable(FreeFrom(m, d, i * ENTRIES, (i + 1) * ENTRIES), Slot(d, i)), d, i + 1);
      } else {
        FreeTablesLength(m, d, i + 1);
      }
    }
  }

  // ----- The operations as an address space sees them

  lemma ViewAt(m: Mem, d: nat, p: nat)
    requires Linked(m)
    ensures p in View(m, d) <==> Slot(d, p) in m.pages
    ensures p in View(m, d) ==> View(m, d)[p] == PageAt(m, Slot(d, p))
  {
  }

  lemma ViewIs(m: Mem, d: nat, v: map<nat, PageView>)
    requires Linked(m)
    requires forall p: nat :: p in v <==> Slot(d, p) in m.pages
    requires forall p: nat :: p in v ==> v[p] == PageAt(m, Slot(d, p))
    ensures View(m, d) == v
  {
  }

  /** A view without pages p to end. */
  ghost function Cut(v: map<nat, PageView>, p: nat, end: nat): map<nat, PageView> {
    map q | q in v && !(p <= q < end) :: v[q]
  }

  ghost predicate ViewKept(m: Mem, m': Mem, d: nat)
    requires Linked(m) && Linked(m')
  {
    View(m', d) == View(m, d)
  }

  lemma ViewAllocPage(m: Mem, s: Slot, writable: bool)
    requires Inv(m) && s.dir in Dirs(m.owner) && s.index < USER_PAGES && s !in m.pages && Fit(m)
    requires AllocPage(m, s, writable).Some?
    ensures var m' := AllocPage(m, s, writable).value;
            && Linked(m) && Inv(m') && Linked(m') && Dirs(m'.owner) == Dirs(m.owner)
            && View(m', s.dir) == View(m, s.dir)[s.index := PageView(Zeros(), writable)]
            && forall d :: d != s.dir ==> ViewKept(m, m', d)
  {
    hide Inv, Dirs, AllocPage, View, Held;
    InvHeld(m);
    AllocPageKeeps(m, s, writable);
    Lengths(m);
    Lengths(AllocPage(m, s, writable).value);
    ViewHeldPage(m, s, writable);
  }

  /** The same where the page may be present already. */
  lemma ViewHeldPage(m: Mem, s: Slot, writable: bool)
    requires Held(m) && Fit(m) && s.dir in Dirs(m.owner) && s.index < USER_PAGES && AllocPage(m, s, writable).Some?
    ensures var m' := AllocPage(m, s, writable).value;
            && Linked(m) && Held(m') && Linked(m') && Dirs(m'.owner) == Dirs(m.owner)
            && View(m', s.dir) == View(m, s.dir)[s.index := PageView(Zeros(), writable)]
            && forall d :: d != s.dir ==> ViewKept(m, m', d)
  {
    hide Dirs, AllocPage, View, Held;
    AllocPageHeld(m, s, writable);
    var m' := AllocPage(m, s, writable).value;
    var v := View(m, s.dir)[s.index := PageView(Zeros(), writable)];
    forall p: nat
      ensures p in v <==> Slot(s.dir, p) in m'.pages
      ensures p in v ==> v[p] == PageAt(m', Slot(s.dir, p))
    {
      ViewAt(m, s.dir, p);
      assert p == s.index <==> Slot(s.dir, p) == s;
    }
    ViewIs(m', s.dir, v);
    forall d | d != s.dir ensures ViewKept(m, m', d) { ViewOutside(m, m', s.dir, d); }
  }

  lemma ViewFreeFrom(m: Mem, d: nat, p: nat, end: nat)
    requires Inv(m) && Fit(m) && p <= end
    ensures var m' := FreeFrom(m, d, p, end);
            && Linked(m) && Inv(m') && Linked(m') && m'.owner == m.owner
            && View(m', d) == Cut(View(m, d), p, end)
            && forall e :: e != d ==> ViewKept(m, m', e)
  {
    hide Inv, FreeFrom, View;
    Lengths(m);
    FreeFromKeeps(m, d, p, end);
    var m' := FreeFrom(m, d, p, end);
    Lengths(m');
    var v := Cut(View(m, d), p, end);
    forall q: nat
      ensures q in v <==> Slot(d, q) in m'.pages
      ensures q in v ==> v[q] == PageAt(m', Slot(d, q))
    {
      ViewAt(m, d, q);
    }
    ViewIs(m', d, v);
    forall e | e != d ensures ViewKept(m, m', e) { ViewOutside(m, m', d, e); }
  }

  lemma ViewHandleCow(m: Mem, s: Slot)
    requires Inv(m) && HandleCow.requires(m, s) && HandleCow(m, s).Some?
    ensures var (m', ok) := HandleCow(m, s).value;
            && Linked(m) && Inv(m') && Linked(m') && m'.owner == m.owner
            && (forall d :: ViewKept(m, m', d))
            && ok == (s in m.pages && m.pages[s].cow) && (ok ==> s in m'.pages && m'.pages[s].writable)
            && (!ok ==> m' == m)
  {
    hide Inv, HandleCow, View;
    HandleCowKeeps(m, s);
    var m' := HandleCow(m, s).value.0;
    Lengths(m);
    Lengths(m');
    forall d ensures ViewKept(m, m', d) {
      var v := View(m, d);
      forall p: nat
        ensures p in v <==> Slot(d, p) in m'.pages
        ensures p in v ==> v[p] == PageAt(m', Slot(d, p))
      {
        ViewAt(m, d, p);
        assert Slot(d, p) != s || Slot(d, p) == s;
      }
      ViewIs(m', d, v);
    }
  }

  lemma ViewStore(m: Mem, s: Slot, off: nat, b: Byte)
    requires Inv(m) && s in m.pages && m.pages[s].writable && off < PAGE && Store.requires(m, s, off, b)
    ensures var m' := Store(m, s, off, b);
            && Linked(m) && Inv(m') && Linked(m') && m'.owner == m.owner
            && s.index in View(m, s.dir) && off < |View(m, s.dir)[s.index].bytes|
            && View(m', s.dir) ==
               View(m, s.dir)[s.index := View(m, s.dir)[s.index].(bytes := View(m, s.dir)[s.index].bytes[off := b])]
            && forall d :: d != s.dir ==> ViewKept(m, m', d)
  {
    hide Inv, View;
    StoreKeeps(m, s, off, b);
    var m' := Store(m, s, off, b);
    Lengths(m);
    Lengths(m');
    Present(m, s);
    assert s == Slot(s.dir, s.index);
    ViewAt(m, s.dir, s.index);
    var page := View(m, s.dir)[s.index];
    var v := View(m, s.dir)[s.index := page.(bytes := page.bytes[off := b])];
    forall p: nat
      ensures p in v <==> Slot(s.dir, p) in m'.pages
      ensures p in v ==> v[p] == PageAt(m', Slot(s.dir, p))
    {
      ViewAt(m, s.dir, p);
      assert p == s.index <==> Slot(s.dir, p) == s;
    }
    ViewIs(m', s.dir, v);
    forall d | d != s.dir ensures ViewKept(m, m', d) { ViewOutside(m, m', s.dir, d); }
  }

  lemma ViewDestroy(m: Mem, d: nat)
    requires Inv(m) && d in Dirs(m.owner)
    ensures Destroy.requires(m, d)
    ensures var m' := Destroy(m, d);
            && Linked(m) && Inv(m') && Linked(m') && Dirs(m'.owner) == Dirs(m.owner) - {d}
            && forall e :: e != d ==> ViewKept(m, m', e)
  {
    hide Inv, Destroy, Dirs;
    DestroyKeeps(m, d);
    var m' := Destroy(m, d);
    Lengths(m);
    Lengths(m');
    forall e | e != d ensures ViewKept(m, m', e) { ViewOutside(m, m', d, e); }
  }
}
