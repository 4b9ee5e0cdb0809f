/** The ELF segment loader (kernel/elf/mod.cpp): every loadable segment gets zeroed pages, the file's bytes in
    them, and an area.  The format is that of the System V ABI, chapter 5. */
module Elf {
  import opened Basics
  import opened Frames
  import opened Ranges
  import opened AddressSpace

  const PT_LOAD: nat := 1
  const MAP_ANONYMOUS: bv32 := 0x20

  datatype Segment = Segment(kind: nat, offset: nat, vaddr: nat, filesz: nat, memsz: nat, flags: bv32, align: nat)

  /** Other program headers are skipped. */
  predicate Loadable(g: Segment) {
    g.kind == PT_LOAD && g.align == 0x1000
  }

  function FirstPage(g: Segment): nat {
    g.vaddr / PAGE
  }

  /** One past the last page, from the rounded-up end address; both the sum and the rounding wrap at 2^32. */
  function EndPage(g: Segment): nat {
    RoundUp((g.vaddr + g.memsz) % WORD) / PAGE
  }

  /** Where the bytes of the file end, also on a 32-bit word. */
  function FileEnd(g: Segment): nat {
    (g.vaddr + g.filesz) % WORD
  }

  predicate CanWrite(g: Segment) {
    g.flags & 2 != 0
  }

  function AttrOf(g: Segment): Attr {
    Attr(MAP_PRIVATE | MAP_ANONYMOUS,
         (if g.flags & 1 != 0 then 4 else 0) | (if g.flags & 2 != 0 then 2 else 0) | if g.flags & 4 != 0 then 1 else 0)
  }

  /** Bits 1, 2 and 4 of the header (execute, write, read) become bits 4, 2 and 1 of the area. */
  lemma AttrWrites(g: Segment)
    ensures Writes(AttrOf(g)) == CanWrite(g) && !GrowsDown(AttrOf(g))
    ensures var x := AttrOf(g);
            && x.flags == 0x22 && x.prot & 0xFFFF_FFF8 == 0
            && (x.prot & 4 != 0 <==> g.flags & 1 != 0)
            && (x.prot & 2 != 0 <==> g.flags & 2 != 0)
            && (x.prot & 1 != 0 <==> g.flags & 4 != 0)
  {
  }

  /** What the loader relies on: the bytes are in the file, and an empty segment lies below the kernel's half, where
      the vector has an entry to look ahead to. */
  ghost predicate SegmentOk(g: Segment, file: seq<Byte>) {
    && g.vaddr < WORD && g.offset + g.filesz <= |file|
    && (FirstPage(g) == EndPage(g) ==> g.vaddr < VM_TOP)
  }

  /** The byte that belongs at an address of a segment's pages. */
  function ByteFor(g: Segment, file: seq<Byte>, a: int): Byte
    requires g.offset + g.filesz <= |file|
  {
    if g.vaddr <= a < FileEnd(g) then InFile(g, a); file[g.offset + (a - g.vaddr)] else 0
  }

  lemma InFile(g: Segment, a: int)
    requires g.vaddr <= a < FileEnd(g)
    ensures a - g.vaddr < g.filesz
  {
  }

  function PageBytes(g: Segment, file: seq<Byte>, p: nat): (s: seq<Byte>)
    requires g.offset + g.filesz <= |file|
    ensures |s| == PAGE && forall i :: 0 <= i < PAGE ==> s[i] == ByteFor(g, file, p * PAGE + i)
  {
    seq<Byte>(PAGE, i requires 0 <= i < PAGE => ByteFor(g, file, p * PAGE + i))
  }

  /** The copy into a fresh page: the part of the file that falls into it, between zeros. */
  function CopyIn(g: Segment, file: seq<Byte>, p: nat): (s: seq<Byte>)
    requires g.offset + g.filesz <= |file|
  {
    var low := Max(g.vaddr, p * PAGE);
    var high := Min(FileEnd(g), (p + 1) * PAGE);
    if low < high then
      InFile(g, high - 1);
      Zeros()[..low - p * PAGE] + file[g.offset + (low - g.vaddr)..g.offset + (high - g.vaddr)]
        + Zeros()[high - p * PAGE..]
    else Zeros()
  }

  lemma CopyInIs(g: Segment, file: seq<Byte>, p: nat)
    requires g.offset + g.filesz <= |file|
    ensures CopyIn(g, file, p) == PageBytes(g, file, p)
  {
    hide FileEnd;
    var s := CopyIn(g, file, p);
    var low, high := Max(g.vaddr, p * PAGE), Min(FileEnd(g), (p + 1) * PAGE);
    if low < high {
      InFile(g, high - 1);
      Joined(Zeros()[..low - p * PAGE], file[g.offset + (low - g.vaddr)..g.offset + (high - g.vaddr)],
             Zeros()[high - p * PAGE..]);
    }
    forall i | 0 <= i < PAGE ensures |s| == PAGE && s[i] == ByteFor(g, file, p * PAGE + i) { }
  }

  lemma Joined(a: seq<Byte>, b: seq<Byte>, c: seq<Byte>)
    ensures var s := a + b + c;
            && |s| == |a| + |b| + |c|
            && forall i :: 0 <= i < |s| ==>
                 s[i] == if i < |a| then a[i] else if i < |a| + |b| then b[i - |a|] else c[i - |a| - |b|]
  {
  }

  // ----- Filling a fresh page

  function LoadPage(m: Mem, s: Slot, writable: bool, bytes: seq<Byte>): (r: Option<Mem>)
    requires Fit(m)
    ensures r.Some? ==> Fit(r.value)
  {
    match AllocPage(m, s, writable)
    case None => None
    case Some(m1) => AllocPageEntry(m, s, writable); Some(FillPage(m1, s, bytes))
  }

  lemma AllocPageCount(m: Mem, s: Slot, writable: bool)
    requires Inv(m) && AllocPage(m, s, writable).Some?
    ensures var m' := AllocPage(m, s, writable).value;
            s in m'.pages && m'.pages[s].frame < |m'.ref| && m'.ref[m'.pages[s].frame] == 1
  {
  }

  /** A frame with one mapper may be filled without anybody else noticing. */
  lemma FillPageKeeps(m: Mem, s: Slot, bytes: seq<Byte>)
    requires Inv(m) && s in m.pages && m.pages[s].frame < |m.ref| && m.ref[m.pages[s].frame] == 1 && |bytes| == PAGE
    ensures Inv(FillPage(m, s, bytes))
    ensures forall t :: t in m.pages && t != s ==> m.pages[t].frame != m.pages[s].frame
  {
    hide TablesLinked, Dirs, Pooled, Mappers;
    var f := m.pages[s].frame;
    OneMapper(m, s);
  }

  lemma OneMapper(m: Mem, s: Slot)
    requires Inv(m) && s in m.pages && m.pages[s].frame < |m.ref| && m.ref[m.pages[s].frame] == 1
    ensures forall t :: t in m.pages && t != s ==> m.pages[t].frame != m.pages[s].frame
  {
    hide Exclusive, TablesLinked, Mapped, Dirs, Pooled, Sized;
    var f := m.pages[s].frame;
    FrameCount(m, f);
    var ss := Mappers(m.pages, f);
    assert s in ss;
    assert |ss - {s}| == |ss| - 1;
    assert ss - {s} == {};
    forall t | t in m.pages && t != s ensures m.pages[t].frame != f {
      assert t !in ss - {s};
    }
  }

  lemma FillPageHeld(m: Mem, s: Slot, bytes: seq<Byte>)
    requires Held(m) && Fit(m) && s in m.pages
    ensures Held(FillPage(m, s, bytes)) && Fit(FillPage(m, s, bytes)) && Linked(FillPage(m, s, bytes))
  {
    HeldLinked(m);
  }

  lemma ViewLoadPage(m: Mem, s: Slot, writable: bool, bytes: seq<Byte>)
    requires Held(m) && s.dir in Dirs(m.owner) && s.index < USER_PAGES && Fit(m)
    requires |bytes| == PAGE && LoadPage(m, s, writable, bytes).Some?
    ensures var m' := LoadPage(m, s, writable, bytes).value;
            && Linked(m) && Held(m') && Linked(m') && Dirs(m'.owner) == Dirs(m.owner)
            && View(m', s.dir) == View(m, s.dir)[s.index := PageView(bytes, writable)]
            && forall d :: d != s.dir ==> ViewKept(m, m', d)
  {
    hide Held, AllocPage, View, Dirs, Fit;
    ViewHeldPage(m, s, writable);
    AllocPageHeld(m, s, writable);
    var m1 := AllocPage(m, s, writable).value;
    FillPageHeld(m1, s, bytes);
    var m' := FillPage(m1, s, bytes);
    FillPageViews(m1, s, bytes);
    forall d | d != s.dir ensures ViewKept(m, m', d) {
      assert ViewKept(m, m1, d) && ViewKept(m1, m', d);
    }
  }

  /** Counts stay exact exactly if the page was absent. */
  lemma LoadPageInvIff(m: Mem, s: Slot, writable: bool, bytes: seq<Byte>)
    requires Inv(m) && s.dir in Dirs(m.owner) && s.index < USER_PAGES && Fit(m)
    requires |bytes| == PAGE && LoadPage(m, s, writable, bytes).Some?
    ensures var m' := LoadPage(m, s, writable, bytes).value;
            if s in m.pages then Overcounted(m', m.pages[s].frame) else Inv(m')
  {
    hide Inv, AllocPage, Dirs, Mappers;
    if s in m.pages {
      MappedOver(m, s, writable);
    } else {
      AllocPageKeeps(m, s, writable);
      AllocPageCount(m, s, writable);
      FillPageKeeps(AllocPage(m, s, writable).value, s, bytes);
    }
  }

  lemma FillPageViews(m: Mem, s: Slot, bytes: seq<Byte>)
    requires Linked(m) && s in m.pages && s.index < USER_PAGES && Linked(FillPage(m, s, bytes))
    requires forall t :: t in m.pages && t != s ==> m.pages[t].frame != m.pages[s].frame
    ensures var m' := FillPage(m, s, bytes);
            && s.index in View(m, s.dir)
            && View(m', s.dir) == View(m, s.dir)[s.index := View(m, s.dir)[s.index].(bytes := bytes)]
            && forall d :: d != s.dir ==> ViewKept(m, m', d)
  {
    hide View;
    var m' := FillPage(m, s, bytes);
    assert s == Slot(s.dir, s.index);
    ViewAt(m, s.dir, s.index);
    var v := View(m, s.dir)[s.index := View(m, s.dir)[s.index].(bytes := bytes)];
    forall p: nat
      ensures p in v <==> Slot(s.dir, p) in m'.pages
      ensures p in v ==> v[p] == PageAt(m', Slot(s.dir, p))
    {
      ViewAt(m, s.dir, p);
      assert p == s.index <==> Slot(s.dir, p) == s;
    }
    ViewIs(m', s.dir, v);
    forall d | d != s.dir ensures ViewKept(m, m', d) {
      ViewOutside(m, m', s.dir, d);
    }
  }

  // ----- One segment

  /** The page loop, from page p until it is exactly the end.  None when no frame is left, and at the top of user
      space, from where on the loop writes the kernel's own tables. */
  function LoadPages(m: Mem, d: nat, g: Segment, file: seq<Byte>, p: nat, end: nat): (r: Option<Mem>)
    requires Fit(m) && g.offset + g.filesz <= |file|
    ensures r.Some? ==> Fit(r.value) && p <= end && (p < end ==> end <= USER_PAGES)
    decreases USER_PAGES - p
  {
    if p == end then Some(m)
    else if p >= USER_PAGES then None
    else
      match LoadPage(m, Slot(d, p), CanWrite(g), CopyIn(g, file, p))
      case None => None
      case Some(m1) => LoadPages(m1, d, g, file, p + 1, end)
  }

  function SegmentPage(g: Segment, file: seq<Byte>, p: nat): PageView
    requires g.offset + g.filesz <= |file|
  {
    PageView(PageBytes(g, file, p), CanWrite(g))
  }

  ghost function FillFrom(v: map<nat, PageView>, g: Segment, file: seq<Byte>, p: nat, end: nat)
    : (v': map<nat, PageView>)
    requires g.offset + g.filesz <= |file|
    ensures forall q :: q in v' <==> q in v || p <= q < end
    ensures forall q :: q in v' ==> v'[q] == if p <= q < end then SegmentPage(g, file, q) else v[q]
  {
    v + map q: nat | p <= q < end :: SegmentPage(g, file, q)
  }

  lemma FillFromStep(v: map<nat, PageView>, g: Segment, file: seq<Byte>, p: nat, end: nat)
    requires p < end && g.offset + g.filesz <= |file|
    ensures FillFrom(v[p := SegmentPage(g, file, p)], g, file, p + 1, end) == FillFrom(v, g, file, p, end)
  {
    hide SegmentPage;
  }

  lemma {:induction false} LoadPagesFills(m: Mem, d: nat, g: Segment, file: seq<Byte>, p: nat, end: nat)
    requires Held(m) && Fit(m) && d in Dirs(m.owner) && g.offset + g.filesz <= |file|
    requires LoadPages(m, d, g, file, p, end).Some?
    ensures var m' := LoadPages(m, d, g, file, p, end).value;
            && Linked(m) && Held(m') && Linked(m') && Dirs(m'.owner) == Dirs(m.owner)
            && View(m', d) == FillFrom(View(m, d), g, file, p, end)
            && forall e :: e != d ==> ViewKept(m, m', e)
    decreases USER_PAGES - p
  {
    hide Held, Fit, Dirs, LoadPage, Linked, View, CopyIn, PageBytes;
    HeldIsLinked(m);
    var m' := LoadPages(m, d, g, file, p, end).value;
    if p == end {
      forall e ensures ViewKept(m, m, e) { }
    } else {
      CopyInIs(g, file, p);
      ViewLoadPage(m, Slot(d, p), CanWrite(g), CopyIn(g, file, p));
      var m1 := LoadPage(m, Slot(d, p), CanWrite(g), CopyIn(g, file, p)).value;
      LoadPagesFills(m1, d, g, file, p + 1, end);
      FillFromStep(View(m, d), g, file, p, end);
      forall e | e != d ensures ViewKept(m, m', e) {
        assert ViewKept(m, m1, e) && ViewKept(m1, m', e);
      }
    }
  }

  lemma HeldIsLinked(m: Mem)
    requires Held(m)
    ensures Linked(m)
  {
  }

  lemma {:induction false} OvercountedLoads(m: Mem, d: nat, g: Segment, file: seq<Byte>, p: nat, end: nat, f: nat)
    requires Fit(m) && g.offset + g.filesz <= |file| && LoadPages(m, d, g, file, p, end).Some? && Overcounted(m, f)
    ensures Overcounted(LoadPages(m, d, g, file, p, end).value, f)
    decreases USER_PAGES - p
  {
    hide Fit, CopyIn, AllocPage, Mappers;
    if p != end {
      OvercountedStays(m, Slot(d, p), CanWrite(g), f);
      OvercountedLoads(LoadPage(m, Slot(d, p), CanWrite(g), CopyIn(g, file, p)).value, d, g, file, p + 1, end, f);
    }
  }

  /** Counts stay exact exactly if every page of the segment was absent. */
  lemma {:induction false} LoadPagesInvIff(m: Mem, d: nat, g: Segment, file: seq<Byte>, p: nat, end: nat)
    requires Inv(m) && Fit(m) && Linked(m) && d in Dirs(m.owner) && g.offset + g.filesz <= |file|
    requires LoadPages(m, d, g, file, p, end).Some?
    ensures var m' := LoadPages(m, d, g, file, p, end).value;
            if forall q: nat :: p <= q < end ==> q !in View(m, d) then Inv(m') else exists f :: Overcounted(m', f)
    decreases USER_PAGES - p
  {
    hide Inv, Fit, Dirs, LoadPage, Linked, View, CopyIn, PageBytes, Overcounted, Held;
    if p != end {
      InvHeld(m);
      CopyInIs(g, file, p);
      LoadPageInvIff(m, Slot(d, p), CanWrite(g), CopyIn(g, file, p));
      ViewLoadPage(m, Slot(d, p), CanWrite(g), CopyIn(g, file, p));
      ViewAt(m, d, p);
      var m1 := LoadPage(m, Slot(d, p), CanWrite(g), CopyIn(g, file, p)).value;
      if p in View(m, d) {
        OvercountedLoads(m1, d, g, file, p + 1, end, m.pages[Slot(d, p)].frame);
      } else {
        LoadPagesInvIff(m1, d, g, file, p + 1, end);
        assert forall q: nat :: p + 1 <= q < end ==> (q in View(m1, d) <==> q in View(m, d));
      }
    }
  }

  // ----- The pages of all segments

  ghost predicate SegmentsOk(gs: seq<Segment>, file: seq<Byte>) {
    forall i :: 0 <= i < |gs| && Loadable(gs[i]) ==> SegmentOk(gs[i], file)
  }

  predicate HasPage(g: Segment, p: nat) {
    FirstPage(g) <= p < EndPage(g)
  }

  /** The pages of the segment lie in user space, in order. */
  predicate Inside(g: Segment) {
    FirstPage(g) <= EndPage(g) <= USER_PAGES && FirstPage(g) < USER_PAGES
  }

  ghost predicate AllInside(gs: seq<Segment>, i: nat) {
    forall j :: i <= j < |gs| && Loadable(gs[j]) ==> Inside(gs[j])
  }

  function PagesFrom(m: Mem, d: nat, gs: seq<Segment>, file: seq<Byte>, i: nat): (r: Option<Mem>)
    requires Fit(m) && SegmentsOk(gs, file) && i <= |gs|
    ensures r.Some? ==> Fit(r.value) && AllInside(gs, i)
    decreases |gs| - i
  {
    if i == |gs| then Some(m)
    else if !Loadable(gs[i]) then PagesFrom(m, d, gs, file, i + 1)
    else
      match LoadPages(m, d, gs[i], file, FirstPage(gs[i]), EndPage(gs[i]))
      case None => None
      case Some(m') =>
        LoadedInside(gs[i], file);
        PagesFrom(m', d, gs, file, i + 1)
  }

  ghost predicate InSegments(gs: seq<Segment>, i: nat, p: nat) {
    exists j :: i <= j < |gs| && Loadable(gs[j]) && HasPage(gs[j], p)
  }

  /** Segment j is the last one with page p. */
  ghost predicate LastWith(gs: seq<Segment>, j: nat, p: nat) {
    j < |gs| && Loadable(gs[j]) && HasPage(gs[j], p) && !InSegments(gs, j + 1, p)
  }

  ghost predicate SameAt(v: map<nat, PageView>, v': map<nat, PageView>, p: nat) {
    (p in v' <==> p in v) && (p in v ==> v'[p] == v[p])
  }

  /** Every page of segments i on holds the bytes of the last segment that has it, between zeros, and may be written
      as that segment says; all others are as they were. */
  ghost predicate Loaded(gs: seq<Segment>, file: seq<Byte>, i: nat, v: map<nat, PageView>, v': map<nat, PageView>)
    requires SegmentsOk(gs, file)
  {
    && (forall j: nat, p: nat :: i <= j && LastWith(gs, j, p) ==> p in v' && v'[p] == SegmentPage(gs[j], file, p))
    && (forall p: nat :: !InSegments(gs, i, p) ==> SameAt(v, v', p))
  }

  lemma InFirst(gs: seq<Segment>, i: nat, p: nat)
    requires i < |gs|
    ensures InSegments(gs, i, p) <==> (Loadable(gs[i]) && HasPage(gs[i], p)) || InSegments(gs, i + 1, p)
  {
    hide HasPage;
  }

  /** There is a last one. */
  lemma {:induction false} SomeLast(gs: seq<Segment>, i: nat, p: nat)
    requires InSegments(gs, i, p)
    ensures exists j: nat :: i <= j && LastWith(gs, j, p)
    decreases |gs| - i
  {
    hide HasPage, InSegments;
    InBelow(gs, i, p);
    InFirst(gs, i, p);
    if InSegments(gs, i + 1, p) {
      SomeLast(gs, i + 1, p);
    } else {
      assert LastWith(gs, i, p);
    }
  }

  lemma InBelow(gs: seq<Segment>, i: nat, p: nat)
    requires InSegments(gs, i, p)
    ensures i < |gs|
  {
  }

  lemma LoadedSkip(gs: seq<Segment>, file: seq<Byte>, i: nat, v: map<nat, PageView>, v': map<nat, PageView>)
    requires SegmentsOk(gs, file) && i < |gs| && !Loadable(gs[i]) && Loaded(gs, file, i + 1, v, v')
    ensures Loaded(gs, file, i, v, v')
  {
    hide SegmentPage, SameAt, InSegments, HasPage;
    forall p: nat ensures InSegments(gs, i, p) <==> InSegments(gs, i + 1, p) { InFirst(gs, i, p); }
  }

  lemma LoadedMore(gs: seq<Segment>, file: seq<Byte>, i: nat, v: map<nat, PageView>, v': map<nat, PageView>)
    requires SegmentsOk(gs, file) && i < |gs| && Loadable(gs[i])
    requires Loaded(gs, file, i + 1, FillFrom(v, gs[i], file, FirstPage(gs[i]), EndPage(gs[i])), v')
    ensures Loaded(gs, file, i, v, v')
  {
    hide FirstPage, EndPage, SegmentPage, InSegments;
    var v1 := FillFrom(v, gs[i], file, FirstPage(gs[i]), EndPage(gs[i]));
    forall p: nat | LastWith(gs, i, p) ensures p in v' && v'[p] == SegmentPage(gs[i], file, p) {
      assert SameAt(v1, v', p);
    }
    forall p: nat | !InSegments(gs, i, p) ensures SameAt(v, v', p) {
      InFirst(gs, i, p);
      assert SameAt(v1, v', p);
    }
  }

  lemma {:induction false} PagesFromExact(m: Mem, d: nat, gs: seq<Segment>, file: seq<Byte>, i: nat)
    requires Held(m) && Fit(m) && Linked(m) && d in Dirs(m.owner) && SegmentsOk(gs, file) && i <= |gs|
    requires PagesFrom(m, d, gs, file, i).Some?
    ensures var m' := PagesFrom(m, d, gs, file, i).value;
            && Held(m') && Linked(m') && Dirs(m'.owner) == Dirs(m.owner)
            && Loaded(gs, file, i, View(m, d), View(m', d)) && (forall e :: e != d ==> ViewKept(m, m', e))
    decreases |gs| - i
  {
    hide Held, Linked, View, Dirs, Fit, FirstPage, EndPage, LoadPages, Loaded;
    var m' := PagesFrom(m, d, gs, file, i).value;
    if i == |gs| {
      forall e ensures ViewKept(m, m, e) { }
      LoadedNone(gs, file, View(m, d));
    } else if !Loadable(gs[i]) {
      PagesFromExact(m, d, gs, file, i + 1);
      LoadedSkip(gs, file, i, View(m, d), View(m', d));
    } else {
      var g := gs[i];
      LoadPagesFills(m, d, g, file, FirstPage(g), EndPage(g));
      var m1 := LoadPages(m, d, g, file, FirstPage(g), EndPage(g)).value;
      PagesFromExact(m1, d, gs, file, i + 1);
      LoadedMore(gs, file, i, View(m, d), View(m', d));
      forall e | e != d ensures ViewKept(m, m', e) {
        assert ViewKept(m, m1, e) && ViewKept(m1, m', e);
      }
    }
  }

  lemma LoadedInside(g: Segment, file: seq<Byte>)
    requires SegmentOk(g, file) && FirstPage(g) <= EndPage(g)
    requires FirstPage(g) < EndPage(g) ==> EndPage(g) <= USER_PAGES
    ensures Inside(g)
  {
  }

  lemma LoadedNone(gs: seq<Segment>, file: seq<Byte>, v: map<nat, PageView>)
    requires SegmentsOk(gs, file)
    ensures Loaded(gs, file, |gs|, v, v)
  {
  }

  // ----- Which files load

  lemma LoadPageTakes(m: Mem, s: Slot, writable: bool, bytes: seq<Byte>)
    requires Fit(m)
    ensures var k := if TableOf(s) in m.tabs then 1 else 2;
            && (LoadPage(m, s, writable, bytes).Some? <==> k <= |FreeFrames(m)|)
            && (LoadPage(m, s, writable, bytes).Some? ==>
                  var m' := LoadPage(m, s, writable, bytes).value;
                  |FreeFrames(m')| == |FreeFrames(m)| - k && m'.tabs.Keys == m.tabs.Keys + {TableOf(s)})
  {
    hide AllocPage, FreeFrames;
    AllocPageTakes(m, s, writable);
    if LoadPage(m, s, writable, bytes).Some? {
      UsedFree(LoadPage(m, s, writable, bytes).value, AllocPage(m, s, writable).value);
    }
  }

  /** The tables of tabs and those in made. */
  ghost predicate Adds(tabs: map<Slot, nat>, tabs': map<Slot, nat>, d: nat, made: set<nat>) {
    forall t: nat :: Slot(d, t) in tabs' <==> Slot(d, t) in tabs || t in made
  }

  /** The page loop comes back exactly when it meets its end inside user space and there are frames for the pages and
      their missing tables; those it then takes. */
  lemma {:induction false} LoadPagesTakes(m: Mem, d: nat, g: Segment, file: seq<Byte>, p: nat, end: nat)
    requires Fit(m) && g.offset + g.filesz <= |file|
    ensures LoadPages(m, d, g, file, p, end).Some? <==>
            p <= end && (p < end ==> end <= USER_PAGES) && Needs(m, d, p, end) <= |FreeFrames(m)|
    ensures LoadPages(m, d, g, file, p, end).Some? ==>
              var m' := LoadPages(m, d, g, file, p, end).value;
              && |FreeFrames(m')| == |FreeFrames(m)| - Needs(m, d, p, end)
              && Adds(m.tabs, m'.tabs, d, MissingTables(m.tabs, d, p, end))
    decreases USER_PAGES - p
  {
    hide LoadPage, FreeFrames, MissingTables, CopyIn, Fit, Adds;
    if p == end {
      NoneMissing(m.tabs, d, p);
      AddsNone(m.tabs, d);
    } else if p < USER_PAGES {
      LoadPageTakes(m, Slot(d, p), CanWrite(g), CopyIn(g, file, p));
      if p < end {
        SomeMissing(m.tabs, d, p, end, p);
      }
      if LoadPage(m, Slot(d, p), CanWrite(g), CopyIn(g, file, p)).Some? {
        var m1 := LoadPage(m, Slot(d, p), CanWrite(g), CopyIn(g, file, p)).value;
        LoadPagesTakes(m1, d, g, file, p + 1, end);
        if p < end {
          MissingStep(m.tabs, m1.tabs, d, p, end);
          if LoadPages(m, d, g, file, p, end).Some? {
            AddsStep(m.tabs, m1.tabs, LoadPages(m, d, g, file, p, end).value.tabs, d, p, end);
          }
        }
      }
    }
  }

  lemma AddsNone(tabs: map<Slot, nat>, d: nat)
    ensures Adds(tabs, tabs, d, {})
  {
  }

  lemma AddsStep(tabs: map<Slot, nat>, tabs1: map<Slot, nat>, tabs': map<Slot, nat>, d: nat, p: nat, end: nat)
    requires p < end && tabs1.Keys == tabs.Keys + {TableOf(Slot(d, p))}
    requires Adds(tabs1, tabs', d, MissingTables(tabs1, d, p + 1, end))
    ensures Adds(tabs, tabs', d, MissingTables(tabs, d, p, end))
  {
    hide MissingTables;
    MissingStep(tabs, tabs1, d, p, end);
    assert forall t: nat :: Slot(d, t) in tabs1 <==> Slot(d, t) in tabs || t == p / ENTRIES;
  }

  /** The tables that the segments from i on lie in and that are not there yet. */
  ghost function AllMissing(tabs: map<Slot, nat>, d: nat, gs: seq<Segment>, i: nat): set<nat>
    requires i <= |gs|
    decreases |gs| - i
  {
    if i == |gs| then {}
    else
      (if Loadable(gs[i]) then MissingTables(tabs, d, FirstPage(gs[i]), EndPage(gs[i])) else {})
      + AllMissing(tabs, d, gs, i + 1)
  }

  /** A page for every page of every segment, shared ones counted again. */
  function PageCount(gs: seq<Segment>, i: nat): int
    requires i <= |gs|
    decreases |gs| - i
  {
    if i == |gs| then 0
    else (if Loadable(gs[i]) then EndPage(gs[i]) - FirstPage(gs[i]) else 0) + PageCount(gs, i + 1)
  }

  lemma {:induction false} PageCountUp(gs: seq<Segment>, i: nat)
    requires i <= |gs| && AllInside(gs, i)
    ensures PageCount(gs, i) >= 0
    decreases |gs| - i
  {
    hide FirstPage, EndPage;
    if i < |gs| {
      PageCountUp(gs, i + 1);
    }
  }

  /** Tables made present are no longer missing. */
  lemma {:induction false} MissingLess(tabs: map<Slot, nat>, tabs': map<Slot, nat>, made: set<nat>, d: nat,
                                       gs: seq<Segment>, i: nat)
    requires i <= |gs| && Adds(tabs, tabs', d, made)
    ensures AllMissing(tabs', d, gs, i) == AllMissing(tabs, d, gs, i) - made
    decreases |gs| - i
  {
    hide FirstPage, EndPage;
    if i < |gs| {
      MissingLess(tabs, tabs', made, d, gs, i + 1);
    }
  }

  /** A file loads exactly when its segments lie inside user space and there are frames for all their pages and the
      missing tables. */
  lemma {:induction false} PagesFromHaltsIff(m: Mem, d: nat, gs: seq<Segment>, file: seq<Byte>, i: nat)
    requires Fit(m) && SegmentsOk(gs, file) && i <= |gs|
    ensures PagesFrom(m, d, gs, file, i).Some? <==>
            AllInside(gs, i) && PageCount(gs, i) + |AllMissing(m.tabs, d, gs, i)| <= |FreeFrames(m)|
    decreases |gs| - i
  {
    hide Fit, FirstPage, EndPage, LoadPages, FreeFrames, MissingTables, Inside;
    if i < |gs| {
      if !Loadable(gs[i]) {
        PagesFromHaltsIff(m, d, gs, file, i + 1);
        InsideStep(gs, i);
      } else {
        var g := gs[i];
        var made := MissingTables(m.tabs, d, FirstPage(g), EndPage(g));
        LoadPagesTakes(m, d, g, file, FirstPage(g), EndPage(g));
        InsideIs(g, file);
        InsideStep(gs, i);
        var rest := AllMissing(m.tabs, d, gs, i + 1);
        Parts(made, rest);
        if AllInside(gs, i + 1) {
          PageCountUp(gs, i + 1);
        }
        if LoadPages(m, d, g, file, FirstPage(g), EndPage(g)).Some? {
          var m1 := LoadPages(m, d, g, file, FirstPage(g), EndPage(g)).value;
          MissingLess(m.tabs, m1.tabs, made, d, gs, i + 1);
          PagesFromHaltsIff(m1, d, gs, file, i + 1);
        }
      }
    }
  }

  lemma Parts(a: set<nat>, b: set<nat>)
    ensures |a + b| == |a| + |b - a|
  {
    assert a + b == a + (b - a);
  }

  lemma InsideStep(gs: seq<Segment>, i: nat)
    requires i < |gs|
    ensures AllInside(gs, i) <==> (Loadable(gs[i]) ==> Inside(gs[i])) && AllInside(gs, i + 1)
  {
    hide Inside;
  }

  lemma InsideIs(g: Segment, file: seq<Byte>)
    requires SegmentOk(g, file)
    ensures Inside(g) <==> FirstPage(g) <= EndPage(g) && (FirstPage(g) < EndPage(g) ==> EndPage(g) <= USER_PAGES)
  {
  }

  // ----- Frames lost

  /** No page belongs to two segments. */
  ghost predicate OnceEach(gs: seq<Segment>, i: nat) {
    forall j, p: nat :: i <= j < |gs| && Loadable(gs[j]) && HasPage(gs[j], p) ==> !InSegments(gs, j + 1, p)
  }

  /** No page is loaded that is there already. */
  ghost predicate NoneTwice(gs: seq<Segment>, i: nat, v: map<nat, PageView>) {
    OnceEach(gs, i) && forall p: nat :: InSegments(gs, i, p) ==> p !in v
  }

  lemma {:induction false} OvercountedFrom(m: Mem, d: nat, gs: seq<Segment>, file: seq<Byte>, i: nat, f: nat)
    requires Fit(m) && SegmentsOk(gs, file) && i <= |gs| && PagesFrom(m, d, gs, file, i).Some? && Overcounted(m, f)
    ensures Overcounted(PagesFrom(m, d, gs, file, i).value, f)
    decreases |gs| - i
  {
    hide Fit, FirstPage, EndPage, LoadPages, Overcounted;
    if i < |gs| {
      if Loadable(gs[i]) {
        OvercountedLoads(m, d, gs[i], file, FirstPage(gs[i]), EndPage(gs[i]), f);
        OvercountedFrom(LoadPages(m, d, gs[i], file, FirstPage(gs[i]), EndPage(gs[i])).value, d, gs, file, i + 1, f);
      } else {
        OvercountedFrom(m, d, gs, file, i + 1, f);
      }
    }
  }

  lemma TwiceSkip(gs: seq<Segment>, i: nat, v: map<nat, PageView>)
    requires i < |gs| && !Loadable(gs[i])
    ensures NoneTwice(gs, i, v) <==> NoneTwice(gs, i + 1, v)
  {
    hide InSegments, HasPage;
    forall p: nat ensures InSegments(gs, i, p) <==> InSegments(gs, i + 1, p) { InFirst(gs, i, p); }
  }

  lemma TwiceStep(gs: seq<Segment>, file: seq<Byte>, i: nat, v: map<nat, PageView>)
    requires i < |gs| && Loadable(gs[i]) && gs[i].offset + gs[i].filesz <= |file|
    requires forall p: nat :: HasPage(gs[i], p) ==> p !in v
    ensures NoneTwice(gs, i, v) <==>
            NoneTwice(gs, i + 1, FillFrom(v, gs[i], file, FirstPage(gs[i]), EndPage(gs[i])))
  {
    hide InSegments, HasPage, FirstPage, EndPage, OnceEach, FillFrom;
    var v1 := FillFrom(v, gs[i], file, FirstPage(gs[i]), EndPage(gs[i]));
    OnceFirst(gs, i);
    forall p: nat
      ensures InSegments(gs, i, p) <==> HasPage(gs[i], p) || InSegments(gs, i + 1, p)
      ensures p in v1 <==> HasPage(gs[i], p) || p in v
    {
      InFirst(gs, i, p);
      FillFromHas(v, gs[i], file, p);
    }
  }

  lemma OnceFirst(gs: seq<Segment>, i: nat)
    requires i < |gs| && Loadable(gs[i])
    ensures OnceEach(gs, i) <==>
            OnceEach(gs, i + 1) && forall p: nat :: HasPage(gs[i], p) ==> !InSegments(gs, i + 1, p)
  {
    hide InSegments, HasPage;
  }

  lemma FillFromHas(v: map<nat, PageView>, g: Segment, file: seq<Byte>, p: nat)
    requires g.offset + g.filesz <= |file|
    ensures p in FillFrom(v, g, file, FirstPage(g), EndPage(g)) <==> HasPage(g, p) || p in v
  {
    hide FirstPage, EndPage;
  }

  /** Counts stay exact exactly if no page is loaded twice. */
  lemma {:induction false} PagesFromInvIff(m: Mem, d: nat, gs: seq<Segment>, file: seq<Byte>, i: nat)
    requires Inv(m) && Fit(m) && Linked(m) && d in Dirs(m.owner) && SegmentsOk(gs, file) && i <= |gs|
    requires PagesFrom(m, d, gs, file, i).Some?
    ensures Inv(PagesFrom(m, d, gs, file, i).value) <==> NoneTwice(gs, i, View(m, d))
    decreases |gs| - i
  {
    hide Inv, Held, Linked, View, Dirs, Fit, FirstPage, EndPage, LoadPages, Overcounted, NoneTwice;
    if i == |gs| {
      NoneLeft(gs, View(m, d));
    } else if !Loadable(gs[i]) {
      TwiceSkip(gs, i, View(m, d));
      PagesFromInvIff(m, d, gs, file, i + 1);
    } else {
      var g := gs[i];
      InvHeld(m);
      LoadPagesFills(m, d, g, file, FirstPage(g), EndPage(g));
      LoadPagesInvIff(m, d, g, file, FirstPage(g), EndPage(g));
      var m1 := LoadPages(m, d, g, file, FirstPage(g), EndPage(g)).value;
      if forall q: nat :: FirstPage(g) <= q < EndPage(g) ==> q !in View(m, d) {
        TwiceStep(gs, file, i, View(m, d));
        PagesFromInvIff(m1, d, gs, file, i + 1);
      } else {
        var f :| Overcounted(m1, f);
        OvercountedFrom(m1, d, gs, file, i + 1, f);
        NotOvercounted(PagesFrom(m, d, gs, file, i).value, f);
        var q: nat :| FirstPage(g) <= q < EndPage(g) && q in View(m, d);
        LoadedTwice(gs, i, q, View(m, d));
      }
    }
  }

  lemma NoneLeft(gs: seq<Segment>, v: map<nat, PageView>)
    ensures NoneTwice(gs, |gs|, v)
  {
  }

  lemma LoadedTwice(gs: seq<Segment>, i: nat, p: nat, v: map<nat, PageView>)
    requires i < |gs| && Loadable(gs[i]) && FirstPage(gs[i]) <= p < EndPage(gs[i]) && p in v
    ensures !NoneTwice(gs, i, v)
  {
    hide FirstPage, EndPage;
    InFirst(gs, i, p);
  }

  // ----- The areas of all segments

  function AreaOf(g: Segment): Range<Attr> {
    Range(FirstPage(g) * PAGE, EndPage(g) * PAGE, AttrOf(g))
  }

  /** The area of a segment starts in user space. */
  predicate High(g: Segment) {
    VM_BASE <= FirstPage(g) * PAGE
  }

  lemma AreaFits(g: Segment)
    requires Inside(g)
    ensures var e := AreaOf(g); AreaOk(e) && 0 <= e.begin < VM_TOP && e.end <= VM_TOP
  {
    hide FirstPage, EndPage, AttrOf;
  }

  /** insert, with its result ignored. */
  function AddArea(vmas: Vmas, g: Segment): (vmas': Vmas)
    requires Valid(vmas, VM_BASE, VM_TOP) && 0 <= AreaOf(g).begin < VM_TOP
  {
    match Insert(vmas, AreaOf(g))
    case None => vmas
    case Some(more) => more
  }

  lemma AddAreaValid(vmas: Vmas, g: Segment)
    requires Valid(vmas, VM_BASE, VM_TOP) && Inside(g)
    ensures 0 <= AreaOf(g).begin < VM_TOP && Valid(AddArea(vmas, g), VM_BASE, VM_TOP)
  {
    hide Insert, At, Covered, Ordered;
    AreaFits(g);
    if Insert(vmas, AreaOf(g)).Some? {
      InsertAdds(vmas, VM_BASE, VM_TOP, AreaOf(g));
    }
  }

  function AreasFrom(vmas: Vmas, gs: seq<Segment>, i: nat): (vmas': Vmas)
    requires Valid(vmas, VM_BASE, VM_TOP) && i <= |gs| && AllInside(gs, i)
    decreases |gs| - i
  {
    if i == |gs| then vmas
    else if !Loadable(gs[i]) then AreasFrom(vmas, gs, i + 1)
    else
      AddAreaValid(vmas, gs[i]);
      AreasFrom(AddArea(vmas, gs[i]), gs, i + 1)
  }

  lemma AddAreaOk(vmas: Vmas, g: Segment)
    requires AreasOk(vmas) && Valid(vmas, VM_BASE, VM_TOP) && Inside(g)
    ensures 0 <= AreaOf(g).begin < VM_TOP && AreasOk(AddArea(vmas, g))
  {
    hide Insert, FirstPage, EndPage, AttrOf;
    AreaFits(g);
    if Insert(vmas, AreaOf(g)).Some? {
      if !High(g) {
        AreaRefused(vmas, g);
      }
      InsertAreas(vmas, AreaOf(g));
    }
  }

  lemma AreaRefused(vmas: Vmas, g: Segment)
    requires Valid(vmas, VM_BASE, VM_TOP) && Inside(g) && !High(g)
    ensures 0 <= AreaOf(g).begin < VM_TOP && Insert(vmas, AreaOf(g)).None?
  {
    hide FirstPage, EndPage, AttrOf;
    AreaFits(g);
    LocateSplits(vmas, AreaOf(g).begin);
  }

  /** The list of areas is well formed whatever the file. */
  lemma {:induction false} AreasFromOk(vmas: Vmas, gs: seq<Segment>, i: nat)
    requires AreasOk(vmas) && Valid(vmas, VM_BASE, VM_TOP) && i <= |gs| && AllInside(gs, i)
    ensures AreasOk(AreasFrom(vmas, gs, i))
    decreases |gs| - i
  {
    hide AreasOk, Valid, AddArea, Inside, AreaOf;
    if i < |gs| {
      if Loadable(gs[i]) {
        AddAreaOk(vmas, gs[i]);
        AddAreaValid(vmas, gs[i]);
        AreasFromOk(AddArea(vmas, gs[i]), gs, i + 1);
      } else {
        AreasFromOk(vmas, gs, i + 1);
      }
    }
  }

  /** insert has room for the area of h beside that of g. */
  predicate Leaves(g: Segment, h: Segment) {
    if FirstPage(g) <= FirstPage(h) then EndPage(g) <= FirstPage(h) else EndPage(h) <= FirstPage(g)
  }

  /** By the headers alone, the area of segment k is accepted: it starts in user space, and has room beside those
      accepted before it. */
  ghost predicate Taken(gs: seq<Segment>, k: nat)
    requires k < |gs|
    decreases k
  {
    Loadable(gs[k]) && High(gs[k]) && forall j: nat :: j < k && Taken(gs, j) ==> Leaves(gs[j], gs[k])
  }

  ghost predicate Entry(vmas: Vmas, e: Range<Attr>) {
    exists n :: 0 < n < |vmas| - 1 && vmas[n] == e
  }

  ghost predicate Owned(gs: seq<Segment>, i: nat, e: Range<Attr>)
    requires i <= |gs|
  {
    exists k: nat :: k < i && Taken(gs, k) && e == AreaOf(gs[k])
  }

  /** The areas are those of the accepted segments among the first i. */
  ghost predicate AreasAre(vmas: Vmas, gs: seq<Segment>, i: nat)
    requires i <= |gs|
  {
    && (forall k: nat :: k < i && Taken(gs, k) ==> Entry(vmas, AreaOf(gs[k])))
    && (forall n :: 0 < n < |vmas| - 1 ==> Owned(gs, i, vmas[n]))
  }

  ghost predicate Beside(f: Range<Attr>, e: Range<Attr>) {
    if f.begin <= e.begin then f.end <= e.begin else e.end <= f.begin
  }

  /** insert looks at two entries; that decides about all of them. */
  lemma InsertIff(vmas: Vmas, e: Range<Attr>)
    requires Valid(vmas, VM_BASE, VM_TOP) && 0 <= e.begin <= e.end <= VM_TOP && e.begin < VM_TOP
    ensures Insert(vmas, e).Some? <==>
            VM_BASE <= e.begin && forall n :: 0 < n < |vmas| - 1 ==> Beside(vmas[n], e)
  {
    LocateSplits(vmas, e.begin);
    var pos := Locate(vmas, e.begin);
    if Insert(vmas, e).Some? {
      Monotone(vmas, 0, pos);
      forall n | 0 < n < |vmas| - 1 ensures Beside(vmas[n], e) {
        if n <= pos {
          Monotone(vmas, n, pos);
        } else {
          Monotone(vmas, pos + 1, n);
        }
      }
    } else if VM_BASE <= e.begin {
      assert !Beside(vmas[pos], e) || !Beside(vmas[pos + 1], e);
    }
  }

  lemma {:induction false} AreaTaken(vmas: Vmas, gs: seq<Segment>, i: nat)
    requires Valid(vmas, VM_BASE, VM_TOP) && i < |gs| && Loadable(gs[i]) && Inside(gs[i]) && AreasAre(vmas, gs, i)
    ensures 0 <= AreaOf(gs[i]).begin < VM_TOP && (Insert(vmas, AreaOf(gs[i])).Some? <==> Taken(gs, i))
  {
    hide FirstPage, EndPage, AttrOf, Insert, Ordered;
    var e := AreaOf(gs[i]);
    AreaFits(gs[i]);
    InsertIff(vmas, e);
    if Taken(gs, i) {
      forall n | 0 < n < |vmas| - 1 ensures Beside(vmas[n], e) {
        assert Owned(gs, i, vmas[n]);
      }
    } else if High(gs[i]) {
      var j: nat :| j < i && Taken(gs, j) && !Leaves(gs[j], gs[i]);
      assert Entry(vmas, AreaOf(gs[j]));
    }
  }

  lemma {:induction false} AddAreaIs(vmas: Vmas, gs: seq<Segment>, i: nat)
    requires Valid(vmas, VM_BASE, VM_TOP) && i < |gs| && Loadable(gs[i]) && Inside(gs[i]) && AreasAre(vmas, gs, i)
    ensures 0 <= AreaOf(gs[i]).begin < VM_TOP && AreasAre(AddArea(vmas, gs[i]), gs, i + 1)
  {
    hide FirstPage, EndPage, AreaOf, Ordered, Taken, Locate;
    AreaTaken(vmas, gs, i);
    var e, vmas' := AreaOf(gs[i]), AddArea(vmas, gs[i]);
    if Insert(vmas, e).Some? {
      var pos := Locate(vmas, e.begin);
      forall n | 0 < n < |vmas'| - 1 ensures Owned(gs, i + 1, vmas'[n]) {
        assert vmas'[n] == if n <= pos then vmas[n] else if n == pos + 1 then e else vmas[n - 1];
        assert n != pos + 1 ==> Owned(gs, i, vmas'[n]);
      }
      forall k: nat | k < i + 1 && Taken(gs, k) ensures Entry(vmas', AreaOf(gs[k])) {
        if k < i {
          var n :| 0 < n < |vmas| - 1 && vmas[n] == AreaOf(gs[k]);
          assert vmas'[if n <= pos then n else n + 1] == vmas[n];
        } else {
          assert vmas'[pos + 1] == e;
        }
      }
    }
  }

  /** The areas are those of the accepted segments, whatever the file. */
  lemma {:induction false} AreasFromExact(vmas: Vmas, gs: seq<Segment>, i: nat)
    requires Valid(vmas, VM_BASE, VM_TOP) && i <= |gs| && AllInside(gs, i) && AreasAre(vmas, gs, i)
    ensures AreasAre(AreasFrom(vmas, gs, i), gs, |gs|)
    decreases |gs| - i
  {
    hide Valid, AddArea, Inside, AreaOf, AreasAre;
    if i < |gs| {
      if Loadable(gs[i]) {
        AddAreaIs(vmas, gs, i);
        AddAreaValid(vmas, gs[i]);
        AreasFromExact(AddArea(vmas, gs[i]), gs, i + 1);
      } else {
        AreasSkip(vmas, gs, i);
        AreasFromExact(vmas, gs, i + 1);
      }
    }
  }

  lemma AreasSkip(vmas: Vmas, gs: seq<Segment>, i: nat)
    requires i < |gs| && !Loadable(gs[i]) && AreasAre(vmas, gs, i)
    ensures AreasAre(vmas, gs, i + 1)
  {
    hide AreaOf, Entry;
    assert !Taken(gs, i);
    assert forall n :: 0 < n < |vmas| - 1 ==> Owned(gs, i, vmas[n]) && Owned(gs, i + 1, vmas[n]);
  }

  ghost predicate InArea(gs: seq<Segment>, k: nat, p: nat) {
    k < |gs| && Taken(gs, k) && HasPage(gs[k], p)
  }

  lemma AreaAt(vmas: Vmas, gs: seq<Segment>, p: nat)
    requires Ordered(vmas) && AreasAre(vmas, gs, |gs|)
    ensures forall k: nat :: InArea(gs, k, p) ==> At(vmas, p * PAGE) == Some(AreaOf(gs[k]))
    ensures (forall k: nat :: !InArea(gs, k, p)) ==> At(vmas, p * PAGE) == None
  {
    hide Ordered, Taken, FirstPage, EndPage, At;
    forall k: nat | InArea(gs, k, p) ensures At(vmas, p * PAGE) == Some(AreaOf(gs[k])) {
      var n :| 0 < n < |vmas| - 1 && vmas[n] == AreaOf(gs[k]);
      AtIs(vmas, n, p * PAGE);
    }
    if n :| Has(vmas, n, p * PAGE) {
      assert Owned(gs, |gs|, vmas[n]);
      var k: nat :| k < |gs| && Taken(gs, k) && vmas[n] == AreaOf(gs[k]);
      assert InArea(gs, k, p);
    } else {
      NothingAt(vmas, p * PAGE);
    }
  }

  lemma NothingAt(vmas: Vmas, a: int)
    requires forall i :: !Has(vmas, i, a)
    ensures At(vmas, a) == None
  {
  }

  // ----- The break

  function BrkFrom(brk: int, gs: seq<Segment>, i: nat): (r: int)
    requires i <= |gs|
    ensures brk <= r
    ensures forall j :: i <= j < |gs| && Loadable(gs[j]) ==> EndPage(gs[j]) * PAGE <= r
    ensures r == brk || exists j :: i <= j < |gs| && Loadable(gs[j]) && r == EndPage(gs[j]) * PAGE
    decreases |gs| - i
  {
    if i == |gs| then brk
    else BrkFrom(if Loadable(gs[i]) then Max(brk, EndPage(gs[i]) * PAGE) else brk, gs, i + 1)
  }

  // ----- The whole file

  /** loadElf: pages, areas and break of every loadable segment. */
  function LoadElf(m: Mem, d: nat, vmas: Vmas, gs: seq<Segment>, file: seq<Byte>): (r: Option<(Mem, Vmas, int)>)
    requires Fit(m) && Valid(vmas, VM_BASE, VM_TOP) && SegmentsOk(gs, file)
  {
    match PagesFrom(m, d, gs, file, 0)
    case None => None
    case Some(m') => Some((m', AreasFrom(vmas, gs, 0), BrkFrom(VM_BASE, gs, 0)))
  }

  lemma LoadElfHaltsIff(m: Mem, d: nat, vmas: Vmas, gs: seq<Segment>, file: seq<Byte>)
    requires Fit(m) && Valid(vmas, VM_BASE, VM_TOP) && SegmentsOk(gs, file)
    ensures LoadElf(m, d, vmas, gs, file).Some? <==>
            AllInside(gs, 0) && PageCount(gs, 0) + |AllMissing(m.tabs, d, gs, 0)| <= |FreeFrames(m)|
  {
    hide Fit, Valid, SegmentOk, PagesFrom, AreasFrom, AllInside, FreeFrames;
    PagesFromHaltsIff(m, d, gs, file, 0);
  }

  /** A new address space: no page is present and no area is there. */
  ghost predicate NewSpace(m: Mem, d: nat, vmas: Vmas) {
    && Inv(m) && Fit(m) && Linked(m) && d in Dirs(m.owner) && View(m, d) == map[]
    && AreasOk(vmas) && |vmas| == 2
  }

  /** loadElf into a new address space, whatever the file: every page of every loadable segment holds the file's
      bytes between zeros and may be written as the segment says (of the last one, where segments share it), no other
      page is present, no other address space changes, the break is at or above the end of every segment, and frames
      are conserved exactly when no two segments share a page. */
  lemma LoadElfExact(m: Mem, d: nat, vmas: Vmas, gs: seq<Segment>, file: seq<Byte>)
    requires NewSpace(m, d, vmas) && Valid(vmas, VM_BASE, VM_TOP) && SegmentsOk(gs, file)
             && LoadElf(m, d, vmas, gs, file).Some?
    ensures var (m', vmas', brk) := LoadElf(m, d, vmas, gs, file).value;
            && Linked(m') && Dirs(m'.owner) == Dirs(m.owner) && AreasOk(vmas')
            && (Inv(m') <==> OnceEach(gs, 0))
            && Loaded(gs, file, 0, map[], View(m', d))
            && (forall p: nat :: p in View(m', d) <==> InSegments(gs, 0, p))
            && (forall e :: e != d ==> ViewKept(m, m', e))
            && VM_BASE <= brk && (forall j :: 0 <= j < |gs| && Loadable(gs[j]) ==> EndPage(gs[j]) * PAGE <= brk)
  {
    hide Inv, Held, Linked, View, Dirs, Fit, FirstPage, EndPage, PagesFrom, InSegments, AreasOk, AllInside, OnceEach,
         AreasFrom;
    InvHeld(m);
    PagesFromExact(m, d, gs, file, 0);
    PagesFromInvIff(m, d, gs, file, 0);
    AreasFromOk(vmas, gs, 0);
    var m' := PagesFrom(m, d, gs, file, 0).value;
    forall p: nat ensures p in View(m', d) <==> InSegments(gs, 0, p) {
      LoadedPages(gs, file, View(m', d), p);
    }
  }

  lemma LoadedPages(gs: seq<Segment>, file: seq<Byte>, v: map<nat, PageView>, p: nat)
    requires SegmentsOk(gs, file) && Loaded(gs, file, 0, map[], v)
    ensures p in v <==> InSegments(gs, 0, p)
  {
    hide InSegments, HasPage, SegmentPage;
    if InSegments(gs, 0, p) {
      SomeLast(gs, 0, p);
    } else {
      assert SameAt(map[], v, p);
    }
  }

  /** Where no page is shared, every segment is in memory as the file has it. */
  lemma OnceEachLoaded(gs: seq<Segment>, file: seq<Byte>, v: map<nat, PageView>, j: nat, p: nat)
    requires SegmentsOk(gs, file) && OnceEach(gs, 0) && Loaded(gs, file, 0, map[], v)
    requires j < |gs| && Loadable(gs[j]) && HasPage(gs[j], p)
    ensures p in v && v[p] == SegmentPage(gs[j], file, p)
  {
    hide InSegments, HasPage, SegmentPage;
    assert LastWith(gs, j, p);
  }

  /** Two segments of one page each at 0x400000: the frame of the first is lost. */
  lemma SharedPageLosesFrame(m: Mem, d: nat, vmas: Vmas, file: seq<Byte>)
    requires NewSpace(m, d, vmas) && Valid(vmas, VM_BASE, VM_TOP)
    ensures var gs := [Segment(PT_LOAD, 0, 0x400000, 0, 0x1000, 6, 0x1000),
                       Segment(PT_LOAD, 0, 0x400000, 0, 0x1000, 4, 0x1000)];
            && SegmentsOk(gs, file)
            && (LoadElf(m, d, vmas, gs, file).Some? ==> !Inv(LoadElf(m, d, vmas, gs, file).value.0))
  {
    hide Inv, Linked, View, Dirs, AreasOk, PagesFrom, AreasFrom, InSegments, Loaded;
    var gs := [Segment(PT_LOAD, 0, 0x400000, 0, 0x1000, 6, 0x1000),
               Segment(PT_LOAD, 0, 0x400000, 0, 0x1000, 4, 0x1000)];
    assert HasPage(gs[0], 0x400) && HasPage(gs[1], 0x400);
    InFirst(gs, 1, 0x400);
    if LoadElf(m, d, vmas, gs, file).Some? {
      LoadElfExact(m, d, vmas, gs, file);
    }
  }

  /** Every page is in an accepted area that may be written exactly if the last segment with the page may. */
  ghost predicate Matching(gs: seq<Segment>) {
    forall p: nat :: MatchingAt(gs, p)
  }

  ghost predicate MatchingAt(gs: seq<Segment>, p: nat) {
    forall j: nat :: LastWith(gs, j, p) ==> MatchedAt(gs, j, p)
  }

  ghost predicate MatchedAt(gs: seq<Segment>, j: nat, p: nat)
    requires j < |gs|
  {
    exists k: nat :: InArea(gs, k, p) && CanWrite(gs[k]) == CanWrite(gs[j])
  }

  /** The loader does not look at whether an area was accepted.  Which ones are, and whether areas and pages agree
      afterwards, is decided by the headers. */
  lemma LoadElfAgreesIff(m: Mem, d: nat, vmas: Vmas, gs: seq<Segment>, file: seq<Byte>)
    requires NewSpace(m, d, vmas) && Valid(vmas, VM_BASE, VM_TOP) && SegmentsOk(gs, file)
             && LoadElf(m, d, vmas, gs, file).Some?
    ensures var (m', vmas', _) := LoadElf(m, d, vmas, gs, file).value;
            && Linked(m') && AreasAre(vmas', gs, |gs|)
            && (SpaceOk(vmas', View(m', d)) <==> Matching(gs))
  {
    hide Inv, View, Dirs, Fit, PagesFrom, AreasFrom, AreasOk, Agree, AllInside, OnceEach, Loaded, AreasAre, Ordered,
         InSegments, ViewKept, Matching, SegmentsOk;
    LoadElfExact(m, d, vmas, gs, file);
    var (m', vmas', _) := LoadElf(m, d, vmas, gs, file).value;
    NoAreas(vmas, gs);
    AreasFromExact(vmas, gs, 0);
    AreasOrdered(vmas');
    AgreeIff(gs, file, vmas', View(m', d));
  }

  lemma AgreeIff(gs: seq<Segment>, file: seq<Byte>, vmas: Vmas, v: map<nat, PageView>)
    requires SegmentsOk(gs, file) && Loaded(gs, file, 0, map[], v) && Ordered(vmas) && AreasAre(vmas, gs, |gs|)
    ensures Agree(vmas, v) <==> Matching(gs)
  {
    hide Loaded, Ordered, AreasAre, LastWith, MatchedAt, PageAgrees, SegmentsOk;
    forall p: nat ensures PageAgrees(vmas, v, p) <==> MatchingAt(gs, p) {
      LoadedPageAgrees(gs, file, vmas, v, p);
    }
  }

  lemma NoAreas(vmas: Vmas, gs: seq<Segment>)
    requires |vmas| == 2
    ensures AreasAre(vmas, gs, 0)
  {
  }

  lemma AreasOrdered(vmas: Vmas)
    requires AreasOk(vmas)
    ensures Ordered(vmas)
  {
  }

  lemma LoadedPageAgrees(gs: seq<Segment>, file: seq<Byte>, vmas: Vmas, v: map<nat, PageView>, p: nat)
    requires SegmentsOk(gs, file) && Loaded(gs, file, 0, map[], v) && Ordered(vmas) && AreasAre(vmas, gs, |gs|)
    ensures PageAgrees(vmas, v, p) <==> MatchingAt(gs, p)
  {
    hide FirstPage, EndPage, AttrOf, At, AreasAre, Writes, CanWrite, InSegments, HasPage, Taken, Ordered;
    AreaAt(vmas, gs, p);
    LoadedPages(gs, file, v, p);
    if InSegments(gs, 0, p) {
      SomeLast(gs, 0, p);
      var j: nat :| LastWith(gs, j, p);
      forall i: nat | LastWith(gs, i, p) ensures i == j { OneLast(gs, i, j, p); }
      assert p in v && v[p] == SegmentPage(gs[j], file, p);
      if k: nat :| InArea(gs, k, p) {
        AttrWrites(gs[k]);
        forall i: nat | InArea(gs, i, p) ensures CanWrite(gs[i]) == CanWrite(gs[k]) { AttrWrites(gs[i]); }
      }
    } else {
      forall k: nat ensures !LastWith(gs, k, p) && !InArea(gs, k, p) { NotIn(gs, k, p); }
    }
  }

  lemma OneLast(gs: seq<Segment>, i: nat, j: nat, p: nat)
    requires LastWith(gs, i, p) && LastWith(gs, j, p)
    ensures i == j
  {
    hide HasPage;
  }

  lemma NotIn(gs: seq<Segment>, k: nat, p: nat)
    requires !InSegments(gs, 0, p)
    ensures !LastWith(gs, k, p) && !InArea(gs, k, p)
  {
    hide HasPage;
  }

  // Segments that lie apart.

  ghost predicate PagesApart(g: Segment, k: Segment) {
    EndPage(g) <= FirstPage(k) || EndPage(k) <= FirstPage(g)
  }

  /** No two loadable segments share a page, and none without pages lies inside another. */
  ghost predicate Apart(gs: seq<Segment>) {
    forall i, j :: 0 <= i < j < |gs| && Loadable(gs[i]) && Loadable(gs[j]) ==> PagesApart(gs[i], gs[j])
  }

  /** Every loadable segment that has pages starts in user space. */
  ghost predicate AllHigh(gs: seq<Segment>) {
    forall j :: 0 <= j < |gs| && Loadable(gs[j]) && FirstPage(gs[j]) < EndPage(gs[j]) ==> High(gs[j])
  }

  lemma ApartOnce(gs: seq<Segment>)
    requires Apart(gs)
    ensures OnceEach(gs, 0)
  {
    hide FirstPage, EndPage;
    forall j, p: nat | 0 <= j < |gs| && Loadable(gs[j]) && HasPage(gs[j], p) ensures !InSegments(gs, j + 1, p) {
      assert forall i :: j < i < |gs| && Loadable(gs[i]) ==> PagesApart(gs[j], gs[i]);
    }
  }

  lemma ApartTaken(gs: seq<Segment>, k: nat)
    requires Apart(gs) && k < |gs| && Loadable(gs[k]) && FirstPage(gs[k]) < EndPage(gs[k])
    requires forall j :: 0 <= j < k && Loadable(gs[j]) ==> FirstPage(gs[j]) <= EndPage(gs[j])
    ensures Taken(gs, k) <==> High(gs[k])
  {
    hide FirstPage, EndPage, High;
    forall j: nat | j < k && Taken(gs, j) ensures Leaves(gs[j], gs[k]) {
      assert PagesApart(gs[j], gs[k]);
    }
  }

  /** If segments lie apart, one with pages has its area exactly when it starts at or above 0x400000, frames are
      conserved, and areas and pages agree exactly when all such segments start there. */
  lemma ApartMatching(gs: seq<Segment>)
    requires Apart(gs) && AllInside(gs, 0)
    ensures OnceEach(gs, 0) && (Matching(gs) <==> AllHigh(gs))
    ensures forall k: nat :: k < |gs| && Loadable(gs[k]) && FirstPage(gs[k]) < EndPage(gs[k]) ==>
              (Taken(gs, k) <==> High(gs[k]))
  {
    hide FirstPage, EndPage, High, Apart, OnceEach, InSegments, CanWrite, Taken;
    ApartOnce(gs);
    forall k: nat | k < |gs| && Loadable(gs[k]) && FirstPage(gs[k]) < EndPage(gs[k])
      ensures Taken(gs, k) <==> High(gs[k])
    {
      ApartTaken(gs, k);
    }
    if AllHigh(gs) {
      forall p: nat, j: nat | LastWith(gs, j, p) ensures MatchedAt(gs, j, p) {
        assert InArea(gs, j, p);
      }
    } else {
      var j: nat :| j < |gs| && Loadable(gs[j]) && FirstPage(gs[j]) < EndPage(gs[j]) && !High(gs[j]);
      LowUnmatched(gs, j);
    }
  }

  lemma LowUnmatched(gs: seq<Segment>, j: nat)
    requires OnceEach(gs, 0) && j < |gs| && Loadable(gs[j]) && FirstPage(gs[j]) < EndPage(gs[j]) && !Taken(gs, j)
    ensures !Matching(gs)
  {
    hide FirstPage, EndPage, CanWrite, InSegments;
    var p := FirstPage(gs[j]);
    assert HasPage(gs[j], p);
    assert LastWith(gs, j, p);
    forall k: nat ensures !InArea(gs, k, p) {
      if InArea(gs, k, p) {
        assert LastWith(gs, k, p);
        OneLast(gs, j, k, p);
      }
    }
    assert !MatchedAt(gs, j, p);
    assert !MatchingAt(gs, p);
  }

  /** One page at 0x1000 is enough: it is loaded, and no area covers it. */
  lemma LowSegmentLosesItsArea(m: Mem, d: nat, vmas: Vmas, file: seq<Byte>)
    requires NewSpace(m, d, vmas) && Valid(vmas, VM_BASE, VM_TOP)
    ensures var gs := [Segment(PT_LOAD, 0, 0x1000, 0, 0x1000, 6, 0x1000)];
            && SegmentsOk(gs, file)
            && (LoadElf(m, d, vmas, gs, file).Some? ==>
                  var (m', vmas', _) := LoadElf(m, d, vmas, gs, file).value;
                  Linked(m') && 1 in View(m', d) && At(vmas', 0x1000) == None && !SpaceOk(vmas', View(m', d)))
  {
    hide Inv, View, Dirs, Fit, PagesFrom, AreasOk, Agree, AreasFrom, OnceEach, Loaded, AreasAre, At, InSegments,
         Ordered;
    var gs := [Segment(PT_LOAD, 0, 0x1000, 0, 0x1000, 6, 0x1000)];
    assert FirstPage(gs[0]) == 1 && EndPage(gs[0]) == 2 && Loadable(gs[0]) && !High(gs[0]);
    if LoadElf(m, d, vmas, gs, file).Some? {
      LoadElfExact(m, d, vmas, gs, file);
      LoadElfAgreesIff(m, d, vmas, gs, file);
      ApartMatching(gs);
      InFirst(gs, 0, 1);
      AreasOrdered(LoadElf(m, d, vmas, gs, file).value.1);
      AreaAt(LoadElf(m, d, vmas, gs, file).value.1, gs, 1);
    }
  }
}
