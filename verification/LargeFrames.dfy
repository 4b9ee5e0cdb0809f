/** The allocator of whole runs of kernel pages (kernel/allocator/large_frame.cpp) on top of the range
    vector.  Sizes are 32-bit words: a page count is shifted left by 12 bits before it is used. */
module LargeFrames {
  import opened Basics
  import opened Ranges

  const LARGE_BASE: int := 0xD000_0000
  const LARGE_TOP: int := 0xFFFF_F000

  /** page << 12 on a 32-bit word. */
  function Bytes(pages: nat): nat {
    pages * PAGE % WORD
  }

  /** The shift keeps the size exactly when the count is below 2^20. */
  lemma BytesExact(pages: nat)
    ensures Bytes(pages) == pages * PAGE <==> pages < 0x10_0000
  {
  }

  lemma BytesPages(pages: nat)
    ensures Bytes(pages) / PAGE == pages % 0x10_0000
  {
  }

  /** A search for 0 bytes ends at the top when one block fills the region; insert then has no entry to look
      ahead to. */
  predicate AllocDefined(rs: seq<Range<()>>, pages: nat)
    requires Valid(rs, LARGE_BASE, LARGE_TOP)
  {
    FindFree(rs, LARGE_BASE, LARGE_TOP, Bytes(pages), LARGE_BASE) != Some(LARGE_TOP)
  }

  function Alloc(rs: seq<Range<()>>, pages: nat): (r: Option<(seq<Range<()>>, int)>)
    requires Valid(rs, LARGE_BASE, LARGE_TOP) && AllocDefined(rs, pages)
  {
    match FindFree(rs, LARGE_BASE, LARGE_TOP, Bytes(pages), LARGE_BASE)
    case None => None
    case Some(a) =>
      FoundPlaceExact(rs, LARGE_BASE, LARGE_TOP, Bytes(pages), LARGE_BASE, ());
      match Insert(rs, Range(a, a + Bytes(pages), ())) {
        case None => None
        case Some(rs') => Some((rs', a))
      }
  }

  /** None where the kernel stops: an address that is not page aligned or not the start of a block. */
  function Free(rs: seq<Range<()>>, a: int): (r: Option<(seq<Range<()>>, nat)>)
    requires Valid(rs, LARGE_BASE, LARGE_TOP) && 0 <= a
  {
    if !Aligned(a) then None
    else
      var i := Locate(rs, a);
      if rs[i].begin != a then None
      else Some((rs[..i] + rs[i + 1..], (rs[i].end - rs[i].begin) / PAGE))
  }

  /** All blocks consist of whole pages. */
  ghost predicate WholePages(rs: seq<Range<()>>) {
    forall i :: 0 <= i < |rs| ==> Aligned(rs[i].begin) && Aligned(rs[i].end)
  }

  lemma {:induction false} FoundWhole(rs: seq<Range<()>>, size: nat, pos: nat)
    requires WholePages(rs) && pos < |rs|
    ensures var r := FindFrom(rs, size, LARGE_BASE, pos); r.Some? ==> Aligned(r.value)
    decreases |rs| - pos
  {
    if pos + 1 < |rs| {
      FoundWhole(rs, size, pos + 1);
    }
  }

  lemma InsertWhole(rs: seq<Range<()>>, e: Range<()>)
    requires |rs| > 0 && rs[0].begin <= e.begin < rs[|rs| - 1].begin && Insert(rs, e).Some?
    requires WholePages(rs) && Aligned(e.begin) && Aligned(e.end)
    ensures WholePages(Insert(rs, e).value)
  {
    hide Locate;
  }

  /** Only a request for 0 bytes is undefined, and only when one block fills the region. */
  lemma AllocDefinedIff(rs: seq<Range<()>>, pages: nat)
    requires Valid(rs, LARGE_BASE, LARGE_TOP)
    ensures !AllocDefined(rs, pages) <==>
            Bytes(pages) == 0 && exists i :: Has(rs, i, LARGE_BASE) && rs[i].end == LARGE_TOP
  {
    hide FindFree, Ordered, Covered, Bytes;
    if Bytes(pages) > 0 {
      if FindFree(rs, LARGE_BASE, LARGE_TOP, Bytes(pages), LARGE_BASE).Some? {
        FoundPlaceExact(rs, LARGE_BASE, LARGE_TOP, Bytes(pages), LARGE_BASE, ());
      }
    } else {
      FindNothing(rs, LARGE_BASE, LARGE_TOP, LARGE_BASE);
      CoveredHas(rs, LARGE_BASE);
    }
  }

  /** An allocation fails exactly when every unused stretch that is large enough has a run of no pages inside; one of
      0 bytes when the block at the start of the region is followed at once by another. */
  lemma AllocFails(rs: seq<Range<()>>, pages: nat)
    requires Valid(rs, LARGE_BASE, LARGE_TOP) && AllocDefined(rs, pages)
    ensures Bytes(pages) > 0 ==>
              (Alloc(rs, pages).None? <==>
                 forall a :: Unused(rs, LARGE_BASE, LARGE_TOP, a, Bytes(pages)) ==> Straddles(rs, a, Bytes(pages)))
    ensures Bytes(pages) == 0 ==>
              (Alloc(rs, pages).None? <==> exists i :: Has(rs, i, LARGE_BASE) && Covered(rs, rs[i].end))
  {
    hide Gap, FindFree, Insert, Ordered, Covered, Straddles;
    var size := Bytes(pages);
    if FindFree(rs, LARGE_BASE, LARGE_TOP, size, LARGE_BASE).Some? {
      FoundPlaceExact(rs, LARGE_BASE, LARGE_TOP, size, LARGE_BASE, ());
    }
    if size > 0 {
      FindFreeLeast(rs, LARGE_BASE, LARGE_TOP, size, LARGE_BASE);
      forall a ensures Gap(rs, a, size) <==> Unused(rs, LARGE_BASE, LARGE_TOP, a, size) && !Straddles(rs, a, size) {
        GapIsUncovered(rs, LARGE_BASE, LARGE_TOP, a, size);
      }
    } else {
      FindNothing(rs, LARGE_BASE, LARGE_TOP, LARGE_BASE);
      CoveredHas(rs, LARGE_BASE);
    }
  }

  lemma CoveredHas(rs: seq<Range<()>>, a: int)
    ensures Covered(rs, a) <==> exists i :: Has(rs, i, a)
  {
  }

  /** Otherwise it adds one block of free pages. */
  lemma AllocAdds(rs: seq<Range<()>>, pages: nat)
    requires Valid(rs, LARGE_BASE, LARGE_TOP) && AllocDefined(rs, pages) && WholePages(rs) && Alloc(rs, pages).Some?
    ensures var (rs', a) := Alloc(rs, pages).value;
            && LARGE_BASE <= a < LARGE_TOP && a + Bytes(pages) <= LARGE_TOP && Aligned(a)
            && Insert(rs, Range(a, a + Bytes(pages), ())) == Some(rs')
            && Valid(rs', LARGE_BASE, LARGE_TOP) && WholePages(rs')
  {
    hide Insert, FindFrom, At, Covered, Ordered, WholePages;
    var size := Bytes(pages);
    FoundPlaceExact(rs, LARGE_BASE, LARGE_TOP, size, LARGE_BASE, ());
    FoundWhole(rs, size, Locate(rs, LARGE_BASE));
    var a := FindFree(rs, LARGE_BASE, LARGE_TOP, size, LARGE_BASE).value;
    var e := Range(a, a + size, ());
    InsertAdds(rs, LARGE_BASE, LARGE_TOP, e);
    InsertWhole(rs, e);
  }

  /** A block of pages goes to the lowest unused stretch that is large enough and has no run of no pages inside. */
  lemma AllocLeast(rs: seq<Range<()>>, pages: nat)
    requires Valid(rs, LARGE_BASE, LARGE_TOP) && AllocDefined(rs, pages) && Alloc(rs, pages).Some? && Bytes(pages) > 0
    ensures var a, n := Alloc(rs, pages).value.1, Bytes(pages);
            && Unused(rs, LARGE_BASE, LARGE_TOP, a, n) && !Straddles(rs, a, n)
            && forall b :: b < a && Unused(rs, LARGE_BASE, LARGE_TOP, b, n) ==> Straddles(rs, b, n)
  {
    hide Gap, FindFree, Insert, Ordered, Straddles, Unused, Bytes;
    var n := Bytes(pages);
    FindFreeLeast(rs, LARGE_BASE, LARGE_TOP, n, LARGE_BASE);
    FoundPlaceExact(rs, LARGE_BASE, LARGE_TOP, n, LARGE_BASE, ());
    forall b ensures Gap(rs, b, n) <==> Unused(rs, LARGE_BASE, LARGE_TOP, b, n) && !Straddles(rs, b, n) {
      GapIsUncovered(rs, LARGE_BASE, LARGE_TOP, b, n);
    }
    forall b | Unused(rs, LARGE_BASE, LARGE_TOP, b, n) ensures LARGE_BASE <= b {
      UnusedAbove(rs, b, n);
    }
  }

  lemma UnusedAbove(rs: seq<Range<()>>, a: int, n: int)
    requires Unused(rs, LARGE_BASE, LARGE_TOP, a, n)
    ensures LARGE_BASE <= a
  {
  }

  /** A free stops the kernel exactly if its address is between pages or no block starts there; otherwise the last block
      that does is taken out. */
  lemma FreeFails(rs: seq<Range<()>>, a: int)
    requires Valid(rs, LARGE_BASE, LARGE_TOP) && 0 <= a
    ensures Free(rs, a).None? <==> a % 4096 != 0 || forall i :: 0 <= i < |rs| ==> rs[i].begin != a
    ensures Free(rs, a).Some? ==>
              exists i :: 0 <= i < |rs| && rs[i].begin == a && (forall j :: i < j < |rs| ==> a < rs[j].begin)
                          && Free(rs, a).value == (rs[..i] + rs[i + 1..], (rs[i].end - a) / 4096)
  {
    hide Ordered, Locate;
    LocateSplits(rs, a);
    var i := Locate(rs, a);
    if j :| 0 <= j < |rs| && rs[j].begin == a {
      assert j <= i;
      Monotone(rs, j, i);
    }
  }

  /** Taking out the entry that was put in. */
  lemma InsertThenErase(rs: seq<Range<()>>, e: Range<()>)
    requires Valid(rs, LARGE_BASE, LARGE_TOP) && LARGE_BASE <= e.begin < LARGE_TOP && e.begin <= e.end
    requires Insert(rs, e).Some?
    ensures var rs' := Insert(rs, e).value;
            && Valid(rs', LARGE_BASE, LARGE_TOP)
            && var i := Locate(rs', e.begin); rs'[i] == e && rs'[..i] + rs'[i + 1..] == rs
  {
    hide Locate, At, Ordered;
    InsertAdds(rs, LARGE_BASE, LARGE_TOP, e);
    LocateSplits(rs, e.begin);
    var i := Locate(rs, e.begin) + 1;
    PutAndTaken(rs, i, e);
    LocatePut(rs, i, e, Insert(rs, e).value);
  }

  lemma PutAndTaken(rs: seq<Range<()>>, i: nat, e: Range<()>)
    requires i <= |rs|
    ensures var rs' := rs[..i] + [e] + rs[i..]; rs'[i] == e && rs'[..i] + rs'[i + 1..] == rs
  {
  }

  lemma LocatePut(rs: seq<Range<()>>, i: nat, e: Range<()>, rs': seq<Range<()>>)
    requires i <= |rs| && rs' == rs[..i] + [e] + rs[i..] && Ordered(rs') && rs'[0].begin <= e.begin
    requires forall j :: i <= j < |rs| ==> e.begin < rs[j].begin
    ensures Locate(rs', e.begin) == i
  {
    hide Ordered;
    LocateSplits(rs', e.begin);
    assert rs'[i] == e;
    forall j | i < j < |rs'| ensures e.begin < rs'[j].begin {
      assert rs'[j] == rs[j - 1];
    }
    assert rs'[Locate(rs', e.begin)].begin <= e.begin;
  }

  /** Freeing an allocated block restores the vector and reports the number of its pages. */
  lemma AllocThenFree(rs: seq<Range<()>>, pages: nat)
    requires Valid(rs, LARGE_BASE, LARGE_TOP) && AllocDefined(rs, pages) && WholePages(rs) && Alloc(rs, pages).Some?
    ensures var (rs', a) := Alloc(rs, pages).value;
            Valid(rs', LARGE_BASE, LARGE_TOP) && 0 <= a && Free(rs', a) == Some((rs, pages % 0x10_0000))
  {
    hide Insert, Locate, WholePages, FindFree, Ordered, Bytes, Alloc;
    AllocAdds(rs, pages);
    BytesPages(pages);
    var (rs', a) := Alloc(rs, pages).value;
    InsertThenErase(rs, Range(a, a + Bytes(pages), ()));
  }

  // ----- The code

  method AllocIn(m: RangeManager<()>, pages: nat) returns (r: Option<int>)
    requires m.base == LARGE_BASE && m.top == LARGE_TOP && Valid(m.addrs, LARGE_BASE, LARGE_TOP)
    requires AllocDefined(m.addrs, pages)
    modifies m
    ensures match Alloc(old(m.addrs), pages)
            case None => r == None && m.addrs == old(m.addrs)
            case Some((rs, a)) => r == Some(a) && m.addrs == rs
  {
    hide FindFree, Insert;
    var place := m.FindFreePlace(Bytes(pages), LARGE_BASE);
    if place.None? {
      return None;
    }
    FoundPlaceExact(m.addrs, LARGE_BASE, LARGE_TOP, Bytes(pages), LARGE_BASE, ());
    var ok := m.InsertEntry(Range(place.value, place.value + Bytes(pages), ()));
    return if ok then place else None;
  }

  method FreeIn(m: RangeManager<()>, a: int) returns (pages: Option<nat>)
    requires Valid(m.addrs, LARGE_BASE, LARGE_TOP) && 0 <= a
    modifies m
    ensures match Free(old(m.addrs), a)
            case None => pages == None && m.addrs == old(m.addrs)
            case Some((rs, n)) => pages == Some(n) && m.addrs == rs
  {
    hide Locate;
    if ThisPage(a) != a {
      return None;
    }
    var i := Locate(m.addrs, a);
    if m.addrs[i].begin != a {
      return None;
    }
    var n := (m.addrs[i].end - m.addrs[i].begin) / PAGE;
    m.addrs := m.addrs[..i] + m.addrs[i + 1..];
    return Some(n);
  }
}
