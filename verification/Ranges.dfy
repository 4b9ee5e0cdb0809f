/** The sorted range vector of kernel/paging/range.hpp: half-open address ranges kept in order between
    two sentinels, with locate, insert, first-fit search and erase.

    The functions give each operation's result in closed form; class RangeManager carries the code's own
    branches and loops and is proved against them.  What an operation means to a caller (which addresses
    are covered, and with which attributes) is stated through At. */
module Ranges {
  import opened Basics

  const SENTINEL_END: int := 0xFFFFF000

  datatype Range<A> = Range(begin: int, end: int, attr: A) {
    predicate Contains(a: int) {
      begin <= a < end
    }

    /** `target` lies in the hole between this range and `right`. */
    predicate Bounds(right: Range<A>, lo: int, hi: int) {
      end <= lo && hi <= right.begin
    }
  }

  // ----- Well-formed vectors

  ghost predicate Ordered<A>(rs: seq<Range<A>>) {
    && (forall i :: 0 <= i < |rs| ==> rs[i].begin <= rs[i].end)
    && (forall i, j :: 0 <= i < j < |rs| ==> rs[i].end <= rs[j].begin)
  }

  /** Ordered, starting with [0, base) and ending with [top, 0xFFFFF000).  Empty ranges are allowed: a
      length that rounds up to 2^32 inserts one. */
  ghost predicate Valid<A>(rs: seq<Range<A>>, base: int, top: int) {
    && 0 < base <= top <= SENTINEL_END
    && |rs| >= 2
    && rs[0].begin == 0 && rs[0].end == base
    && rs[|rs| - 1].begin == top && rs[|rs| - 1].end == SENTINEL_END
    && Ordered(rs)
  }

  /** Entry i is not a sentinel and contains a. */
  ghost predicate Has<A>(rs: seq<Range<A>>, i: int, a: int) {
    0 < i < |rs| - 1 && rs[i].Contains(a)
  }

  ghost predicate Covered<A>(rs: seq<Range<A>>, a: int) {
    exists i :: Has(rs, i, a)
  }

  /** The entry between the sentinels that contains a. */
  ghost function At<A>(rs: seq<Range<A>>, a: int): Option<Range<A>> {
    if Covered(rs, a) then
      var i :| Has(rs, i, a);
      Some(rs[i])
    else
      None
  }

  lemma AtIs<A>(rs: seq<Range<A>>, i: int, a: int)
    requires Ordered(rs) && Has(rs, i, a)
    ensures At(rs, a) == Some(rs[i])
  {
  }

  // ----- Replacing a stretch of entries

  function Splice<A>(rs: seq<Range<A>>, l: int, r: int, mid: seq<Range<A>>): (rs': seq<Range<A>>)
    requires 0 <= l <= r <= |rs|
  {
    rs[..l] + mid + rs[r..]
  }

  ghost predicate Between<A>(rs: seq<Range<A>>, l: int, r: int, mid: seq<Range<A>>)
    requires 0 < l <= r < |rs|
  {
    forall k :: 0 <= k < |mid| ==> rs[l - 1].end <= mid[k].begin && mid[k].end <= rs[r].begin
  }

  lemma SpliceKeepsValid<A>(rs: seq<Range<A>>, base: int, top: int, l: int, r: int, mid: seq<Range<A>>)
    requires Valid(rs, base, top) && 0 < l <= r < |rs|
    requires Ordered(mid) && Between(rs, l, r, mid)
    ensures Valid(Splice(rs, l, r, mid), base, top)
  {
  }

  ghost predicate HasWithin<A>(rs: seq<Range<A>>, l: int, r: int, a: int) {
    exists i :: l <= i < r && Has(rs, i, a)
  }

  lemma SpliceHas<A>(rs: seq<Range<A>>, l: int, r: int, mid: seq<Range<A>>, j: int, a: int)
    requires 0 < l <= r < |rs|
    ensures Has(Splice(rs, l, r, mid), j, a) <==>
            if j < l then Has(rs, j, a)
            else if j < l + |mid| then mid[j - l].Contains(a)
            else Has(rs, j - l - |mid| + r, a)
  {
  }

  /** Has finds at most one entry. */
  lemma HasUnique<A>(rs: seq<Range<A>>, i: int, a: int)
    requires Ordered(rs) && Has(rs, i, a)
    ensures forall j :: Has(rs, j, a) ==> j == i
  {
  }

  /** Replacing entries l..r adds what mid covers and takes away what they covered. */
  lemma SpliceAt<A>(rs: seq<Range<A>>, base: int, top: int, l: int, r: int, mid: seq<Range<A>>, a: int)
    requires Valid(rs, base, top) && 0 < l <= r < |rs|
    requires Ordered(mid) && Between(rs, l, r, mid)
    ensures var rs' := Splice(rs, l, r, mid);
            && (forall k :: 0 <= k < |mid| && mid[k].Contains(a) ==> At(rs', a) == Some(mid[k]))
            && ((forall k :: 0 <= k < |mid| ==> !mid[k].Contains(a)) ==>
                  At(rs', a) == if HasWithin(rs, l, r, a) then None else At(rs, a))
  {
    var rs' := Splice(rs, l, r, mid);
    SpliceKeepsValid(rs, base, top, l, r, mid);
    forall k | 0 <= k < |mid| && mid[k].Contains(a) ensures At(rs', a) == Some(mid[k]) {
      AtIs(rs', l + k, a);
    }
    if forall k :: 0 <= k < |mid| ==> !mid[k].Contains(a) {
      SpliceAtRest(rs, rs', l, r, mid, a);
    }
  }

  lemma SpliceAtRest<A>(rs: seq<Range<A>>, rs': seq<Range<A>>, l: int, r: int, mid: seq<Range<A>>, a: int)
    requires Ordered(rs) && Ordered(rs') && 0 < l <= r < |rs| && rs' == Splice(rs, l, r, mid)
    requires forall k :: 0 <= k < |mid| ==> !mid[k].Contains(a)
    ensures At(rs', a) == if HasWithin(rs, l, r, a) then None else At(rs, a)
  {
    if j :| Has(rs', j, a) {
      SpliceHas(rs, l, r, mid, j, a);
      var i := if j < l then j else j - |mid| - l + r;
      AtIs(rs', j, a);
      AtIs(rs, i, a);
      HasUnique(rs, i, a);
    } else if i :| Has(rs, i, a) {
      SpliceHas(rs, l, r, mid, if i < l then i else i - r + l + |mid|, a);
    }
  }

  // ----- Locate

  /** Counting on from n, the number of leading entries that begin at or below a. */
  function PartitionPoint<A>(rs: seq<Range<A>>, a: int, n: nat := 0): (m: nat)
    requires n <= |rs|
    ensures n <= m <= |rs|
    ensures forall i :: n <= i < m ==> rs[i].begin <= a
    ensures m < |rs| ==> a < rs[m].begin
    decreases |rs| - n
  {
    if n < |rs| && rs[n].begin <= a then PartitionPoint(rs, a, n + 1) else n
  }

  /** The last entry that begins at or below a (the step back from the first one requires some). */
  function Locate<A>(rs: seq<Range<A>>, a: int): (i: nat)
    requires |rs| > 0 && rs[0].begin <= a
    ensures i < |rs|
    ensures forall j :: 0 <= j <= i ==> rs[j].begin <= a
    ensures i + 1 < |rs| ==> a < rs[i + 1].begin
  {
    PartitionPoint(rs, a) - 1
  }

  lemma Monotone<A>(rs: seq<Range<A>>, i: int, j: int)
    requires Ordered(rs) && 0 <= i <= j < |rs|
    ensures rs[i].begin <= rs[j].begin && rs[i].end <= rs[j].end
  {
  }

  /** In an ordered vector every entry after the located one begins above the address. */
  lemma LocateSplits<A>(rs: seq<Range<A>>, a: int)
    requires Ordered(rs) && |rs| > 0 && rs[0].begin <= a
    ensures forall j :: Locate(rs, a) < j < |rs| ==> a < rs[j].begin
  {
  }

  lemma LocateIs<A>(rs: seq<Range<A>>, i: int, a: int)
    requires Ordered(rs) && 0 <= i < |rs| && rs[i].Contains(a) && rs[0].begin <= a
    ensures Locate(rs, a) == i
  {
    LocateSplits(rs, a);
    assert rs[Locate(rs, a)].begin <= a;
    assert forall j :: i < j < |rs| ==> rs[i].end <= rs[j].begin;
  }

  // ----- Insert

  /** [a, a + size) fits between two neighbouring entries. */
  ghost predicate Fits<A>(rs: seq<Range<A>>, g: int, a: int, size: int) {
    0 <= g < |rs| - 1 && rs[g].end <= a && a + size <= rs[g + 1].begin
  }

  ghost predicate Gap<A>(rs: seq<Range<A>>, a: int, size: int) {
    exists g :: Fits(rs, g, a, size)
  }

  function Insert<A>(rs: seq<Range<A>>, e: Range<A>): (r: Option<seq<Range<A>>>)
    requires |rs| > 0 && rs[0].begin <= e.begin < rs[|rs| - 1].begin
  {
    var pos := Locate(rs, e.begin);
    if rs[pos].Bounds(rs[pos + 1], e.begin, e.end) then
      Some(rs[..pos + 1] + [e] + rs[pos + 1..])
    else
      None
  }

  /** A hole that takes a non-empty range starts at the located entry. */
  lemma FitsLocated<A>(rs: seq<Range<A>>, g: int, a: int, size: int)
    requires Ordered(rs) && |rs| > 0 && rs[0].begin <= a && size > 0
    requires Fits(rs, g, a, size)
    ensures g == Locate(rs, a)
  {
  }

  /** A non-empty range is accepted exactly when there is room for it. */
  lemma InsertAccepts<A>(rs: seq<Range<A>>, base: int, top: int, e: Range<A>)
    requires Valid(rs, base, top) && 0 <= e.begin < top && e.begin < e.end
    ensures Insert(rs, e).Some? <==> Gap(rs, e.begin, e.end - e.begin)
  {
    if Insert(rs, e).Some? {
      assert Fits(rs, Locate(rs, e.begin), e.begin, e.end - e.begin);
    }
    if Gap(rs, e.begin, e.end - e.begin) {
      var g :| Fits(rs, g, e.begin, e.end - e.begin);
      FitsLocated(rs, g, e.begin, e.end - e.begin);
    }
  }

  /** An accepted range adds its own addresses with its own attributes and changes no other. */
  lemma FitsNothing<A>(rs: seq<Range<A>>, pos: nat, e: Range<A>, a: int)
    requires Ordered(rs) && pos + 1 < |rs| && rs[pos].end <= e.begin && e.end <= rs[pos + 1].begin && e.Contains(a)
    ensures !Covered(rs, a)
  {
    forall i | Has(rs, i, a) ensures false {
      if i <= pos { Monotone(rs, i, pos); } else { Monotone(rs, pos + 1, i); }
    }
  }

  lemma InsertAdds<A>(rs: seq<Range<A>>, base: int, top: int, e: Range<A>)
    requires Valid(rs, base, top) && 0 <= e.begin < top && e.begin <= e.end
    requires Insert(rs, e).Some?
    ensures Valid(Insert(rs, e).value, base, top)
    ensures forall a :: At(Insert(rs, e).value, a) == if e.Contains(a) then Some(e) else At(rs, a)
    ensures forall a :: e.Contains(a) ==> !Covered(rs, a)
  {
    var pos := Locate(rs, e.begin);
    assert Insert(rs, e).value == Splice(rs, pos + 1, pos + 1, [e]);
    SpliceKeepsValid(rs, base, top, pos + 1, pos + 1, [e]);
    forall a ensures At(Insert(rs, e).value, a) == if e.Contains(a) then Some(e) else At(rs, a) {
      SpliceAt(rs, base, top, pos + 1, pos + 1, [e], a);
      assert [e][0] == e;
    }
    forall a | e.Contains(a) ensures !Covered(rs, a) {
      FitsNothing(rs, pos, e, a);
    }
  }

  // ----- First fit

  /** The scan from entry pos on: the first hole at or above hint that takes `size` bytes.  The sum is a
      32-bit one; its overflow ends the search. */
  function FindFrom<A>(rs: seq<Range<A>>, size: int, hint: int, pos: nat): (r: Option<int>)
    requires pos < |rs|
    ensures r.Some? ==> hint <= r.value
    decreases |rs| - pos
  {
    if pos + 1 == |rs| then None
    else
      var lower := Max(rs[pos].end, hint);
      if lower + size >= WORD then None
      else if rs[pos].Bounds(rs[pos + 1], lower, lower + size) then Some(lower)
      else FindFrom(rs, size, hint, pos + 1)
  }

  function FindFree<A>(rs: seq<Range<A>>, base: int, top: int, size: int, hint: int): (r: Option<int>)
    requires |rs| > 0 && rs[0].begin <= base
    ensures r.Some? ==> Max(hint, base) <= r.value
  {
    if hint >= top then None
    else
      var start := Max(hint, base);
      FindFrom(rs, size, start, Locate(rs, start))
  }

  /** Any result is a hole at or above start. */
  lemma {:induction false} FindFromFits<A>(rs: seq<Range<A>>, size: int, start: int, pos: nat)
    requires pos < |rs|
    ensures var r := FindFrom(rs, size, start, pos);
            r.Some? ==> start <= r.value && Gap(rs, r.value, size)
    decreases |rs| - pos
  {
    if pos + 1 < |rs| {
      var lower := Max(rs[pos].end, start);
      if lower + size < WORD {
        if rs[pos].Bounds(rs[pos + 1], lower, lower + size) {
          assert Fits(rs, pos, lower, size);
        } else {
          FindFromFits(rs, size, start, pos + 1);
        }
      }
    }
  }

  /** When no hole before entry pos fits, the scan from pos finds the least fitting address. */
  lemma {:induction false} FindFromLeast<A>(rs: seq<Range<A>>, base: int, top: int, size: int, start: int, pos: nat)
    requires Valid(rs, base, top) && size > 0 && pos < |rs|
    requires forall g, a :: start <= a && Fits(rs, g, a, size) ==> g >= pos
    ensures var r := FindFrom(rs, size, start, pos);
            forall a :: start <= a && Gap(rs, a, size) ==> r.Some? && r.value <= a
    decreases |rs| - pos
  {
    if pos + 1 < |rs| {
      var lower := Max(rs[pos].end, start);
      forall g, a | start <= a && Fits(rs, g, a, size) ensures lower <= a && a + size <= top {
        Monotone(rs, pos, g);
        Monotone(rs, g + 1, |rs| - 1);
      }
      if lower + size < WORD && !rs[pos].Bounds(rs[pos + 1], lower, lower + size) {
        FindFromLeast(rs, base, top, size, start, pos + 1);
      }
    }
  }

  /** First fit is least fit: the result is the least address at or above max(hint, base) with room below
      top, and there is none exactly when no such address exists. */
  lemma FindFreeLeast<A>(rs: seq<Range<A>>, base: int, top: int, size: int, hint: int)
    requires Valid(rs, base, top) && size > 0
    ensures var r := FindFree(rs, base, top, size, hint);
            && (r.Some? ==> Max(hint, base) <= r.value && r.value + size <= top && Gap(rs, r.value, size))
            && (forall a :: Max(hint, base) <= a && Gap(rs, a, size) ==> r.Some? && r.value <= a)
  {
    forall g, a | Fits(rs, g, a, size) ensures a + size <= top {
      Monotone(rs, g + 1, |rs| - 1);
    }
    if hint < top {
      var start := Max(hint, base);
      var pos := Locate(rs, start);
      LocateSplits(rs, start);
      forall g, a | start <= a && Fits(rs, g, a, size) ensures g >= pos {
        assert start < rs[g + 1].begin;
      }
      FindFromFits(rs, size, start, pos);
      FindFromLeast(rs, base, top, size, start, pos);
    }
  }

  /** A stretch between base and top in which no address is covered. */
  ghost predicate Unused<A>(rs: seq<Range<A>>, base: int, top: int, a: int, size: int) {
    base <= a && a + size <= top && forall x :: a <= x < a + size ==> !Covered(rs, x)
  }

  /** An empty entry lies strictly inside the stretch. */
  ghost predicate Straddles<A>(rs: seq<Range<A>>, a: int, size: int) {
    exists i :: EmptyInside(rs, i, a, size)
  }

  ghost predicate EmptyInside<A>(rs: seq<Range<A>>, i: int, a: int, size: int) {
    0 < i < |rs| - 1 && rs[i].begin == rs[i].end && a < rs[i].begin < a + size
  }

  /** Having room between neighbouring entries means: unused, and no empty entry inside. */
  lemma GapIsUncovered<A>(rs: seq<Range<A>>, base: int, top: int, a: int, size: int)
    requires Valid(rs, base, top) && size > 0
    ensures Gap(rs, a, size) <==> Unused(rs, base, top, a, size) && !Straddles(rs, a, size)
  {
    hide Ordered, Gap, Straddles;
    if Gap(rs, a, size) {
      GapUnused(rs, base, top, a, size);
    }
    if Unused(rs, base, top, a, size) && !Straddles(rs, a, size) {
      UnusedGap(rs, base, top, a, size);
    }
  }

  lemma GapUnused<A>(rs: seq<Range<A>>, base: int, top: int, a: int, size: int)
    requires Valid(rs, base, top) && size > 0 && Gap(rs, a, size)
    ensures Unused(rs, base, top, a, size) && !Straddles(rs, a, size)
  {
    var g :| Fits(rs, g, a, size);
    Monotone(rs, 0, g);
    Monotone(rs, g + 1, |rs| - 1);
    forall i | 0 < i < |rs| - 1 ensures rs[i].end <= a || a + size <= rs[i].begin {
      if i <= g { Monotone(rs, i, g); } else { Monotone(rs, g + 1, i); }
    }
  }

  lemma UnusedGap<A>(rs: seq<Range<A>>, base: int, top: int, a: int, size: int)
    requires Valid(rs, base, top) && size > 0 && Unused(rs, base, top, a, size) && !Straddles(rs, a, size)
    ensures Gap(rs, a, size)
  {
    LocatedOrFree(rs, base, top, a);
    LocateSplits(rs, a);
    var g := Locate(rs, a);
    var next := rs[g + 1].begin;
    assert Has(rs, g + 1, next) ==> Covered(rs, next);
    assert EmptyInside(rs, g + 1, a, size) ==> Straddles(rs, a, size);
    assert Fits(rs, g, a, size);
  }

  /** First fit is least fit exactly when the least unused stretch has no empty entry inside. */
  lemma LeastFitIff<A>(rs: seq<Range<A>>, base: int, top: int, size: int, hint: int, a: int)
    requires Valid(rs, base, top) && size > 0 && Max(hint, base) <= a && Unused(rs, base, top, a, size)
    requires forall b :: Max(hint, base) <= b < a ==> !Unused(rs, base, top, b, size)
    ensures FindFree(rs, base, top, size, hint) == Some(a) <==> !Straddles(rs, a, size)
  {
    hide Ordered, Gap, Straddles, FindFree, Unused;
    FindFreeLeast(rs, base, top, size, hint);
    GapIsUncovered(rs, base, top, a, size);
    var r := FindFree(rs, base, top, size, hint);
    if r.Some? {
      GapIsUncovered(rs, base, top, r.value, size);
    }
  }

  /** "The following insert always succeeds": a found place takes the range, with its own attributes. */
  lemma FoundPlaceInserts<A>(rs: seq<Range<A>>, base: int, top: int, size: int, hint: int, x: A)
    requires Valid(rs, base, top) && size > 0
    requires FindFree(rs, base, top, size, hint).Some?
    ensures var place := FindFree(rs, base, top, size, hint).value;
            && base <= place && place + size <= top
            && Insert(rs, Range(place, place + size, x)).Some?
  {
    FindFreeLeast(rs, base, top, size, hint);
    var place := FindFree(rs, base, top, size, hint).value;
    InsertAccepts(rs, base, top, Range(place, place + size, x));
  }

  // Nothing to place: a length that rounds to 0 makes a search for 0 bytes and an empty range.

  /** An address lies in the located entry or, but for the sentinels, in none. */
  lemma LocatedOrFree<A>(rs: seq<Range<A>>, base: int, top: int, a: int)
    requires Valid(rs, base, top) && 0 <= a < top
    ensures Locate(rs, a) < |rs| - 1
    ensures a < rs[Locate(rs, a)].end <==> a < base || Covered(rs, a)
    ensures base <= a && a < rs[Locate(rs, a)].end ==> Has(rs, Locate(rs, a), a)
  {
    var l := Locate(rs, a);
    Monotone(rs, 0, l);
    if i :| Has(rs, i, a) {
      LocateIs(rs, i, a);
    }
    assert base <= a && a < rs[l].end ==> Has(rs, l, a);
  }

  /** Insert, for every range it is defined on: a non-empty one is taken exactly when some hole has room for
      it, an empty one exactly when its address is above the base and in no entry. */
  lemma InsertExact<A>(rs: seq<Range<A>>, base: int, top: int, e: Range<A>)
    requires Valid(rs, base, top) && 0 <= e.begin < top && e.begin <= e.end
    ensures Insert(rs, e).Some? <==>
            if e.begin < e.end then Gap(rs, e.begin, e.end - e.begin) else base <= e.begin && !Covered(rs, e.begin)
  {
    if e.begin < e.end {
      InsertAccepts(rs, base, top, e);
    } else {
      LocatedOrFree(rs, base, top, e.begin);
    }
  }

  /** A search for 0 bytes stops at once: at its start if nothing covers it, else at the end of the entry that
      does. */
  lemma FindNothing<A>(rs: seq<Range<A>>, base: int, top: int, hint: int)
    requires Valid(rs, base, top) && hint < top
    ensures var start := Max(hint, base);
            && start < top ==>
                 && FindFree(rs, base, top, 0, hint) == Some(Max(rs[Locate(rs, start)].end, start))
                 && (Covered(rs, start) <==> FindFree(rs, base, top, 0, hint) != Some(start))
                 && (forall i :: Has(rs, i, start) ==> FindFree(rs, base, top, 0, hint) == Some(rs[i].end))
  {
    var start := Max(hint, base);
    if start < top {
      var l := Locate(rs, start);
      LocatedOrFree(rs, base, top, start);
      Monotone(rs, l + 1, |rs| - 1);
      forall i | Has(rs, i, start) ensures i == l { LocateIs(rs, i, start); }
    }
  }

  /** The search, for every size: the least fitting place at or above max(hint, base), none exactly when there
      is none; for 0 bytes the start of the search or the end of the entry that covers it. */
  lemma FindFreeExact<A>(rs: seq<Range<A>>, base: int, top: int, size: int, hint: int)
    requires Valid(rs, base, top) && 0 <= size && base < top
    ensures var r, start := FindFree(rs, base, top, size, hint), Max(hint, base);
            && (size > 0 ==>
                  && (r.Some? ==> start <= r.value && r.value + size <= top && Gap(rs, r.value, size))
                  && (forall a :: start <= a && Gap(rs, a, size) ==> r.Some? && r.value <= a))
            && (size == 0 ==>
                  && (r.None? <==> top <= hint)
                  && (r.Some? ==> if Covered(rs, start) then exists i :: Has(rs, i, start) && r.value == rs[i].end
                                  else r.value == start))
  {
    if size > 0 {
      FindFreeLeast(rs, base, top, size, hint);
    } else if hint < top {
      FindNothing(rs, base, top, hint);
    }
  }

  /** The insert that follows a search is always taken, but for one case: the empty range at the start of an
      entry.  (At the top insert would look past the end of the vector.) */
  lemma FoundPlaceExact<A>(rs: seq<Range<A>>, base: int, top: int, size: int, hint: int, x: A)
    requires Valid(rs, base, top) && 0 <= size && base < top && FindFree(rs, base, top, size, hint).Some?
    ensures var place := FindFree(rs, base, top, size, hint).value;
            && base <= place <= top && (size > 0 ==> place + size <= top)
            && (place < top ==> (Insert(rs, Range(place, place + size, x)).Some? <==> size > 0 || !Covered(rs, place)))
  {
    var place := FindFree(rs, base, top, size, hint).value;
    if size > 0 {
      FoundPlaceInserts(rs, base, top, size, hint, x);
    } else {
      FindNothing(rs, base, top, hint);
      var start := Max(hint, base);
      Monotone(rs, Locate(rs, start), |rs| - 1);
      LocatedOrFree(rs, base, top, start);
      assert rs[Locate(rs, start)].end <= rs[|rs| - 1].begin;
      if place < top {
        InsertExact(rs, base, top, Range(place, place + size, x));
      }
    }
  }

  // ----- Erase

  /** First entry that reaches above lower (one past the end if there is none). */
  function FirstTouched<A>(rs: seq<Range<A>>, lower: int): (l: int)
    requires |rs| > 0 && rs[0].begin <= lower
  {
    var pos := Locate(rs, lower);
    if rs[pos].Contains(lower) then pos else pos + 1
  }

  /** Last entry that starts below upper (-1 if there is none). */
  function LastTouched<A>(rs: seq<Range<A>>, upper: int): (r: int)
    requires |rs| > 0 && rs[0].begin <= upper
  {
    var pos := Locate(rs, upper);
    if rs[pos].begin >= upper then pos - 1 else pos
  }

  /** What is left of the entries l..r once [lower, upper) is cut out of them. */
  function Remains<A>(rs: seq<Range<A>>, l: int, r: int, lower: int, upper: int, split: A -> A): (mid: seq<Range<A>>)
    requires 0 <= l <= r < |rs|
  {
    var x := if l == r && upper < rs[r].end then split(rs[l].attr) else rs[l].attr;
    (if rs[l].begin < lower then [Range(rs[l].begin, lower, x)] else [])
    + (if upper < rs[r].end then [Range(upper, rs[r].end, rs[r].attr)] else [])
  }

  /** The vector once [lower, upper) is erased. */
  function Carve<A>(rs: seq<Range<A>>, lower: int, upper: int, split: A -> A): (rs': seq<Range<A>>)
    requires |rs| > 0 && rs[0].begin <= lower <= upper
  {
    var l, r := FirstTouched(rs, lower), LastTouched(rs, upper);
    if l > r then rs else Splice(rs, l, r + 1, Remains(rs, l, r, lower, upper, split))
  }

  /** The part of an entry inside [lower, upper). */
  function Clip<A>(e: Range<A>, lower: int, upper: int): (int, int) {
    (Max(e.begin, lower), Min(e.end, upper))
  }

  /** The entry that the m-th release call is about: first the cut ends, then the whole ones in order. */
  function Source(l: int, r: int, cutLeft: bool, cutRight: bool, m: int): (i: int)
    requires 0 <= m <= r - l
    ensures l <= i <= r
  {
    if cutLeft && m == 0 then l
    else if cutRight && m == (if cutLeft then 1 else 0) then r
    else l + m - (if cutRight then 1 else 0)
  }

  function CutOut<A>(rs: seq<Range<A>>, l: int, r: int, lower: int, upper: int): (ps: seq<(int, int)>)
    requires 0 <= l <= r < |rs|
    ensures |ps| == r - l + 1
    ensures forall m :: 0 <= m <= r - l ==>
              ps[m] == Clip(rs[Source(l, r, rs[l].begin < lower, upper < rs[r].end, m)], lower, upper)
  {
    var cutLeft, cutRight := rs[l].begin < lower, upper < rs[r].end;
    seq(r - l + 1, m requires 0 <= m <= r - l => Clip(rs[Source(l, r, cutLeft, cutRight, m)], lower, upper))
  }

  /** The stretches handed to the release callback, in the order of the calls. */
  function Released<A>(rs: seq<Range<A>>, lower: int, upper: int): (ps: seq<(int, int)>)
    requires |rs| > 0 && rs[0].begin <= lower <= upper
  {
    var l, r := FirstTouched(rs, lower), LastTouched(rs, upper);
    if l > r then [] else CutOut(rs, l, r, lower, upper)
  }

  lemma CarveIs<A>(rs: seq<Range<A>>, l: int, r: int, lower: int, upper: int, split: A -> A)
    requires |rs| > 0 && rs[0].begin <= lower <= upper && 0 <= l && r < |rs|
    requires l == FirstTouched(rs, lower) && r == LastTouched(rs, upper)
    ensures l > r ==> Carve(rs, lower, upper, split) == rs && Released(rs, lower, upper) == []
    ensures l <= r ==>
              && Carve(rs, lower, upper, split) == Splice(rs, l, r + 1, Remains(rs, l, r, lower, upper, split))
              && Released(rs, lower, upper) == CutOut(rs, l, r, lower, upper)
  {
  }

  /** Entries l..r are the ones that [lower, upper) touches: everything before ends by lower, everything
      after starts at upper or later, and what lies strictly between is inside. */
  ghost predicate Touches<A>(rs: seq<Range<A>>, l: int, r: int, lower: int, upper: int) {
    && 0 <= l < |rs| && -1 <= r < |rs| - 1
    && lower < rs[l].end
    && (forall i :: 0 <= i < l ==> rs[i].end <= lower)
    && (forall i :: r < i < |rs| ==> upper <= rs[i].begin)
    && (forall i :: l < i < |rs| ==> lower < rs[i].begin)
    && (forall i :: 0 <= i < r ==> rs[i].end <= upper)
    && (0 <= r ==> rs[r].begin <= upper)
  }

  lemma TouchedTouches<A>(rs: seq<Range<A>>, base: int, top: int, lower: int, upper: int)
    requires Valid(rs, base, top) && 0 <= lower <= upper <= top && lower < top
    ensures Touches(rs, FirstTouched(rs, lower), LastTouched(rs, upper), lower, upper)
    ensures base <= lower ==> 0 < FirstTouched(rs, lower)
    ensures LastTouched(rs, upper) < |rs| - 1
  {
    LocateSplits(rs, lower);
    LocateSplits(rs, upper);
    var l, r := FirstTouched(rs, lower), LastTouched(rs, upper);
    forall i | 0 <= i < l ensures rs[i].end <= lower {
      Monotone(rs, i, l - 1);
      assert i == Locate(rs, lower) || rs[i].end <= rs[Locate(rs, lower)].begin;
    }
    forall i | 0 <= i < r ensures rs[i].end <= upper {
      assert rs[i].end <= rs[r].begin;
    }
    forall i | r < i < |rs| ensures upper <= rs[i].begin {
      if i <= Locate(rs, upper) { Monotone(rs, Locate(rs, upper), i); }
    }
    if base > lower { Monotone(rs, 0, l); }
  }

  lemma RemainsFit<A>(rs: seq<Range<A>>, l: int, r: int, lower: int, upper: int, split: A -> A)
    requires Ordered(rs) && 0 < l <= r < |rs| - 1 && lower <= upper && Touches(rs, l, r, lower, upper)
    ensures Ordered(Remains(rs, l, r, lower, upper, split))
    ensures Between(rs, l, r + 1, Remains(rs, l, r, lower, upper, split))
  {
  }

  /** Which entry, if any, covers an address once the touched entries are cut. */
  lemma CutAt<A>(rs: seq<Range<A>>, base: int, top: int, l: int, r: int, lower: int, upper: int, split: A -> A, a: int)
    requires Valid(rs, base, top) && 0 < l <= r < |rs| - 1 && lower <= upper && Touches(rs, l, r, lower, upper)
    ensures var mid := Remains(rs, l, r, lower, upper, split);
            At(Splice(rs, l, r + 1, mid), a) ==
            if rs[l].begin <= a < lower then Some(mid[0])
            else if rs[r].begin <= a && upper <= a < rs[r].end then Some(mid[|mid| - 1])
            else if HasWithin(rs, l, r + 1, a) then None
            else At(rs, a)
  {
    hide Ordered, Between, HasWithin, Splice, At;
    assert rs[r].begin <= upper;
    var mid := Remains(rs, l, r, lower, upper, split);
    RemainsFit(rs, l, r, lower, upper, split);
    SpliceAt(rs, base, top, l, r + 1, mid, a);
  }

  ghost function AttrAt<A>(rs: seq<Range<A>>, a: int): Option<A> {
    match At(rs, a)
    case None => None
    case Some(e) => Some(e.attr)
  }

  /** What erasing must leave at address a. */
  ghost predicate ErasedAt<A>(rs: seq<Range<A>>, rs': seq<Range<A>>, lower: int, upper: int, split: A -> A, a: int) {
    AttrAt(rs', a) ==
    if lower <= a < upper || At(rs, a).None? then None
    else
      var e := At(rs, a).value;
      Some(if a < lower && upper < e.end then split(e.attr) else e.attr)
  }

  lemma CutErases<A>(rs: seq<Range<A>>, base: int, top: int, l: int, r: int, lower: int, upper: int,
                     split: A -> A, a: int)
    requires Valid(rs, base, top) && 0 < l <= r < |rs| - 1 && lower <= upper && Touches(rs, l, r, lower, upper)
    ensures ErasedAt(rs, Splice(rs, l, r + 1, Remains(rs, l, r, lower, upper, split)), lower, upper, split, a)
  {
    CutAt(rs, base, top, l, r, lower, upper, split, a);
    if i :| Has(rs, i, a) {
      AtIs(rs, i, a);
      if l <= i <= r {
        assert a < lower ==> i == l;
        assert upper <= a ==> i == r;
        assert HasWithin(rs, l, r + 1, a);
      } else {
        HasUnique(rs, i, a);
      }
    } else {
      assert !Has(rs, l, a) && !Has(rs, r, a);
    }
  }

  lemma CutKeepsValid<A>(rs: seq<Range<A>>, base: int, top: int, l: int, r: int, lower: int, upper: int, split: A -> A)
    requires Valid(rs, base, top) && 0 < l <= r < |rs| - 1 && lower <= upper && Touches(rs, l, r, lower, upper)
    ensures Valid(Splice(rs, l, r + 1, Remains(rs, l, r, lower, upper, split)), base, top)
  {
    hide Ordered, Remains, Between, Splice;
    RemainsFit(rs, l, r, lower, upper, split);
    SpliceKeepsValid(rs, base, top, l, r + 1, Remains(rs, l, r, lower, upper, split));
  }

  /** Erasing at or above base keeps the order and both sentinels. */
  lemma EraseKeepsValid<A>(rs: seq<Range<A>>, base: int, top: int, lower: int, upper: int, split: A -> A)
    requires Valid(rs, base, top) && base <= lower <= upper <= top && lower < top
    ensures Valid(Carve(rs, lower, upper, split), base, top)
  {
    hide Ordered, Remains, Splice, FirstTouched, LastTouched, Touches;
    TouchedTouches(rs, base, top, lower, upper);
    var l, r := FirstTouched(rs, lower), LastTouched(rs, upper);
    if l <= r {
      CutKeepsValid(rs, base, top, l, r, lower, upper, split);
    }
  }

  lemma UntouchedErases<A>(rs: seq<Range<A>>, base: int, top: int, l: int, r: int, lower: int, upper: int,
                           split: A -> A, a: int)
    requires Valid(rs, base, top) && r < l && lower <= upper && Touches(rs, l, r, lower, upper)
    ensures ErasedAt(rs, rs, lower, upper, split, a)
  {
  }

  /** Erase removes exactly [lower, upper) from the covered set, and every surviving address keeps its
      attributes, except that the lower part of an entry cut in two takes the split ones. */
  lemma EraseExact<A>(rs: seq<Range<A>>, base: int, top: int, lower: int, upper: int, split: A -> A, a: int)
    requires Valid(rs, base, top) && base <= lower <= upper <= top && lower < top
    ensures ErasedAt(rs, Carve(rs, lower, upper, split), lower, upper, split, a)
  {
    TouchedTouches(rs, base, top, lower, upper);
    var l, r := FirstTouched(rs, lower), LastTouched(rs, upper);
    if l <= r {
      assert Carve(rs, lower, upper, split) == Splice(rs, l, r + 1, Remains(rs, l, r, lower, upper, split));
      hide *;
      CutErases(rs, base, top, l, r, lower, upper, split, a);
    } else {
      assert Carve(rs, lower, upper, split) == rs;
      hide *;
      UntouchedErases(rs, base, top, l, r, lower, upper, split, a);
    }
  }

  /** What is erased leaves a hole: no entry, not even an empty one, is left strictly inside. */
  lemma CarveGap<A>(rs: seq<Range<A>>, base: int, top: int, lower: int, upper: int, split: A -> A)
    requires Valid(rs, base, top) && base <= lower < upper <= top
    ensures Gap(Carve(rs, lower, upper, split), lower, upper - lower)
  {
    hide Ordered, Touches, Remains, Splice, FirstTouched, LastTouched, Gap;
    TouchedTouches(rs, base, top, lower, upper);
    var l, r := FirstTouched(rs, lower), LastTouched(rs, upper);
    if l <= r {
      CutGap(rs, l, r, lower, upper, split);
    } else {
      UncutGap(rs, l, r, lower, upper);
    }
  }

  lemma UncutGap<A>(rs: seq<Range<A>>, l: int, r: int, lower: int, upper: int)
    requires 0 < l && r < l && Touches(rs, l, r, lower, upper)
    ensures Gap(rs, lower, upper - lower)
  {
    assert Fits(rs, l - 1, lower, upper - lower);
  }

  lemma CutGap<A>(rs: seq<Range<A>>, l: int, r: int, lower: int, upper: int, split: A -> A)
    requires 0 < l <= r < |rs| - 1 && lower < upper && Touches(rs, l, r, lower, upper)
    ensures Gap(Splice(rs, l, r + 1, Remains(rs, l, r, lower, upper, split)), lower, upper - lower)
  {
    var mid := Remains(rs, l, r, lower, upper, split);
    var rs' := Splice(rs, l, r + 1, mid);
    assert rs[l - 1].end <= lower && upper <= rs[r + 1].begin;
    assert rs'[l - 1] == rs[l - 1] && rs'[l + |mid|] == rs[r + 1];
    if rs[l].begin < lower {
      assert rs'[l] == mid[0];
      assert |mid| == 2 ==> rs'[l + 1] == mid[1];
      assert Fits(rs', l, lower, upper - lower);
    } else {
      assert |mid| == 1 ==> rs'[l] == mid[0];
      assert Fits(rs', l - 1, lower, upper - lower);
    }
  }

  /** Where an entry of the result comes from: it is an old entry, or what is left below or above the cut. */
  ghost predicate LeftFrom<A>(rs: seq<Range<A>>, j: int, e: Range<A>, lower: int, upper: int, split: A -> A) {
    && 0 < j < |rs| - 1
    && (|| e == rs[j]
        || (rs[j].begin < lower
            && (e == Range(rs[j].begin, lower, rs[j].attr) || e == Range(rs[j].begin, lower, split(rs[j].attr))))
        || (upper < rs[j].end && e == Range(upper, rs[j].end, rs[j].attr)))
  }

  lemma CarveEntry<A>(rs: seq<Range<A>>, base: int, top: int, lower: int, upper: int, split: A -> A, i: int)
    returns (j: int)
    requires Valid(rs, base, top) && base <= lower <= upper <= top && lower < top
    requires 0 < i < |Carve(rs, lower, upper, split)| - 1
    ensures LeftFrom(rs, j, Carve(rs, lower, upper, split)[i], lower, upper, split)
  {
    TouchedTouches(rs, base, top, lower, upper);
    var l, r := FirstTouched(rs, lower), LastTouched(rs, upper);
    if l > r {
      return i;
    }
    hide *;
    j := CutEntry(rs, l, r, lower, upper, split, i);
  }

  /** The high sentinel is never touched. */
  lemma CarveLast<A>(rs: seq<Range<A>>, base: int, top: int, lower: int, upper: int, split: A -> A)
    requires Valid(rs, base, top) && base <= lower <= upper <= top && lower < top
    ensures var rs' := Carve(rs, lower, upper, split); |rs'| > 0 && rs'[|rs'| - 1] == rs[|rs| - 1]
  {
    TouchedTouches(rs, base, top, lower, upper);
    var l, r := FirstTouched(rs, lower), LastTouched(rs, upper);
    hide Valid, Touches, Ordered, Remains;
    CarveIs(rs, l, r, lower, upper, split);
    if l <= r {
      SpliceLast(rs, l, r + 1, Remains(rs, l, r, lower, upper, split));
    }
  }

  lemma SpliceLast<A>(rs: seq<Range<A>>, l: int, r: int, mid: seq<Range<A>>)
    requires 0 <= l <= r < |rs|
    ensures var rs' := Splice(rs, l, r, mid); |rs'| > 0 && rs'[|rs'| - 1] == rs[|rs| - 1]
  {
  }

  lemma CutEntry<A>(rs: seq<Range<A>>, l: int, r: int, lower: int, upper: int, split: A -> A, i: int) returns (j: int)
    requires 0 < l <= r < |rs| - 1
    requires 0 < i < |Splice(rs, l, r + 1, Remains(rs, l, r, lower, upper, split))| - 1
    ensures LeftFrom(rs, j, Splice(rs, l, r + 1, Remains(rs, l, r, lower, upper, split))[i], lower, upper, split)
  {
    var mid := Remains(rs, l, r, lower, upper, split);
    j := if i < l then i
         else if i >= l + |mid| then i - l - |mid| + r + 1
         else if i == l && rs[l].begin < lower then l
         else r;
  }

  // ----- What the release callback sees

  ghost predicate InSome(ps: seq<(int, int)>, a: int) {
    exists m :: 0 <= m < |ps| && ps[m].0 <= a < ps[m].1
  }

  ghost predicate PairwiseDisjoint(ps: seq<(int, int)>) {
    forall m, n :: 0 <= m < n < |ps| ==> ps[m].1 <= ps[n].0 || ps[n].1 <= ps[m].0
  }

  /** The released stretches partition what was removed: they lie in [lower, upper), do not overlap, and
      together hold exactly the covered addresses there. */
  lemma ReleasedPartition<A>(rs: seq<Range<A>>, base: int, top: int, lower: int, upper: int)
    requires Valid(rs, base, top) && base <= lower <= upper <= top && lower < top
    ensures var ps := Released(rs, lower, upper);
            && PairwiseDisjoint(ps)
            && (forall m :: 0 <= m < |ps| ==> lower <= ps[m].0 <= ps[m].1 <= upper)
            && forall a :: InSome(ps, a) <==> lower <= a < upper && Covered(rs, a)
  {
    TouchedTouches(rs, base, top, lower, upper);
    var l, r := FirstTouched(rs, lower), LastTouched(rs, upper);
    if l <= r {
      CutOutDisjoint(rs, l, r, lower, upper);
    }
    forall a ensures InSome(Released(rs, lower, upper), a) <==> lower <= a < upper && Covered(rs, a) {
      if l <= r {
        CutOutCovers(rs, l, r, lower, upper, a);
      }
    }
  }

  lemma CutOutDisjoint<A>(rs: seq<Range<A>>, l: int, r: int, lower: int, upper: int)
    requires Ordered(rs) && 0 < l <= r < |rs| - 1 && lower <= upper && Touches(rs, l, r, lower, upper)
    ensures var ps := CutOut(rs, l, r, lower, upper);
            PairwiseDisjoint(ps) && forall m :: 0 <= m < |ps| ==> lower <= ps[m].0 <= ps[m].1 <= upper
  {
  }

  lemma CutOutWithin<A>(rs: seq<Range<A>>, l: int, r: int, lower: int, upper: int, a: int)
    requires 0 < l <= r < |rs| - 1
    ensures InSome(CutOut(rs, l, r, lower, upper), a) ==> lower <= a < upper && Covered(rs, a)
  {
    var ps := CutOut(rs, l, r, lower, upper);
    if m :| 0 <= m < |ps| && ps[m].0 <= a < ps[m].1 {
      var i := Source(l, r, rs[l].begin < lower, upper < rs[r].end, m);
      var e := Clip(rs[i], lower, upper);
      assert ps[m] == e && e.0 <= a < e.1;
      assert Has(rs, i, a);
    }
  }

  lemma CutOutCovers<A>(rs: seq<Range<A>>, l: int, r: int, lower: int, upper: int, a: int)
    requires Ordered(rs) && 0 < l <= r < |rs| - 1 && lower <= upper && Touches(rs, l, r, lower, upper)
    ensures InSome(CutOut(rs, l, r, lower, upper), a) <==> lower <= a < upper && Covered(rs, a)
  {
    CutOutWithin(rs, l, r, lower, upper, a);
    var ps := CutOut(rs, l, r, lower, upper);
    var cutLeft, cutRight := rs[l].begin < lower, upper < rs[r].end;
    hide Ordered;
    if lower <= a < upper && Covered(rs, a) {
      var i :| Has(rs, i, a);
      assert l <= i <= r;
      var m := if cutLeft && i == l then 0
               else if cutRight && i == r then (if cutLeft then 1 else 0)
               else i - l + (if cutRight then 1 else 0);
      assert Source(l, r, cutLeft, cutRight, m) == i && ps[m] == Clip(rs[i], lower, upper);
    }
  }

  // ----- Below the base

  /** Erase never compares addr with base.  A call below it succeeds and cuts the low sentinel, so the
      vector stays well formed exactly when addr is at or above base (or the call is the empty one at 0). */
  lemma EraseKeepsSentinelsIff<A>(rs: seq<Range<A>>, base: int, top: int, lower: int, upper: int, split: A -> A)
    requires Valid(rs, base, top) && 0 <= lower <= upper <= top && lower < top
    ensures Valid(Carve(rs, lower, upper, split), base, top) <==> base <= lower || upper == 0
  {
    if base <= lower {
      EraseKeepsValid(rs, base, top, lower, upper, split);
    } else {
      EraseBelowBase(rs, base, top, lower, upper, split);
    }
  }

  lemma EraseBelowBase<A>(rs: seq<Range<A>>, base: int, top: int, lower: int, upper: int, split: A -> A)
    requires Valid(rs, base, top) && 0 <= lower < base && lower <= upper <= top
    ensures Valid(Carve(rs, lower, upper, split), base, top) <==> upper == 0
  {
    SentinelTouched(rs, base, top, lower, upper);
    var r := LastTouched(rs, upper);
    if 0 < upper {
      CutLoses(rs, base, top, r, lower, upper, split);
    }
    assert Carve(rs, lower, upper, split) ==
           if 0 > r then rs else Splice(rs, 0, r + 1, Remains(rs, 0, r, lower, upper, split));
  }

  lemma SentinelTouched<A>(rs: seq<Range<A>>, base: int, top: int, lower: int, upper: int)
    requires Valid(rs, base, top) && 0 <= lower < base && lower <= upper <= top
    ensures FirstTouched(rs, lower) == 0
    ensures 0 < upper ==> 0 <= LastTouched(rs, upper)
    ensures upper == 0 ==> LastTouched(rs, upper) == -1
    ensures var r := LastTouched(rs, upper);
            r < |rs| - 1 && (0 <= r ==> rs[r].begin <= upper <= rs[r + 1].begin)
  {
  }

  lemma CutLoses<A>(rs: seq<Range<A>>, base: int, top: int, r: int, lower: int, upper: int, split: A -> A)
    requires Valid(rs, base, top) && 0 <= r < |rs| - 1 && 0 <= lower < base && lower <= upper && 0 < upper
    requires rs[r].begin <= upper <= rs[r + 1].begin
    ensures !Valid(Splice(rs, 0, r + 1, Remains(rs, 0, r, lower, upper, split)), base, top)
  {
  }

  // ----- The code

  class RangeManager<A> {
    const base: int
    const top: int
    var addrs: seq<Range<A>>

    constructor (base: int, top: int, x: A)
      requires 0 < base <= top <= SENTINEL_END
      ensures this.base == base && this.top == top
      ensures addrs == [Range(0, base, x), Range(top, SENTINEL_END, x)]
      ensures Valid(addrs, base, top) && forall a :: !Covered(addrs, a)
    {
      this.base := base;
      this.top := top;
      addrs := [Range(0, base, x), Range(top, SENTINEL_END, x)];
    }

    /** Takes the range exactly when there is room; the vector is unchanged otherwise. */
    method InsertEntry(e: Range<A>) returns (ok: bool)
      requires |addrs| > 0 && addrs[0].begin <= e.begin < addrs[|addrs| - 1].begin
      modifies this
      ensures ok == Insert(old(addrs), e).Some?
      ensures addrs == if ok then Insert(old(addrs), e).value else old(addrs)
    {
      var pos := Locate(addrs, e.begin);
      var right := pos + 1;
      if !addrs[pos].Bounds(addrs[right], e.begin, e.end) {
        return false;
      }
      addrs := addrs[..right] + [e] + addrs[right..];
      return true;
    }

    method FindFreePlace(size: int, hint: int) returns (r: Option<int>)
      requires |addrs| > 0 && addrs[0].begin <= base
      ensures r == FindFree(addrs, base, top, size, hint)
    {
      if hint >= top {
        return None;
      }
      var start := if hint < base then base else hint;
      var pos := Locate(addrs, start);
      var right := pos + 1;
      while right != |addrs|
        invariant right == pos + 1 <= |addrs|
        invariant FindFree(addrs, base, top, size, hint) == FindFrom(addrs, size, start, pos)
        decreases |addrs| - right
      {
        var lower := Max(addrs[pos].end, start);
        var upper := lower + size;
        if upper >= WORD {
          return None;
        }
        if addrs[pos].Bounds(addrs[right], lower, upper) {
          return Some(lower);
        }
        pos := right;
        right := right + 1;
      }
      return None;
    }

    method FindLeft(lower: int) returns (left: nat)
      requires Ordered(addrs) && |addrs| > 0 && addrs[0].begin <= lower
      ensures left == FirstTouched(addrs, lower) <= |addrs|
      ensures left < |addrs| ==> lower <= addrs[left].end
    {
      left := Locate(addrs, lower);
      if !addrs[left].Contains(lower) {
        left := left + 1;
      }
    }

    method FindRight(upper: int) returns (right: int)
      requires |addrs| > 0 && addrs[0].begin <= upper
      ensures right == LastTouched(addrs, upper) && -1 <= right < |addrs|
      ensures 0 <= right ==> addrs[right].begin <= upper
    {
      right := Locate(addrs, upper);
      if addrs[right].begin >= upper {
        right := right - 1;
      }
    }

    /** Erases [addr, addr + size).  `released` lists the arguments of the release callback in call order. */
    method Erase(addr: int, size: int, split: A -> A) returns (ok: bool, released: seq<(int, int)>)
      requires Ordered(addrs) && |addrs| > 0 && addrs[0].begin <= addr && 0 <= size
      modifies this
      ensures ok <==> addr < top && addr + size < WORD && addr + size <= top
      ensures ok ==> addrs == Carve(old(addrs), addr, addr + size, split)
      ensures ok ==> released == Released(old(addrs), addr, addr + size)
      ensures !ok ==> addrs == old(addrs) && released == []
    {
      hide *;
      if addr >= top || addr + size >= WORD || addr + size > top {
        return false, [];
      }
      released := EraseWithin(addr, addr + size, split);
      return true, released;
    }

    method EraseWithin(lower: int, upper: int, split: A -> A) returns (released: seq<(int, int)>)
      requires Ordered(addrs) && |addrs| > 0 && addrs[0].begin <= lower <= upper
      modifies this
      ensures addrs == Carve(old(addrs), lower, upper, split)
      ensures released == Released(old(addrs), lower, upper)
    {
      var left := FindLeft(lower);
      var right := FindRight(upper);
      CarveIs(addrs, left, right, lower, upper, split);
      hide *;
      if left > right {
        released := [];
      } else {
        released := EraseTouched(left, right, lower, upper, split);
      }
    }

    method EraseTouched(left: nat, right: nat, lower: int, upper: int, split: A -> A)
      returns (released: seq<(int, int)>)
      requires left <= right < |addrs| && lower <= upper && Ordered(addrs)
      requires lower <= addrs[left].end && addrs[right].begin <= upper
      modifies this
      ensures addrs == Splice(old(addrs), left, right + 1, Remains(old(addrs), left, right, lower, upper, split))
      ensures released == CutOut(old(addrs), left, right, lower, upper)
    {
      hide *;
      if left == right {
        released := EraseOne(left, lower, upper, split);
      } else {
        released := EraseMany(left, right, lower, upper, split);
      }
    }

    /** The four ways of touching a single entry. */
    method EraseOne(left: nat, lower: int, upper: int, split: A -> A) returns (released: seq<(int, int)>)
      requires left < |addrs| && lower <= upper
      modifies this
      ensures addrs == Splice(old(addrs), left, left + 1, Remains(old(addrs), left, left, lower, upper, split))
      ensures released == CutOut(old(addrs), left, left, lower, upper)
    {
      var e := addrs[left];
      if e.begin >= lower {
        if e.end <= upper {
          released := [(e.begin, e.end)];
          addrs := addrs[..left] + addrs[left + 1..];
        } else {
          released := [(e.begin, upper)];
          addrs := addrs[left := Range(upper, e.end, e.attr)];
        }
      } else if e.end <= upper {
        released := [(lower, e.end)];
        addrs := addrs[left := Range(e.begin, lower, e.attr)];
      } else {
        released := [(lower, upper)];
        var entry := Range(e.begin, lower, split(e.attr));
        addrs := addrs[left := Range(upper, e.end, e.attr)];
        addrs := addrs[..left] + [entry] + addrs[left..];
      }
    }

    /** Touching several entries: the ends may be cut, everything between goes. */
    method EraseMany(left: nat, right: nat, lower: int, upper: int, split: A -> A) returns (released: seq<(int, int)>)
      requires left < right < |addrs| && lower <= upper
      requires Ordered(addrs)
      requires lower <= addrs[left].end && addrs[right].begin <= upper
      modifies this
      ensures addrs == Splice(old(addrs), left, right + 1, Remains(old(addrs), left, right, lower, upper, split))
      ensures released == CutOut(old(addrs), left, right, lower, upper)
    {
      hide *;
      ghost var rs := addrs;
      var first, last := left, right;
      released := [];
      if addrs[left].begin < lower {
        released := released + [(lower, addrs[left].end)];
        addrs := addrs[left := Range(addrs[left].begin, lower, addrs[left].attr)];
        first := first + 1;
      }
      if addrs[right].end > upper {
        released := released + [(addrs[right].begin, upper)];
        addrs := addrs[right := Range(upper, addrs[right].end, addrs[right].attr)];
        last := right - 1;
      }
      CutEndsSplice(rs, addrs, left, right, lower, upper, split);
      last := last + 1;
      var whole := ReleaseEach(first, last);
      CutOutIs(rs, left, right, lower, upper, whole);
      released := released + whole;
      addrs := addrs[..first] + addrs[last..];
    }

    /** The release calls on entries first..last, none when the bounds have crossed. */
    method ReleaseEach(first: nat, last: nat) returns (log: seq<(int, int)>)
      requires first <= last <= |addrs|
      ensures |log| == last - first
      ensures forall k :: 0 <= k < |log| ==> log[k] == (addrs[first + k].begin, addrs[first + k].end)
    {
      log := [];
      for it := first to last
        invariant |log| == it - first
        invariant forall k :: 0 <= k < |log| ==> log[k] == (addrs[first + k].begin, addrs[first + k].end)
      {
        log := log + [(addrs[it].begin, addrs[it].end)];
      }
    }
  }

  /** The cut ends followed by the whole entries between them are what the erase takes out. */
  lemma CutOutIs<A>(rs: seq<Range<A>>, l: nat, r: nat, lower: int, upper: int, whole: seq<(int, int)>)
    requires l < r < |rs| && lower <= upper
    requires Ordered(rs) && lower <= rs[l].end && rs[r].begin <= upper
    requires var first, last := if rs[l].begin < lower then l + 1 else l, if upper < rs[r].end then r else r + 1;
             |whole| == last - first &&
             forall k :: 0 <= k < |whole| ==> whole[k] == (rs[first + k].begin, rs[first + k].end)
    ensures CutOut(rs, l, r, lower, upper) ==
            (if rs[l].begin < lower then [(lower, rs[l].end)] else [])
            + (if upper < rs[r].end then [(rs[r].begin, upper)] else [])
            + whole
  {
  }

  /** Cutting the end entries in place and then dropping what lies between is one splice. */
  lemma CutEndsSplice<A>(rs: seq<Range<A>>, cur: seq<Range<A>>, l: nat, r: nat, lower: int, upper: int, split: A -> A)
    requires l < r < |rs| && |cur| == |rs|
    requires forall i :: 0 <= i < |rs| && i != l && i != r ==> cur[i] == rs[i]
    requires cur[l] == if rs[l].begin < lower then Range(rs[l].begin, lower, rs[l].attr) else rs[l]
    requires cur[r] == if upper < rs[r].end then Range(upper, rs[r].end, rs[r].attr) else rs[r]
    ensures var first, last := if rs[l].begin < lower then l + 1 else l, if upper < rs[r].end then r else r + 1;
            cur[..first] + cur[last..] == Splice(rs, l, r + 1, Remains(rs, l, r, lower, upper, split))
  {
  }
}
