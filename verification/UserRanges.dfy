/** Checking a zero-terminated string or pointer vector of a program before the kernel reads it
    (validateReadonlyRange in kernel/paging/vma.hpp): the scan goes from area to adjoining area. */
module UserRanges {
  import opened Basics
  import opened Ranges
  import opened AddressSpace

  predicate Reads(x: Attr) {
    x.prot & PROT_READ != 0
  }

  /** Areas as the kernel keeps them; the sentinels carry no permission. */
  ghost predicate Scannable(vmas: Vmas) {
    AreasOk(vmas) && !Reads(vmas[0].attr) && !Reads(vmas[|vmas| - 1].attr)
  }

  /** Entry i lets the program read the n bytes at a. */
  ghost predicate Holds(vmas: Vmas, i: int, a: int, n: nat) {
    0 < i < |vmas| - 1 && vmas[i].begin <= a && a + n <= vmas[i].end && Reads(vmas[i].attr)
  }

  ghost predicate Readable(vmas: Vmas, a: int, n: nat) {
    exists i :: Holds(vmas, i, a, n)
  }

  /** The address of the k-th element. */
  function Element(addr: int, n: nat, k: nat): int {
    addr + k * n
  }

  /** Characters and pointers. */
  predicate IsSize(n: nat) {
    n == 1 || n == 4
  }

  ghost predicate EmptyAt(vmas: Vmas, i: int, a: int) {
    0 < i < |vmas| - 1 && vmas[i].begin == a == vmas[i].end
  }

  /** An area of no pages at a that may not be read: the scan passes through it and stops there, although no
      byte belongs to it. */
  ghost predicate Blocked(vmas: Vmas, a: int) {
    exists i :: EmptyAt(vmas, i, a) && !Reads(vmas[i].attr)
  }

  /** The scan gets to element k.  It begins behind any empty area at its start. */
  ghost predicate Open(vmas: Vmas, a: int, k: nat) {
    k > 0 ==> !Blocked(vmas, a)
  }

  /** The first k elements can be read and none of them is the last. */
  ghost predicate Passed(vmas: Vmas, addr: int, n: nat, last: int -> bool, k: nat) {
    forall j: nat :: j < k ==>
      Readable(vmas, Element(addr, n, j), n) && Open(vmas, Element(addr, n, j), j) && !last(Element(addr, n, j))
  }

  lemma WholeElements(end: int, curr: int, n: nat)
    requires IsSize(n) && Aligned(end) && curr % n == 0 && curr <= end
    ensures (end - curr) / n * n == end - curr && (curr + n) % n == 0
  {
    if n == 4 {
      Quads(end, curr);
    } else {
      assert n == 1;
    }
  }

  lemma Quads(end: int, curr: int)
    requires end % 4096 == 0 && curr % 4 == 0
    ensures (end - curr) / 4 * 4 == end - curr && (curr + 4) % 4 == 0
  {
    assert end == 4 * (1024 * (end / 4096)) && curr == 4 * (curr / 4);
  }

  lemma NextElement(addr: int, n: nat, k: nat)
    ensures Element(addr, n, 0) == addr && Element(addr, n, k + 1) == Element(addr, n, k) + n
  {
  }

  lemma OneLess(left: nat, n: nat)
    requires left > 0
    ensures left * n == (left - 1) * n + n
  {
  }

  /** An address in an entry that may not be read, a sentinel included, cannot be read. */
  lemma Forbidden(vmas: Vmas, pos: int, a: int, n: nat)
    requires Scannable(vmas) && 0 <= pos < |vmas| && vmas[pos].Contains(a) && !Reads(vmas[pos].attr) && n > 0
    ensures !Readable(vmas, a, n)
  {
    forall i ensures !Holds(vmas, i, a, n) {
      if 0 < i < |vmas| - 1 && i != pos {
        assert vmas[i].end <= vmas[pos].begin || vmas[pos].end <= vmas[i].begin;
      }
    }
  }

  lemma HeldIsReadable(vmas: Vmas, pos: int, a: int, n: nat)
    requires Holds(vmas, pos, a, n)
    ensures Readable(vmas, a, n)
  {
  }

  /** Nor can an address between two neighbours. */
  lemma Unmapped(vmas: Vmas, pos: int, a: int, n: nat)
    requires Scannable(vmas) && 0 <= pos < |vmas| && vmas[pos].end <= a
             && (pos + 1 < |vmas| ==> a < vmas[pos + 1].begin) && n > 0
    ensures !Readable(vmas, a, n)
  {
    forall i ensures !Holds(vmas, i, a, n) {
      if 0 < i < |vmas| - 1 {
        if i <= pos { Monotone(vmas, i, pos); } else { Monotone(vmas, pos + 1, i); }
      }
    }
  }

  /** The empty areas at a before entry pos may all be read. */
  ghost predicate OpenBefore(vmas: Vmas, pos: int, a: int) {
    forall i :: i < pos && EmptyAt(vmas, i, a) ==> Reads(vmas[i].attr)
  }

  lemma OpenInside(vmas: Vmas, pos: int, a: int)
    requires Scannable(vmas) && 0 <= pos < |vmas| && vmas[pos].Contains(a)
    requires a == vmas[pos].begin ==> OpenBefore(vmas, pos, a)
    ensures !Blocked(vmas, a)
  {
    forall i | EmptyAt(vmas, i, a) ensures Reads(vmas[i].attr) {
      Sides(vmas, i, pos);
    }
  }

  lemma Sides(vmas: Vmas, i: int, j: int)
    requires Ordered(vmas) && 0 <= i < |vmas| && 0 <= j < |vmas|
    ensures (i < j ==> vmas[i].end <= vmas[j].begin) && (j < i ==> vmas[j].end <= vmas[i].begin)
  {
  }

  lemma OpenNext(vmas: Vmas, pos: int, a: int)
    requires Scannable(vmas) && 0 <= pos < |vmas| && vmas[pos].end == a && Reads(vmas[pos].attr)
    requires vmas[pos].begin == a ==> OpenBefore(vmas, pos, a)
    ensures OpenBefore(vmas, pos + 1, a)
  {
    forall i | i < pos + 1 && EmptyAt(vmas, i, a) ensures Reads(vmas[i].attr) {
      assert i == pos || vmas[i].end <= vmas[pos].begin;
    }
  }

  /** The scan passes k elements and stops at the next: it is the last, or it cannot be read, or it is blocked, or
      the address is not aligned. */
  ghost predicate StopsAt(vmas: Vmas, addr: int, n: nat, last: int -> bool, k: nat, r: Option<int>)
    requires Scannable(vmas) && IsSize(n)
  {
    && Passed(vmas, addr, n, last, k)
    && var a := Element(addr, n, k);
       if addr % n == 0 && Readable(vmas, a, n) && Open(vmas, a, k) then r == Some(a) && last(a) else r == None
  }

  /** There is only one place where it can stop, and one result. */
  lemma StopsOnce(vmas: Vmas, addr: int, n: nat, last: int -> bool, k: nat, r: Option<int>, k': nat, r': Option<int>)
    requires Scannable(vmas) && IsSize(n) && StopsAt(vmas, addr, n, last, k, r) && StopsAt(vmas, addr, n, last, k', r')
    ensures r == r' && (addr % n == 0 ==> k == k')
  {
    hide Element, Readable, Open, Scannable;
  }

  /** Two adjoining readable pages with an unreadable empty area between them: a string across them is refused although
      every byte of it can be read. */
  lemma StringBlocked(vmas: Vmas, last: int -> bool)
    requires Scannable(vmas) && |vmas| == 5 && !last(0x40_0FFF) && last(0x40_1000)
    requires vmas[1].begin == 0x40_0000 && vmas[1].end == 0x40_1000 && Reads(vmas[1].attr)
    requires vmas[2].begin == vmas[2].end == 0x40_1000 && !Reads(vmas[2].attr)
    requires vmas[3].begin == 0x40_1000 && vmas[3].end == 0x40_2000 && Reads(vmas[3].attr)
    ensures Readable(vmas, 0x40_0FFF, 1) && Readable(vmas, 0x40_1000, 1)
    ensures StopsAt(vmas, 0x40_0FFF, 1, last, 1, None)
  {
    assert Holds(vmas, 1, 0x40_0FFF, 1) && Holds(vmas, 3, 0x40_1000, 1);
    assert EmptyAt(vmas, 2, 0x40_1000);
  }

  /** Finds the first element that is the last, if the scan gets to it over elements that can all be read. */
  method ValidateReadonlyRange(vmas: Vmas, addr: int, n: nat, last: int -> bool) returns (r: Option<int>)
    requires Scannable(vmas) && 0 <= addr < WORD && IsSize(n)
    ensures exists k: nat :: StopsAt(vmas, addr, n, last, k, r)
  {
    ghost var k;
    r, k := Scan(vmas, addr, n, last);
  }

  method Scan(vmas: Vmas, addr: int, n: nat, last: int -> bool) returns (r: Option<int>, ghost k: nat)
    requires Scannable(vmas) && 0 <= addr < WORD && IsSize(n)
    ensures StopsAt(vmas, addr, n, last, k, r)
  {
    hide Element, Readable, AreaOk, Reads, Blocked, OpenBefore;
    NextElement(addr, n, 0);
    k := 0;
    var pos := Locate(vmas, addr);
    if !vmas[pos].Contains(addr) {
      Unmapped(vmas, pos, addr, n);
      return None, 0;
    }
    if addr % n != 0 {
      return None, 0;
    }
    var curr := addr;
    while true
      invariant 0 <= pos < |vmas| && vmas[pos].begin <= curr <= vmas[pos].end && curr == Element(addr, n, k)
                && curr % n == 0
      invariant curr == vmas[pos].end ==> k > 0 && EmptyAt(vmas, pos, curr)
      invariant k > 0 ==> curr == vmas[pos].begin && OpenBefore(vmas, pos, curr)
      invariant Passed(vmas, addr, n, last, k)
      decreases |vmas| - pos
    {
      if !Reads(vmas[pos].attr) {
        if curr < vmas[pos].end {
          Forbidden(vmas, pos, curr, n);
        } else {
          BlockedBy(vmas, pos, curr);
        }
        return None, k;
      }
      if k > 0 && curr < vmas[pos].end {
        OpenInside(vmas, pos, curr);
      }
      ghost var was := k;
      r, curr, k := ScanArea(vmas, pos, addr, n, last, curr, k);
      if r.Some? {
        return r, k;
      }
      var next := pos + 1;
      if next == |vmas| - 1 {
        if vmas[pos].end == vmas[next].begin {
          Forbidden(vmas, next, curr, n);
        } else {
          Unmapped(vmas, pos, curr, n);
        }
        return None, k;
      }
      if vmas[pos].end != vmas[next].begin {
        Unmapped(vmas, pos, curr, n);
        return None, k;
      }
      AreaForward(vmas[next]);
      OpenNext(vmas, pos, curr);
      pos := next;
    }
  }

  lemma BlockedBy(vmas: Vmas, pos: int, a: int)
    requires EmptyAt(vmas, pos, a) && !Reads(vmas[pos].attr)
    ensures Blocked(vmas, a)
  {
  }

  /** The inner loop: the elements of one area. */
  method ScanArea(vmas: Vmas, pos: nat, addr: int, n: nat, last: int -> bool, from: int, ghost k0: nat)
    returns (r: Option<int>, curr: int, ghost k: nat)
    requires Scannable(vmas) && pos < |vmas| && vmas[pos].begin <= from <= vmas[pos].end && Reads(vmas[pos].attr)
             && IsSize(n)
    requires from == Element(addr, n, k0) && from % n == 0 && Passed(vmas, addr, n, last, k0)
    requires from < vmas[pos].end ==> Open(vmas, from, k0)
    ensures curr == Element(addr, n, k) && curr % n == 0 && Passed(vmas, addr, n, last, k)
    ensures r.Some? ==> r.value == curr && Readable(vmas, curr, n) && Open(vmas, curr, k) && last(curr)
    ensures r.None? ==> curr == vmas[pos].end && (k > k0 || (k == k0 && from == curr))
  {
    hide Element, Readable, Ordered, Reads, Blocked;
    assert 0 < pos < |vmas| - 1;
    assert AreaOk(vmas[pos]);
    curr, k := from, k0;
    WholeElements(vmas[pos].end, curr, n);
    var maxSize := (vmas[pos].end - curr) / n;
    while maxSize > 0
      invariant 0 <= maxSize && curr == Element(addr, n, k) && curr + maxSize * n == vmas[pos].end && curr % n == 0
      invariant from <= curr && k0 <= k && (k == k0 <==> curr == from) && Passed(vmas, addr, n, last, k)
      invariant curr < vmas[pos].end ==> Open(vmas, curr, k)
    {
      OneLess(maxSize, n);
      HeldIsReadable(vmas, pos, curr, n);
      if last(curr) {
        return Some(curr), curr, k;
      }
      WholeElements(vmas[pos].end, curr, n);
      NextElement(addr, n, k);
      curr, k, maxSize := curr + n, k + 1, maxSize - 1;
      if curr < vmas[pos].end {
        OpenInside(vmas, pos, curr);
      }
    }
    return None, curr, k;
  }
}
