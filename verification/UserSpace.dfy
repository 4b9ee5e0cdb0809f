/** The system calls of module AddressSpace and the loader of module Elf as the kernel runs them: loops over
    pages that change the page tables, and updates of the area vector, in place. */
module UserSpace {
  import opened Basics
  import opened Frames
  import opened Ranges
  import opened AddressSpace
  import opened Directory
  import opened Elf

  class Space {
    const pm: PhysicalMemory
    const vm: RangeManager<Attr>
    const d: nat

    ghost predicate Valid()
      reads this, pm, vm
    {
      && pm.Valid() && Inv(pm.mem) && Fit(pm.mem) && Linked(pm.mem) && d in pm.dirs && d in Dirs(pm.mem.owner)
      && vm.base == VM_BASE && vm.top == VM_TOP
    }

    /** An address space without pages and without areas. */
    constructor (pm: PhysicalMemory, d: nat)
      requires pm.Valid() && Inv(pm.mem) && Fit(pm.mem) && Linked(pm.mem) && d in pm.dirs && View(pm.mem, d) == map[]
      ensures this.pm == pm && this.d == d && Valid() && fresh(vm) && NewSpace(pm.mem, d, vm.addrs)
              && Running(pm.mem, d, vm.addrs)
    {
      this.pm, this.d := pm, d;
      vm := new RangeManager(VM_BASE, VM_TOP, Attr(0, 0));
      new;
      DirOwner(pm.dirs, pm.mem, d);
      EmptySpace(vm.addrs);
    }

    /** VMA::alloc. */
    method AllocPages(begin: int, end: int, writable: bool) returns (ok: bool)
      requires Valid() && 0 <= begin
      modifies pm
      ensures ok == AllocLoop(old(pm.mem), d, begin, end, writable).Some?
      ensures ok ==> pm.Valid() && d in pm.dirs && pm.mem == AllocLoop(old(pm.mem), d, begin, end, writable).value
    {
      hide Inv, Held, Fit, Linked, Dirs, View, AllocPage, DirsMatch, TablesMatch, NextPage;
      InvHeld(pm.mem);
      var page := begin;
      while page != end
        invariant 0 <= page && pm.Valid() && Held(pm.mem) && Fit(pm.mem) && d in pm.dirs
        invariant AllocLoop(pm.mem, d, page, end, writable) == AllocLoop(old(pm.mem), d, begin, end, writable)
        decreases VM_TOP - page
      {
        if page >= VM_TOP {
          return false;
        }
        ok := pm.AllocUserPage(d, page / PAGE, writable);
        if !ok {
          return;
        }
        NextAligned(page);
        page := NextPage(page);
      }
      return true;
    }

    /** The release callback on one stretch: freePage for each of its pages. */
    method FreePages(p: nat, end: nat)
      requires Valid() && p <= end <= USER_PAGES
      modifies pm
      ensures Valid() && pm.mem == FreeFrom(old(pm.mem), d, p, end)
    {
      hide Inv, Fit, Linked, Dirs, View, FreePage, DirsMatch, TablesMatch;
      var i := p;
      while i < end
        invariant Valid() && p <= i <= end
        invariant FreeFrom(pm.mem, d, i, end) == FreeFrom(old(pm.mem), d, p, end)
      {
        ghost var m := pm.mem;
        pm.FreeUserPage(d, i);
        FreePageKeeps(m, Slot(d, i));
        Lengths(pm.mem);
        i := i + 1;
      }
    }

    method ReleaseStretches(ps: seq<(int, int)>)
      requires Valid() && Forward(ps) && forall i :: 0 <= i < |ps| ==> ps[i].1 <= VM_TOP
      modifies pm
      ensures Valid() && pm.mem == ReleaseAll(old(pm.mem), d, ps)
    {
      hide Inv, Fit, Linked, Dirs, View, FreeFrom, DirsMatch, TablesMatch;
      var i := 0;
      while i < |ps|
        invariant Valid() && i <= |ps|
        invariant Forward(ps[i..]) && ReleaseAll(pm.mem, d, ps[i..]) == ReleaseAll(old(pm.mem), d, ps)
      {
        assert ps[i..][0] == ps[i] && ps[i..][1..] == ps[i + 1..];
        FreePages(ps[i].0 / PAGE, ps[i].1 / PAGE);
        i := i + 1;
      }
    }

    /** vmSpace.erase. */
    method EraseRange(addr: int, size: int) returns (ok: bool)
      requires Valid() && Ranges.Valid(vm.addrs, VM_BASE, VM_TOP) && 0 <= addr && 0 <= size
      modifies pm, vm
      ensures Valid() && ok == InRange(addr, size)
      ensures ok ==>
                && Forward(Released(old(vm.addrs), addr, addr + size))
                && vm.addrs == Carve(old(vm.addrs), addr, addr + size, SplitAttr)
                && pm.mem == ReleaseAll(old(pm.mem), d, Released(old(vm.addrs), addr, addr + size))
      ensures !ok ==> vm.addrs == old(vm.addrs) && pm.mem == old(pm.mem)
    {
      hide Inv, Fit, Linked, Dirs, View, Carve, Released, DirsMatch, TablesMatch, ReleaseAll;
      var released;
      ok, released := vm.Erase(addr, size, SplitAttr);
      if ok {
        ReleasedForward(old(vm.addrs), addr, addr + size);
        ReleasedBelow(old(vm.addrs), addr, addr + size);
        ReleaseStretches(released);
      }
    }

    method MunmapCall(addr: int, len: int) returns (r: Reply)
      requires Valid() && Ranges.Valid(vm.addrs, VM_BASE, VM_TOP) && 0 <= addr < WORD && 0 <= len < WORD
      modifies pm, vm
      ensures Valid() && (pm.mem, vm.addrs, r) == Munmap(old(pm.mem), d, old(vm.addrs), addr, len)
    {
      hide Inv, Fit, Linked, Dirs, View, Carve, Released, DirsMatch, TablesMatch, ReleaseAll, Ranges.Valid;
      if ThisPage(addr) != addr {
        return Einval;
      }
      RoundUpExact(len);
      var ok := EraseRange(addr, RoundUp(len));
      return if ok then Zero else Einval;
    }

    /** insert, then alloc. */
    method MapHere(place: int, size: int, x: Attr) returns (ok: bool, r: Reply)
      requires Valid() && Running(pm.mem, d, vm.addrs) && Ranges.Valid(vm.addrs, VM_BASE, VM_TOP)
      requires VM_BASE <= place < VM_TOP && 0 <= size && place + size <= VM_TOP && Aligned(size)
      modifies pm, vm
      ensures ok == MapArea(old(pm.mem), d, old(vm.addrs), place, size, x).Returns?
      ensures ok ==> Valid() && MapArea(old(pm.mem), d, old(vm.addrs), place, size, x) == Returns(pm.mem, vm.addrs, r)
    {
      hide Inv, Fit, Linked, Dirs, View, Insert, DirsMatch, TablesMatch, AllocRange, AllocLoop, Agree, Writes,
           GrowsDown, Fill;
      ghost var m := pm.mem;
      var e := Range(place, place + size, x);
      if size > 0 && Aligned(place) && Insert(vm.addrs, e).Some? {
        InsertAgrees(vm.addrs, View(pm.mem, d), e);
      }
      var fits := vm.InsertEntry(e);
      if !fits {
        return true, Enomem;
      }
      ok := AllocPages(place, place + size, Writes(x));
      r := Placed(place);
      AllocLoopIs(m, d, place, size, Writes(x));
      NoTurn(m, d, place, Writes(x));
      if ok && size > 0 {
        AllocRangeFills(m, d, place / PAGE, (place + size) / PAGE, Writes(x));
        Lengths(pm.mem);
      }
    }

    method MmapCall(addr: int, length: int, prot: bv32, flags: bv32) returns (ok: bool, r: Reply)
      requires Valid() && Running(pm.mem, d, vm.addrs) && Ranges.Valid(vm.addrs, VM_BASE, VM_TOP)
      requires 0 <= addr < WORD && 0 <= length < WORD && MmapDefined(vm.addrs, addr, length, flags)
      modifies pm, vm
      ensures ok == Mmap(old(pm.mem), d, old(vm.addrs), addr, length, prot, flags).Returns?
      ensures ok ==> Valid() && Mmap(old(pm.mem), d, old(vm.addrs), addr, length, prot, flags)
                                == Returns(pm.mem, vm.addrs, r)
    {
      hide Inv, Fit, Linked, Dirs, View, Insert, DirsMatch, TablesMatch, Agree, MapArea, MmapFixed, FindFree, Carve,
           Released, ReleaseAll, AreaOk, Ordered, Cut, Locatable;
      var size := RoundUp(length);
      RoundUpExact(length);
      if flags & MAP_FIXED != 0 {
        if length == 0 || ThisPage(addr) != addr {
          return true, Einval;
        }
        ok, r := MapFixed(addr, size, Attr(flags, prot));
      } else if flags & MAP_PRIVATE != 0 {
        if length == 0 {
          return true, Einval;
        }
        var place := vm.FindFreePlace(size, addr);
        if place.None? {
          return true, Enomem;
        }
        FoundPlaceExact(vm.addrs, VM_BASE, VM_TOP, size, addr, Attr(flags, prot));
        ok, r := MapHere(place.value, size, Attr(flags, prot));
      } else {
        return true, if flags & MAP_SHARED != 0 then Enosys else Einval;
      }
    }

    /** The MAP_FIXED path: erase, look for the place, and map there if it is the one asked for. */
    method MapFixed(addr: int, size: int, x: Attr) returns (ok: bool, r: Reply)
      requires Valid() && Running(pm.mem, d, vm.addrs) && Ranges.Valid(vm.addrs, VM_BASE, VM_TOP)
      requires 0 <= addr && Aligned(addr) && 0 <= size && Aligned(size)
      requires InRange(addr, size) ==> Locatable(Carve(vm.addrs, addr, addr + size, SplitAttr))
      modifies pm, vm
      ensures ok == MmapFixed(old(pm.mem), d, old(vm.addrs), addr, size, x).Returns?
      ensures ok ==> Valid() && MmapFixed(old(pm.mem), d, old(vm.addrs), addr, size, x) == Returns(pm.mem, vm.addrs, r)
    {
      hide Inv, Fit, Linked, Dirs, View, Insert, DirsMatch, TablesMatch, Agree, FindFree, Carve, Released, ReleaseAll,
           AreaOk, Ordered, Cut, AllocRange;
      ghost var m, vmas := pm.mem, vm.addrs;
      var _ := EraseRange(addr, size);
      assert EraseQuietly(m, d, vmas, addr, size) == (pm.mem, vm.addrs);
      if InRange(addr, size) && VM_BASE <= addr {
        FixedAgrees(m, d, vmas, addr, size, pm.mem, vm.addrs);
      } else if !InRange(addr, size) {
        FixedRefused(vmas, addr, size);
      }
      var place := vm.FindFreePlace(size, addr);
      if place.None? || place.value != addr {
        return true, Enomem;
      }
      ok, r := MapHere(addr, size, x);
    }

    /** The loop of checkStack, from the area's first page down to the fault. */
    method GrowDown(p: nat, end: nat) returns (ok: bool)
      requires Valid() && end <= p <= USER_PAGES && forall q: nat :: end <= q < p ==> q !in View(pm.mem, d)
      modifies pm
      ensures ok == AllocDown(old(pm.mem), d, p, end).Some?
      ensures ok ==> Valid() && pm.mem == AllocDown(old(pm.mem), d, p, end).value
    {
      hide Inv, Fit, Linked, Dirs, View, AllocPage, DirsMatch, TablesMatch;
      var i := p;
      while i > end
        invariant Valid() && end <= i <= p && forall q: nat :: end <= q < i ==> q !in View(pm.mem, d)
        invariant AllocDown(pm.mem, d, i, end) == AllocDown(old(pm.mem), d, p, end)
      {
        i := i - 1;
        Absent(pm.mem, d, i);
        ghost var m := pm.mem;
        InvHeld(pm.mem);
        ok := pm.AllocUserPage(d, i, true);
        if !ok {
          return;
        }
        ViewAllocPage(m, Slot(d, i), true);
        Lengths(pm.mem);
      }
      return true;
    }

    method CheckStackFault(target: int) returns (ok: bool, grown: bool)
      requires Valid() && Running(pm.mem, d, vm.addrs) && Ranges.Valid(vm.addrs, VM_BASE, VM_TOP) && 0 <= target
      modifies pm, vm
      ensures ok == CheckStack(old(pm.mem), d, old(vm.addrs), target).Some?
      ensures ok ==> Valid() && CheckStack(old(pm.mem), d, old(vm.addrs), target) == Some((pm.mem, vm.addrs, grown))
    {
      hide Inv, Fit, Linked, Dirs, View, DirsMatch, TablesMatch, Agree, AreaOk, AllocDown, Ordered;
      var pos := Locate(vm.addrs, target);
      if !(VM_BASE <= target < VM_TOP) {
        return true, false;
      }
      if !(vm.addrs[pos].end <= target < vm.addrs[pos + 1].begin) || !GrowsDown(vm.addrs[pos + 1].attr) {
        return true, false;
      }
      if target < STACK_LOW {
        return true, false;
      }
      HoleAbsent(vm.addrs, View(pm.mem, d), target);
      ok := GrowDown(vm.addrs[pos + 1].begin / PAGE, target / PAGE);
      if ok {
        vm.addrs := vm.addrs[pos + 1 := vm.addrs[pos + 1].(begin := ThisPage(target))];
      }
      grown := true;
    }

    /** Pages may be mapped: Valid, but for the counts of frames whose pages have been mapped over. */
    ghost predicate Mappable()
      reads this, pm, vm
    {
      && pm.Valid() && Held(pm.mem) && Fit(pm.mem) && d in pm.dirs && d in Dirs(pm.mem.owner)
      && vm.base == VM_BASE && vm.top == VM_TOP
    }

    /** A fresh page with the file's bytes copied into it. */
    method LoadOnePage(p: nat, g: Segment, file: seq<Byte>) returns (ok: bool)
      requires Mappable() && p < USER_PAGES && g.offset + g.filesz <= |file|
      modifies pm
      ensures ok == LoadPage(old(pm.mem), Slot(d, p), CanWrite(g), CopyIn(g, file, p)).Some?
      ensures ok ==> Mappable() && pm.mem == LoadPage(old(pm.mem), Slot(d, p), CanWrite(g), CopyIn(g, file, p)).value
    {
      hide Held, Fit, Linked, Dirs, View, DirsMatch, TablesMatch, AllocPage;
      ghost var m := pm.mem;
      ok := pm.AllocUserPage(d, p, CanWrite(g));
      if !ok {
        return;
      }
      CopyInIs(g, file, p);
      ViewLoadPage(m, Slot(d, p), CanWrite(g), CopyIn(g, file, p));
      AllocPageHeld(m, Slot(d, p), CanWrite(g));
      pm.Overwrite(d, p, CopyIn(g, file, p));
    }

    method LoadSegmentPages(g: Segment, file: seq<Byte>, p: nat, end: nat) returns (ok: bool)
      requires Mappable() && g.offset + g.filesz <= |file|
      modifies pm
      ensures ok == LoadPages(old(pm.mem), d, g, file, p, end).Some?
      ensures ok ==> Mappable() && pm.mem == LoadPages(old(pm.mem), d, g, file, p, end).value
    {
      hide Held, Fit, Dirs, LoadPage, DirsMatch, TablesMatch, CopyIn;
      var i := p;
      while i != end
        invariant Mappable()
        invariant LoadPages(pm.mem, d, g, file, i, end) == LoadPages(old(pm.mem), d, g, file, p, end)
        decreases USER_PAGES - i
      {
        if i >= USER_PAGES {
          return false;
        }
        ok := LoadOnePage(i, g, file);
        if !ok {
          return;
        }
        i := i + 1;
      }
      return true;
    }

    method LoadOneSegment(brk: int, g: Segment, file: seq<Byte>) returns (ok: bool, brk': int)
      requires Mappable() && Ranges.Valid(vm.addrs, VM_BASE, VM_TOP) && SegmentOk(g, file)
      modifies pm, vm
      ensures ok == LoadPages(old(pm.mem), d, g, file, FirstPage(g), EndPage(g)).Some?
      ensures ok ==> Mappable() && pm.mem == LoadPages(old(pm.mem), d, g, file, FirstPage(g), EndPage(g)).value
      ensures ok ==> Inside(g) && vm.addrs == AddArea(old(vm.addrs), g) && brk' == Max(brk, EndPage(g) * PAGE)
    {
      hide Held, Fit, Dirs, LoadPages, DirsMatch, TablesMatch, Insert, FirstPage, EndPage, AttrOf;
      brk' := if brk < EndPage(g) * PAGE then EndPage(g) * PAGE else brk;
      ok := LoadSegmentPages(g, file, FirstPage(g), EndPage(g));
      if ok {
        LoadedInside(g, file);
        var _ := vm.InsertEntry(AreaOf(g));
      }
    }

    method LoadElfFile(gs: seq<Segment>, file: seq<Byte>) returns (ok: bool, brk: int)
      requires Mappable() && Ranges.Valid(vm.addrs, VM_BASE, VM_TOP) && SegmentsOk(gs, file)
      modifies pm, vm
      ensures ok == LoadElf(old(pm.mem), d, old(vm.addrs), gs, file).Some?
      ensures ok ==> Mappable() && LoadElf(old(pm.mem), d, old(vm.addrs), gs, file) == Some((pm.mem, vm.addrs, brk))
    {
      hide Held, Fit, Dirs, LoadPages, DirsMatch, TablesMatch, FirstPage, EndPage, AddArea, AreaOf, Ranges.Valid,
           SegmentOk, Inside;
      brk := VM_BASE;
      var i := 0;
      while i < |gs|
        invariant i <= |gs| && Mappable() && Ranges.Valid(vm.addrs, VM_BASE, VM_TOP)
        invariant PagesFrom(pm.mem, d, gs, file, i) == PagesFrom(old(pm.mem), d, gs, file, 0)
        invariant PagesFrom(pm.mem, d, gs, file, i).Some? ==>
                    AreasFrom(vm.addrs, gs, i) == AreasFrom(old(vm.addrs), gs, 0)
        invariant BrkFrom(brk, gs, i) == BrkFrom(VM_BASE, gs, 0)
      {
        if Loadable(gs[i]) {
          ghost var vmas := vm.addrs;
          ok, brk := LoadOneSegment(brk, gs[i], file);
          if !ok {
            return;
          }
          AddAreaValid(vmas, gs[i]);
        }
        i := i + 1;
      }
      return true, brk;
    }

    /** freeTask's release of the address space: vmSpace.free, freePageTables, then the directory frame. */
    method Free()
      requires Valid() && Running(pm.mem, d, vm.addrs)
      modifies pm
      ensures pm.Valid() && Inv(pm.mem) && pm.mem == Teardown(old(pm.mem), d, vm.addrs)
    {
      hide Inv, Fit, Linked, Dirs, View, FreeFrom, DirsMatch, TablesMatch, Agree, AreaOk, Destroy;
      ghost var m := pm.mem;
      SpansPaged(vm.addrs);
      ghost var ps := Spans(vm.addrs[1..|vm.addrs| - 1]);
      var i := 1;
      while i < |vm.addrs| - 1
        invariant 1 <= i <= |vm.addrs| - 1 && Valid()
        invariant Forward(ps[i - 1..]) && ReleaseAll(pm.mem, d, ps[i - 1..]) == ReleaseAll(m, d, ps)
      {
        assert ps[i - 1..][0] == ps[i - 1] && ps[i - 1..][1..] == ps[i..];
        AreaInside(vm.addrs, i);
        FreePages(vm.addrs[i].begin / PAGE, vm.addrs[i].end / PAGE);
        i := i + 1;
      }
      pm.Teardown(d);
    }
  }

  lemma AreaInside(vmas: Vmas, i: nat)
    requires AreasOk(vmas) && 0 < i < |vmas| - 1
    ensures 0 <= vmas[i].begin <= vmas[i].end <= VM_TOP
  {
    assert AreaOk(vmas[i]);
  }

  lemma EmptySpace(vmas: Vmas)
    requires vmas == [Range(0, VM_BASE, Attr(0, 0)), Range(VM_TOP, SENTINEL_END, Attr(0, 0))]
             && Ranges.Valid(vmas, VM_BASE, VM_TOP)
    ensures SpaceOk(vmas, map[])
  {
  }

  /** The pages between a stack fault and the area above it are absent. */
  lemma HoleAbsent(vmas: Vmas, v: map<nat, PageView>, target: int)
    requires SpaceOk(vmas, v) && Ranges.Valid(vmas, VM_BASE, VM_TOP) && 0 <= target && StackFault(vmas, target)
    ensures var top := vmas[Locate(vmas, target) + 1].begin;
            && 0 <= target / PAGE <= top / PAGE <= USER_PAGES
            && forall q: nat :: target / PAGE <= q < top / PAGE ==> q !in v
  {
    hide Agree;
    var next := Locate(vmas, target) + 1;
    GrowAgreesIff(vmas, v, target);
  }

  /** What is released lies below the end of the range. */
  lemma ReleasedBelow(vmas: Vmas, lower: int, upper: int)
    requires Ranges.Valid(vmas, VM_BASE, VM_TOP) && 0 <= lower <= upper <= VM_TOP && lower < VM_TOP
    ensures forall i :: 0 <= i < |Released(vmas, lower, upper)| ==> Released(vmas, lower, upper)[i].1 <= VM_TOP
  {
  }
}
