/** The heap as the kernel keeps it: a frame bitmap, a range vector for runs of pages, slab headers by page and
    six caches of slab lists, updated in place.  Every method is proved to do what the function of the same
    purpose in module Heap does. */
module HeapObject {
  import opened Basics
  import opened Lists
  import opened Ranges
  import opened Bitmap
  import opened Heap
  import Frames
  import LargeFrames

  const BITMAP_WORDS: nat := 1984

  /** The header's constructor: chunks are pushed to the front from the end of the page down. */
  method BuildChunks(page: nat, k: nat) returns (free: seq<nat>)
    requires IsClass(k)
    ensures free == ChunkList(page, k)
  {
    var d := ChunkBytes(k);
    var cnt := FullCount(k);
    var addr := page + PAGE - d;
    free := [];
    while cnt > 0
      invariant 0 <= cnt <= FullCount(k) && addr == page + cnt * d
      invariant free == ChunkList(page, k)[cnt..]
    {
      assert ChunkList(page, k)[cnt - 1] == addr;
      free := [addr] + free;
      addr := addr - d;
      cnt := cnt - 1;
    }
  }

  class KernelHeap {
    const frames: BitmapManager
    const large: RangeManager<()>
    var slabs: map<nat, Slab>
    var caches: seq<Cache>

    ghost predicate Valid()
      reads this, frames.words, large
    {
      && frames.Valid() && frames.words.Length == BITMAP_WORDS
      && large.base == LargeFrames.LARGE_BASE && large.top == LargeFrames.LARGE_TOP
    }

    ghost function Value(): Heap
      requires Valid()
      reads this, frames.words, large
    {
      Heap(frames.Bits(), slabs, caches, large.addrs)
    }

    constructor ()
      ensures Valid() && Value() == Fresh() && Inv(Value(), map[]) && fresh(frames.words) && fresh(large)
    {
      FreshOk();
      frames := new BitmapManager(BITMAP_WORDS);
      large := new RangeManager(LargeFrames.LARGE_BASE, LargeFrames.LARGE_TOP, ());
      slabs := map[];
      caches := seq(6, _ => Cache([], []));
    }

    method SlabAllocate(size: nat) returns (r: Option<nat>)
      requires Valid() && size <= 512 && SlabsOk(slabs) && CachesOk(caches, slabs)
      modifies this, frames.words
      ensures Valid()
      ensures match SlabAlloc(old(Value()), size)
              case None => r == None && Value() == old(Value())
              case Some((h, a)) => r == Some(a) && Value() == h
    {
      hide SlabsOk, CachesOk, ClassOf, Frames.FirstClear, ChunkList, TakeChunk, NewSlab, SlabOk;
      var size' := if size == 0 then 1 else size;
      ClassFits(size');
      var k := ClassOf(size');
      CacheKnown(caches, slabs, k);
      if caches[k - 5].used != [] {
        FrontHasRoom(caches, slabs, k);
        var a := AllocFromUsed(k);
        return Some(a);
      }
      r := AllocFromNew(k);
    }

    method AllocFromNew(k: nat) returns (r: Option<nat>)
      requires Valid() && IsClass(k) && |caches| == 6
      modifies this`slabs, this`caches, frames.words
      ensures Valid()
      ensures match Frames.FirstClear(old(frames.Bits()))
              case None => r == None && Value() == old(Value())
              case Some(f) => r.Some? && (Value(), r.value) == NewSlab(old(Value()), k, f)
    {
      hide Frames.FirstClear, ChunkList;
      var f := frames.Alloc();
      if f.None? {
        return None;
      }
      var page := FrameAddr(f.value);
      var chunks := BuildChunks(page, k);
      slabs := slabs[page := Slab(k, chunks[1..], 1)];
      caches := caches[k - 5 := caches[k - 5].(used := [page] + caches[k - 5].used)];
      return Some(chunks[0]);
    }

    method AllocFromUsed(k: nat) returns (a: nat)
      requires Valid() && IsClass(k) && |caches| == 6 && caches[k - 5].used != []
      requires caches[k - 5].used[0] in slabs && slabs[caches[k - 5].used[0]].free != []
      requires slabs[caches[k - 5].used[0]].cls == k
      modifies this`slabs, this`caches
      ensures Valid() && (Value(), a) == TakeChunk(old(Value()), k)
    {
      var page := caches[k - 5].used[0];
      var slab := slabs[page];
      slabs := slabs[page := Slab(slab.cls, slab.free[1..], slab.used + 1)];
      if slabs[page].used == FullCount(k) {
        caches := caches[k - 5 := Cache([page] + caches[k - 5].full, caches[k - 5].used[1..])];
      }
      assert caches[k - 5 := caches[k - 5]] == caches;
      return slab.free[0];
    }

    method SlabRelease(a: nat)
      requires Valid() && ThisPage(a) in slabs && SlabsOk(slabs) && CachesOk(caches, slabs)
      modifies this, frames.words
      ensures Valid() && Value() == SlabFree(old(Value()), a)
    {
      hide CachesOk, Remove, SlabOk;
      var page := ThisPage(a);
      SlabKnown(slabs, page);
      var slab := slabs[page];
      var k := slab.cls;
      CacheKnown(caches, slabs, k);
      slabs := slabs[page := Slab(k, [a] + slab.free, slab.used - 1)];
      if slabs[page].used == FullCount(k) - 1 {
        caches := caches[k - 5 := Cache(Remove(caches[k - 5].full, page), [page] + caches[k - 5].used)];
      } else if slabs[page].used == 0 {
        caches := caches[k - 5 := caches[k - 5].(used := Remove(caches[k - 5].used, page))];
        slabs := slabs - {page};
        assert slabs == old(slabs) - {page};
        frames.Free(FrameNo(page));
      }
    }

    method Allocate(size: Size, ghost live: map<nat, nat>) returns (r: Option<int>)
      requires Valid() && Inv(Value(), live) && AllocDefined(Value(), size)
      modifies this, frames.words, large
      ensures Valid()
      ensures match AutoAlloc(old(Value()), live, size)
              case None => r == None && Value() == old(Value())
              case Some((h, a)) => r == Some(a) && Value() == h
    {
      hide SlabsOk, CachesOk, Accounted, SmallOk, PagesOk, Interior, SlabAlloc, Frames.FirstClear, LargeFrames.Alloc,
           LargeFrames.WholePages;
      if size <= 512 {
        r := SlabAllocate(size);
      } else if size <= PAGE {
        var f := frames.Alloc();
        return match f case None => None case Some(n) => Some(FrameAddr(n));
      } else {
        r := LargeFrames.AllocIn(large, RoundUp(size) / PAGE);
      }
    }

    method Release(a: nat, ghost live: map<nat, nat>) returns (ok: bool)
      requires Valid() && Inv(Value(), live) && (a == 0 || HandedOut(Value(), live, a))
      modifies this, frames.words, large
      ensures Valid() && ok && AutoFree(old(Value()), live, a) == Some(Value())
    {
      hide SlabsOk, CachesOk, Accounted, SmallOk, PagesOk, Interior, SlabFree, LargeFrames.Free,
           LargeFrames.WholePages, Zeros, Ordered, HandedOut;
      if a == 0 {
        return true;
      }
      FreeRoute(Value(), live, a);
      AutoFreeKeeps(Value(), live, a);
      if a >= LargeFrames.LARGE_BASE {
        var pages := LargeFrames.FreeIn(large, a);
        return pages.Some?;
      } else if a % PAGE != 0 {
        SlabRelease(a);
      } else {
        frames.Free(FrameNo(a));
      }
      return true;
    }
  }

  lemma SlabKnown(slabs: map<nat, Slab>, page: nat)
    requires SlabsOk(slabs) && page in slabs
    ensures IsFrame(page) && IsClass(slabs[page].cls) && slabs[page].used > 0
  {
  }
}
