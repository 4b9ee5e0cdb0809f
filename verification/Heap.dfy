/** The kernel heap (kernel/allocator/slab.cpp, kernel/allocator/slab.hpp and autoAlloc/autoFree of
    kernel/allocator/mod.cpp): small blocks are chunks of a page that starts with a slab header, middle ones are
    whole pages, large ones are runs of pages.

    The kernel does not record sizes; `live` is the callers' view, the blocks handed out and not yet given
    back with the sizes that were asked for. */
module Heap {
  import opened Basics
  import opened Lists
  import opened Ranges
  import Frames
  import LargeFrames

  const FRAME_BASE: nat := 0xC080_0000
  const FRAME_TOP: nat := 0xD000_0000
  const FRAME_COUNT: nat := 0xF800
  const HEADER: nat := 20

  // ----- Size classes

  function BitWidth(n: nat): nat {
    if n == 0 then 0 else 1 + BitWidth(n / 2)
  }

  function ClassOf(size: nat): nat {
    BitWidth(Max(size, 16) - 1) + 1
  }

  predicate IsClass(k: nat) {
    5 <= k <= 10
  }

  /** 1 << k. */
  function ChunkBytes(k: nat): (d: nat)
    requires IsClass(k)
    ensures d == if k == 5 then 32 else if k == 6 then 64 else if k == 7 then 128 else if k == 8 then 256
                 else if k == 9 then 512 else 1024
  {
    Pow2(k)
  }

  function FullCount(k: nat): (n: nat)
    requires IsClass(k)
    ensures 3 <= n && (n + 1) * ChunkBytes(k) == PAGE
  {
    PAGE / ChunkBytes(k) - 1
  }

  lemma {:induction false} BitWidthBounds(n: nat)
    ensures n < Pow2(BitWidth(n)) && (n > 0 ==> Pow2(BitWidth(n)) <= 2 * n)
  {
    if n > 0 {
      BitWidthBounds(n / 2);
    }
  }

  lemma {:induction false} Pow2Grows(a: nat, b: nat)
    requires a <= b
    ensures Pow2(a) <= Pow2(b)
    decreases b
  {
    if a < b {
      Pow2Grows(a, b - 1);
    }
  }

  /** Every small request has a class: the smallest whose chunks are at least twice the request. */
  lemma ClassFits(size: nat)
    requires size <= 512
    ensures IsClass(ClassOf(size)) && 2 * size <= ChunkBytes(ClassOf(size))
    ensures ClassOf(size) == 5 || ChunkBytes(ClassOf(size)) < 4 * size
  {
    var n := Max(size, 16) - 1;
    var w := BitWidth(n);
    BitWidthBounds(n);
    if w < 4 { Pow2Grows(w, 3); }
    if w > 9 { Pow2Grows(10, w); }
  }

  // ----- State

  datatype Slab = Slab(cls: nat, free: seq<nat>, used: nat)

  datatype Cache = Cache(full: seq<nat>, used: seq<nat>)

  datatype Heap = Heap(frames: seq<bool>, slabs: map<nat, Slab>, caches: seq<Cache>, large: seq<Range<()>>)

  function FrameAddr(n: nat): nat {
    FRAME_BASE + n * PAGE
  }

  predicate IsFrame(a: nat) {
    FRAME_BASE <= a < FRAME_TOP && Aligned(a)
  }

  function FrameNo(a: nat): (n: nat)
    requires IsFrame(a)
    ensures n < FRAME_COUNT && FrameAddr(n) == a
  {
    (a - FRAME_BASE) / PAGE
  }

  /** A place for a block of class k in the page, clear of the header. */
  predicate IsChunk(page: nat, k: nat, a: nat) {
    IsClass(k) && page < a < page + PAGE && (a - page) / ChunkBytes(k) * ChunkBytes(k) == a - page
  }

  lemma ChunkInPage(page: nat, k: nat, a: nat)
    requires Aligned(page) && IsChunk(page, k, a)
    ensures ThisPage(a) == page && !Aligned(a) && page + HEADER <= a && a + ChunkBytes(k) <= page + PAGE
  {
  }

  lemma ChunksApart(page: nat, k: nat, a: nat, b: nat)
    requires IsChunk(page, k, a) && IsChunk(page, k, b) && a < b
    ensures a + ChunkBytes(k) <= b
  {
  }

  // ----- The parts of the invariant

  ghost predicate SlabOk(page: nat, slab: Slab) {
    && IsClass(slab.cls) && 0 < slab.used && |slab.free| + slab.used == FullCount(slab.cls)
    && NoDup(slab.free) && forall a :: a in slab.free ==> IsChunk(page, slab.cls, a)
  }

  ghost predicate SlabsOk(slabs: map<nat, Slab>) {
    forall page :: page in slabs ==> IsFrame(page) && SlabOk(page, slabs[page])
  }

  predicate IsFull(slab: Slab, k: nat) {
    IsClass(k) && slab.cls == k && slab.used == FullCount(k)
  }

  predicate IsPartial(slab: Slab, k: nat) {
    IsClass(k) && slab.cls == k && slab.used < FullCount(k)
  }

  /** Every slab is in exactly the list its count calls for. */
  ghost predicate CacheOk(k: nat, cache: Cache, slabs: map<nat, Slab>) {
    && NoDup(cache.full) && (forall page :: page in cache.full <==> page in slabs && IsFull(slabs[page], k))
    && NoDup(cache.used) && (forall page :: page in cache.used <==> page in slabs && IsPartial(slabs[page], k))
  }

  ghost predicate CachesOk(caches: seq<Cache>, slabs: map<nat, Slab>) {
    |caches| == 6 && forall c :: 0 <= c < 6 ==> CacheOk(c + 5, caches[c], slabs)
  }

  /** A chunk is free or live, never both. */
  ghost predicate Accounted(slabs: map<nat, Slab>, live: map<nat, nat>) {
    forall page, a :: page in slabs && IsChunk(page, slabs[page].cls, a) ==> (a in slabs[page].free <==> a !in live)
  }

  datatype Kind = SmallBlock | PageBlock | LargeBlock

  function KindOf(size: nat): Kind {
    if size <= 512 then SmallBlock else if size <= PAGE then PageBlock else LargeBlock
  }

  /** Small blocks are chunks of a slab, large enough for the request. */
  ghost predicate SmallOk(slabs: map<nat, Slab>, live: map<nat, nat>) {
    forall a :: a in live && KindOf(live[a]) == SmallBlock ==> IsSmall(slabs, a, live[a])
  }

  predicate IsSmall(slabs: map<nat, Slab>, a: nat, n: nat) {
    var page := ThisPage(a);
    page in slabs && IsChunk(page, slabs[page].cls, a) && n <= ChunkBytes(slabs[page].cls)
  }

  predicate IsPage(live: map<nat, nat>, a: nat) {
    a in live && KindOf(live[a]) == PageBlock
  }

  /** The frame bitmap marks exactly the slabs and the page blocks, and no page is both. */
  ghost predicate PagesOk(frames: seq<bool>, slabs: map<nat, Slab>, live: map<nat, nat>) {
    && |frames| == FRAME_COUNT
    && (forall a :: IsPage(live, a) ==> IsFrame(a) && a !in slabs)
    && (forall f :: 0 <= f < FRAME_COUNT ==> (frames[f] <==> FrameAddr(f) in slabs || IsPage(live, FrameAddr(f))))
  }

  ghost predicate Starts(large: seq<Range<()>>, i: int, a: nat, n: nat) {
    0 < i < |large| - 1 && large[i].begin == a && large[i].end == a + RoundUp(n)
  }

  /** The large ranges that have pages are exactly the large blocks. */
  ghost predicate Interior(rs: seq<Range<()>>, live: map<nat, nat>) {
    && (forall a :: a in live && KindOf(live[a]) == LargeBlock ==>
          live[a] <= WORD - PAGE && exists i :: Starts(rs, i, a, live[a]))
    && (forall i :: 0 < i < |rs| - 1 ==> IsLarge(rs[i].begin, rs[i].end, live) || IsZero(rs[i].begin, rs[i].end))
  }

  ghost predicate LargeOk(large: seq<Range<()>>, live: map<nat, nat>) {
    && Valid(large, LargeFrames.LARGE_BASE, LargeFrames.LARGE_TOP) && LargeFrames.WholePages(large)
    && Interior(large, live)
  }

  predicate IsLarge(begin: int, end: int, live: map<nat, nat>) {
    begin in live && KindOf(live[begin]) == LargeBlock && end == begin + RoundUp(live[begin])
  }

  /** A run without pages: what a request above 0xFFFFF000 bytes is given. */
  predicate IsZero(begin: int, end: int) {
    begin == end < LargeFrames.LARGE_TOP
  }

  /** The addresses of the runs without pages, with repetitions. */
  function Zeros(rs: seq<Range<()>>): multiset<int> {
    if rs == [] then multiset{} else ZeroOf(rs[0]) + Zeros(rs[1..])
  }

  function ZeroOf(e: Range<()>): multiset<int> {
    if IsZero(e.begin, e.end) then multiset{e.begin} else multiset{}
  }

  /** live holds the blocks with their requested sizes.  Runs without pages have no room and are not in it. */
  ghost predicate Inv(h: Heap, live: map<nat, nat>) {
    && SlabsOk(h.slabs) && CachesOk(h.caches, h.slabs)
    && Accounted(h.slabs, live) && SmallOk(h.slabs, live)
    && PagesOk(h.frames, h.slabs, live) && LargeOk(h.large, live)
  }

  // ----- Small blocks

  /** The free list that the header's constructor builds. */
  function ChunkList(page: nat, k: nat): (q: seq<nat>)
    requires IsClass(k)
    ensures |q| == FullCount(k) && forall i :: 0 <= i < |q| ==> q[i] == page + (i + 1) * ChunkBytes(k)
  {
    seq(FullCount(k), i requires 0 <= i < FullCount(k) => page + (i + 1) * ChunkBytes(k))
  }

  lemma FrontHasRoom(caches: seq<Cache>, slabs: map<nat, Slab>, k: nat)
    requires SlabsOk(slabs) && CachesOk(caches, slabs) && IsClass(k) && caches[k - 5].used != []
    ensures var page := caches[k - 5].used[0];
            page in slabs && IsPartial(slabs[page], k) && slabs[page].free != [] && IsFrame(page)
              && SlabOk(page, slabs[page])
  {
  }

  function SlabAlloc(h: Heap, size: nat): (r: Option<(Heap, nat)>)
    requires size <= 512 && SlabsOk(h.slabs) && CachesOk(h.caches, h.slabs)
  {
    var k := ClassOf(Max(size, 1));
    ClassFits(Max(size, 1));
    if h.caches[k - 5].used != [] then
      FrontHasRoom(h.caches, h.slabs, k);
      Some(TakeChunk(h, k))
    else
      match Frames.FirstClear(h.frames)
      case None => None
      case Some(f) => Some(NewSlab(h, k, f))
  }

  /** The first free chunk of the first slab in use, which may thereby become full. */
  function TakeChunk(h: Heap, k: nat): (Heap, nat)
    requires IsClass(k) && |h.caches| == 6 && h.caches[k - 5].used != []
    requires h.caches[k - 5].used[0] in h.slabs && h.slabs[h.caches[k - 5].used[0]].free != []
  {
    var cache := h.caches[k - 5];
    var page := cache.used[0];
    var slab := h.slabs[page];
    var slab' := Slab(k, slab.free[1..], slab.used + 1);
    var cache' := if slab'.used == FullCount(k) then Cache([page] + cache.full, cache.used[1..]) else cache;
    (h.(slabs := h.slabs[page := slab'], caches := h.caches[k - 5 := cache']), slab.free[0])
  }

  /** The first chunk of a new slab. */
  function NewSlab(h: Heap, k: nat, f: nat): (Heap, nat)
    requires IsClass(k) && |h.caches| == 6 && f < |h.frames|
  {
    var cache := h.caches[k - 5];
    var page := FrameAddr(f);
    var chunks := ChunkList(page, k);
    (h.(frames := h.frames[f := true],
        slabs := h.slabs[page := Slab(k, chunks[1..], 1)],
        caches := h.caches[k - 5 := cache.(used := [page] + cache.used)]), chunks[0])
  }

  function SlabFree(h: Heap, a: nat): Heap
    requires ThisPage(a) in h.slabs && SlabsOk(h.slabs) && CachesOk(h.caches, h.slabs) && |h.frames| == FRAME_COUNT
  {
    var page := ThisPage(a);
    var slab, k := h.slabs[page], h.slabs[page].cls;
    var slab' := Slab(k, [a] + slab.free, slab.used - 1);
    var cache := h.caches[k - 5];
    if slab'.used == FullCount(k) - 1 then
      h.(slabs := h.slabs[page := slab'],
         caches := h.caches[k - 5 := Cache(Remove(cache.full, page), [page] + cache.used)])
    else if slab'.used == 0 then
      h.(frames := h.frames[FrameNo(page) := false], slabs := h.slabs - {page},
         caches := h.caches[k - 5 := cache.(used := Remove(cache.used, page))])
    else h.(slabs := h.slabs[page := slab'])
  }

  // ----- One slab changes

  lemma SlabsPut(slabs: map<nat, Slab>, page: nat, slab: Slab)
    requires SlabsOk(slabs) && IsFrame(page) && SlabOk(page, slab)
    ensures SlabsOk(slabs[page := slab])
  {
  }

  lemma CachesPut(caches: seq<Cache>, slabs: map<nat, Slab>, page: nat, slab: Slab, cache: Cache)
    requires CachesOk(caches, slabs) && IsClass(slab.cls) && (page in slabs ==> slabs[page].cls == slab.cls)
    requires CacheOk(slab.cls, cache, slabs[page := slab])
    ensures CachesOk(caches[slab.cls - 5 := cache], slabs[page := slab])
  {
  }

  lemma CachesDrop(caches: seq<Cache>, slabs: map<nat, Slab>, page: nat, cache: Cache)
    requires CachesOk(caches, slabs) && page in slabs && IsClass(slabs[page].cls)
    requires CacheOk(slabs[page].cls, cache, slabs - {page})
    ensures CachesOk(caches[slabs[page].cls - 5 := cache], slabs - {page})
  {
  }

  /** Filling the last chunk moves the slab from the front of the used list to the full list. */
  lemma CacheAlloc(k: nat, cache: Cache, slabs: map<nat, Slab>, slab: Slab)
    requires IsClass(k) && CacheOk(k, cache, slabs) && cache.used != [] && slab.cls == k
    requires cache.used[0] in slabs && slab.used == slabs[cache.used[0]].used + 1
    ensures var page := cache.used[0];
            CacheOk(k, if slab.used == FullCount(k) then Cache([page] + cache.full, cache.used[1..]) else cache,
                    slabs[page := slab])
  {
  }

  lemma CacheNew(k: nat, cache: Cache, slabs: map<nat, Slab>, page: nat, slab: Slab)
    requires IsClass(k) && CacheOk(k, cache, slabs) && page !in slabs && slab.cls == k && slab.used == 1
    ensures CacheOk(k, cache.(used := [page] + cache.used), slabs[page := slab])
  {
  }

  lemma CacheFree(k: nat, cache: Cache, slabs: map<nat, Slab>, page: nat, slab: Slab)
    requires IsClass(k) && CacheOk(k, cache, slabs) && page in slabs && slabs[page].cls == k == slab.cls
    requires slab.used + 1 == slabs[page].used <= FullCount(k)
    ensures CacheOk(k, if slab.used == FullCount(k) - 1
                       then Cache(Remove(cache.full, page), [page] + cache.used) else cache, slabs[page := slab])
  {
  }

  lemma CacheEmptied(k: nat, cache: Cache, slabs: map<nat, Slab>, page: nat)
    requires IsClass(k) && CacheOk(k, cache, slabs) && page in slabs && slabs[page].cls == k && slabs[page].used == 1
    ensures CacheOk(k, cache.(used := Remove(cache.used, page)), slabs - {page})
  {
  }

  lemma ChunkListOk(page: nat, k: nat)
    requires IsClass(k)
    ensures NoDup(ChunkList(page, k)) && forall a :: a in ChunkList(page, k) <==> IsChunk(page, k, a)
  {
    hide IsChunk, ChunkList;
    ChunkListNoDup(page, k);
    var q := ChunkList(page, k);
    forall a: nat | IsChunk(page, k, a) ensures a in q {
      ChunkListHas(page, k, a);
    }
    forall i | 0 <= i < |q| ensures IsChunk(page, k, q[i]) {
      ChunkListOnly(page, k, i);
    }
  }

  lemma ChunkListNoDup(page: nat, k: nat)
    requires IsClass(k)
    ensures NoDup(ChunkList(page, k))
  {
  }

  lemma ChunkListHas(page: nat, k: nat, a: nat)
    requires IsClass(k) && IsChunk(page, k, a)
    ensures a in ChunkList(page, k)
  {
    assert ChunkList(page, k)[(a - page) / ChunkBytes(k) - 1] == a;
  }

  lemma ChunkListOnly(page: nat, k: nat, i: nat)
    requires IsClass(k) && i < |ChunkList(page, k)|
    ensures IsChunk(page, k, ChunkList(page, k)[i])
  {
    var d := ChunkBytes(k);
    assert (i + 1) * d / d == i + 1 by {
      if d == 32 { } else if d == 64 { } else if d == 128 { } else if d == 256 { } else if d == 512 { } else { }
    }
    assert (i + 1) * d <= FullCount(k) * d;
  }

  lemma AccountedAlloc(slabs: map<nat, Slab>, live: map<nat, nat>, page: nat, slab: Slab, n: nat)
    requires SlabsOk(slabs) && Accounted(slabs, live) && page in slabs && slabs[page].free != []
    requires slab.cls == slabs[page].cls && slab.free == slabs[page].free[1..]
    ensures Accounted(slabs[page := slab], live[slabs[page].free[0] := n])
  {
    var q := slabs[page].free;
    var a := q[0];
    assert a in q;
    RemoveFront(q);
    RemoveMembers(q, a);
    forall p, b | p in slabs && p != page && IsChunk(p, slabs[p].cls, b) ensures b != a {
      ChunkInPage(p, slabs[p].cls, b);
      ChunkInPage(page, slabs[page].cls, a);
    }
  }

  lemma AccountedNew(slabs: map<nat, Slab>, live: map<nat, nat>, page: nat, k: nat, n: nat)
    requires SlabsOk(slabs) && Accounted(slabs, live) && SmallOk(slabs, live) && page !in slabs && IsFrame(page)
             && IsClass(k)
    requires forall a :: IsChunk(page, k, a) ==> a !in live
    ensures Accounted(slabs[page := Slab(k, ChunkList(page, k)[1..], 1)], live[ChunkList(page, k)[0] := n])
  {
    var q := ChunkList(page, k);
    ChunkListOk(page, k);
    RemoveFront(q);
    RemoveMembers(q, q[0]);
    forall p, b | p in slabs && IsChunk(p, slabs[p].cls, b) ensures b != q[0] {
      ChunkInPage(p, slabs[p].cls, b);
      ChunkInPage(page, k, q[0]);
    }
  }

  lemma AccountedFree(slabs: map<nat, Slab>, live: map<nat, nat>, a: nat, slab: Slab)
    requires SlabsOk(slabs) && Accounted(slabs, live) && a in live && ThisPage(a) in slabs
    requires slab.cls == slabs[ThisPage(a)].cls && slab.free == [a] + slabs[ThisPage(a)].free
    ensures Accounted(slabs[ThisPage(a) := slab], live - {a})
  {
    var page := ThisPage(a);
    forall p, b | p in slabs && p != page && IsChunk(p, slabs[p].cls, b) ensures b != a {
      ChunkInPage(p, slabs[p].cls, b);
    }
  }

  lemma AccountedDrop(slabs: map<nat, Slab>, live: map<nat, nat>, a: nat)
    requires SlabsOk(slabs) && Accounted(slabs, live) && ThisPage(a) in slabs
    ensures Accounted(slabs - {ThisPage(a)}, live - {a})
  {
    forall p, b | p in slabs && p != ThisPage(a) && IsChunk(p, slabs[p].cls, b) ensures b != a {
      ChunkInPage(p, slabs[p].cls, b);
    }
  }

  // ----- Counting chunks

  ghost function Members(q: seq<nat>): (s: set<nat>)
    ensures |s| <= |q| && forall x :: x in s <==> x in q
  {
    if q == [] then {} else Members(q[1..]) + {q[0]}
  }

  lemma {:induction false} MembersCount(q: seq<nat>)
    requires NoDup(q)
    ensures |Members(q)| == |q|
  {
    if q != [] {
      MembersCount(q[1..]);
      assert q[0] !in q[1..];
    }
  }

  /** A slab in which nothing is used has every chunk on its free list. */
  lemma AllFree(page: nat, k: nat, free: seq<nat>, a: nat)
    requires IsClass(k) && NoDup(free) && |free| == FullCount(k) && IsChunk(page, k, a)
    requires forall b :: b in free ==> IsChunk(page, k, b)
    ensures a in free
  {
    var q := ChunkList(page, k);
    ChunkListOk(page, k);
    MembersCount(q);
    MembersCount(free);
    if a !in free {
      Frames.SubsetSize(Members(free), Members(q) - {a});
    }
  }

  /** A slab of which something is used has a chunk that is not on its free list. */
  lemma NotAllFree(page: nat, k: nat, free: seq<nat>)
    requires IsClass(k) && |free| < FullCount(k)
    ensures exists a :: IsChunk(page, k, a) && a !in free
  {
    var q := ChunkList(page, k);
    ChunkListOk(page, k);
    MembersCount(q);
    if forall a :: IsChunk(page, k, a) ==> a in free {
      Frames.SubsetSize(Members(q), Members(free));
    }
  }

  // ----- What the other parts see of it

  lemma SmallPut(slabs: map<nat, Slab>, live: map<nat, nat>, page: nat, slab: Slab, a: nat, n: nat)
    requires SmallOk(slabs, live) && (page in slabs ==> slab.cls == slabs[page].cls)
    requires IsSmall(slabs[page := slab], a, n)
    ensures SmallOk(slabs[page := slab], live[a := n])
  {
  }

  lemma SmallTaken(slabs: map<nat, Slab>, live: map<nat, nat>, page: nat, slab: Slab, a: nat)
    requires SmallOk(slabs, live) && page in slabs && slab.cls == slabs[page].cls
    ensures SmallOk(slabs[page := slab], live - {a})
  {
  }

  lemma SmallDrop(slabs: map<nat, Slab>, live: map<nat, nat>, a: nat)
    requires SmallOk(slabs, live) && ThisPage(a) in slabs
    requires forall b :: b in live && IsChunk(ThisPage(a), slabs[ThisPage(a)].cls, b) ==> b == a
    ensures SmallOk(slabs - {ThisPage(a)}, live - {a})
  {
  }

  /** Two views of the blocks that agree on those of one kind. */
  ghost predicate Agree(live: map<nat, nat>, live': map<nat, nat>, kind: Kind) {
    forall a, n :: KindOf(n) == kind ==> ((a in live && live[a] == n) <==> (a in live' && live'[a] == n))
  }

  lemma PagesSame(frames: seq<bool>, slabs: map<nat, Slab>, slabs': map<nat, Slab>,
                  live: map<nat, nat>, live': map<nat, nat>)
    requires PagesOk(frames, slabs, live) && slabs'.Keys == slabs.Keys && Agree(live, live', PageBlock)
    ensures PagesOk(frames, slabs', live')
  {
  }

  lemma PagesSet(frames: seq<bool>, slabs: map<nat, Slab>, live: map<nat, nat>, f: nat, slab: Slab)
    requires PagesOk(frames, slabs, live) && f < FRAME_COUNT && !frames[f]
    ensures PagesOk(frames[f := true], slabs[FrameAddr(f) := slab], live) && FrameAddr(f) !in slabs
            && !IsPage(live, FrameAddr(f))
  {
  }

  lemma PagesCleared(frames: seq<bool>, slabs: map<nat, Slab>, live: map<nat, nat>, page: nat)
    requires PagesOk(frames, slabs, live) && page in slabs && IsFrame(page)
    ensures PagesOk(frames[FrameNo(page) := false], slabs - {page}, live)
  {
  }

  lemma PagesTaken(frames: seq<bool>, slabs: map<nat, Slab>, live: map<nat, nat>, f: nat, n: nat)
    requires PagesOk(frames, slabs, live) && f < FRAME_COUNT && !frames[f] && KindOf(n) == PageBlock
    ensures PagesOk(frames[f := true], slabs, live[FrameAddr(f) := n])
  {
  }

  lemma PagesGiven(frames: seq<bool>, slabs: map<nat, Slab>, live: map<nat, nat>, a: nat)
    requires PagesOk(frames, slabs, live) && IsPage(live, a)
    ensures IsFrame(a) && frames[FrameNo(a)] && PagesOk(frames[FrameNo(a) := false], slabs, live - {a})
  {
  }

  lemma LargeSame(large: seq<Range<()>>, live: map<nat, nat>, live': map<nat, nat>)
    requires LargeOk(large, live) && Agree(live, live', LargeBlock)
    ensures LargeOk(large, live')
  {
  }

  lemma AgreePut(live: map<nat, nat>, a: nat, n: nat, kind: Kind)
    requires a !in live && KindOf(n) != kind
    ensures Agree(live, live[a := n], kind)
  {
  }

  lemma AgreeTake(live: map<nat, nat>, a: nat, kind: Kind)
    requires a in live && KindOf(live[a]) != kind
    ensures Agree(live, live - {a}, kind)
  {
  }

  // ----- Every operation keeps the invariant

  lemma SlabAllocKeeps(h: Heap, live: map<nat, nat>, size: nat)
    requires Inv(h, live) && size <= 512 && SlabAlloc(h, size).Some?
    ensures var (h', a) := SlabAlloc(h, size).value; a !in live && Inv(h', live[a := size])
  {
    hide SlabsOk, CachesOk, Accounted, SmallOk, PagesOk, LargeOk, ClassOf, CacheOk, SlabOk;
    var k := ClassOf(Max(size, 1));
    ClassFits(Max(size, 1));
    CacheKnown(h.caches, h.slabs, k);
    var cache := h.caches[k - 5];
    if cache.used != [] {
      FrontHasRoom(h.caches, h.slabs, k);
      FromUsed(h, live, size, k);
    } else {
      match Frames.FirstClear(h.frames)
      case Some(f) => FromNew(h, live, size, k, f);
    }
  }

  lemma CacheKnown(caches: seq<Cache>, slabs: map<nat, Slab>, k: nat)
    requires CachesOk(caches, slabs) && IsClass(k)
    ensures |caches| == 6 && CacheOk(k, caches[k - 5], slabs)
  {
  }

  lemma FromUsed(h: Heap, live: map<nat, nat>, size: nat, k: nat)
    requires Inv(h, live) && size <= 512 && IsClass(k) && size <= ChunkBytes(k) && |h.caches| == 6
             && h.caches[k - 5].used != []
    requires h.caches[k - 5].used[0] in h.slabs && h.slabs[h.caches[k - 5].used[0]].free != []
    ensures var cache := h.caches[k - 5];
            var page := cache.used[0];
            var slab := h.slabs[page];
            var slab' := Slab(k, slab.free[1..], slab.used + 1);
            var cache' := if slab'.used == FullCount(k) then Cache([page] + cache.full, cache.used[1..]) else cache;
            slab.free[0] !in live
            && Inv(h.(slabs := h.slabs[page := slab'], caches := h.caches[k - 5 := cache']), live[slab.free[0] := size])
  {
    hide SlabsOk, CachesOk, Accounted, SmallOk, PagesOk, LargeOk, CacheOk, SlabOk, IsChunk;
    var cache := h.caches[k - 5];
    var page := cache.used[0];
    var slab := h.slabs[page];
    FrontHasRoom(h.caches, h.slabs, k);
    var slab' := Slab(k, slab.free[1..], slab.used + 1);
    var a := slab.free[0];
    FreeChunk(h.slabs, live, page, a);
    TailOk(page, slab, slab');
    SlabsPut(h.slabs, page, slab');
    CacheKnown(h.caches, h.slabs, k);
    CacheAlloc(k, cache, h.slabs, slab');
    CachesPut(h.caches, h.slabs, page, slab',
              if slab'.used == FullCount(k) then Cache([page] + cache.full, cache.used[1..]) else cache);
    AccountedAlloc(h.slabs, live, page, slab', size);
    SmallPut(h.slabs, live, page, slab', a, size);
    AgreePut(live, a, size, PageBlock);
    AgreePut(live, a, size, LargeBlock);
    PagesSame(h.frames, h.slabs, h.slabs[page := slab'], live, live[a := size]);
    LargeSame(h.large, live, live[a := size]);
  }

  lemma FreeChunk(slabs: map<nat, Slab>, live: map<nat, nat>, page: nat, a: nat)
    requires SlabsOk(slabs) && Accounted(slabs, live) && page in slabs && a in slabs[page].free
    ensures a !in live && IsChunk(page, slabs[page].cls, a) && ThisPage(a) == page
  {
    ChunkInPage(page, slabs[page].cls, a);
  }

  lemma TailOk(page: nat, slab: Slab, slab': Slab)
    requires SlabOk(page, slab) && slab.free != [] && slab' == Slab(slab.cls, slab.free[1..], slab.used + 1)
    ensures SlabOk(page, slab')
  {
  }

  lemma FromNew(h: Heap, live: map<nat, nat>, size: nat, k: nat, f: nat)
    requires Inv(h, live) && size <= 512 && IsClass(k) && size <= ChunkBytes(k) && |h.caches| == 6
    requires f < |h.frames| && !h.frames[f]
    ensures var page := FrameAddr(f);
            var chunks := ChunkList(page, k);
            var cache := h.caches[k - 5];
            chunks[0] !in live
            && Inv(h.(frames := h.frames[f := true], slabs := h.slabs[page := Slab(k, chunks[1..], 1)],
                      caches := h.caches[k - 5 := cache.(used := [page] + cache.used)]), live[chunks[0] := size])
  {
    hide SlabsOk, CachesOk, Accounted, SmallOk, PagesOk, LargeOk, CacheOk, SlabOk, IsChunk;
    var page := FrameAddr(f);
    var chunks := ChunkList(page, k);
    var a, slab := chunks[0], Slab(k, chunks[1..], 1);
    var cache := h.caches[k - 5];
    FramesSized(h.frames, h.slabs, live);
    PagesSet(h.frames, h.slabs, live, f, slab);
    FreshPage(h, live, page, k);
    ChunkListOk(page, k);
    NewSlabOk(page, k);
    SlabsPut(h.slabs, page, slab);
    CacheKnown(h.caches, h.slabs, k);
    CacheNew(k, cache, h.slabs, page, slab);
    CachesPut(h.caches, h.slabs, page, slab, cache.(used := [page] + cache.used));
    AccountedNew(h.slabs, live, page, k, size);
    assert IsChunk(page, k, a);
    ChunkInPage(page, k, a);
    SmallPut(h.slabs, live, page, slab, a, size);
    AgreePut(live, a, size, PageBlock);
    AgreePut(live, a, size, LargeBlock);
    PagesSame(h.frames[f := true], h.slabs[page := slab], h.slabs[page := slab], live, live[a := size]);
    LargeSame(h.large, live, live[a := size]);
  }

  lemma FramesSized(frames: seq<bool>, slabs: map<nat, Slab>, live: map<nat, nat>)
    requires PagesOk(frames, slabs, live)
    ensures |frames| == FRAME_COUNT
  {
  }

  lemma NewSlabOk(page: nat, k: nat)
    requires IsClass(k)
    ensures SlabOk(page, Slab(k, ChunkList(page, k)[1..], 1))
  {
    ChunkListOk(page, k);
  }

  /** No block lies in a page that is no slab. */
  lemma FreshPage(h: Heap, live: map<nat, nat>, page: nat, k: nat)
    requires Inv(h, live) && IsFrame(page) && page !in h.slabs && IsClass(k)
    ensures forall a :: IsChunk(page, k, a) ==> a !in live
  {
    forall a | IsChunk(page, k, a) && a in live ensures false {
      ChunkInPage(page, k, a);
      BlockPlace(h, live, a);
    }
  }

  /** Where the blocks of each kind are. */
  lemma BlockPlace(h: Heap, live: map<nat, nat>, a: nat)
    requires Inv(h, live) && a in live
    ensures match KindOf(live[a])
            case SmallBlock => IsSmall(h.slabs, a, live[a]) && IsFrame(ThisPage(a)) && !Aligned(a)
            case PageBlock => IsFrame(a)
            case LargeBlock => LargeFrames.LARGE_BASE <= a && Aligned(a)
  {
  }

  lemma SlabFreeKeeps(h: Heap, live: map<nat, nat>, a: nat)
    requires Inv(h, live) && a in live && KindOf(live[a]) == SmallBlock && ThisPage(a) in h.slabs
             && |h.frames| == FRAME_COUNT
    ensures Inv(SlabFree(h, a), live - {a})
  {
    hide SlabsOk, CachesOk, Accounted, SmallOk, PagesOk, LargeOk, CacheOk, SlabOk, IsChunk;
    LiveChunk(h, live, a);
    CacheKnown(h.caches, h.slabs, h.slabs[ThisPage(a)].cls);
    AgreeTake(live, a, PageBlock);
    AgreeTake(live, a, LargeBlock);
    LargeSame(h.large, live, live - {a});
    if h.slabs[ThisPage(a)].used == 1 {
      LastFreed(h, live, a);
    } else {
      OneFreed(h, live, a);
    }
  }

  /** Giving back the last chunk gives back the page. */
  lemma LastFreed(h: Heap, live: map<nat, nat>, a: nat)
    requires Inv(h, live) && a in live && KindOf(live[a]) == SmallBlock && ThisPage(a) in h.slabs
    requires h.slabs[ThisPage(a)].used == 1 && Agree(live, live - {a}, PageBlock) && |h.caches| == 6
    ensures var page := ThisPage(a);
            var slabs, k := h.slabs - {page}, h.slabs[page].cls;
            && IsFrame(page) && |h.frames| == FRAME_COUNT && IsClass(k)
            && SlabsOk(slabs) && Accounted(slabs, live - {a}) && SmallOk(slabs, live - {a})
            && PagesOk(h.frames[FrameNo(page) := false], slabs, live - {a})
            && CachesOk(h.caches[k - 5 := h.caches[k - 5].(used := Remove(h.caches[k - 5].used, page))], slabs)
  {
    hide SlabsOk, CachesOk, Accounted, SmallOk, PagesOk, LargeOk, CacheOk, SlabOk, IsChunk;
    var page := ThisPage(a);
    LiveChunk(h, live, a);
    var k := h.slabs[page].cls;
    FramesSized(h.frames, h.slabs, live);
    CacheKnown(h.caches, h.slabs, k);
    LastChunk(h.slabs, live, a);
    CacheEmptied(k, h.caches[k - 5], h.slabs, page);
    CachesDrop(h.caches, h.slabs, page, h.caches[k - 5].(used := Remove(h.caches[k - 5].used, page)));
    SlabsDrop(h.slabs, page);
    AccountedDrop(h.slabs, live, a);
    SmallDrop(h.slabs, live, a);
    PagesCleared(h.frames, h.slabs, live, page);
    PagesSame(h.frames[FrameNo(page) := false], h.slabs - {page}, h.slabs - {page}, live, live - {a});
  }

  lemma OneFreed(h: Heap, live: map<nat, nat>, a: nat)
    requires Inv(h, live) && a in live && KindOf(live[a]) == SmallBlock && ThisPage(a) in h.slabs
    requires h.slabs[ThisPage(a)].used > 1 && Agree(live, live - {a}, PageBlock) && |h.caches| == 6
    ensures var page := ThisPage(a);
            var k := h.slabs[page].cls;
            var slab := Slab(k, [a] + h.slabs[page].free, h.slabs[page].used - 1);
            var slabs := h.slabs[page := slab];
            && IsClass(k)
            && SlabsOk(slabs) && Accounted(slabs, live - {a}) && SmallOk(slabs, live - {a})
            && PagesOk(h.frames, slabs, live - {a})
            && var cache := h.caches[k - 5];
               CachesOk(if slab.used == FullCount(k) - 1
                        then h.caches[k - 5 := Cache(Remove(cache.full, page), [page] + cache.used)]
                        else h.caches, slabs)
  {
    hide SlabsOk, CachesOk, Accounted, SmallOk, PagesOk, LargeOk, CacheOk, SlabOk, IsChunk;
    var page := ThisPage(a);
    LiveChunk(h, live, a);
    var slab, k := h.slabs[page], h.slabs[page].cls;
    var slab', cache := Slab(k, [a] + slab.free, slab.used - 1), h.caches[k - 5];
    CacheKnown(h.caches, h.slabs, k);
    FreedOk(page, slab, slab', a);
    SlabsPut(h.slabs, page, slab');
    CacheFree(k, cache, h.slabs, page, slab');
    var cache' := if slab'.used == FullCount(k) - 1 then Cache(Remove(cache.full, page), [page] + cache.used)
      else cache;
    CachesPut(h.caches, h.slabs, page, slab', cache');
    assert h.caches[k - 5 := cache] == h.caches;
    AccountedFree(h.slabs, live, a, slab');
    SmallTaken(h.slabs, live, page, slab', a);
    PagesSame(h.frames, h.slabs, h.slabs[page := slab'], live, live - {a});
  }

  /** A live small block is a chunk of its slab that is not on the free list. */
  lemma LiveChunk(h: Heap, live: map<nat, nat>, a: nat)
    requires Inv(h, live) && a in live && KindOf(live[a]) == SmallBlock
    ensures var page := ThisPage(a);
            && page in h.slabs && IsFrame(page) && SlabOk(page, h.slabs[page])
            && IsChunk(page, h.slabs[page].cls, a) && a !in h.slabs[page].free
            && IsClass(h.slabs[page].cls) && 0 < h.slabs[page].used <= FullCount(h.slabs[page].cls)
  {
    hide CachesOk, PagesOk, LargeOk;
    assert IsSmall(h.slabs, a, live[a]);
  }

  lemma SlabsDrop(slabs: map<nat, Slab>, page: nat)
    requires SlabsOk(slabs)
    ensures SlabsOk(slabs - {page})
  {
  }

  lemma FreedOk(page: nat, slab: Slab, slab': Slab, a: nat)
    requires SlabOk(page, slab) && slab.used > 1 && a !in slab.free && IsChunk(page, slab.cls, a)
    requires slab' == Slab(slab.cls, [a] + slab.free, slab.used - 1)
    ensures SlabOk(page, slab')
  {
  }

  /** In a slab with one chunk in use, that chunk is the only live one. */
  lemma LastChunk(slabs: map<nat, Slab>, live: map<nat, nat>, a: nat)
    requires SlabsOk(slabs) && Accounted(slabs, live) && ThisPage(a) in slabs && slabs[ThisPage(a)].used == 1
    requires a !in slabs[ThisPage(a)].free && IsChunk(ThisPage(a), slabs[ThisPage(a)].cls, a)
    ensures forall b :: b in live && IsChunk(ThisPage(a), slabs[ThisPage(a)].cls, b) ==> b == a
  {
    var page := ThisPage(a);
    var slab := slabs[page];
    forall b | b in live && IsChunk(page, slab.cls, b) && b != a ensures false {
      AllFree(page, slab.cls, [a] + slab.free, b);
    }
  }

  // Which small requests are met.

  /** A slab of class k with a free chunk. */
  ghost predicate Spare(slabs: map<nat, Slab>, page: nat, k: nat) {
    page in slabs && slabs[page].cls == k && slabs[page].free != []
  }

  ghost predicate HasSpare(slabs: map<nat, Slab>, k: nat) {
    exists page :: Spare(slabs, page, k)
  }

  ghost predicate AllTaken(frames: seq<bool>) {
    forall f :: 0 <= f < |frames| ==> frames[f]
  }

  ghost predicate LowestClear(frames: seq<bool>, f: nat) {
    f < |frames| && !frames[f] && forall g :: 0 <= g < f ==> frames[g]
  }

  lemma SpareUsed(caches: seq<Cache>, slabs: map<nat, Slab>, k: nat)
    requires SlabsOk(slabs) && CachesOk(caches, slabs) && IsClass(k)
    ensures |caches| == 6 && (caches[k - 5].used != [] <==> HasSpare(slabs, k))
  {
    hide FullCount;
    CacheKnown(caches, slabs, k);
    var cache := caches[k - 5];
    if cache.used != [] {
      FrontHasRoom(caches, slabs, k);
      assert Spare(slabs, cache.used[0], k);
    }
    if page :| Spare(slabs, page, k) {
      assert SlabOk(page, slabs[page]);
      assert IsPartial(slabs[page], k);
      assert page in cache.used;
    }
  }

  /** A small request is refused exactly if no slab of its class has a free chunk and every page is taken.  The block
      is a chunk of its class; a page is taken, the lowest, only when no slab has room. */
  lemma SmallExact(h: Heap, size: nat)
    requires size <= 512 && SlabsOk(h.slabs) && CachesOk(h.caches, h.slabs)
    ensures var k := ClassOf(Max(size, 1));
            && (SlabAlloc(h, size).None? <==> !HasSpare(h.slabs, k) && AllTaken(h.frames))
            && (SlabAlloc(h, size).Some? ==>
                  var (h', a) := SlabAlloc(h, size).value;
                  var page := ThisPage(a);
                  && 0 <= page && page in h'.slabs && h'.slabs[page].cls == k && !Aligned(a) && h'.large == h.large
                  && if HasSpare(h.slabs, k) then h'.frames == h.frames && h'.slabs.Keys == h.slabs.Keys
                     else exists f: nat :: LowestClear(h.frames, f) && h'.frames == h.frames[f := true]
                                      && page == FrameAddr(f) && h'.slabs.Keys == h.slabs.Keys + {page})
  {
    hide SlabsOk, CachesOk, ClassOf, Frames.FirstClear, IsChunk, ChunkList, ThisPage, IsFrame;
    var k := ClassOf(Max(size, 1));
    ClassFits(Max(size, 1));
    SpareUsed(h.caches, h.slabs, k);
    if HasSpare(h.slabs, k) {
      FrontHasRoom(h.caches, h.slabs, k);
      var page := h.caches[k - 5].used[0];
      assert h.slabs[page].free[0] in h.slabs[page].free;
      FrameAligned(page);
      ChunkInPage(page, k, h.slabs[page].free[0]);
    } else if SlabAlloc(h, size).Some? {
      var f := Frames.FirstClear(h.frames).value;
      FrameAddrAligned(f);
      ChunkListOnly(FrameAddr(f), k, 0);
      ChunkInPage(FrameAddr(f), k, ChunkList(FrameAddr(f), k)[0]);
      assert LowestClear(h.frames, f);
    }
  }

  lemma FrameAligned(a: nat)
    requires IsFrame(a)
    ensures Aligned(a)
  {
  }

  lemma FrameAddrAligned(f: nat)
    ensures Aligned(FrameAddr(f))
  {
  }

  // ----- Pages and runs of pages

  function PageAlloc(h: Heap): Option<(Heap, nat)> {
    match Frames.FirstClear(h.frames)
    case None => None
    case Some(f) => Some((h.(frames := h.frames[f := true]), FrameAddr(f)))
  }

  /** None where the kernel stops: the page is not mapped. */
  function PageFree(h: Heap, a: nat): Option<Heap>
    requires IsFrame(a) && |h.frames| == FRAME_COUNT
  {
    if !h.frames[FrameNo(a)] then None else Some(h.(frames := h.frames[FrameNo(a) := false]))
  }

  /** A page is refused exactly if every one is taken; otherwise it is the lowest. */
  lemma PageExact(h: Heap)
    ensures PageAlloc(h).None? <==> AllTaken(h.frames)
    ensures PageAlloc(h).Some? ==>
              exists f: nat :: LowestClear(h.frames, f)
                && PageAlloc(h).value == (h.(frames := h.frames[f := true]), FrameAddr(f))
  {
    hide Frames.FirstClear;
    if PageAlloc(h).Some? {
      assert LowestClear(h.frames, Frames.FirstClear(h.frames).value);
    }
  }

  lemma PageAllocKeeps(h: Heap, live: map<nat, nat>, size: nat)
    requires Inv(h, live) && KindOf(size) == PageBlock && PageAlloc(h).Some?
    ensures var (h', a) := PageAlloc(h).value; a !in live && Inv(h', live[a := size])
  {
    hide CachesOk, LargeOk, Accounted, SmallOk;
    var f := Frames.FirstClear(h.frames).value;
    var a := FrameAddr(f);
    PagesTaken(h.frames, h.slabs, live, f, size);
    PageUnused(h, live, f);
    AgreePut(live, a, size, LargeBlock);
    LargeSame(h.large, live, live[a := size]);
    AccountedSame(h.slabs, live, live[a := size]);
    SmallSame(h.slabs, live, live[a := size]);
  }

  lemma PageUnused(h: Heap, live: map<nat, nat>, f: nat)
    requires Inv(h, live) && f < FRAME_COUNT && f < |h.frames| && !h.frames[f]
    ensures FrameAddr(f) !in live
  {
    hide SlabsOk, CachesOk, LargeOk, Accounted, SmallOk, IsChunk;
    var a := FrameAddr(f);
    assert !IsPage(live, a);
    if a in live {
      BlockPlace(h, live, a);
    }
  }

  /** The chunks do not notice a change of page-aligned blocks. */
  lemma AccountedSame(slabs: map<nat, Slab>, live: map<nat, nat>, live': map<nat, nat>)
    requires SlabsOk(slabs) && Accounted(slabs, live) && forall a: nat :: !Aligned(a) ==> (a in live <==> a in live')
    ensures Accounted(slabs, live')
  {
    forall page, a: nat | page in slabs && IsChunk(page, slabs[page].cls, a) ensures !Aligned(a) {
      ChunkInPage(page, slabs[page].cls, a);
    }
  }

  lemma SmallSame(slabs: map<nat, Slab>, live: map<nat, nat>, live': map<nat, nat>)
    requires SmallOk(slabs, live)
    requires forall a :: a in live' && KindOf(live'[a]) == SmallBlock ==> a in live && live[a] == live'[a]
    ensures SmallOk(slabs, live')
  {
  }

  lemma PageFreeKeeps(h: Heap, live: map<nat, nat>, a: nat)
    requires Inv(h, live) && a in live && KindOf(live[a]) == PageBlock && IsFrame(a) && |h.frames| == FRAME_COUNT
    ensures PageFree(h, a).Some? && Inv(PageFree(h, a).value, live - {a})
  {
    hide CachesOk, LargeOk, Accounted, SmallOk, PagesOk;
    PagesGiven(h.frames, h.slabs, live, a);
    AgreeTake(live, a, LargeBlock);
    LargeSame(h.large, live, live - {a});
    AccountedSame(h.slabs, live, live - {a});
    SmallSame(h.slabs, live, live - {a});
  }

  lemma {:induction false} ZerosJoin(rs: seq<Range<()>>, ts: seq<Range<()>>)
    ensures Zeros(rs + ts) == Zeros(rs) + Zeros(ts)
  {
    if rs == [] {
      assert rs + ts == ts;
    } else {
      assert (rs + ts)[1..] == rs[1..] + ts;
      ZerosJoin(rs[1..], ts);
    }
  }

  lemma ZerosPut(rs: seq<Range<()>>, p: nat, e: Range<()>)
    requires p <= |rs|
    ensures Zeros(rs[..p] + [e] + rs[p..]) == Zeros(rs) + ZeroOf(e)
  {
    assert rs == rs[..p] + rs[p..];
    ZerosJoin(rs[..p], rs[p..]);
    ZerosJoin(rs[..p] + [e], rs[p..]);
    ZerosJoin(rs[..p], [e]);
  }

  lemma ZerosTake(rs: seq<Range<()>>, p: nat)
    requires p < |rs|
    ensures Zeros(rs[..p] + rs[p + 1..]) + ZeroOf(rs[p]) == Zeros(rs)
  {
    hide Zeros, ZeroOf;
    var rest := rs[..p] + rs[p + 1..];
    ZerosPut(rest, p, rs[p]);
    assert rest[..p] == rs[..p] && rest[p..] == rs[p + 1..];
    assert rs[..p] + [rs[p]] + rs[p + 1..] == rs;
  }

  ghost predicate ZeroAt(rs: seq<Range<()>>, i: int, a: int) {
    0 <= i < |rs| && rs[i].begin == a && IsZero(a, rs[i].end)
  }

  lemma {:induction false} ZerosAre(rs: seq<Range<()>>, a: int)
    ensures a in Zeros(rs) <==> exists i :: ZeroAt(rs, i, a)
  {
    if rs != [] {
      ZerosAre(rs[1..], a);
      if a in Zeros(rs[1..]) {
        var i :| ZeroAt(rs[1..], i, a);
        assert ZeroAt(rs, i + 1, a);
      }
      if a in ZeroOf(rs[0]) {
        assert ZeroAt(rs, 0, a);
      }
      forall i | ZeroAt(rs, i, a) ensures i == 0 || ZeroAt(rs[1..], i - 1, a) { }
    }
  }

  /** A run without pages lies in the region and starts a page. */
  lemma ZeroPlace(rs: seq<Range<()>>, live: map<nat, nat>, a: int)
    requires LargeOk(rs, live) && a in Zeros(rs)
    ensures LargeFrames.LARGE_BASE <= a < LargeFrames.LARGE_TOP && Aligned(a)
    ensures exists i :: 0 < i < |rs| - 1 && ZeroAt(rs, i, a)
  {
    hide IsLarge, Interior, Zeros;
    ZerosAre(rs, a);
    var i :| ZeroAt(rs, i, a);
    assert 0 < i < |rs| - 1;
    assert rs[0].end <= rs[i].begin;
  }

  lemma LargeNotEmpty(rs: seq<Range<()>>, live: map<nat, nat>, i: nat)
    requires Interior(rs, live) && 0 < i < |rs| - 1 && IsLarge(rs[i].begin, rs[i].end, live)
    ensures rs[i].begin < rs[i].end
  {
    RoundUpExact(live[rs[i].begin]);
  }

  lemma InteriorPut(rs: seq<Range<()>>, live: map<nat, nat>, p: nat, a: nat, n: nat)
    requires Interior(rs, live) && 0 < p < |rs| && KindOf(n) == LargeBlock && n <= WORD - PAGE && a !in live
    ensures Interior(rs[..p] + [Range(a, a + RoundUp(n), ())] + rs[p..], live[a := n])
  {
    var rs' := rs[..p] + [Range(a, a + RoundUp(n), ())] + rs[p..];
    forall b | b in live && KindOf(live[b]) == LargeBlock ensures exists i :: Starts(rs', i, b, live[b]) {
      var i :| Starts(rs, i, b, live[b]);
      assert Starts(rs', if i < p then i else i + 1, b, live[b]);
    }
    assert Starts(rs', p, a, n);
    forall i | 0 < i < |rs'| - 1 && i != p
      ensures IsLarge(rs'[i].begin, rs'[i].end, live) || IsZero(rs'[i].begin, rs'[i].end)
    {
      assert rs'[i] == rs[if i < p then i else i - 1];
    }
  }

  lemma InteriorZero(rs: seq<Range<()>>, live: map<nat, nat>, p: nat, a: int)
    requires Interior(rs, live) && 0 < p < |rs| && a < LargeFrames.LARGE_TOP
    ensures Interior(rs[..p] + [Range(a, a, ())] + rs[p..], live)
  {
    hide IsLarge, KindOf, RoundUp;
    var rs' := rs[..p] + [Range(a, a, ())] + rs[p..];
    forall b | b in live && KindOf(live[b]) == LargeBlock ensures exists i :: Starts(rs', i, b, live[b]) {
      var i :| Starts(rs, i, b, live[b]);
      assert Starts(rs', if i < p then i else i + 1, b, live[b]);
    }
    forall i | 0 < i < |rs'| - 1 && i != p
      ensures IsLarge(rs'[i].begin, rs'[i].end, live) || IsZero(rs'[i].begin, rs'[i].end)
    {
      assert rs'[i] == rs[if i < p then i else i - 1];
    }
  }

  /** Taking a block out: the only range with pages that starts at a. */
  lemma InteriorTake(rs: seq<Range<()>>, live: map<nat, nat>, p: nat, a: nat)
    requires Interior(rs, live) && 0 < p < |rs| - 1 && rs[p].begin == a
    requires forall i :: 0 < i < |rs| - 1 && i != p && rs[i].begin == a ==> rs[i].begin == rs[i].end
    ensures Interior(rs[..p] + rs[p + 1..], live - {a})
  {
    hide KindOf;
    var rs' := rs[..p] + rs[p + 1..];
    forall b | b in live && b != a && KindOf(live[b]) == LargeBlock ensures exists i :: Starts(rs', i, b, live[b]) {
      var i :| Starts(rs, i, b, live[b]);
      assert Starts(rs', if i < p then i else i - 1, b, live[b]);
    }
    forall i | 0 < i < |rs'| - 1
      ensures IsLarge(rs'[i].begin, rs'[i].end, live - {a}) || IsZero(rs'[i].begin, rs'[i].end)
    {
      var j := if i < p then i else i + 1;
      assert rs'[i] == rs[j];
      if IsLarge(rs[j].begin, rs[j].end, live) {
        LargeNotEmpty(rs, live, j);
      }
    }
  }

  /** Taking a run without pages out. */
  lemma InteriorDrop(rs: seq<Range<()>>, live: map<nat, nat>, p: nat)
    requires Interior(rs, live) && 0 < p < |rs| - 1 && rs[p].begin == rs[p].end
    ensures Interior(rs[..p] + rs[p + 1..], live)
  {
    hide IsLarge;
    var rs' := rs[..p] + rs[p + 1..];
    forall b | b in live && KindOf(live[b]) == LargeBlock ensures exists i :: Starts(rs', i, b, live[b]) {
      var i :| Starts(rs, i, b, live[b]);
      RoundUpExact(live[b]);
      assert Starts(rs', if i < p then i else i - 1, b, live[b]);
    }
    forall i | 0 < i < |rs'| - 1
      ensures IsLarge(rs'[i].begin, rs'[i].end, live) || IsZero(rs'[i].begin, rs'[i].end)
    {
      assert rs'[i] == rs[if i < p then i else i + 1];
    }
  }

  function LargeAlloc(h: Heap, size: nat): (r: Option<(Heap, int)>)
    requires Valid(h.large, LargeFrames.LARGE_BASE, LargeFrames.LARGE_TOP)
    requires LargeFrames.AllocDefined(h.large, RoundUp(size) / PAGE)
  {
    match LargeFrames.Alloc(h.large, RoundUp(size) / PAGE)
    case None => None
    case Some((rs, a)) => Some((h.(large := rs), a))
  }

  /** (size + 0xFFF) >> 12 pages, shifted back, are the size rounded up, which is 0 above 0xFFFFF000. */
  lemma SameBytes(size: nat)
    requires PAGE < size < WORD
    ensures LargeFrames.Bytes(RoundUp(size) / PAGE) == RoundUp(size)
    ensures RoundUp(size) == 0 <==> size > WORD - PAGE
  {
    RoundUpExact(size);
  }

  function LargeFree(h: Heap, a: nat): Option<Heap>
    requires Valid(h.large, LargeFrames.LARGE_BASE, LargeFrames.LARGE_TOP)
  {
    match LargeFrames.Free(h.large, a)
    case None => None
    case Some((rs, _)) => Some(h.(large := rs))
  }

  lemma LargeAllocKeeps(h: Heap, live: map<nat, nat>, size: nat)
    requires Inv(h, live) && KindOf(size) == LargeBlock && size <= WORD - PAGE
    requires LargeFrames.AllocDefined(h.large, RoundUp(size) / PAGE) && LargeAlloc(h, size).Some?
    ensures var (h', a) := LargeAlloc(h, size).value;
            0 <= a && a !in live && Inv(h', live[a := size]) && Zeros(h'.large) == Zeros(h.large)
  {
    hide CachesOk, Accounted, SmallOk, PagesOk, SlabsOk, Interior, LargeFrames.WholePages, Insert, LargeFrames.Alloc,
         Ordered, Zeros, LargeFrames.AllocDefined, LargeFrames.Bytes;
    SameBytes(size);
    var pages := RoundUp(size) / PAGE;
    LargeFrames.AllocAdds(h.large, pages);
    var (rs, a) := LargeFrames.Alloc(h.large, pages).value;
    LargePlace(h, live, a, size);
    LargeInserted(h.large, live, a, size);
    AgreePut(live, a, size, PageBlock);
    PagesSame(h.frames, h.slabs, h.slabs, live, live[a := size]);
    AccountedSame(h.slabs, live, live[a := size]);
    SmallSame(h.slabs, live, live[a := size]);
  }

  /** A request above 0xFFFFF000 bytes adds a run without pages and nothing else. */
  lemma ZeroAllocKeeps(h: Heap, live: map<nat, nat>, size: nat)
    requires Inv(h, live) && WORD - PAGE < size < WORD
    requires LargeFrames.AllocDefined(h.large, RoundUp(size) / PAGE) && LargeAlloc(h, size).Some?
    ensures var (h', a) := LargeAlloc(h, size).value;
            LargeFrames.LARGE_BASE <= a && Inv(h', live) && Zeros(h'.large) == Zeros(h.large) + multiset{a}
  {
    hide CachesOk, Accounted, SmallOk, PagesOk, SlabsOk, Interior, LargeFrames.WholePages, Locate, LargeFrames.Alloc,
         Ordered, Zeros, LargeFrames.AllocDefined, LargeFrames.Bytes;
    SameBytes(size);
    var pages := RoundUp(size) / PAGE;
    LargeFrames.AllocAdds(h.large, pages);
    var a := LargeFrames.Alloc(h.large, pages).value.1;
    var p := Locate(h.large, a) + 1;
    InteriorZero(h.large, live, p, a);
    ZerosPut(h.large, p, Range(a, a, ()));
  }

  /** A found place is not the start of a block. */
  lemma LargePlace(h: Heap, live: map<nat, nat>, a: int, n: nat)
    requires Inv(h, live) && KindOf(n) == LargeBlock && n <= WORD - PAGE
    requires LargeFrames.LARGE_BASE <= a < LargeFrames.LARGE_TOP && Insert(h.large, Range(a, a + RoundUp(n), ())).Some?
    ensures a !in live
  {
    hide CachesOk, Accounted, SmallOk, PagesOk, SlabsOk, Interior, LargeFrames.WholePages, Ordered, Insert, Covered,
         At, RoundUp;
    RoundUpExact(n);
    var e := Range(a, a + RoundUp(n), ());
    InsertAdds(h.large, LargeFrames.LARGE_BASE, LargeFrames.LARGE_TOP, e);
    assert e.Contains(a);
    if a in live {
      BlockPlace(h, live, a);
      StartCovered(h.large, live, a);
    }
  }

  lemma StartCovered(rs: seq<Range<()>>, live: map<nat, nat>, a: nat)
    requires LargeOk(rs, live) && a in live && KindOf(live[a]) == LargeBlock
    ensures Covered(rs, a)
  {
    RoundUpExact(live[a]);
    var i :| Starts(rs, i, a, live[a]);
    assert Has(rs, i, a);
  }

  lemma LargeInserted(rs: seq<Range<()>>, live: map<nat, nat>, a: nat, n: nat)
    requires LargeOk(rs, live) && KindOf(n) == LargeBlock && n <= WORD - PAGE && a !in live
    requires LargeFrames.LARGE_BASE <= a < LargeFrames.LARGE_TOP && Insert(rs, Range(a, a + RoundUp(n), ())).Some?
    ensures Interior(Insert(rs, Range(a, a + RoundUp(n), ())).value, live[a := n])
    ensures Zeros(Insert(rs, Range(a, a + RoundUp(n), ())).value) == Zeros(rs)
  {
    hide Interior, LargeFrames.WholePages, Ordered, Locate, Zeros;
    RoundUpExact(n);
    InteriorPut(rs, live, Locate(rs, a) + 1, a, n);
    ZerosPut(rs, Locate(rs, a) + 1, Range(a, a + RoundUp(n), ()));
  }

  lemma LargeFreeKeeps(h: Heap, live: map<nat, nat>, a: nat)
    requires Inv(h, live) && a in live && KindOf(live[a]) == LargeBlock
    ensures LargeFree(h, a).Some? && Inv(LargeFree(h, a).value, live - {a})
            && Zeros(LargeFree(h, a).value.large) == Zeros(h.large)
  {
    hide CachesOk, Accounted, SmallOk, PagesOk, SlabsOk, Interior, LargeFrames.WholePages, LargeFrames.Free, Zeros;
    BlockPlace(h, live, a);
    LargeTaken(h.large, live, a);
    AgreeTake(live, a, PageBlock);
    PagesSame(h.frames, h.slabs, h.slabs, live, live - {a});
    AccountedSame(h.slabs, live, live - {a});
    SmallSame(h.slabs, live, live - {a});
  }

  /** Where a block and runs without pages share an address, the block is freed first. */
  lemma LargeTaken(rs: seq<Range<()>>, live: map<nat, nat>, a: nat)
    requires LargeOk(rs, live) && a in live && KindOf(live[a]) == LargeBlock && Aligned(a)
    ensures LargeFrames.Free(rs, a).Some?
    ensures var rs' := LargeFrames.Free(rs, a).value.0; LargeOk(rs', live - {a}) && Zeros(rs') == Zeros(rs)
  {
    hide LargeFrames.WholePages, Locate, Zeros, IsLarge;
    var i :| Starts(rs, i, a, live[a]);
    RoundUpExact(live[a]);
    LocateIs(rs, i, a);
    OneStart(rs, i);
    InteriorTake(rs, live, i, a);
    ZerosTake(rs, i);
    TakenOk(rs, i);
  }

  lemma ZeroFreeKeeps(h: Heap, live: map<nat, nat>, a: nat)
    requires Inv(h, live) && a !in live && a in Zeros(h.large)
    ensures LargeFree(h, a).Some? && Inv(LargeFree(h, a).value, live)
    ensures Zeros(LargeFree(h, a).value.large) == Zeros(h.large) - multiset{a as int}
  {
    hide CachesOk, Accounted, SmallOk, PagesOk, SlabsOk, Interior, LargeFrames.WholePages, LargeFrames.Free, Zeros,
         Ordered;
    ZeroPlace(h.large, live, a);
    ZeroTaken(h.large, live, a);
  }

  lemma ZeroTaken(rs: seq<Range<()>>, live: map<nat, nat>, a: nat)
    requires LargeOk(rs, live) && a !in live && a in Zeros(rs) && Aligned(a)
    ensures LargeFrames.Free(rs, a).Some?
    ensures var rs' := LargeFrames.Free(rs, a).value.0;
            LargeOk(rs', live) && Zeros(rs') == Zeros(rs) - multiset{a as int}
  {
    hide Interior, LargeFrames.WholePages, Zeros, Ordered, Locate;
    var i := Locate(rs, a);
    LastZero(rs, live, a);
    InteriorDrop(rs, live, i);
    ZerosTake(rs, i);
    TakenOk(rs, i);
  }

  lemma LastZero(rs: seq<Range<()>>, live: map<nat, nat>, a: nat)
    requires LargeOk(rs, live) && a !in live && a in Zeros(rs)
    ensures var i := Locate(rs, a); 0 < i < |rs| - 1 && rs[i].begin == rs[i].end == a && IsZero(a, a)
  {
    hide Interior, LargeFrames.WholePages, Zeros;
    ZeroPlace(rs, live, a);
    var j :| 0 < j < |rs| - 1 && ZeroAt(rs, j, a);
    LocateSplits(rs, a);
    var i := Locate(rs, a);
    assert j <= i < |rs| - 1;
    assert rs[i].begin == a;
    NotLiveIsZero(rs, live, i);
  }

  lemma NotLiveIsZero(rs: seq<Range<()>>, live: map<nat, nat>, i: nat)
    requires Interior(rs, live) && 0 < i < |rs| - 1 && rs[i].begin !in live
    ensures rs[i].begin == rs[i].end
  {
  }

  lemma OneStart(rs: seq<Range<()>>, p: nat)
    requires Ordered(rs) && p < |rs| && rs[p].begin < rs[p].end
    ensures forall i :: 0 < i < |rs| - 1 && i != p && rs[i].begin == rs[p].begin ==> rs[i].begin == rs[i].end
  {
  }

  lemma TakenOk(rs: seq<Range<()>>, i: nat)
    requires Valid(rs, LargeFrames.LARGE_BASE, LargeFrames.LARGE_TOP) && LargeFrames.WholePages(rs) && 0 < i < |rs| - 1
    ensures Valid(rs[..i] + rs[i + 1..], LargeFrames.LARGE_BASE, LargeFrames.LARGE_TOP)
    ensures LargeFrames.WholePages(rs[..i] + rs[i + 1..])
  {
    assert rs[..i] + rs[i + 1..] == Splice(rs, i, i + 1, []);
    SpliceKeepsValid(rs, LargeFrames.LARGE_BASE, LargeFrames.LARGE_TOP, i, i + 1, []);
  }

  // ----- The whole heap

  /** A size is a 32-bit word. */
  type Size = n: nat | n < WORD

  predicate AllocDefined(h: Heap, size: Size)
    requires Valid(h.large, LargeFrames.LARGE_BASE, LargeFrames.LARGE_TOP)
  {
    KindOf(size) == LargeBlock ==> LargeFrames.AllocDefined(h.large, RoundUp(size) / PAGE)
  }

  /** None where the kernel stops for want of memory. */
  function AutoAlloc(h: Heap, live: map<nat, nat>, size: Size): (r: Option<(Heap, int)>)
    requires Inv(h, live) && AllocDefined(h, size)
  {
    match KindOf(size)
    case SmallBlock => SlabAlloc(h, size)
    case PageBlock => PageAlloc(h)
    case LargeBlock => LargeAlloc(h, size)
  }

  /** The blocks after an allocation: a request above 0xFFFFF000 bytes has been given none. */
  function Given(live: map<nat, nat>, a: nat, size: Size): map<nat, nat> {
    if size <= WORD - PAGE then live[a := size] else live
  }

  /** autoFree goes by the address alone. */
  function RouteOf(a: nat): Kind {
    if a >= LargeFrames.LARGE_BASE then LargeBlock else if a % PAGE != 0 then SmallBlock else PageBlock
  }

  /** The address of every live block leads back to the allocator that produced it. */
  lemma RoutedBack(h: Heap, live: map<nat, nat>, a: nat)
    requires Inv(h, live) && a in live
    ensures RouteOf(a) == KindOf(live[a]) && a != 0
  {
    hide SlabsOk, CachesOk, Accounted, SmallOk, PagesOk, LargeOk, IsSmall, IsFrame, ThisPage;
    BlockPlace(h, live, a);
    InFrame(a);
  }

  lemma InFrame(a: nat)
    ensures IsFrame(ThisPage(a)) ==> FRAME_BASE <= a < LargeFrames.LARGE_BASE
    ensures IsFrame(a) ==> FRAME_BASE <= a < LargeFrames.LARGE_BASE && a % PAGE == 0
  {
  }

  /** Whatever was handed out, with room or without. */
  predicate HandedOut(h: Heap, live: map<nat, nat>, a: nat) {
    a in live || a in Zeros(h.large)
  }

  function AutoFree(h: Heap, live: map<nat, nat>, a: nat): (r: Option<Heap>)
    requires Inv(h, live) && (a == 0 || HandedOut(h, live, a))
  {
    if a == 0 then Some(h)
    else
      FreeRoute(h, live, a);
      match RouteOf(a)
      case LargeBlock => LargeFree(h, a)
      case SmallBlock => Some(SlabFree(h, a))
      case PageBlock => PageFree(h, a)
  }

  lemma FreeRoute(h: Heap, live: map<nat, nat>, a: nat)
    requires Inv(h, live) && HandedOut(h, live, a)
    ensures a !in live ==> RouteOf(a) == LargeBlock
    ensures |h.frames| == FRAME_COUNT
    ensures match RouteOf(a)
            case LargeBlock => Aligned(a)
            case SmallBlock => ThisPage(a) in h.slabs
            case PageBlock => IsFrame(a)
  {
    hide SlabsOk, CachesOk, Accounted, SmallOk, PagesOk, Interior, Ordered, Zeros, LargeFrames.WholePages, IsChunk;
    FramesSized(h.frames, h.slabs, live);
    if a in live {
      RoutedBack(h, live, a);
      BlockPlace(h, live, a);
    } else {
      ZeroPlace(h.large, live, a);
    }
  }

  /** Every allocation keeps the heap consistent.  A block is new; a request above 0xFFFFF000 bytes adds a run
      without pages. */
  lemma AutoAllocKeeps(h: Heap, live: map<nat, nat>, size: Size)
    requires Inv(h, live) && AllocDefined(h, size) && AutoAlloc(h, live, size).Some?
    ensures var (h', a) := AutoAlloc(h, live, size).value;
            && 0 <= a && Inv(h', Given(live, a, size))
            && (size <= WORD - PAGE ==> a !in live)
            && Zeros(h'.large) == Zeros(h.large) + if size <= WORD - PAGE then multiset{} else multiset{a}
  {
    hide SlabsOk, CachesOk, Accounted, SmallOk, PagesOk, LargeOk, SlabAlloc, PageAlloc, LargeAlloc, Zeros;
    match KindOf(size)
    case SmallBlock =>
      SlabAllocKeeps(h, live, size);
      SlabAllocLarge(h, size);
    case PageBlock => PageAllocKeeps(h, live, size);
      PageAllocLarge(h);
    case LargeBlock =>
      if size <= WORD - PAGE {
        LargeAllocKeeps(h, live, size);
      } else {
        ZeroAllocKeeps(h, live, size);
      }
  }

  lemma SlabAllocLarge(h: Heap, size: nat)
    requires SlabsOk(h.slabs) && CachesOk(h.caches, h.slabs) && size <= 512 && SlabAlloc(h, size).Some?
    ensures SlabAlloc(h, size).value.0.large == h.large
  {
    hide SlabsOk, CachesOk;
  }

  lemma PageAllocLarge(h: Heap)
    requires PageAlloc(h).Some?
    ensures PageAlloc(h).value.0.large == h.large
  {
  }

  /** Freeing what was handed out never stops the kernel. */
  lemma AutoFreeKeeps(h: Heap, live: map<nat, nat>, a: nat)
    requires Inv(h, live) && (a == 0 || HandedOut(h, live, a))
    ensures AutoFree(h, live, a).Some? && Inv(AutoFree(h, live, a).value, live - {a})
    ensures Zeros(AutoFree(h, live, a).value.large) ==
            if a == 0 || a in live then Zeros(h.large) else Zeros(h.large) - multiset{a as int}
  {
    hide SlabsOk, CachesOk, Accounted, SmallOk, PagesOk, LargeOk, SlabFree, LargeFree, Zeros;
    NullNotLive(h, live);
    if a == 0 || a !in live {
      assert live - {a} == live;
    }
    if a != 0 {
      FreeRoute(h, live, a);
      if a !in live {
        ZeroFreeKeeps(h, live, a);
      } else {
        RoutedBack(h, live, a);
        match KindOf(live[a])
        case SmallBlock => SlabFreeKeeps(h, live, a);
          SlabFreeLarge(h, a);
        case PageBlock => PageFreeKeeps(h, live, a);
        case LargeBlock => LargeFreeKeeps(h, live, a);
      }
    }
  }

  lemma SlabFreeLarge(h: Heap, a: nat)
    requires SlabFree.requires(h, a)
    ensures SlabFree(h, a).large == h.large
  {
    hide SlabsOk, CachesOk, CacheOk, SlabOk;
  }

  lemma NullNotLive(h: Heap, live: map<nat, nat>)
    requires Inv(h, live)
    ensures 0 !in live
  {
    hide Inv;
    if 0 in live {
      RoutedBack(h, live, 0);
    }
  }

  /** Requests up to 512 bytes are given chunks, up to a page pages, larger ones runs. */
  lemma AllocPlaced(h: Heap, live: map<nat, nat>, size: Size)
    requires Inv(h, live) && AllocDefined(h, size) && AutoAlloc(h, live, size).Some?
    ensures var a := AutoAlloc(h, live, size).value.1;
            && 0 < a
            && (size <= 512 <==> a < LargeFrames.LARGE_BASE && a % 4096 != 0)
            && (512 < size <= 4096 <==> a < LargeFrames.LARGE_BASE && a % 4096 == 0)
            && (4096 < size <==> LargeFrames.LARGE_BASE <= a)
  {
    hide Inv, SlabAlloc, PageAlloc, LargeAlloc, Zeros, LargeFrames.AllocDefined;
    AutoAllocKeeps(h, live, size);
    var (h', a) := AutoAlloc(h, live, size).value;
    if size <= WORD - PAGE {
      RoutedBack(h', live[a := size], a);
    } else {
      ZeroAllocKeeps(h, live, size);
    }
  }

  /** There is no memory for the request. */
  ghost predicate NoMemory(h: Heap, size: Size) {
    match KindOf(size)
    case SmallBlock => !HasSpare(h.slabs, ClassOf(Max(size, 1))) && AllTaken(h.frames)
    case PageBlock => AllTaken(h.frames)
    case LargeBlock =>
      if size <= WORD - PAGE then
        forall a :: Unused(h.large, LargeFrames.LARGE_BASE, LargeFrames.LARGE_TOP, a, RoundUp(size)) ==>
                      Straddles(h.large, a, RoundUp(size))
      else exists i :: Has(h.large, i, LargeFrames.LARGE_BASE) && Covered(h.large, h.large[i].end)
  }

  /** Exactly which requests stop the kernel. */
  lemma AutoAllocFails(h: Heap, live: map<nat, nat>, size: Size)
    requires Inv(h, live) && AllocDefined(h, size)
    ensures AutoAlloc(h, live, size).None? <==> NoMemory(h, size)
  {
    hide SlabsOk, CachesOk, Accounted, SmallOk, PagesOk, SlabAlloc, PageAlloc, HasSpare, AllTaken, ClassOf, Interior,
         Unused, Straddles, Covered, Ordered, LargeFrames.Alloc, LargeFrames.Bytes, LargeFrames.AllocDefined,
         LargeFrames.WholePages;
    match KindOf(size)
    case SmallBlock => SmallExact(h, size);
    case PageBlock => PageExact(h);
    case LargeBlock =>
      SameBytes(size);
      LargeFrames.AllocFails(h.large, RoundUp(size) / PAGE);
  }

  // ----- What a caller may rely on

  ghost predicate Apart(live: map<nat, nat>, a: nat, b: nat)
    requires a in live && b in live
  {
    a + live[a] <= b || b + live[b] <= a
  }

  /** Live blocks do not overlap. */
  lemma LiveDisjoint(h: Heap, live: map<nat, nat>, a: nat, b: nat)
    requires Inv(h, live) && a in live && b in live && a != b
    ensures Apart(live, a, b)
  {
    hide SlabsOk, CachesOk, Accounted, SmallOk, PagesOk, LargeOk, IsChunk;
    var (lo, hi) := if a < b then (a, b) else (b, a);
    BlockPlace(h, live, lo);
    BlockPlace(h, live, hi);
    match KindOf(live[lo])
    case SmallBlock => SmallBelow(h, live, lo, hi);
    case PageBlock => assert ThisPage(hi) >= lo;
      PageBelow(h, live, lo, hi);
    case LargeBlock => LargeBelow(h, live, lo, hi);
  }

  lemma SmallBelow(h: Heap, live: map<nat, nat>, a: nat, b: nat)
    requires Inv(h, live) && a in live && b in live && a < b && KindOf(live[a]) == SmallBlock
    ensures a + live[a] <= b
  {
    hide CachesOk, Accounted, PagesOk, LargeOk, SmallOk, IsChunk, SlabOk;
    BlockPlace(h, live, a);
    BlockPlace(h, live, b);
    var page := ThisPage(a);
    ChunkInPage(page, h.slabs[page].cls, a);
    if b < page + PAGE {
      ChunksApart(page, h.slabs[page].cls, a, b);
    }
  }

  lemma PageBelow(h: Heap, live: map<nat, nat>, a: nat, b: nat)
    requires Inv(h, live) && a in live && b in live && a < b && KindOf(live[a]) == PageBlock
    ensures a + live[a] <= b
  {
    hide CachesOk, Accounted, LargeOk, SmallOk, IsChunk, SlabOk;
    BlockPlace(h, live, a);
    BlockPlace(h, live, b);
    assert IsPage(live, a);
  }

  lemma LargeBelow(h: Heap, live: map<nat, nat>, a: nat, b: nat)
    requires Inv(h, live) && a in live && b in live && a < b && KindOf(live[a]) == LargeBlock
    ensures a + live[a] <= b
  {
    hide SlabsOk, CachesOk, Accounted, PagesOk, SmallOk, LargeFrames.WholePages, Ordered, IsLarge, IsZero, RoundUp;
    RoutedBack(h, live, a);
    RoutedBack(h, live, b);
    var i :| Starts(h.large, i, a, live[a]);
    var j :| Starts(h.large, j, b, live[b]);
    RoundUpExact(live[a]);
    RoundUpExact(live[b]);
    StartsApart(h.large, i, j, a, live[a], b, live[b]);
  }

  lemma StartsApart(rs: seq<Range<()>>, i: int, j: int, a: nat, n: nat, b: nat, m: nat)
    requires Ordered(rs) && Starts(rs, i, a, n) && Starts(rs, j, b, m) && a < b
    requires 0 < n <= RoundUp(n) && 0 <= RoundUp(m)
    ensures a + n <= b
  {
    hide RoundUp;
    assert i < j || j < i;
  }

  /** The chunk, page or run that starts at a has n bytes; chunks are clear of the slab header. */
  ghost predicate Room(h: Heap, a: nat, n: nat) {
    match RouteOf(a)
    case SmallBlock => ThisPage(a) + HEADER <= a && IsSmall(h.slabs, a, n)
                       && a + ChunkBytes(h.slabs[ThisPage(a)].cls) <= ThisPage(a) + PAGE
    case PageBlock => IsFrame(a) && n <= PAGE
    case LargeBlock => exists i :: RunAt(h.large, i, a, n)
  }

  ghost predicate RunAt(large: seq<Range<()>>, i: int, a: nat, n: nat) {
    0 < i < |large| - 1 && large[i].begin == a && a + n <= large[i].end <= LargeFrames.LARGE_TOP
  }

  /** Every live block lies inside its chunk, page or run. */
  lemma BlockFits(h: Heap, live: map<nat, nat>, a: nat)
    requires Inv(h, live) && a in live
    ensures Room(h, a, live[a])
  {
    hide CachesOk, Accounted, PagesOk, SmallOk, SlabOk, LargeFrames.WholePages, IsChunk;
    RoutedBack(h, live, a);
    BlockPlace(h, live, a);
    match KindOf(live[a])
    case SmallBlock => ChunkInPage(ThisPage(a), h.slabs[ThisPage(a)].cls, a);
    case PageBlock =>
    case LargeBlock =>
      var i :| Starts(h.large, i, a, live[a]);
      RoundUpExact(live[a]);
      assert h.large[i].end <= h.large[|h.large| - 1].begin;
      assert RunAt(h.large, i, a, live[a]);
  }

  /** A new block has room for its request and was not live, exactly up to 0xFFFFF000 bytes. */
  lemma NewBlockIff(h: Heap, live: map<nat, nat>, size: Size)
    requires Inv(h, live) && AllocDefined(h, size) && AutoAlloc(h, live, size).Some?
    ensures var (h', a) := AutoAlloc(h, live, size).value;
            0 <= a && (Room(h', a, size) && a !in live <==> size <= WORD - PAGE)
  {
    hide Inv, AutoAlloc, Room, Zeros;
    AutoAllocKeeps(h, live, size);
    var (h', a) := AutoAlloc(h, live, size).value;
    if size <= WORD - PAGE {
      BlockFits(h', live[a := size], a);
    } else {
      NoRoom(h', live, a, size);
    }
  }

  lemma NoRoom(h: Heap, live: map<nat, nat>, a: nat, n: nat)
    requires Inv(h, live) && a in Zeros(h.large) && n > WORD - PAGE
    ensures !Room(h, a, n)
  {
    hide SlabsOk, CachesOk, Accounted, SmallOk, PagesOk, Interior, Ordered, Zeros, LargeFrames.WholePages, IsChunk;
    ZeroPlace(h.large, live, a);
  }

  function Fresh(): Heap {
    Heap(seq(FRAME_COUNT, _ => false), map[], seq(6, _ => Cache([], [])),
         [Range(0, LargeFrames.LARGE_BASE, ()), Range(LargeFrames.LARGE_TOP, SENTINEL_END, ())])
  }

  lemma FreshOk()
    ensures Inv(Fresh(), map[])
  {
  }

  /** On a fresh heap a request for 0xFFFFFFFF bytes and the next for two pages are given the same address. */
  lemma SameAddressTwice()
    ensures Inv(Fresh(), map[]) && AllocDefined(Fresh(), WORD - 1)
    ensures var r := AutoAlloc(Fresh(), map[], WORD - 1);
            && r.Some? && r.value.1 == LargeFrames.LARGE_BASE
            && var h := r.value.0;
            && Inv(h, map[]) && AllocDefined(h, 2 * PAGE)
            && var r' := AutoAlloc(h, map[], 2 * PAGE);
            r'.Some? && r'.value.1 == LargeFrames.LARGE_BASE
  {
    hide Inv, Zeros, LargeFrames.Bytes, Fresh, LargeFrames.Alloc, LargeFrames.AllocDefined;
    FreshOk();
    FreshLarge();
    SameBytes(WORD - 1);
    SameBytes(2 * PAGE);
    EmptyFirst(Fresh().large, RoundUp(WORD - 1) / PAGE);
    AutoAllocKeeps(Fresh(), map[], WORD - 1);
    var h := AutoAlloc(Fresh(), map[], WORD - 1).value.0;
    BlockFirst(h.large, RoundUp(2 * PAGE) / PAGE);
  }

  lemma FreshLarge()
    ensures Valid(Fresh().large, LargeFrames.LARGE_BASE, LargeFrames.LARGE_TOP) && |Fresh().large| == 2
  {
  }

  lemma EmptyFirst(rs: seq<Range<()>>, pages: nat)
    requires Valid(rs, LargeFrames.LARGE_BASE, LargeFrames.LARGE_TOP) && |rs| == 2 && LargeFrames.Bytes(pages) == 0
    ensures LargeFrames.AllocDefined(rs, pages)
    ensures LargeFrames.Alloc(rs, pages) ==
            Some(([rs[0], Range(LargeFrames.LARGE_BASE, LargeFrames.LARGE_BASE, ()), rs[1]], LargeFrames.LARGE_BASE))
  {
    hide LargeFrames.Bytes;
    LocateSplits(rs, LargeFrames.LARGE_BASE);
    assert Locate(rs, LargeFrames.LARGE_BASE) == 0;
    var e := Range(LargeFrames.LARGE_BASE, LargeFrames.LARGE_BASE, ());
    assert rs[..1] + [e] + rs[1..] == [rs[0], e, rs[1]];
    FindNothing(rs, LargeFrames.LARGE_BASE, LargeFrames.LARGE_TOP, LargeFrames.LARGE_BASE);
  }

  lemma BlockFirst(rs: seq<Range<()>>, pages: nat)
    requires Valid(rs, LargeFrames.LARGE_BASE, LargeFrames.LARGE_TOP) && |rs| == 3
    requires rs[1].begin == rs[1].end == LargeFrames.LARGE_BASE && LargeFrames.Bytes(pages) == 2 * PAGE
    ensures LargeFrames.AllocDefined(rs, pages)
    ensures LargeFrames.Alloc(rs, pages).Some? && LargeFrames.Alloc(rs, pages).value.1 == LargeFrames.LARGE_BASE
  {
    hide LargeFrames.Bytes, FindFree, Insert;
    assert Fits(rs, 1, LargeFrames.LARGE_BASE, 2 * PAGE);
    assert Gap(rs, LargeFrames.LARGE_BASE, 2 * PAGE);
    FindFreeLeast(rs, LargeFrames.LARGE_BASE, LargeFrames.LARGE_TOP, 2 * PAGE, LargeFrames.LARGE_BASE);
    FoundPlaceExact(rs, LargeFrames.LARGE_BASE, LargeFrames.LARGE_TOP, 2 * PAGE, LargeFrames.LARGE_BASE, ());
  }

  /** Once everything is given back the heap is as it was at the start: no slab, no page and no range is
      left behind. */
  lemma NothingLeaks(h: Heap)
    requires Inv(h, map[]) && Zeros(h.large) == multiset{}
    ensures h == Fresh()
  {
    var live: map<nat, nat> := map[];
    forall page ensures page !in h.slabs {
      if page in h.slabs {
        SlabHasLive(h.slabs, live, page);
      }
    }
    NoCaches(h.caches, h.slabs);
    NoPages(h.frames, h.slabs);
    FirstLarge(h.large, live);
    assert |h.large| == 2;
    assert h.large[0].attr == () && h.large[1].attr == ();
    assert h.large == [h.large[0], h.large[1]];
  }

  lemma SlabHasLive(slabs: map<nat, Slab>, live: map<nat, nat>, page: nat)
    requires SlabsOk(slabs) && Accounted(slabs, live) && page in slabs
    ensures exists a :: a in live && IsChunk(page, slabs[page].cls, a)
  {
    var slab := slabs[page];
    NotAllFree(page, slab.cls, slab.free);
  }

  lemma NoCaches(caches: seq<Cache>, slabs: map<nat, Slab>)
    requires CachesOk(caches, slabs) && slabs == map[]
    ensures caches == seq(6, _ => Cache([], []))
  {
    forall c | 0 <= c < 6 ensures caches[c] == Cache([], []) {
      assert CacheOk(c + 5, caches[c], slabs);
      FrontIn(caches[c].full);
      FrontIn(caches[c].used);
    }
  }

  lemma FrontIn(q: seq<nat>)
    ensures q == [] || q[0] in q
  {
  }

  lemma FirstLarge(rs: seq<Range<()>>, live: map<nat, nat>)
    requires Interior(rs, live) && Zeros(rs) == multiset{}
    ensures |rs| <= 2 || rs[1].begin in live
  {
    hide Zeros;
    if |rs| > 2 {
      ZerosAre(rs, rs[1].begin);
      assert !ZeroAt(rs, 1, rs[1].begin);
    }
  }

  lemma NoPages(frames: seq<bool>, slabs: map<nat, Slab>)
    requires PagesOk(frames, slabs, map[]) && slabs == map[]
    ensures frames == seq(FRAME_COUNT, _ => false)
  {
  }

  // ----- Runs

  datatype Op = Allocate(size: Size) | GiveBack(addr: nat)

  /** Any sequence of allocations and of frees of what was handed out; None when memory runs out, or where a
      request that rounds to no pages finds the whole region taken by one block. */
  function Run(h: Heap, live: map<nat, nat>, ops: seq<Op>): (r: Option<(Heap, map<nat, nat>)>)
    requires Inv(h, live)
    decreases |ops|
  {
    if ops == [] then Some((h, live))
    else
      match ops[0]
      case Allocate(size) =>
        if !AllocDefined(h, size) || AutoAlloc(h, live, size).None? then None
        else
          AutoAllocKeeps(h, live, size);
          var (h', a) := AutoAlloc(h, live, size).value;
          Run(h', Given(live, a, size), ops[1..])
      case GiveBack(a) =>
        if a != 0 && !HandedOut(h, live, a) then None
        else
          AutoFreeKeeps(h, live, a);
          Run(AutoFree(h, live, a).value, live - {a}, ops[1..])
  }

  /** In every run the heap stays consistent, live blocks keep their room and do not overlap, and a run that
      gives everything back leaves the heap as it found it. */
  lemma {:induction false} RunKeeps(h: Heap, live: map<nat, nat>, ops: seq<Op>)
    requires Inv(h, live) && Run(h, live, ops).Some?
    ensures var (h', live') := Run(h, live, ops).value;
            && Inv(h', live')
            && (forall a :: a in live' ==> Room(h', a, live'[a]))
            && (forall a, b :: a in live' && b in live' && a != b ==> Apart(live', a, b))
            && (live' == map[] && Zeros(h'.large) == multiset{} ==> h' == Fresh())
    decreases |ops|
  {
    hide Inv, AutoAlloc, AutoFree, Apart, Fresh, Room, Zeros, HandedOut, AllocDefined;
    if ops == [] {
      forall a | a in live ensures Room(h, a, live[a]) {
        BlockFits(h, live, a);
      }
      forall a, b | a in live && b in live && a != b ensures Apart(live, a, b) {
        LiveDisjoint(h, live, a, b);
      }
      if live == map[] && Zeros(h.large) == multiset{} {
        NothingLeaks(h);
      }
    } else {
      match ops[0]
      case Allocate(size) =>
        AutoAllocKeeps(h, live, size);
        var (h', a) := AutoAlloc(h, live, size).value;
        RunKeeps(h', Given(live, a, size), ops[1..]);
      case GiveBack(a) =>
        AutoFreeKeeps(h, live, a);
        RunKeeps(AutoFree(h, live, a).value, live - {a}, ops[1..]);
    }
  }

  /** The operation asks for what is not there, gives back what was not handed out, or finds the whole region taken by
      one block when it rounds to no pages. */
  ghost predicate Stops(h: Heap, live: map<nat, nat>, op: Op)
    requires Inv(h, live)
  {
    match op
    case Allocate(size) => !AllocDefined(h, size) || NoMemory(h, size)
    case GiveBack(a) => a != 0 && !HandedOut(h, live, a)
  }

  /** The run comes to operation i, and that one stops. */
  ghost predicate StopsAt(h: Heap, live: map<nat, nat>, ops: seq<Op>, i: nat)
    requires Inv(h, live) && i < |ops|
  {
    && Run(h, live, ops[..i]).Some?
    && var (h', live') := Run(h, live, ops[..i]).value;
    Inv(h', live') && Stops(h', live', ops[i])
  }

  /** A run comes to its end exactly if no operation of it stops. */
  lemma {:induction false} RunStopsIff(h: Heap, live: map<nat, nat>, ops: seq<Op>)
    requires Inv(h, live)
    ensures Run(h, live, ops).None? <==> exists i: nat :: i < |ops| && StopsAt(h, live, ops, i)
    decreases |ops|
  {
    hide Inv, AutoAlloc, AutoFree, Zeros, HandedOut, AllocDefined, StopsAt, Stops;
    if ops != [] {
      StopsFirst(h, live, ops);
      StopsNow(h, live, ops);
      if !Stops(h, live, ops[0]) {
        var (h1, live1) := Next(h, live, ops[0]);
        RunStopsIff(h1, live1, ops[1..]);
        StopsShift(h, live, ops, h1, live1);
      }
    }
  }

  /** One operation that does not stop. */
  ghost function Next(h: Heap, live: map<nat, nat>, op: Op): (r: (Heap, map<nat, nat>))
    requires Inv(h, live) && !Stops(h, live, op)
    ensures Inv(r.0, r.1)
  {
    match op
    case Allocate(size) =>
      AutoAllocFails(h, live, size);
      AutoAllocKeeps(h, live, size);
      var (h', a) := AutoAlloc(h, live, size).value;
      (h', Given(live, a, size))
    case GiveBack(a) =>
      AutoFreeKeeps(h, live, a);
      (AutoFree(h, live, a).value, live - {a})
  }

  lemma StopsNow(h: Heap, live: map<nat, nat>, ops: seq<Op>)
    requires Inv(h, live) && ops != []
    ensures Stops(h, live, ops[0]) ==> Run(h, live, ops).None?
  {
    hide Inv, AutoAlloc, AutoFree, Zeros, HandedOut, NoMemory, AllocDefined;
    LargeValid(h, live);
    if ops[0].Allocate? && AllocDefined(h, ops[0].size) {
      AutoAllocFails(h, live, ops[0].size);
    }
  }

  lemma LargeValid(h: Heap, live: map<nat, nat>)
    requires Inv(h, live)
    ensures Valid(h.large, LargeFrames.LARGE_BASE, LargeFrames.LARGE_TOP)
  {
    hide SlabsOk, CachesOk, Accounted, SmallOk, PagesOk, Interior, Ordered, LargeFrames.WholePages;
  }

  lemma StopsFirst(h: Heap, live: map<nat, nat>, ops: seq<Op>)
    requires Inv(h, live) && ops != []
    ensures StopsAt(h, live, ops, 0) <==> Stops(h, live, ops[0])
  {
    hide Inv, Stops;
    assert ops[..0] == [];
  }

  lemma NextRun(h: Heap, live: map<nat, nat>, ops: seq<Op>)
    requires Inv(h, live) && ops != [] && !Stops(h, live, ops[0])
    ensures var (h1, live1) := Next(h, live, ops[0]); Run(h, live, ops) == Run(h1, live1, ops[1..])
  {
    hide Inv, AutoAlloc, AutoFree, Zeros, HandedOut, NoMemory, AllocDefined;
    if ops[0].Allocate? {
      AutoAllocFails(h, live, ops[0].size);
    }
  }

  lemma StopsLater(h: Heap, live: map<nat, nat>, ops: seq<Op>, i: nat)
    requires Inv(h, live) && i + 1 < |ops| && !Stops(h, live, ops[0])
    ensures var (h1, live1) := Next(h, live, ops[0]);
            StopsAt(h1, live1, ops[1..], i) <==> StopsAt(h, live, ops, i + 1)
  {
    hide Inv, Next, Stops, Run;
    NextRun(h, live, ops[..i + 1]);
    assert ops[..i + 1][1..] == ops[1..][..i];
  }

  lemma StopsShift(h: Heap, live: map<nat, nat>, ops: seq<Op>, h1: Heap, live1: map<nat, nat>)
    requires Inv(h, live) && ops != [] && !Stops(h, live, ops[0]) && (h1, live1) == Next(h, live, ops[0])
    requires Run(h1, live1, ops[1..]).None? <==> exists i: nat :: i < |ops[1..]| && StopsAt(h1, live1, ops[1..], i)
    ensures Run(h, live, ops).None? <==> exists i: nat :: i < |ops| && StopsAt(h, live, ops, i)
  {
    hide Inv, Next, Stops, Run, StopsAt;
    NextRun(h, live, ops);
    StopsFirst(h, live, ops);
    forall i: nat | i < |ops| - 1 ensures StopsAt(h1, live1, ops[1..], i) <==> StopsAt(h, live, ops, i + 1) {
      StopsLater(h, live, ops, i);
    }
    if i: nat :| i < |ops| && StopsAt(h, live, ops, i) {
      assert StopsAt(h1, live1, ops[1..], i - 1);
    }
    if i: nat :| i < |ops[1..]| && StopsAt(h1, live1, ops[1..], i) {
      assert StopsAt(h, live, ops, i + 1);
    }
  }
}
