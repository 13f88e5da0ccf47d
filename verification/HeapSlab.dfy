/** Slab caches: pages carved into equal objects, a list of the free ones per cache. */
module HeapSlab {
  import opened Collections
  import opened PhysicalMemorySpec
  import opened HeapLayout
  import opened HeapBlocks
  import opened HeapPages
  import opened HeapState
  import opened HeapRaw

  const SLAB_TAG: nat := 2

  /** The smallest cache whose objects hold `size` bytes, or the number of caches. */
  function FindSlabCache(size: nat): (c: nat)
    ensures c <= SLAB_CACHE_COUNT
    ensures c < SLAB_CACHE_COUNT ==> size <= SlabSize(c)
    ensures forall d :: 0 <= d < c ==> size > SlabSize(d)
  {
    if size <= SlabSize(0) then 0 else if size <= SlabSize(1) then 1
    else if size <= SlabSize(2) then 2 else if size <= SlabSize(3) then 3 else 4
  }

  function FreshObject(c: nat): Info {
    Info(SlabMagic, SlabSize(c), 0, true, false, false, c, NO_OBJECT_CACHE)
  }

  function ObjectAt(c: nat, page: nat, k: nat): nat {
    page + k * (SlabSize(c) + HEADER)
  }

  /** One fresh object joins the slab and the head of its cache's list. */
  function CarveObject(s: Heap, c: nat, h: nat): Heap
    requires c < |s.caches|
  {
    var k := s.caches[c];
    s.(blocks := s.blocks[h := FreshObject(c)],
    slab := s.slab + [h],
    caches := s.caches[c := k.(list := [h] + k.list, freeCount := k.freeCount + 1)])
  }

  function CarvePage(s: Heap, c: nat, page: nat, k: nat): (t: Heap)
    requires c < |s.caches|
    ensures |t.caches| == |s.caches|
    decreases ObjectsPerPage(c) - k
  {
    if k >= ObjectsPerPage(c) then s
    else CarvePage(CarveObject(s, c, ObjectAt(c, page, k)), c, page, k + 1)
  }

  /** The cache takes a page, before it is carved. */
  function AddSlabPage(s: Heap, c: nat, page: nat): (t: Heap)
    requires c < |s.caches|
    ensures |t.caches| == |s.caches|
  {
    var k := s.caches[c];
    s.(slabPages := s.slabPages + {page},
    caches := s.caches[c := k.(pages := k.pages + 1, objectsPerPage := ObjectsPerPage(c))],
    stats := s.stats.(heapPages := s.stats.heapPages + 1))
  }

  /** A page holds at least one object of every cache, so growth fails only for lack of a page. */
  function GrowSlabCache(s: Heap, c: nat): (r: (Heap, bool))
    requires c < |s.caches|
    ensures |r.0.caches| == |s.caches|
  {
    var (phys, page) := TakeHeapPage(s.phys, SLAB_TAG);
    if page == ALLOC_FAIL then
      (s.(phys := phys, stats := s.stats.(failedAllocations := s.stats.failedAllocations + 1)), false)
    else
      var t := CarvePage(AddSlabPage(s.(phys := phys), c, page), c, page, 0);
      (t.(stats := t.stats.(freeBytes := t.stats.freeBytes + ObjectsPerPage(c) * SlabSize(c))), true)
  }

  /** The first free object of the cache goes to a caller. */
  function TakeObject(s: Heap, c: nat, requested: nat): Heap
    requires c < |s.caches| && s.caches[c].list != [] && s.caches[c].list[0] in s.blocks
  {
    var k := s.caches[c];
    var h := k.list[0];
    var b := s.blocks[h];
    s.(blocks := s.blocks[h := b.(free := false, requested := requested, objectCache := NO_OBJECT_CACHE)],
    caches := s.caches[c := k.(list := k.list[1..], freeCount := Sub(k.freeCount, 1), active := k.active + 1)],
    stats := RefreshLeaks(s.stats.(
                                  freeBytes := Sub(s.stats.freeBytes, b.size),
                                  allocatedBytes := s.stats.allocatedBytes + b.size,
                                  requestedBytes := s.stats.requestedBytes + requested,
                                  activeAllocations := s.stats.activeAllocations + 1,
                                  activeSlab := s.stats.activeSlab + 1)))
  }

  /** The object in use at `h` goes back to the head of its cache's list. */
  function ReturnObject(s: Heap, h: nat): Heap
    requires h in s.blocks && s.blocks[h].slabCache < |s.caches|
  {
    var b := s.blocks[h];
    var k := s.caches[b.slabCache];
    s.(blocks := s.blocks[h := b.(free := true, requested := 0, objectCache := NO_OBJECT_CACHE, objectFlag := false)],
    caches := s.caches[b.slabCache := k.(list := [h] + k.list, freeCount := k.freeCount + 1, active := Sub(k.active, 1))],
    stats := RefreshLeaks(s.stats.(
                                  freeBytes := s.stats.freeBytes + b.size,
                                  allocatedBytes := Sub(s.stats.allocatedBytes, b.size),
                                  requestedBytes := Sub(s.stats.requestedBytes, b.requested),
                                  activeAllocations := Sub(s.stats.activeAllocations, 1),
                                  activeSlab := Sub(s.stats.activeSlab, 1))))
  }

  // ----- What the raw side does not notice -----

  ghost predicate SameRawSide(s: Heap, t: Heap) {
    && t.raw == s.raw && t.rawPages == s.rawPages
    && t.stats.activeRaw == s.stats.activeRaw && t.stats.coalesceCount == s.stats.coalesceCount
    && forall a :: a in s.raw && a in s.blocks ==> a in t.blocks && t.blocks[a] == s.blocks[a]
  }

  lemma RawSideKept(s: Heap, t: Heap)
    requires Keyed(s.blocks, s.raw) && SameRawSide(s, t)
    ensures Keyed(t.blocks, t.raw)
    ensures forall m :: Sum(m, t.blocks, t.raw) == Sum(m, s.blocks, s.raw)
    ensures (forall a :: a in s.raw ==> RawKind(a, s.blocks[a])) ==> forall a :: a in t.raw ==> RawKind(a, t.blocks[a])
  {
    forall m ensures Sum(m, t.blocks, t.raw) == Sum(m, s.blocks, s.raw) {
      SumFrame(m, t.blocks, s.blocks, s.raw);
    }
  }

  /** Sums over the slab objects after one of them changed. */
  lemma SlabUpdateSums(s: Heap, h: nat, info: Info)
    requires LayoutOk(s) && h in s.slab
    ensures Keyed(s.blocks[h := info], s.slab)
    ensures forall m :: Sum(m, s.blocks[h := info], s.slab) == Sum(m, s.blocks, s.slab) - Of(m, s.blocks[h]) + Of(m, info)
    ensures forall m :: Sum(m, s.blocks, s.slab) >= Of(m, s.blocks[h])
  {
    var i := IndexOfBlock(s.slab, h);
    forall m
      ensures Sum(m, s.blocks[h := info], s.slab) == Sum(m, s.blocks, s.slab) - Of(m, s.blocks[h]) + Of(m, info)
      ensures Sum(m, s.blocks, s.slab) >= Of(m, s.blocks[h])
    {
      SumUpdate(m, s.blocks, s.slab, i, info);
    }
  }

  /** One slab object changed in place, its size kept: what does not depend on the lists. */
  lemma ObjectChanged(s: Heap, t: Heap, h: nat)
    requires RawInv(s) && h in s.slab && h in t.blocks && t.blocks == s.blocks[h := t.blocks[h]]
    requires t.blocks[h].size == s.blocks[h].size && SlabKind(t.blocks[h])
    requires t.raw == s.raw && t.slab == s.slab && t.rawPages == s.rawPages && t.slabPages == s.slabPages
    requires t.stats.activeRaw == s.stats.activeRaw && t.stats.coalesceCount == s.stats.coalesceCount
    ensures LayoutOk(t) && KindsOk(t) && SameRawSide(s, t)
    ensures forall m :: Sum(m, t.blocks, t.raw) == Sum(m, s.blocks, s.raw)
    ensures forall m :: Sum(m, t.blocks, t.slab) == Sum(m, s.blocks, s.slab) - Of(m, s.blocks[h]) + Of(m, t.blocks[h])
    ensures forall m :: Sum(m, s.blocks, s.slab) >= Of(m, s.blocks[h])
  {
    hide Layout, NoDuplicates;
    InRawList(s, h);
    LayoutSameSizes(s, t);
    SlabUpdateSums(s, h, t.blocks[h]);
    RawSideKept(s, t);
  }

  // ----- Taking and returning an object -----

  /** The first object of a non-empty list is a free slab object of that cache. */
  lemma HeadOfList(s: Heap, c: nat)
    requires RawInv(s) && ListsOk(s.blocks, s.slab, s.caches)
    requires c < |s.caches| && s.caches[c].list != []
    ensures var h := s.caches[c].list[0];
            h in s.slab && h in s.blocks && s.blocks[h].free && s.blocks[h].slabCache == c && SlabKind(s.blocks[h])
  {
    var k := s.caches[c];
    assert CacheLists(s.blocks, s.slab, c, k);
    assert k.list[0] in k.list;
  }

  lemma TakeObjectLists(s: Heap, c: nat, requested: nat)
    requires RawInv(s) && ListsOk(s.blocks, s.slab, s.caches)
    requires c < |s.caches| && s.caches[c].list != [] && s.caches[c].list[0] in s.blocks
    requires requested <= SlabSize(c)
    ensures var t := TakeObject(s, c, requested);
            Keyed(t.blocks, t.slab) && ListsOk(t.blocks, t.slab, t.caches)
  {
    hide Layout;
    HeadOfList(s, c);
    var t := TakeObject(s, c, requested);
    var h := s.caches[c].list[0];
    ObjectChanged(s, t, h);
    forall d | 0 <= d < |t.caches| ensures CacheLists(t.blocks, t.slab, d, t.caches[d]) {
      assert CacheLists(s.blocks, s.slab, d, s.caches[d]);
    }
    forall d | 0 <= d < |t.caches| ensures CacheCapacity(d, t.caches[d], 0) {
      assert CacheCapacity(d, s.caches[d], 0);
      assert CacheLists(s.blocks, s.slab, d, s.caches[d]);
    }
  }

  lemma TakeObjectCounts(s: Heap, c: nat, requested: nat)
    requires RawInv(s) && FreeBytesOk(s) && ListsOk(s.blocks, s.slab, s.caches)
    requires c < |s.caches| && s.caches[c].list != [] && s.caches[c].list[0] in s.blocks
    requires requested <= SlabSize(c)
    ensures var t := TakeObject(s, c, requested);
            RawInv(t) && FreeBytesOk(t)
  {
    hide Layout, CacheLists, NoDuplicates;
    HeadOfList(s, c);
    var t := TakeObject(s, c, requested);
    var h := s.caches[c].list[0];
    ObjectChanged(s, t, h);
    assert Sum(FreeSize, s.blocks, s.slab) >= Of(FreeSize, s.blocks[h]);
  }

  /** Changing one object's header keeps the object caches as long as its flag is not set. */
  lemma ObjectsUnflagged(s: Heap, t: Heap, h: nat)
    requires Keyed(s.blocks, s.slab) && Keyed(t.blocks, t.slab) && h in s.slab
    requires ObjectsOk(s.blocks, s.slab, s.objects, s.stats.activeObjects)
    requires t.objects == s.objects && t.stats.activeObjects == s.stats.activeObjects
    requires h in t.blocks && !t.blocks[h].objectFlag
    requires forall m :: Sum(m, t.blocks, t.slab) == Sum(m, s.blocks, s.slab) - Of(m, s.blocks[h]) + Of(m, t.blocks[h])
    ensures ObjectsOk(t.blocks, t.slab, t.objects, t.stats.activeObjects)
  {
    forall k | 0 <= k < |t.objects| ensures ObjectOk(t.blocks, t.slab, k, t.objects[k]) {
      assert ObjectOk(s.blocks, s.slab, k, s.objects[k]);
      assert Of(ObjectIn(k), t.blocks[h]) == 0;
    }
  }

  lemma TakeObjectKeeps(s: Heap, c: nat, requested: nat)
    requires HeapInv(s)
    requires c < |s.caches| && s.caches[c].list != [] && requested <= SlabSize(c)
    ensures s.caches[c].list[0] in s.blocks
    ensures var t := TakeObject(s, c, requested);
            var h := s.caches[c].list[0];
            && HeapInv(t) && h in s.slab && t.slab == s.slab
            && h !in Held(s) && Held(t) == Held(s)[h := requested]
            && t.blocks[h].size >= requested && t.blocks[h].slabCache == c && !t.blocks[h].objectFlag
  {
    hide Layout, CacheLists, NoDuplicates, Inv, SumsOk, FreeBytesOk;
    SplitHeapInv(s);
    HeadOfList(s, c);
    var t := TakeObject(s, c, requested);
    var h := s.caches[c].list[0];
    TakeObjectLists(s, c, requested);
    TakeObjectCounts(s, c, requested);
    ObjectChanged(s, t, h);
    ObjectsUnflagged(s, t, h);
    HeldAfterTake(s, t, h);
  }

  lemma HeldAfterTake(s: Heap, t: Heap, h: nat)
    requires h in s.blocks && s.blocks[h].free && h in t.blocks && t.blocks == s.blocks[h := t.blocks[h]] && !t.blocks[h].free
    ensures h !in Held(s) && Held(t) == Held(s)[h := t.blocks[h].requested]
  {
  }

  lemma ReturnObjectLists(s: Heap, h: nat)
    requires RawInv(s) && ListsOk(s.blocks, s.slab, s.caches)
    requires h in s.slab && h in s.blocks && !s.blocks[h].free && s.blocks[h].slabCache < |s.caches|
    ensures var t := ReturnObject(s, h);
            Keyed(t.blocks, t.slab) && ListsOk(t.blocks, t.slab, t.caches)
    ensures s.caches[s.blocks[h].slabCache].active > 0
  {
    hide Layout, NoDuplicates;
    var t := ReturnObject(s, h);
    assert SlabKind(s.blocks[h]);
    ObjectChanged(s, t, h);
    var c := s.blocks[h].slabCache;
    assert CacheLists(s.blocks, s.slab, c, s.caches[c]);
    assert Sum(ActiveIn(c), s.blocks, s.slab) >= Of(ActiveIn(c), s.blocks[h]);
    forall d | 0 <= d < |t.caches| ensures CacheLists(t.blocks, t.slab, d, t.caches[d]) {
      assert CacheLists(s.blocks, s.slab, d, s.caches[d]);
      ReturnObjectList(s, h, d);
    }
    ReturnObjectCapacity(s, h);
  }

  /** The list of one cache after an object of some cache came back. */
  lemma ReturnObjectList(s: Heap, h: nat, d: nat)
    requires Keyed(s.blocks, s.slab) && h in s.slab && h in s.blocks && !s.blocks[h].free
    requires d < |s.caches| && s.blocks[h].slabCache < |s.caches| && CacheLists(s.blocks, s.slab, d, s.caches[d])
    requires var t := ReturnObject(s, h);
             && Keyed(t.blocks, s.slab)
             && forall m :: Sum(m, t.blocks, s.slab) == Sum(m, s.blocks, s.slab) - Of(m, s.blocks[h]) + Of(m, t.blocks[h])
    requires s.caches[s.blocks[h].slabCache].active > 0
    ensures Keyed(ReturnObject(s, h).blocks, s.slab)
    ensures CacheLists(ReturnObject(s, h).blocks, s.slab, d, ReturnObject(s, h).caches[d])
  {
    hide Sum, NoDuplicates;
    PushDistinct(s.caches[d].list, h);
  }

  lemma PushDistinct(list: seq<nat>, h: nat)
    requires NoDuplicates(list)
    ensures h !in list ==> NoDuplicates([h] + list)
  {
  }

  lemma ReturnObjectCapacity(s: Heap, h: nat)
    requires Keyed(s.blocks, s.slab) && ListsOk(s.blocks, s.slab, s.caches)
    requires h in s.blocks && s.blocks[h].slabCache < |s.caches| && s.caches[s.blocks[h].slabCache].active > 0
    ensures var t := ReturnObject(s, h);
            forall d :: 0 <= d < |t.caches| ==> CacheCapacity(d, t.caches[d], 0)
  {
    hide CacheLists;
    var t := ReturnObject(s, h);
    forall d | 0 <= d < |t.caches| ensures CacheCapacity(d, t.caches[d], 0) {
      assert CacheCapacity(d, s.caches[d], 0);
    }
  }

  lemma ReturnObjectCounts(s: Heap, h: nat)
    requires RawInv(s) && FreeBytesOk(s)
    requires h in s.slab && h in s.blocks && !s.blocks[h].free && s.blocks[h].slabCache < |s.caches|
    ensures var t := ReturnObject(s, h);
            RawInv(t) && FreeBytesOk(t)
    // No counter is clipped at zero.
    ensures s.stats.allocatedBytes >= s.blocks[h].size && s.stats.requestedBytes >= s.blocks[h].requested
    ensures s.stats.activeAllocations > 0 && s.stats.activeSlab > 0
  {
    hide Layout, NoDuplicates;
    var t := ReturnObject(s, h);
    assert SlabKind(s.blocks[h]);
    ObjectChanged(s, t, h);
    assert Sum(Allocated, s.blocks, s.slab) >= Of(Allocated, s.blocks[h]);
    assert Sum(Requested, s.blocks, s.slab) >= Of(Requested, s.blocks[h]);
    assert Sum(Active, s.blocks, s.slab) >= Of(Active, s.blocks[h]);
  }

  lemma ReturnObjectKeeps(s: Heap, h: nat)
    requires HeapInv(s) && h in s.slab && h in Held(s)
    ensures h in s.blocks && s.blocks[h].slabCache < |s.caches|
    ensures var t := ReturnObject(s, h);
            HeapInv(t) && Held(t) == Held(s) - {h}
  {
    hide Layout, CacheLists, NoDuplicates, Inv, SumsOk, FreeBytesOk;
    SplitHeapInv(s);
    assert SlabKind(s.blocks[h]);
    var t := ReturnObject(s, h);
    ReturnObjectLists(s, h);
    ReturnObjectCounts(s, h);
    ObjectChanged(s, t, h);
    ObjectsUnflagged(s, t, h);
  }

  // ----- Carving a page -----

  /** Invariant of the carving loop: everything but the capacity of cache `c`, which still
      lacks the rest of the page, and the free bytes, which are added at the end. */
  ghost predicate Carving(s: Heap, c: nat, page: nat, k: nat) {
    && c < SLAB_CACHE_COUNT && k <= ObjectsPerPage(c)
    && RawInv(s) && PagesOk(s)
    && page in s.slabPages && IsPage(page)
    && PageFilledTo(Sizes(s.blocks), Members(s.slab), page, k * (SlabSize(c) + HEADER))
    && ListsShort(s.blocks, s.slab, s.caches, c, ObjectsPerPage(c) - k)
    && ObjectsOk(s.blocks, s.slab, s.objects, s.stats.activeObjects)
  }

  lemma ObjectsFitPage(c: nat, k: nat)
    requires c < SLAB_CACHE_COUNT && k < ObjectsPerPage(c)
    ensures k * (SlabSize(c) + HEADER) + HEADER + SlabSize(c) == (k + 1) * (SlabSize(c) + HEADER) <= PAGE_SIZE
  {
    var w := SlabSize(c) + HEADER;
    assert (k + 1) * w <= ObjectsPerPage(c) * w;
  }

  lemma CarveLayout(s: Heap, c: nat, page: nat, k: nat)
    requires Carving(s, c, page, k) && k < ObjectsPerPage(c) && c < |s.caches|
    ensures var h := ObjectAt(c, page, k);
            var t := CarveObject(s, c, h);
            && h !in s.blocks && h !in s.slab && h !in s.raw
            && LayoutOk(t)
            && PageFilledTo(Sizes(t.blocks), Members(t.slab), page, (k + 1) * (SlabSize(c) + HEADER))
  {
    hide Layout, NoDuplicates, RawInv, ListsShort, ObjectsOk, PagesOk, PageFilledTo;
    assert LayoutOk(s) by { LayoutInRawInv(s); }
    var h := ObjectAt(c, page, k);
    var t := CarveObject(s, c, h);
    ObjectsFitPage(c, k);
    var sizes := Sizes(s.blocks);
    LayoutAddObject(sizes, Members(s.raw), Members(s.slab), s.rawPages, s.slabPages,
                    page, k * (SlabSize(c) + HEADER), SlabSize(c));
    assert h !in sizes;
    assert Sizes(t.blocks) == sizes[h := SlabSize(c)];
    InRawList(s, h);
    assert t.slab == InsertAt(s.slab, |s.slab|, h);
    InsertMembers(s.slab, |s.slab|, h);
  }

  lemma LayoutInRawInv(s: Heap)
    requires RawInv(s)
    ensures LayoutOk(s) && KindsOk(s)
  {
  }

  /** Sums after a fresh object joined the slab. */
  lemma CarveSums(s: Heap, c: nat, h: nat)
    requires Keyed(s.blocks, s.raw) && Keyed(s.blocks, s.slab) && h !in s.blocks && c < |s.caches|
    ensures var t := CarveObject(s, c, h);
            && Keyed(t.blocks, t.raw) && Keyed(t.blocks, t.slab)
            && (forall m :: Sum(m, t.blocks, t.raw) == Sum(m, s.blocks, s.raw))
            && (forall m :: Sum(m, t.blocks, t.slab) == Sum(m, s.blocks, s.slab) + Of(m, FreshObject(c)))
  {
    var t := CarveObject(s, c, h);
    assert t.slab == InsertAt(s.slab, |s.slab|, h);
    forall m
      ensures Keyed(t.blocks, t.raw) && Keyed(t.blocks, t.slab)
      ensures Sum(m, t.blocks, t.raw) == Sum(m, s.blocks, s.raw)
      ensures Sum(m, t.blocks, t.slab) == Sum(m, s.blocks, s.slab) + Of(m, FreshObject(c))
    {
      SumFrame(m, s.blocks, t.blocks, s.raw);
      SumFrame(m, s.blocks, t.blocks, s.slab);
      SumInsert(m, t.blocks, s.slab, |s.slab|, h);
    }
    assert Sum(Span, t.blocks, t.raw) >= 0;
  }

  lemma CarveLists(s: Heap, c: nat, h: nat, missing: nat)
    requires Keyed(s.blocks, s.raw) && Keyed(s.blocks, s.slab) && h !in s.blocks && h !in s.slab && c < |s.caches|
    requires missing > 0 && ListsShort(s.blocks, s.slab, s.caches, c, missing)
    ensures var t := CarveObject(s, c, h);
            Keyed(t.blocks, t.slab) && ListsShort(t.blocks, t.slab, t.caches, c, missing - 1)
  {
    CarveSums(s, c, h);
    var t := CarveObject(s, c, h);
    forall d | 0 <= d < |t.caches| ensures CacheLists(t.blocks, t.slab, d, t.caches[d]) {
      assert CacheLists(s.blocks, s.slab, d, s.caches[d]);
      if d == c {
        assert h !in s.caches[c].list;
      }
    }
    forall d | 0 <= d < |t.caches| ensures CacheCapacity(d, t.caches[d], if d == c then missing - 1 else 0) {
      assert CacheCapacity(d, s.caches[d], if d == c then missing else 0);
    }
  }

  lemma CarveObjects(s: Heap, c: nat, h: nat)
    requires Keyed(s.blocks, s.raw) && Keyed(s.blocks, s.slab) && h !in s.blocks && c < |s.caches|
    requires ObjectsOk(s.blocks, s.slab, s.objects, s.stats.activeObjects)
    ensures var t := CarveObject(s, c, h);
            Keyed(t.blocks, t.slab) && ObjectsOk(t.blocks, t.slab, t.objects, t.stats.activeObjects)
  {
    CarveSums(s, c, h);
    var t := CarveObject(s, c, h);
    forall k | 0 <= k < |t.objects| ensures ObjectOk(t.blocks, t.slab, k, t.objects[k]) {
      assert ObjectOk(s.blocks, s.slab, k, s.objects[k]);
      assert Of(ObjectIn(k), FreshObject(c)) == 0;
    }
  }

  lemma CarveRawInv(s: Heap, c: nat, h: nat)
    requires RawInv(s) && h !in s.blocks && c < |s.caches| && c < SLAB_CACHE_COUNT
    requires LayoutOk(CarveObject(s, c, h))
    ensures var t := CarveObject(s, c, h);
            RawInv(t) && Total(FreeSize, t) == Total(FreeSize, s) + SlabSize(c)
  {
    hide Layout, NoDuplicates;
    CarveSums(s, c, h);
  }

  lemma CarveStep(s: Heap, c: nat, page: nat, k: nat)
    requires Carving(s, c, page, k) && k < ObjectsPerPage(c) && c < |s.caches|
    ensures var t := CarveObject(s, c, ObjectAt(c, page, k));
            && Carving(t, c, page, k + 1)
            && Keyed(s.blocks, s.raw) && Keyed(s.blocks, s.slab) && Keyed(t.blocks, t.raw) && Keyed(t.blocks, t.slab)
            && Total(FreeSize, t) == Total(FreeSize, s) + SlabSize(c)
            && Held(t) == Held(s)
  {
    hide Layout, NoDuplicates, SumsOk, ListsShort, ObjectsOk, Inv, PageFilledTo;
    var h := ObjectAt(c, page, k);
    CarveLayout(s, c, page, k);
    CarveRawInv(s, c, h);
    CarveLists(s, c, h, ObjectsPerPage(c) - k);
    CarveObjects(s, c, h);
  }

  /** Carving the rest of a page: each object joins the free list, nothing is handed out. */
  lemma {:induction false} CarvePageKeeps(s: Heap, c: nat, page: nat, k: nat)
    requires Carving(s, c, page, k) && c < |s.caches|
    requires Keyed(s.blocks, s.raw) && Keyed(s.blocks, s.slab)
    ensures var t := CarvePage(s, c, page, k);
            && Carving(t, c, page, ObjectsPerPage(c))
            && Keyed(t.blocks, t.raw) && Keyed(t.blocks, t.slab)
            && Total(FreeSize, t) == Total(FreeSize, s) + (ObjectsPerPage(c) - k) * SlabSize(c)
            && Held(t) == Held(s) && t.stats == s.stats
    decreases ObjectsPerPage(c) - k
  {
    hide Carving, Held, CarveObject, Total;
    assert k <= ObjectsPerPage(c) by { CarvingBounds(s, c, page, k); }
    if k < ObjectsPerPage(c) {
      CarveStep(s, c, page, k);
      CarveStats(s, c, ObjectAt(c, page, k));
      CarvePageKeeps(CarveObject(s, c, ObjectAt(c, page, k)), c, page, k + 1);
    }
  }

  lemma CarvingBounds(s: Heap, c: nat, page: nat, k: nat)
    requires Carving(s, c, page, k)
    ensures k <= ObjectsPerPage(c)
  {
  }

  lemma CarveStats(s: Heap, c: nat, h: nat)
    requires c < |s.caches|
    ensures CarveObject(s, c, h).stats == s.stats && |CarveObject(s, c, h).caches| == |s.caches|
  {
  }

  // ----- Growing -----

  /** The fresh page is out of the heap's pages, and its cache now lacks a page of objects. */
  lemma AddSlabPageKeeps(s: Heap, c: nat, phys: Phys, page: nat)
    requires HeapInv(s) && c < SLAB_CACHE_COUNT && c < |s.caches|
    requires Inv(phys) && IsPage(page) && page in FreeSet(s.phys) && phys.used == s.phys.used + {page}
    ensures var t := AddSlabPage(s.(phys := phys), c, page);
            && Carving(t, c, page, 0) && Held(t) == Held(s)
            && Keyed(t.blocks, t.raw) && Keyed(t.blocks, t.slab) && Total(FreeSize, t) == Total(FreeSize, s)
            && t.stats == s.stats.(heapPages := s.stats.heapPages + 1)
  {
    hide Layout, NoDuplicates, Inv, ListsShort, ObjectsOk, PageFilledTo, RawInv, FreeBytesOk, IsPage, Keyed;
    UsedNotFree(s.phys);
    SplitHeapInv(s);
    KeyedInHeapInv(s);
    var t := AddSlabPage(s.(phys := phys), c, page);
    AddSlabPageRaw(s, c, phys, page);
    AddSlabPageLists(s, c, phys, page);
    SameBlocksHeld(s, t);
    ObjectsFitNone(c);
  }

  lemma ObjectsFitNone(c: nat)
    ensures 0 * (SlabSize(c) + HEADER) == 0
  {
  }

  lemma AddSlabPageRaw(s: Heap, c: nat, phys: Phys, page: nat)
    requires RawInv(s) && c < |s.caches| && page !in s.rawPages && page !in s.slabPages
    ensures var t := AddSlabPage(s.(phys := phys), c, page);
            RawInv(t) && Total(FreeSize, t) == Total(FreeSize, s) && PageFilledTo(Sizes(t.blocks), Members(t.slab), page, 0)
  {
    hide Layout, NoDuplicates, PageFilledTo, RawKind, SlabKind;
    AddSlabPageLayout(s, AddSlabPage(s.(phys := phys), c, page), page);
  }

  lemma AddSlabPageLists(s: Heap, c: nat, phys: Phys, page: nat)
    requires Keyed(s.blocks, s.slab) && ListsOk(s.blocks, s.slab, s.caches) && c < |s.caches|
    ensures var t := AddSlabPage(s.(phys := phys), c, page);
            ListsShort(t.blocks, t.slab, t.caches, c, ObjectsPerPage(c))
  {
    hide CacheLists, CacheCapacity;
    var t := AddSlabPage(s.(phys := phys), c, page);
    forall d | 0 <= d < |t.caches| ensures CacheLists(t.blocks, t.slab, d, t.caches[d]) {
      assert CacheLists(s.blocks, s.slab, d, s.caches[d]);
      CacheListsSameCounts(s.blocks, s.slab, d, s.caches[d], t.caches[d]);
    }
    AddSlabPageCapacity(s, c, phys, page);
  }

  lemma AddSlabPageLayout(s: Heap, t: Heap, page: nat)
    requires LayoutOk(s) && page !in s.rawPages && page !in s.slabPages
    requires t.blocks == s.blocks && t.raw == s.raw && t.slab == s.slab && t.rawPages == s.rawPages
    requires t.slabPages == s.slabPages + {page}
    ensures LayoutOk(t) && PageFilledTo(Sizes(t.blocks), Members(t.slab), page, 0)
    ensures |t.slabPages| == |s.slabPages| + 1
  {
    LayoutAddSlabPage(Sizes(s.blocks), Members(s.raw), Members(s.slab), s.rawPages, s.slabPages, page);
  }

  lemma CacheListsSameCounts(blocks: Blocks, slab: seq<nat>, c: nat, k: SlabCache, l: SlabCache)
    requires Keyed(blocks, slab) && CacheLists(blocks, slab, c, k)
    requires l == k.(pages := l.pages, objectsPerPage := l.objectsPerPage)
    ensures CacheLists(blocks, slab, c, l)
  {
  }

  lemma AddSlabPageCapacity(s: Heap, c: nat, phys: Phys, page: nat)
    requires Keyed(s.blocks, s.slab) && ListsOk(s.blocks, s.slab, s.caches) && c < |s.caches|
    ensures var t := AddSlabPage(s.(phys := phys), c, page);
            forall d :: 0 <= d < |t.caches| ==> CacheCapacity(d, t.caches[d], if d == c then ObjectsPerPage(c) else 0)
  {
    hide CacheLists, ObjectsPerPage;
    var t := AddSlabPage(s.(phys := phys), c, page);
    forall d | 0 <= d < |t.caches| ensures CacheCapacity(d, t.caches[d], if d == c then ObjectsPerPage(c) else 0) {
      assert CacheCapacity(d, s.caches[d], 0);
      if d == c {
        var k := s.caches[c];
        if k.pages == 0 {
          assert k.pages * k.objectsPerPage == 0;
          assert (k.pages + 1) * ObjectsPerPage(c) == ObjectsPerPage(c);
        } else {
          assert (k.pages + 1) * ObjectsPerPage(c) == k.pages * k.objectsPerPage + ObjectsPerPage(c);
        }
      }
    }
  }

  /** A fully carved page leaves the whole invariant, once its bytes are counted as free. */
  lemma CarvedPage(s: Heap, t: Heap, c: nat, page: nat)
    requires Carving(s, c, page, ObjectsPerPage(c))
    requires t == s.(stats := s.stats.(freeBytes := t.stats.freeBytes))
    requires Keyed(t.blocks, t.raw) && Keyed(t.blocks, t.slab) && FreeBytesOk(t)
    ensures HeapInv(t)
  {
    hide Layout, NoDuplicates, Inv, CacheLists, ObjectsOk, PageFilledTo, FreeBytesOk;
    forall d | 0 <= d < |t.caches| ensures CacheCapacity(d, t.caches[d], 0) {
      assert CacheCapacity(d, s.caches[d], if d == c then ObjectsPerPage(c) - ObjectsPerPage(c) else 0);
    }
  }

  /** Growing a cache hands nothing out; it fails only when no page is free, and then only
      the failure is counted. Otherwise the cache's list has an object. */
  lemma GrowKeeps(s: Heap, c: nat)
    requires HeapInv(s) && c < SLAB_CACHE_COUNT
    ensures c < |s.caches|
    ensures var (t, ok) := GrowSlabCache(s, c);
            && HeapInv(t) && Held(t) == Held(s)
            && (ok <==> TakeHeapPage(s.phys, SLAB_TAG).1 != ALLOC_FAIL)
            && (ok ==> t.caches[c].list != [])
  {
    hide RawInv, SumsOk, ListsShort, ObjectsOk, KindsOk, Inv, Layout, Carving, Held, CarvePage, TakeHeapPage;
    assert |s.caches| == SLAB_CACHE_COUNT by { CacheCount(s); }
    assert Inv(s.phys);
    TakeHeapPageKeeps(s.phys, SLAB_TAG);
    var (phys, page) := TakeHeapPage(s.phys, SLAB_TAG);
    if page == ALLOC_FAIL {
      OnlyFailed(s, phys);
      SameBlocksHeld(s, GrowSlabCache(s, c).0);
    } else {
      AddSlabPageKeeps(s, c, phys, page);
      var s1 := AddSlabPage(s.(phys := phys), c, page);
      CarvePageKeeps(s1, c, page, 0);
      var s2 := CarvePage(s1, c, page, 0);
      var t := GrowSlabCache(s, c).0;
      GrownFreeBytes(s, s2, t, c);
      CarvedPage(s2, t, c, page);
      SameBlocksHeld(s2, t);
      CarvedListNotEmpty(s1, c, page, 0);
    }
  }

  lemma GrownFreeBytes(s: Heap, s2: Heap, t: Heap, c: nat)
    requires HeapInv(s)
    requires Keyed(s2.blocks, s2.raw) && Keyed(s2.blocks, s2.slab)
    requires Total(FreeSize, s2) == Total(FreeSize, s) + ObjectsPerPage(c) * SlabSize(c)
    requires s2.stats == s.stats.(heapPages := s.stats.heapPages + 1)
    requires t == s2.(stats := s2.stats.(freeBytes := s2.stats.freeBytes + ObjectsPerPage(c) * SlabSize(c)))
    ensures Keyed(t.blocks, t.raw) && Keyed(t.blocks, t.slab) && FreeBytesOk(t)
  {
    hide Layout, NoDuplicates, Inv, ListsShort, ObjectsOk, KindsOk, SumsOk;
  }

  lemma CacheCount(s: Heap)
    requires HeapInv(s)
    ensures |s.caches| == SLAB_CACHE_COUNT
  {
  }

  lemma SameBlocksHeld(s: Heap, t: Heap)
    requires t.blocks == s.blocks
    ensures Held(t) == Held(s)
  {
  }

  lemma {:induction false} CarvedListNotEmpty(s: Heap, c: nat, page: nat, k: nat)
    requires c < |s.caches| && (k < ObjectsPerPage(c) || s.caches[c].list != [])
    ensures CarvePage(s, c, page, k).caches[c].list != []
    decreases ObjectsPerPage(c) - k
  {
    if k < ObjectsPerPage(c) {
      CarvedListNotEmpty(CarveObject(s, c, ObjectAt(c, page, k)), c, page, k + 1);
    }
  }

  // ----- The two operations -----

  lemma ListsKeyed(s: Heap, c: nat)
    requires HeapInv(s) && c < SLAB_CACHE_COUNT
    ensures c < |s.caches|
    ensures forall h :: h in s.caches[c].list ==> h in s.blocks && h in s.slab
  {
    assert CacheLists(s.blocks, s.slab, c, s.caches[c]);
  }

  /** In the invariant a slab allocation never meets a list entry without a header. */
  lemma SlabAllocateReady(s: Heap, c: nat)
    requires HeapInv(s) && c < SLAB_CACHE_COUNT
    ensures c < |s.caches|
    ensures forall h :: h in s.caches[c].list ==> h in s.blocks
    ensures forall h :: h in GrowSlabCache(s, c).0.caches[c].list ==> h in GrowSlabCache(s, c).0.blocks
    ensures GrowSlabCache(s, c).1 ==> GrowSlabCache(s, c).0.caches[c].list != []
  {
    hide HeapInv, GrowSlabCache;
    ListsKeyed(s, c);
    GrowKeeps(s, c);
    ListsKeyed(GrowSlabCache(s, c).0, c);
  }

  ghost function SlabAllocate(s: Heap, c: nat, requested: nat): (Heap, nat)
    requires HeapInv(s) && c < SLAB_CACHE_COUNT
  {
    SlabAllocateReady(s, c);
    if s.caches[c].list != [] then (TakeObject(s, c, requested), s.caches[c].list[0] + HEADER)
    else
      var (t, ok) := GrowSlabCache(s, c);
      if !ok then (t, 0) else (TakeObject(t, c, requested), t.caches[c].list[0] + HEADER)
  }

  /** A slab allocation fails only when its list is empty and no page is free; otherwise it
      hands out one object that was nobody's. */
  lemma SlabAllocateExact(s: Heap, c: nat, requested: nat)
    requires HeapInv(s) && c < SLAB_CACHE_COUNT && requested <= SlabSize(c)
    ensures c < |s.caches|
    ensures var (t, p) := SlabAllocate(s, c, requested);
            && HeapInv(t)
            && (p == 0 <==> s.caches[c].list == [] && TakeHeapPage(s.phys, SLAB_TAG).1 == ALLOC_FAIL)
            && (p == 0 ==> Held(t) == Held(s))
            && (p != 0 ==>
                  && p >= HEADER && p - HEADER in t.slab && p - HEADER in t.blocks && p - HEADER !in Held(s)
                  && Held(t) == Held(s)[p - HEADER := requested]
                  && t.blocks[p - HEADER].size >= requested && !t.blocks[p - HEADER].objectFlag)
  {
    hide HeapInv, GrowSlabCache, Held, TakeHeapPage, TakeObject;
    SlabAllocateReady(s, c);
    if s.caches[c].list != [] {
      TakeObjectKeeps(s, c, requested);
      TakeObjectSlab(s, c, requested);
    } else {
      GrowKeeps(s, c);
      var (t, ok) := GrowSlabCache(s, c);
      if ok {
        TakeObjectKeeps(t, c, requested);
        TakeObjectSlab(t, c, requested);
      }
    }
  }

  lemma TakeObjectSlab(s: Heap, c: nat, requested: nat)
    requires c < |s.caches| && s.caches[c].list != [] && s.caches[c].list[0] in s.blocks
    ensures TakeObject(s, c, requested).slab == s.slab
    ensures s.caches[c].list[0] in TakeObject(s, c, requested).blocks
  {
  }

  lemma SlabFreeReady(s: Heap)
    requires HeapInv(s)
    ensures Keyed(s.blocks, s.slab)
    ensures forall h :: h in s.slab ==> s.blocks[h].slabCache < |s.caches|
  {
    forall h | h in s.slab ensures s.blocks[h].slabCache < |s.caches| {
      assert SlabKind(s.blocks[h]);
    }
  }

  /** False when the pointer is no slab object, so that the caller tries the raw heap. */
  ghost function SlabFree(s: Heap, pointer: nat): (Heap, bool)
    requires HeapInv(s)
  {
    SlabFreeReady(s);
    if pointer < HEADER || pointer - HEADER !in s.slab then (s, false)
    else
      var h := pointer - HEADER;
      if s.blocks[h].free then (s.(stats := s.stats.(doubleFrees := s.stats.doubleFrees + 1)), true)
      else (ReturnObject(s, h), true)
  }

  lemma SlabFreeExact(s: Heap, p: nat)
    requires HeapInv(s)
    ensures var (t, ok) := SlabFree(s, p);
            && HeapInv(t)
            && (ok <==> p >= HEADER && p - HEADER in s.slab)
            && (if ok && p - HEADER in Held(s) then Held(t) == Held(s) - {p - HEADER}
                else if ok then t == s.(stats := s.stats.(doubleFrees := s.stats.doubleFrees + 1))
                else t == s)
  {
    hide HeapInv, ReturnObject;
    SlabFreeReady(s);
    if p >= HEADER && p - HEADER in s.slab {
      if s.blocks[p - HEADER].free {
        OnlyEvents(s, SlabFree(s, p).0);
      } else {
        ReturnObjectKeeps(s, p - HEADER);
      }
    }
  }

  // ----- Which object -----

  /** The four caches hold up to 32, 64, 128 and 256 bytes; larger sizes have none. */
  lemma SlabCacheIs(size: nat)
    ensures FindSlabCache(size) == 0 <==> size <= 32
    ensures FindSlabCache(size) == 1 <==> 32 < size <= 64
    ensures FindSlabCache(size) == 2 <==> 64 < size <= 128
    ensures FindSlabCache(size) == 3 <==> 128 < size <= 256
    ensures FindSlabCache(size) == 4 <==> size > 256
    ensures SlabSize(0) == 32 && SlabSize(1) == 64 && SlabSize(2) == 128 && SlabSize(3) == 256
  {
  }

  /** As many objects with their headers are carved from a page as fit on it. */
  lemma ObjectsPerPageIs(c: nat)
    ensures ObjectsPerPage(c) * (SlabSize(c) + 56) <= 4096 < (ObjectsPerPage(c) + 1) * (SlabSize(c) + 56)
  {
  }

  /** The object handed out is of the cache asked for: the head of its list if it has one, else one of a
      fresh page, the last free one. */
  lemma SlabAllocateIs(s: Heap, c: nat, requested: nat)
    requires HeapInv(s) && c < SLAB_CACHE_COUNT && requested <= SlabSize(c)
    ensures c < |s.caches|
    ensures var (t, p) := SlabAllocate(s, c, requested);
            && (p == 0 <==> s.caches[c].list == [] && s.phys.free == [])
            && (p == 0 ==> t == s.(stats := t.stats))
            && (p != 0 ==> p >= 56 && p - 56 in t.slab && p - 56 in t.blocks && t.blocks[p - 56].slabCache == c
                           && t.blocks[p - 56].size == SlabSize(c) && t.blocks[p - 56].requested == requested)
            && (s.caches[c].list != [] ==> p == s.caches[c].list[0] + 56 && t.phys == s.phys && t.slab == s.slab)
            && (s.caches[c].list == [] && s.phys.free != [] ==>
                  p - 56 - (p - 56) % 4096 == s.phys.free[|s.phys.free| - 1])
  {
    hide HeapInv, GrowSlabCache, Held, TakeHeapPage, TakeObject;
    SlabAllocateExact(s, c, requested);
    SlabAllocateReady(s, c);
    PhysOf(s);
    TakeHeapPageIs(s.phys, SLAB_TAG);
    FreePagesNotNull(s.phys);
    if s.caches[c].list != [] {
      TakenObject(s, c, requested);
    } else {
      GrowKeeps(s, c);
      var (t, ok) := GrowSlabCache(s, c);
      if ok {
        TakenObject(t, c, requested);
        GrownOnPage(s, c, t);
      } else {
        GrowFails(s, c);
      }
    }
  }

  lemma FreePagesNotNull(s: Phys)
    requires Inv(s)
    ensures s.free != [] ==> s.free[|s.free| - 1] != 0
  {
    if s.free != [] {
      assert s.free[|s.free| - 1] in s.free;
    }
  }

  lemma GrowFails(s: Heap, c: nat)
    requires HeapInv(s) && c < |s.caches| && s.phys.free == []
    ensures GrowSlabCache(s, c).0 == s.(stats := GrowSlabCache(s, c).0.stats)
  {
    hide HeapInv, TakeHeapPage;
    PhysOf(s);
    TakeHeapPageIs(s.phys, SLAB_TAG);
  }

  lemma TakenObject(s: Heap, c: nat, requested: nat)
    requires HeapInv(s) && c < |s.caches| && s.caches[c].list != []
    ensures s.caches[c].list[0] in s.blocks
    ensures var t := TakeObject(s, c, requested); var h := s.caches[c].list[0];
            && h in t.slab && h in t.blocks && t.blocks[h].slabCache == c && t.blocks[h].size == SlabSize(c)
            && t.blocks[h].requested == requested && t.phys == s.phys && t.slab == s.slab
  {
    hide Layout, CacheLists, NoDuplicates, Inv, SumsOk, FreeBytesOk;
    SplitHeapInv(s);
    HeadOfList(s, c);
  }

  /** What a fresh page adds to the list lies on that page. */
  lemma GrownOnPage(s: Heap, c: nat, t: Heap)
    requires HeapInv(s) && c < SLAB_CACHE_COUNT && c < |s.caches| && s.caches[c].list == [] && s.phys.free != []
    requires c < |t.caches| && t == GrowSlabCache(s, c).0
    ensures t.caches[c].list != [] && t.caches[c].list[0] - t.caches[c].list[0] % 4096 == s.phys.free[|s.phys.free| - 1]
  {
    hide HeapInv, TakeHeapPage, CarvePage;
    PhysOf(s);
    TakeHeapPageIs(s.phys, SLAB_TAG);
    FreePagesNotNull(s.phys);
    var (phys, page) := TakeHeapPage(s.phys, SLAB_TAG);
    PageAligned(s.phys);
    ObjectsPerPageIs(c);
    CarvedLast(AddSlabPage(s.(phys := phys), c, page), c, page, 0);
    LastObjectOnPage(c, page);
  }

  lemma PageAligned(s: Phys)
    requires Inv(s)
    ensures s.free != [] ==> s.free[|s.free| - 1] % 4096 == 0
  {
    FreePagesNotNull(s);
    if s.free != [] {
      assert s.free[|s.free| - 1] in s.free;
    }
  }

  lemma {:induction false} CarvedLast(s: Heap, c: nat, page: nat, k: nat)
    requires c < |s.caches| && k < ObjectsPerPage(c)
    ensures var t := CarvePage(s, c, page, k);
            t.caches[c].list != [] && t.caches[c].list[0] == ObjectAt(c, page, ObjectsPerPage(c) - 1)
    decreases ObjectsPerPage(c) - k
  {
    hide ObjectsPerPage;
    var t := CarveObject(s, c, ObjectAt(c, page, k));
    if k + 1 < ObjectsPerPage(c) {
      CarvedLast(t, c, page, k + 1);
    } else {
      assert CarvePage(t, c, page, k + 1) == t;
    }
  }

  lemma LastObjectOnPage(c: nat, page: nat)
    requires page % 4096 == 0 && ObjectsPerPage(c) > 0
    ensures var h := ObjectAt(c, page, ObjectsPerPage(c) - 1); h - h % 4096 == page
  {
    ObjectsPerPageIs(c);
    var d := (ObjectsPerPage(c) - 1) * (SlabSize(c) + HEADER);
    assert d < 4096;
    assert (page + d) % 4096 == d;
  }
}
