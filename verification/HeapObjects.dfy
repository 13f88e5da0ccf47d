/** Object caches: named users of the slab caches with their own counts. */
module HeapObjects {
  import opened Collections
  import opened PhysicalMemorySpec
  import opened HeapLayout
  import opened HeapBlocks
  import opened HeapState
  import opened HeapRaw
  import opened HeapSlab

  function CreateObjectCache(s: Heap, k: nat, size: nat): (Heap, bool) {
    if k >= OBJECT_CACHE_COUNT || k >= |s.objects| || size == 0 then (s, false)
    else
      var objectSize := RawAlign(size);
      var c := FindSlabCache(objectSize);
      if c >= SLAB_CACHE_COUNT then (s, false)
      else (s.(objects := s.objects[k := ObjectCache(true, objectSize, SlabSize(c), 0, 0, 0)]), true)
  }

  /** The object at `h` is stamped as belonging to cache `k`. */
  function Stamp(s: Heap, k: nat, h: nat): Heap
    requires k < |s.objects| && h in s.blocks
  {
    var o := s.objects[k];
    s.(blocks := s.blocks[h := s.blocks[h].(objectFlag := true, objectCache := k)],
    objects := s.objects[k := o.(allocations := o.allocations + 1, active := o.active + 1)],
    stats := s.stats.(activeObjects := s.stats.activeObjects + 1))
  }

  function Unstamp(s: Heap, k: nat, h: nat): Heap
    requires k < |s.objects| && h in s.blocks
  {
    var o := s.objects[k];
    s.(blocks := s.blocks[h := s.blocks[h].(objectFlag := false, objectCache := NO_OBJECT_CACHE)],
    objects := s.objects[k := o.(frees := o.frees + 1, active := Sub(o.active, 1))],
    stats := s.stats.(activeObjects := Sub(s.stats.activeObjects, 1)))
  }

  lemma ObjectCacheReady(s: Heap, k: nat)
    requires HeapInv(s) && k < OBJECT_CACHE_COUNT
    ensures k < |s.objects| && (s.objects[k].configured ==> FindSlabCache(s.objects[k].objectSize) < SLAB_CACHE_COUNT)
  {
    assert ObjectOk(s.blocks, s.slab, k, s.objects[k]);
  }

  lemma ObjectAllocReady(s: Heap, k: nat)
    requires HeapInv(s) && k < |s.objects|
    ensures s.objects[k].configured ==> FindSlabCache(s.objects[k].objectSize) < SLAB_CACHE_COUNT
  {
    hide HeapInv;
    ObjectCount(s);
    ObjectCacheReady(s, k);
  }

  ghost function ObjectAlloc(s: Heap, k: nat): (Heap, nat)
    requires HeapInv(s)
  {
    if k >= |s.objects| || !s.objects[k].configured then
      (s.(stats := s.stats.(failedAllocations := s.stats.failedAllocations + 1)), 0)
    else StampNew(AllocateFor(s, k), k)
  }

  ghost function AllocateFor(s: Heap, k: nat): (Heap, nat)
    requires HeapInv(s) && k < |s.objects| && s.objects[k].configured
  {
    ObjectAllocReady(s, k);
    SlabAllocate(s, FindSlabCache(s.objects[k].objectSize), s.objects[k].objectSize)
  }

  /** The new object, if there is one, is stamped; a header that is no slab header is refused. */
  ghost function StampNew(r: (Heap, nat), k: nat): (Heap, nat) {
    var (t, p) := r;
    if p == 0 then (t, 0)
    else if p < HEADER || p - HEADER !in t.blocks || t.blocks[p - HEADER].magic != SlabMagic || k >= |t.objects| then (t, 0)
    else (Stamp(t, k, p - HEADER), p)
  }

  predicate Stamped(s: Heap, k: nat, h: nat) {
    h in s.slab && h in s.blocks && s.blocks[h].objectFlag && s.blocks[h].objectCache == k
  }

  ghost function ObjectFree(s: Heap, k: nat, p: nat): Heap
    requires HeapInv(s)
  {
    if p == 0 then s
    else if k >= |s.objects| || !s.objects[k].configured then
      s.(stats := s.stats.(invalidFrees := s.stats.invalidFrees + 1))
    else if p < HEADER || !Stamped(s, k, p - HEADER) then
      s.(stats := s.stats.(invalidFrees := s.stats.invalidFrees + 1))
    else
      ObjectCount(s);
      UnstampKeeps(s, k, p - HEADER);
      SlabFree(Unstamp(s, k, p - HEADER), p).0
  }

  // ----- The caches' counters -----

  lemma {:induction false} TotalActiveUpdate(objects: seq<ObjectCache>, k: nat, o: ObjectCache)
    requires k < |objects|
    ensures TotalActive(objects[k := o]) + (if objects[k].configured then objects[k].active else 0)
         == TotalActive(objects) + (if o.configured then o.active else 0)
  {
    var last := |objects| - 1;
    if k == last {
      assert objects[k := o][..last] == objects[..last];
    } else {
      assert objects[k := o][..last] == objects[..last][k := o];
      TotalActiveUpdate(objects[..last], k, o);
    }
  }

  /** Slab object `h` is stamped or unstamped: size, list and bytes stay. */
  lemma StampSides(s: Heap, t: Heap, h: nat)
    requires HeapInv(s) && h in s.slab && h in s.blocks && h in t.blocks
    requires t.blocks == s.blocks[h := s.blocks[h].(objectFlag := t.blocks[h].objectFlag, objectCache := t.blocks[h].objectCache)]
    requires SlabKind(t.blocks[h])
    requires t == s.(blocks := t.blocks, objects := t.objects, stats := s.stats.(activeObjects := t.stats.activeObjects))
    ensures RawInv(t) && FreeBytesOk(t) && PagesOk(t)
    ensures Keyed(t.blocks, t.slab) && ListsOk(t.blocks, t.slab, t.caches)
    ensures forall m :: Sum(m, t.blocks, t.slab) == Sum(m, s.blocks, s.slab) - Of(m, s.blocks[h]) + Of(m, t.blocks[h])
    ensures forall m :: Sum(m, s.blocks, s.slab) >= Of(m, s.blocks[h])
    ensures Held(t) == Held(s)
  {
    hide Layout, NoDuplicates, Inv, ObjectOk, ListsShort;
    SplitHeapInv(s);
    ObjectChanged(s, t, h);
    StampLists(s, t, h);
  }

  lemma StampLists(s: Heap, t: Heap, h: nat)
    requires Keyed(s.blocks, s.slab) && ListsOk(s.blocks, s.slab, s.caches) && h in s.blocks && h in t.blocks
    requires t.blocks == s.blocks[h := s.blocks[h].(objectFlag := t.blocks[h].objectFlag, objectCache := t.blocks[h].objectCache)]
    requires t.slab == s.slab && t.caches == s.caches
    ensures Keyed(t.blocks, t.slab) && ListsOk(t.blocks, t.slab, t.caches)
  {
    hide CacheLists, CacheCapacity;
    forall c | 0 <= c < |t.caches| ensures CacheLists(t.blocks, t.slab, c, t.caches[c]) {
      assert CacheLists(s.blocks, s.slab, c, s.caches[c]);
      StampCache(s, t, h, c);
    }
  }

  lemma StampCache(s: Heap, t: Heap, h: nat, c: nat)
    requires Keyed(s.blocks, s.slab) && h in s.blocks && h in t.blocks && c < |s.caches|
    requires t.blocks == s.blocks[h := s.blocks[h].(objectFlag := t.blocks[h].objectFlag, objectCache := t.blocks[h].objectCache)]
    requires CacheLists(s.blocks, s.slab, c, s.caches[c])
    ensures Keyed(t.blocks, s.slab) && CacheLists(t.blocks, s.slab, c, s.caches[c])
  {
    SumFrame(FreeIn(c), s.blocks, t.blocks, s.slab);
    SumFrame(ActiveIn(c), s.blocks, t.blocks, s.slab);
  }

  lemma StampKeeps(s: Heap, k: nat, h: nat)
    requires HeapInv(s) && k < |s.objects| && k < OBJECT_CACHE_COUNT && s.objects[k].configured
    requires h in s.slab && h in s.blocks && !s.blocks[h].free && !s.blocks[h].objectFlag
    ensures HeapInv(Stamp(s, k, h)) && Held(Stamp(s, k, h)) == Held(s)
  {
    hide Layout, NoDuplicates, Inv, ListsOk, SumsOk;
    var t := Stamp(s, k, h);
    assert SlabKind(s.blocks[h]);
    StampSides(s, t, h);
    forall j | 0 <= j < |t.objects| ensures ObjectOk(t.blocks, t.slab, j, t.objects[j]) {
      assert ObjectOk(s.blocks, s.slab, j, s.objects[j]);
      assert Of(ObjectIn(j), t.blocks[h]) == if j == k then 1 else 0;
    }
    TotalActiveUpdate(s.objects, k, t.objects[k]);
  }

  /** A stamped object is counted, so neither counter is clipped at zero. */
  lemma UnstampKeeps(s: Heap, k: nat, h: nat)
    requires HeapInv(s) && k < |s.objects| && k < OBJECT_CACHE_COUNT && s.objects[k].configured && Stamped(s, k, h)
    ensures HeapInv(Unstamp(s, k, h)) && Held(Unstamp(s, k, h)) == Held(s)
    ensures s.objects[k].active > 0 && s.stats.activeObjects > 0
  {
    hide Layout, NoDuplicates, Inv, ListsOk, SumsOk;
    var t := Unstamp(s, k, h);
    assert SlabKind(s.blocks[h]);
    StampSides(s, t, h);
    assert Sum(ObjectIn(k), s.blocks, s.slab) >= Of(ObjectIn(k), s.blocks[h]);
    forall j | 0 <= j < |t.objects| ensures ObjectOk(t.blocks, t.slab, j, t.objects[j]) {
      assert ObjectOk(s.blocks, s.slab, j, s.objects[j]);
      assert Of(ObjectIn(j), t.blocks[h]) == 0;
      assert Of(ObjectIn(j), s.blocks[h]) == if j == k then 1 else 0;
    }
    assert ObjectOk(s.blocks, s.slab, k, s.objects[k]);
    TotalActiveUpdate(s.objects, k, t.objects[k]);
  }

  /** A caller can judge this beforehand: the size does not wrap when rounded, and the cache
      has nothing active. */
  predicate CreateSafe(s: Heap, k: nat, size: nat)
    requires k < |s.objects|
  {
    size <= U64 - 16 && s.objects[k].active == 0
  }

  /** An accepted (re)configuration keeps the heap's invariant exactly when it is safe. */
  lemma CreateObjectCacheExact(s: Heap, k: nat, size: nat)
    requires HeapInv(s) && size < U64 && k < |s.objects|
    ensures var (t, ok) := CreateObjectCache(s, k, size);
            && Held(t) == Held(s)
            && (HeapInv(t) <==> !ok || CreateSafe(s, k, size))
  {
    hide Layout, NoDuplicates, Inv, ListsOk, SumsOk, KindsOk, FreeBytesOk;
    var (t, ok) := CreateObjectCache(s, k, size);
    if ok {
      RawAlignExact(size);
      assert ObjectOk(s.blocks, s.slab, k, s.objects[k]);
      TotalActiveUpdate(s.objects, k, t.objects[k]);
      assert TotalActive(t.objects) + s.objects[k].active == TotalActive(s.objects);
      if size > U64 - 16 {
        assert RawAlign(size) == 0;
        assert !ObjectOk(t.blocks, t.slab, k, t.objects[k]);
      }
      if CreateSafe(s, k, size) {
        forall j | 0 <= j < |t.objects| ensures ObjectOk(t.blocks, t.slab, j, t.objects[j]) {
          assert ObjectOk(s.blocks, s.slab, j, s.objects[j]);
        }
        CreateKeepsRest(s, t);
      }
    }
  }

  lemma CreateKeepsRest(s: Heap, t: Heap)
    requires HeapInv(s) && t == s.(objects := t.objects)
    requires ObjectsOk(t.blocks, t.slab, t.objects, t.stats.activeObjects)
    ensures HeapInv(t)
  {
    hide Layout, NoDuplicates, Inv, ListsOk, ObjectsOk;
  }

  /** An object allocation hands out one new object with room for the cache's size. */
  lemma ObjectAllocExact(s: Heap, k: nat)
    requires HeapInv(s)
    ensures var (t, p) := ObjectAlloc(s, k);
            && HeapInv(t)
            && (p == 0 ==> Held(t) == Held(s))
            && (p != 0 ==>
                  && k < |s.objects| && p >= HEADER && p - HEADER !in Held(s)
                  && Held(t) == Held(s)[p - HEADER := s.objects[k].objectSize]
                  && Stamped(t, k, p - HEADER))
  {
    hide HeapInv, Held, SlabAllocate;
    ObjectCount(s);
    if k >= OBJECT_CACHE_COUNT || !s.objects[k].configured {
      OnlyEvents(s, ObjectAlloc(s, k).0);
    } else {
      var size := s.objects[k].objectSize;
      var c := FindSlabCache(size);
      ObjectAllocReady(s, k);
      SlabAllocateExact(s, c, size);
      var (t, p) := SlabAllocate(s, c, size);
      ObjectCount(t);
      if p != 0 {
        SlabMagicInSlab(t, p - HEADER);
        SlabAllocateObjects(s, c, size);
        HeldIsNotFree(t, p - HEADER);
        StampKeeps(t, k, p - HEADER);
      }
    }
  }

  lemma SlabMagicInSlab(s: Heap, h: nat)
    requires HeapInv(s) && h in s.slab
    ensures h in s.blocks && s.blocks[h].magic == SlabMagic
  {
    assert SlabKind(s.blocks[h]);
  }

  lemma HeldIsNotFree(s: Heap, h: nat)
    ensures h in Held(s) ==> h in s.blocks && !s.blocks[h].free
  {
  }

  lemma SlabAllocateObjects(s: Heap, c: nat, requested: nat)
    requires HeapInv(s) && c < SLAB_CACHE_COUNT
    ensures SlabAllocate(s, c, requested).0.objects == s.objects
  {
    hide HeapInv;
    SlabAllocateReady(s, c);
    CarvePageObjects(AddSlabPage(s.(phys := GrowSlabCache(s, c).0.phys), c, 0), c, 0, 0);
    GrowObjects(s, c);
  }

  lemma {:induction false} CarvePageObjects(s: Heap, c: nat, page: nat, k: nat)
    requires c < |s.caches|
    ensures CarvePage(s, c, page, k).objects == s.objects
    decreases ObjectsPerPage(c) - k
  {
    if k < ObjectsPerPage(c) {
      CarvePageObjects(CarveObject(s, c, ObjectAt(c, page, k)), c, page, k + 1);
    }
  }

  lemma GrowObjects(s: Heap, c: nat)
    requires c < |s.caches|
    ensures GrowSlabCache(s, c).0.objects == s.objects
  {
    hide CarvePage;
    forall t: Heap, page: nat | c < |t.caches| ensures CarvePage(t, c, page, 0).objects == t.objects {
      CarvePageObjects(t, c, page, 0);
    }
  }

  /** An object goes back only through its own cache; anything else is refused and counted. */
  lemma ObjectFreeExact(s: Heap, k: nat, p: nat)
    requires HeapInv(s)
    ensures HeapInv(ObjectFree(s, k, p))
    ensures var accepted := k < |s.objects| && s.objects[k].configured && p >= HEADER && Stamped(s, k, p - HEADER);
            && (accepted ==> p - HEADER in Held(s))
            && Held(ObjectFree(s, k, p)) == if accepted then Held(s) - {p - HEADER} else Held(s)
  {
    hide HeapInv, SlabFree, Unstamp;
    ObjectCount(s);
    if p == 0 {
    } else if k >= OBJECT_CACHE_COUNT || !s.objects[k].configured || p < HEADER || !Stamped(s, k, p - HEADER) {
      OnlyEvents(s, ObjectFree(s, k, p));
    } else {
      StampedIsHeld(s, k, p - HEADER);
      UnstampKeeps(s, k, p - HEADER);
      UnstampSlab(s, k, p - HEADER);
      SlabFreeExact(Unstamp(s, k, p - HEADER), p);
    }
  }

  lemma UnstampSlab(s: Heap, k: nat, h: nat)
    requires k < |s.objects| && h in s.blocks
    ensures Unstamp(s, k, h).slab == s.slab
  {
  }

  lemma ObjectCount(s: Heap)
    requires HeapInv(s)
    ensures |s.objects| == OBJECT_CACHE_COUNT
  {
  }

  lemma StampedIsHeld(s: Heap, k: nat, h: nat)
    requires HeapInv(s) && Stamped(s, k, h)
    ensures h in Held(s)
  {
    assert SlabKind(s.blocks[h]);
  }

  // ----- What a cache is for -----

  /** A cache can be set up exactly at one of the eight places, for a size that is not 0 and at most 256.
      It then has the size rounded up to 16, no objects, and backs them by the smallest slab object that
      holds that; nothing else changes. Sizes that wrap when rounded count as 0 bytes. */
  lemma CreateObjectCacheIs(s: Heap, k: nat, size: nat)
    requires HeapInv(s) && size < U64
    ensures var (t, ok) := CreateObjectCache(s, k, size);
            && (ok <==> k < 8 && size != 0 && (size <= 256 || size > U64 - 16))
            && t == s.(objects := t.objects) && |t.objects| == 8 == |s.objects|
            && (!ok ==> t == s)
            && (forall j :: 0 <= j < 8 && j != k ==> t.objects[j] == s.objects[j])
            && (ok && size <= 256 ==>
                  var o := t.objects[k];
                  && o.configured && o.allocations == 0 && o.frees == 0 && o.active == 0
                  && size <= o.objectSize < size + 16 && o.objectSize % 16 == 0
                  && o.backingSize == (if o.objectSize <= 32 then 32 else if o.objectSize <= 64 then 64
                                       else if o.objectSize <= 128 then 128 else 256))
  {
    hide HeapInv;
    ObjectCount(s);
    RawAlignExact(size);
    SlabCacheIs(RawAlign(size));
    if size <= U64 - 16 {
      RoundedAtMost(size);
    } else {
      assert RawAlign(size) == 0;
    }
  }

  lemma RoundedAtMost(size: nat)
    requires size <= U64 - 16
    ensures RawAlign(size) <= 256 <==> size <= 256
  {
    assert (size + 15) % U64 == size + 15;
  }

  /** An object is handed out exactly when its cache is set up, and the slab cache that backs it has a free
      object or can have a page; it has room for the cache's object size. */
  lemma ObjectAllocSucceeds(s: Heap, k: nat)
    requires HeapInv(s)
    ensures |s.objects| == 8 && |s.caches| == 4
    ensures var (t, p) := ObjectAlloc(s, k);
            && (p != 0 <==> k < 8 && s.objects[k].configured
                            && (s.phys.free != [] || s.caches[FindSlabCache(s.objects[k].objectSize)].list != []))
            && (p != 0 ==> p >= 56 && p - 56 in t.blocks && t.blocks[p - 56].size >= s.objects[k].objectSize
                           && t.blocks[p - 56].requested == s.objects[k].objectSize && t.blocks[p - 56].objectCache == k)
  {
    hide HeapInv, SlabAllocate, Held;
    ObjectCount(s);
    CacheCount(s);
    if k < 8 && s.objects[k].configured {
      var size := s.objects[k].objectSize;
      var c := FindSlabCache(size);
      ObjectAllocReady(s, k);
      SlabAllocateExact(s, c, size);
      SlabAllocateIs(s, c, size);
      var (t, p) := SlabAllocate(s, c, size);
      ObjectCount(t);
      if p != 0 {
        SlabMagicInSlab(t, p - HEADER);
      }
    }
  }
}
