/** The value of the kernel heap, and its invariant. */
module HeapState {
  import opened Collections
  import opened PhysicalMemorySpec
  import opened HeapLayout
  import opened HeapBlocks

  /** Slab statistics with the free list, as the headers of its objects from the head on. */
  datatype SlabCache = SlabCache(
    objectSize: nat,
    statsObjectSize: nat,
    objectsPerPage: nat,
    pages: nat,
    active: nat,
    freeCount: nat,
    list: seq<nat>)

  datatype ObjectCache = ObjectCache(
    configured: bool,
    objectSize: nat,
    backingSize: nat,
    allocations: nat,
    frees: nat,
    active: nat)

  datatype Stats = Stats(
    heapPages: nat,
    freeBytes: nat,
    allocatedBytes: nat,
    requestedBytes: nat,
    activeAllocations: nat,
    activeRaw: nat,
    activeSlab: nat,
    leakCounter: nat,
    leakBytes: nat,
    activeObjects: nat,
    coalesceCount: nat,
    failedAllocations: nat,
    invalidFrees: nat,
    doubleFrees: nat)

  /** `raw` is the block list from its head, `slab` the slab objects in the order they were
      carved; the two page sets are the pages the heap took for each. */
  datatype Heap = Heap(
    blocks: Blocks,
    raw: seq<nat>,
    slab: seq<nat>,
    rawPages: set<nat>,
    slabPages: set<nat>,
    caches: seq<SlabCache>,
    objects: seq<ObjectCache>,
    stats: Stats,
    phys: Phys)

  function SlabSize(c: nat): nat {
    if c == 0 then 32 else if c == 1 then 64 else if c == 2 then 128 else 256
  }

  /** Subtraction that stops at zero, as the byte counters do. */
  function Sub(a: nat, b: nat): nat {
    if a >= b then a - b else 0
  }

  ghost predicate Keyed(blocks: Blocks, list: seq<nat>) {
    forall a :: a in list ==> a in blocks
  }

  ghost predicate PagesOk(s: Heap) {
    && Inv(s.phys)
    && s.rawPages + s.slabPages <= s.phys.used
  }

  ghost predicate LayoutOk(s: Heap) {
    && NoDuplicates(s.raw) && NoDuplicates(s.slab)
    && Keyed(s.blocks, s.raw) && Keyed(s.blocks, s.slab)
    && Layout(Sizes(s.blocks), Members(s.raw), Members(s.slab), s.rawPages, s.slabPages)
  }

  predicate RawKind(a: nat, b: Info) {
    && b.magic == RawMagic && !b.objectFlag
    && (b.free ==> b.requested == 0)
    && b.requested <= b.size
    && a % 8 == 0 && b.size % 8 == 0
  }

  predicate SlabKind(b: Info) {
    && b.magic == SlabMagic && b.slabCache < SLAB_CACHE_COUNT && b.size == SlabSize(b.slabCache)
    && (b.free ==> b.requested == 0 && !b.objectFlag)
    && b.requested <= b.size
    && (b.objectFlag ==> b.objectCache < OBJECT_CACHE_COUNT)
  }

  ghost predicate KindsOk(s: Heap)
    requires Keyed(s.blocks, s.raw) && Keyed(s.blocks, s.slab)
  {
    && (forall a :: a in s.raw ==> RawKind(a, s.blocks[a]))
    && (forall a :: a in s.slab ==> SlabKind(s.blocks[a]))
  }

  ghost function Total(m: Measure, s: Heap): nat
    requires Keyed(s.blocks, s.raw) && Keyed(s.blocks, s.slab)
  {
    Sum(m, s.blocks, s.raw) + Sum(m, s.blocks, s.slab)
  }

  /** Every counter of the statistics is the sum it stands for, and the raw blocks with their
      headers add up to the raw pages. */
  ghost predicate SumsOk(s: Heap)
    requires Keyed(s.blocks, s.raw) && Keyed(s.blocks, s.slab)
  {
    && s.stats.allocatedBytes == Total(Allocated, s)
    && s.stats.requestedBytes == Total(Requested, s)
    && s.stats.activeRaw == Sum(Active, s.blocks, s.raw)
    && s.stats.activeSlab == Sum(Active, s.blocks, s.slab)
    && s.stats.activeAllocations == s.stats.activeRaw + s.stats.activeSlab
    && s.stats.leakCounter == s.stats.activeAllocations
    && s.stats.leakBytes == s.stats.requestedBytes
    && Sum(Span, s.blocks, s.raw) == PAGE_SIZE * |s.rawPages|
    && s.stats.heapPages == |s.rawPages| + |s.slabPages|
  }

  /** FreeBytes is not the sum of the free blocks: it misses the header reclaimed by each
      coalesce. It never exceeds the truth, and lags by at most those headers. */
  ghost predicate FreeBytesOk(s: Heap)
    requires Keyed(s.blocks, s.raw) && Keyed(s.blocks, s.slab)
  {
    s.stats.freeBytes <= Total(FreeSize, s) <= s.stats.freeBytes + HEADER * s.stats.coalesceCount
  }

  /** One slab cache: its list holds exactly its free objects, each once, and its counters
      are the numbers of its free and active objects. */
  ghost predicate CacheLists(blocks: Blocks, slab: seq<nat>, c: nat, k: SlabCache)
    requires Keyed(blocks, slab)
  {
    && k.objectSize == SlabSize(c) == k.statsObjectSize
    && NoDuplicates(k.list)
    && (forall h :: h in k.list <==> h in slab && blocks[h].free && blocks[h].slabCache == c)
    && k.freeCount == |k.list| == Sum(FreeIn(c), blocks, slab)
    && k.active == Sum(ActiveIn(c), blocks, slab)
  }

  function ObjectsPerPage(c: nat): nat {
    PAGE_SIZE / (SlabSize(c) + HEADER)
  }

  /** Free and active objects fill the cache's pages, but for `missing` of them. */
  predicate CacheCapacity(c: nat, k: SlabCache, missing: nat) {
    && k.freeCount + k.active + missing == k.pages * k.objectsPerPage
    && (k.pages > 0 ==> k.objectsPerPage == ObjectsPerPage(c))
  }

  /** The slab caches are in order, except that cache `short` lacks `missing` objects of the
      page it is being given. */
  ghost predicate ListsShort(blocks: Blocks, slab: seq<nat>, caches: seq<SlabCache>, short: nat, missing: nat)
    requires Keyed(blocks, slab)
  {
    && |caches| == SLAB_CACHE_COUNT
    && (forall c :: 0 <= c < |caches| ==> CacheLists(blocks, slab, c, caches[c]))
    && (forall c :: 0 <= c < |caches| ==> CacheCapacity(c, caches[c], if c == short then missing else 0))
  }

  ghost predicate ListsOk(blocks: Blocks, slab: seq<nat>, caches: seq<SlabCache>)
    requires Keyed(blocks, slab)
  {
    ListsShort(blocks, slab, caches, 0, 0)
  }

  function TotalActive(objects: seq<ObjectCache>): nat {
    if objects == [] then 0
    else TotalActive(objects[..|objects| - 1]) +
         (if objects[|objects| - 1].configured then objects[|objects| - 1].active else 0)
  }

  /** One object cache: at least as many active as flagged objects (a plain kfree takes the
      flag but not the count), and every allocation is active or freed. */
  ghost predicate ObjectOk(blocks: Blocks, slab: seq<nat>, k: nat, o: ObjectCache)
    requires Keyed(blocks, slab)
  {
    && (o.configured ==> 0 < o.objectSize <= o.backingSize <= SlabSize(SLAB_CACHE_COUNT - 1))
    && (!o.configured ==> o.active == 0)
    && o.active + o.frees == o.allocations
    && Sum(ObjectIn(k), blocks, slab) <= o.active
  }

  ghost predicate ObjectsOk(blocks: Blocks, slab: seq<nat>, objects: seq<ObjectCache>, active: nat)
    requires Keyed(blocks, slab)
  {
    && |objects| == OBJECT_CACHE_COUNT
    && (forall k :: 0 <= k < |objects| ==> ObjectOk(blocks, slab, k, objects[k]))
    && active == TotalActive(objects)
  }

  ghost predicate HeapInv(s: Heap) {
    && PagesOk(s)
    && LayoutOk(s)
    && KindsOk(s)
    && SumsOk(s)
    && FreeBytesOk(s)
    && ListsOk(s.blocks, s.slab, s.caches)
    && ObjectsOk(s.blocks, s.slab, s.objects, s.stats.activeObjects)
  }

  // ----- Live allocations -----

  /** The allocations a caller holds, by header: the bytes each was asked for. */
  ghost function Held(s: Heap): map<nat, nat> {
    map a | a in s.blocks && !s.blocks[a].free :: s.blocks[a].requested
  }

  /** No two payloads in use share a byte, each holds what was asked for, and each lies in
      pages the heap took from the physical allocator. */
  lemma LivePayloadsApart(s: Heap, a: nat, b: nat)
    requires HeapInv(s) && a in Held(s) && b in Held(s) && a < b
    ensures a + HEADER + Held(s)[a] <= b
    ensures forall x: nat :: a <= x < a + HEADER + Held(s)[a] ==> AlignDown(x) in s.phys.used && AlignDown(x) !in s.phys.free
  {
    var sizes := Sizes(s.blocks);
    assert a in sizes && b in sizes;
    assert End(sizes, a) <= b;
    assert a in Members(s.raw) + Members(s.slab);
    assert s.blocks[a].requested <= s.blocks[a].size;
    CoveredPages(sizes, Members(s.raw), Members(s.slab), s.rawPages, s.slabPages, a);
    forall x: nat | a <= x < a + HEADER + Held(s)[a]
      ensures AlignDown(x) in s.phys.used && AlignDown(x) !in s.phys.free
    {
      assert Covers(sizes, a, x);
    }
  }

  /** Raw blocks tile the raw pages: every byte there lies in exactly one block. */
  lemma RawPagesTiled(s: Heap, x: nat)
    requires HeapInv(s) && AlignDown(x) in s.rawPages
    ensures exists a :: a in s.raw && Covers(Sizes(s.blocks), a, x)
    ensures forall a, b :: Covers(Sizes(s.blocks), a, x) && Covers(Sizes(s.blocks), b, x) ==> a == b
  {
    var a :| a in Members(s.raw) && Covers(Sizes(s.blocks), a, x);
    assert a in s.raw;
  }
}
