/** Start-up, whole runs of the heap, and what its self-check computes. */
module HeapRun {
  import opened Collections
  import opened PhysicalMemorySpec
  import PhysicalRun
  import opened PhysicalConstraintsSpec
  import opened HeapLayout
  import opened HeapBlocks
  import opened HeapPages
  import opened HeapState
  import opened HeapRaw
  import opened HeapSlab
  import opened HeapApi
  import opened HeapObjects

  // ----- Start-up -----

  lemma ResetInv(phys: Phys)
    requires Inv(phys)
    ensures HeapInv(Reset(phys)) && Held(Reset(phys)) == map[]
  {
    hide Inv;
    var s := Reset(phys);
    forall c | 0 <= c < |s.caches| ensures CacheLists(s.blocks, s.slab, c, s.caches[c]) {}
    forall k | 0 <= k < |s.objects| ensures ObjectOk(s.blocks, s.slab, k, s.objects[k]) {}
    ResetTotal(s.objects);
  }

  lemma {:induction false} ResetTotal(objects: seq<ObjectCache>)
    requires forall k :: 0 <= k < |objects| ==> !objects[k].configured
    ensures TotalActive(objects) == 0
  {
    if objects != [] { ResetTotal(objects[..|objects| - 1]); }
  }

  /** Start-up primes the raw heap with one allocation of half a page and frees it again. */
  ghost function HeapInit(phys: Phys): (Heap, bool)
    requires Inv(phys)
  {
    ResetInv(phys);
    Prime(Reset(phys))
  }

  ghost function Prime(s: Heap): (Heap, bool)
    requires HeapInv(s)
  {
    KeyedInHeapInv(s);
    var (t, seed) := AllocateRaw(s, PAGE_SIZE / 2, false);
    AllocateRawExact(s, PAGE_SIZE / 2, false);
    if seed == 0 then (t, false) else (FreeSeed(t, seed), true)
  }

  ghost function FreeSeed(s: Heap, seed: nat): Heap
    requires HeapInv(s)
  {
    KeyedInHeapInv(s);
    FreeRaw(s, seed)
  }

  /** The heap starts in its invariant with nothing allocated. */
  lemma HeapInitEstablishes(phys: Phys)
    requires Inv(phys)
    ensures HeapInv(HeapInit(phys).0) && Held(HeapInit(phys).0) == map[]
  {
    hide HeapInv, AllocateRaw, FreeRaw, Held, Reset;
    ResetInv(phys);
    var s := Reset(phys);
    KeyedInHeapInv(s);
    AllocateRawExact(s, PAGE_SIZE / 2, false);
    var (t, seed) := AllocateRaw(s, PAGE_SIZE / 2, false);
    if seed != 0 {
      AllocateThenFreeRaw(s, PAGE_SIZE / 2, false);
    }
  }

  // ----- Runs -----

  datatype Op =
    | Malloc(size: nat)
    | Free(pointer: nat)
    | Realloc(pointer: nat, size: nat)
    | Calloc(count: nat, size: nat)
    | AllocCritical(size: nat, guardTag: nat)
    | CreateCache(k: nat, size: nat)
    | ObjectTake(k: nat)
    | ObjectGive(k: nat, pointer: nat)
    | Elsewhere(op: PhysicalRun.Op)

  /** A critical allocation is followed by a page for its guard, which the heap never returns. */
  ghost function AllocateCritical(s: Heap, size: nat, guardTag: nat): (Heap, nat)
    requires HeapInv(s)
  {
    var (t, p) := AllocateRaw(s, size, true);
    if p == 0 then (t, 0) else (t.(phys := TakeHeapPage(t.phys, guardTag).0), p)
  }

  ghost function Step(s: Heap, op: Op): Heap
    requires HeapInv(s) && Safe(s, op)
  {
    match op
    case Malloc(size) => Kmalloc(s, size).0
    case Free(p) => Kfree(s, p)
    case Realloc(p, size) => Krealloc(s, p, size).0
    case Calloc(count, size) => Kcalloc(s, count, size).0
    case AllocCritical(size, tag) => AllocateCritical(s, size, tag).0
    case CreateCache(k, size) => CreateObjectCache(s, k, size).0
    case ObjectTake(k) => ObjectAlloc(s, k).0
    case ObjectGive(k, p) => ObjectFree(s, k, p)
    case Elsewhere(pop) => s.(phys := PhysicalRun.Step(s.phys, pop))
  }

  /** What the heap asks of its surroundings: requests that do not wrap, no reconfiguring of a
      cache in use, and that the rest of the kernel does not give the heap's pages away. */
  ghost predicate Safe(s: Heap, op: Op) {
    match op
    case Malloc(size) => size <= MAX_REQUEST
    case Realloc(_, size) => size <= MAX_REQUEST
    case Calloc(count, size) => count * size < U64 ==> count * size <= MAX_REQUEST
    case AllocCritical(size, _) => size <= MAX_REQUEST
    case CreateCache(k, size) => size < U64 && (k < |s.objects| ==> CreateSafe(s, k, size))
    case Elsewhere(pop) =>
      PhysicalRun.Safe(s.phys, pop) && s.rawPages + s.slabPages <= PhysicalRun.Step(s.phys, pop).used
    case _ => true
  }

  lemma CriticalKeeps(s: Heap, size: nat, guardTag: nat)
    requires HeapInv(s) && size <= MAX_REQUEST
    ensures Allocates(s, AllocateCritical(s, size, guardTag).0, AllocateCritical(s, size, guardTag).1, size)
  {
    hide HeapInv, AllocateRaw, Held, TakeHeapPage;
    KeyedInHeapInv(s);
    AllocateRawExact(s, size, true);
    var (t, p) := AllocateRaw(s, size, true);
    if p != 0 {
      PhysInHeapInv(t);
      TakeHeapPageKeeps(t.phys, guardTag);
      PhysReplaced(t, TakeHeapPage(t.phys, guardTag).0);
    }
  }

  lemma PhysInHeapInv(s: Heap)
    requires HeapInv(s)
    ensures Inv(s.phys) && s.rawPages + s.slabPages <= s.phys.used
  {
  }

  /** The heap does not mind what happens to pages that are not its own. */
  lemma PhysReplaced(s: Heap, phys: Phys)
    requires HeapInv(s) && Inv(phys) && s.rawPages + s.slabPages <= phys.used
    ensures HeapInv(s.(phys := phys)) && Held(s.(phys := phys)) == Held(s)
  {
    hide Inv, Layout, ListsOk, ObjectsOk;
  }

  lemma StepKeeps(s: Heap, op: Op)
    requires HeapInv(s) && Safe(s, op)
    ensures HeapInv(Step(s, op))
  {
    hide HeapInv, Kmalloc, Kfree, Krealloc, Kcalloc, AllocateCritical, CreateObjectCache, ObjectAlloc, ObjectFree,
      PhysicalRun.Step, PhysicalRun.Safe, Held;
    match op
    case Malloc(size) => KmallocExact(s, size);
    case Free(p) => KfreeExact(s, p);
    case Realloc(p, size) => KreallocKeeps(s, p, size);
    case Calloc(count, size) => KcallocExact(s, count, size);
    case AllocCritical(size, tag) => CriticalKeeps(s, size, tag);
    case CreateCache(k, size) => CreateKeeps(s, k, size);
    case ObjectTake(k) => ObjectAllocExact(s, k);
    case ObjectGive(k, p) => ObjectFreeExact(s, k, p);
    case Elsewhere(pop) =>
      PhysInHeapInv(s);
      PhysicalRun.StepExact(s.phys, pop);
      PhysReplaced(s, PhysicalRun.Step(s.phys, pop));
  }

  lemma CreateKeeps(s: Heap, k: nat, size: nat)
    requires HeapInv(s) && size < U64 && (k < |s.objects| ==> CreateSafe(s, k, size))
    ensures HeapInv(CreateObjectCache(s, k, size).0)
  {
    hide HeapInv;
    if k < |s.objects| { CreateObjectCacheExact(s, k, size); }
  }

  ghost predicate SafeRun(s: Heap, ops: seq<Op>)
    requires HeapInv(s)
    decreases |ops|
  {
    ops != [] ==>
      && Safe(s, ops[0])
      && (StepKeeps(s, ops[0]); SafeRun(Step(s, ops[0]), ops[1..]))
  }

  ghost function Run(s: Heap, ops: seq<Op>): Heap
    requires HeapInv(s) && SafeRun(s, ops)
    decreases |ops|
  {
    if ops == [] then s else (StepKeeps(s, ops[0]); Run(Step(s, ops[0]), ops[1..]))
  }

  lemma {:induction false} RunKeeps(s: Heap, ops: seq<Op>)
    requires HeapInv(s) && SafeRun(s, ops)
    ensures HeapInv(Run(s, ops))
    decreases |ops|
  {
    hide HeapInv, Step, Safe;
    if ops != [] {
      StepKeeps(s, ops[0]);
      RunKeeps(Step(s, ops[0]), ops[1..]);
    }
  }

  // ----- The self-check -----

  /** What the self-check recomputes and compares, on the heap's value. */
  ghost predicate ChecksHold(s: Heap)
    requires Keyed(s.blocks, s.raw) && Keyed(s.blocks, s.slab)
  {
    && (forall a :: a in s.raw ==> s.blocks[a].magic == RawMagic)
    && |s.caches| == SLAB_CACHE_COUNT && |s.objects| == OBJECT_CACHE_COUNT
    && (forall c :: 0 <= c < |s.caches| ==> CacheCheck(s.caches[c]))
    && Sum(Allocated, s.blocks, s.raw) + SlabBytes(s.caches) == s.stats.allocatedBytes
    && Sum(Active, s.blocks, s.raw) + SlabActive(s.caches) == s.stats.activeAllocations
    && Sum(Active, s.blocks, s.raw) == s.stats.activeRaw
    && SlabActive(s.caches) == s.stats.activeSlab
    && Sum(Requested, s.blocks, s.raw) <= s.stats.requestedBytes
    && s.stats.leakCounter == s.stats.activeAllocations
    && s.stats.leakBytes == s.stats.requestedBytes
    && (forall k :: 0 <= k < |s.objects| ==> ObjectCheck(s.objects[k]))
    && TotalActive(s.objects) == s.stats.activeObjects
  }

  predicate CacheCheck(k: SlabCache) {
    k.objectSize != 0 && k.statsObjectSize == k.objectSize && k.freeCount + k.active <= k.pages * k.objectsPerPage
  }

  predicate ObjectCheck(o: ObjectCache) {
    o.configured ==>
      o.objectSize != 0 && o.backingSize >= o.objectSize && o.active <= o.allocations && o.frees <= o.allocations
  }

  function SlabBytes(caches: seq<SlabCache>): nat {
    if caches == [] then 0
    else SlabBytes(caches[..|caches| - 1]) + caches[|caches| - 1].active * caches[|caches| - 1].objectSize
  }

  function SlabActive(caches: seq<SlabCache>): nat {
    if caches == [] then 0 else SlabActive(caches[..|caches| - 1]) + caches[|caches| - 1].active
  }

  /** Active objects, and their bytes, counted cache by cache and object by object agree. */
  lemma {:induction false} SlabTotals(blocks: Blocks, slab: seq<nat>)
    requires Keyed(blocks, slab) && forall a :: a in slab ==> SlabKind(blocks[a])
    ensures Sum(Active, blocks, slab)
         == Sum(ActiveIn(0), blocks, slab) + Sum(ActiveIn(1), blocks, slab) + Sum(ActiveIn(2), blocks, slab) + Sum(ActiveIn(3), blocks, slab)
    ensures Sum(Allocated, blocks, slab)
         == 32 * Sum(ActiveIn(0), blocks, slab) + 64 * Sum(ActiveIn(1), blocks, slab)
            + 128 * Sum(ActiveIn(2), blocks, slab) + 256 * Sum(ActiveIn(3), blocks, slab)
  {
    if slab != [] {
      assert slab[0] in slab && SlabKind(blocks[slab[0]]);
      SlabTotals(blocks, slab[1..]);
    }
  }

  lemma SlabSumsOfFour(caches: seq<SlabCache>)
    requires |caches| == 4
    ensures SlabActive(caches) == caches[0].active + caches[1].active + caches[2].active + caches[3].active
    ensures SlabBytes(caches) == caches[0].active * caches[0].objectSize + caches[1].active * caches[1].objectSize
                                 + caches[2].active * caches[2].objectSize + caches[3].active * caches[3].objectSize
  {
    var c3, c2, c1 := caches[..3], caches[..2], caches[..1];
    assert c3[..2] == c2 && c2[..1] == c1 && c1[..0] == [];
    assert SlabActive(c1) == caches[0].active && SlabBytes(c1) == caches[0].active * caches[0].objectSize;
    assert SlabActive(c2) == SlabActive(c1) + caches[1].active;
    assert SlabBytes(c2) == SlabBytes(c1) + caches[1].active * caches[1].objectSize;
    assert SlabActive(c3) == SlabActive(c2) + caches[2].active;
    assert SlabBytes(c3) == SlabBytes(c2) + caches[2].active * caches[2].objectSize;
  }

  lemma CacheChecks(s: Heap, c: nat)
    requires HeapInv(s) && c < SLAB_CACHE_COUNT
    ensures |s.caches| == SLAB_CACHE_COUNT && CacheCheck(s.caches[c])
    ensures s.caches[c].active == Sum(ActiveIn(c), s.blocks, s.slab) && s.caches[c].objectSize == SlabSize(c)
  {
    hide Layout, NoDuplicates, Inv, SumsOk, ObjectsOk, FreeBytesOk, KindsOk;
    assert CacheLists(s.blocks, s.slab, c, s.caches[c]);
    assert CacheCapacity(c, s.caches[c], 0);
  }

  lemma SlabSideChecks(s: Heap)
    requires HeapInv(s)
    ensures |s.caches| == SLAB_CACHE_COUNT && forall c :: 0 <= c < |s.caches| ==> CacheCheck(s.caches[c])
    ensures SlabActive(s.caches) == Sum(Active, s.blocks, s.slab)
    ensures SlabBytes(s.caches) == Sum(Allocated, s.blocks, s.slab)
  {
    assert Keyed(s.blocks, s.slab) && forall a :: a in s.slab ==> SlabKind(s.blocks[a]);
    hide HeapInv, CacheCheck, Sum;
    CacheChecks(s, 0);
    CacheChecks(s, 1);
    CacheChecks(s, 2);
    CacheChecks(s, 3);
    SlabTotals(s.blocks, s.slab);
    SlabSumsOfFour(s.caches);
  }

  /** In every state of the invariant, everything the self-check compares agrees. */
  lemma InvariantPassesChecks(s: Heap)
    requires HeapInv(s)
    ensures Keyed(s.blocks, s.raw) && Keyed(s.blocks, s.slab) && ChecksHold(s)
  {
    hide Layout, NoDuplicates, Inv, CacheLists, CacheCapacity;
    SlabSideChecks(s);
    forall a | a in s.raw ensures s.blocks[a].magic == RawMagic {
      assert RawKind(a, s.blocks[a]);
    }
    forall k | 0 <= k < |s.objects| ensures ObjectCheck(s.objects[k]) {
      assert ObjectOk(s.blocks, s.slab, k, s.objects[k]);
    }
  }

  /** And the self-check notices any one counter that is off: each of the seven it compares, in a heap that
      is otherwise in its invariant; the requested bytes only when there are too few of them. */
  lemma WrongCountNoticed(s: Heap, x: nat)
    requires HeapInv(s)
    ensures Keyed(s.blocks, s.raw) && Keyed(s.blocks, s.slab)
    ensures x != s.stats.allocatedBytes ==> !ChecksHold(s.(stats := s.stats.(allocatedBytes := x)))
    ensures x != s.stats.activeAllocations ==> !ChecksHold(s.(stats := s.stats.(activeAllocations := x, leakCounter := x)))
    ensures x != s.stats.activeRaw ==> !ChecksHold(s.(stats := s.stats.(activeRaw := x)))
    ensures x != s.stats.activeSlab ==> !ChecksHold(s.(stats := s.stats.(activeSlab := x)))
    ensures x != s.stats.leakCounter ==> !ChecksHold(s.(stats := s.stats.(leakCounter := x)))
    ensures x != s.stats.leakBytes ==> !ChecksHold(s.(stats := s.stats.(leakBytes := x)))
    ensures x != s.stats.activeObjects ==> !ChecksHold(s.(stats := s.stats.(activeObjects := x)))
    ensures x < Sum(Requested, s.blocks, s.raw) ==> !ChecksHold(s.(stats := s.stats.(requestedBytes := x, leakBytes := x)))
  {
    hide HeapInv, CacheCheck, ObjectCheck, Sum, SlabBytes, SlabActive, TotalActive;
    InvariantPassesChecks(s);
  }

  /** It notices a header that is not a raw block's, and a cache that counts more objects than its pages
      hold. */
  lemma WrongBlockNoticed(s: Heap, a: nat, b: Info, c: nat, k: SlabCache)
    requires HeapInv(s) && a in s.raw && b.magic != RawMagic
    requires c < |s.caches| && k.freeCount + k.active > k.pages * k.objectsPerPage
    ensures Keyed(s.blocks, s.raw) && Keyed(s.blocks, s.slab)
    ensures !ChecksHold(s.(blocks := s.blocks[a := b])) && !ChecksHold(s.(caches := s.caches[c := k]))
  {
    hide HeapInv, ObjectCheck, Sum, SlabBytes, SlabActive, TotalActive;
    InvariantPassesChecks(s);
    assert s.caches[c := k][c] == k;
  }

  /** After any run from start-up: what callers hold never overlaps and lies in pages that are
      the heap's; raw blocks with their headers add up to the raw pages; and the self-check's
      comparisons all agree. */
  lemma EveryHeapRun(phys: Phys, ops: seq<Op>)
    requires Inv(phys) && HeapInv(HeapInit(phys).0) && SafeRun(HeapInit(phys).0, ops)
    ensures var t := Run(HeapInit(phys).0, ops);
            && HeapInv(t)
            && (forall a, b :: a in Held(t) && b in Held(t) && a < b ==> a + HEADER + Held(t)[a] <= b)
            && Keyed(t.blocks, t.raw) && Keyed(t.blocks, t.slab)
            && Sum(Span, t.blocks, t.raw) == PAGE_SIZE * |t.rawPages|
            && ChecksHold(t)
  {
    hide HeapInv, Run, SafeRun, Held, ChecksHold, HeapInit;
    var s := HeapInit(phys).0;
    RunKeeps(s, ops);
    var t := Run(s, ops);
    InvariantPassesChecks(t);
    SpanInInv(t);
    forall a, b | a in Held(t) && b in Held(t) && a < b ensures a + HEADER + Held(t)[a] <= b {
      LivePayloadsApart(t, a, b);
    }
  }

  lemma SpanInInv(s: Heap)
    requires HeapInv(s)
    ensures Keyed(s.blocks, s.raw) && Sum(Span, s.blocks, s.raw) == PAGE_SIZE * |s.rawPages|
  {
  }

  // ----- Start-up, critical blocks and object caches -----

  /** Start-up succeeds exactly when a page is free. Its seed block was split and joined again: what is left
      is one free block on the last free page, with all its bytes but the header. */
  lemma StartLeavesOneBlock(phys: Phys)
    requires Inv(phys)
    ensures var (t, ok) := HeapInit(phys);
            && (ok <==> phys.free != [])
            && (ok ==> var page := phys.free[|phys.free| - 1];
                  t.raw == [page] && t.blocks == map[page := Info(RawMagic, 4040, 0, true, false, false, 0, 0xFFFFFFFF)])
  {
    hide Inv, HeapInv, AllocateRaw, FreeRaw, Reset, Held;
    ResetInv(phys);
    var s := Reset(phys);
    KeyedInHeapInv(s);
    SeedAllocated(phys);
    var (t, p) := AllocateRaw(s, 2048, false);
    AllocateRawExact(s, 2048, false);
    if p != 0 {
      FreeJoinsNext(t, 0);
      SeedJoined(t, FreeRaw(t, p), p - 56);
    }
  }

  lemma SeedAllocated(phys: Phys)
    requires Inv(phys)
    ensures Keyed(Reset(phys).blocks, Reset(phys).raw)
    ensures var (t, p) := AllocateRaw(Reset(phys), 2048, false);
            && (p != 0 <==> phys.free != [])
            && (p != 0 ==>
                  && p >= 56 && p - 56 == phys.free[|phys.free| - 1]
                  && t.raw == [p - 56, p + 2048]
                  && t.blocks == map[p - 56 := Info(RawMagic, 2048, 2048, false, false, false, 0, 0xFFFFFFFF),
                                     p + 2048 := Info(RawMagic, 1936, 0, true, false, false, 0, 0xFFFFFFFF)])
  {
    hide Inv, HeapInv, AllocateRaw, Reset, Grown, EndsInRun;
    ResetInv(phys);
    ResetIs(phys);
    var s := Reset(phys);
    AllocateGrows(s, 2048, false, 2048, 1);
    OnePageSpan(phys);
    var (t, p) := AllocateRaw(s, 2048, false);
    if phys.free != [] {
      assert EndsInRun(s.phys, 1, phys.free[|phys.free| - 1]);
    }
    if p != 0 {
      SeedSplit(s, t, p - 56);
    }
  }

  lemma ResetIs(phys: Phys)
    ensures Reset(phys).raw == [] && Reset(phys).blocks == map[] && Reset(phys).phys == phys
  {
  }

  lemma OnePageSpan(phys: Phys)
    ensures forall b: nat :: EndsInRun(phys, 1, b) <==> phys.free != [] && b == phys.free[|phys.free| - 1]
  {
    forall b: nat ensures EndsInRun(phys, 1, b) <==> phys.free != [] && b == phys.free[|phys.free| - 1] {
      assert PageRun(b, 1) == {b} by {
        assert b + 0 * PAGE_SIZE in PageRun(b, 1);
      }
      if phys.free != [] {
        assert phys.free[|phys.free| - 1..] == [phys.free[|phys.free| - 1]];
        assert Members([phys.free[|phys.free| - 1]]) == {phys.free[|phys.free| - 1]};
      }
    }
  }

  lemma SeedSplit(s: Heap, t: Heap, page: nat)
    requires s.raw == [] && s.blocks == map[] && Grown(s, t, page, 1, false, 2048, 2048)
    ensures t.raw == [page, page + 2104]
    ensures t.blocks == map[page := Info(RawMagic, 2048, 2048, false, false, false, 0, 0xFFFFFFFF),
                            page + 2104 := Info(RawMagic, 1936, 0, true, false, false, 0, 0xFFFFFFFF)]
  {
  }

  lemma SeedJoined(t: Heap, u: Heap, page: nat)
    requires t.raw == [page, page + 2104] && page in t.blocks && page + 2104 in t.blocks
    requires t.blocks.Keys == {page, page + 2104}
    requires u.raw == t.raw[..1] + t.raw[2..] && u.blocks.Keys == t.blocks.Keys - {page + 2104}
    requires page in u.blocks && u.blocks[page] == Info(RawMagic, 4040, 0, true, false, false, 0, 0xFFFFFFFF)
    ensures u.raw == [page] && u.blocks == map[page := Info(RawMagic, 4040, 0, true, false, false, 0, 0xFFFFFFFF)]
  {
  }

  /** A critical allocation comes from a critical block, and takes one more page from the allocator for its
      guard if it succeeds and a page is left; the heap does not count that page as its own. */
  lemma CriticalIs(s: Heap, size: nat, guardTag: nat)
    requires HeapInv(s) && size <= MAX_REQUEST
    ensures Keyed(s.blocks, s.raw)
    ensures var (t, p) := AllocateCritical(s, size, guardTag);
            var (u, q) := AllocateRaw(s, size, true);
            && p == q && t == u.(phys := t.phys)
            && (p == 0 ==> t == u)
            && (p != 0 && u.phys.free == [] ==> t == u)
            && (p != 0 && u.phys.free != [] ==>
                  && t.phys.free == u.phys.free[..|u.phys.free| - 1]
                  && OwnerOnRecord(t.phys, u.phys.free[|u.phys.free| - 1], 3, guardTag))
  {
    hide HeapInv, AllocateRaw, TakeHeapPage, OwnerOnRecord;
    KeyedInHeapInv(s);
    AllocateRawExact(s, size, true);
    var (u, q) := AllocateRaw(s, size, true);
    if q != 0 {
      PhysInHeapInv(u);
      TakeHeapPageIs(u.phys, guardTag);
    }
  }

  /** How a cache is set up changes only when it is set up again. */
  lemma CacheStays(s: Heap, op: Op, k: nat)
    requires HeapInv(s) && Safe(s, op) && k < |s.objects| && !(op.CreateCache? && op.k == k)
    ensures var t := Step(s, op);
            |t.objects| == |s.objects| && t.objects[k].configured == s.objects[k].configured
            && t.objects[k].objectSize == s.objects[k].objectSize && t.objects[k].backingSize == s.objects[k].backingSize
  {
    hide HeapInv, AllocateRaw, FreeRaw, SlabAllocate, SlabFree, TakeHeapPage;
    KeyedInHeapInv(s);
    match op
    case Malloc(size) => KmallocObjects(s, size);
    case Free(p) => KfreeObjects(s, p);
    case Realloc(p, size) =>
      KmallocObjects(s, size);
      KmallocExact(s, size);
      KfreeObjects(s, p);
      KfreeObjects(Kmalloc(s, size).0, p);
    case Calloc(count, size) =>
      if count * size <= MAX_REQUEST { KmallocObjects(s, count * size); }
      ProductFits(count, size);
    case AllocCritical(size, tag) => RawObjects(s, size, true);
    case CreateCache(j, size) =>
    case ObjectTake(j) =>
      if j < |s.objects| && s.objects[j].configured {
        ObjectAllocReady(s, j);
        SlabAllocateObjects(s, FindSlabCache(s.objects[j].objectSize), s.objects[j].objectSize);
      }
    case ObjectGive(j, p) =>
      if p >= HEADER && j < |s.objects| && s.objects[j].configured && Stamped(s, j, p - HEADER) {
        ObjectCount(s);
        UnstampKeeps(s, j, p - HEADER);
        SlabFreeObjects(Unstamp(s, j, p - HEADER), p);
      }
    case Elsewhere(pop) =>
  }

  lemma RawObjects(s: Heap, size: nat, critical: bool)
    requires Keyed(s.blocks, s.raw)
    ensures AllocateRaw(s, size, critical).0.objects == s.objects
  {
    hide TakeSpan;
  }

  lemma SlabFreeObjects(s: Heap, p: nat)
    requires HeapInv(s)
    ensures SlabFree(s, p).0.objects == s.objects
  {
    hide HeapInv;
    SlabFreeReady(s);
  }

  lemma KmallocObjects(s: Heap, size: nat)
    requires HeapInv(s) && size <= MAX_REQUEST
    ensures Kmalloc(s, size).0.objects == s.objects
  {
    hide HeapInv, AllocateRaw, SlabAllocate;
    KeyedInHeapInv(s);
    var c := FindSlabCache(size);
    if c < SLAB_CACHE_COUNT {
      SlabAllocateExact(s, c, size);
      SlabAllocateObjects(s, c, size);
      var t := SlabAllocate(s, c, size).0;
      KeyedInHeapInv(t);
      RawObjects(t, size, false);
    } else {
      RawObjects(s, size, false);
    }
  }

  lemma KfreeObjects(s: Heap, p: nat)
    requires HeapInv(s)
    ensures Kfree(s, p).objects == s.objects
  {
    hide HeapInv, SlabFree;
    SlabFreeExact(s, p);
    SlabFreeObjects(s, p);
    KeyedInHeapInv(s);
    KeyedInHeapInv(SlabFree(s, p).0);
  }

  predicate Resets(op: Op, k: nat) {
    op.CreateCache? && op.k == k
  }

  lemma {:induction false} CacheStaysInRun(s: Heap, ops: seq<Op>, k: nat)
    requires HeapInv(s) && SafeRun(s, ops) && k < |s.objects| && forall i :: 0 <= i < |ops| ==> !Resets(ops[i], k)
    ensures var t := Run(s, ops);
            |t.objects| == |s.objects| && t.objects[k].configured == s.objects[k].configured
            && t.objects[k].objectSize == s.objects[k].objectSize
    decreases |ops|
  {
    hide HeapInv, Step, Safe;
    if ops != [] {
      assert !Resets(ops[0], k);
      StepKeeps(s, ops[0]);
      CacheStays(s, ops[0], k);
      CacheStaysInRun(Step(s, ops[0]), ops[1..], k);
    }
  }

  /** So whatever happens to the heap after an object cache is set up, short of setting it up again, every
      object it hands out has room for the size asked for then. */
  lemma ObjectsHoldTheirSize(s: Heap, k: nat, size: nat, u: Heap, ops: seq<Op>)
    requires HeapInv(s) && size <= 256 && CreateObjectCache(s, k, size) == (u, true) && HeapInv(u)
    requires SafeRun(u, ops) && forall i :: 0 <= i < |ops| ==> !Resets(ops[i], k)
    ensures HeapInv(Run(u, ops))
    ensures var (t, p) := ObjectAlloc(Run(u, ops), k);
            p != 0 ==> p >= 56 && p - 56 in t.blocks && t.blocks[p - 56].size >= size
  {
    hide HeapInv, ObjectAlloc, CreateObjectCache, SafeRun, Run;
    CreateObjectCacheIs(s, k, size);
    CacheStaysInRun(u, ops, k);
    RunKeeps(u, ops);
    ObjectAllocSucceeds(Run(u, ops), k);
  }
}
