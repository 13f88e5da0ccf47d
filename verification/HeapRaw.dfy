/** The raw heap: first fit over the block list, split on allocation, forward coalesce on
    free, growth by spans of pages. */
module HeapRaw {
  import opened Collections
  import opened PhysicalMemorySpec
  import opened HeapLayout
  import opened HeapBlocks
  import opened HeapPages
  import opened HeapState

  const MIN_SPLIT: nat := 64
  const MAX_SPAN_PAGES: nat := 64

  /** Largest request the size computations get right: they refuse it if they wrap. */
  const MAX_REQUEST: nat := U64 - 64

  /** Rounds up to 16 bytes in 64-bit arithmetic. */
  function RawAlign(value: nat): nat {
    (value + 15) % U64 / 16 * 16
  }

  /** Rounding up is right exactly when it does not wrap. */
  lemma RawAlignExact(value: nat)
    requires value < U64
    ensures value <= RawAlign(value) < value + 16 <==> value <= U64 - 16
    ensures RawAlign(value) % 16 == 0
  {
  }

  function SpanPages(aligned: nat): nat {
    (RawAlign((aligned + HEADER) % U64) + PAGE_SIZE - 1) % U64 / PAGE_SIZE
  }

  /** Up to the largest right request a span of an accepted size has room for the block: where the sum
      wraps, it comes to no page at all. */
  lemma SpanHasRoom(aligned: nat)
    requires aligned <= MAX_REQUEST && aligned % 16 == 0
    ensures 0 < SpanPages(aligned) <= MAX_SPAN_PAGES ==> aligned + HEADER <= SpanPages(aligned) * PAGE_SIZE
  {
  }

  /** Beyond, the sum wraps to the size of one page. */
  lemma SpanWraps(size: nat)
    requires MAX_REQUEST < size < U64
    ensures SpanPages(RawAlign(size)) == 1
    ensures RawAlign(size) == 0 || RawAlign(size) > MAX_REQUEST
  {
    WrapsToZero();
    if size > U64 - 16 {
      assert (size + 15) % U64 == size + 15 - U64;
    } else {
      assert (size + 15) % U64 == size + 15;
      var k := (size + 15) / 16;
      assert RawAlign(size) == 16 * k && U64 / 16 - 3 <= k <= U64 / 16 - 1;
    }
  }

  lemma WrapsToZero()
    ensures SpanPages(0) == 1 && SpanPages(U64 - 16) == 1 && SpanPages(U64 - 32) == 1 && SpanPages(U64 - 48) == 1
  {
    assert RawAlign(HEADER) == 64 && RawAlign(HEADER - 16) == 48 && RawAlign(HEADER - 32) == 32 && RawAlign(HEADER - 48) == 16;
    hide RawAlign;
    assert (U64 - 16 + HEADER) % U64 == HEADER - 16;
    assert (U64 - 32 + HEADER) % U64 == HEADER - 32;
    assert (U64 - 48 + HEADER) % U64 == HEADER - 48;
  }

  predicate Usable(b: Info, size: nat, critical: bool) {
    b.free && b.critical == critical && b.size >= size
  }

  /** First usable block at or after index `i` of the list, or the length. */
  function FindFree(blocks: Blocks, raw: seq<nat>, i: nat, size: nat, critical: bool): (k: nat)
    requires i <= |raw|
    requires forall j :: i <= j < |raw| ==> raw[j] in blocks
    ensures i <= k <= |raw|
    ensures k < |raw| ==> Usable(blocks[raw[k]], size, critical)
    ensures forall j :: i <= j < k ==> !Usable(blocks[raw[j]], size, critical)
    decreases |raw| - i
  {
    if i == |raw| then i
    else if Usable(blocks[raw[i]], size, critical) then i
    else FindFree(blocks, raw, i + 1, size, critical)
  }

  function FreshSpan(n: nat, critical: bool): Info
    requires n > 0
  {
    Info(RawMagic, n * PAGE_SIZE - HEADER, 0, true, critical, false, 0, NO_OBJECT_CACHE)
  }

  function AddSpan(s: Heap, aligned: nat, critical: bool): (Heap, bool) {
    var n := SpanPages(aligned);
    if n == 0 || n > MAX_SPAN_PAGES then
      (s.(stats := s.stats.(failedAllocations := s.stats.failedAllocations + 1)), false)
    else
      var (phys, base) := TakeSpan(s.phys, n, if critical then 4 else 0);
      if base == ALLOC_FAIL then
        (s.(phys := phys, stats := s.stats.(failedAllocations := s.stats.failedAllocations + 1)), false)
      else
        (LinkSpan(s.(phys := phys), base, n, critical), true)
  }

  function LinkSpan(s: Heap, base: nat, n: nat, critical: bool): Heap
    requires n > 0
  {
    s.(blocks := s.blocks[base := FreshSpan(n, critical)],
    raw := InsertAt(s.raw, 0, base),
    rawPages := s.rawPages + PageRun(base, n),
    stats := s.stats.(heapPages := s.stats.heapPages + n, freeBytes := s.stats.freeBytes + (n * PAGE_SIZE - HEADER)))
  }

  /** The block at list index `i`, known to be free, loses its tail if that is worth a block. The 64-bit
      sum of the test does not wrap (SplitSumFits). */
  function SplitIfUseful(s: Heap, i: nat, aligned: nat): Heap
    requires i < |s.raw| && s.raw[i] in s.blocks
  {
    var b := s.blocks[s.raw[i]];
    if b.size <= aligned + HEADER + MIN_SPLIT then s
    else
      var rest := Info(RawMagic, b.size - aligned - HEADER, 0, true, b.critical, false, 0, NO_OBJECT_CACHE);
      var at := s.raw[i] + HEADER + aligned;
      s.(blocks := s.blocks[s.raw[i] := b.(size := aligned)][at := rest],
      raw := InsertAt(s.raw, i + 1, at),
      stats := s.stats.(freeBytes := s.stats.freeBytes + rest.size))
  }

  function RefreshLeaks(stats: Stats): Stats {
    stats.(leakCounter := stats.activeAllocations, leakBytes := stats.requestedBytes)
  }

  function RemoveFreeBytes(s: Heap, bytes: nat): Heap {
    s.(stats := s.stats.(freeBytes := Sub(s.stats.freeBytes, bytes)))
  }

  /** The free block at `a` becomes an allocation of `size` bytes. */
  function MarkUsed(s: Heap, a: nat, size: nat): Heap
    requires a in s.blocks
  {
    var b := s.blocks[a];
    s.(blocks := s.blocks[a := b.(free := false, requested := size, objectCache := NO_OBJECT_CACHE)],
    stats := RefreshLeaks(s.stats.(
                                  allocatedBytes := s.stats.allocatedBytes + b.size,
                                  requestedBytes := s.stats.requestedBytes + size,
                                  activeAllocations := s.stats.activeAllocations + 1,
                                  activeRaw := s.stats.activeRaw + 1)))
  }

  /** The free bytes of the whole block leave the count before the split puts its tail back. */
  function AllocateBlock(s: Heap, i: nat, aligned: nat, size: nat): Heap
    requires i < |s.raw| && s.raw[i] in s.blocks
  {
    MarkUsed(SplitIfUseful(RemoveFreeBytes(s, s.blocks[s.raw[i]].size), i, aligned), s.raw[i], size)
  }

  function AllocateRaw(s: Heap, size: nat, critical: bool): (Heap, nat)
    requires Keyed(s.blocks, s.raw)
  {
    if size == 0 then (s, 0)
    else
      var aligned := RawAlign(size);
      var i := FindFree(s.blocks, s.raw, 0, aligned, critical);
      if i < |s.raw| then
        (AllocateBlock(s, i, aligned, size), s.raw[i] + HEADER)
      else
        var (t, ok) := AddSpan(s, aligned, critical);
        if !ok then (t.(stats := t.stats.(failedAllocations := t.stats.failedAllocations + 1)), 0)
        else (AllocateBlock(t, 0, aligned, size), t.raw[0] + HEADER)
  }

  function IndexOfBlock(raw: seq<nat>, a: nat): (i: nat)
    requires a in raw
    ensures i < |raw| && raw[i] == a
  {
    if raw[0] == a then 0 else 1 + IndexOfBlock(raw[1..], a)
  }

  /** The block in use at `a` becomes free again. */
  function MarkFree(s: Heap, a: nat): Heap
    requires a in s.blocks
  {
    var b := s.blocks[a];
    s.(blocks := s.blocks[a := b.(free := true, requested := 0, objectCache := NO_OBJECT_CACHE)],
    stats := RefreshLeaks(s.stats.(
                                  allocatedBytes := Sub(s.stats.allocatedBytes, b.size),
                                  requestedBytes := Sub(s.stats.requestedBytes, b.requested),
                                  freeBytes := s.stats.freeBytes + b.size,
                                  activeAllocations := Sub(s.stats.activeAllocations, 1),
                                  activeRaw := Sub(s.stats.activeRaw, 1))))
  }

  predicate Joinable(s: Heap, i: nat)
    requires i + 1 < |s.raw| && s.raw[i] in s.blocks && s.raw[i + 1] in s.blocks
  {
    var b, c := s.blocks[s.raw[i]], s.blocks[s.raw[i + 1]];
    b.free && c.free && b.critical == c.critical && s.raw[i] + HEADER + b.size == s.raw[i + 1]
  }

  /** The block at index `i` absorbs its successor in the list when they touch. */
  function CoalesceWithNext(s: Heap, i: nat): Heap
    requires i < |s.raw| && Keyed(s.blocks, s.raw)
  {
    if i + 1 == |s.raw| || !Joinable(s, i) then s
    else
      var a, c := s.raw[i], s.raw[i + 1];
      var b := s.blocks[a];
      s.(blocks := (s.blocks - {c})[a := b.(size := b.size + HEADER + s.blocks[c].size)],
      raw := RemoveAt(s.raw, i + 1),
      stats := s.stats.(coalesceCount := s.stats.coalesceCount + 1))
  }

  function FreeRaw(s: Heap, pointer: nat): Heap
    requires Keyed(s.blocks, s.raw)
  {
    if pointer < HEADER || pointer - HEADER !in s.raw then
      s.(stats := s.stats.(invalidFrees := s.stats.invalidFrees + 1))
    else
      var a := pointer - HEADER;
      if s.blocks[a].free then s.(stats := s.stats.(doubleFrees := s.stats.doubleFrees + 1))
      else CoalesceWithNext(MarkFree(s, a), IndexOfBlock(s.raw, a))
  }

  // ----- What the slab side does not notice -----

  /** Two heaps whose slab objects and slab records agree. */
  ghost predicate SameSlabSide(s: Heap, t: Heap) {
    && t.slab == s.slab && t.slabPages == s.slabPages && t.caches == s.caches && t.objects == s.objects
    && t.stats.activeObjects == s.stats.activeObjects
    && forall h :: h in s.slab && h in s.blocks ==> h in t.blocks && t.blocks[h] == s.blocks[h]
  }

  lemma SlabSideKept(s: Heap, t: Heap)
    requires Keyed(s.blocks, s.slab) && SameSlabSide(s, t)
    ensures Keyed(t.blocks, t.slab)
    ensures forall m :: Sum(m, t.blocks, t.slab) == Sum(m, s.blocks, s.slab)
    ensures ListsOk(s.blocks, s.slab, s.caches) ==> ListsOk(t.blocks, t.slab, t.caches)
    ensures ObjectsOk(s.blocks, s.slab, s.objects, s.stats.activeObjects) ==>
              ObjectsOk(t.blocks, t.slab, t.objects, t.stats.activeObjects)
  {
    forall m ensures Sum(m, t.blocks, t.slab) == Sum(m, s.blocks, s.slab) {
      SumFrame(m, t.blocks, s.blocks, s.slab);
    }
    if ListsOk(s.blocks, s.slab, s.caches) {
      forall c | 0 <= c < |t.caches| ensures CacheLists(t.blocks, t.slab, c, t.caches[c]) {
        assert CacheLists(s.blocks, s.slab, c, s.caches[c]);
      }
    }
    if ObjectsOk(s.blocks, s.slab, s.objects, s.stats.activeObjects) {
      forall k | 0 <= k < |t.objects| ensures ObjectOk(t.blocks, t.slab, k, t.objects[k]) {
        assert ObjectOk(s.blocks, s.slab, k, s.objects[k]);
      }
    }
  }

  // ----- Marking a block used or free -----

  /** The header at `a` changes, but neither its size nor its place. */
  lemma LayoutSameSizes(s: Heap, t: Heap)
    requires LayoutOk(s) && Sizes(t.blocks) == Sizes(s.blocks)
    requires t.raw == s.raw && t.slab == s.slab && t.rawPages == s.rawPages && t.slabPages == s.slabPages
    ensures LayoutOk(t)
  {
    assert t.blocks.Keys == Sizes(t.blocks).Keys == Sizes(s.blocks).Keys == s.blocks.Keys;
  }

  lemma InRawList(s: Heap, a: nat)
    requires LayoutOk(s)
    ensures a in s.raw ==> a in s.blocks && a !in s.slab
    ensures a in s.slab ==> a in s.blocks && a !in s.raw
    ensures a in s.blocks <==> a in s.raw || a in s.slab
  {
    assert Sizes(s.blocks).Keys == Members(s.raw) + Members(s.slab);
    assert a in s.raw <==> a in Members(s.raw);
    assert a in s.slab <==> a in Members(s.slab);
    assert a in s.blocks <==> a in Sizes(s.blocks);
  }

  /** Sums over the raw list after one raw block changed. */
  lemma RawUpdateSums(s: Heap, a: nat, info: Info)
    requires LayoutOk(s) && a in s.raw
    ensures Keyed(s.blocks[a := info], s.raw)
    ensures forall m :: Sum(m, s.blocks[a := info], s.raw) == Sum(m, s.blocks, s.raw) - Of(m, s.blocks[a]) + Of(m, info)
    ensures forall m :: Sum(m, s.blocks, s.raw) >= Of(m, s.blocks[a])
  {
    var i := IndexOfBlock(s.raw, a);
    forall m
      ensures Sum(m, s.blocks[a := info], s.raw) == Sum(m, s.blocks, s.raw) - Of(m, s.blocks[a]) + Of(m, info)
      ensures Sum(m, s.blocks, s.raw) >= Of(m, s.blocks[a])
    {
      SumUpdate(m, s.blocks, s.raw, i, info);
    }
  }

  /** The part of the invariant the raw operations work on; the slab side and the pages are
      carried along unchanged. */
  ghost predicate RawInv(s: Heap) {
    LayoutOk(s) && KindsOk(s) && SumsOk(s)
  }

  lemma MarkUsedKeeps(s: Heap, a: nat, size: nat)
    requires RawInv(s) && a in s.raw && s.blocks[a].free && size <= s.blocks[a].size
    ensures var t := MarkUsed(s, a, size);
            && RawInv(t) && SameSlabSide(s, t)
            && Total(FreeSize, t) == Total(FreeSize, s) - s.blocks[a].size
  {
    var t := MarkUsed(s, a, size);
    InRawList(s, a);
    RawUpdateSums(s, a, t.blocks[a]);
    SlabSideKept(s, t);
    LayoutSameSizes(s, t);
  }

  lemma MarkFreeKeeps(s: Heap, a: nat)
    requires RawInv(s) && a in s.raw && !s.blocks[a].free
    ensures var t := MarkFree(s, a);
            && RawInv(t) && SameSlabSide(s, t)
            && Total(FreeSize, t) == Total(FreeSize, s) + s.blocks[a].size
    // No counter is clipped at zero.
    ensures s.stats.allocatedBytes >= s.blocks[a].size && s.stats.requestedBytes >= s.blocks[a].requested
    ensures s.stats.activeAllocations > 0 && s.stats.activeRaw > 0
  {
    hide Layout, NoDuplicates;
    var t := MarkFree(s, a);
    InRawList(s, a);
    RawUpdateSums(s, a, t.blocks[a]);
    SlabSideKept(s, t);
    LayoutSameSizes(s, t);
    assert Sum(Allocated, s.blocks, s.raw) >= Of(Allocated, s.blocks[a]);
    assert Sum(Requested, s.blocks, s.raw) >= Of(Requested, s.blocks[a]);
    assert Sum(Active, s.blocks, s.raw) >= Of(Active, s.blocks[a]);
  }

  // ----- Splitting -----

  /** Sums over the raw list after the block at index `i` became `head`, followed by `rest`. */
  lemma SplitSums(s: Heap, i: nat, head: Info, at: nat, rest: Info)
    requires LayoutOk(s) && i < |s.raw| && at !in s.blocks
    ensures var blocks := s.blocks[s.raw[i] := head][at := rest];
            var raw := InsertAt(s.raw, i + 1, at);
            && Keyed(blocks, raw)
            && forall m :: Sum(m, blocks, raw) == Sum(m, s.blocks, s.raw) - Of(m, s.blocks[s.raw[i]]) + Of(m, head) + Of(m, rest)
  {
    var a := s.raw[i];
    var mid := s.blocks[a := head];
    var blocks := mid[at := rest];
    var raw := InsertAt(s.raw, i + 1, at);
    forall m
      ensures Keyed(blocks, raw)
      ensures Sum(m, blocks, raw) == Sum(m, s.blocks, s.raw) - Of(m, s.blocks[a]) + Of(m, head) + Of(m, rest)
    {
      SumUpdate(m, s.blocks, s.raw, i, head);
      SumFrame(m, mid, blocks, s.raw);
      SumInsert(m, blocks, s.raw, i + 1, at);
    }
    assert Sum(Span, blocks, raw) >= 0;
  }

  lemma SplitLayout(s: Heap, i: nat, aligned: nat)
    requires LayoutOk(s) && i < |s.raw| && aligned + HEADER <= s.blocks[s.raw[i]].size
    requires SplitIfUseful(s, i, aligned) != s
    ensures LayoutOk(SplitIfUseful(s, i, aligned))
    ensures s.raw[i] + HEADER + aligned !in s.blocks
  {
    hide Layout, NoDuplicates;
    var a := s.raw[i];
    var t := SplitIfUseful(s, i, aligned);
    var at := a + HEADER + aligned;
    InRawList(s, a);
    var sizes := Sizes(s.blocks);
    assert a in Members(s.raw);
    LayoutSplit(sizes, Members(s.raw), Members(s.slab), s.rawPages, s.slabPages, a, aligned);
    assert at !in sizes;
    assert Sizes(t.blocks) == sizes[a := aligned][at := sizes[a] - aligned - HEADER];
    InRawList(s, at);
    InsertMembers(s.raw, i + 1, at);
    assert at !in s.raw;
  }

  lemma SplitKeeps(s: Heap, i: nat, aligned: nat)
    requires RawInv(s) && i < |s.raw| && s.blocks[s.raw[i]].free
    requires aligned % 16 == 0 && aligned <= s.blocks[s.raw[i]].size
    ensures RawInv(SplitIfUseful(s, i, aligned)) && SameSlabSide(s, SplitIfUseful(s, i, aligned))
  {
    var t := SplitIfUseful(s, i, aligned);
    if t == s {
      SameSlabSideSelf(s);
    } else {
      SplitLayout(s, i, aligned);
      SplitCounts(s, i, aligned);
      SplitKinds(s, i, aligned);
    }
  }

  /** What splitting does: the block keeps at least the aligned request, the tail becomes a
      free block right behind it, and one header's worth leaves the free bytes. */
  lemma SplitEffect(s: Heap, i: nat, aligned: nat)
    requires RawInv(s) && i < |s.raw| && s.blocks[s.raw[i]].free
    requires aligned % 16 == 0 && aligned <= s.blocks[s.raw[i]].size
    ensures var t := SplitIfUseful(s, i, aligned);
            var a := s.raw[i];
            && i < |t.raw| && t.raw[i] == a
            && a in t.blocks && t.blocks[a] == s.blocks[a].(size := t.blocks[a].size)
            && aligned <= t.blocks[a].size
            && (forall h :: h in s.blocks && h != a ==> h in t.blocks && t.blocks[h] == s.blocks[h])
            && (forall h :: h in t.blocks && h !in s.blocks ==> t.blocks[h].free)
    ensures var t := SplitIfUseful(s, i, aligned);
            var a := s.raw[i];
            && Keyed(t.blocks, t.raw) && Keyed(t.blocks, t.slab)
            && Total(FreeSize, t) - t.blocks[a].size
               == Total(FreeSize, s) - s.blocks[a].size + t.stats.freeBytes - s.stats.freeBytes
            && s.stats.freeBytes <= t.stats.freeBytes
            && t.stats.coalesceCount == s.stats.coalesceCount
  {
    hide Layout, NoDuplicates, SumsOk, SameSlabSide, KindsOk;
    var t := SplitIfUseful(s, i, aligned);
    if t != s {
      SplitLayout(s, i, aligned);
      SplitCounts(s, i, aligned);
    }
  }

  lemma SplitCounts(s: Heap, i: nat, aligned: nat)
    requires LayoutOk(s) && SumsOk(s) && i < |s.raw| && s.blocks[s.raw[i]].free
    requires aligned <= s.blocks[s.raw[i]].size
    requires s.raw[i] + HEADER + aligned !in s.blocks
    requires SplitIfUseful(s, i, aligned) != s
    ensures var t := SplitIfUseful(s, i, aligned);
            && SameSlabSide(s, t)
            && Keyed(t.blocks, t.raw) && Keyed(t.blocks, t.slab) && SumsOk(t)
            && Total(FreeSize, t) == Total(FreeSize, s) - HEADER
  {
    hide Layout, NoDuplicates;
    var a: nat := s.raw[i];
    var b := s.blocks[a];
    var t := SplitIfUseful(s, i, aligned);
    var at: nat := a + HEADER + aligned;
    var rest := Info(RawMagic, b.size - aligned - HEADER, 0, true, b.critical, false, 0, NO_OBJECT_CACHE);
    SplitSums(s, i, b.(size := aligned), at, rest);
    SplitSlabSide(s, t, a, at);
  }

  lemma SameSlabSideSelf(s: Heap)
    ensures SameSlabSide(s, s)
  {
  }

  lemma SplitSlabSide(s: Heap, t: Heap, a: nat, at: nat)
    requires LayoutOk(s) && a in s.raw && at !in s.blocks
    requires t.slab == s.slab && t.slabPages == s.slabPages && t.caches == s.caches && t.objects == s.objects
    requires t.stats.activeObjects == s.stats.activeObjects
    requires forall h :: h in s.blocks && h != a ==> h in t.blocks && t.blocks[h] == s.blocks[h]
    ensures SameSlabSide(s, t)
    ensures Keyed(t.blocks, t.slab) && forall m :: Sum(m, t.blocks, t.slab) == Sum(m, s.blocks, s.slab)
  {
    InRawList(s, a);
    SlabSideKept(s, t);
  }

  lemma SplitKinds(s: Heap, i: nat, aligned: nat)
    requires LayoutOk(s) && KindsOk(s) && i < |s.raw|
    requires aligned % 16 == 0 && s.blocks[s.raw[i]].free
    requires s.raw[i] + HEADER + aligned !in s.blocks
    requires SplitIfUseful(s, i, aligned) != s
    requires LayoutOk(SplitIfUseful(s, i, aligned))
    ensures KindsOk(SplitIfUseful(s, i, aligned))
  {
    hide Layout, NoDuplicates, SplitIfUseful, RawKind, SlabKind;
    var t := SplitIfUseful(s, i, aligned);
    var a := s.raw[i];
    assert a in s.raw;
    SplitParts(s, i, aligned);
    SplitHeadAndRest(a, s.blocks[a], aligned);
    forall h | h in t.raw ensures RawKind(h, t.blocks[h]) {
      InsertedMember(s.raw, i + 1, a + HEADER + aligned, h);
    }
    SplitSlabKinds(s, i, aligned);
  }

  /** The parts of a heap after a split. */
  lemma SplitParts(s: Heap, i: nat, aligned: nat)
    requires i < |s.raw| && s.raw[i] in s.blocks && SplitIfUseful(s, i, aligned) != s
    ensures var t := SplitIfUseful(s, i, aligned);
            var a := s.raw[i];
            var at := a + HEADER + aligned;
            && t.slab == s.slab && t.raw == InsertAt(s.raw, i + 1, at)
            && s.blocks[a].size > aligned + HEADER
            && a in t.blocks && t.blocks[a] == s.blocks[a].(size := aligned)
            && at in t.blocks && t.blocks[at] == SplitRest(s.blocks[a], aligned)
            && (forall h :: h in s.blocks && h != a && h != at ==> h in t.blocks && t.blocks[h] == s.blocks[h])
  {
  }

  function SplitRest(b: Info, aligned: nat): Info
    requires b.size > aligned + HEADER
  {
    Info(RawMagic, b.size - aligned - HEADER, 0, true, b.critical, false, 0, NO_OBJECT_CACHE)
  }

  lemma SplitHeadAndRest(a: nat, b: Info, aligned: nat)
    requires RawKind(a, b) && b.free && aligned % 16 == 0 && b.size > aligned + HEADER
    ensures RawKind(a, b.(size := aligned)) && RawKind(a + HEADER + aligned, SplitRest(b, aligned))
  {
    var x, y, z := a / 8, b.size / 8, aligned / 16;
    assert a == 8 * x && b.size == 8 * y && aligned == 16 * z;
    assert aligned == 8 * (2 * z);
    assert a + HEADER + aligned == 8 * (x + 7 + 2 * z);
    assert b.size - aligned - HEADER == 8 * (y - 2 * z - 7);
    EightDivides(2 * z);
    EightDivides(x + 7 + 2 * z);
    EightDivides(y - 2 * z - 7);
  }

  lemma EightDivides(k: int)
    ensures (8 * k) % 8 == 0
  {
  }

  lemma InsertedMember(list: seq<nat>, i: nat, a: nat, h: nat)
    requires i <= |list| && h in InsertAt(list, i, a)
    ensures h in list || h == a
  {
  }

  lemma SplitSlabKinds(s: Heap, i: nat, aligned: nat)
    requires LayoutOk(s) && KindsOk(s) && i < |s.raw|
    requires s.raw[i] + HEADER + aligned !in s.blocks
    requires SplitIfUseful(s, i, aligned) != s
    requires LayoutOk(SplitIfUseful(s, i, aligned))
    ensures forall h :: h in s.slab ==> SlabKind(SplitIfUseful(s, i, aligned).blocks[h])
  {
    hide Layout, NoDuplicates;
    var t := SplitIfUseful(s, i, aligned);
    forall h | h in t.slab ensures SlabKind(t.blocks[h]) {
      InRawList(s, h);
      InRawList(s, s.raw[i]);
    }
  }

  // ----- Allocating -----

  /** What the raw operations do to the callers' allocations. */
  lemma LiveAfter(s: Heap, t: Heap, a: nat)
    requires forall h :: h in s.blocks && h != a ==> h in t.blocks && t.blocks[h].free == s.blocks[h].free
                                                     && t.blocks[h].requested == s.blocks[h].requested
    requires forall h :: h in t.blocks && h !in s.blocks && h != a ==> t.blocks[h].free
    requires a in s.blocks ==> s.blocks[a].free
    requires a in t.blocks && !t.blocks[a].free
    ensures Held(t) == Held(s)[a := t.blocks[a].requested]
  {
  }

  /** Handing out the free block at index `i`: the payload fits the request, was nobody's, and
      everyone else's allocation is as it was. */
  lemma AllocateBlockKeeps(s: Heap, i: nat, size: nat)
    requires RawInv(s) && FreeBytesOk(s) && i < |s.raw| && 0 < size <= MAX_REQUEST
    requires s.blocks[s.raw[i]].free && s.blocks[s.raw[i]].size >= RawAlign(size)
    ensures var t := AllocateBlock(s, i, RawAlign(size), size);
            && RawInv(t) && FreeBytesOk(t) && SameSlabSide(s, t)
  {
    hide RawInv, SumsOk, SameSlabSide;
    KeyedInRawInv(s);
    InSplitList(s, i);
    var a, aligned := s.raw[i], RawAlign(size);
    RawAlignExact(size);
    var s1 := RemoveFreeBytes(s, s.blocks[a].size);
    RemoveFreeBytesKeeps(s, s.blocks[a].size);
    SplitKeeps(s1, i, aligned);
    SplitEffect(s1, i, aligned);
    var s2 := SplitIfUseful(s1, i, aligned);
    InSplitList(s2, i);
    MarkUsedKeeps(s2, a, size);
    var t := MarkUsed(s2, a, size);
    SameSlabSideTransitive(s, s1, s2);
    SameSlabSideTransitive(s, s2, t);
    KeyedInRawInv(s);
    KeyedInRawInv(t);
    assert Total(FreeSize, s1) == Total(FreeSize, s);
    assert s.blocks[a].size <= Total(FreeSize, s) by {
      FreeBlockCounted(s, a);
    }
  }

  lemma FreeBlockCounted(s: Heap, a: nat)
    requires RawInv(s) && a in s.raw && s.blocks[a].free
    ensures s.blocks[a].size <= Total(FreeSize, s)
  {
    RawUpdateSums(s, a, s.blocks[a]);
    assert Sum(FreeSize, s.blocks, s.raw) >= Of(FreeSize, s.blocks[a]);
  }

  lemma InSplitList(s: Heap, i: nat)
    requires i < |s.raw|
    ensures s.raw[i] in s.raw
  {
  }

  lemma KeyedInRawInv(s: Heap)
    requires RawInv(s)
    ensures Keyed(s.blocks, s.raw) && Keyed(s.blocks, s.slab)
  {
  }

  lemma RemoveFreeBytesKeeps(s: Heap, bytes: nat)
    requires RawInv(s)
    ensures RawInv(RemoveFreeBytes(s, bytes)) && SameSlabSide(s, RemoveFreeBytes(s, bytes))
  {
  }

  lemma SameSlabSideTransitive(s: Heap, t: Heap, u: Heap)
    requires SameSlabSide(s, t) && SameSlabSide(t, u)
    ensures SameSlabSide(s, u)
  {
  }

  lemma AllocateBlockLive(s: Heap, i: nat, size: nat)
    requires RawInv(s) && i < |s.raw| && 0 < size <= MAX_REQUEST
    requires s.blocks[s.raw[i]].free && s.blocks[s.raw[i]].size >= RawAlign(size)
    ensures var t := AllocateBlock(s, i, RawAlign(size), size);
            && s.raw[i] !in Held(s)
            && Held(t) == Held(s)[s.raw[i] := size]
            && t.blocks[s.raw[i]].size >= size
  {
    hide RawInv, SumsOk, SameSlabSide, LayoutOk, KindsOk;
    KeyedInRawInv(s);
    InSplitList(s, i);
    var a, aligned := s.raw[i], RawAlign(size);
    RawAlignExact(size);
    var s1 := RemoveFreeBytes(s, s.blocks[a].size);
    RemoveFreeBytesKeeps(s, s.blocks[a].size);
    SplitEffect(s1, i, aligned);
    LiveAfter(s, AllocateBlock(s, i, aligned, size), a);
  }

  // ----- Growing -----

  lemma LinkSpanLayout(s: Heap, base: nat, n: nat, critical: bool)
    requires LayoutOk(s) && n > 0 && IsPage(base)
    requires PageRun(base, n) !! s.rawPages + s.slabPages
    ensures LayoutOk(LinkSpan(s, base, n, critical)) && base !in s.blocks
  {
    hide Layout, NoDuplicates;
    var t := LinkSpan(s, base, n, critical);
    var sizes := Sizes(s.blocks);
    LayoutAddSpan(sizes, Members(s.raw), Members(s.slab), s.rawPages, s.slabPages, base, n);
    assert base !in sizes;
    assert Sizes(t.blocks) == sizes[base := n * PAGE_SIZE - HEADER];
    InRawList(s, base);
    InsertMembers(s.raw, 0, base);
  }

  lemma LinkSpanCounts(s: Heap, base: nat, n: nat, critical: bool)
    requires LayoutOk(s) && SumsOk(s) && n > 0 && base !in s.blocks
    requires PageRun(base, n) !! s.rawPages
    ensures var t := LinkSpan(s, base, n, critical);
            && Keyed(t.blocks, t.raw) && Keyed(t.blocks, t.slab) && SameSlabSide(s, t) && SumsOk(t)
            && (FreeBytesOk(s) ==> FreeBytesOk(t))
  {
    hide Layout, NoDuplicates, PageRun;
    var t := LinkSpan(s, base, n, critical);
    forall m
      ensures Keyed(t.blocks, t.raw)
      ensures Sum(m, t.blocks, t.raw) == Sum(m, s.blocks, s.raw) + Of(m, t.blocks[base])
    {
      SumFrame(m, s.blocks, t.blocks, s.raw);
      SumInsert(m, t.blocks, s.raw, 0, base);
    }
    assert Sum(Span, t.blocks, t.raw) >= 0;
    SlabSideKept(s, t);
    PageRunCardinality(base, n);
  }

  lemma PageIsEight(base: nat)
    requires base % 4096 == 0
    ensures base % 8 == 0
  {
    var q := base / 4096;
    assert base == 8 * (512 * q);
    EightDivides(512 * q);
  }

  lemma SpanIsEight(n: nat)
    requires n > 0
    ensures (n * PAGE_SIZE - HEADER) % 8 == 0
  {
    var k := 512 * n - 7;
    assert n * PAGE_SIZE - HEADER == 8 * k;
    EightDivides(k);
  }

  /** A fresh block at a page: its header and its size keep the alignment. */
  lemma FreshKind(base: nat, n: nat, critical: bool)
    requires n > 0 && IsPage(base)
    ensures RawKind(base, FreshSpan(n, critical))
  {
    PageIsEight(base);
    SpanIsEight(n);
  }

  lemma LinkSpanKeeps(s: Heap, base: nat, n: nat, critical: bool)
    requires RawInv(s) && FreeBytesOk(s) && n > 0 && IsPage(base)
    requires PageRun(base, n) !! s.rawPages + s.slabPages
    ensures var t := LinkSpan(s, base, n, critical);
            RawInv(t) && FreeBytesOk(t) && SameSlabSide(s, t) && base !in s.blocks
  {
    hide Layout, NoDuplicates, SumsOk, FreeBytesOk, SameSlabSide, PageRun, RawKind, SlabKind, FreshSpan, IsPage;
    LinkSpanLayout(s, base, n, critical);
    LinkSpanCounts(s, base, n, critical);
    FreshKind(base, n, critical);
    InsertMembers(s.raw, 0, base);
    LinkSpanKinds(s, LinkSpan(s, base, n, critical), base);
  }

  lemma LinkSpanKinds(s: Heap, t: Heap, base: nat)
    requires Keyed(s.blocks, s.raw) && Keyed(s.blocks, s.slab) && Keyed(t.blocks, t.raw) && Keyed(t.blocks, t.slab)
    requires KindsOk(s) && base in t.blocks && RawKind(base, t.blocks[base]) && t.blocks == s.blocks[base := t.blocks[base]]
    requires Members(t.raw) == Members(s.raw) + {base} && t.slab == s.slab && base !in s.blocks
    ensures KindsOk(t)
  {
    hide RawKind, SlabKind;
    forall h | h in t.raw ensures RawKind(h, t.blocks[h]) {
      assert h in Members(t.raw);
      assert h == base || h in s.raw;
    }
  }

  // ----- Freeing -----

  lemma KeyedAfterRemoval(s: Heap, t: Heap, c: nat)
    requires LayoutOk(s) && c in s.raw
    requires Members(t.raw) == Members(s.raw) - {c} && t.slab == s.slab
    requires s.blocks.Keys - {c} <= t.blocks.Keys
    ensures Keyed(t.blocks, t.raw) && Keyed(t.blocks, t.slab)
  {
    hide Layout, NoDuplicates;
    InRawList(s, c);
    forall h | h in t.raw ensures h in t.blocks {
      assert h in Members(t.raw);
    }
  }

  lemma CoalesceLayout(s: Heap, i: nat)
    requires LayoutOk(s) && i + 1 < |s.raw| && Joinable(s, i)
    ensures LayoutOk(CoalesceWithNext(s, i))
    ensures s.raw[i] != s.raw[i + 1]
  {
    hide Layout, NoDuplicates;
    var a, c := s.raw[i], s.raw[i + 1];
    var t := CoalesceWithNext(s, i);
    var sizes := Sizes(s.blocks);
    assert a in Members(s.raw) && c in Members(s.raw);
    LayoutJoin(sizes, Members(s.raw), Members(s.slab), s.rawPages, s.slabPages, a, c);
    assert Sizes(t.blocks) == (sizes - {c})[a := sizes[a] + HEADER + sizes[c]];
    InRawList(s, c);
    RemoveMembers(s.raw, i + 1);
    KeyedAfterRemoval(s, t, c);
  }

  /** Sums after the block at `i` became `joined` and its successor left the list. */
  lemma CoalesceSums(s: Heap, i: nat)
    requires LayoutOk(s) && i + 1 < |s.raw| && Joinable(s, i)
    ensures var t := CoalesceWithNext(s, i);
            var a, c := s.raw[i], s.raw[i + 1];
            && Keyed(t.blocks, t.raw)
            && forall m :: Sum(m, t.blocks, t.raw)
                        == Sum(m, s.blocks, s.raw) - Of(m, s.blocks[a]) - Of(m, s.blocks[c]) + Of(m, t.blocks[a])
  {
    hide Layout, RemoveAt, NoDuplicates;
    var a, c := s.raw[i], s.raw[i + 1];
    var t := CoalesceWithNext(s, i);
    LeftAfterRemoval(s.raw, i + 1);
    PairDiffers(s.raw, i);
    forall m
      ensures Sum(m, t.blocks, t.raw)
           == Sum(m, s.blocks, s.raw) - Of(m, s.blocks[a]) - Of(m, s.blocks[c]) + Of(m, t.blocks[a])
    {
      JoinedSum(m, s.blocks, s.raw, i, t.blocks[a]);
    }
  }

  lemma LeftAfterRemoval(list: seq<nat>, i: nat)
    requires i < |list| && NoDuplicates(list)
    ensures forall h :: h in RemoveAt(list, i) ==> h in list && h != list[i]
  {
  }

  lemma PairDiffers(list: seq<nat>, i: nat)
    requires i + 1 < |list| && NoDuplicates(list)
    ensures list[i] != list[i + 1]
  {
  }

  /** One block of a list changes and the next leaves it. */
  lemma JoinedSum(m: Measure, blocks: Blocks, list: seq<nat>, i: nat, joined: Info)
    requires NoDuplicates(list) && i + 1 < |list| && forall a :: a in list ==> a in blocks
    ensures var t := (blocks - {list[i + 1]})[list[i] := joined]; var rest := RemoveAt(list, i + 1);
            && (forall a :: a in rest ==> a in t)
            && Sum(m, t, rest) == Sum(m, blocks, list) - Of(m, blocks[list[i]]) - Of(m, blocks[list[i + 1]]) + Of(m, joined)
  {
    hide RemoveAt, Sum, NoDuplicates;
    var mid := blocks[list[i] := joined];
    var t := (blocks - {list[i + 1]})[list[i] := joined];
    LeftAfterRemoval(list, i + 1);
    PairDiffers(list, i);
    SumUpdate(m, blocks, list, i, joined);
    SumRemove(m, mid, list, i + 1);
    SumFrame(m, mid, t, RemoveAt(list, i + 1));
  }

  lemma CoalesceSlabSide(s: Heap, i: nat)
    requires LayoutOk(s) && i + 1 < |s.raw| && Joinable(s, i)
    ensures SameSlabSide(s, CoalesceWithNext(s, i))
    ensures Keyed(CoalesceWithNext(s, i).blocks, s.slab)
  {
    hide Layout, NoDuplicates;
    InRawList(s, s.raw[i]);
    InRawList(s, s.raw[i + 1]);
  }

  lemma CoalesceCounts(s: Heap, i: nat)
    requires LayoutOk(s) && SumsOk(s) && FreeBytesOk(s) && i + 1 < |s.raw| && Joinable(s, i)
    ensures var t := CoalesceWithNext(s, i);
            && SameSlabSide(s, t)
            && Keyed(t.blocks, t.raw) && Keyed(t.blocks, t.slab) && SumsOk(t) && FreeBytesOk(t)
  {
    hide Layout, NoDuplicates;
    CoalesceSlabSide(s, i);
    CoalesceSums(s, i);
    SlabSideKept(s, CoalesceWithNext(s, i));
  }

  lemma CoalesceKeeps(s: Heap, i: nat)
    requires RawInv(s) && FreeBytesOk(s) && i < |s.raw|
    ensures var t := CoalesceWithNext(s, i);
            RawInv(t) && FreeBytesOk(t) && SameSlabSide(s, t)
  {
    hide Layout, NoDuplicates, SumsOk, FreeBytesOk, SameSlabSide;
    var t := CoalesceWithNext(s, i);
    if i + 1 == |s.raw| || !Joinable(s, i) {
      SameSlabSideSelf(s);
    } else {
      CoalesceLayout(s, i);
      CoalesceCounts(s, i);
      CoalesceKinds(s, i);
    }
  }

  lemma CoalesceKinds(s: Heap, i: nat)
    requires LayoutOk(s) && KindsOk(s) && i + 1 < |s.raw| && Joinable(s, i)
    requires LayoutOk(CoalesceWithNext(s, i))
    requires SameSlabSide(s, CoalesceWithNext(s, i))
    ensures KindsOk(CoalesceWithNext(s, i))
  {
    hide Layout;
    var t := CoalesceWithNext(s, i);
    RemoveMembers(s.raw, i + 1);
    forall h | h in t.raw ensures RawKind(h, t.blocks[h]) {
      assert h in Members(t.raw);
      assert RawKind(h, s.blocks[h]);
      assert RawKind(s.raw[i + 1], s.blocks[s.raw[i + 1]]);
    }
  }

  // ----- The two operations -----

  /** The raw side, the pages and the slab side make up the heap's invariant. */
  lemma HeapInvFromRaw(s: Heap, t: Heap)
    requires HeapInv(s) && SameSlabSide(s, t) && RawInv(t) && FreeBytesOk(t) && PagesOk(t)
    ensures HeapInv(t)
  {
    hide Layout, NoDuplicates, SumsOk, FreeBytesOk, PagesOk, KindsOk;
    SlabSideKept(s, t);
  }

  lemma SplitHeapInv(s: Heap)
    requires HeapInv(s)
    ensures RawInv(s) && FreeBytesOk(s) && PagesOk(s)
  {
  }

  /** Growing the heap: the new block is at the head of the list, free and large enough; a
      refusal leaves blocks and lists as they were. */
  lemma AddSpanKeeps(s: Heap, aligned: nat, critical: bool)
    requires HeapInv(s) && aligned <= MAX_REQUEST && aligned % 16 == 0
    ensures var (t, ok) := AddSpan(s, aligned, critical);
            && HeapInv(t) && Held(t) == Held(s)
            && (!ok ==> t.blocks == s.blocks && t.raw == s.raw)
            && (ok ==> |t.raw| > 0 && t.raw[0] in t.blocks && Usable(t.blocks[t.raw[0]], aligned, critical))
  {
    hide RawInv, SumsOk, FreeBytesOk, ListsOk, ObjectsOk, KindsOk, Inv, Layout, SameSlabSide, TakeSpan, PageRun;
    var n := SpanPages(aligned);
    SplitHeapInv(s);
    if n == 0 || n > MAX_SPAN_PAGES {
      OnlyFailed(s, s.phys);
    } else {
      var tag := if critical then 4 else 0;
      TakeSpanExact(s.phys, n, tag);
      var (phys, base) := TakeSpan(s.phys, n, tag);
      if base == ALLOC_FAIL {
        OnlyFailed(s, phys);
      } else {
        SpanHasRoom(aligned);
        AddSpanLinked(s, phys, base, n, critical);
      }
    }
  }

  lemma OnlyFailed(s: Heap, phys: Phys)
    requires HeapInv(s) && Inv(phys) && s.phys.used <= phys.used
    ensures HeapInv(s.(phys := phys, stats := s.stats.(failedAllocations := s.stats.failedAllocations + 1)))
  {
    hide Inv, Layout, ListsOk, ObjectsOk;
  }

  lemma AddSpanLinked(s: Heap, phys: Phys, base: nat, n: nat, critical: bool)
    requires HeapInv(s) && Inv(phys) && n > 0 && IsPage(base)
    requires PageRun(base, n) <= FreeSet(s.phys) && phys.used == s.phys.used + PageRun(base, n)
    ensures var t := LinkSpan(s.(phys := phys), base, n, critical);
            HeapInv(t) && Held(t) == Held(s)
  {
    hide RawInv, SumsOk, FreeBytesOk, ListsOk, ObjectsOk, KindsOk, Inv, Layout, SameSlabSide, PageRun;
    SplitHeapInv(s);
    UsedNotFree(s.phys);
    var s1 := s.(phys := phys);
    assert RawInv(s1) && FreeBytesOk(s1) && SameSlabSide(s, s1) by { ChangePhys(s, phys); }
    LinkSpanKeeps(s1, base, n, critical);
    var t := LinkSpan(s1, base, n, critical);
    SameSlabSideTransitive(s, s1, t);
    HeapInvFromRaw(s, t);
  }

  lemma ChangePhys(s: Heap, phys: Phys)
    requires RawInv(s) && FreeBytesOk(s)
    ensures RawInv(s.(phys := phys)) && FreeBytesOk(s.(phys := phys)) && SameSlabSide(s, s.(phys := phys))
  {
  }

  lemma AllocateFound(s: Heap, i: nat, size: nat)
    requires HeapInv(s) && i < |s.raw| && 0 < size <= MAX_REQUEST
    requires s.blocks[s.raw[i]].free && s.blocks[s.raw[i]].size >= RawAlign(size)
    ensures var t := AllocateBlock(s, i, RawAlign(size), size);
            && HeapInv(t)
            && s.raw[i] !in Held(s) && Held(t) == Held(s)[s.raw[i] := size]
            && s.raw[i] in t.blocks && t.blocks[s.raw[i]].size >= size && s.raw[i] in t.raw
  {
    hide RawInv, SumsOk, FreeBytesOk, ListsOk, ObjectsOk, KindsOk, Inv, Layout, SameSlabSide;
    SplitHeapInv(s);
    AllocateBlockKeeps(s, i, size);
    AllocateBlockLive(s, i, size);
    HeapInvFromRaw(s, AllocateBlock(s, i, RawAlign(size), size));
    InSplitList(AllocateBlock(s, i, RawAlign(size), size), i);
  }

  /** A raw allocation keeps the invariant. It fails only on size 0 or when no free block is
      large enough and no span can be added. When it succeeds the payload was nobody's, holds
      the request, and every other allocation is untouched. */
  lemma AllocateRawExact(s: Heap, size: nat, critical: bool)
    requires HeapInv(s) && size <= MAX_REQUEST
    ensures var (t, p) := AllocateRaw(s, size, critical);
            && HeapInv(t)
            && (p == 0 ==> Held(t) == Held(s))
            && (p == 0 && size != 0 ==>
                  && !AddSpan(s, RawAlign(size), critical).1
                  && forall a :: a in s.raw ==> !Usable(s.blocks[a], RawAlign(size), critical))
            && (p != 0 ==>
                  && size != 0 && p >= HEADER && p - HEADER !in Held(s)
                  && Held(t) == Held(s)[p - HEADER := size]
                  && p - HEADER in t.blocks && t.blocks[p - HEADER].size >= size && p - HEADER in t.raw)
  {
    hide HeapInv, AddSpan, AllocateBlock, Held;
    RawAlignExact(size);
    KeyedInHeapInv(s);
    var aligned := RawAlign(size);
    if size != 0 {
      var i := FindFree(s.blocks, s.raw, 0, aligned, critical);
      if i < |s.raw| {
        AllocateFound(s, i, size);
      } else {
        AddSpanKeeps(s, aligned, critical);
        var (t, ok) := AddSpan(s, aligned, critical);
        if ok {
          AllocateFound(t, 0, size);
        } else {
          OnlyFailedHeld(t);
          forall a | a in s.raw ensures !Usable(s.blocks[a], aligned, critical) {
            var j :| 0 <= j < |s.raw| && s.raw[j] == a;
          }
        }
      }
    }
  }

  // ----- Where a block is taken and how blocks join -----

  /** The pages of a span: the fewest that hold the block, its header and the rounding of both to 16. */
  lemma SpanPagesIs(aligned: nat)
    requires aligned % 16 == 0 && aligned + 4160 <= U64
    ensures (SpanPages(aligned) - 1) * 4096 < aligned + 64 <= SpanPages(aligned) * 4096
  {
    assert (aligned + 56) % U64 == aligned + 56;
    var k := aligned / 16;
    assert aligned == 16 * k;
    assert (16 * k + 71) / 16 == k + 4;
    assert RawAlign(aligned + 56) == aligned + 64;
  }

  /** The block at list index `i` became an allocation: its tail is cut off and linked behind it as a free
      block of the same kind if more than 120 bytes would be left, and no other block changed. */
  ghost predicate HandedOut(s: Heap, t: Heap, i: nat, aligned: nat, size: nat)
    requires i < |s.raw| && s.raw[i] in s.blocks
  {
    var a := s.raw[i];
    var b := s.blocks[a];
    var taken := b.(free := false, requested := size, objectCache := 0xFFFFFFFF);
    if b.size > aligned + 120 then
      var rest := a + 56 + aligned;
      && t.raw == s.raw[..i + 1] + [rest] + s.raw[i + 1..]
      && t.blocks == s.blocks[a := taken.(size := aligned)]
                     [rest := Info(RawMagic, b.size - aligned - 56, 0, true, b.critical, false, 0, 0xFFFFFFFF)]
    else
      t.raw == s.raw && t.blocks == s.blocks[a := taken]
  }

  lemma AllocateBlockIs(s: Heap, i: nat, aligned: nat, size: nat)
    requires i < |s.raw| && s.raw[i] in s.blocks && s.raw[i] + 56 + aligned != s.raw[i]
    ensures HandedOut(s, AllocateBlock(s, i, aligned, size), i, aligned, size)
    ensures AllocateBlock(s, i, aligned, size).rawPages == s.rawPages
  {
    var t := AllocateBlock(s, i, aligned, size);
    var b := s.blocks[s.raw[i]];
    var taken := b.(free := false, requested := size, objectCache := 0xFFFFFFFF);
    if b.size > aligned + 120 {
      var rest := Info(RawMagic, b.size - aligned - 56, 0, true, b.critical, false, 0, 0xFFFFFFFF);
      assert t.blocks == s.blocks[s.raw[i] := taken.(size := aligned)][s.raw[i] + 56 + aligned := rest];
    }
  }

  /** First fit: the first block of the list that is free, of the kind asked for and large enough is handed
      out. `aligned` is the request rounded up to 16. */
  lemma AllocateTakesFirst(s: Heap, size: nat, critical: bool, i: nat, aligned: nat)
    requires HeapInv(s) && 0 < size <= MAX_REQUEST && aligned % 16 == 0 && size <= aligned < size + 16
    requires i < |s.raw| && s.raw[i] in s.blocks
    requires forall j :: 0 <= j <= i && s.raw[j] in s.blocks ==>
                           (s.blocks[s.raw[j]].free && s.blocks[s.raw[j]].critical == critical && s.blocks[s.raw[j]].size >= aligned
                            <==> j == i)
    ensures Keyed(s.blocks, s.raw)
    ensures var (t, p) := AllocateRaw(s, size, critical);
            p == s.raw[i] + 56 && HandedOut(s, t, i, aligned, size) && t.rawPages == s.rawPages
  {
    hide HeapInv, AllocateBlock, HandedOut;
    KeyedInHeapInv(s);
    RoundedUp(size, aligned);
    AllocateBlockIs(s, i, aligned, size);
  }

  lemma RoundedUp(size: nat, aligned: nat)
    requires size <= MAX_REQUEST && aligned % 16 == 0 && size <= aligned < size + 16
    ensures RawAlign(size) == aligned
  {
    var k := aligned / 16;
    assert aligned == 16 * k;
    assert (size + 15) / 16 == k;
  }

  /** When no block fits, the heap grows: it does exactly when a span of the fewest pages that hold the block,
      at most 64, can be had; the span's block heads the list and is handed out. */
  lemma AllocateGrows(s: Heap, size: nat, critical: bool, aligned: nat, n: nat)
    requires HeapInv(s) && 0 < size <= MAX_REQUEST && aligned % 16 == 0 && size <= aligned < size + 16
    requires (n - 1) * 4096 < aligned + 64 <= n * 4096
    requires forall a :: a in s.raw && a in s.blocks ==>
                           !(s.blocks[a].free && s.blocks[a].critical == critical && s.blocks[a].size >= aligned)
    ensures Keyed(s.blocks, s.raw)
    ensures var (t, p) := AllocateRaw(s, size, critical);
            && (p != 0 <==> n <= 64 && exists b: nat :: EndsInRun(s.phys, n, b))
            && (p != 0 ==> p >= 56 && EndsInRun(s.phys, n, p - 56) && Grown(s, t, p - 56, n, critical, aligned, size))
  {
    hide HeapInv, AllocateBlock, Grown, TakeSpan, EndsInRun, Inv, SpanPages;
    KeyedInHeapInv(s);
    RoundedUp(size, aligned);
    if aligned + 4160 <= U64 {
      SpanPagesIs(aligned);
      SamePages(n, SpanPages(aligned), aligned + 64);
    } else {
      SpanPagesHuge(aligned);
    }
    var tag := if critical then 4 else 0;
    PhysOf(s);
    TakeSpanSucceeds(s.phys, n, tag);
    var (phys, base) := TakeSpan(s.phys, n, tag);
    if n <= 64 && base != 0 {
      SpanHandedOut(s, phys, base, n, critical, aligned, size);
    }
  }

  /** A request so large that the sum of its span wraps comes to no page. */
  lemma SpanPagesHuge(aligned: nat)
    requires aligned % 16 == 0 && U64 < aligned + 4160 && aligned <= MAX_REQUEST
    ensures SpanPages(aligned) == 0
  {
    var k := aligned / 16;
    assert aligned == 16 * k;
    assert (aligned + 56) % U64 == aligned + 56;
    if aligned == MAX_REQUEST {
      assert RawAlign(aligned + 56) == 0;
    } else {
      assert (aligned + 56 + 15) % U64 == aligned + 71;
      assert (16 * k + 71) / 16 == k + 4;
      assert RawAlign(aligned + 56) == aligned + 64;
      assert (aligned + 64 + 4095) % U64 == aligned + 64 + 4095 - U64;
    }
  }

  /** A span of `n` pages from `base` became a block at the head of the list, and that was handed out. */
  ghost predicate Grown(s: Heap, t: Heap, base: nat, n: nat, critical: bool, aligned: nat, size: nat)
    requires n > 0
  {
    && t.rawPages == s.rawPages + PageRun(base, n)
    && var u := s.(raw := [base] + s.raw,
               blocks := s.blocks[base := Info(RawMagic, n * 4096 - 56, 0, true, critical, false, 0, 0xFFFFFFFF)]);
    HandedOut(u, t, 0, aligned, size)
  }

  lemma SamePages(n: int, m: int, bytes: int)
    requires (n - 1) * 4096 < bytes <= n * 4096 && (m - 1) * 4096 < bytes <= m * 4096
    ensures n == m
  {
  }

  lemma SpanHandedOut(s: Heap, phys: Phys, base: nat, n: nat, critical: bool, aligned: nat, size: nat)
    requires n > 0
    ensures var l := LinkSpan(s.(phys := phys), base, n, critical);
            && l.raw == [base] + s.raw && base in l.blocks
            && Grown(s, AllocateBlock(l, 0, aligned, size), base, n, critical, aligned, size)
  {
    hide AllocateBlock, PageRun;
    var l := LinkSpan(s.(phys := phys), base, n, critical);
    assert l.raw == [base] + s.raw;
    AllocateBlockIs(l, 0, aligned, size);
  }

  /** Freeing a live block: if the next block of the list is free, of the same kind, and starts where this one
      ends, the two are one free block of both sizes and a header, and the next has left the list; otherwise
      the list stays and only this block changes. */
  lemma FreeJoinsNext(s: Heap, i: nat)
    requires HeapInv(s) && i < |s.raw| && s.raw[i] in s.blocks && !s.blocks[s.raw[i]].free
    ensures Keyed(s.blocks, s.raw)
    ensures var a := s.raw[i]; var b := s.blocks[a]; var t := FreeRaw(s, a + 56);
            var freed := b.(free := true, requested := 0, objectCache := 0xFFFFFFFF);
            && t.stats.freeBytes == s.stats.freeBytes + b.size
            && (if i + 1 < |s.raw| && s.blocks[s.raw[i + 1]].free && s.blocks[s.raw[i + 1]].critical == b.critical
                   && s.raw[i + 1] == a + 56 + b.size
                then
                  var c := s.raw[i + 1];
                  && t.raw == s.raw[..i + 1] + s.raw[i + 2..]
                  && c !in t.blocks && t.blocks.Keys == s.blocks.Keys - {c}
                  && t.blocks[a] == freed.(size := b.size + 56 + s.blocks[c].size)
                  && (forall h :: h in t.blocks && h != a ==> t.blocks[h] == s.blocks[h])
                  && t.stats.coalesceCount == s.stats.coalesceCount + 1
                else
                  t.raw == s.raw && t.blocks == s.blocks[a := freed] && t.stats.coalesceCount == s.stats.coalesceCount)
  {
    KeyedInHeapInv(s);
    DistinctInInv(s);
    hide HeapInv, NoDuplicates;
    IndexOfUnique(s.raw, i);
    if i + 1 < |s.raw| {
      PairDiffers(s.raw, i);
      assert s.raw[i + 1] in s.raw;
    }
  }

  lemma DistinctInInv(s: Heap)
    requires HeapInv(s)
    ensures NoDuplicates(s.raw)
  {
  }

  lemma IndexOfUnique(raw: seq<nat>, i: nat)
    requires NoDuplicates(raw) && i < |raw|
    ensures IndexOfBlock(raw, raw[i]) == i
  {
  }

  // ----- Requests too large for 64 bits -----

  /** Raw blocks end below 2^64. */
  lemma RawBlockEnds(s: Heap, a: nat)
    requires HeapInv(s) && a in s.raw
    ensures a in s.blocks && a >= MIN_ALLOC_ADDRESS && a + HEADER + s.blocks[a].size <= U64
  {
    hide ListsOk, ObjectsOk, SumsOk, FreeBytesOk, RecordsInv;
    var sizes := Sizes(s.blocks);
    assert a in Members(s.raw);
    var last := a + HEADER + s.blocks[a].size - 1;
    assert Covers(sizes, a, a) && Covers(sizes, a, last);
    assert AlignDown(a) in s.phys.used && AlignDown(last) in s.phys.used;
    assert IsPage(AlignDown(a)) && IsPage(AlignDown(last));
    LastPage(AlignDown(last));
  }

  lemma LastPage(page: nat)
    requires IsPage(page)
    ensures page + PAGE_SIZE <= U64
  {
  }

  /** So what a split adds to the size of a block that fits does not wrap. */
  lemma SplitSumFits(s: Heap, i: nat, aligned: nat)
    requires HeapInv(s) && i < |s.raw| && s.raw[i] in s.blocks && aligned <= s.blocks[s.raw[i]].size
    ensures aligned + HEADER + MIN_SPLIT < U64
  {
    RawBlockEnds(s, s.raw[i]);
  }

  /** Requests in the last 63 bytes below 2^64 are not refused as they should be: the rounded sizes wrap,
      and whenever there is a page, or for the very last 15 any free block, a block is handed out, and
      it is too small. */
  lemma OversizedExact(s: Heap, size: nat, critical: bool)
    requires HeapInv(s) && MAX_REQUEST < size < U64
    ensures var (t, p) := AllocateRaw(s, size, critical);
            && (p != 0 <==> || (size > U64 - 16 && exists a :: a in s.raw && Usable(s.blocks[a], 0, critical))
                            || TakeSpan(s.phys, 1, if critical then 4 else 0).1 != ALLOC_FAIL)
            && (p == 0 ==> HeapInv(t) && Held(t) == Held(s))
            && (p != 0 ==> p - HEADER in t.blocks && t.blocks[p - HEADER].size < size)
  {
    hide HeapInv, TakeSpan, Inv, Held, LinkSpan, AllocateBlock;
    SpanWraps(size);
    KeyedInHeapInv(s);
    var aligned := RawAlign(size);
    var i := FindFree(s.blocks, s.raw, 0, aligned, critical);
    if i < |s.raw| {
      RawBlockEnds(s, s.raw[i]);
      HandedOutSize(s, i, aligned, size);
    } else {
      forall a | a in s.raw ensures !Usable(s.blocks[a], aligned, critical) {
        var j :| 0 <= j < |s.raw| && s.raw[j] == a;
      }
      OversizedSpan(s, aligned, critical);
      var (t, ok) := AddSpan(s, aligned, critical);
      if ok {
        HandedOutSize(t, 0, aligned, size);
      } else {
        OnlyFailedHeld(t);
      }
    }
  }

  lemma OversizedSpan(s: Heap, aligned: nat, critical: bool)
    requires HeapInv(s) && SpanPages(aligned) == 1
    ensures var (t, ok) := AddSpan(s, aligned, critical);
            && (ok <==> TakeSpan(s.phys, 1, if critical then 4 else 0).1 != ALLOC_FAIL)
            && (!ok ==> HeapInv(t) && Held(t) == Held(s))
            && (ok ==> t.raw != [] && t.raw[0] in t.blocks && t.blocks[t.raw[0]].size == PAGE_SIZE - HEADER)
  {
    hide HeapInv, TakeSpan, Inv;
    var tag := if critical then 4 else 0;
    PhysOf(s);
    TakeSpanExact(s.phys, 1, tag);
    var (phys, base) := TakeSpan(s.phys, 1, tag);
    if base == ALLOC_FAIL {
      OnlyFailed(s, phys);
    }
  }

  lemma PhysOf(s: Heap)
    requires HeapInv(s)
    ensures Inv(s.phys)
  {
  }

  lemma HandedOutSize(s: Heap, i: nat, aligned: nat, size: nat)
    requires i < |s.raw| && s.raw[i] in s.blocks
    ensures var t := AllocateBlock(s, i, aligned, size);
            s.raw[i] in t.blocks && t.blocks[s.raw[i]].size <= s.blocks[s.raw[i]].size
  {
  }

  /** A raw allocation does what it promises exactly for requests up to 2^64 - 64, or when it fails. */
  lemma AllocateRawRightExactly(s: Heap, size: nat, critical: bool)
    requires HeapInv(s) && size < U64
    ensures var (t, p) := AllocateRaw(s, size, critical);
            (if p == 0 then HeapInv(t) && Held(t) == Held(s)
             else HeapInv(t) && p >= HEADER && p - HEADER in t.blocks && t.blocks[p - HEADER].size >= size)
            <==> size <= MAX_REQUEST || p == 0
  {
    hide HeapInv, Held, AllocateRaw;
    if size <= MAX_REQUEST {
      AllocateRawExact(s, size, critical);
    } else {
      OversizedExact(s, size, critical);
    }
  }

  lemma KeyedInHeapInv(s: Heap)
    requires HeapInv(s)
    ensures Keyed(s.blocks, s.raw) && Keyed(s.blocks, s.slab)
  {
  }

  lemma OnlyFailedHeld(s: Heap)
    requires HeapInv(s)
    ensures var t := s.(stats := s.stats.(failedAllocations := s.stats.failedAllocations + 1));
            HeapInv(t) && Held(t) == Held(s)
  {
    OnlyFailed(s, s.phys);
  }

  lemma MarkFreeHeapInv(s: Heap, a: nat)
    requires HeapInv(s) && a in s.raw && a in s.blocks && !s.blocks[a].free
    ensures HeapInv(MarkFree(s, a)) && Held(MarkFree(s, a)) == Held(s) - {a}
  {
    hide RawInv, SumsOk, FreeBytesOk, ListsOk, ObjectsOk, KindsOk, Inv, Layout, SameSlabSide;
    SplitHeapInv(s);
    MarkFreeKeeps(s, a);
    var t := MarkFree(s, a);
    KeyedInRawInv(t);
    assert FreeBytesOk(t) by { FreeBytesAfterFree(s, a); }
    HeapInvFromRaw(s, t);
  }

  lemma CoalesceHeapInv(s: Heap, i: nat)
    requires HeapInv(s) && i < |s.raw|
    ensures HeapInv(CoalesceWithNext(s, i)) && Held(CoalesceWithNext(s, i)) == Held(s)
  {
    hide RawInv, SumsOk, FreeBytesOk, ListsOk, ObjectsOk, KindsOk, Inv, Layout, SameSlabSide, Held;
    SplitHeapInv(s);
    CoalesceKeeps(s, i);
    HeapInvFromRaw(s, CoalesceWithNext(s, i));
    CoalesceHeld(s, i);
  }

  lemma FreeBytesAfterFree(s: Heap, a: nat)
    requires RawInv(s) && FreeBytesOk(s) && a in s.raw && !s.blocks[a].free
    requires Keyed(MarkFree(s, a).blocks, s.raw) && Keyed(MarkFree(s, a).blocks, s.slab)
    ensures FreeBytesOk(MarkFree(s, a))
  {
    hide SumsOk, Layout, NoDuplicates;
    MarkFreeKeeps(s, a);
  }

  /** Joining free blocks concerns no allocation. */
  lemma CoalesceHeld(s: Heap, i: nat)
    requires i < |s.raw| && Keyed(s.blocks, s.raw)
    ensures Held(CoalesceWithNext(s, i)) == Held(s)
  {
  }

  /** Freeing a raw allocation ends exactly that allocation; a block already free and a
      pointer that is no raw block are counted and change nothing. */
  lemma FreeRawExact(s: Heap, p: nat)
    requires HeapInv(s)
    ensures var t := FreeRaw(s, p);
            && HeapInv(t)
            && (if p >= HEADER && p - HEADER in s.raw && p - HEADER in Held(s) then Held(t) == Held(s) - {p - HEADER}
                else if p >= HEADER && p - HEADER in s.raw then
                  t == s.(stats := s.stats.(doubleFrees := s.stats.doubleFrees + 1))
                else t == s.(stats := s.stats.(invalidFrees := s.stats.invalidFrees + 1)))
  {
    hide HeapInv, CoalesceWithNext;
    KeyedInHeapInv(s);
    if p < HEADER || p - HEADER !in s.raw {
      OnlyEvents(s, FreeRaw(s, p));
    } else if s.blocks[p - HEADER].free {
      OnlyEvents(s, FreeRaw(s, p));
    } else {
      MarkFreeHeapInv(s, p - HEADER);
      KeyedInHeapInv(MarkFree(s, p - HEADER));
      CoalesceHeapInv(MarkFree(s, p - HEADER), IndexOfBlock(s.raw, p - HEADER));
    }
  }

  /** Event counters are not part of the invariant. */
  lemma OnlyEvents(s: Heap, t: Heap)
    requires HeapInv(s)
    requires t == s.(stats := s.stats.(invalidFrees := t.stats.invalidFrees, doubleFrees := t.stats.doubleFrees,
                                       failedAllocations := t.stats.failedAllocations))
    ensures HeapInv(t) && Held(t) == Held(s)
  {
    hide Inv, Layout, ListsOk, ObjectsOk;
  }

  /** Round trip: freeing what was just allocated gives back exactly the allocations before. */
  lemma AllocateThenFreeRaw(s: Heap, size: nat, critical: bool)
    requires HeapInv(s) && size <= MAX_REQUEST
    ensures var (t, p) := AllocateRaw(s, size, critical);
            p != 0 ==> Keyed(t.blocks, t.raw) && HeapInv(FreeRaw(t, p)) && Held(FreeRaw(t, p)) == Held(s)
  {
    hide HeapInv, FreeRaw, Held, AllocateRaw;
    KeyedInHeapInv(s);
    AllocateRawExact(s, size, critical);
    var (t, p) := AllocateRaw(s, size, critical);
    if p != 0 {
      KeyedInHeapInv(t);
      FreeRawExact(t, p);
      assert Held(s)[p - HEADER := size] - {p - HEADER} == Held(s);
    }
  }
}
