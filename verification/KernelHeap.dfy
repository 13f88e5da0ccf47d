/** The heap object: headers in memory, the linked block list, free lists threaded through the
    slab objects, and the statistics. Each method is tied to its function on the heap's value. */
module KernelHeap {
  import opened Collections
  import opened PhysicalMemorySpec
  import opened PhysicalAllocator
  import opened HeapLayout
  import opened HeapBlocks
  import opened HeapPages
  import opened HeapLinks
  import opened HeapState
  import opened HeapRaw
  import opened HeapSlab
  import opened HeapApi
  import opened HeapObjects
  import opened HeapRun

  /** A slab cache's record; `freeList` is the payload of its first free object, 0 for none. */
  datatype SlabRecord = SlabRecord(
    objectSize: nat,
    freeList: nat,
    statsObjectSize: nat,
    objectsPerPage: nat,
    pages: nat,
    active: nat,
    freeCount: nat)

  function Assemble(r: SlabRecord, list: seq<nat>): SlabCache {
    SlabCache(r.objectSize, r.statsObjectSize, r.objectsPerPage, r.pages, r.active, r.freeCount, list)
  }

  function AssembleAll(slabs: seq<SlabRecord>, lists: seq<seq<nat>>): (r: seq<SlabCache>)
    requires |lists| == |slabs|
    ensures |r| == |slabs|
    ensures forall c :: 0 <= c < |slabs| ==> r[c] == Assemble(slabs[c], lists[c])
  {
    seq(|slabs|, c requires 0 <= c < |slabs| => Assemble(slabs[c], lists[c]))
  }

  lemma AssembleUpdate(slabs: seq<SlabRecord>, lists: seq<seq<nat>>, c: nat, r: SlabRecord, list: seq<nat>)
    requires |lists| == |slabs| && c < |slabs|
    ensures AssembleAll(slabs[c := r], lists[c := list]) == AssembleAll(slabs, lists)[c := Assemble(r, list)]
  {
  }

  class KernelHeap {
    const Physical: Allocator
    var Headers: map<nat, Info>
    var Links: map<nat, Link>
    var Head: nat
    var FreeNext: map<nat, nat>
    var Slabs: seq<SlabRecord>
    var ObjectCaches: seq<ObjectCache>
    var Stats: Stats
    ghost var Raw: seq<nat>
    ghost var SlabObjects: seq<nat>
    ghost var Lists: seq<seq<nat>>
    ghost var RawPages: set<nat>
    ghost var SlabPages: set<nat>

    ghost function Repr(): set<object>
    {
      {this, Physical, Physical.FreePages, Physical.PageRecords}
    }

    /** The pointers represent the block list and the free lists. */
    ghost predicate Valid()
      reads this, Physical
    {
      && Physical.Valid()
      && Linked(Links, Head, Raw)
      && |Slabs| == |Lists|
      && forall c :: 0 <= c < |Lists| ==> Chained(FreeNext, Slabs[c].freeList, Lists[c])
    }

    ghost function State(): Heap
      requires Valid()
      reads this, Physical, Physical.FreePages, Physical.PageRecords
    {
      Heap(Headers, Raw, SlabObjects, RawPages, SlabPages, AssembleAll(Slabs, Lists), ObjectCaches, Stats, Physical.State())
    }

    /** Clears every record; the heap has no pages yet. */
    constructor (physical: Allocator)
      requires physical.Valid()
      ensures Physical == physical && Valid() && State() == Reset(physical.State())
    {
      Physical := physical;
      Headers, Links, Head, FreeNext := map[], map[], 0, map[];
      Slabs := seq(SLAB_CACHE_COUNT, (c: nat) => SlabRecord(SlabSize(c), 0, SlabSize(c), 0, 0, 0, 0));
      ObjectCaches := seq(OBJECT_CACHE_COUNT, (k: nat) => ObjectCache(false, 0, 0, 0, 0, 0));
      Stats := NO_STATS;
      Raw, SlabObjects := [], [];
      Lists := seq(SLAB_CACHE_COUNT, (c: nat) => []);
      RawPages, SlabPages := {}, {};
    }

    // ----- The block list -----

    method LinkBlock(block: nat)
      requires Valid() && block !in Raw && block != 0
      modifies this`Links, this`Head, this`Raw
      ensures Valid() && Raw == InsertAt(old(Raw), 0, block)
    {
      LinkFront(Links, Head, Raw, block);
      Links := Links[block := Link(0, Head)];
      if Head != 0 {
        Links := Links[Head := Links[Head].(previous := block)];
      }
      Head := block;
      Raw := InsertAt(Raw, 0, block);
    }

    method LinkSplit(block: nat, split: nat)
      requires Valid() && block in Raw && split !in Raw && split != 0
      modifies this`Links, this`Raw
      ensures Valid() && Raw == InsertAt(old(Raw), IndexOfBlock(old(Raw), block) + 1, split)
    {
      ghost var i := IndexOfBlock(Raw, block);
      LinkBehind(Links, Head, Raw, i, split);
      var next := Links[block].next;
      Links := Links[split := Link(block, next)];
      if next != 0 {
        Links := Links[next := Links[next].(previous := split)];
      }
      Links := Links[block := Links[block].(next := split)];
      Raw := InsertAt(Raw, i + 1, split);
    }

    method UnlinkBlock(block: nat)
      requires Valid() && block in Raw
      modifies this`Links, this`Head, this`Raw
      ensures Valid() && Raw == RemoveAt(old(Raw), IndexOfBlock(old(Raw), block))
    {
      ghost var i := IndexOfBlock(Raw, block);
      Unlink(Links, Head, Raw, i);
      var previous, next := Links[block].previous, Links[block].next;
      if previous != 0 {
        Links := Links[previous := Links[previous].(next := next)];
      } else {
        Head := next;
      }
      if next != 0 {
        Links := Links[next := Links[next].(previous := previous)];
      }
      Links := Links - {block};
      Raw := RemoveAt(Raw, i);
    }

    /** Walks the list; returns 0 when no block is usable. */
    method FindFreeBlock(size: nat, critical: bool) returns (block: nat)
      requires Valid() && Keyed(Headers, Raw)
      ensures var k := FindFree(Headers, Raw, 0, size, critical);
              block == if k < |Raw| then Raw[k] else 0
    {
      ghost var i := 0;
      var cursor := Head;
      while cursor != 0
        invariant i <= |Raw| && cursor == if i < |Raw| then Raw[i] else 0
        invariant FindFree(Headers, Raw, i, size, critical) == FindFree(Headers, Raw, 0, size, critical)
        decreases |Raw| - i
      {
        assert NodeOk(Links, Raw, i) && Raw[i] in Raw;
        if Usable(Headers[cursor], size, critical) {
          return cursor;
        }
        cursor := Links[cursor].next;
        i := i + 1;
      }
      return 0;
    }

    // ----- Growing by a span -----

    method FreePages(pages: seq<nat>)
      requires Physical.Valid()
      modifies Physical, Physical.FreePages, Physical.PageRecords
      ensures Physical.Valid() && Physical.State() == PutPages(old(Physical.State()), pages)
    {
      hide PhysicalMemorySpec.FreePage;
      for index := 0 to |pages|
        invariant Physical.Valid()
        invariant PutPages(Physical.State(), pages[index..]) == PutPages(old(Physical.State()), pages)
      {
        assert pages[index..][0] == pages[index] && pages[index..][1..] == pages[index + 1..];
        var _ := Physical.FreePage(pages[index]);
      }
      assert pages[|pages|..] == [];
    }

    method AllocateHeapPage(tag: nat) returns (page: nat)
      requires Physical.Valid()
      modifies Physical, Physical.FreePages, Physical.PageRecords
      ensures Physical.Valid() && (Physical.State(), page) == TakeHeapPage(old(Physical.State()), tag)
    {
      page := Physical.AllocatePage();
      if page != ALLOC_FAIL {
        var _ := Physical.SetPageOwner(page, OWNER_KERNEL_HEAP, tag);
      }
    }

    /** Takes pages until `count` are there or none is left, noting the lowest and highest. */
    method CollectPages(count: nat, tag: nat) returns (allocatedPages: seq<nat>, lowestPage: nat, highestPage: nat)
      requires Physical.Valid() && Inv(Physical.State())
      modifies Physical, Physical.FreePages, Physical.PageRecords
      ensures Physical.Valid() && (Physical.State(), allocatedPages) == TakePages(old(Physical.State()), count, tag)
      ensures 0 !in allocatedPages && lowestPage == Lowest(allocatedPages) && highestPage == Highest(allocatedPages)
    {
      hide TakeHeapPage, Inv, TakePages, Lowest, Highest;
      ghost var s := Physical.State();
      allocatedPages, lowestPage, highestPage := [], 0, 0;
      CollectStart(s, count, tag);
      for index := 0 to count
        invariant 0 !in allocatedPages && Physical.Valid()
        invariant lowestPage == Lowest(allocatedPages) && highestPage == Highest(allocatedPages)
        invariant Collecting(s, count, tag, Physical.State(), count - index, allocatedPages)
      {
        CollectStep(s, count, tag, Physical.State(), count - index, allocatedPages);
        var page := AllocateHeapPage(tag);
        if page == ALLOC_FAIL {
          return;
        }
        LowestHighestStep(allocatedPages, page);
        allocatedPages := allocatedPages + [page];
        if lowestPage == 0 || page < lowestPage {
          lowestPage := page;
        }
        if page > highestPage {
          highestPage := page;
        }
      }
      CollectEnd(s, count, tag, Physical.State(), allocatedPages);
    }

    /** The pages of a span, or 0 with every page that was taken handed back. */
    method TakeSpanPages(count: nat, tag: nat) returns (base: nat)
      requires Physical.Valid() && Inv(Physical.State()) && count > 0
      modifies Physical, Physical.FreePages, Physical.PageRecords
      ensures Physical.Valid() && (Physical.State(), base) == TakeSpan(old(Physical.State()), count, tag)
    {
      hide TakePages, Inv, PutPages, Lowest, Highest;
      TakePagesKeeps(Physical.State(), count, tag);
      var allocatedPages, lowestPage, highestPage := CollectPages(count, tag);
      if |allocatedPages| < count {
        FreePages(allocatedPages);
        return ALLOC_FAIL;
      }
      if count > 1 && highestPage - lowestPage != (count - 1) * PAGE_SIZE {
        FreePages(allocatedPages);
        return ALLOC_FAIL;
      }
      return lowestPage;
    }

    method AddHeapSpan(aligned: nat, critical: bool) returns (ok: bool)
      requires Valid() && HeapInv(State()) && aligned <= MAX_REQUEST && aligned % 16 == 0
      modifies Repr()
      ensures Valid() && (State(), ok) == AddSpan(old(State()), aligned, critical)
    {
      hide HeapInv, Inv, TakeSpan, Linked, Chained, PageRun, SpanPages, LinkSpan, IsPage, FreeSet;
      ghost var s := State();
      PhysInHeapInv(s);
      var pages := SpanPages(aligned);
      if pages == 0 || pages > MAX_SPAN_PAGES {
        Stats := Stats.(failedAllocations := Stats.failedAllocations + 1);
        return false;
      }
      ghost var tag := if critical then 4 else 0;
      TakeSpanExact(s.phys, pages, tag);
      var base := TakeSpanPages(pages, if critical then 4 else 0);
      if base == ALLOC_FAIL {
        Stats := Stats.(failedAllocations := Stats.failedAllocations + 1);
        return false;
      }
      FreshBase(s, pages, tag);
      LinkNewSpan(base, pages, critical);
      return true;
    }

    /** The pages become one free block at the head of the list. */
    method LinkNewSpan(base: nat, pages: nat, critical: bool)
      requires Valid() && base !in Raw && base != 0 && pages > 0
      modifies this
      ensures Valid() && State() == LinkSpan(old(State()), base, pages, critical)
    {
      hide Linked, Chained, PageRun, FreshSpan, InsertAt;
      LinkBlock(base);
      RawPages := RawPages + PageRun(base, pages);
      Headers, Stats := Headers[base := FreshSpan(pages, critical)], Stats.(heapPages := Stats.heapPages + pages, freeBytes := Stats.freeBytes + (pages * PAGE_SIZE - HEADER));
    }

    // ----- Raw blocks -----

    method SplitBlockIfUseful(block: nat, aligned: nat)
      requires Valid() && RawInv(State()) && block in Raw && block in Headers
      requires aligned % 16 == 0 && aligned <= Headers[block].size
      modifies this
      ensures Valid() && State() == SplitIfUseful(old(State()), IndexOfBlock(old(Raw), block), aligned)
      ensures block in Raw && block in Headers
    {
      hide RawInv, Linked, Chained, InsertAt;
      ghost var s := State();
      KeyedInRawInv(s);
      if Headers[block].size <= aligned + HEADER + MIN_SPLIT {
        return;
      }
      FreshSplit(s, IndexOfBlock(Raw, block), aligned);
      CutBlock(block, block + HEADER + aligned, aligned);
    }

    /** The block's tail becomes a free block of its own, linked behind it. */
    method CutBlock(block: nat, split: nat, aligned: nat)
      requires Valid() && block in Raw && block in Headers && split !in Raw && split != block && split != 0
      requires aligned + HEADER <= Headers[block].size
      modifies this
      ensures Valid() && block in Raw && block in Headers
      ensures var s := old(State()); var b := s.blocks[block];
              var rest := Info(RawMagic, b.size - aligned - HEADER, 0, true, b.critical, false, 0, NO_OBJECT_CACHE);
              State() == s.(blocks := s.blocks[block := b.(size := aligned)][split := rest],
                         raw := InsertAt(s.raw, IndexOfBlock(s.raw, block) + 1, split),
                         stats := s.stats.(freeBytes := s.stats.freeBytes + rest.size))
    {
      hide Linked, Chained, AssembleAll, InsertAt;
      var b := Headers[block];
      var rest := Info(RawMagic, b.size - aligned - HEADER, 0, true, b.critical, false, 0, NO_OBJECT_CACHE);
      ghost var i := IndexOfBlock(Raw, block);
      LinkSplit(block, split);
      assert Raw[i] == block by {
        InsertedBehind(old(Raw), i, split);
      }
      Headers, Stats := Headers[block := b.(size := aligned)][split := rest], Stats.(freeBytes := Stats.freeBytes + rest.size);
    }

    static lemma InsertedBehind(list: seq<nat>, i: nat, a: nat)
      requires i < |list|
      ensures InsertAt(list, i + 1, a)[i] == list[i] && |InsertAt(list, i + 1, a)| == |list| + 1
    {
    }

    /** Whether `first` ends where `second` starts. */
    predicate BlocksTouch(first: nat, second: nat)
      requires first in Headers
      reads this
    {
      first + HEADER + Headers[first].size == second
    }

    method CoalesceWithNext(block: nat)
      requires Valid() && RawInv(State()) && block in Raw
      modifies this
      ensures Valid() && State() == HeapRaw.CoalesceWithNext(old(State()), IndexOfBlock(old(Raw), block))
    {
      hide RawInv, Linked, Chained, RemoveAt;
      ghost var s := State();
      KeyedInRawInv(s);
      ghost var i := IndexOfBlock(Raw, block);
      LinkAt(Links, Head, Raw, i);
      var next := Links[block].next;
      if next == 0 {
        return;
      }
      assert next == Raw[i + 1] && next in Raw;
      if !Headers[block].free || !Headers[next].free || Headers[block].critical != Headers[next].critical ||
         !BlocksTouch(block, next) {
        return;
      }
      IndexOfUniqueLinked(Links, Head, Raw, i + 1);
      AbsorbBlock(block, next);
    }

    /** The block grows over the one right behind it, which leaves the list. */
    method AbsorbBlock(block: nat, next: nat)
      requires Valid() && block in Raw && next in Raw && block in Headers && next in Headers && block != next
      modifies this
      ensures Valid()
      ensures var s := old(State()); var b := s.blocks[block];
              State() == s.(blocks := (s.blocks - {next})[block := b.(size := b.size + HEADER + s.blocks[next].size)],
                         raw := RemoveAt(s.raw, IndexOfBlock(s.raw, next)),
                         stats := s.stats.(coalesceCount := s.stats.coalesceCount + 1))
    {
      hide Linked, Chained, RemoveAt, AssembleAll;
      var size := Headers[block].size + HEADER + Headers[next].size;
      UnlinkBlock(next);
      Headers, Stats := (Headers - {next})[block := Headers[block].(size := size)], Stats.(coalesceCount := Stats.coalesceCount + 1);
    }

    method AllocateRaw(size: nat, critical: bool) returns (pointer: nat)
      requires Valid() && HeapInv(State()) && size <= MAX_REQUEST
      modifies Repr()
      ensures Valid() && Keyed(old(State()).blocks, old(State()).raw)
      ensures (State(), pointer) == HeapRaw.AllocateRaw(old(State()), size, critical)
    {
      hide HeapInv, RawInv, Linked, Chained, AddSpan, FindFree, SplitIfUseful;
      KeyedInHeapInv(State());
      if size == 0 {
        return 0;
      }
      ghost var s := State();
      RawAlignExact(size);
      var aligned := RawAlign(size);
      var block := FindFreeBlock(aligned, critical);
      ghost var k := FindFree(Headers, Raw, 0, aligned, critical);
      if k < |Raw| { LinkAt(Links, Head, Raw, k); }
      if block == 0 {
        AddSpanKeeps(s, aligned, critical);
        var ok := AddHeapSpan(aligned, critical);
        if !ok {
          Stats := Stats.(failedAllocations := Stats.failedAllocations + 1);
          return 0;
        }
        block := Head;
        HeadLinked(Links, Head, Raw);
        k := 0;
      }
      IndexOfUniqueLinked(Links, Head, Raw, k);
      TakeBlock(block, aligned, size);
      return block + HEADER;
    }

    /** A free block large enough becomes the allocation: count its bytes out, split, mark. */
    method TakeBlock(block: nat, aligned: nat, size: nat)
      requires Valid() && HeapInv(State()) && block in Raw && block in Headers && Headers[block].free
      requires 0 < size <= MAX_REQUEST && aligned == RawAlign(size) && aligned <= Headers[block].size
      modifies this
      ensures Valid()
      ensures State() == AllocateBlock(old(State()), IndexOfBlock(old(Raw), block), aligned, size)
    {
      hide HeapInv, RawInv, Linked, Chained, SplitIfUseful, RefreshLeaks, Sub, AssembleAll;
      ghost var s := State();
      RawAlignExact(size);
      SplitHeapInv(s);
      Stats := Stats.(freeBytes := Sub(Stats.freeBytes, Headers[block].size));
      assert State() == RemoveFreeBytes(s, s.blocks[block].size);
      RemoveFreeBytesKeeps(s, s.blocks[block].size);
      SplitBlockIfUseful(block, aligned);
      var b := Headers[block];
      Headers, Stats :=
        Headers[block := b.(free := false, requested := size, objectCache := NO_OBJECT_CACHE)],
        RefreshLeaks(Stats.(allocatedBytes := Stats.allocatedBytes + b.size,
                            requestedBytes := Stats.requestedBytes + size,
                            activeAllocations := Stats.activeAllocations + 1,
                            activeRaw := Stats.activeRaw + 1));
    }

    method FreeRaw(pointer: nat)
      requires Valid() && HeapInv(State())
      modifies this
      ensures Valid() && Keyed(old(State()).blocks, old(State()).raw)
      ensures State() == HeapRaw.FreeRaw(old(State()), pointer)
    {
      hide HeapInv, RawInv, Linked, Chained, HeapRaw.CoalesceWithNext, RefreshLeaks, Sub, AssembleAll;
      ghost var s := State();
      KeyedInHeapInv(s);
      SplitHeapInv(s);
      RawMagicMeansListed(s);
      if pointer < HEADER || pointer - HEADER !in Headers || Headers[pointer - HEADER].magic != RawMagic {
        Stats := Stats.(invalidFrees := Stats.invalidFrees + 1);
        return;
      }
      var block := pointer - HEADER;
      if Headers[block].free {
        Stats := Stats.(doubleFrees := Stats.doubleFrees + 1);
        return;
      }
      MarkFreeKeeps(s, block);
      var b := Headers[block];
      Headers, Stats :=
        Headers[block := b.(free := true, requested := 0, objectCache := NO_OBJECT_CACHE)],
        RefreshLeaks(Stats.(allocatedBytes := Sub(Stats.allocatedBytes, b.size),
                            requestedBytes := Sub(Stats.requestedBytes, b.requested),
                            freeBytes := Stats.freeBytes + b.size,
                            activeAllocations := Sub(Stats.activeAllocations, 1),
                            activeRaw := Sub(Stats.activeRaw, 1)));
      assert State() == MarkFree(s, block);
      CoalesceWithNext(block);
    }

    // ----- Slab caches -----

    /** The object's first word becomes the link; it heads the free list of cache `c`. */
    method PushObject(c: nat, h: nat)
      requires Valid() && c < |Slabs| && forall d :: 0 <= d < |Lists| ==> h !in Lists[d]
      modifies this`FreeNext, this`Slabs, this`Lists
      ensures Valid() && |Slabs| == |old(Slabs)| && |Lists| == |old(Lists)|
      ensures AssembleAll(Slabs, Lists)
           == var k := AssembleAll(old(Slabs), old(Lists))[c];
              AssembleAll(old(Slabs), old(Lists))[c := k.(list := [h] + k.list, freeCount := k.freeCount + 1)]
    {
      hide Linked;
      var r := Slabs[c];
      forall d | 0 <= d < |Lists| ensures Chained(FreeNext[h + HEADER := r.freeList], Slabs[d].freeList, Lists[d]) {
        ChainFrame(FreeNext, Slabs[d].freeList, Lists[d], h, r.freeList);
      }
      ChainPush(FreeNext, r.freeList, Lists[c], h);
      AssembleUpdate(Slabs, Lists, c, r.(freeList := h + HEADER, freeCount := r.freeCount + 1), [h] + Lists[c]);
      FreeNext := FreeNext[h + HEADER := r.freeList];
      Slabs := Slabs[c := r.(freeList := h + HEADER, freeCount := r.freeCount + 1)];
      Lists := Lists[c := [h] + Lists[c]];
    }

    method CarveOne(c: nat, h: nat)
      requires Valid() && c < |Slabs| && h !in Headers
      requires forall d :: 0 <= d < |Lists| ==> h !in Lists[d]
      modifies this
      ensures Valid() && |Slabs| == |old(Slabs)| && State() == CarveObject(old(State()), c, h)
    {
      hide Linked, Chained;
      Headers := Headers[h := FreshObject(c)];
      SlabObjects := SlabObjects + [h];
      PushObject(c, h);
    }

    method GrowSlabCache(c: nat) returns (ok: bool)
      requires Valid() && HeapInv(State()) && c < SLAB_CACHE_COUNT
      modifies Repr()
      ensures Valid() && c < |old(State()).caches|
      ensures (State(), ok) == HeapSlab.GrowSlabCache(old(State()), c)
    {
      hide HeapInv, Inv, Linked, Chained, TakeHeapPage, Carving, CarvePage;
      ghost var s := State();
      GrowKeeps(s, c);
      PhysInHeapInv(s);
      TakeHeapPageKeeps(s.phys, SLAB_TAG);
      var page := AllocateHeapPage(SLAB_TAG);
      if page == ALLOC_FAIL {
        Stats := Stats.(failedAllocations := Stats.failedAllocations + 1);
        return false;
      }
      AddSlabPageKeeps(s, c, Physical.State(), page);
      TakeSlabPage(c, page);
      CarveAll(c, page);
      Stats := Stats.(freeBytes := Stats.freeBytes + ObjectsPerPage(c) * SlabSize(c));
      return true;
    }

    method TakeSlabPage(c: nat, page: nat)
      requires Valid() && c < |Slabs|
      modifies this`Slabs, this`Stats, this`SlabPages
      ensures Valid() && |Slabs| == |old(Slabs)| && State() == AddSlabPage(old(State()), c, page)
    {
      hide Linked;
      var r := Slabs[c];
      AssembleUpdate(Slabs, Lists, c, r.(pages := r.pages + 1, objectsPerPage := ObjectsPerPage(c)), Lists[c]);
      assert Lists[c := Lists[c]] == Lists;
      Slabs := Slabs[c := r.(pages := r.pages + 1, objectsPerPage := ObjectsPerPage(c))];
      SlabPages := SlabPages + {page};
      Stats := Stats.(heapPages := Stats.heapPages + 1);
    }

    method CarveAll(c: nat, page: nat)
      requires Valid() && c < |Slabs| && Carving(State(), c, page, 0)
      modifies this
      ensures Valid() && State() == CarvePage(old(State()), c, page, 0)
    {
      hide Carving, Linked, Chained, CarveObject;
      var index := 0;
      while index < ObjectsPerPage(c)
        invariant index <= ObjectsPerPage(c)
        invariant Valid() && c < |Slabs| && |Slabs| == |old(Slabs)| && Carving(State(), c, page, index)
        invariant CarvePage(State(), c, page, index) == CarvePage(old(State()), c, page, 0)
      {
        FreshSlabObject(State(), c, page, index);
        CarveStep(State(), c, page, index);
        CarveOne(c, ObjectAt(c, page, index));
        index := index + 1;
      }
    }

    method SlabAllocate(c: nat, requested: nat) returns (pointer: nat)
      requires Valid() && HeapInv(State()) && c < SLAB_CACHE_COUNT
      modifies Repr()
      ensures Valid()
      ensures (State(), pointer) == HeapSlab.SlabAllocate(old(State()), c, requested)
    {
      hide HeapInv, Linked, Chained, HeapSlab.GrowSlabCache;
      ghost var s := State();
      SlabAllocateReady(s, c);
      ListHead(c);
      if Slabs[c].freeList == 0 {
        GrowKeeps(s, c);
        var ok := GrowSlabCache(c);
        if !ok {
          return 0;
        }
        ListHead(c);
      }
      pointer := Slabs[c].freeList;
      PopObject(c, requested);
    }

    lemma ListHead(c: nat)
      requires Valid() && c < |Slabs|
      ensures Slabs[c].freeList == if Lists[c] == [] then 0 else Lists[c][0] + HEADER
    {
      assert Chained(FreeNext, Slabs[c].freeList, Lists[c]);
    }

    /** The head of the free list goes to a caller. */
    method PopObject(c: nat, requested: nat)
      requires Valid() && c < |Slabs| && Lists[c] != [] && Lists[c][0] in Headers
      modifies this
      ensures Valid() && State() == TakeObject(old(State()), c, requested)
    {
      hide Linked;
      ChainPop(FreeNext, Slabs[c].freeList, Lists[c]);
      ListHead(c);
      var payload := Slabs[c].freeList;
      var block := payload - HEADER;
      var r := Slabs[c];
      var s := r.(freeList := FreeNext[payload], freeCount := Sub(r.freeCount, 1), active := r.active + 1);
      AssembleUpdate(Slabs, Lists, c, s, Lists[c][1..]);
      Slabs := Slabs[c := s];
      Lists := Lists[c := Lists[c][1..]];
      var b := Headers[block];
      Headers, Stats :=
        Headers[block := b.(free := false, requested := requested, objectCache := NO_OBJECT_CACHE)],
        RefreshLeaks(Stats.(freeBytes := Sub(Stats.freeBytes, b.size),
                            allocatedBytes := Stats.allocatedBytes + b.size,
                            requestedBytes := Stats.requestedBytes + requested,
                            activeAllocations := Stats.activeAllocations + 1,
                            activeSlab := Stats.activeSlab + 1));
    }

    method SlabFree(pointer: nat) returns (handled: bool)
      requires Valid() && HeapInv(State())
      modifies this
      ensures Valid() && (State(), handled) == HeapSlab.SlabFree(old(State()), pointer)
    {
      hide HeapInv, Linked, Chained;
      ghost var s := State();
      SlabFreeReady(s);
      RawMagicMeansListed(s);
      if pointer < HEADER || pointer - HEADER !in Headers || Headers[pointer - HEADER].magic != SlabMagic {
        return false;
      }
      var block := pointer - HEADER;
      if Headers[block].free {
        Stats := Stats.(doubleFrees := Stats.doubleFrees + 1);
        return true;
      }
      NotInLists(s, block);
      GiveBack(block);
      return true;
    }

    /** The object goes to the head of its cache's free list. */
    method GiveBack(block: nat)
      requires Valid() && block in Headers && Headers[block].slabCache < |Slabs|
      requires forall d :: 0 <= d < |Lists| ==> block !in Lists[d]
      modifies this
      ensures Valid() && State() == ReturnObject(old(State()), block)
    {
      hide Linked, Chained, RefreshLeaks, Sub;
      var b := Headers[block];
      var c := b.slabCache;
      var r := Slabs[c];
      AssembleUpdate(Slabs, Lists, c, r.(active := Sub(r.active, 1)), Lists[c]);
      assert Lists[c := Lists[c]] == Lists;
      Slabs := Slabs[c := r.(active := Sub(r.active, 1))];
      PushObject(c, block);
      Headers, Stats :=
        Headers[block := b.(free := true, requested := 0, objectCache := NO_OBJECT_CACHE, objectFlag := false)],
        RefreshLeaks(Stats.(freeBytes := Stats.freeBytes + b.size,
                            allocatedBytes := Sub(Stats.allocatedBytes, b.size),
                            requestedBytes := Sub(Stats.requestedBytes, b.requested),
                            activeAllocations := Sub(Stats.activeAllocations, 1),
                            activeSlab := Sub(Stats.activeSlab, 1)));
    }

    // ----- Entry points -----

    method Kmalloc(size: nat) returns (pointer: nat)
      requires Valid() && HeapInv(State()) && size <= MAX_REQUEST
      modifies Repr()
      ensures Valid() && (State(), pointer) == HeapApi.Kmalloc(old(State()), size)
      ensures Allocates(old(State()), State(), pointer, size)
    {
      hide HeapInv, Linked, Chained, HeapRaw.AllocateRaw, HeapSlab.SlabAllocate, Held;
      ghost var s := State();
      KmallocExact(s, size);
      var cacheIndex := FindSlabCache(size);
      if cacheIndex < SLAB_CACHE_COUNT {
        SlabAllocateExact(s, cacheIndex, size);
        pointer := SlabAllocate(cacheIndex, size);
        if pointer != 0 {
          return;
        }
      }
      pointer := AllocateRaw(size, false);
    }

    method Kfree(pointer: nat)
      requires Valid() && HeapInv(State())
      modifies this
      ensures Valid() && State() == HeapApi.Kfree(old(State()), pointer)
      ensures HeapInv(State())
      ensures Held(State()) == if pointer >= HEADER then Held(old(State())) - {pointer - HEADER} else Held(old(State()))
    {
      hide HeapInv, Linked, Chained, HeapRaw.FreeRaw, HeapSlab.SlabFree;
      ghost var s := State();
      KfreeExact(s, pointer);
      if pointer == 0 {
        return;
      }
      SlabFreeExact(s, pointer);
      var handled := SlabFree(pointer);
      if handled {
        return;
      }
      FreeRaw(pointer);
    }

    method Krealloc(pointer: nat, size: nat) returns (result: nat)
      requires Valid() && HeapInv(State()) && size <= MAX_REQUEST
      modifies Repr()
      ensures Valid() && HeapInv(State())
      ensures (State(), result) == HeapApi.Krealloc(old(State()), pointer, size)
    {
      hide HeapInv, Linked, Chained, HeapApi.Kmalloc, HeapApi.Kfree, Held;
      ghost var s := State();
      KreallocKeeps(s, pointer, size);
      if pointer == 0 {
        result := Kmalloc(size);
        return;
      }
      if size == 0 {
        Kfree(pointer);
        return 0;
      }
      if pointer >= HEADER && pointer - HEADER in Headers {
        var block := pointer - HEADER;
        var oldSize := Headers[block].requested;
        if oldSize >= size {
          Stats := RefreshLeaks(Stats.(requestedBytes := Sub(Stats.requestedBytes, oldSize - size)));
          Headers := Headers[block := Headers[block].(requested := size)];
          return pointer;
        }
      }
      KmallocExact(s, size);
      result := Kmalloc(size);
      if result == 0 {
        return;
      }
      Kfree(pointer);
    }

    method Kcalloc(count: nat, size: nat) returns (pointer: nat)
      requires Valid() && HeapInv(State())
      requires count * size < U64 ==> count * size <= MAX_REQUEST
      modifies Repr()
      ensures Valid() && HeapInv(State()) && (State(), pointer) == HeapApi.Kcalloc(old(State()), count, size)
    {
      hide HeapInv, Linked, Chained, HeapApi.Kmalloc, Held;
      ghost var s := State();
      KcallocExact(s, count, size);
      ProductFits(count, size);
      if count != 0 && size > (U64 - 1) / count {
        Stats := Stats.(failedAllocations := Stats.failedAllocations + 1);
        return 0;
      }
      pointer := Kmalloc(count * size);
    }

    method AllocateCritical(size: nat, guardTag: nat) returns (pointer: nat)
      requires Valid() && HeapInv(State()) && size <= MAX_REQUEST
      modifies Repr()
      ensures Valid() && (State(), pointer) == HeapRun.AllocateCritical(old(State()), size, guardTag)
      ensures Allocates(old(State()), State(), pointer, size)
    {
      hide HeapInv, Linked, Chained, HeapRaw.AllocateRaw, Held, TakeHeapPage;
      CriticalKeeps(State(), size, guardTag);
      KeyedInHeapInv(State());
      pointer := AllocateRaw(size, true);
      if pointer != 0 {
        var _ := AllocateHeapPage(guardTag);
      }
    }

    // ----- Object caches -----

    method CreateObjectCache(index: nat, objectSize: nat) returns (ok: bool)
      requires Valid()
      modifies this`ObjectCaches
      ensures Valid() && (State(), ok) == HeapObjects.CreateObjectCache(old(State()), index, objectSize)
    {
      hide Linked, Chained;
      if index >= OBJECT_CACHE_COUNT || index >= |ObjectCaches| || objectSize == 0 {
        return false;
      }
      var aligned := RawAlign(objectSize);
      var slabIndex := FindSlabCache(aligned);
      if slabIndex >= SLAB_CACHE_COUNT {
        return false;
      }
      ObjectCaches := ObjectCaches[index := ObjectCache(true, aligned, SlabSize(slabIndex), 0, 0, 0)];
      return true;
    }

    method ObjectAlloc(index: nat) returns (pointer: nat)
      requires Valid() && HeapInv(State())
      modifies Repr()
      ensures Valid() && HeapInv(State())
      ensures (State(), pointer) == HeapObjects.ObjectAlloc(old(State()), index)
    {
      hide HeapInv, Linked, Chained, HeapSlab.SlabAllocate, Held;
      ghost var s := State();
      ObjectAllocExact(s, index);
      if index >= |ObjectCaches| || !ObjectCaches[index].configured {
        Stats := Stats.(failedAllocations := Stats.failedAllocations + 1);
        return 0;
      }
      ObjectAllocReady(s, index);
      var slabIndex := FindSlabCache(ObjectCaches[index].objectSize);
      pointer := SlabAllocate(slabIndex, ObjectCaches[index].objectSize);
      if pointer == 0 {
        return;
      }
      if pointer < HEADER || pointer - HEADER !in Headers || Headers[pointer - HEADER].magic != SlabMagic ||
         index >= |ObjectCaches| {
        return 0;
      }
      var block := pointer - HEADER;
      var o := ObjectCaches[index];
      Headers := Headers[block := Headers[block].(objectFlag := true, objectCache := index)];
      ObjectCaches := ObjectCaches[index := o.(allocations := o.allocations + 1, active := o.active + 1)];
      Stats := Stats.(activeObjects := Stats.activeObjects + 1);
    }

    method ObjectFree(index: nat, pointer: nat)
      requires Valid() && HeapInv(State())
      modifies this
      ensures Valid() && HeapInv(State())
      ensures State() == HeapObjects.ObjectFree(old(State()), index, pointer)
    {
      hide HeapInv, Linked, Chained, HeapSlab.SlabFree, Held;
      ghost var s := State();
      ObjectFreeExact(s, index, pointer);
      ObjectCount(s);
      if pointer == 0 {
        return;
      }
      if index >= |ObjectCaches| || !ObjectCaches[index].configured {
        Stats := Stats.(invalidFrees := Stats.invalidFrees + 1);
        return;
      }
      RawMagicMeansListed(s);
      if pointer < HEADER || pointer - HEADER !in Headers || Headers[pointer - HEADER].magic != SlabMagic ||
         Headers[pointer - HEADER].objectCache != index || !Headers[pointer - HEADER].objectFlag {
        Stats := Stats.(invalidFrees := Stats.invalidFrees + 1);
        return;
      }
      var block := pointer - HEADER;
      UnstampKeeps(s, index, block);
      var o := ObjectCaches[index];
      Headers := Headers[block := Headers[block].(objectFlag := false, objectCache := NO_OBJECT_CACHE)];
      ObjectCaches := ObjectCaches[index := o.(frees := o.frees + 1, active := Sub(o.active, 1))];
      Stats := Stats.(activeObjects := Sub(Stats.activeObjects, 1));
      assert State() == Unstamp(s, index, block);
      var _ := SlabFree(pointer);
    }

    // ----- The self-check -----

    /** Walks the list, adding up; gives up after 65535 blocks. */
    method ValidateRawBlocks() returns (ok: bool, allocatedBytes: nat, requestedBytes: nat, activeCount: nat)
      requires Valid() && Keyed(Headers, Raw)
      ensures ok <==> (forall a :: a in Raw ==> Headers[a].magic == RawMagic) && |Raw| <= 65535
      ensures ok ==> allocatedBytes == Sum(Allocated, Headers, Raw) && requestedBytes == Sum(Requested, Headers, Raw)
      ensures ok ==> activeCount == Sum(Active, Headers, Raw)
    {
      ok, allocatedBytes, requestedBytes, activeCount := true, 0, 0, 0;
      var guard := 0;
      var cursor := Head;
      while cursor != 0
        invariant guard <= |Raw| && guard <= 65535 && cursor == if guard < |Raw| then Raw[guard] else 0
        invariant forall k :: 0 <= k < guard ==> Headers[Raw[k]].magic == RawMagic
        invariant allocatedBytes + Sum(Allocated, Headers, Raw[guard..]) == Sum(Allocated, Headers, Raw)
        invariant requestedBytes + Sum(Requested, Headers, Raw[guard..]) == Sum(Requested, Headers, Raw)
        invariant activeCount + Sum(Active, Headers, Raw[guard..]) == Sum(Active, Headers, Raw)
        decreases |Raw| - guard
      {
        LinkAt(Links, Head, Raw, guard);
        if guard + 1 < |Raw| { LinkBack(Links, Head, Raw, guard); }
        assert Raw[guard] in Raw && Raw[guard..][1..] == Raw[guard + 1..];
        if Headers[cursor].magic != RawMagic {
          ok := false;
          return;
        }
        if Links[cursor].next != 0 && Links[Links[cursor].next].previous != cursor {
          ok := false;
          return;
        }
        if !Headers[cursor].free {
          allocatedBytes := allocatedBytes + Headers[cursor].size;
          requestedBytes := requestedBytes + Headers[cursor].requested;
          activeCount := activeCount + 1;
        }
        cursor := Links[cursor].next;
        guard := guard + 1;
        if guard > 65535 {
          ok := false;
          return;
        }
      }
      assert Raw[guard..] == [];
    }

    method ValidateSlabCaches() returns (ok: bool, allocatedBytes: nat, activeCount: nat)
      requires Valid()
      ensures ok <==> forall c :: 0 <= c < |Slabs| ==> CacheCheck(State().caches[c])
      ensures ok ==> allocatedBytes == SlabBytes(State().caches) && activeCount == SlabActive(State().caches)
    {
      ghost var caches := State().caches;
      allocatedBytes, activeCount := 0, 0;
      for index := 0 to |Slabs|
        invariant forall c :: 0 <= c < index ==> CacheCheck(caches[c])
        invariant allocatedBytes == SlabBytes(caches[..index]) && activeCount == SlabActive(caches[..index])
      {
        var cache := Slabs[index];
        assert caches[index] == Assemble(cache, Lists[index]);
        assert caches[..index + 1][..index] == caches[..index];
        if cache.objectSize == 0 || cache.statsObjectSize != cache.objectSize {
          return false, 0, 0;
        }
        if cache.freeCount + cache.active > cache.pages * cache.objectsPerPage {
          return false, 0, 0;
        }
        allocatedBytes := allocatedBytes + cache.active * cache.objectSize;
        activeCount := activeCount + cache.active;
      }
      assert caches[..|Slabs|] == caches;
      return true, allocatedBytes, activeCount;
    }

    method ValidateObjectCaches() returns (ok: bool)
      ensures ok <==> (forall k :: 0 <= k < |ObjectCaches| ==> ObjectCheck(ObjectCaches[k]))
                      && TotalActive(ObjectCaches) == Stats.activeObjects
    {
      var active := 0;
      for index := 0 to |ObjectCaches|
        invariant forall k :: 0 <= k < index ==> ObjectCheck(ObjectCaches[k])
        invariant active == TotalActive(ObjectCaches[..index])
      {
        var cache := ObjectCaches[index];
        assert ObjectCaches[..index + 1][..index] == ObjectCaches[..index];
        if !cache.configured {
          continue;
        }
        if cache.objectSize == 0 || cache.backingSize < cache.objectSize ||
           cache.active > cache.allocations || cache.frees > cache.allocations {
          return false;
        }
        active := active + cache.active;
      }
      assert ObjectCaches[..|ObjectCaches|] == ObjectCaches;
      return active == Stats.activeObjects;
    }

    /** The self-check passes exactly when everything it compares agrees and the block list is within
        the walk's own bound; in a state of the invariant everything agrees. */
    method Validate() returns (ok: bool)
      requires Valid() && Keyed(Headers, Raw) && Keyed(Headers, SlabObjects)
      requires |Slabs| == SLAB_CACHE_COUNT && |ObjectCaches| == OBJECT_CACHE_COUNT
      ensures ok <==> ChecksHold(State()) && |Raw| <= 65535
      ensures HeapInv(State()) ==> (ok <==> |Raw| <= 65535)
    {
      hide HeapInv, Linked, Chained, Inv, SlabActive, SlabBytes, TotalActive, CacheCheck, ObjectCheck, Sum;
      if HeapInv(State()) {
        InvariantPassesChecks(State());
      }
      ok := true;
      var rawOk, rawAllocated, rawRequested, rawActive := ValidateRawBlocks();
      if !rawOk {
        ok := false;
      }
      var slabOk, slabAllocated, slabActive := ValidateSlabCaches();
      if !slabOk {
        ok := false;
      }
      if rawAllocated + slabAllocated != Stats.allocatedBytes {
        ok := false;
      }
      if rawActive + slabActive != Stats.activeAllocations {
        ok := false;
      }
      if rawActive != Stats.activeRaw {
        ok := false;
      }
      if slabActive != Stats.activeSlab {
        ok := false;
      }
      if rawRequested > Stats.requestedBytes {
        ok := false;
      }
      if Stats.leakCounter != Stats.activeAllocations {
        ok := false;
      }
      if Stats.leakBytes != Stats.requestedBytes {
        ok := false;
      }
      var objectsOk := ValidateObjectCaches();
      if !objectsOk {
        ok := false;
      }
    }

    /** Primes the raw heap with half a page and frees it again, then checks itself. */
    method Start() returns (ok: bool)
      requires Valid() && Inv(Physical.State()) && State() == Reset(Physical.State())
      modifies Repr()
      ensures Valid() && HeapInv(State()) && Held(State()) == map[]
      ensures State() == HeapInit(old(Physical.State())).0
      ensures ok <==> HeapInit(old(Physical.State())).1 && |Raw| <= 65535
    {
      hide HeapInv, Linked, Chained, Inv, HeapRaw.AllocateRaw, HeapRaw.FreeRaw, Held, Reset;
      ghost var phys := Physical.State();
      HeapInitEstablishes(phys);
      ResetInv(phys);
      AllocateRawExact(Reset(phys), PAGE_SIZE / 2, false);
      var seed := AllocateRaw(PAGE_SIZE / 2, false);
      if seed == 0 {
        return false;
      }
      FreeRaw(seed);
      InvariantPassesChecks(State());
      ok := Validate();
    }
  }

  /** The next object to carve has no header and is in no free list. */
  lemma FreshSlabObject(s: Heap, c: nat, page: nat, k: nat)
    requires Carving(s, c, page, k) && k < ObjectsPerPage(c) && c < |s.caches|
    ensures ObjectAt(c, page, k) !in s.blocks
    ensures forall d :: 0 <= d < |s.caches| ==> ObjectAt(c, page, k) !in s.caches[d].list
  {
    hide Layout, NoDuplicates, Inv, ObjectsOk, PageFilledTo;
    CarveLayout(s, c, page, k);
    forall d | 0 <= d < |s.caches| ensures ObjectAt(c, page, k) !in s.caches[d].list {
      assert CacheLists(s.blocks, s.slab, d, s.caches[d]);
    }
  }

  /** An object in use is in no free list. */
  lemma NotInLists(s: Heap, h: nat)
    requires HeapInv(s) && h in s.blocks && !s.blocks[h].free
    ensures forall d :: 0 <= d < |s.caches| ==> h !in s.caches[d].list
  {
    forall d | 0 <= d < |s.caches| ensures h !in s.caches[d].list {
      assert CacheLists(s.blocks, s.slab, d, s.caches[d]);
    }
  }

  /** With `taken` in hand and `left` to go from `now`, the pages are those of the whole run. */
  ghost predicate Collecting(s: Phys, count: nat, tag: nat, now: Phys, left: nat, taken: seq<nat>) {
    TakePages(s, count, tag) == (TakePages(now, left, tag).0, taken + TakePages(now, left, tag).1)
  }

  lemma CollectStart(s: Phys, count: nat, tag: nat)
    ensures Collecting(s, count, tag, s, count, []) && Lowest([]) == 0 && Highest([]) == 0
  {
    assert [] + TakePages(s, count, tag).1 == TakePages(s, count, tag).1;
  }

  lemma CollectStep(s: Phys, count: nat, tag: nat, now: Phys, left: nat, taken: seq<nat>)
    requires Collecting(s, count, tag, now, left, taken) && left > 0
    ensures var (t, page) := TakeHeapPage(now, tag);
            if page == ALLOC_FAIL then TakePages(s, count, tag) == (t, taken)
            else Collecting(s, count, tag, t, left - 1, taken + [page])
  {
    hide TakeHeapPage;
    var (t, page) := TakeHeapPage(now, tag);
    if page == ALLOC_FAIL {
      assert taken + [] == taken;
    } else {
      var rest := TakePages(t, left - 1, tag).1;
      assert taken + ([page] + rest) == (taken + [page]) + rest;
    }
  }

  lemma CollectEnd(s: Phys, count: nat, tag: nat, now: Phys, taken: seq<nat>)
    requires Collecting(s, count, tag, now, 0, taken)
    ensures TakePages(s, count, tag) == (now, taken)
  {
    assert taken + [] == taken;
  }

  /** The running minimum and maximum after one more page. */
  lemma LowestHighestStep(taken: seq<nat>, page: nat)
    requires 0 !in taken && page != 0
    ensures 0 !in taken + [page]
    ensures Lowest(taken + [page]) == if Lowest(taken) == 0 || page < Lowest(taken) then page else Lowest(taken)
    ensures Highest(taken + [page]) == if page > Highest(taken) then page else Highest(taken)
  {
    assert (taken + [page])[..|taken|] == taken;
  }

  /** A header carries the raw magic exactly when it is in the block list. */
  lemma RawMagicMeansListed(s: Heap)
    requires HeapInv(s)
    ensures forall a :: a in s.blocks && s.blocks[a].magic == RawMagic <==> a in s.raw
    ensures forall a :: a in s.blocks && s.blocks[a].magic == SlabMagic <==> a in s.slab
  {
    hide Layout, NoDuplicates, Inv, ListsOk, ObjectsOk, SumsOk, FreeBytesOk;
    forall a
      ensures a in s.blocks && s.blocks[a].magic == RawMagic <==> a in s.raw
      ensures a in s.blocks && s.blocks[a].magic == SlabMagic <==> a in s.slab
    {
      InRawList(s, a);
      assert a in s.raw ==> RawKind(a, s.blocks[a]);
      assert a in s.slab ==> SlabKind(s.blocks[a]);
    }
  }

  lemma IndexOfUniqueLinked(links: map<nat, Link>, head: nat, list: seq<nat>, i: nat)
    requires i < |list| && Linked(links, head, list)
    ensures list[i] in list && IndexOfBlock(list, list[i]) == i
  {
    hide NodeOk;
    Different(list, i, IndexOfBlock(list, list[i]));
  }

  /** The tail of a split starts where no header was. */
  lemma FreshSplit(s: Heap, i: nat, aligned: nat)
    requires RawInv(s) && i < |s.raw| && s.raw[i] in s.blocks && s.blocks[s.raw[i]].size > aligned + HEADER + MIN_SPLIT
    ensures s.raw[i] + HEADER + aligned !in s.blocks && s.raw[i] + HEADER + aligned !in s.raw
  {
    hide Layout, NoDuplicates, SumsOk, KindsOk;
    SplitLayout(s, i, aligned);
    InRawList(s, s.raw[i] + HEADER + aligned);
  }

  /** A span's first page carries no header yet. */
  lemma FreshBase(s: Heap, n: nat, tag: nat)
    requires HeapInv(s) && n > 0 && TakeSpan(s.phys, n, tag).1 != ALLOC_FAIL
    ensures TakeSpan(s.phys, n, tag).1 !in s.raw
  {
    hide RawInv, SumsOk, FreeBytesOk, ListsOk, ObjectsOk, KindsOk, Inv, SameSlabSide, TakeSpan, Layout;
    SplitHeapInv(s);
    TakeSpanExact(s.phys, n, tag);
    var base := TakeSpan(s.phys, n, tag).1;
    UsedNotFree(s.phys);
    LinkSpanLayout(s, base, n, false);
    InRawList(s, base);
  }
}
