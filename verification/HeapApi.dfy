/** The heap's entry points: kmalloc and its relatives, object caches, and start-up. */
module HeapApi {
  import opened Collections
  import opened PhysicalMemorySpec
  import opened HeapLayout
  import opened HeapBlocks
  import opened HeapPages
  import opened HeapState
  import opened HeapRaw
  import opened HeapSlab

  const NO_STATS: Stats := Stats(0, 0, 0, 0, 0, 0, 0, 0, 0, 0, 0, 0, 0, 0)

  /** The heap right after its records are cleared. */
  function Reset(phys: Phys): Heap {
    Heap(map[], [], [], {}, {},
         seq(SLAB_CACHE_COUNT, (c: nat) => SlabCache(SlabSize(c), SlabSize(c), 0, 0, 0, 0, [])),
         seq(OBJECT_CACHE_COUNT, (k: nat) => ObjectCache(false, 0, 0, 0, 0, 0)),
         NO_STATS, phys)
  }

  ghost function Kmalloc(s: Heap, size: nat): (Heap, nat)
    requires HeapInv(s)
  {
    var c := FindSlabCache(size);
    if c < SLAB_CACHE_COUNT then
      var (t, p) := SlabAllocate(s, c, size);
      SlabAllocateExact(s, c, size);
      if p != 0 then (t, p) else AllocateRaw(t, size, false)
    else AllocateRaw(s, size, false)
  }

  ghost function Kfree(s: Heap, pointer: nat): Heap
    requires HeapInv(s)
  {
    if pointer == 0 then s
    else
      var (t, ok) := SlabFree(s, pointer);
      SlabFreeExact(s, pointer);
      if ok then t else FreeRaw(t, pointer)
  }

  /** A block's requested size shrinks in place. */
  function Shrink(s: Heap, h: nat, size: nat): Heap
    requires h in s.blocks && size <= s.blocks[h].requested
  {
    var b := s.blocks[h];
    s.(blocks := s.blocks[h := b.(requested := size)],
    stats := RefreshLeaks(s.stats.(requestedBytes := Sub(s.stats.requestedBytes, b.requested - size))))
  }

  /** Blocks and counters only; HeapContents has the bytes. */
  ghost function Krealloc(s: Heap, pointer: nat, size: nat): (Heap, nat)
    requires HeapInv(s) && size <= MAX_REQUEST
  {
    if pointer == 0 then Kmalloc(s, size)
    else if size == 0 then (Kfree(s, pointer), 0)
    else if pointer >= HEADER && pointer - HEADER in s.blocks && s.blocks[pointer - HEADER].requested >= size then
      (Shrink(s, pointer - HEADER, size), pointer)
    else
      var (t, p) := Kmalloc(s, size);
      KmallocExact(s, size);
      if p == 0 then (t, 0) else (Kfree(t, pointer), p)
  }

  ghost function Kcalloc(s: Heap, count: nat, size: nat): (Heap, nat)
    requires HeapInv(s)
  {
    if count != 0 && size > (U64 - 1) / count then
      (s.(stats := s.stats.(failedAllocations := s.stats.failedAllocations + 1)), 0)
    else Kmalloc(s, count * size)
  }

  /** The outcome of an allocation of `size` bytes: nothing, or one new allocation that
      overlaps nothing held before and has room for the request. */
  ghost predicate Allocates(s: Heap, t: Heap, p: nat, size: nat) {
    && HeapInv(t)
    && (p == 0 ==> Held(t) == Held(s))
    && (p != 0 ==>
          && p >= HEADER && p - HEADER !in Held(s)
          && Held(t) == Held(s)[p - HEADER := size]
          && p - HEADER in t.blocks && t.blocks[p - HEADER].size >= size)
  }

  lemma KmallocExact(s: Heap, size: nat)
    requires HeapInv(s) && size <= MAX_REQUEST
    ensures Allocates(s, Kmalloc(s, size).0, Kmalloc(s, size).1, size)
  {
    hide HeapInv, Held, AllocateRaw, SlabAllocate;
    var c := FindSlabCache(size);
    if c < SLAB_CACHE_COUNT {
      SlabAllocateExact(s, c, size);
      var (t, p) := SlabAllocate(s, c, size);
      if p == 0 {
        AllocateRawExact(t, size, false);
      }
    } else {
      AllocateRawExact(s, size, false);
    }
  }

  /** Freeing ends exactly the allocation at the pointer. A null pointer, a pointer that is no
      allocation and a block freed before leave every allocation as it is. */
  lemma KfreeExact(s: Heap, p: nat)
    requires HeapInv(s)
    ensures HeapInv(Kfree(s, p))
    ensures Held(Kfree(s, p)) == if p >= HEADER then Held(s) - {p - HEADER} else Held(s)
  {
    hide HeapInv, FreeRaw, SlabFree;
    if p != 0 {
      SlabFreeExact(s, p);
      var (t, ok) := SlabFree(s, p);
      if !ok {
        FreeRawExact(t, p);
        KeyedInHeapInv(s);
        BlocksAreListed(s);
      }
    }
  }

  lemma BlocksAreListed(s: Heap)
    requires HeapInv(s)
    ensures forall a :: a in s.blocks <==> a in s.raw || a in s.slab
  {
    forall a ensures a in s.blocks <==> a in s.raw || a in s.slab {
      InRawList(s, a);
    }
  }

  // ----- Reallocation -----

  lemma ShrinkKeeps(s: Heap, h: nat, size: nat)
    requires HeapInv(s) && h in s.blocks && 0 < size <= s.blocks[h].requested
    ensures HeapInv(Shrink(s, h, size))
    ensures h in Held(s) && Held(Shrink(s, h, size)) == Held(s)[h := size]
  {
    BlocksAreListed(s);
    if h in s.raw {
      ShrinkRaw(s, h, size);
    } else {
      ShrinkSlab(s, h, size);
    }
  }

  lemma ShrinkRaw(s: Heap, h: nat, size: nat)
    requires HeapInv(s) && h in s.raw && h in s.blocks && 0 < size <= s.blocks[h].requested
    ensures HeapInv(Shrink(s, h, size))
    ensures h in Held(s) && Held(Shrink(s, h, size)) == Held(s)[h := size]
  {
    hide Layout, NoDuplicates, Inv, CacheLists;
    var t := Shrink(s, h, size);
    assert RawKind(h, s.blocks[h]);
    InRawList(s, h);
    RawUpdateSums(s, h, t.blocks[h]);
    assert Sum(Requested, s.blocks, s.raw) >= Of(Requested, s.blocks[h]);
    SlabSideKept(s, t);
    LayoutSameSizes(s, t);
  }

  lemma ShrinkSlab(s: Heap, h: nat, size: nat)
    requires HeapInv(s) && h in s.slab && h in s.blocks && 0 < size <= s.blocks[h].requested
    ensures HeapInv(Shrink(s, h, size))
    ensures h in Held(s) && Held(Shrink(s, h, size)) == Held(s)[h := size]
  {
    hide Layout, NoDuplicates, Inv, CacheLists, ObjectOk;
    var t := Shrink(s, h, size);
    assert SlabKind(s.blocks[h]);
    SplitHeapInv(s);
    ObjectChanged(s, t, h);
    assert Sum(Requested, s.blocks, s.slab) >= Of(Requested, s.blocks[h]);
    forall c | 0 <= c < |t.caches| ensures CacheLists(t.blocks, t.slab, c, t.caches[c]) {
      assert CacheLists(s.blocks, s.slab, c, s.caches[c]);
      ShrinkCache(s, h, size, c);
    }
    forall k | 0 <= k < |t.objects| ensures ObjectOk(t.blocks, t.slab, k, t.objects[k]) {
      assert ObjectOk(s.blocks, s.slab, k, s.objects[k]);
      ShrinkObject(s, h, size, k);
    }
  }

  lemma ShrinkCache(s: Heap, h: nat, size: nat, c: nat)
    requires Keyed(s.blocks, s.slab) && h in s.blocks && size <= s.blocks[h].requested && c < |s.caches|
    requires CacheLists(s.blocks, s.slab, c, s.caches[c])
    ensures Keyed(Shrink(s, h, size).blocks, s.slab) && CacheLists(Shrink(s, h, size).blocks, s.slab, c, s.caches[c])
  {
    SumFrame(FreeIn(c), s.blocks, Shrink(s, h, size).blocks, s.slab);
    SumFrame(ActiveIn(c), s.blocks, Shrink(s, h, size).blocks, s.slab);
  }

  lemma ShrinkObject(s: Heap, h: nat, size: nat, k: nat)
    requires Keyed(s.blocks, s.slab) && h in s.blocks && size <= s.blocks[h].requested && k < |s.objects|
    requires ObjectOk(s.blocks, s.slab, k, s.objects[k])
    ensures Keyed(Shrink(s, h, size).blocks, s.slab) && ObjectOk(Shrink(s, h, size).blocks, s.slab, k, s.objects[k])
  {
    SumFrame(ObjectIn(k), s.blocks, Shrink(s, h, size).blocks, s.slab);
  }

  /** Reallocating resizes in place when the allocation was at least as large; otherwise a new
      allocation replaces the old one, or memory is short and the old one stays. Every other
      allocation is untouched. */
  lemma KreallocExact(s: Heap, p: nat, size: nat)
    requires HeapInv(s) && size <= MAX_REQUEST && p >= HEADER && p - HEADER in Held(s)
    ensures var (t, q) := Krealloc(s, p, size);
            var rest := Held(s) - {p - HEADER};
            && HeapInv(t)
            && (size == 0 ==> q == 0 && Held(t) == rest)
            && (size != 0 && size <= Held(s)[p - HEADER] ==> q == p && Held(t) == rest[p - HEADER := size])
            && (size > Held(s)[p - HEADER] && q == 0 ==> Held(t) == Held(s))
            && (size > Held(s)[p - HEADER] && q != 0 ==>
                  q >= HEADER && q - HEADER !in Held(s) && Held(t) == rest[q - HEADER := size])
  {
    hide HeapInv, Kmalloc, Kfree;
    var h := p - HEADER;
    if size == 0 {
      KfreeExact(s, p);
    } else if s.blocks[h].requested >= size {
      ShrinkKeeps(s, h, size);
    } else {
      KmallocExact(s, size);
      var (t, q) := Kmalloc(s, size);
      if q != 0 {
        KfreeExact(t, p);
      }
    }
  }

  /** On any pointer at all, the invariant survives. */
  lemma KreallocKeeps(s: Heap, p: nat, size: nat)
    requires HeapInv(s) && size <= MAX_REQUEST
    ensures HeapInv(Krealloc(s, p, size).0)
  {
    hide HeapInv, Kmalloc, Kfree, Held;
    if p == 0 {
      KmallocExact(s, size);
    } else if size == 0 {
      KfreeExact(s, p);
    } else if p >= HEADER && p - HEADER in s.blocks && s.blocks[p - HEADER].requested >= size {
      ShrinkKeeps(s, p - HEADER, size);
    } else {
      KmallocExact(s, size);
      var (t, q) := Kmalloc(s, size);
      if q != 0 {
        KfreeExact(t, p);
      }
    }
  }

  /** The overflow test of kcalloc refuses exactly the products beyond 64 bits. */
  lemma KcallocExact(s: Heap, count: nat, size: nat)
    requires HeapInv(s) && (count * size < U64 ==> count * size <= MAX_REQUEST)
    ensures var (t, p) := Kcalloc(s, count, size);
            && Allocates(s, t, p, count * size)
            && (count * size >= U64 ==> p == 0)
  {
    hide HeapInv, Kmalloc;
    ProductFits(count, size);
    if count != 0 && size > (U64 - 1) / count {
      OnlyEvents(s, Kcalloc(s, count, size).0);
    } else {
      KmallocExact(s, count * size);
    }
  }

  /** kmalloc keeps its promise exactly for requests up to 2^64 - 64, or when it fails. */
  lemma KmallocRightExactly(s: Heap, size: nat)
    requires HeapInv(s) && size < U64
    ensures Allocates(s, Kmalloc(s, size).0, Kmalloc(s, size).1, size) <==> size <= MAX_REQUEST || Kmalloc(s, size).1 == 0
  {
    hide HeapInv, Held, AllocateRaw;
    if size <= MAX_REQUEST {
      KmallocExact(s, size);
    } else {
      OversizedExact(s, size, false);
    }
  }

  /** So does kcalloc, whose overflow test lets the same few products through. */
  lemma KcallocRightExactly(s: Heap, count: nat, size: nat)
    requires HeapInv(s)
    ensures var (t, p) := Kcalloc(s, count, size);
            Allocates(s, t, p, count * size) <==> count * size <= MAX_REQUEST || count * size >= U64 || p == 0
  {
    hide HeapInv, Held, Kmalloc;
    ProductFits(count, size);
    if MAX_REQUEST < count * size < U64 {
      KmallocRightExactly(s, count * size);
    } else {
      KcallocExact(s, count, size);
    }
  }

  lemma ProductFits(count: nat, size: nat)
    ensures count != 0 ==> (size > (U64 - 1) / count <==> count * size >= U64)
  {
    if count != 0 {
      var q := (U64 - 1) / count;
      assert count * q <= U64 - 1 < count * (q + 1);
      if size > q {
        assert count * size >= count * (q + 1);
      } else {
        assert count * size <= count * q;
      }
    }
  }

  // ----- When an allocation succeeds, and from where -----

  /** Whether the raw heap can serve a request that is `aligned` when rounded: a free block that is not
      critical fits, or a span of the fewest pages that do, at most 64, can be had. */
  ghost predicate RawCan(s: Heap, aligned: nat) {
    || (exists a :: a in s.raw && a in s.blocks && s.blocks[a].free && !s.blocks[a].critical && s.blocks[a].size >= aligned)
    || (exists n: nat, b: nat :: n <= 64 && (n - 1) * 4096 < aligned + 64 <= n * 4096 && EndsInRun(s.phys, n, b))
  }

  lemma AllocateRawSucceeds(s: Heap, size: nat, aligned: nat)
    requires HeapInv(s) && size <= MAX_REQUEST && aligned % 16 == 0 && size <= aligned < size + 16
    ensures Keyed(s.blocks, s.raw)
    ensures AllocateRaw(s, size, false).1 != 0 <==> size != 0 && RawCan(s, aligned)
  {
    hide HeapInv, EndsInRun;
    KeyedInHeapInv(s);
    if size != 0 {
      var n := (aligned + 64 + 4095) / 4096;
      assert (n - 1) * 4096 < aligned + 64 <= n * 4096;
      if forall a :: a in s.raw && a in s.blocks ==>
                       !(s.blocks[a].free && s.blocks[a].critical == false && s.blocks[a].size >= aligned) {
        AllocateGrows(s, size, false, aligned, n);
        if m: nat, b: nat :| m <= 64 && (m - 1) * 4096 < aligned + 64 <= m * 4096 && EndsInRun(s.phys, m, b) {
          SamePages(n, m, aligned + 64);
        }
      } else {
        hide AllocateRaw, AddSpan, Held;
        AllocateRawExact(s, size, false);
        RoundedUp(size, aligned);
        var a :| a in s.raw && a in s.blocks && s.blocks[a].free && !s.blocks[a].critical && s.blocks[a].size >= aligned;
        assert Usable(s.blocks[a], RawAlign(size), false);
      }
    }
  }

  /** kmalloc succeeds exactly when the smallest slab cache that holds the request, up to 256 bytes, has a free
      object or can have a page, or the raw heap can serve it; and it takes the slab object if it can. */
  lemma KmallocSucceeds(s: Heap, size: nat, aligned: nat)
    requires HeapInv(s) && size <= MAX_REQUEST && aligned % 16 == 0 && size <= aligned < size + 16
    ensures |s.caches| == 4
    ensures var (t, p) := Kmalloc(s, size); var c := FindSlabCache(size);
            var slab := size <= 256 && (s.caches[c].list != [] || s.phys.free != []);
            && (p != 0 <==> slab || (size != 0 && RawCan(s, aligned)))
            && (slab ==> p >= 56 && p - 56 in t.slab && p - 56 in t.blocks && t.blocks[p - 56].size == SlabSize(c))
            && (p != 0 && !slab ==> p >= 56 && p - 56 in t.raw)
  {
    hide HeapInv, Held, AllocateRaw, SlabAllocate, RawCan;
    CacheCount(s);
    SlabCacheIs(size);
    var c := FindSlabCache(size);
    if size <= 256 {
      SlabAllocateExact(s, c, size);
      SlabAllocateIs(s, c, size);
      var (t, p) := SlabAllocate(s, c, size);
      if p == 0 {
        AllocateRawExact(t, size, false);
        AllocateRawSucceeds(t, size, aligned);
        RawCanSame(s, t, aligned);
      }
    } else {
      AllocateRawExact(s, size, false);
      AllocateRawSucceeds(s, size, aligned);
    }
  }

  /** The counters do not matter. */
  lemma RawCanSame(s: Heap, t: Heap, aligned: nat)
    requires t == s.(stats := t.stats)
    ensures RawCan(t, aligned) <==> RawCan(s, aligned)
  {
  }

  /** Reallocating nothing is allocating; growing fails exactly when allocating does. */
  lemma KreallocIs(s: Heap, p: nat, size: nat)
    requires HeapInv(s) && size <= MAX_REQUEST
    ensures Krealloc(s, 0, size) == Kmalloc(s, size)
    ensures p >= 56 && p - 56 in Held(s) && size > Held(s)[p - 56] ==> Krealloc(s, p, size).1 == Kmalloc(s, size).1
  {
    hide HeapInv, Kmalloc;
  }

  /** A product that fits 64 bits is allocated as kmalloc does; any other is refused. */
  lemma KcallocIs(s: Heap, count: nat, size: nat)
    requires HeapInv(s)
    ensures if count * size < U64 then Kcalloc(s, count, size) == Kmalloc(s, count * size)
            else Kcalloc(s, count, size) == (s.(stats := s.stats.(failedAllocations := s.stats.failedAllocations + 1)), 0)
  {
    hide HeapInv, Kmalloc;
    ProductFits(count, size);
  }
}
