/** The bytes of the heap's memory: headers and free links written out after every step, payloads in
    between. Contents survive every operation, move with krealloc and are zero after kcalloc. */
module HeapContents {
  import opened Collections
  import opened PhysicalMemorySpec
  import opened HeapLayout
  import opened HeapBlocks
  import opened HeapState
  import opened HeapLinks
  import opened HeapRaw
  import opened HeapSlab
  import opened HeapApi

  const RAW_MAGIC: nat := 0x4F52_484D_414C_4C4F
  const SLAB_MAGIC: nat := 0x4F52_534C_4142_4C4F
  /** The bytes of the header's fields, and where its two links start; between them lies padding. */
  const FIELDS: nat := 36
  const LINKS: nat := 40
  const LINK: nat := 8

  type Memory = nat -> bv8

  // ----- What the heap writes -----

  function Little(value: nat, n: nat): (b: seq<bv8>)
    ensures |b| == n
  {
    if n == 0 then [] else [(value % 256) as bv8] + Little(value / 256, n - 1)
  }

  function Flags(b: Info): nat {
    (if b.free then 1 else 0) + (if b.magic == SlabMagic then 2 else 0)
    + (if b.critical then 4 else 0) + (if b.objectFlag then 8 else 0)
  }

  function FieldBytes(b: Info): (r: seq<bv8>)
    ensures |r| == FIELDS
  {
    Little(if b.magic == RawMagic then RAW_MAGIC else SLAB_MAGIC, 8) + Little(b.size, 8) + Little(b.requested, 8)
    + Little(Flags(b), 4) + Little(b.slabCache, 4) + Little(b.objectCache, 4)
  }

  /** The links of the raw block at `a`, previous and next. */
  function LinkBytes(raw: seq<nat>, a: nat): (r: seq<bv8>)
    requires a in raw
    ensures |r| == 2 * LINK
  {
    var i := IndexOfBlock(raw, a);
    Little(PreviousOf(raw, i), LINK) + Little(NextOf(raw, i), LINK)
  }

  /** The link in the first word of the free object at place `i` of a cache's list. */
  function NextBytes(list: seq<nat>, i: nat): (r: seq<bv8>)
    requires i < |list|
    ensures |r| == LINK
  {
    Little(if i + 1 == |list| then 0 else list[i + 1] + HEADER, LINK)
  }

  predicate InFields(s: Heap, a: nat, x: nat) {
    a in s.blocks && a <= x < a + FIELDS
  }

  predicate InLinks(s: Heap, a: nat, x: nat) {
    a in s.raw && a + LINKS <= x < a + HEADER
  }

  predicate InNext(s: Heap, c: nat, i: nat, x: nat) {
    c < |s.caches| && i < |s.caches[c].list| && s.caches[c].list[i] + HEADER <= x < s.caches[c].list[i] + HEADER + LINK
  }

  ghost function StoredByte(s: Heap, m: Memory, x: nat): bv8 {
    if exists a: nat :: InFields(s, a, x) then
      var a: nat :| InFields(s, a, x);
      FieldBytes(s.blocks[a])[x - a]
    else if exists a: nat :: InLinks(s, a, x) then
      var a: nat :| InLinks(s, a, x);
      LinkBytes(s.raw, a)[x - a - LINKS]
    else if exists c: nat, i: nat :: InNext(s, c, i, x) then
      var c: nat, i: nat :| InNext(s, c, i, x);
      NextBytes(s.caches[c].list, i)[x - s.caches[c].list[i] - HEADER]
    else m(x)
  }

  /** The memory once every header and every link of `s` is written. */
  ghost function Stored(s: Heap, m: Memory): Memory {
    (x: nat) => StoredByte(s, m, x)
  }

  /** `size` bytes of memory. */
  function Slice(m: Memory, at: nat, size: nat): (r: seq<bv8>)
    ensures |r| == size
  {
    seq(size, i requires 0 <= i => m(at + i))
  }

  /** The memory spells out the heap: fields, block list and free lists. */
  ghost predicate Represents(s: Heap, n: Memory) {
    && (forall a :: a in s.blocks ==> Slice(n, a, FIELDS) == FieldBytes(s.blocks[a]))
    && (forall a :: a in s.raw ==> Slice(n, a + LINKS, 2 * LINK) == LinkBytes(s.raw, a))
    && (forall c, i :: 0 <= c < |s.caches| && 0 <= i < |s.caches[c].list| ==>
                         Slice(n, s.caches[c].list[i] + HEADER, LINK) == NextBytes(s.caches[c].list, i))
  }

  // ----- Where it writes -----

  lemma OneOwner(sizes: map<nat, nat>, a: nat, b: nat, x: nat)
    requires NoOverlap(sizes) && Covers(sizes, a, x) && Covers(sizes, b, x)
    ensures a == b
  {
  }

  predicate Listed(s: Heap, c: nat, i: nat, h: nat) {
    c < |s.caches| && i < |s.caches[c].list| && s.caches[c].list[i] == h
  }

  /** What the byte lemmas need of the invariant. */
  ghost predicate Placed(s: Heap) {
    && NoOverlap(Sizes(s.blocks))
    && (forall a :: a in s.raw ==> a in s.blocks)
    && (forall c: nat, i: nat, h :: Listed(s, c, i, h) ==> h in s.blocks && h !in s.raw && s.blocks[h].free && s.blocks[h].size >= LINK)
    && (forall c: nat, i: nat, d: nat, j: nat, h :: Listed(s, c, i, h) && Listed(s, d, j, h) ==> c == d && i == j)
    && (forall a :: a in s.blocks ==> s.blocks[a].requested <= s.blocks[a].size)
  }

  lemma InvPlaced(s: Heap)
    requires HeapInv(s)
    ensures Placed(s)
  {
    hide Inv, SumsOk, FreeBytesOk, ObjectsOk;
    forall c: nat, i: nat, h | Listed(s, c, i, h)
      ensures h in s.slab && h in s.blocks && h !in s.raw && s.blocks[h].free && s.blocks[h].slabCache == c
    {
      assert CacheLists(s.blocks, s.slab, c, s.caches[c]);
      assert h in s.caches[c].list;
      assert h in Members(s.slab);
    }
    forall c | 0 <= c < |s.caches| ensures NoDuplicates(s.caches[c].list) {
      assert CacheLists(s.blocks, s.slab, c, s.caches[c]);
    }
    forall a | a in s.blocks ensures s.blocks[a].requested <= s.blocks[a].size {
      assert a in Members(s.raw) + Members(s.slab);
    }
  }

  /** No header and no link lies in a live payload. */
  lemma PayloadNotWritten(s: Heap, m: Memory, a: nat, x: nat)
    requires Placed(s) && a in Held(s) && a + HEADER <= x < a + HEADER + Held(s)[a]
    ensures StoredByte(s, m, x) == m(x)
  {
    var sizes := Sizes(s.blocks);
    assert Covers(sizes, a, x);
    forall b: nat ensures !InFields(s, b, x) && !InLinks(s, b, x) {
      if InFields(s, b, x) || InLinks(s, b, x) {
        OneOwner(sizes, a, b, x);
      }
    }
    forall c: nat, i: nat ensures !InNext(s, c, i, x) {
      if InNext(s, c, i, x) {
        assert Listed(s, c, i, s.caches[c].list[i]);
        OneOwner(sizes, a, s.caches[c].list[i], x);
      }
    }
  }

  /** Everything written can be read back: no two of these places overlap. */
  lemma StoredRepresents(s: Heap, m: Memory)
    requires Placed(s)
    ensures Represents(s, Stored(s, m))
  {
    hide Placed, FieldBytes, LinkBytes, NextBytes, Slice;
    forall a | a in s.blocks ensures Slice(Stored(s, m), a, FIELDS) == FieldBytes(s.blocks[a]) {
      FieldsRead(s, m, a);
    }
    forall a | a in s.raw ensures Slice(Stored(s, m), a + LINKS, 2 * LINK) == LinkBytes(s.raw, a) {
      LinksRead(s, m, a);
    }
    forall c, i | 0 <= c < |s.caches| && 0 <= i < |s.caches[c].list|
      ensures Slice(Stored(s, m), s.caches[c].list[i] + HEADER, LINK) == NextBytes(s.caches[c].list, i)
    {
      NextRead(s, m, c, i);
    }
  }

  lemma FieldsRead(s: Heap, m: Memory, a: nat)
    requires Placed(s) && a in s.blocks
    ensures Slice(Stored(s, m), a, FIELDS) == FieldBytes(s.blocks[a])
  {
    hide FieldBytes;
    forall k | 0 <= k < FIELDS ensures Slice(Stored(s, m), a, FIELDS)[k] == FieldBytes(s.blocks[a])[k] {
      var x := a + k;
      assert InFields(s, a, x);
      forall b: nat | InFields(s, b, x) ensures b == a {
        OneOwner(Sizes(s.blocks), a, b, x);
      }
    }
  }

  lemma LinksRead(s: Heap, m: Memory, a: nat)
    requires Placed(s) && a in s.raw
    ensures Slice(Stored(s, m), a + LINKS, 2 * LINK) == LinkBytes(s.raw, a)
  {
    hide FieldBytes, LinkBytes;
    forall k | 0 <= k < 2 * LINK ensures Slice(Stored(s, m), a + LINKS, 2 * LINK)[k] == LinkBytes(s.raw, a)[k] {
      var x := a + LINKS + k;
      assert InLinks(s, a, x);
      forall b: nat | InFields(s, b, x) || InLinks(s, b, x) ensures b == a {
        OneOwner(Sizes(s.blocks), a, b, x);
      }
    }
  }

  lemma NextRead(s: Heap, m: Memory, c: nat, i: nat)
    requires Placed(s) && c < |s.caches| && i < |s.caches[c].list|
    ensures Slice(Stored(s, m), s.caches[c].list[i] + HEADER, LINK) == NextBytes(s.caches[c].list, i)
  {
    hide FieldBytes, LinkBytes, NextBytes;
    var h := s.caches[c].list[i];
    assert Listed(s, c, i, h);
    forall k | 0 <= k < LINK ensures Slice(Stored(s, m), h + HEADER, LINK)[k] == NextBytes(s.caches[c].list, i)[k] {
      var x := h + HEADER + k;
      assert InNext(s, c, i, x);
      forall b: nat ensures !InFields(s, b, x) && !InLinks(s, b, x) {
        if InFields(s, b, x) || InLinks(s, b, x) {
          OneOwner(Sizes(s.blocks), h, b, x);
        }
      }
      forall d: nat, j: nat | InNext(s, d, j, x) ensures d == c && j == i {
        assert Listed(s, d, j, s.caches[d].list[j]);
        OneOwner(Sizes(s.blocks), h, s.caches[d].list[j], x);
      }
    }
  }

  // ----- Contents -----

  /** The first `size` bytes of the payload behind a header. */
  function Contents(m: Memory, header: nat, size: nat): seq<bv8> {
    Slice(m, header + HEADER, size)
  }

  predicate SameByte(m: Memory, n: Memory, x: nat) {
    n(x) == m(x)
  }

  lemma SameBytesSameSlice(m: Memory, n: Memory, at: nat, size: nat)
    requires forall x: nat :: at <= x < at + size ==> SameByte(m, n, x)
    ensures Slice(n, at, size) == Slice(m, at, size)
  {
    forall i | 0 <= i < size ensures Slice(n, at, size)[i] == Slice(m, at, size)[i] {
      assert SameByte(m, n, at + i);
    }
  }

  /** Every allocation of `s` but those `apart` is held in `t`, at the same size with the same contents. */
  ghost predicate Undisturbed(s: Heap, t: Heap, m: Memory, n: Memory, apart: set<nat>) {
    forall a :: a in Held(s) && a !in apart ==>
                  a in Held(t) && Held(t)[a] == Held(s)[a] && Contents(n, a, Held(s)[a]) == Contents(m, a, Held(s)[a])
  }

  lemma UndisturbedThen(s: Heap, t: Heap, u: Heap, m: Memory, n: Memory, k: Memory, first: set<nat>, second: set<nat>, apart: set<nat>)
    requires Undisturbed(s, t, m, n, first) && Undisturbed(t, u, n, k, second)
    requires forall a :: a in Held(s) && (a in first || a in second) ==> a in apart
    ensures Undisturbed(s, u, m, k, apart)
  {
    hide Held, Contents;
  }

  /** Writing out a state's headers and links leaves the contents of whatever is held in it. */
  lemma StoredKeeps(t: Heap, m: Memory, a: nat, size: nat)
    requires HeapInv(t) && a in Held(t) && size <= Held(t)[a]
    ensures Contents(Stored(t, m), a, size) == Contents(m, a, size)
  {
    hide HeapInv, Held, Placed, StoredByte;
    InvPlaced(t);
    forall x: nat | a + HEADER <= x < a + HEADER + size ensures SameByte(m, Stored(t, m), x) {
      PayloadNotWritten(t, m, a, x);
    }
    SameBytesSameSlice(m, Stored(t, m), a + HEADER, size);
  }

  lemma StoredUndisturbed(s: Heap, t: Heap, m: Memory, apart: set<nat>)
    requires HeapInv(t)
    requires forall a :: a in Held(s) && a !in apart ==> a in Held(t) && Held(t)[a] == Held(s)[a]
    ensures Undisturbed(s, t, m, Stored(t, m), apart) && Represents(t, Stored(t, m))
  {
    hide HeapInv, Held, Contents, Stored, Placed, Represents;
    InvPlaced(t);
    StoredRepresents(t, m);
    forall a | a in Held(s) && a !in apart
      ensures Contents(Stored(t, m), a, Held(s)[a]) == Contents(m, a, Held(s)[a])
    {
      StoredKeeps(t, m, a, Held(s)[a]);
    }
  }

  /** Two memories agree but for the first `size` bytes of one payload. */
  ghost predicate OnlyWithin(m: Memory, n: Memory, header: nat, size: nat) {
    forall x: nat :: SameByte(m, n, x) || header + HEADER <= x < header + HEADER + size
  }

  /** Bytes written inside one payload disturb no other allocation, and no header or link. */
  lemma PayloadWritesUndisturbed(s: Heap, target: nat, m: Memory, n: Memory)
    requires HeapInv(s) && target in Held(s) && OnlyWithin(m, n, target, Held(s)[target])
    ensures Undisturbed(s, s, m, n, {target})
    ensures Represents(s, m) ==> Represents(s, n)
  {
    hide HeapInv, Held, Slice, Represents;
    forall a | a in Held(s) && a != target
      ensures Contents(n, a, Held(s)[a]) == Contents(m, a, Held(s)[a])
    {
      if a < target {
        LivePayloadsApart(s, a, target);
      } else {
        LivePayloadsApart(s, target, a);
      }
      SameBytesSameSlice(m, n, a + HEADER, Held(s)[a]);
    }
    InvPlaced(s);
    RepresentedStill(s, target, m, n);
  }

  lemma RepresentedStill(s: Heap, target: nat, m: Memory, n: Memory)
    requires Placed(s) && target in Held(s) && OnlyWithin(m, n, target, Held(s)[target])
    ensures Represents(s, m) ==> Represents(s, n)
  {
    hide FieldBytes, LinkBytes, NextBytes, Slice;
    forall a | a in s.blocks ensures Slice(n, a, FIELDS) == Slice(m, a, FIELDS) {
      ApartFromPayload(s, target, m, n, a, a, FIELDS);
    }
    forall a | a in s.raw ensures Slice(n, a + LINKS, 2 * LINK) == Slice(m, a + LINKS, 2 * LINK) {
      ApartFromPayload(s, target, m, n, a, a + LINKS, 2 * LINK);
    }
    forall c, i | 0 <= c < |s.caches| && 0 <= i < |s.caches[c].list|
      ensures Slice(n, s.caches[c].list[i] + HEADER, LINK) == Slice(m, s.caches[c].list[i] + HEADER, LINK)
    {
      assert Listed(s, c, i, s.caches[c].list[i]);
      ApartFromPayload(s, target, m, n, s.caches[c].list[i], s.caches[c].list[i] + HEADER, LINK);
    }
  }

  /** What another block covers, or the block's own header, is not in a live payload. */
  lemma ApartFromPayload(s: Heap, target: nat, m: Memory, n: Memory, b: nat, at: nat, size: nat)
    requires Placed(s) && target in Held(s) && OnlyWithin(m, n, target, Held(s)[target])
    requires b in s.blocks && b <= at && at + size <= End(Sizes(s.blocks), b) && (at + size <= b + HEADER || b != target)
    ensures Slice(n, at, size) == Slice(m, at, size)
  {
    forall x: nat | at <= x < at + size ensures SameByte(m, n, x) {
      if target + HEADER <= x < target + HEADER + Held(s)[target] {
        OneOwner(Sizes(s.blocks), target, b, x);
      }
    }
    SameBytesSameSlice(m, n, at, size);
  }

  // ----- The operations on memory -----

  ghost function SlabAllocateMemory(s: Heap, c: nat, requested: nat, m: Memory): Memory
    requires HeapInv(s) && c < SLAB_CACHE_COUNT
  {
    SlabAllocateReady(s, c);
    var grown := if s.caches[c].list == [] then GrowSlabCache(s, c).0 else s;
    Stored(SlabAllocate(s, c, requested).0, Stored(grown, m))
  }

  ghost function KmallocMemory(s: Heap, size: nat, m: Memory): Memory
    requires HeapInv(s) && size <= MAX_REQUEST
  {
    var c := FindSlabCache(size);
    if c < SLAB_CACHE_COUNT then
      var (t, p) := SlabAllocate(s, c, size);
      var n := SlabAllocateMemory(s, c, size, m);
      SlabAllocateExact(s, c, size);
      if p != 0 then n else Stored(AllocateRaw(t, size, false).0, n)
    else Stored(AllocateRaw(s, size, false).0, m)
  }

  /** A raw block is marked free before it is joined with the next. */
  ghost function FreeRawMemory(s: Heap, p: nat, m: Memory): Memory
    requires Keyed(s.blocks, s.raw)
  {
    if p >= HEADER && p - HEADER in s.raw && !s.blocks[p - HEADER].free then
      Stored(FreeRaw(s, p), Stored(MarkFree(s, p - HEADER), m))
    else m
  }

  ghost function KfreeMemory(s: Heap, p: nat, m: Memory): Memory
    requires HeapInv(s)
  {
    if p == 0 then m
    else
      var (t, ok) := SlabFree(s, p);
      SlabFreeExact(s, p);
      if ok then Stored(t, m) else FreeRawMemory(t, p, m)
  }

  function Copied(m: Memory, target: nat, source: nat, size: nat): Memory {
    (x: nat) => if target <= x < target + size then m(source + (x - target)) else m(x)
  }

  function Cleared(m: Memory, target: nat, size: nat): Memory {
    (x: nat) => if target <= x < target + size then 0 else m(x)
  }

  ghost function KreallocMemory(s: Heap, p: nat, size: nat, m: Memory): Memory
    requires HeapInv(s) && size <= MAX_REQUEST
  {
    if p == 0 then KmallocMemory(s, size, m)
    else if size == 0 then KfreeMemory(s, p, m)
    else
      var length := if p >= HEADER && p - HEADER in s.blocks then s.blocks[p - HEADER].requested else 0;
      if length >= size then Stored(Shrink(s, p - HEADER, size), m)
      else
        var (t, q) := Kmalloc(s, size);
        var n := KmallocMemory(s, size, m);
        KmallocExact(s, size);
        if q == 0 then n else KfreeMemory(t, p, Copied(n, q, p, length))
  }

  ghost function KcallocMemory(s: Heap, count: nat, size: nat, m: Memory): Memory
    requires HeapInv(s) && (count * size < U64 ==> count * size <= MAX_REQUEST)
  {
    ProductFits(count, size);
    if count != 0 && size > (U64 - 1) / count then m
    else
      var p := Kmalloc(s, count * size).1;
      var n := KmallocMemory(s, count * size, m);
      if p == 0 then n else Cleared(n, p, count * size)
  }

  // ----- Allocating and freeing -----

  /** kmalloc leaves the contents of every allocation, and the memory spells out the new heap. */
  lemma KmallocContents(s: Heap, size: nat, m: Memory)
    requires HeapInv(s) && size <= MAX_REQUEST
    ensures Undisturbed(s, Kmalloc(s, size).0, m, KmallocMemory(s, size, m), {})
    ensures Represents(Kmalloc(s, size).0, KmallocMemory(s, size, m))
  {
    hide HeapInv, Held, AllocateRaw, SlabAllocate, Undisturbed, Represents, Stored, SlabAllocateMemory;
    KeyedInHeapInv(s);
    var c := FindSlabCache(size);
    if c < SLAB_CACHE_COUNT {
      SlabAllocateExact(s, c, size);
      SlabAllocateContents(s, c, size, m);
      var (t, p) := SlabAllocate(s, c, size);
      if p == 0 {
        KeyedInHeapInv(t);
        AllocateRawExact(t, size, false);
        var n := SlabAllocateMemory(s, c, size, m);
        StoredUndisturbed(t, AllocateRaw(t, size, false).0, n, {});
        UndisturbedThen(s, t, AllocateRaw(t, size, false).0, m, n, Stored(AllocateRaw(t, size, false).0, n), {}, {}, {});
      }
    } else {
      AllocateRawExact(s, size, false);
      StoredUndisturbed(s, AllocateRaw(s, size, false).0, m, {});
    }
  }

  lemma SlabAllocateContents(s: Heap, c: nat, requested: nat, m: Memory)
    requires HeapInv(s) && c < SLAB_CACHE_COUNT && requested <= SlabSize(c)
    ensures var t := SlabAllocate(s, c, requested).0; var n := SlabAllocateMemory(s, c, requested, m);
            Undisturbed(s, t, m, n, {}) && Represents(t, n)
  {
    hide HeapInv, Held, SlabAllocate, Undisturbed, Represents, Stored, GrowSlabCache;
    SlabAllocateReady(s, c);
    SlabAllocateExact(s, c, requested);
    GrowKeeps(s, c);
    var grown := if s.caches[c].list == [] then GrowSlabCache(s, c).0 else s;
    var t := SlabAllocate(s, c, requested).0;
    StoredUndisturbed(s, grown, m, {});
    StoredUndisturbed(grown, t, Stored(grown, m), {});
    UndisturbedThen(s, grown, t, m, Stored(grown, m), Stored(t, Stored(grown, m)), {}, {}, {});
  }

  /** So does kfree, but for the allocation it ends. */
  lemma KfreeContents(s: Heap, p: nat, m: Memory)
    requires HeapInv(s)
    ensures Undisturbed(s, Kfree(s, p), m, KfreeMemory(s, p, m), if p >= HEADER then {p - HEADER} else {})
    ensures Represents(s, m) ==> Represents(Kfree(s, p), KfreeMemory(s, p, m))
  {
    hide HeapInv, SlabFree, FreeRaw, Undisturbed, Represents, Stored, FreeRawMemory;
    var apart: set<nat> := if p >= HEADER then {p - HEADER} else {};
    if p == 0 {
      NothingDisturbed(s, m, apart);
    } else {
      SlabFreeExact(s, p);
      var (t, ok) := SlabFree(s, p);
      if ok {
        StoredUndisturbed(s, t, m, apart);
      } else {
        FreeRawContents(s, p, m);
      }
    }
  }

  lemma NothingDisturbed(s: Heap, m: Memory, apart: set<nat>)
    ensures Undisturbed(s, s, m, m, apart)
  {
  }

  lemma FreeRawContents(s: Heap, p: nat, m: Memory)
    requires HeapInv(s)
    ensures Keyed(s.blocks, s.raw)
    ensures Undisturbed(s, FreeRaw(s, p), m, FreeRawMemory(s, p, m), if p >= HEADER then {p - HEADER} else {})
    ensures Represents(s, m) ==> Represents(FreeRaw(s, p), FreeRawMemory(s, p, m))
  {
    hide HeapInv, Undisturbed, Represents, Stored, CoalesceWithNext, MarkFree;
    KeyedInHeapInv(s);
    FreeRawExact(s, p);
    if p >= HEADER && p - HEADER in s.raw && !s.blocks[p - HEADER].free {
      var h := p - HEADER;
      var u := MarkFree(s, h);
      MarkFreeHeapInv(s, h);
      StoredUndisturbed(s, u, m, {h});
      StoredUndisturbed(u, FreeRaw(s, p), Stored(u, m), {});
      UndisturbedThen(s, u, FreeRaw(s, p), m, Stored(u, m), Stored(FreeRaw(s, p), Stored(u, m)), {h}, {}, {h});
    } else {
      SameHeapBytes(s, FreeRaw(s, p), m);
    }
  }

  /** Counters are not in the heap's memory. */
  lemma SameHeapBytes(s: Heap, t: Heap, m: Memory)
    requires t == s.(stats := t.stats)
    ensures Undisturbed(s, t, m, m, {}) && (forall apart: set<nat> :: Undisturbed(s, t, m, m, apart))
    ensures Represents(s, m) ==> Represents(t, m)
  {
    hide Contents, Slice, FieldBytes, LinkBytes, NextBytes;
    assert Held(t) == Held(s);
  }

  // ----- Reallocating -----

  lemma CopiedBytes(m: Memory, target: nat, source: nat, size: nat)
    ensures Contents(Copied(m, target + HEADER, source + HEADER, size), target, size) == Contents(m, source, size)
    ensures OnlyWithin(m, Copied(m, target + HEADER, source + HEADER, size), target, size)
  {
  }

  /** Where a reallocation leaves the contents: every other allocation has its own, the old one too
      when memory is short, and the result has the old bytes as far as both sizes reach. */
  ghost predicate Reallocated(s: Heap, p: nat, size: nat, t: Heap, q: nat, m: Memory, n: Memory)
    requires p >= HEADER && p - HEADER in Held(s)
  {
    var h := p - HEADER;
    var kept := if size < Held(s)[h] then size else Held(s)[h];
    && Undisturbed(s, t, m, n, if q == 0 && size != 0 then {} else {h})
    && (q != 0 ==> q >= HEADER && q - HEADER in Held(t) && Contents(n, q - HEADER, kept) == Contents(m, h, kept))
  }

  /** The allocator's writes, the copy and the free never meet. */
  lemma KreallocContents(s: Heap, p: nat, size: nat, m: Memory)
    requires HeapInv(s) && size <= MAX_REQUEST && p >= HEADER && p - HEADER in Held(s) && Represents(s, m)
    ensures var (t, q) := Krealloc(s, p, size); var n := KreallocMemory(s, p, size, m);
            Reallocated(s, p, size, t, q, m, n) && Represents(t, n)
  {
    hide HeapInv, Kmalloc, Kfree, KmallocMemory, KfreeMemory, Contents, Stored, Undisturbed, Represents, Copied;
    KreallocExact(s, p, size);
    var h := p - HEADER;
    if size == 0 {
      KfreeContents(s, p, m);
    } else if size <= Held(s)[h] {
      ShrinkKeeps(s, h, size);
      StoredUndisturbed(s, Shrink(s, h, size), m, {h});
      StoredKeeps(Shrink(s, h, size), m, h, size);
    } else {
      KreallocGrows(s, p, size, m);
    }
  }

  lemma KreallocGrows(s: Heap, p: nat, size: nat, m: Memory)
    requires HeapInv(s) && size <= MAX_REQUEST && p >= HEADER && p - HEADER in Held(s) && size > Held(s)[p - HEADER]
    ensures var (u, q) := Kmalloc(s, size); var n := KmallocMemory(s, size, m); var length := Held(s)[p - HEADER];
            && HeapInv(u)
            && (q == 0 ==> Reallocated(s, p, size, u, q, m, n) && Represents(u, n))
            && (q != 0 ==>
                  var k := KfreeMemory(u, p, Copied(n, q, p, length));
                  Reallocated(s, p, size, Kfree(u, p), q, m, k) && Represents(Kfree(u, p), k))
  {
    hide HeapInv, Held, Kmalloc, Kfree, KmallocMemory, KfreeMemory, Contents, Undisturbed, Represents, Copied;
    KmallocExact(s, size);
    KmallocContents(s, size, m);
    var (u, q) := Kmalloc(s, size);
    if q != 0 {
      KfreeExact(u, p);
      GrowContents(s, u, p - HEADER, q - HEADER, m, KmallocMemory(s, size, m));
    }
  }

  /** Allocate, copy, free: the copy lands in the new allocation and survives the free. */
  lemma GrowContents(s: Heap, u: Heap, h: nat, g: nat, m: Memory, n: Memory)
    requires HeapInv(s) && HeapInv(u) && h in Held(s) && g !in Held(s)
    requires g in Held(u) && Held(u)[g] >= Held(s)[h] && Held(u) == Held(s)[g := Held(u)[g]]
    requires Undisturbed(s, u, m, n, {}) && Represents(u, n)
    ensures var k := KfreeMemory(u, h + HEADER, Copied(n, g + HEADER, h + HEADER, Held(s)[h])); var t := Kfree(u, h + HEADER);
            && Undisturbed(s, t, m, k, {h}) && Represents(t, k)
            && g in Held(t) && Contents(k, g, Held(s)[h]) == Contents(m, h, Held(s)[h])
  {
    hide HeapInv, Held, Contents, Copied, SameByte, OnlyWithin, Kfree, KfreeMemory, Represents, Undisturbed;
    var length := Held(s)[h];
    var copied := Copied(n, g + HEADER, h + HEADER, length);
    CopiedBytes(n, g, h, length);
    WiderWithin(n, copied, g, length, Held(u)[g]);
    PayloadWritesUndisturbed(u, g, n, copied);
    var t, k := Kfree(u, h + HEADER), KfreeMemory(u, h + HEADER, copied);
    KfreeContents(u, h + HEADER, copied);
    KfreeExact(u, h + HEADER);
    UndisturbedThen(s, u, u, m, n, copied, {}, {g}, {});
    UndisturbedThen(s, u, t, m, copied, k, {}, {h}, {h});
    KeptPart(s, u, m, n, {}, h, length);
    KeptPart(u, t, copied, k, {h}, g, length);
  }

  lemma WiderWithin(m: Memory, n: Memory, header: nat, size: nat, wider: nat)
    requires OnlyWithin(m, n, header, size) && size <= wider
    ensures OnlyWithin(m, n, header, wider)
  {
  }

  lemma KeptPart(s: Heap, t: Heap, m: Memory, n: Memory, apart: set<nat>, a: nat, size: nat)
    requires Undisturbed(s, t, m, n, apart) && a in Held(s) && a !in apart && size <= Held(s)[a]
    ensures a in Held(t) && Contents(n, a, size) == Contents(m, a, size)
  {
    hide Held;
    assert Contents(n, a, Held(s)[a])[..size] == Contents(n, a, size);
    assert Contents(m, a, Held(s)[a])[..size] == Contents(m, a, size);
  }

  // ----- Zeroed allocation -----

  function Zeros(size: nat): seq<bv8> {
    seq(size, _ => 0)
  }

  lemma ClearedBytes(m: Memory, target: nat, size: nat)
    ensures Contents(Cleared(m, target + HEADER, size), target, size) == Zeros(size)
    ensures OnlyWithin(m, Cleared(m, target + HEADER, size), target, size)
  {
  }

  /** A kcalloc that succeeds hands out `count * size` zero bytes, and every other allocation keeps
      its contents. */
  lemma KcallocContents(s: Heap, count: nat, size: nat, m: Memory)
    requires HeapInv(s) && (count * size < U64 ==> count * size <= MAX_REQUEST) && Represents(s, m)
    ensures var (t, p) := Kcalloc(s, count, size); var n := KcallocMemory(s, count, size, m);
            && Undisturbed(s, t, m, n, {}) && Represents(t, n)
            && (p != 0 ==>
                  && p >= HEADER && p - HEADER !in Held(s) && p - HEADER in Held(t) && Held(t)[p - HEADER] == count * size
                  && Contents(n, p - HEADER, count * size) == Zeros(count * size))
  {
    hide HeapInv, Held, Kmalloc, KmallocMemory, Undisturbed, Represents, Contents, Cleared, Zeros;
    ProductFits(count, size);
    if count != 0 && size > (U64 - 1) / count {
      SameHeapBytes(s, Kcalloc(s, count, size).0, m);
    } else {
      var total := count * size;
      KmallocExact(s, total);
      KmallocContents(s, total, m);
      var (t, p) := Kmalloc(s, total);
      var n := KmallocMemory(s, total, m);
      if p != 0 {
        ClearedBytes(n, p - HEADER, total);
        PayloadWritesUndisturbed(t, p - HEADER, n, Cleared(n, p, total));
        UndisturbedThen(s, t, t, m, n, Cleared(n, p, total), {}, {p - HEADER}, {});
      }
    }
  }
}
