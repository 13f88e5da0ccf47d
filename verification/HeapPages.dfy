/** How the heap takes pages from the physical allocator, one at a time, and when it keeps them. */
module HeapPages {
  import opened Collections
  import opened Arithmetic
  import opened PhysicalMemorySpec
  import opened PhysicalConstraintsSpec
  import opened HeapLayout
  import opened HeapBlocks

  /** One page for the heap: allocated, then its owner set. Address 0 is failure. */
  function TakeHeapPage(s: Phys, tag: nat): (Phys, nat) {
    var (t, page) := AllocatePage(s);
    if page == ALLOC_FAIL then (t, page)
    else (SetPageOwner(t, page, OWNER_KERNEL_HEAP, tag).0, page)
  }

  /** Up to `n` pages, in the order they were handed out; fewer when memory ran out. */
  function TakePages(s: Phys, n: nat, tag: nat): (Phys, seq<nat>)
    decreases n
  {
    if n == 0 then (s, [])
    else
      var (t, page) := TakeHeapPage(s, tag);
      if page == ALLOC_FAIL then (t, [])
      else
        var (u, rest) := TakePages(t, n - 1, tag);
        (u, [page] + rest)
  }

  function PutPages(s: Phys, pages: seq<nat>): Phys
    decreases |pages|
  {
    if pages == [] then s else PutPages(FreePage(s, pages[0]).0, pages[1..])
  }

  /** The running minimum of the program: 0 stands for "none yet". */
  function Lowest(pages: seq<nat>): (m: nat)
    requires 0 !in pages
    ensures pages != [] ==> m in pages
    ensures forall p :: p in pages ==> m <= p
  {
    if pages == [] then 0
    else
      var last := |pages| - 1;
      var m := Lowest(pages[..last]);
      assert pages == pages[..last] + [pages[last]];
      if m == 0 || pages[last] < m then pages[last] else m
  }

  function Highest(pages: seq<nat>): (m: nat)
    ensures pages != [] ==> m in pages
    ensures forall p :: p in pages ==> p <= m
  {
    if pages == [] then 0
    else
      var last := |pages| - 1;
      var m := Highest(pages[..last]);
      assert pages == pages[..last] + [pages[last]];
      if pages[last] > m then pages[last] else m
  }

  /** The pages of a span: kept only when all came and they reach from lowest to highest. */
  function TakeSpan(s: Phys, n: nat, tag: nat): (Phys, nat) {
    var (t, pages) := TakePages(s, n, tag);
    if |pages| < n || 0 in pages then (PutPages(t, pages), ALLOC_FAIL)
    else if n > 1 && Highest(pages) - Lowest(pages) != (n - 1) * PAGE_SIZE then (PutPages(t, pages), ALLOC_FAIL)
    else (t, Lowest(pages))
  }

  // ----- One page -----

  lemma AllocatePageTakes(s: Phys)
    requires Inv(s)
    ensures var (t, page) := AllocatePage(s);
            && Inv(t)
            && (page == ALLOC_FAIL <==> s.free == [])
            && (page == ALLOC_FAIL ==> t == s)
            && (page != ALLOC_FAIL ==>
                  && IsPage(page) && page in FreeSet(s) && page !in s.used
                  && t.used == s.used + {page} && FreeSet(t) == FreeSet(s) - {page} && page !in t.free)
  {
    AllocatePageExact(s);
  }

  /** A refused record is counted; otherwise the page's record is live. */
  lemma SetOwnerRecords(s: Phys, page: nat, owner: nat, tag: nat)
    requires Inv(s) && page in s.used && owner != OWNER_FREE && owner != OWNER_RESERVED
    ensures var t := SetPageOwner(s, page, owner, tag).0;
            && Inv(t) && t.used == s.used && t.free == s.free
            && t.recordOverflows >= s.recordOverflows
            && (t.recordOverflows == s.recordOverflows ==> Returnable(t, page))
            && (forall p :: p != page && Returnable(s, p) ==> Returnable(t, p))
            && (Returnable(s, page) ==> Returnable(t, page))
  {
    hide Inv, SetOwnerSafe;
    AlignedWhenUsed(s, page);
    SafeWhenUsed(s, page, owner);
    SetPageOwnerExact(s, page, owner, tag);
    AlignedWhenUsed(s, page);
    var t := SetPageOwner(s, page, owner, tag).0;
    forall p | Returnable(s, p) || p == page
      ensures (p != page || Returnable(s, page)) ==> Returnable(t, p)
      ensures p == page && t.recordOverflows == s.recordOverflows ==> Returnable(t, p)
    {
      FoundAfter(s.records, t.records, p);
      assert |t.records| > |s.records| ==> t.records[|s.records|].address == page;
    }
  }

  lemma SafeWhenUsed(s: Phys, page: nat, owner: nat)
    requires Inv(s) && page in s.used && owner != OWNER_FREE
    ensures SetOwnerSafe(s, page, owner)
  {
    AlignedWhenUsed(s, page);
  }

  lemma AlignedWhenUsed(s: Phys, page: nat)
    requires Inv(s) && page in s.used
    ensures s.initialized && AlignDown(page) == page && page !in s.free
  {
  }

  lemma TakeHeapPageKeeps(s: Phys, tag: nat)
    requires Inv(s)
    ensures var (t, page) := TakeHeapPage(s, tag);
            && Inv(t)
            && (page == ALLOC_FAIL ==> t == s)
            && (page != ALLOC_FAIL ==>
                  && IsPage(page) && page in FreeSet(s)
                  && t.used == s.used + {page} && FreeSet(t) == FreeSet(s) - {page})
  {
    AllocatePageTakes(s);
    var (t, page) := AllocatePage(s);
    hide Inv, AllocatePage, SetPageOwner, Returnable;
    if page != ALLOC_FAIL {
      SetOwnerRecords(t, page, OWNER_KERNEL_HEAP, tag);
    }
  }

  /** Unless a record was refused, the page can be given back, and so can every other one. */
  lemma TakeHeapPageRecords(s: Phys, tag: nat)
    requires Inv(s)
    ensures var (t, page) := TakeHeapPage(s, tag);
            && t.recordOverflows >= s.recordOverflows
            && (page != ALLOC_FAIL && t.recordOverflows == s.recordOverflows ==> Returnable(t, page))
            && (forall p :: p in s.used && Returnable(s, p) ==> Returnable(t, p))
  {
    hide Inv, SetPageOwner, SwapRemove, Returnable;
    if s.free != [] {
      var i := |s.free| - 1;
      var page := s.free[i];
      AllocatePageTakes(s);
      TakePageRecords(s, i);
      var t := AllocatePage(s).0;
      assert Inv(s) ==> s.initialized by { InitializedInInv(s); }
      SetOwnerRecords(t, page, OWNER_KERNEL_HEAP, tag);
    }
  }

  lemma InitializedInInv(s: Phys)
    ensures Inv(s) ==> s.initialized
  {
  }

  lemma TakePageRecords(s: Phys, i: nat)
    requires Inv(s) && i < |s.free|
    ensures var t := AllocateAt(s, i, OWNER_GENERIC, 0);
            && t.recordOverflows >= s.recordOverflows
            && (forall p :: p in s.used && Returnable(s, p) ==> Returnable(t, p))
  {
    var t := AllocateAt(s, i, OWNER_GENERIC, 0);
    assert s.free[i] in s.free;
    forall p | p in s.used && Returnable(s, p) ensures Returnable(t, p) {
      FoundAfter(s.records, t.records, p);
    }
  }

  // ----- Several pages -----

  lemma {:induction false} TakePagesKeeps(s: Phys, n: nat, tag: nat)
    requires Inv(s)
    ensures var (t, pages) := TakePages(s, n, tag);
            && Inv(t) && |pages| <= n && 0 !in pages && NoDuplicates(pages)
            && (forall p :: p in pages ==> IsPage(p))
            && Members(pages) <= FreeSet(s)
            && t.used == s.used + Members(pages) && FreeSet(t) == FreeSet(s) - Members(pages)
    decreases n
  {
    hide Inv, TakeHeapPage;
    if n > 0 {
      TakeHeapPageKeeps(s, tag);
      var (t, page) := TakeHeapPage(s, tag);
      if page != ALLOC_FAIL {
        TakePagesKeeps(t, n - 1, tag);
        var rest := TakePages(t, n - 1, tag).1;
        assert page !in FreeSet(t);
        ConsMembers(page, rest);
      }
    }
  }

  lemma ConsMembers(page: nat, rest: seq<nat>)
    ensures Members([page] + rest) == {page} + Members(rest)
    ensures NoDuplicates(rest) && page !in Members(rest) ==> NoDuplicates([page] + rest)
  {
  }

  lemma {:induction false} TakePagesRecords(s: Phys, n: nat, tag: nat)
    requires Inv(s)
    ensures var (t, pages) := TakePages(s, n, tag);
            && t.recordOverflows >= s.recordOverflows
            && (t.recordOverflows == s.recordOverflows ==> forall p :: p in pages ==> Returnable(t, p))
            && (forall p :: p in s.used && Returnable(s, p) ==> Returnable(t, p))
    decreases n
  {
    hide Inv, TakeHeapPage, Returnable;
    if n > 0 {
      TakeHeapPageKeeps(s, tag);
      TakeHeapPageRecords(s, tag);
      var (t, page) := TakeHeapPage(s, tag);
      if page != ALLOC_FAIL {
        TakePagesRecords(t, n - 1, tag);
      }
    }
  }

  /** Handing pages back: each goes back if its record is live, and nothing else changes. */
  lemma {:induction false} PutPagesKeeps(s: Phys, pages: seq<nat>)
    requires Inv(s) && NoDuplicates(pages)
    ensures var t := PutPages(s, pages);
            && Inv(t)
            && FreeSet(s) <= FreeSet(t) <= FreeSet(s) + Members(pages)
            && s.used - Members(pages) <= t.used <= s.used
            && ((forall p :: p in pages ==> Returnable(s, p)) ==>
                  FreeSet(t) == FreeSet(s) + Members(pages) && t.used == s.used - Members(pages))
    decreases |pages|
  {
    hide Inv, FreePage, Returnable;
    if pages != [] {
      var page, rest := pages[0], pages[1..];
      FreePageSets(s, page);
      var t := FreePage(s, page).0;
      assert pages == [page] + rest;
      ConsMembers(page, rest);
      if forall p :: p in pages ==> Returnable(s, p) {
        assert page in pages;
        FreePageReturns(s, page);
      }
      PutPagesKeeps(t, rest);
    }
  }

  lemma FreePageSets(s: Phys, page: nat)
    requires Inv(s)
    ensures var (t, ok) := FreePage(s, page);
            && Inv(t)
            && FreeSet(t) == FreeSet(s) + (if ok then {page} else {})
            && t.used == s.used - (if ok then {page} else {})
  {
    FreePageExact(s, page);
  }

  // ----- Spans -----

  lemma {:induction false} PageRunCardinality(base: nat, n: nat)
    ensures |PageRun(base, n)| == n
  {
    if n > 0 {
      PageRunCardinality(base, n - 1);
      var last := base + (n - 1) * PAGE_SIZE;
      assert last !in PageRun(base, n - 1);
      assert PageRun(base, n) == PageRun(base, n - 1) + {last};
    }
  }

  lemma AlignedInRun(base: nat, n: nat, p: nat)
    requires IsAlignedPage(base) && IsAlignedPage(p) && n > 0
    requires base <= p <= base + (n - 1) * PAGE_SIZE
    ensures p in PageRun(base, n)
  {
    InPageRun(base, n, p);
  }

  /** Pigeonhole: n distinct pages no further apart than n pages are exactly the run of n
      pages from the lowest. */
  lemma ConsecutivePages(pages: seq<nat>)
    requires pages != [] && 0 !in pages && NoDuplicates(pages)
    requires forall p :: p in pages ==> IsAlignedPage(p)
    requires Highest(pages) - Lowest(pages) == (|pages| - 1) * PAGE_SIZE
    ensures Members(pages) == PageRun(Lowest(pages), |pages|)
  {
    var base, n := Lowest(pages), |pages|;
    hide Lowest, Highest, NoDuplicates;
    forall p | p in Members(pages) ensures p in PageRun(base, n) {
      AlignedInRun(base, n, p);
    }
    MembersSize(pages);
    PageRunCardinality(base, n);
    SubsetSize(Members(pages), PageRun(base, n));
  }

  /** An accepted span is n consecutive pages that were free and are now the heap's. A
      refused one leaves the free pages as they were, except for pages whose ownership
      record had been refused. */
  lemma TakeSpanExact(s: Phys, n: nat, tag: nat)
    requires Inv(s) && n > 0
    ensures var (t, base) := TakeSpan(s, n, tag);
            && Inv(t)
            && (base != ALLOC_FAIL ==>
                  && IsPage(base) && PageRun(base, n) <= FreeSet(s)
                  && t.used == s.used + PageRun(base, n) && FreeSet(t) == FreeSet(s) - PageRun(base, n))
            && (base == ALLOC_FAIL ==>
                  && FreeSet(t) <= FreeSet(s) && s.used <= t.used
                  && (TakePages(s, n, tag).0.recordOverflows == s.recordOverflows ==>
                        FreeSet(t) == FreeSet(s) && t.used == s.used))
  {
    hide Inv, TakeHeapPage, Returnable;
    TakePagesKeeps(s, n, tag);
    TakePagesRecords(s, n, tag);
    var (t, pages) := TakePages(s, n, tag);
    UsedNotFree(s);
    if |pages| < n {
      PutPagesKeeps(t, pages);
    } else {
      if n > 1 && Highest(pages) - Lowest(pages) != (n - 1) * PAGE_SIZE {
        PutPagesKeeps(t, pages);
      } else {
        ConsecutivePages(pages);
      }
    }
  }

  // ----- Which pages, and on whose record -----

  /** A page for the heap is the last of the free array, on record as the heap's if there is room. */
  lemma TakeHeapPageIs(s: Phys, tag: nat)
    requires Inv(s)
    ensures var (t, page) := TakeHeapPage(s, tag);
            if s.free == [] then page == 0 && t == s
            else page == s.free[|s.free| - 1] && t.free == s.free[..|s.free| - 1] && OwnerOnRecord(t, page, 3, tag)
                 && forall p, o, g :: p != page && OwnerOnRecord(s, p, o, g) ==> OwnerOnRecord(t, p, o, g)
  {
    if s.free != [] {
      var i := |s.free| - 1;
      AllocatePageExact(s);
      AllocateAtRecords(s, i, OWNER_GENERIC, 0);
      var (u, page) := AllocatePage(s);
      OwnerReplaced(u, page, OWNER_KERNEL_HEAP, tag);
    }
  }

  lemma OwnerReplaced(s: Phys, page: nat, owner: nat, tag: nat)
    requires Inv(s) && page in s.used && owner != OWNER_FREE
    ensures var t := SetPageOwner(s, page, owner, tag).0;
            && t.free == s.free && OwnerOnRecord(t, page, owner, tag)
            && forall p, o, g :: p != page && OwnerOnRecord(s, p, o, g) ==> OwnerOnRecord(t, p, o, g)
  {
    AlignedWhenUsed(s, page);
    hide Inv;
    var t := SetPageOwner(s, page, owner, tag).0;
    FoundAfter(s.records, t.records, page);
    assert |t.records| > |s.records| ==> t.records[|s.records|].address == page;
    forall p, o, g | p != page && OwnerOnRecord(s, p, o, g) ensures OwnerOnRecord(t, p, o, g) {
      FoundAfter(s.records, t.records, p);
    }
  }

  /** Several pages are the last ones of the array, from its end on: as many as asked for, or all. */
  lemma {:induction false} TakePagesAre(s: Phys, n: nat, tag: nat)
    requires Inv(s)
    ensures var (t, pages) := TakePages(s, n, tag);
            && |pages| == (if n < |s.free| then n else |s.free|)
            && (forall k :: 0 <= k < |pages| ==> pages[k] == s.free[|s.free| - 1 - k])
            && (forall p :: p in pages ==> OwnerOnRecord(t, p, 3, tag))
            && (forall p, o, g :: p !in pages && OwnerOnRecord(s, p, o, g) ==> OwnerOnRecord(t, p, o, g))
    decreases n
  {
    hide Inv, TakeHeapPage, OwnerOnRecord;
    if n > 0 {
      TakeHeapPageKeeps(s, tag);
      TakeHeapPageIs(s, tag);
      var (t, page) := TakeHeapPage(s, tag);
      if s.free != [] {
        FreeNotNull(s);
        TakePagesAre(t, n - 1, tag);
        TakePagesKeeps(t, n - 1, tag);
        var (u, rest) := TakePages(t, n - 1, tag);
        assert page !in FreeSet(t);
        assert TakePages(s, n, tag) == (u, [page] + rest);
      }
    }
  }

  lemma FreeNotNull(s: Phys)
    requires Inv(s)
    ensures 0 !in s.free
  {
  }

  /** The last n pages of the array are n consecutive pages from `base`. */
  ghost predicate EndsInRun(s: Phys, n: nat, base: nat) {
    n <= |s.free| && Members(s.free[|s.free| - n..]) == PageRun(base, n)
  }

  /** A span can be had exactly when the last n pages of the free array are consecutive, in any order; it is
      those, on record as the heap's if there is room. */
  lemma TakeSpanSucceeds(s: Phys, n: nat, tag: nat)
    requires Inv(s) && n > 0
    ensures var (t, base) := TakeSpan(s, n, tag);
            && (base != 0 <==> exists b: nat :: EndsInRun(s, n, b))
            && (base != 0 ==> EndsInRun(s, n, base) && forall k :: 0 <= k < n ==> OwnerOnRecord(t, base + k * 4096, 3, tag))
  {
    hide Inv, OwnerOnRecord, TakePages, PutPages, Lowest, Highest, Members, PageRun, NoDuplicates;
    TakePagesKeeps(s, n, tag);
    TakePagesAre(s, n, tag);
    var (t, pages) := TakePages(s, n, tag);
    if n <= |s.free| {
      SameReversed(pages, s.free[|s.free| - n..]);
      if b: nat :| EndsInRun(s, n, b) {
        RunEnds(pages, b);
      }
      if n == 1 || Highest(pages) - Lowest(pages) == (n - 1) * PAGE_SIZE {
        if n == 1 {
          OneSpread(pages);
        }
        ConsecutivePages(pages);
        assert EndsInRun(s, n, Lowest(pages));
        RunMembers(pages, Lowest(pages));
      }
    }
  }

  lemma OneSpread(pages: seq<nat>)
    requires |pages| == 1 && 0 !in pages
    ensures Highest(pages) == Lowest(pages)
  {
    assert Highest(pages) in pages && Lowest(pages) in pages;
  }

  lemma RunMembers(pages: seq<nat>, base: nat)
    requires Members(pages) == PageRun(base, |pages|)
    ensures forall k :: 0 <= k < |pages| ==> base + k * 4096 in pages
  {
    forall k | 0 <= k < |pages| ensures base + k * 4096 in pages {
      assert base + k * PAGE_SIZE in PageRun(base, |pages|);
    }
  }

  lemma SameReversed(a: seq<nat>, b: seq<nat>)
    requires |a| == |b| && forall k :: 0 <= k < |a| ==> a[k] == b[|b| - 1 - k]
    ensures Members(a) == Members(b)
  {
    forall p ensures p in a <==> p in b {
      if p in b {
        var k :| 0 <= k < |b| && b[k] == p;
        assert a[|b| - 1 - k] == p;
      }
    }
  }

  lemma RunEnds(pages: seq<nat>, base: nat)
    requires pages != [] && 0 !in pages && Members(pages) == PageRun(base, |pages|)
    ensures Lowest(pages) == base && Highest(pages) - Lowest(pages) == (|pages| - 1) * PAGE_SIZE
  {
    var n := |pages|;
    assert base + 0 * PAGE_SIZE in PageRun(base, n) && base + (n - 1) * PAGE_SIZE in PageRun(base, n);
    assert base in Members(pages) && base + (n - 1) * PAGE_SIZE in Members(pages);
    assert Lowest(pages) in Members(pages) && Highest(pages) in Members(pages);
    var k :| 0 <= k < n && Highest(pages) == base + k * PAGE_SIZE;
    MulMono(PAGE_SIZE, k, n - 1);
  }

  lemma UsedNotFree(s: Phys)
    requires Inv(s)
    ensures s.used !! FreeSet(s)
  {
  }
}
