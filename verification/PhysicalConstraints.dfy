/** Constrained and contiguous page allocation over the physical page allocator. */
module PhysicalConstraintsSpec {
  import opened Arithmetic
  import opened PhysicalMemorySpec

  const DMA_32BIT_LIMIT: nat := 0x100000000

  datatype Constraints = Constraints(
    minAddress: nat,
    maxExclusive: nat,
    alignment: nat,
    pageCount: nat,
    dmaSafe: bool,
    owner: nat,
    tag: nat)

  predicate IsPowerOfTwo(value: nat) {
    value == 1 || (value > 1 && value % 2 == 0 && IsPowerOfTwo(value / 2))
  }

  predicate PageMatches(page: nat, c: Constraints) {
    var alignment := if c.alignment == 0 then PAGE_SIZE else c.alignment;
    var limit := if c.dmaSafe && c.maxExclusive == 0 then DMA_32BIT_LIMIT else c.maxExclusive;
    && IsPowerOfTwo(alignment) && alignment >= PAGE_SIZE
    && page >= c.minAddress
    && (limit == 0 || (page + PAGE_SIZE) % U64 <= limit)
    && page % alignment == 0
  }

  ghost function Power2(k: nat): nat {
    if k == 0 then 1 else 2 * Power2(k - 1)
  }

  lemma {:induction false} PowersArePowers(k: nat)
    ensures IsPowerOfTwo(Power2(k)) && Power2(k) >= 1
  {
    if k > 0 {
      PowersArePowers(k - 1);
      assert Power2(k) / 2 == Power2(k - 1);
    }
  }

  lemma {:induction false} PowerOfTwoIs(value: nat)
    ensures IsPowerOfTwo(value) <==> exists k: nat :: value == Power2(k)
  {
    if value > 1 && value % 2 == 0 {
      PowerOfTwoIs(value / 2);
      if k: nat :| value / 2 == Power2(k) {
        assert value == Power2(k + 1);
      }
    }
    assert value == 1 ==> value == Power2(0);
    if k: nat :| value == Power2(k) {
      PowersArePowers(k);
    }
  }

  /** A page meets constraints exactly when it is aligned as asked, to a power of two of at least a page
      or by default to a page, lies at or above the minimum, and ends at or below the maximum: the one
      asked for, or 4 GiB for DMA without one, or none. */
  lemma PageMatchesExact(page: nat, c: Constraints)
    requires page + 4096 < U64
    ensures PageMatches(page, c) <==>
            && (c.alignment == 0 || (c.alignment >= 4096 && exists k: nat :: c.alignment == Power2(k)))
            && page % (if c.alignment == 0 then 4096 else c.alignment) == 0
            && page >= c.minAddress
            && (c.maxExclusive != 0 ==> page + 4096 <= c.maxExclusive)
            && (c.maxExclusive == 0 && c.dmaSafe ==> page + 4096 <= 0x1_0000_0000)
  {
    PowerOfTwoIs(c.alignment);
    PowerOfTwoIs(4096);
    assert IsPowerOfTwo(4096);
  }

  function ConstraintOwner(c: Constraints): nat {
    if c.owner == OWNER_FREE then OWNER_GENERIC else c.owner
  }

  /** The highest index below `n` whose page meets the constraints, or -1. */
  function LastMatch(free: seq<nat>, n: nat, c: Constraints): (i: int)
    requires n <= |free|
    ensures -1 <= i < n
    ensures i >= 0 ==> PageMatches(free[i], c)
    ensures forall j :: i < j < n ==> !PageMatches(free[j], c)
  {
    if n == 0 then -1 else if PageMatches(free[n - 1], c) then n - 1 else LastMatch(free, n - 1, c)
  }

  function AllocateConstrainedPage(s: Phys, c: Constraints): (Phys, nat) {
    if !s.initialized || s.free == [] then (s, ALLOC_FAIL)
    else
      var i := LastMatch(s.free, |s.free|, c);
      if i < 0 then (s, ALLOC_FAIL)
      else (AllocateAt(s, i, ConstraintOwner(c), c.tag), s.free[i])
  }

  /** A constrained allocation succeeds exactly when some free page meets the constraints,
      and then hands out such a page. */
  lemma AllocateConstrainedExact(s: Phys, c: Constraints)
    requires Inv(s)
    ensures Inv(AllocateConstrainedPage(s, c).0)
    ensures var (t, page) := AllocateConstrainedPage(s, c);
            if exists p :: p in s.free && PageMatches(p, c) then
              && page in s.free && PageMatches(page, c) && page !in s.used
              && t.used == s.used + {page} && FreeSet(t) == FreeSet(s) - {page}
              && OwnerOnRecord(t, page, if c.owner == 0 then 1 else c.owner, c.tag)
            else t == s && page == ALLOC_FAIL
  {
    var i := LastMatch(s.free, |s.free|, c);
    if i >= 0 {
      AllocateAtKeeps(s, i, ConstraintOwner(c), c.tag);
      AllocateAtRecords(s, i, ConstraintOwner(c), c.tag);
    }
  }

  /** Any page: one comes back exactly when one is free, recorded for general use. */
  lemma AllocatePageExact(s: Phys)
    requires Inv(s)
    ensures Inv(AllocatePage(s).0)
    ensures var (t, page) := AllocatePage(s);
            if s.free != [] then
              && page in s.free && IsPage(page) && page !in s.used
              && t.used == s.used + {page} && FreeSet(t) == FreeSet(s) - {page}
              && OwnerOnRecord(t, page, 1, 0)
            else t == s && page == 0
  {
    if s.free != [] {
      AllocateAtKeeps(s, |s.free| - 1, OWNER_GENERIC, 0);
      AllocateAtRecords(s, |s.free| - 1, OWNER_GENERIC, 0);
    }
  }

  /** A page below a limit: one comes back exactly when one of the free pages lies below it. */
  lemma AllocatePageBelowExact(s: Phys, limit: nat)
    requires Inv(s)
    ensures Inv(AllocatePageBelow(s, limit).0)
    ensures var (t, page) := AllocatePageBelow(s, limit);
            if exists p :: p in s.free && p < limit then
              && page in s.free && page < limit && IsPage(page) && page !in s.used
              && t.used == s.used + {page} && FreeSet(t) == FreeSet(s) - {page}
              && OwnerOnRecord(t, page, 1, 0)
            else t == s && page == 0
  {
    var i := LastBelow(s.free, |s.free|, limit);
    if i >= 0 {
      AllocateAtKeeps(s, i, OWNER_GENERIC, 0);
      AllocateAtRecords(s, i, OWNER_GENERIC, 0);
    }
  }

  function PageCountOf(c: Constraints): nat {
    if c.pageCount == 0 then 1 else c.pageCount
  }

  /** Page number `k` of a run starting at `base`, in 64-bit arithmetic. */
  function RunPage(base: nat, k: nat): nat {
    (base + k * PAGE_SIZE) % U64
  }

  /** The test of one candidate base. The alignment is asked of every page of the run. */
  predicate Fits(free: seq<nat>, base: nat, c: Constraints, n: nat) {
    && PageMatches(base, c)
    && forall k :: 1 <= k < n ==> RunPage(base, k) in free && PageMatches(RunPage(base, k), c)
  }

  /** The first index from `index` on whose page is the base of a fitting run, or the length. */
  function FirstFit(free: seq<nat>, index: nat, c: Constraints, n: nat): (i: nat)
    requires index <= |free|
    ensures index <= i <= |free|
    ensures i < |free| ==> Fits(free, free[i], c, n)
    ensures forall j :: index <= j < i ==> !Fits(free, free[j], c, n)
    decreases |free| - index
  {
    if index == |free| then index
    else if Fits(free, free[index], c, n) then index
    else FirstFit(free, index + 1, c, n)
  }

  function IndexOf(free: seq<nat>, page: nat): (i: nat)
    ensures i <= |free|
    ensures i < |free| ==> free[i] == page
    ensures forall j :: 0 <= j < i ==> free[j] != page
    ensures page in free ==> i < |free|
  {
    if free == [] then 0
    else if free[0] == page then 0
    else
      var i := IndexOf(free[1..], page);
      assert forall j :: 1 <= j < i + 1 ==> free[j] == free[1..][j - 1];
      i + 1
  }

  /** The removal loop: pages `k` to `n` of the run leave the free array in order. */
  function TakeRun(s: Phys, base: nat, k: nat, n: nat, owner: nat, tag: nat): Phys
    decreases n - k
  {
    if k >= n then s
    else
      var i := IndexOf(s.free, RunPage(base, k));
      if i == |s.free| then s
      else TakeRun(AllocateAt(s, i, owner, tag), base, k + 1, n, owner, tag)
  }

  function AllocateContiguousPages(s: Phys, c: Constraints): (Phys, nat) {
    if !s.initialized then (s, ALLOC_FAIL)
    else
      var n := PageCountOf(c);
      var i := FirstFit(s.free, 0, c, n);
      if i == |s.free| then (s, ALLOC_FAIL)
      else (TakeRun(s, s.free[i], 0, n, ConstraintOwner(c), c.tag), s.free[i])
  }

  function FreeRun(s: Phys, base: nat, k: nat, n: nat): (Phys, nat)
    decreases n - k
  {
    if k >= n then (s, 0)
    else
      var (t, ok) := FreePage(s, RunPage(base, k));
      var (u, freed) := FreeRun(t, base, k + 1, n);
      (u, if ok then freed + 1 else freed)
  }

  function FreeContiguousPages(s: Phys, base: nat, n: nat): (Phys, bool) {
    if n == 0 then (s, false)
    else
      var (t, freed) := FreeRun(s, base, 0, n);
      (t, freed == n)
  }

  // ----- Contiguous runs -----

  ghost function RunSet(base: nat, k: nat, n: nat): set<nat>
    decreases n - k
  {
    if k >= n then {} else {RunPage(base, k)} + RunSet(base, k + 1, n)
  }

  lemma {:induction false} RunSetMember(base: nat, k: nat, n: nat)
    ensures forall j :: k <= j < n ==> RunPage(base, j) in RunSet(base, k, n)
    ensures forall p :: p in RunSet(base, k, n) ==> exists j :: k <= j < n && RunPage(base, j) == p
    decreases n - k
  {
    if k < n {
      RunSetMember(base, k + 1, n);
      assert RunPage(base, k) in RunSet(base, k, n);
    }
  }

  /** A run made of pages never passes the top of the address space: page 0 is never free. */
  lemma {:induction false} RunDoesNotWrap(base: nat, n: nat)
    requires IsPage(base)
    requires forall j :: 1 <= j < n ==> IsPage(RunPage(base, j))
    ensures forall j :: 0 <= j < n ==> RunPage(base, j) == base + j * PAGE_SIZE < U64
  {
    if n > 1 {
      RunDoesNotWrap(base, n - 1);
      var last := base + (n - 2) * PAGE_SIZE;
      assert RunPage(base, n - 2) == last < U64;
      assert last % PAGE_SIZE == 0;
      assert base + (n - 1) * PAGE_SIZE == last + PAGE_SIZE <= U64;
      assert IsPage(RunPage(base, n - 1));
    }
  }

  /** A page's owner is on record, or the record table was full. */
  ghost predicate OwnerOnRecord(t: Phys, page: nat, owner: nat, tag: nat) {
    var i := FindRecord(t.records, page);
    if i < |t.records| then t.records[i].owner == owner && t.records[i].tag == tag
    else |t.records| == MAX_RECORDS
  }

  lemma AllocateAtRecords(s: Phys, index: nat, owner: nat, tag: nat)
    requires Inv(s) && index < |s.free| && owner != OWNER_FREE
    ensures OwnerOnRecord(AllocateAt(s, index, owner, tag), s.free[index], owner, tag)
    ensures forall p, o, g :: p != s.free[index] && OwnerOnRecord(s, p, o, g) ==>
                                OwnerOnRecord(AllocateAt(s, index, owner, tag), p, o, g)
  {
    hide Inv, PagesInv, RecordsInvExcept;
    var page := s.free[index];
    var t := AllocateAt(s, index, owner, tag);
    AllocateAtKeeps(s, index, owner, tag);
    TakePagePages(s, index);
    assert AlignDown(page) == page;
    FoundAfter(s.records, t.records, page);
    assert |t.records| > |s.records| ==> t.records[|s.records|].address == page;
    forall p, o, g | p != page && OwnerOnRecord(s, p, o, g) ensures OwnerOnRecord(t, p, o, g) {
      FoundAfter(s.records, t.records, p);
    }
  }

  /** Where a record is found after one record was changed in place or added at the end. */
  lemma FoundAfter(old_: seq<PageRecord>, new_: seq<PageRecord>, p: nat)
    requires |new_| == |old_| || |new_| == |old_| + 1
    requires forall i :: 0 <= i < |old_| ==> new_[i].address == old_[i].address
    ensures FindRecord(old_, p) < |old_| ==> FindRecord(new_, p) == FindRecord(old_, p)
    ensures FindRecord(old_, p) == |old_| && |new_| == |old_| ==> FindRecord(new_, p) == |new_|
    ensures FindRecord(old_, p) == |old_| && |new_| > |old_| ==> FindRecord(new_, p) >= |old_|
  {
  }

  ghost predicate DistinctRun(base: nat, k: nat, n: nat) {
    forall i, j :: k <= i < j < n ==> RunPage(base, i) != RunPage(base, j)
  }

  /** Page numbers of 32 bits give different pages, even where the addresses wrap. */
  lemma RunDistinct(base: nat, n: nat)
    requires n <= U32
    ensures DistinctRun(base, 0, n)
  {
    forall i, j | 0 <= i < j < n ensures RunPage(base, i) != RunPage(base, j) {
      RemaindersDiffer(base + i * PAGE_SIZE, base + j * PAGE_SIZE);
    }
  }

  lemma RemaindersDiffer(a: nat, b: nat)
    requires a < b < a + U64
    ensures a % U64 != b % U64
  {
    assert a == U64 * (a / U64) + a % U64 && b == U64 * (b / U64) + b % U64;
  }

  /** Taking one page leaves every other in the array, also when some are there twice. */
  lemma TakeLeaves(s: Phys, i: nat, owner: nat, tag: nat, p: nat)
    requires i < |s.free| && p in s.free && p != s.free[i]
    ensures p in AllocateAt(s, i, owner, tag).free
  {
    var k :| 0 <= k < |s.free| && s.free[k] == p;
    assert SwapRemove(s.free, i)[if k == |s.free| - 1 then i else k] == p;
  }

  /** Taking a run of free pages moves exactly those pages, in one piece. */
  lemma {:induction false} TakeRunKeeps(s: Phys, base: nat, k: nat, n: nat, owner: nat, tag: nat)
    requires Inv(s) && owner != OWNER_FREE && k <= n
    requires forall j :: k <= j < n ==> RunPage(base, j) in s.free
    requires DistinctRun(base, k, n)
    ensures Inv(TakeRun(s, base, k, n, owner, tag))
    ensures TakeRun(s, base, k, n, owner, tag).used == s.used + RunSet(base, k, n)
    ensures FreeSet(TakeRun(s, base, k, n, owner, tag)) == FreeSet(s) - RunSet(base, k, n)
    ensures TakeRun(s, base, k, n, owner, tag).reserved == s.reserved
    ensures TakeRun(s, base, k, n, owner, tag).trackedCount == s.trackedCount
    decreases n - k
  {
    hide Inv, AllocateAt, RunPage;
    if k < n {
      var i := IndexOf(s.free, RunPage(base, k));
      AllocateAtKeeps(s, i, owner, tag);
      TakeRunStep(s, base, k, n, owner, tag);
      TakeRunKeeps(AllocateAt(s, i, owner, tag), base, k + 1, n, owner, tag);
    }
  }

  lemma TakeRunStep(s: Phys, base: nat, k: nat, n: nat, owner: nat, tag: nat)
    requires Inv(s) && owner != OWNER_FREE && k < n
    requires forall j :: k <= j < n ==> RunPage(base, j) in s.free
    requires DistinctRun(base, k, n)
    ensures var u := AllocateAt(s, IndexOf(s.free, RunPage(base, k)), owner, tag);
            forall j :: k + 1 <= j < n ==> RunPage(base, j) in u.free
  {
    var i := IndexOf(s.free, RunPage(base, k));
    var u := AllocateAt(s, i, owner, tag);
    AllocateAtKeeps(s, i, owner, tag);
    forall j | k + 1 <= j < n ensures RunPage(base, j) in u.free {
      assert RunPage(base, j) in FreeSet(s) - {RunPage(base, k)};
    }
  }

  /** The owner of every page taken is on record while the table has room. */
  lemma {:induction false} TakeRunRecords(s: Phys, base: nat, k: nat, n: nat, owner: nat, tag: nat, p: nat, o: nat, g: nat)
    requires Inv(s) && owner != OWNER_FREE && k <= n
    requires forall j :: k <= j < n ==> RunPage(base, j) in s.free
    requires DistinctRun(base, k, n)
    requires if p in RunSet(base, k, n) then o == owner && g == tag else OwnerOnRecord(s, p, o, g)
    ensures OwnerOnRecord(TakeRun(s, base, k, n, owner, tag), p, o, g)
    decreases n - k
  {
    hide Inv, AllocateAt, RunPage, OwnerOnRecord;
    if k < n {
      var i := IndexOf(s.free, RunPage(base, k));
      AllocateAtKeeps(s, i, owner, tag);
      AllocateAtRecords(s, i, owner, tag);
      TakeRunStep(s, base, k, n, owner, tag);
      RunSetMember(base, k + 1, n);
      TakeRunRecords(AllocateAt(s, i, owner, tag), base, k + 1, n, owner, tag, p, o, g);
    }
  }

  lemma FitsIsRun(s: Phys, base: nat, c: Constraints, n: nat)
    requires Inv(s) && base in s.free && Fits(s.free, base, c, n)
    ensures forall j :: 0 <= j < n ==> RunPage(base, j) == base + j * PAGE_SIZE < U64
    ensures forall j :: 0 <= j < n ==> RunPage(base, j) in s.free && PageMatches(RunPage(base, j), c)
    ensures DistinctRun(base, 0, n)
  {
    RunDoesNotWrap(base, n);
  }

  function PageBehind(base: nat, k: nat): nat {
    base + k * 4096
  }

  /** A run of n consecutive free pages, each meeting the constraints. */
  ghost predicate Run(s: Phys, base: nat, c: Constraints, n: nat) {
    forall k :: 0 <= k < n ==> PageBehind(base, k) in s.free && PageMatches(PageBehind(base, k), c)
  }

  lemma BehindIsRunPage(base: nat, k: nat)
    ensures PageBehind(base, k) < U64 ==> RunPage(base, k) == PageBehind(base, k)
    ensures RunPage(base, k) == base + k * PAGE_SIZE ==> RunPage(base, k) == PageBehind(base, k)
    ensures PageBehind(base, 0) == base
  {
  }

  lemma FitsIsRunExact(s: Phys, base: nat, c: Constraints, n: nat)
    requires Inv(s) && base in s.free && n > 0
    ensures Fits(s.free, base, c, n) <==> Run(s, base, c, n)
  {
    hide PageMatches, RunPage, PageBehind, RecordsInv;
    BehindIsRunPage(base, 0);
    if Fits(s.free, base, c, n) {
      FitsIsRun(s, base, c, n);
      forall k | 0 <= k < n ensures PageBehind(base, k) in s.free && PageMatches(PageBehind(base, k), c) {
        BehindIsRunPage(base, k);
      }
    }
    if Run(s, base, c, n) {
      forall k | 1 <= k < n ensures RunPage(base, k) in s.free && PageMatches(RunPage(base, k), c) {
        assert IsPage(PageBehind(base, k));
        BehindIsRunPage(base, k);
      }
    }
  }

  /** A contiguous allocation fails only when no fitting run exists. When it succeeds, the
      run's pages were all free and meet the constraints, they are consecutive, exactly they
      changed hands, and their owner is on record while the table has room. */
  lemma AllocateContiguousExact(s: Phys, c: Constraints)
    requires Inv(s)
    ensures var n := if c.pageCount == 0 then 1 else c.pageCount;
            var (t, base) := AllocateContiguousPages(s, c);
            && Inv(t)
            && (base == ALLOC_FAIL <==> !exists b :: b in s.free && Run(s, b, c, n))
            && (base == ALLOC_FAIL ==> t == s)
            && (base != ALLOC_FAIL ==>
                  && (forall k :: 0 <= k < n ==>
                        && RunPage(base, k) == base + k * PAGE_SIZE < U64
                        && RunPage(base, k) in s.free && PageMatches(RunPage(base, k), c)
                        && OwnerOnRecord(t, RunPage(base, k), if c.owner == 0 then 1 else c.owner, c.tag))
                  && RunSet(base, 0, n) <= FreeSet(s)
                  && FreeSet(t) == FreeSet(s) - RunSet(base, 0, n)
                  && t.used == s.used + RunSet(base, 0, n)
                  && t.reserved == s.reserved && t.trackedCount == s.trackedCount)
  {
    var n := PageCountOf(c);
    var i := FirstFit(s.free, 0, c, n);
    if i < |s.free| {
      var base := s.free[i];
      assert base in s.free && IsPage(base);
      FitsIsRun(s, base, c, n);
      FitsIsRunExact(s, base, c, n);
      TakeRunKeeps(s, base, 0, n, ConstraintOwner(c), c.tag);
      RunSetMember(base, 0, n);
      forall k | 0 <= k < n
        ensures OwnerOnRecord(TakeRun(s, base, 0, n, ConstraintOwner(c), c.tag), RunPage(base, k), ConstraintOwner(c), c.tag)
      {
        TakeRunRecords(s, base, 0, n, ConstraintOwner(c), c.tag, RunPage(base, k), ConstraintOwner(c), c.tag);
      }
    } else {
      forall b | b in s.free ensures !Run(s, b, c, n) {
        var j :| 0 <= j < |s.free| && s.free[j] == b;
        FitsIsRunExact(s, b, c, n);
      }
    }
  }

  /** The alignment test is applied to every page of a run, so a run of two or more pages
      with an alignment above one page cannot be met, whatever is free. */
  lemma WideAlignmentAlwaysFails(s: Phys, c: Constraints)
    requires Inv(s) && c.pageCount > 1 && c.alignment > 4096
    ensures AllocateContiguousPages(s, c) == (s, ALLOC_FAIL)
  {
    AllocateContiguousExact(s, c);
    forall b | b in s.free ensures !Run(s, b, c, PageCountOf(c)) {
      WideRunDoesNotFit(s, b, c);
      FitsIsRunExact(s, b, c, PageCountOf(c));
    }
  }

  lemma WideRunDoesNotFit(s: Phys, b: nat, c: Constraints)
    requires Inv(s) && PageCountOf(c) > 1 && c.alignment > PAGE_SIZE
    requires b in s.free
    ensures !Fits(s.free, b, c, PageCountOf(c))
  {
    if PageMatches(b, c) && PageMatches(RunPage(b, 1), c) && Fits(s.free, b, c, PageCountOf(c)) {
      FitsIsRun(s, b, c, PageCountOf(c));
      ConsecutiveNotAligned(b, c.alignment);
      assert false;
    }
  }

  lemma ConsecutiveNotAligned(b: nat, a: nat)
    requires a > PAGE_SIZE && b % a == 0
    ensures (b + PAGE_SIZE) % a != 0
  {
    DivModUnique(a, b / a, PAGE_SIZE);
    assert b == a * (b / a);
  }

  // ----- Freeing a run -----

  /** The page is out, and its record says so: FreePage will take it back. */
  ghost predicate Returnable(s: Phys, page: nat) {
    var i := FindRecord(s.records, page);
    i < |s.records| && Live(s.records[i])
  }

  lemma FreePageReturns(s: Phys, page: nat)
    requires Inv(s) && Returnable(s, page)
    ensures FreePage(s, page).1
    ensures forall p :: p != page && Returnable(s, p) ==> Returnable(FreePage(s, page).0, p)
  {
    FreePageExact(s, page);
    var t := FreePage(s, page).0;
    forall p | p != page && Returnable(s, p) ensures Returnable(t, p) {
      FoundAfter(s.records, t.records, p);
    }
  }

  lemma {:induction false} FreeRunRestores(s: Phys, base: nat, k: nat, n: nat)
    requires Inv(s) && k <= n
    requires forall j :: k <= j < n ==> Returnable(s, RunPage(base, j))
    requires DistinctRun(base, k, n)
    ensures Inv(FreeRun(s, base, k, n).0) && FreeRun(s, base, k, n).1 == n - k
    ensures FreeSet(FreeRun(s, base, k, n).0) == FreeSet(s) + RunSet(base, k, n)
    ensures FreeRun(s, base, k, n).0.used == s.used - RunSet(base, k, n)
    decreases n - k
  {
    hide Inv, FreePage, RunPage, Returnable;
    if k < n {
      var page := RunPage(base, k);
      FreePageExact(s, page);
      FreePageReturns(s, page);
      FreeRunRestores(FreePage(s, page).0, base, k + 1, n);
    }
  }

  /** A free is accepted exactly for a page that is out and on record; no other page's standing changes. */
  lemma FreePageOthers(s: Phys, page: nat)
    requires Inv(s)
    ensures Inv(FreePage(s, page).0) && (FreePage(s, page).1 <==> Returnable(s, page))
    ensures forall p :: p != page ==> (Returnable(FreePage(s, page).0, p) <==> Returnable(s, p))
  {
    FreePageExact(s, page);
    var t := FreePage(s, page).0;
    ReturnableIs(s, page);
    forall p | p != page ensures Returnable(t, p) <==> Returnable(s, p) {
      FoundAfter(s.records, t.records, p);
    }
  }

  lemma ReturnableIs(s: Phys, page: nat)
    requires Inv(s)
    ensures Returnable(s, page) <==> exists i :: 0 <= i < |s.records| && s.records[i].address == page && Live(s.records[i])
  {
    if i :| 0 <= i < |s.records| && s.records[i].address == page && Live(s.records[i]) {
      FindRecordUnique(s.records, i);
    }
  }

  lemma {:induction false} FreeRunCounts(s: Phys, base: nat, k: nat, n: nat)
    requires Inv(s) && k <= n && DistinctRun(base, k, n)
    ensures FreeRun(s, base, k, n).1 <= n - k
    ensures FreeRun(s, base, k, n).1 == n - k <==> forall j :: k <= j < n ==> Returnable(s, RunPage(base, j))
    decreases n - k
  {
    hide Inv, FreePage, RunPage, Returnable;
    if k < n {
      var page := RunPage(base, k);
      FreePageOthers(s, page);
      var t := FreePage(s, page).0;
      FreeRunCounts(t, base, k + 1, n);
      assert forall j :: k + 1 <= j < n ==> (Returnable(t, RunPage(base, j)) <==> Returnable(s, RunPage(base, j)));
    }
  }

  /** Freeing a run reports success exactly when it has a page and every page of it was out and on record. */
  lemma FreeContiguousExact(s: Phys, base: nat, n: nat)
    requires Inv(s) && n <= U32
    ensures FreeContiguousPages(s, base, n).1
       <==> n > 0 && forall j :: 0 <= j < n ==> Returnable(s, (base + j * 4096) % 0x1_0000_0000_0000_0000)
  {
    hide Inv, Returnable;
    RunDistinct(base, n);
    FreeRunCounts(s, base, 0, n);
    forall j | 0 <= j < n ensures RunPage(base, j) == (base + j * 4096) % U64 {
    }
    if forall j :: 0 <= j < n ==> Returnable(s, (base + j * 4096) % U64) {
      forall j | 0 <= j < n ensures Returnable(s, RunPage(base, j)) {
        assert Returnable(s, (base + j * 4096) % U64);
      }
    } else {
      var j :| 0 <= j < n && !Returnable(s, (base + j * 4096) % U64);
      assert !Returnable(s, RunPage(base, j));
    }
  }

  lemma AllocatedIsReturnable(s: Phys, c: Constraints)
    requires Inv(s) && c.owner != OWNER_RESERVED
    requires AllocateContiguousPages(s, c).1 != ALLOC_FAIL
    requires |AllocateContiguousPages(s, c).0.records| < MAX_RECORDS
    ensures var (t, base) := AllocateContiguousPages(s, c);
            var n := PageCountOf(c);
            && Inv(t) && DistinctRun(base, 0, n)
            && (forall j :: 0 <= j < n ==> Returnable(t, RunPage(base, j)))
            && RunSet(base, 0, n) <= FreeSet(s)
            && FreeSet(t) == FreeSet(s) - RunSet(base, 0, n)
            && t.used == s.used + RunSet(base, 0, n)
  {
    AllocateContiguousExact(s, c);
    var n := PageCountOf(c);
    var (t, base) := AllocateContiguousPages(s, c);
    FitsIsRun(s, base, c, n);
    RunSetMember(base, 0, n);
    forall j | 0 <= j < n ensures Returnable(t, RunPage(base, j)) {
      assert OwnerOnRecord(t, RunPage(base, j), ConstraintOwner(c), c.tag);
    }
  }

  lemma HeldPagesAreNotFree(s: Phys)
    requires Inv(s)
    ensures FreeSet(s) !! s.used
  {
  }

  /** Round trip: freeing a contiguous allocation gives back exactly what it took, provided
      its owner is not Reserved and the record table did not fill up on the way. */
  lemma AllocateThenFreeContiguous(s: Phys, c: Constraints)
    requires Inv(s) && c.owner != OWNER_RESERVED
    requires AllocateContiguousPages(s, c).1 != ALLOC_FAIL
    requires |AllocateContiguousPages(s, c).0.records| < MAX_RECORDS
    ensures var (t, base) := AllocateContiguousPages(s, c);
            var (u, ok) := FreeContiguousPages(t, base, PageCountOf(c));
            ok && Inv(u) && FreeSet(u) == FreeSet(s) && u.used == s.used
  {
    hide Inv, AllocateContiguousPages, Returnable, RunPage, DistinctRun;
    AllocatedIsReturnable(s, c);
    var (t, base) := AllocateContiguousPages(s, c);
    FreeRunRestores(t, base, 0, PageCountOf(c));
    HeldPagesAreNotFree(s);
  }
}
