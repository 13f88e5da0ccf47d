/** The physical page allocator: a free array with swap-with-last removal and a
    table of ownership records. The datatype `Phys` is the value of one allocator;
    the functions say what each entry point does to it, and the lemmas say what
    every run of them keeps. The class that works in place is PhysicalAllocator.Allocator. */
module PhysicalMemorySpec {
  import opened Collections

  const PAGE_SIZE: nat := 4096
  const CAPACITY_PAGES: nat := 1048576
  const MIN_ALLOC_ADDRESS: nat := 0x100000
  const ALLOC_FAIL: nat := 0
  const MAX_RECORDS: nat := 8192
  const U32: nat := 0x1_0000_0000
  const U64: nat := 0x1_0000_0000_0000_0000

  const OWNER_FREE: nat := 0
  const OWNER_GENERIC: nat := 1
  const OWNER_KERNEL_HEAP: nat := 3
  const OWNER_RESERVED: nat := 5

  datatype PageRecord = PageRecord(address: nat, owner: nat, references: nat, tag: nat)

  /** `used` and `reserved` are history: the pages handed out and the pages withdrawn
      by ReserveRange. The program keeps only their counts. */
  datatype Phys = Phys(
    initialized: bool,
    free: seq<nat>,
    usedCount: nat,
    reservedCount: nat,
    trackedCount: nat,
    records: seq<PageRecord>,
    recordOverflows: nat,
    mismatches: nat,
    used: set<nat>,
    reserved: set<nat>)

  function AlignDown(value: nat): nat {
    value - value % PAGE_SIZE
  }

  /** Rounds up in 64-bit arithmetic, so it wraps to 0 in the last page. */
  function AlignUp(value: nat): nat {
    AlignDown((value + PAGE_SIZE - 1) % U64)
  }

  predicate IsAlignedPage(address: nat) {
    address % PAGE_SIZE == 0
  }

  /** Index of the first record of `page`, or the length when there is none. */
  function FindRecord(records: seq<PageRecord>, page: nat): (i: nat)
    ensures i <= |records|
    ensures forall j :: 0 <= j < i ==> records[j].address != page
    ensures i < |records| ==> records[i].address == page
  {
    if records == [] then 0
    else if records[0].address == page then 0
    else
      var i := FindRecord(records[1..], page);
      assert forall j :: 1 <= j < i + 1 ==> records[j] == records[1..][j - 1];
      i + 1
  }

  /** Removal used by every allocation path: the last element takes the hole. */
  function SwapRemove(s: seq<nat>, i: nat): (r: seq<nat>)
    requires i < |s|
    ensures |r| == |s| - 1
  {
    if i == |s| - 1 then s[..|s| - 1] else s[..|s| - 1][i := s[|s| - 1]]
  }

  function SetPageOwner(s: Phys, address: nat, owner: nat, tag: nat): (Phys, bool) {
    var page := AlignDown(address);
    if !s.initialized then (s, false)
    else if owner != OWNER_FREE && page in s.free then (s.(mismatches := s.mismatches + 1), false)
    else
      var i := FindRecord(s.records, page);
      if i == |s.records| then
        if |s.records| >= MAX_RECORDS then (s.(recordOverflows := s.recordOverflows + 1), false)
        else
          var r := PageRecord(page, owner, if owner == OWNER_FREE then 0 else 1, tag);
          (s.(records := s.records + [r]), true)
      else
        var old_ := s.records[i];
        var count := if owner == OWNER_FREE then 0
                     else if old_.references == 0 then 1 else old_.references;
        (s.(records := s.records[i := PageRecord(page, owner, count, tag)]), true)
  }

  /** The page at `index` leaves the free array for a caller. */
  function TakePage(s: Phys, index: nat): Phys
    requires index < |s.free|
  {
    s.(free := SwapRemove(s.free, index), usedCount := s.usedCount + 1, used := s.used + {s.free[index]})
  }

  function AllocateAt(s: Phys, index: nat, owner: nat, tag: nat): Phys
    requires index < |s.free|
  {
    SetPageOwner(TakePage(s, index), s.free[index], owner, tag).0
  }

  function AllocatePage(s: Phys): (Phys, nat) {
    if !s.initialized || s.free == [] then (s, ALLOC_FAIL)
    else (AllocateAt(s, |s.free| - 1, OWNER_GENERIC, 0), s.free[|s.free| - 1])
  }

  /** The highest index below `n` whose page is below the limit, or `n` if none is. */
  function LastBelow(free: seq<nat>, n: nat, limit: nat): (i: int)
    requires n <= |free|
    ensures -1 <= i < n
    ensures i >= 0 ==> free[i] < limit
    ensures forall j :: i < j < n ==> free[j] >= limit
  {
    if n == 0 then -1 else if free[n - 1] < limit then n - 1 else LastBelow(free, n - 1, limit)
  }

  function AllocatePageBelow(s: Phys, limit: nat): (Phys, nat) {
    if !s.initialized || s.free == [] then (s, ALLOC_FAIL)
    else
      var i := LastBelow(s.free, |s.free|, limit);
      if i < 0 then (s, ALLOC_FAIL) else (AllocateAt(s, i, OWNER_GENERIC, 0), s.free[i])
  }

  /** The page at `index` is withdrawn for a reserved range. */
  function ReserveAt(s: Phys, index: nat, tag: nat): (r: Phys)
    requires index < |s.free|
    ensures r.free == SwapRemove(s.free, index)
  {
    SetPageOwner(WithdrawPage(s, index), s.free[index], OWNER_RESERVED, tag).0
  }

  function WithdrawPage(s: Phys, index: nat): Phys
    requires index < |s.free|
  {
    s.(free := SwapRemove(s.free, index), reservedCount := s.reservedCount + 1, reserved := s.reserved + {s.free[index]})
  }

  /** The scan of ReserveRange from `index` on; a removal looks at the same index again. */
  function ReserveFrom(s: Phys, index: nat, first: nat, end: nat, tag: nat): (Phys, nat)
    requires index <= |s.free|
    decreases |s.free| - index
  {
    if index == |s.free| then (s, 0)
    else if first <= s.free[index] < end then
      var (t, n) := ReserveFrom(ReserveAt(s, index, tag), index, first, end, tag);
      (t, n + 1)
    else ReserveFrom(s, index + 1, first, end, tag)
  }

  function ReserveRange(s: Phys, start: nat, byteCount: nat): (Phys, nat) {
    if !s.initialized || byteCount == 0 then (s, 0)
    else ReserveFrom(s, 0, AlignDown(start), AlignUp((start + byteCount) % U64), start)
  }

  /** The record at index `i` and its page go back to the free array. */
  function PutBack(s: Phys, i: nat): Phys
    requires i < |s.records|
  {
    var page := s.records[i].address;
    s.(records := s.records[i := PageRecord(page, OWNER_FREE, 0, 0)],
    free := s.free + [page],
    usedCount := if s.usedCount > 0 then s.usedCount - 1 else 0,
    used := s.used - {page})
  }

  function Mismatch(s: Phys): Phys {
    s.(mismatches := s.mismatches + 1)
  }

  function FreePage(s: Phys, address: nat): (Phys, bool) {
    if !s.initialized then (s, false)
    else if address < MIN_ALLOC_ADDRESS || !IsAlignedPage(address) then (Mismatch(s), false)
    else if |s.free| >= CAPACITY_PAGES || address in s.free then (Mismatch(s), false)
    else
      var i := FindRecord(s.records, address);
      if i == |s.records| || s.records[i].owner == OWNER_FREE ||
         s.records[i].owner == OWNER_RESERVED || s.records[i].references == 0
      then (Mismatch(s), false)
      else (PutBack(s, i), true)
  }

  /** The reference count is a 32-bit counter and wraps. */
  function AddPageReference(s: Phys, address: nat): (Phys, bool) {
    var i := FindRecord(s.records, AlignDown(address));
    if i == |s.records| || s.records[i].owner == OWNER_FREE then (Mismatch(s), false)
    else
      var r := s.records[i];
      (s.(records := s.records[i := r.(references := (r.references + 1) % U32)]), true)
  }

  function ReleasePageReference(s: Phys, address: nat): (Phys, bool) {
    var i := FindRecord(s.records, AlignDown(address));
    if i == |s.records| || s.records[i].references == 0 then (Mismatch(s), false)
    else
      var r := s.records[i];
      if r.references > 1 then (s.(records := s.records[i := r.(references := r.references - 1)]), true)
      else if r.owner == OWNER_RESERVED || |s.free| >= CAPACITY_PAGES || r.address in s.free then
        (Mismatch(s.(records := s.records[i := r.(references := 0)])), false)
      else (PutBack(s, i), true)
  }

  // ----- The invariant -----

  predicate IsPage(page: nat) {
    IsAlignedPage(page) && MIN_ALLOC_ADDRESS <= page < U64
  }

  ghost function FreeSet(s: Phys): set<nat> {
    Members(s.free)
  }

  /** The free array, the pages handed out and the reserved pages are a partition of the
      tracked pages, and the counters are its sizes. */
  ghost predicate PagesInv(s: Phys) {
    && s.initialized
    && NoDuplicates(s.free)
    && (forall p :: p in s.free ==> IsPage(p) && p !in s.used && p !in s.reserved)
    && (forall p :: p in s.used ==> IsPage(p) && p !in s.reserved)
    && s.usedCount == |s.used|
    && s.reservedCount == |s.reserved|
    && |s.free| + s.usedCount + s.reservedCount == s.trackedCount
    && s.trackedCount <= CAPACITY_PAGES
  }

  predicate Live(r: PageRecord) {
    r.owner != OWNER_FREE && r.owner != OWNER_RESERVED
  }

  /** What one record promises: Free exactly when its page is in the free array, and then
      with no references; otherwise counted; and only pages handed out are live. */
  ghost predicate RecordOk(r: PageRecord, s: Phys) {
    && IsAlignedPage(r.address)
    && (r.owner == OWNER_FREE <==> r.address in s.free)
    && (r.owner == OWNER_FREE <==> r.references == 0)
    && r.references < U32
    && (Live(r) ==> r.address in s.used)
  }

  ghost predicate RecordsInv(s: Phys) {
    && |s.records| <= MAX_RECORDS
    && (forall i, j :: 0 <= i < j < |s.records| ==> s.records[i].address != s.records[j].address)
    && (forall i :: 0 <= i < |s.records| ==> RecordOk(s.records[i], s))
  }

  ghost predicate Inv(s: Phys) {
    PagesInv(s) && RecordsInv(s)
  }

  lemma SwapRemoveMembers(s: seq<nat>, i: nat)
    requires i < |s| && NoDuplicates(s)
    ensures NoDuplicates(SwapRemove(s, i))
    ensures forall p :: p in SwapRemove(s, i) <==> p in s && p != s[i]
  {
    var r := SwapRemove(s, i);
    forall p ensures p in r <==> p in s && p != s[i] {
      if p in r {
        var k :| 0 <= k < |r| && r[k] == p;
        assert p == if k == i then s[|s| - 1] else s[k];
      }
      if p in s && p != s[i] {
        var k :| 0 <= k < |s| && s[k] == p;
        assert r[if k == |s| - 1 then i else k] == p;
      }
    }
  }

  // ----- Rounding and records -----

  /** Rounding to pages; rounding up wraps to 0 in the last 4095 bytes. */
  lemma AlignIs(value: nat)
    requires value < U64
    ensures AlignDown(value) <= value < AlignDown(value) + 4096 && AlignDown(value) % 4096 == 0
    ensures value <= U64 - 4096 ==> value <= AlignUp(value) < value + 4096 && AlignUp(value) % 4096 == 0
    ensures value > U64 - 4096 ==> AlignUp(value) == 0
  {
  }

  /** An aligned page is at or above an address exactly when it is at or above the address rounded up. */
  lemma PageAbove(value: nat, up: nat, p: nat)
    requires value <= up < value + 4096 && up % 4096 == 0 && p % 4096 == 0
    ensures value <= p <==> up <= p
  {
    assert up == 4096 * (up / 4096) && p == 4096 * (p / 4096);
  }

  /** It ends beyond an address exactly when it starts at or above the address rounded down. */
  lemma PageTouches(value: nat, down: nat, p: nat)
    requires down <= value < down + 4096 && down % 4096 == 0 && p % 4096 == 0
    ensures value < p + 4096 <==> down <= p
  {
    assert down == 4096 * (down / 4096) && p == 4096 * (p / 4096);
  }

  /** How many references a page is on record with. */
  function References(s: Phys, page: nat): nat {
    var i := FindRecord(s.records, page);
    if i < |s.records| then s.records[i].references else 0
  }

  /** An owner is recorded unless the page is free and the owner is not, or the table is full; the page's
      record then has that owner and tag, keeps its count or starts at one, and counts nothing when Free.
      No other record changes, and nothing but the error counters besides. */
  lemma SetPageOwnerRecords(s: Phys, address: nat, owner: nat, tag: nat)
    ensures var (t, ok) := SetPageOwner(s, address, owner, tag);
            var page := address - address % 4096;
            var i := FindRecord(s.records, page);
            && (ok <==> s.initialized && (owner == 0 || page !in s.free) && (i < |s.records| || |s.records| < 8192))
            && t == s.(records := t.records, mismatches := t.mismatches, recordOverflows := t.recordOverflows)
            && (!ok ==> t.records == s.records)
            && (ok ==>
                  && t.mismatches == s.mismatches && t.recordOverflows == s.recordOverflows
                  && |t.records| == (if i < |s.records| then |s.records| else |s.records| + 1)
                  && t.records[i] == PageRecord(page, owner,
                                                if owner == 0 then 0 else if References(s, page) == 0 then 1 else References(s, page), tag)
                  && forall k :: 0 <= k < |s.records| && k != i ==> t.records[k] == s.records[k])
  {
  }

  // ----- What each step keeps -----

  /** Everything RecordsInv says, except about the record of `page`. */
  ghost predicate RecordsInvExcept(s: Phys, page: nat) {
    && |s.records| <= MAX_RECORDS
    && (forall i, j :: 0 <= i < j < |s.records| ==> s.records[i].address != s.records[j].address)
    && (forall i :: 0 <= i < |s.records| && s.records[i].address != page ==> RecordOk(s.records[i], s))
    && (forall i :: 0 <= i < |s.records| && s.records[i].address == page ==> s.records[i].references < U32)
  }

  lemma FindRecordUnique(records: seq<PageRecord>, k: nat)
    requires k < |records|
    requires forall i, j :: 0 <= i < j < |records| ==> records[i].address != records[j].address
    ensures FindRecord(records, records[k].address) == k
  {
  }

  /** Recording an owner repairs the one record that taking the page disturbed. */
  lemma SetOwnerRestores(s: Phys, page: nat, owner: nat, tag: nat)
    requires PagesInv(s) && RecordsInvExcept(s, page)
    requires IsAlignedPage(page) && page !in s.free && owner != OWNER_FREE
    requires owner == OWNER_RESERVED || page in s.used
    ensures Inv(SetPageOwner(s, page, owner, tag).0)
  {
    var t := SetPageOwner(s, page, owner, tag).0;
    assert AlignDown(page) == page;
    var k := FindRecord(s.records, page);
    forall i | 0 <= i < |t.records| ensures RecordOk(t.records[i], t) {
      if i != k {
        assert t.records[i] == s.records[i];
        assert RecordOk(s.records[i], s);
      }
    }
  }

  lemma TakePagePages(s: Phys, index: nat)
    requires Inv(s) && index < |s.free|
    ensures PagesInv(TakePage(s, index))
    ensures s.free[index] !in TakePage(s, index).free
    ensures RecordsInvExcept(TakePage(s, index), s.free[index])
  {
    SwapRemoveMembers(s.free, index);
    var t := TakePage(s, index);
    forall i | 0 <= i < |t.records| && t.records[i].address != s.free[index] ensures RecordOk(t.records[i], t) {
      assert RecordOk(s.records[i], s);
    }
    forall i | 0 <= i < |t.records| ensures t.records[i].references < U32 {
      assert RecordOk(s.records[i], s);
    }
  }

  /** One page moves from the free array to its caller: nothing else does, and it was in
      nobody's hands before. */
  lemma AllocateAtKeeps(s: Phys, index: nat, owner: nat, tag: nat)
    requires Inv(s) && index < |s.free|
    requires owner != OWNER_FREE
    ensures Inv(AllocateAt(s, index, owner, tag))
    ensures s.free[index] !in s.used && IsPage(s.free[index])
    ensures AllocateAt(s, index, owner, tag).used == s.used + {s.free[index]}
    ensures AllocateAt(s, index, owner, tag).reserved == s.reserved
    ensures AllocateAt(s, index, owner, tag).trackedCount == s.trackedCount
    ensures FreeSet(AllocateAt(s, index, owner, tag)) == FreeSet(s) - {s.free[index]}
  {
    TakePagePages(s, index);
    SetOwnerRestores(TakePage(s, index), s.free[index], owner, tag);
    SwapRemoveMembers(s.free, index);
    assert s.free[index] in s.free;
  }

  lemma WithdrawPagePages(s: Phys, index: nat)
    requires Inv(s) && index < |s.free|
    ensures PagesInv(WithdrawPage(s, index))
    ensures s.free[index] !in WithdrawPage(s, index).free && IsPage(s.free[index])
    ensures RecordsInvExcept(WithdrawPage(s, index), s.free[index])
  {
    SwapRemoveMembers(s.free, index);
    var t := WithdrawPage(s, index);
    assert s.free[index] in s.free;
    forall i | 0 <= i < |t.records| && t.records[i].address != s.free[index] ensures RecordOk(t.records[i], t) {
      assert RecordOk(s.records[i], s);
    }
    forall i | 0 <= i < |t.records| ensures t.records[i].references < U32 {
      assert RecordOk(s.records[i], s);
    }
  }

  lemma ReserveAtKeeps(s: Phys, index: nat, tag: nat)
    requires Inv(s) && index < |s.free|
    ensures Inv(ReserveAt(s, index, tag))
    ensures ReserveAt(s, index, tag).used == s.used
    ensures FreeSet(ReserveAt(s, index, tag)) == FreeSet(s) - {s.free[index]}
    ensures ReserveAt(s, index, tag).reserved == s.reserved + {s.free[index]}
  {
    hide RecordsInvExcept, RecordsInv, FindRecord;
    WithdrawPagePages(s, index);
    SwapRemoveMembers(s.free, index);
    SetOwnerRestores(WithdrawPage(s, index), s.free[index], OWNER_RESERVED, tag);
  }

  /** `t` is `s` with exactly the free pages of [first, end) withdrawn. */
  ghost predicate Withdrawn(s: Phys, t: Phys, first: nat, end: nat) {
    && t.used == s.used
    && (forall p :: p in t.free <==> p in s.free && !(first <= p < end))
    && (forall p :: p in t.reserved <==> p in s.reserved || (p in s.free && first <= p < end))
  }

  lemma {:induction false} ReserveFromKeeps(s: Phys, index: nat, first: nat, end: nat, tag: nat)
    requires Inv(s) && index <= |s.free|
    requires forall j :: 0 <= j < index ==> !(first <= s.free[j] < end)
    ensures Inv(ReserveFrom(s, index, first, end, tag).0)
    ensures Withdrawn(s, ReserveFrom(s, index, first, end, tag).0, first, end)
    ensures ReserveFrom(s, index, first, end, tag).1
         == ReserveFrom(s, index, first, end, tag).0.reservedCount - s.reservedCount
    decreases |s.free| - index
  {
    hide Inv;
    if index == |s.free| {
    } else if first <= s.free[index] < end {
      ReserveAtKeeps(s, index, tag);
      ReserveAtCounts(s, index, tag);
      var u := ReserveAt(s, index, tag);
      ReserveFromKeeps(u, index, first, end, tag);
      WithdrawnStep(s, u, ReserveFrom(u, index, first, end, tag).0, s.free[index], first, end);
    } else {
      ReserveFromKeeps(s, index + 1, first, end, tag);
    }
  }

  lemma ReserveAtCounts(s: Phys, index: nat, tag: nat)
    requires index < |s.free|
    ensures var u := ReserveAt(s, index, tag);
            u.reservedCount == s.reservedCount + 1 && forall j :: 0 <= j < index && j < |u.free| ==> u.free[j] == s.free[j]
  {
  }

  lemma WithdrawnStep(s: Phys, u: Phys, t: Phys, page: nat, first: nat, end: nat)
    requires page in s.free && first <= page < end
    requires u.used == s.used && FreeSet(u) == FreeSet(s) - {page} && u.reserved == s.reserved + {page}
    requires Withdrawn(u, t, first, end)
    ensures Withdrawn(s, t, first, end)
  {
    assert forall p :: p in u.free <==> p in FreeSet(u);
    assert forall p :: p in s.free <==> p in FreeSet(s);
  }

  /** ReserveRange withdraws exactly the free pages of the range, and says how many. */
  lemma ReserveRangeKeeps(s: Phys, start: nat, byteCount: nat)
    requires Inv(s)
    ensures var (t, n) := ReserveRange(s, start, byteCount);
            && Inv(t)
            && n == t.reservedCount - s.reservedCount
            && (if byteCount == 0 then t == s
                else Withdrawn(s, t, AlignDown(start), AlignUp((start + byteCount) % U64)))
  {
    if byteCount != 0 {
      ReserveFromKeeps(s, 0, AlignDown(start), AlignUp((start + byteCount) % U64), start);
    }
  }

  /** In bytes: of a range that ends below the last page exactly the free pages that share a byte with it
      are withdrawn. */
  lemma ReserveRangeBytes(s: Phys, start: nat, byteCount: nat)
    requires Inv(s) && byteCount > 0 && start + byteCount <= U64 - 4096
    ensures var t := ReserveRange(s, start, byteCount).0;
            forall p :: p in s.free ==>
                          (p in t.reserved <==> p < start + byteCount && start < p + 4096) &&
                          (p in t.free <==> !(p < start + byteCount && start < p + 4096))
  {
    hide Inv, AlignUp, AlignDown, ReserveRange;
    ReserveRangeKeeps(s, start, byteCount);
    RangeFits(start, byteCount);
    AlignIs(start);
    AlignIs(start + byteCount);
    FreeAligned(s);
    forall p | p in s.free
      ensures AlignDown(start) <= p < AlignUp(start + byteCount) <==> p < start + byteCount && start < p + 4096
    {
      PageTouches(start, AlignDown(start), p);
      PageAbove(start + byteCount, AlignUp(start + byteCount), p);
    }
  }

  lemma RangeFits(start: nat, byteCount: nat)
    requires start + byteCount <= U64 - 4096
    ensures (start + byteCount) % U64 == start + byteCount
  {
  }

  lemma FreeAligned(s: Phys)
    requires Inv(s)
    ensures forall p :: p in s.free ==> p % 4096 == 0 && p !in s.reserved
  {
  }

  /** A live record's page goes back: the used count was not zero and the array had room,
      so neither guard of the program hides a lost page. */
  lemma PutBackKeeps(s: Phys, i: nat)
    requires Inv(s) && i < |s.records| && Live(s.records[i])
    ensures s.usedCount > 0 && |s.free| < CAPACITY_PAGES
    ensures s.records[i].address in s.used && s.records[i].address !in s.free && IsPage(s.records[i].address)
    ensures Inv(PutBack(s, i))
    ensures FreeSet(PutBack(s, i)) == FreeSet(s) + {s.records[i].address}
  {
    var page := s.records[i].address;
    assert RecordOk(s.records[i], s);
    assert |s.used - {page}| == |s.used| - 1;
    var t := PutBack(s, i);
    forall j | 0 <= j < |t.records| ensures RecordOk(t.records[j], t) {
      if j != i {
        assert RecordOk(s.records[j], s);
        assert t.records[j] == s.records[j];
      } else {
        assert t.free[|s.free|] == page;
      }
    }
  }

  /** FreePage takes back exactly the pages that are recorded and in use. */
  lemma FreePageExact(s: Phys, address: nat)
    requires Inv(s)
    ensures Inv(FreePage(s, address).0)
    ensures FreePage(s, address).1 <==>
            exists i :: 0 <= i < |s.records| && s.records[i].address == address && Live(s.records[i])
    ensures FreePage(s, address).1 ==>
              && address in s.used
              && FreePage(s, address).0.used == s.used - {address}
              && FreeSet(FreePage(s, address).0) == FreeSet(s) + {address}
    ensures !FreePage(s, address).1 ==> FreePage(s, address).0 == s.(mismatches := s.mismatches + 1)
  {
    if k :| 0 <= k < |s.records| && s.records[k].address == address && Live(s.records[k]) {
      FindRecordUnique(s.records, k);
      assert RecordOk(s.records[k], s);
      PutBackKeeps(s, k);
    } else {
      assert Inv(Mismatch(s)) by { MismatchKeeps(s); }
      var i := FindRecord(s.records, address);
      if i < |s.records| {
        assert !Live(s.records[i]);
      }
    }
  }

  /** What a free leaves on record: the page as Free, without references or tag; every other record as it
      was. */
  lemma FreePageRecords(s: Phys, address: nat)
    requires FreePage(s, address).1
    ensures var t := FreePage(s, address).0; var i := FindRecord(s.records, address);
            && i < |s.records| == |t.records|
            && t.records[i] == PageRecord(address, 0, 0, 0)
            && (forall k :: 0 <= k < |s.records| && k != i ==> t.records[k] == s.records[k])
            && t.mismatches == s.mismatches
  {
  }

  lemma MismatchKeeps(s: Phys)
    requires Inv(s)
    ensures Inv(Mismatch(s))
  {
    assert forall r :: RecordOk(r, s) <==> RecordOk(r, Mismatch(s));
  }

  // ----- The calls that can break the table, and exactly when -----

  /** A call the caller can judge beforehand: it is refused, or it says Free of a free page,
      or it names an owner for a page that is out (any page at all may be marked Reserved). */
  ghost predicate SetOwnerSafe(s: Phys, address: nat, owner: nat) {
    var page := AlignDown(address);
    || (owner != 0 && page in s.free)
    || (FindRecord(s.records, page) == |s.records| && |s.records| == 8192)
    || (if owner == 0 then page in s.free else owner == 5 || page in s.used)
  }

  lemma SetPageOwnerExact(s: Phys, address: nat, owner: nat, tag: nat)
    requires Inv(s)
    ensures Inv(SetPageOwner(s, address, owner, tag).0) <==> SetOwnerSafe(s, address, owner)
  {
    var page := AlignDown(address);
    var k := FindRecord(s.records, page);
    var t := SetPageOwner(s, address, owner, tag).0;
    if owner != OWNER_FREE && page in s.free {
      MismatchKeeps(s);
    } else if k == |s.records| && |s.records| == MAX_RECORDS {
      assert forall r :: RecordOk(r, s) <==> RecordOk(r, t);
    } else if owner == OWNER_FREE {
      assert t.records[k].owner == OWNER_FREE && t.records[k].address == page;
      if page in s.free {
        forall i | 0 <= i < |t.records| ensures RecordOk(t.records[i], t) {
          if i != k { assert t.records[i] == s.records[i] && RecordOk(s.records[i], s); }
        }
      } else {
        assert !RecordOk(t.records[k], t);
      }
    } else if owner == OWNER_RESERVED || page in s.used {
      assert forall i :: 0 <= i < |s.records| ==> RecordOk(s.records[i], s);
      SetOwnerRestores(s, page, owner, tag);
      assert AlignDown(page) == page;
    } else {
      assert t.records[k].owner == owner && t.records[k].address == page;
      assert !RecordOk(t.records[k], t);
    }
  }

  ghost predicate AddReferenceSafe(s: Phys, address: nat) {
    var i := FindRecord(s.records, AlignDown(address));
    i < |s.records| ==> s.records[i].references < U32 - 1
  }

  lemma AddReferenceExact(s: Phys, address: nat)
    requires Inv(s)
    ensures Inv(AddPageReference(s, address).0) <==> AddReferenceSafe(s, address)
  {
    var k := FindRecord(s.records, AlignDown(address));
    var t := AddPageReference(s, address).0;
    if k == |s.records| || s.records[k].owner == OWNER_FREE {
      MismatchKeeps(s);
      if k < |s.records| { assert RecordOk(s.records[k], s); }
    } else {
      ChangeReferences(s, k, (s.records[k].references + 1) % U32);
    }
  }

  /** Changing the count of a record in use is safe exactly when it stays a positive count. */
  lemma ChangeReferences(s: Phys, k: nat, count: nat)
    requires Inv(s) && k < |s.records| && s.records[k].owner != OWNER_FREE && count < U32
    ensures Inv(s.(records := s.records[k := s.records[k].(references := count)])) <==> count != 0
  {
    var t := s.(records := s.records[k := s.records[k].(references := count)]);
    assert RecordOk(s.records[k], s);
    if count == 0 {
      assert !RecordOk(t.records[k], t);
    } else {
      forall i | 0 <= i < |t.records| ensures RecordOk(t.records[i], t) {
        if i != k { assert t.records[i] == s.records[i] && RecordOk(s.records[i], s); }
      }
    }
  }

  /** A reference is taken exactly of a page on record that is not Free; only its count changes. */
  lemma AddReferenceCounts(s: Phys, address: nat)
    ensures var (t, ok) := AddPageReference(s, address);
            var i := FindRecord(s.records, address - address % 4096);
            && (ok <==> i < |s.records| && s.records[i].owner != 0)
            && (ok ==> t == s.(records := t.records) && |t.records| == |s.records|
                       && t.records[i] == s.records[i].(references := (s.records[i].references + 1) % 0x1_0000_0000)
                       && forall k :: 0 <= k < |s.records| && k != i ==> t.records[k] == s.records[k])
            && (!ok ==> t == s.(mismatches := s.mismatches + 1))
  {
  }

  /** Dropping a reference that is not the last one lowers that count by one and does nothing else. */
  lemma ReleaseCounts(s: Phys, address: nat)
    ensures var (t, ok) := ReleasePageReference(s, address);
            var i := FindRecord(s.records, address - address % 4096);
            && (i == |s.records| || s.records[i].references == 0 ==> !ok && t == s.(mismatches := s.mismatches + 1))
            && (i < |s.records| && s.records[i].references > 1 ==>
                  && ok && t == s.(records := t.records) && |t.records| == |s.records|
                  && t.records[i] == s.records[i].(references := s.records[i].references - 1)
                  && forall k :: 0 <= k < |s.records| && k != i ==> t.records[k] == s.records[k])
  {
  }

  /** A reference taken and dropped again leaves everything as it was. */
  lemma AddThenRelease(s: Phys, address: nat)
    requires Inv(s) && AddPageReference(s, address).1 && AddReferenceSafe(s, address)
    ensures ReleasePageReference(AddPageReference(s, address).0, address) == (s, true)
  {
    var page := AlignDown(address);
    var i := FindRecord(s.records, page);
    assert RecordOk(s.records[i], s);
    var t := AddPageReference(s, address).0;
    FindRecordUnique(t.records, i);
    assert t.records[i := s.records[i]] == s.records;
  }

  ghost predicate ReleaseSafe(s: Phys, address: nat) {
    var i := FindRecord(s.records, AlignDown(address));
    !(i < |s.records| && s.records[i].owner == 5 && s.records[i].references == 1)
  }

  /** Releasing a reference keeps the table unless it is the last one of a Reserved page;
      otherwise the page comes back exactly when its last reference goes. */
  lemma ReleaseExact(s: Phys, address: nat)
    requires Inv(s)
    ensures Inv(ReleasePageReference(s, address).0) <==> ReleaseSafe(s, address)
    ensures var i := FindRecord(s.records, AlignDown(address));
            var (t, ok) := ReleasePageReference(s, address);
            && (i < |s.records| && Live(s.records[i]) ==> ok)
            && (ok ==> (AlignDown(address) in t.free <==> s.records[i].references == 1))
  {
    var k := FindRecord(s.records, AlignDown(address));
    var t := ReleasePageReference(s, address).0;
    if k == |s.records| {
      MismatchKeeps(s);
    } else {
      assert RecordOk(s.records[k], s);
      if s.records[k].references == 0 {
        MismatchKeeps(s);
      } else if s.records[k].references > 1 {
        ChangeReferences(s, k, s.records[k].references - 1);
      } else if Live(s.records[k]) {
        PutBackKeeps(s, k);
        assert t.free[|s.free|] == s.records[k].address;
      } else {
        assert !RecordOk(t.records[k], t);
      }
    }
  }

  // ----- Consequences of the invariant -----

  ghost function LiveAddresses(s: Phys): set<nat> {
    set i | 0 <= i < |s.records| && Live(s.records[i]) :: s.records[i].address
  }

  /** The pages recorded as in use never outnumber UsedPageCount. */
  lemma LiveAtMostUsed(s: Phys)
    requires Inv(s)
    ensures |LiveAddresses(s)| <= s.usedCount
  {
    forall p | p in LiveAddresses(s) ensures p in s.used {
      var i :| 0 <= i < |s.records| && Live(s.records[i]) && s.records[i].address == p;
      assert RecordOk(s.records[i], s);
    }
    SubsetSize(LiveAddresses(s), s.used);
  }

  // ----- Building the allocator from a memory map -----

  datatype MemoryEntry = MemoryEntry(usable: bool, start: nat, pageCount: nat)

  const UNTOUCHED: Phys := Phys(false, [], 0, 0, 0, [], 0, 0, {}, {})

  function EntryStart(e: MemoryEntry): nat {
    AlignUp(e.start)
  }

  function EntryEnd(e: MemoryEntry): nat {
    AlignDown((e.start + e.pageCount * PAGE_SIZE) % U64)
  }

  /** Pages below 1 MiB and pages beyond the capacity are counted elsewhere and not tracked. */
  function AddUsablePage(s: Phys, address: nat): Phys {
    if address < MIN_ALLOC_ADDRESS || |s.free| >= CAPACITY_PAGES then s
    else s.(free := s.free + [address], trackedCount := s.trackedCount + 1)
  }

  function AddPages(s: Phys, address: nat, end: nat): Phys
    decreases end - address
  {
    if address >= end then s else AddPages(AddUsablePage(s, address), address + PAGE_SIZE, end)
  }

  function AddEntries(s: Phys, entries: seq<MemoryEntry>): Phys
    decreases |entries|
  {
    if entries == [] then s
    else
      var e := entries[0];
      AddEntries(if e.usable then AddPages(s, EntryStart(e), EntryEnd(e)) else s, entries[1..])
  }

  function Init(entries: seq<MemoryEntry>): Phys {
    var s := AddEntries(UNTOUCHED, entries);
    s.(initialized := s.trackedCount > 0)
  }

  predicate InEntry(p: nat, e: MemoryEntry) {
    e.usable && EntryStart(e) <= p < EntryEnd(e)
  }

  /** A page lies in a usable entry exactly when it is wholly inside; for an entry that ends below 2^64. */
  lemma EntryPages(e: MemoryEntry, p: nat)
    requires e.start <= U64 - 4096 && e.start + e.pageCount * 4096 < U64 && IsAlignedPage(p)
    ensures InEntry(p, e) <==> e.usable && e.start <= p && p + 4096 <= e.start + e.pageCount * 4096
  {
    var last := e.start + e.pageCount * 4096;
    AlignIs(e.start);
    AlignIs(last);
    hide AlignUp, AlignDown;
    PageAbove(e.start, EntryStart(e), p);
    PageTouches(last, EntryEnd(e), p);
  }

  predicate Covered(p: nat, entries: seq<MemoryEntry>) {
    exists i :: 0 <= i < |entries| && InEntry(p, entries[i])
  }

  /** No page at or above 1 MiB lies in two usable entries, once these are trimmed to whole pages. */
  ghost predicate Disjoint(entries: seq<MemoryEntry>) {
    forall i, j, p :: 0 <= i < j < |entries| && IsPage(p) && InEntry(p, entries[i]) ==> !InEntry(p, entries[j])
  }

  // ----- What start-up produces -----

  /** The pages of [address, end) at or above 1 MiB. */
  function PagesOf(address: nat, end: nat): seq<nat>
    decreases end - address
  {
    if address >= end then []
    else (if address < MIN_ALLOC_ADDRESS then [] else [address]) + PagesOf(address + PAGE_SIZE, end)
  }

  /** Every page start-up meets, in order, a page of two entries twice. */
  function Produced(entries: seq<MemoryEntry>): seq<nat>
    decreases |entries|
  {
    if entries == [] then []
    else Head(entries[0]) + Produced(entries[1..])
  }

  /** As much of a list as the free array holds. */
  function Fitting(pages: seq<nat>): seq<nat> {
    if |pages| <= CAPACITY_PAGES then pages else pages[..CAPACITY_PAGES]
  }

  function Loaded(s: Phys, pages: seq<nat>): Phys
    requires |s.free| <= CAPACITY_PAGES
  {
    s.(free := Fitting(s.free + pages), trackedCount := s.trackedCount + (|Fitting(s.free + pages)| - |s.free|))
  }

  lemma LoadedTwice(s: Phys, a: seq<nat>, b: seq<nat>)
    requires |s.free| <= CAPACITY_PAGES
    ensures Loaded(Loaded(s, a), b) == Loaded(s, a + b)
  {
    assert s.free + a + b == s.free + (a + b);
    assert |s.free + a| >= CAPACITY_PAGES ==> Fitting(Fitting(s.free + a) + b) == Fitting(s.free + a + b);
  }

  lemma {:induction false} AddPagesLoads(s: Phys, address: nat, end: nat)
    requires |s.free| <= CAPACITY_PAGES
    ensures AddPages(s, address, end) == Loaded(s, PagesOf(address, end))
    decreases end - address
  {
    if address < end {
      var head := if address < MIN_ALLOC_ADDRESS then [] else [address];
      assert AddUsablePage(s, address) == Loaded(s, head);
      AddPagesLoads(Loaded(s, head), address + PAGE_SIZE, end);
      LoadedTwice(s, head, PagesOf(address + PAGE_SIZE, end));
    } else {
      assert s.free + [] == s.free;
    }
  }

  lemma {:induction false} AddEntriesLoads(s: Phys, entries: seq<MemoryEntry>)
    requires |s.free| <= CAPACITY_PAGES
    ensures AddEntries(s, entries) == Loaded(s, Produced(entries))
    decreases |entries|
  {
    if entries != [] {
      var e := entries[0];
      var t := if e.usable then AddPages(s, EntryStart(e), EntryEnd(e)) else s;
      assert t == Loaded(s, Head(e)) by {
        if e.usable { AddPagesLoads(s, EntryStart(e), EntryEnd(e)); } else { assert s.free + [] == s.free; }
      }
      AddEntriesLoads(t, entries[1..]);
      LoadedTwice(s, Head(e), Produced(entries[1..]));
    } else {
      assert s.free + [] == s.free;
    }
  }

  lemma {:induction false} PagesOfMembers(address: nat, end: nat)
    requires IsAlignedPage(address) && end <= U64
    ensures NoDuplicates(PagesOf(address, end))
    ensures forall p: nat :: p in PagesOf(address, end) <==> IsPage(p) && address <= p < end
    decreases end - address
  {
    if address < end {
      var rest := PagesOf(address + PAGE_SIZE, end);
      PagesOfMembers(address + PAGE_SIZE, end);
      forall p: nat | IsPage(p) && address <= p < end ensures p == address || address + PAGE_SIZE <= p {
      }
      AppendDistinct(if address < MIN_ALLOC_ADDRESS then [] else [address], rest);
    }
  }

  lemma {:induction false} ProducedMembers(entries: seq<MemoryEntry>)
    ensures forall p: nat :: p in Produced(entries) <==> IsPage(p) && Covered(p, entries)
    decreases |entries|
  {
    if entries != [] {
      var e := entries[0];
      ProducedMembers(entries[1..]);
      forall p ensures Covered(p, entries) <==> InEntry(p, e) || Covered(p, entries[1..]) {
        CoveredSplit(p, entries);
      }
    }
  }

  /** The pages of one entry. */
  function Head(e: MemoryEntry): (r: seq<nat>)
    ensures NoDuplicates(r) && forall p: nat :: p in r <==> IsPage(p) && InEntry(p, e)
  {
    PagesOfMembers(EntryStart(e), EntryEnd(e));
    if e.usable then PagesOf(EntryStart(e), EntryEnd(e)) else []
  }

  /** A page is produced twice exactly when two entries share it. */
  lemma {:induction false} ProducedDistinct(entries: seq<MemoryEntry>)
    ensures NoDuplicates(Produced(entries)) <==> Disjoint(entries)
    decreases |entries|
  {
    hide Disjoint, NoDuplicates, IsPage, Head, InEntry, Covered;
    if entries != [] {
      var e, rest := entries[0], entries[1..];
      ProducedDistinct(rest);
      ProducedMembers(rest);
      DisjointSplit(entries);
      AppendDistinct(Head(e), Produced(rest));
    } else {
      NothingProduced();
    }
  }

  lemma NothingProduced()
    ensures NoDuplicates([]) && Disjoint([])
  {
  }

  lemma DisjointSplit(entries: seq<MemoryEntry>)
    requires entries != []
    ensures Disjoint(entries) <==>
              Disjoint(entries[1..]) && forall p :: IsPage(p) && InEntry(p, entries[0]) ==> !Covered(p, entries[1..])
  {
    var rest := entries[1..];
    if Disjoint(entries) {
      forall i, j, p | 0 <= i < j < |rest| && IsPage(p) && InEntry(p, rest[i]) ensures !InEntry(p, rest[j]) {
        assert InEntry(p, entries[i + 1]) && rest[j] == entries[j + 1];
      }
      forall p, j | IsPage(p) && InEntry(p, entries[0]) && 0 <= j < |rest| ensures !InEntry(p, rest[j]) {
        assert rest[j] == entries[j + 1];
      }
    }
    if Disjoint(rest) && forall p :: IsPage(p) && InEntry(p, entries[0]) ==> !Covered(p, rest) {
      forall i, j, p | 0 <= i < j < |entries| && IsPage(p) && InEntry(p, entries[i]) ensures !InEntry(p, entries[j]) {
        assert entries[j] == rest[j - 1];
        assert i > 0 ==> entries[i] == rest[i - 1];
      }
    }
  }

  lemma CoveredSplit(p: nat, entries: seq<MemoryEntry>)
    requires entries != []
    ensures Covered(p, entries) <==> InEntry(p, entries[0]) || Covered(p, entries[1..])
  {
    var rest := entries[1..];
    if Covered(p, entries) {
      var i :| 0 <= i < |entries| && InEntry(p, entries[i]);
      assert i > 0 ==> entries[i] == rest[i - 1];
    }
    if Covered(p, rest) {
      var i :| 0 <= i < |rest| && InEntry(p, rest[i]);
      assert entries[i + 1] == rest[i];
    }
  }

  /** The free array after start-up is what was produced, as far as it fits. The allocator starts in its
      invariant exactly when no page is produced twice before the array is full; so whenever no two
      entries share a page at or above 1 MiB, and only then if all pages fit. */
  lemma InitExact(entries: seq<MemoryEntry>)
    ensures var s := Init(entries);
            && s == Phys(s.initialized, Fitting(Produced(entries)), 0, 0, |s.free|, [], 0, 0, {}, {})
            && (s.initialized <==> exists p :: IsPage(p) && Covered(p, entries))
            && (s.initialized ==> (Inv(s) <==> NoDuplicates(s.free)))
            && (Disjoint(entries) ==> NoDuplicates(s.free))
            && (|Produced(entries)| <= CAPACITY_PAGES ==> (NoDuplicates(s.free) <==> Disjoint(entries)))
    ensures forall p :: p in Init(entries).free ==> IsPage(p) && Covered(p, entries)
    ensures forall p :: IsPage(p) && Covered(p, entries) ==>
                          p in Init(entries).free || |Init(entries).free| == CAPACITY_PAGES
  {
    hide Inv, IsPage, Covered, Produced, Disjoint, NoDuplicates;
    AddEntriesLoads(UNTOUCHED, entries);
    ProducedMembers(entries);
    ProducedDistinct(entries);
    var s := Init(entries);
    assert UNTOUCHED.free + Produced(entries) == Produced(entries);
    FittingDistinct(Produced(entries));
    assert forall p :: p in s.free ==> p in Produced(entries);
    if s.initialized {
      assert s.free[0] in s.free;
      UnrecordedInv(s);
    }
    if p :| IsPage(p) && Covered(p, entries) {
      assert p in Produced(entries);
    }
  }

  lemma FittingDistinct(pages: seq<nat>)
    ensures NoDuplicates(pages) ==> NoDuplicates(Fitting(pages))
  {
  }

  /** Before any page was handed out or recorded, the invariant is that the free pages are distinct. */
  lemma UnrecordedInv(s: Phys)
    requires s == UNTOUCHED.(initialized := true, free := s.free, trackedCount := |s.free|)
    requires |s.free| <= CAPACITY_PAGES && forall p :: p in s.free ==> IsPage(p)
    ensures Inv(s) <==> NoDuplicates(s.free)
  {
  }

  // ----- Runs that break the invariant -----

  /** One page at 1 MiB. */
  const ONE_PAGE: seq<MemoryEntry> := [MemoryEntry(true, MIN_ALLOC_ADDRESS, 1)]

  /** The page of ONE_PAGE, handed out. */
  function OneOut(): Phys {
    AllocatePage(Init(ONE_PAGE)).0
  }

  lemma OnePageInit()
    ensures Disjoint(ONE_PAGE) && Produced(ONE_PAGE) == [MIN_ALLOC_ADDRESS]
    ensures Init(ONE_PAGE) == UNTOUCHED.(initialized := true, free := [MIN_ALLOC_ADDRESS], trackedCount := 1)
  {
    hide Disjoint;
    var a := MIN_ALLOC_ADDRESS;
    assert PagesOf(a + PAGE_SIZE, a + PAGE_SIZE) == [];
    assert PagesOf(a, a + PAGE_SIZE) == [a];
    assert EntryStart(ONE_PAGE[0]) == a && EntryEnd(ONE_PAGE[0]) == a + PAGE_SIZE;
    assert Produced(ONE_PAGE[1..]) == [];
    assert Produced(ONE_PAGE) == [a];
    ProducedDistinct(ONE_PAGE);
    AddEntriesLoads(UNTOUCHED, ONE_PAGE);
  }

  lemma OneOutIs()
    ensures Disjoint(ONE_PAGE) && Inv(Init(ONE_PAGE)) && Inv(OneOut())
    ensures AllocatePage(Init(ONE_PAGE)).1 == MIN_ALLOC_ADDRESS
    ensures OneOut().free == [] && OneOut().used == {MIN_ALLOC_ADDRESS}
    ensures OneOut().records == [PageRecord(MIN_ALLOC_ADDRESS, OWNER_GENERIC, 1, 0)]
  {
    hide Disjoint, Inv, Init, Produced;
    OnePageInit();
    InitExact(ONE_PAGE);
    AllocateAtKeeps(Init(ONE_PAGE), 0, OWNER_GENERIC, 0);
  }

  /** Calling a page in use Free breaks the table: the page is on record as free and is not in the
      array. */
  lemma FreeOwnerBreaks()
    ensures !Inv(SetPageOwner(OneOut(), MIN_ALLOC_ADDRESS, OWNER_FREE, 0).0)
  {
    OneOutIs();
    SetPageOwnerExact(OneOut(), MIN_ALLOC_ADDRESS, OWNER_FREE, 0);
  }

  /** So does giving an owner to a page the allocator never had. */
  lemma ForeignOwnerBreaks()
    ensures !Inv(SetPageOwner(OneOut(), 0, OWNER_GENERIC, 0).0)
  {
    OneOutIs();
    SetPageOwnerExact(OneOut(), 0, OWNER_GENERIC, 0);
  }

  /** And dropping the last reference of a page that was marked Reserved while in use. */
  lemma ReservedReleaseBreaks()
    ensures var s := SetPageOwner(OneOut(), 0x10_0000, 5, 0).0;
            Inv(s) && !Inv(ReleasePageReference(s, 0x10_0000).0)
  {
    OneOutIs();
    SetPageOwnerExact(OneOut(), MIN_ALLOC_ADDRESS, OWNER_RESERVED, 0);
    var s := SetPageOwner(OneOut(), MIN_ALLOC_ADDRESS, OWNER_RESERVED, 0).0;
    assert s.records == [PageRecord(MIN_ALLOC_ADDRESS, OWNER_RESERVED, 1, 0)];
    ReleaseExact(s, MIN_ALLOC_ADDRESS);
  }
}
