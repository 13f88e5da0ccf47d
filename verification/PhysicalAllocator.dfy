/** The allocator object: the fixed free array, the fixed record table and their counters,
    changed in place. Each method is tied to its function in PhysicalMemorySpec. */
module PhysicalAllocator {
  import opened PhysicalMemorySpec
  import opened PhysicalConstraintsSpec
  import opened HeapSort
  import opened PhysicalValidation

  class Allocator {
    const FreePages: array<nat>
    const PageRecords: array<PageRecord>
    var Initialized: bool
    var FreePageCount: nat
    var UsedPageCount: nat
    var ReservedPages: nat
    var TrackedUsablePages: nat
    var PageRecordCount: nat
    var OwnershipRecordOverflows: nat
    var OwnershipMismatches: nat
    var IntegrityChecks: nat
    var IntegrityFailures: nat
    ghost var Used: set<nat>
    ghost var Reserved: set<nat>

    /** The counts stay inside the two arrays. */
    ghost predicate Valid()
      reads this
    {
      && FreePages.Length == CAPACITY_PAGES && PageRecords.Length == MAX_RECORDS
      && FreePageCount <= CAPACITY_PAGES && PageRecordCount <= MAX_RECORDS
    }

    ghost function State(): Phys
      requires Valid()
      reads this, FreePages, PageRecords
    {
      Phys(Initialized, FreePages[..FreePageCount], UsedPageCount, ReservedPages, TrackedUsablePages,
           PageRecords[..PageRecordCount], OwnershipRecordOverflows, OwnershipMismatches, Used, Reserved)
    }

    constructor (entries: seq<MemoryEntry>)
      ensures Valid() && State() == Init(entries)
      ensures fresh(FreePages) && fresh(PageRecords)
    {
      FreePages := new nat[CAPACITY_PAGES](_ => 0);
      PageRecords := new PageRecord[MAX_RECORDS](_ => PageRecord(0, 0, 0, 0));
      Initialized := false;
      FreePageCount, UsedPageCount, ReservedPages, TrackedUsablePages := 0, 0, 0, 0;
      PageRecordCount, OwnershipRecordOverflows, OwnershipMismatches := 0, 0, 0;
      IntegrityChecks, IntegrityFailures := 0, 0;
      Used, Reserved := {}, {};
      new;
      assert State() == UNTOUCHED;
      for index := 0 to |entries|
        invariant Valid() && AddEntries(State(), entries[index..]) == AddEntries(UNTOUCHED, entries)
        invariant fresh(this) && fresh(FreePages) && fresh(PageRecords)
      {
        assert entries[index..][1..] == entries[index + 1..];
        if entries[index].usable {
          AddUsableEntry(entries[index]);
        }
      }
      Initialized := TrackedUsablePages > 0;
    }

    method AddUsableEntry(e: MemoryEntry)
      requires Valid()
      modifies this, FreePages
      ensures Valid() && State() == AddPages(old(State()), EntryStart(e), EntryEnd(e))
    {
      var end := EntryEnd(e);
      var address := EntryStart(e);
      while address < end
        invariant Valid()
        invariant AddPages(State(), address, end) == AddPages(old(State()), EntryStart(e), end)
        decreases end - address
      {
        ghost var before := State();
        if address >= MIN_ALLOC_ADDRESS && FreePageCount < CAPACITY_PAGES {
          FreePages[FreePageCount] := address;
          FreePageCount := FreePageCount + 1;
          TrackedUsablePages := TrackedUsablePages + 1;
        }
        assert State() == AddUsablePage(before, address);
        address := address + PAGE_SIZE;
      }
    }

    method IsPageInFreeList(page: nat) returns (found: bool)
      requires Valid()
      ensures found <==> page in State().free
    {
      for index := 0 to FreePageCount
        invariant page !in FreePages[..index]
      {
        if FreePages[index] == page {
          assert State().free[index] == page;
          return true;
        }
        assert FreePages[..index + 1] == FreePages[..index] + [FreePages[index]];
      }
      return false;
    }

    /** Returns the index of the page's record, or the record count. */
    method FindPageRecord(page: nat) returns (index: nat)
      requires Valid()
      ensures index == FindRecord(State().records, page)
    {
      ghost var k := FindRecord(State().records, page);
      index := 0;
      while index < PageRecordCount
        invariant index <= k <= PageRecordCount
      {
        assert State().records[index] == PageRecords[index];
        if PageRecords[index].address == page {
          return;
        }
        index := index + 1;
      }
    }

    method SetPageOwner(address: nat, owner: nat, tag: nat) returns (ok: bool)
      requires Valid()
      modifies this`PageRecordCount, this`OwnershipRecordOverflows, this`OwnershipMismatches, PageRecords
      ensures Valid()
      ensures (State(), ok) == PhysicalMemorySpec.SetPageOwner(old(State()), address, owner, tag)
    {
      ghost var s := State();
      var page := AlignDown(address);
      if !Initialized {
        return false;
      }
      var inFree := IsPageInFreeList(page);
      if owner != OWNER_FREE && inFree {
        OwnershipMismatches := OwnershipMismatches + 1;
        return false;
      }
      var index := FindPageRecord(page);
      if index == PageRecordCount {
        if PageRecordCount >= MAX_RECORDS {
          OwnershipRecordOverflows := OwnershipRecordOverflows + 1;
          return false;
        }
        PageRecords[index] := PageRecord(page, OWNER_FREE, 0, 0);
        PageRecordCount := PageRecordCount + 1;
      }
      var record := PageRecords[index].(owner := owner, tag := tag);
      if owner == OWNER_FREE {
        record := record.(references := 0);
      } else if record.references == 0 {
        record := record.(references := 1);
      }
      PageRecords[index] := record;
      assert State().records == (if index == |s.records| then s.records + [record] else s.records[index := record]);
      return true;
    }

    /** The page at `index` leaves the free array; the last one fills the hole. */
    method RemoveFreePageAt(index: nat)
      requires Valid() && index < FreePageCount
      modifies this`FreePageCount, this`UsedPageCount, this`Used, FreePages
      ensures Valid() && State() == TakePage(old(State()), index)
    {
      ghost var s := State();
      Used := Used + {FreePages[index]};
      FreePageCount := FreePageCount - 1;
      FreePages[index] := FreePages[FreePageCount];
      UsedPageCount := UsedPageCount + 1;
      assert State().free == SwapRemove(s.free, index);
    }

    method AllocatePage() returns (page: nat)
      requires Valid()
      modifies this, FreePages, PageRecords
      ensures Valid() && (State(), page) == PhysicalMemorySpec.AllocatePage(old(State()))
    {
      if !Initialized || FreePageCount == 0 {
        return ALLOC_FAIL;
      }
      page := FreePages[FreePageCount - 1];
      RemoveFreePageAt(FreePageCount - 1);
      var _ := SetPageOwner(page, OWNER_GENERIC, 0);
    }

    method AllocatePageBelow(exclusiveLimit: nat) returns (page: nat)
      requires Valid()
      modifies this, FreePages, PageRecords
      ensures Valid() && (State(), page) == PhysicalMemorySpec.AllocatePageBelow(old(State()), exclusiveLimit)
    {
      if !Initialized || FreePageCount == 0 {
        return ALLOC_FAIL;
      }
      ghost var s := State();
      var index := FreePageCount;
      while index > 0
        invariant 0 <= index <= FreePageCount && State() == s
        invariant LastBelow(s.free, index, exclusiveLimit) == LastBelow(s.free, |s.free|, exclusiveLimit)
      {
        page := FreePages[index - 1];
        if page < exclusiveLimit {
          RemoveFreePageAt(index - 1);
          var _ := SetPageOwner(page, OWNER_GENERIC, 0);
          return;
        }
        index := index - 1;
      }
      return ALLOC_FAIL;
    }

    method AllocateConstrainedPage(c: Constraints) returns (page: nat)
      requires Valid()
      modifies this, FreePages, PageRecords
      ensures Valid() && (State(), page) == PhysicalConstraintsSpec.AllocateConstrainedPage(old(State()), c)
    {
      if !Initialized || FreePageCount == 0 {
        return ALLOC_FAIL;
      }
      ghost var s := State();
      var index := FreePageCount;
      while index > 0
        invariant 0 <= index <= FreePageCount && State() == s
        invariant LastMatch(s.free, index, c) == LastMatch(s.free, |s.free|, c)
      {
        page := FreePages[index - 1];
        if PageMatches(page, c) {
          RemoveFreePageAt(index - 1);
          var _ := SetPageOwner(page, ConstraintOwner(c), c.tag);
          return;
        }
        index := index - 1;
      }
      return ALLOC_FAIL;
    }

    method FindFreePageIndex(page: nat) returns (index: nat)
      requires Valid()
      ensures index == IndexOf(State().free, page)
    {
      ghost var k := IndexOf(State().free, page);
      index := 0;
      while index < FreePageCount
        invariant index <= k <= FreePageCount
      {
        assert State().free[index] == FreePages[index];
        if FreePages[index] == page {
          return;
        }
        index := index + 1;
      }
    }

    method RunFits(base: nat, c: Constraints, pageCount: nat) returns (found: bool)
      requires Valid() && PageMatches(base, c)
      ensures found <==> Fits(State().free, base, c, pageCount)
    {
      var offset := 1;
      while offset < pageCount
        invariant 1 <= offset
        invariant forall k :: 1 <= k < offset ==> RunPage(base, k) in State().free && PageMatches(RunPage(base, k), c)
      {
        var page := RunPage(base, offset);
        var index := FindFreePageIndex(page);
        if index == FreePageCount {
          assert page !in State().free;
          return false;
        }
        if !PageMatches(page, c) {
          return false;
        }
        offset := offset + 1;
      }
      return true;
    }

    method TakeRun(base: nat, pageCount: nat, owner: nat, tag: nat)
      requires Valid() && Initialized && owner != OWNER_FREE
      requires forall k :: 0 <= k < pageCount ==> RunPage(base, k) in State().free
      requires DistinctRun(base, 0, pageCount)
      modifies this, FreePages, PageRecords
      ensures Valid() && State() == PhysicalConstraintsSpec.TakeRun(old(State()), base, 0, pageCount, owner, tag)
    {
      hide TakePage, RunPage, PhysicalMemorySpec.SetPageOwner;
      for offset := 0 to pageCount
        invariant Valid() && Initialized
        invariant forall k :: offset <= k < pageCount ==> RunPage(base, k) in State().free
        invariant PhysicalConstraintsSpec.TakeRun(State(), base, offset, pageCount, owner, tag)
               == PhysicalConstraintsSpec.TakeRun(old(State()), base, 0, pageCount, owner, tag)
      {
        ghost var s := State();
        var index := FindFreePageIndex(RunPage(base, offset));
        forall k | offset + 1 <= k < pageCount ensures RunPage(base, k) in AllocateAt(s, index, owner, tag).free {
          TakeLeaves(s, index, owner, tag, RunPage(base, k));
        }
        RemoveFreePageAt(index);
        var _ := SetPageOwner(RunPage(base, offset), owner, tag);
      }
    }

    static lemma FirstOfRun(base: nat)
      requires base < U64
      ensures RunPage(base, 0) == base
    {
    }

    method AllocateContiguousPages(c: Constraints) returns (base: nat)
      requires Valid() && c.pageCount < U32 && forall i :: 0 <= i < FreePageCount ==> FreePages[i] < U64
      modifies this, FreePages, PageRecords
      ensures Valid() && (State(), base) == PhysicalConstraintsSpec.AllocateContiguousPages(old(State()), c)
    {
      if !Initialized {
        return ALLOC_FAIL;
      }
      var pageCount := PageCountOf(c);
      ghost var s := State();
      hide RunPage, PageMatches;
      for baseIndex := 0 to FreePageCount
        invariant Valid() && State() == s
        invariant FirstFit(s.free, baseIndex, c, pageCount) == FirstFit(s.free, 0, c, pageCount)
      {
        base := FreePages[baseIndex];
        assert base == s.free[baseIndex];
        var found := PageMatches(base, c);
        if found {
          found := RunFits(base, c, pageCount);
        }
        if found {
          RunDistinct(base, pageCount);
          FirstOfRun(base);
          TakeRun(base, pageCount, ConstraintOwner(c), c.tag);
          return;
        }
      }
      return ALLOC_FAIL;
    }

    method ReserveRange(physicalStart: nat, byteCount: nat) returns (removed: nat)
      requires Valid()
      modifies this, FreePages, PageRecords
      ensures Valid()
      ensures (State(), removed) == PhysicalMemorySpec.ReserveRange(old(State()), physicalStart, byteCount)
    {
      removed := 0;
      if !Initialized || byteCount == 0 {
        return;
      }
      var first := AlignDown(physicalStart);
      var end := AlignUp((physicalStart + byteCount) % U64);
      var index := 0;
      ghost var whole := ReserveFrom(State(), 0, first, end, physicalStart);
      while index < FreePageCount
        invariant Valid() && index <= FreePageCount
        invariant var rest := ReserveFrom(State(), index, first, end, physicalStart);
                  whole.0 == rest.0 && whole.1 == removed + rest.1
        decreases FreePageCount - index
      {
        var page := FreePages[index];
        ghost var s := State();
        assert page == s.free[index];
        if first <= page < end {
          ReservePageAt(index, physicalStart);
          removed := removed + 1;
        } else {
          index := index + 1;
        }
      }
    }

    method ReservePageAt(index: nat, tag: nat)
      requires Valid() && index < FreePageCount
      modifies this, FreePages, PageRecords
      ensures Valid() && State() == ReserveAt(old(State()), index, tag)
      ensures FreePageCount == old(FreePageCount) - 1
    {
      ghost var s := State();
      var page := FreePages[index];
      Reserved := Reserved + {page};
      FreePageCount := FreePageCount - 1;
      FreePages[index] := FreePages[FreePageCount];
      ReservedPages := ReservedPages + 1;
      assert State().free == SwapRemove(s.free, index);
      var _ := SetPageOwner(page, OWNER_RESERVED, tag);
    }

    /** The record's page returns to the end of the free array. */
    method ReturnPage(index: nat)
      requires Valid() && index < PageRecordCount && FreePageCount < CAPACITY_PAGES
      modifies this, FreePages, PageRecords
      ensures Valid() && State() == PutBack(old(State()), index)
    {
      ghost var s := State();
      var page := PageRecords[index].address;
      PageRecords[index] := PageRecord(page, OWNER_FREE, 0, 0);
      FreePages[FreePageCount] := page;
      FreePageCount := FreePageCount + 1;
      Used := Used - {page};
      if UsedPageCount > 0 {
        UsedPageCount := UsedPageCount - 1;
      }
      assert State().free == s.free + [page];
      assert State().records == s.records[index := PageRecord(page, OWNER_FREE, 0, 0)];
    }

    method FreePage(address: nat) returns (ok: bool)
      requires Valid()
      modifies this, FreePages, PageRecords
      ensures Valid() && (State(), ok) == PhysicalMemorySpec.FreePage(old(State()), address)
    {
      if !Initialized {
        return false;
      }
      if address < MIN_ALLOC_ADDRESS || !IsAlignedPage(address) {
        OwnershipMismatches := OwnershipMismatches + 1;
        return false;
      }
      var inFree := IsPageInFreeList(address);
      if FreePageCount >= CAPACITY_PAGES || inFree {
        OwnershipMismatches := OwnershipMismatches + 1;
        return false;
      }
      var index := FindPageRecord(address);
      if index == PageRecordCount || PageRecords[index].owner == OWNER_FREE ||
         PageRecords[index].owner == OWNER_RESERVED || PageRecords[index].references == 0 {
        OwnershipMismatches := OwnershipMismatches + 1;
        return false;
      }
      ReturnPage(index);
      return true;
    }

    method FreeContiguousPages(address: nat, pageCount: nat) returns (ok: bool)
      requires Valid()
      modifies this, FreePages, PageRecords
      ensures Valid() && (State(), ok) == PhysicalConstraintsSpec.FreeContiguousPages(old(State()), address, pageCount)
    {
      if pageCount == 0 {
        return false;
      }
      hide PhysicalMemorySpec.FreePage, RunPage;
      var freed := 0;
      ghost var whole := FreeRun(State(), address, 0, pageCount);
      for index := 0 to pageCount
        invariant Valid()
        invariant var rest := FreeRun(State(), address, index, pageCount);
                  whole.0 == rest.0 && whole.1 == freed + rest.1
      {
        var done := FreePage(RunPage(address, index));
        if done {
          freed := freed + 1;
        }
      }
      return freed == pageCount;
    }

    method AddPageReference(address: nat) returns (ok: bool)
      requires Valid()
      modifies this, PageRecords
      ensures Valid() && (State(), ok) == PhysicalMemorySpec.AddPageReference(old(State()), address)
    {
      ghost var s := State();
      var index := FindPageRecord(AlignDown(address));
      if index == PageRecordCount || PageRecords[index].owner == OWNER_FREE {
        OwnershipMismatches := OwnershipMismatches + 1;
        return false;
      }
      var record := PageRecords[index];
      PageRecords[index] := record.(references := (record.references + 1) % U32);
      assert State().records == s.records[index := PageRecords[index]];
      return true;
    }

    method ReleasePageReference(address: nat) returns (ok: bool)
      requires Valid()
      modifies this, FreePages, PageRecords
      ensures Valid() && (State(), ok) == PhysicalMemorySpec.ReleasePageReference(old(State()), address)
    {
      ghost var s := State();
      var index := FindPageRecord(AlignDown(address));
      if index == PageRecordCount || PageRecords[index].references == 0 {
        OwnershipMismatches := OwnershipMismatches + 1;
        return false;
      }
      var record := PageRecords[index];
      record := record.(references := record.references - 1);
      PageRecords[index] := record;
      assert State().records == s.records[index := record];
      if record.references == 0 {
        var inFree := IsPageInFreeList(record.address);
        if record.owner == OWNER_RESERVED || FreePageCount >= CAPACITY_PAGES || inFree {
          OwnershipMismatches := OwnershipMismatches + 1;
          return false;
        }
        ReturnPage(index);
        assert State() == PutBack(s, index);
      }
      return true;
    }
  
    // ----- Self-validation -----

    /** Sorts the free pages where they are. */
    method SortFreePages()
      requires Valid()
      modifies FreePages
      ensures State() == old(State()).(free := State().free)
      ensures Sorted(State().free) && |State().free| == |old(State()).free|
      ensures multiset(State().free) == multiset(old(State()).free)
    {
      SortPages(FreePages, FreePageCount);
    }

    method SortedFreeListContains(address: nat) returns (found: bool)
      requires Valid() && Sorted(State().free)
      ensures found <==> AlignDown(address) in State().free
    {
      var page := AlignDown(address);
      ghost var free := State().free;
      var low, high := 0, FreePageCount;
      while low < high
        invariant 0 <= low <= high <= FreePageCount
        invariant forall i :: 0 <= i < low ==> free[i] < page
        invariant forall i :: high <= i < |free| ==> free[i] > page
      {
        var mid := low + (high - low) / 2;
        var current := FreePages[mid];
        assert current == free[mid];
        if current == page {
          return true;
        }
        if current < page {
          low := mid + 1;
        } else {
          high := mid;
        }
      }
      return false;
    }

    method ValidateFreePagesSorted() returns (ok: bool)
      requires Valid() && Sorted(State().free)
      ensures ok <==> FreePagesAccepted(State())
    {
      ghost var s := State();
      var previous := 0;
      for index := 0 to FreePageCount
        invariant index > 0 ==> previous == s.free[index - 1]
        invariant forall i :: 0 <= i < index ==> FreePageAccepted(s, s.free[i])
        invariant forall i, j :: 0 <= i < j < index ==> s.free[i] < s.free[j]
      {
        var page := FreePages[index];
        assert page == s.free[index];
        if page < MIN_ALLOC_ADDRESS || !IsAlignedPage(page) {
          assert !FreePageAccepted(s, s.free[index]);
          return false;
        }
        if index != 0 && page <= previous {
          assert s.free[index - 1] == s.free[index];
          return false;
        }
        var r := FindPageRecord(page);
        if r < PageRecordCount && PageRecords[r].owner != OWNER_FREE {
          assert !FreePageAccepted(s, s.free[index]);
          return false;
        }
        previous := page;
      }
      return true;
    }

    method ValidateOwnershipRecords() returns (ok: bool)
      requires Valid() && Sorted(State().free)
      ensures ok <==> RecordsAccepted(State())
    {
      ghost var s := State();
      for index := 0 to PageRecordCount
        invariant forall i :: 0 <= i < index ==> RecordAccepted(s, s.records[i])
      {
        var record := PageRecords[index];
        assert record == s.records[index];
        if !IsAlignedPage(record.address) {
          return false;
        }
        assert AlignDown(record.address) == record.address;
        var inFreeList := SortedFreeListContains(record.address);
        if record.owner == OWNER_FREE {
          if record.references != 0 || !inFreeList {
            return false;
          }
        } else {
          if record.references == 0 || inFreeList {
            return false;
          }
        }
      }
      return true;
    }

    method ValidatePageAccounting() returns (ok: bool)
      requires Valid()
      ensures ok <==> AccountingAccepted(State())
    {
      if FreePageCount > CAPACITY_PAGES || PageRecordCount > MAX_RECORDS {
        return false;
      }
      var accounted := (FreePageCount + UsedPageCount + ReservedPages) % U32;
      return accounted <= TrackedUsablePages;
    }

    /** The run-time self-check: it sorts the free array and answers exactly `Accepted`. */
    method ValidateAllocator() returns (ok: bool)
      requires Valid()
      modifies this`IntegrityChecks, this`IntegrityFailures, FreePages
      ensures Valid()
      ensures ok <==> old(Initialized && Accepted(State()))
      ensures State() == old(State()).(free := State().free)
      ensures multiset(State().free) == multiset(old(State()).free)
      ensures old(Initialized) ==> Sorted(State().free)
      ensures old(Initialized) ==> IntegrityChecks == old(IntegrityChecks) + 1
      ensures old(Initialized) ==> IntegrityFailures == old(IntegrityFailures) + if ok then 0 else 1
    {
      if !Initialized {
        return false;
      }
      IntegrityChecks := IntegrityChecks + 1;
      SortFreePages();
      AcceptedUnderPermutation(old(State()), State());
      ok := ValidatePageAccounting();
      if ok {
        ok := ValidateFreePagesSorted();
      }
      if ok {
        ok := ValidateOwnershipRecords();
      }
      if !ok {
        IntegrityFailures := IntegrityFailures + 1;
      }
    }
  }
}
