/** Whole runs of the physical page allocator. */
module PhysicalRun {
  import opened Collections
  import opened PhysicalMemorySpec
  import opened PhysicalConstraintsSpec
  import opened PhysicalValidation

  datatype Op =
    | Allocate
    | AllocateBelow(limit: nat)
    | AllocateConstrained(constraints: Constraints)
    | AllocateContiguous(constraints: Constraints)
    | Reserve(start: nat, byteCount: nat)
    | Free(address: nat)
    | FreeContiguous(address: nat, count: nat)
    | SetOwner(address: nat, owner: nat, tag: nat)
    | AddReference(address: nat)
    | Release(address: nat)

  function Step(s: Phys, op: Op): Phys {
    match op
    case Allocate => AllocatePage(s).0
    case AllocateBelow(limit) => AllocatePageBelow(s, limit).0
    case AllocateConstrained(c) => AllocateConstrainedPage(s, c).0
    case AllocateContiguous(c) => AllocateContiguousPages(s, c).0
    case Reserve(start, count) => ReserveRange(s, start, count).0
    case Free(address) => FreePage(s, address).0
    case FreeContiguous(address, count) => FreeContiguousPages(s, address, count).0
    case SetOwner(address, owner, tag) => SetPageOwner(s, address, owner, tag).0
    case AddReference(address) => AddPageReference(s, address).0
    case Release(address) => ReleasePageReference(s, address).0
  }

  /** The three calls the table depends on its callers for; every other call is safe. */
  ghost predicate Safe(s: Phys, op: Op) {
    match op
    case SetOwner(address, owner, tag) => SetOwnerSafe(s, address, owner)
    case AddReference(address) => AddReferenceSafe(s, address)
    case Release(address) => ReleaseSafe(s, address)
    case _ => true
  }

  function Run(s: Phys, ops: seq<Op>): Phys
    decreases |ops|
  {
    if ops == [] then s else Run(Step(s, ops[0]), ops[1..])
  }

  ghost predicate SafeRun(s: Phys, ops: seq<Op>)
    decreases |ops|
  {
    ops != [] ==> Safe(s, ops[0]) && SafeRun(Step(s, ops[0]), ops[1..])
  }

  /** Every page the allocator tracks: free, handed out, or reserved. */
  ghost function Tracked(s: Phys): set<nat> {
    FreeSet(s) + s.used + s.reserved
  }

  ghost predicate Conserves(s: Phys, t: Phys) {
    Tracked(t) == Tracked(s) && t.trackedCount == s.trackedCount
  }

  lemma FreeConserves(s: Phys, address: nat)
    requires Inv(s)
    ensures Inv(FreePage(s, address).0) && Conserves(s, FreePage(s, address).0)
  {
    FreePageExact(s, address);
  }

  lemma {:induction false} FreeRunKeeps(s: Phys, base: nat, k: nat, n: nat)
    requires Inv(s)
    ensures Inv(FreeRun(s, base, k, n).0) && Conserves(s, FreeRun(s, base, k, n).0)
    decreases n - k
  {
    hide Inv, FreePage, Tracked;
    if k < n {
      FreeConserves(s, RunPage(base, k));
      FreeRunKeeps(FreePage(s, RunPage(base, k)).0, base, k + 1, n);
    }
  }

  lemma AllocateAtConserves(s: Phys, index: nat, owner: nat, tag: nat)
    requires Inv(s) && index < |s.free| && owner != OWNER_FREE
    ensures Inv(AllocateAt(s, index, owner, tag)) && Conserves(s, AllocateAt(s, index, owner, tag))
  {
    hide Inv, AllocateAt;
    AllocateAtKeeps(s, index, owner, tag);
    assert s.free[index] in FreeSet(s);
  }

  lemma ContiguousConserves(s: Phys, c: Constraints)
    requires Inv(s)
    ensures Inv(AllocateContiguousPages(s, c).0) && Conserves(s, AllocateContiguousPages(s, c).0)
  {
    hide Inv, AllocateContiguousPages, RunSet, Fits, PageMatches;
    AllocateContiguousExact(s, c);
  }

  lemma AllocationConserves(s: Phys, op: Op)
    requires Inv(s)
    requires op.Allocate? || op.AllocateBelow? || op.AllocateConstrained? || op.AllocateContiguous?
    ensures Inv(Step(s, op)) && Conserves(s, Step(s, op))
  {
    hide Inv, AllocateAt, PageMatches, AllocateContiguousPages;
    match op
    case Allocate =>
      if s.initialized && s.free != [] { AllocateAtConserves(s, |s.free| - 1, OWNER_GENERIC, 0); }
    case AllocateBelow(limit) =>
      var i := LastBelow(s.free, |s.free|, limit);
      if s.initialized && i >= 0 { AllocateAtConserves(s, i, OWNER_GENERIC, 0); }
    case AllocateConstrained(c) =>
      var i := LastMatch(s.free, |s.free|, c);
      if s.initialized && i >= 0 { AllocateAtConserves(s, i, ConstraintOwner(c), c.tag); }
    case AllocateContiguous(c) =>
      ContiguousConserves(s, c);
  }

  lemma ReserveConserves(s: Phys, start: nat, byteCount: nat)
    requires Inv(s)
    ensures Inv(ReserveRange(s, start, byteCount).0)
    ensures Conserves(s, ReserveRange(s, start, byteCount).0)
  {
    ReserveRangeKeeps(s, start, byteCount);
    if byteCount != 0 {
      ReserveFromTracked(s, 0, AlignDown(start), AlignUp((start + byteCount) % U64), start);
    }
  }

  lemma {:induction false} ReserveFromTracked(s: Phys, index: nat, first: nat, end: nat, tag: nat)
    requires index <= |s.free|
    ensures ReserveFrom(s, index, first, end, tag).0.trackedCount == s.trackedCount
    decreases |s.free| - index
  {
    if index < |s.free| {
      if first <= s.free[index] < end {
        ReserveFromTracked(ReserveAt(s, index, tag), index, first, end, tag);
      } else {
        ReserveFromTracked(s, index + 1, first, end, tag);
      }
    }
  }

  /** One call keeps the invariant exactly when it is safe; no call ever creates or loses a
      tracked page. */
  lemma StepExact(s: Phys, op: Op)
    requires Inv(s)
    ensures Inv(Step(s, op)) <==> Safe(s, op)
    ensures Safe(s, op) ==> Conserves(s, Step(s, op))
  {
    hide Inv, ReserveRange, FreePage, FreeRun, SetOwnerSafe, AddReferenceSafe, ReleaseSafe,
      ReleasePageReference, AllocatePage, AllocatePageBelow, AllocateConstrainedPage, AllocateContiguousPages;
    match op
    case Reserve(start, count) => ReserveConserves(s, start, count);
    case Free(address) => FreeConserves(s, address);
    case FreeContiguous(address, count) => FreeRunKeeps(s, address, 0, count);
    case SetOwner(address, owner, tag) => SetPageOwnerExact(s, address, owner, tag);
    case AddReference(address) => AddReferenceExact(s, address);
    case Release(address) =>
      ReleaseExact(s, address);
      if ReleaseSafe(s, address) { ReleaseConserves(s, address); }
    case _ => AllocationConserves(s, op);
  }

  lemma ReleaseConserves(s: Phys, address: nat)
    requires Inv(s) && ReleaseSafe(s, address)
    ensures Conserves(s, ReleasePageReference(s, address).0)
  {
    var k := FindRecord(s.records, AlignDown(address));
    if k < |s.records| && s.records[k].references == 1 {
      assert RecordOk(s.records[k], s);
      PutBackKeeps(s, k);
    }
  }

  /** Every run of safe calls keeps the invariant and the tracked pages. */
  lemma {:induction false} RunKeeps(s: Phys, ops: seq<Op>)
    requires Inv(s) && SafeRun(s, ops)
    ensures Inv(Run(s, ops)) && Conserves(s, Run(s, ops))
    decreases |ops|
  {
    if ops != [] {
      StepExact(s, ops[0]);
      RunKeeps(Step(s, ops[0]), ops[1..]);
    }
  }

  lemma CountsAddUp(s: Phys)
    requires Inv(s)
    ensures |s.free| + s.usedCount + s.reservedCount == s.trackedCount
  {
  }

  /** From start-up on a map that gives no page twice, whatever happens: pages are free, out, or reserved, never two of
      these at once; their numbers add up to what start-up counted; the pages on record as in
      use are at most UsedPageCount, so taking one back never meets a zero count. */
  lemma EveryRunFromInit(entries: seq<MemoryEntry>, ops: seq<Op>)
    requires NoDuplicates(Init(entries).free) && Init(entries).initialized && SafeRun(Init(entries), ops)
    ensures var s := Init(entries);
            var t := Run(s, ops);
            && Inv(t)
            && Tracked(t) == FreeSet(s)
            && |t.free| + t.usedCount + t.reservedCount == s.trackedCount
            && |LiveAddresses(t)| <= t.usedCount
            && Accepted(t)
            && forall i :: 0 <= i < |t.records| && Live(t.records[i]) ==> t.usedCount > 0
  {
    hide Inv, Init, SafeRun, Disjoint, Accepted, NoDuplicates;
    InitExact(entries);
    RunKeeps(Init(entries), ops);
    var t := Run(Init(entries), ops);
    LiveAtMostUsed(t);
    InvariantIsAccepted(t);
    forall i | 0 <= i < |t.records| && Live(t.records[i]) ensures t.usedCount > 0 {
      PutBackKeeps(t, i);
    }
    CountsAddUp(t);
  }
}
