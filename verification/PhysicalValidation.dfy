/** What the allocator's self-validation accepts, independently of how it looks it up. */
module PhysicalValidation {
  import opened Collections
  import opened PhysicalMemorySpec

  /** The sum of the counts, as a 32-bit number, does not exceed the tracked pages. */
  ghost predicate AccountingAccepted(s: Phys) {
    && |s.free| <= CAPACITY_PAGES && |s.records| <= MAX_RECORDS
    && (|s.free| + s.usedCount + s.reservedCount) % U32 <= s.trackedCount
  }

  ghost predicate FreePageAccepted(s: Phys, page: nat) {
    var i := FindRecord(s.records, page);
    && page >= MIN_ALLOC_ADDRESS && IsAlignedPage(page)
    && (i < |s.records| ==> s.records[i].owner == OWNER_FREE)
  }

  ghost predicate FreePagesAccepted(s: Phys) {
    && NoDuplicates(s.free)
    && forall p :: p in s.free ==> FreePageAccepted(s, p)
  }

  ghost predicate RecordAccepted(s: Phys, r: PageRecord) {
    && IsAlignedPage(r.address)
    && (if r.owner == OWNER_FREE then r.references == 0 && r.address in s.free
        else r.references != 0 && r.address !in s.free)
  }

  ghost predicate RecordsAccepted(s: Phys) {
    forall i :: 0 <= i < |s.records| ==> RecordAccepted(s, s.records[i])
  }

  ghost predicate Accepted(s: Phys) {
    AccountingAccepted(s) && FreePagesAccepted(s) && RecordsAccepted(s)
  }

  /** What that comes to: the counts do not exceed the tracked pages, the free pages are distinct, aligned
      and at or above 1 MiB, and each record is either Free with no reference and its page in the array, or
      not Free with some and its page not in the array. */
  lemma AcceptedMeans(s: Phys)
    requires |s.free| + s.usedCount + s.reservedCount < 0x1_0000_0000
    ensures Accepted(s) <==>
            && |s.free| <= 1048576 && |s.records| <= 8192 && |s.free| + s.usedCount + s.reservedCount <= s.trackedCount
            && (forall i, j :: 0 <= i < j < |s.free| ==> s.free[i] != s.free[j])
            && (forall p :: p in s.free ==> p % 4096 == 0 && p >= 0x10_0000)
            && (forall i :: 0 <= i < |s.records| ==> s.records[i].address % 4096 == 0)
            && (forall i :: 0 <= i < |s.records| ==>
                              (s.records[i].owner == 0 <==> s.records[i].address in s.free)
                              && (s.records[i].owner == 0 <==> s.records[i].references == 0))
  {
    if Accepted(s) {
      forall i | 0 <= i < |s.records| ensures RecordAccepted(s, s.records[i]) {
      }
      assert forall p :: p in s.free ==> FreePageAccepted(s, p);
    } else {
      forall i | 0 <= i < |s.records| && s.records[i].address % 4096 == 0
                 && (s.records[i].owner == 0 <==> s.records[i].address in s.free)
                 && (s.records[i].owner == 0 <==> s.records[i].references == 0)
        ensures RecordAccepted(s, s.records[i])
      {
      }
    }
  }

  lemma PermutationMembers(s: seq<nat>, t: seq<nat>)
    requires multiset(s) == multiset(t)
    ensures forall p :: p in s <==> p in t
    ensures |s| == |t|
    ensures NoDuplicates(s) <==> NoDuplicates(t)
  {
    forall p ensures p in s <==> p in t {
      assert p in s <==> p in multiset(s);
    }
    assert |multiset(s)| == |s| && |multiset(t)| == |t|;
    OnceEach(s);
    OnceEach(t);
  }

  /** No duplicates means multiplicity one. */
  lemma {:induction false} OnceEach(s: seq<nat>)
    ensures NoDuplicates(s) <==> forall p :: p in s ==> multiset(s)[p] == 1
  {
    if s != [] {
      var front, last := s[..|s| - 1], s[|s| - 1];
      assert s == front + [last];
      OnceEach(front);
      assert multiset(s) == multiset(front) + multiset{last};
      if NoDuplicates(s) {
        assert last !in front;
        assert multiset(front)[last] == 0;
      }
      if forall p :: p in s ==> multiset(s)[p] == 1 {
        assert last in s && multiset(front)[last] == 0;
        assert last !in multiset(front);
        forall p | p in front ensures multiset(front)[p] == 1 {
          assert p in s;
        }
      }
    }
  }

  lemma AcceptedUnderPermutation(s: Phys, t: Phys)
    requires t == s.(free := t.free) && multiset(s.free) == multiset(t.free)
    ensures Accepted(s) <==> Accepted(t)
  {
    PermutationMembers(s.free, t.free);
    assert forall p :: FreePageAccepted(s, p) <==> FreePageAccepted(t, p);
    assert forall r :: RecordAccepted(s, r) <==> RecordAccepted(t, r);
  }

  /** In every state of the invariant the self-check accepts. */
  lemma InvariantIsAccepted(s: Phys)
    requires Inv(s)
    ensures Accepted(s)
  {
    forall p | p in s.free ensures FreePageAccepted(s, p) {
      var i := FindRecord(s.records, p);
      if i < |s.records| { assert RecordOk(s.records[i], s); }
    }
    forall i | 0 <= i < |s.records| ensures RecordAccepted(s, s.records[i]) {
      assert RecordOk(s.records[i], s);
    }
    assert |s.free| + s.usedCount + s.reservedCount < U32;
  }

  /** Validating only reorders the free array, which the invariant does not notice. */
  lemma InvUnderPermutation(s: Phys, t: Phys)
    requires t == s.(free := t.free) && multiset(s.free) == multiset(t.free) && Inv(s)
    ensures Inv(t) && FreeSet(t) == FreeSet(s)
  {
    PermutationMembers(s.free, t.free);
    assert forall r :: RecordOk(r, s) <==> RecordOk(r, t);
  }
}
