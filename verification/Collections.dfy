/** Lists without repetition, the sets of their members, and how many there are. */
module Collections {

  predicate NoDuplicates(list: seq<nat>) {
    forall i, j :: 0 <= i < j < |list| ==> list[i] != list[j]
  }

  function Members(list: seq<nat>): set<nat> {
    set a | a in list
  }

  lemma {:induction false} SubsetSize(a: set<nat>, b: set<nat>)
    requires a <= b
    ensures |a| <= |b| && (a != b ==> |a| < |b|)
    decreases |a|
  {
    if a != {} {
      var x :| x in a;
      SubsetSize(a - {x}, b - {x});
      assert a == (a - {x}) + {x} && b == (b - {x}) + {x};
    }
  }

  lemma {:induction false} MembersSize(list: seq<nat>)
    ensures |Members(list)| <= |list| && (NoDuplicates(list) ==> |Members(list)| == |list|)
    decreases |list|
  {
    if list == [] {
      assert Members(list) == {};
    } else {
      var front, last := list[..|list| - 1], list[|list| - 1];
      MembersSize(front);
      assert list == front + [last];
      assert Members(list) == Members(front) + {last};
    }
  }

  function Below(n: nat): (r: set<nat>)
    ensures |r| == n && forall i: nat :: i in r <==> i < n
  {
    if n == 0 then {} else Below(n - 1) + {n - 1}
  }

  /** Distinct numbers, exactly those below n: there are n of them. */
  lemma DistinctSize(list: seq<nat>, n: nat)
    requires NoDuplicates(list) && forall i: nat :: i in list <==> i < n
    ensures |list| == n
  {
    MembersSize(list);
    assert Members(list) == Below(n);
  }

  /** Distinct numbers below n are at most n. */
  lemma DistinctBound(list: seq<nat>, n: nat)
    requires NoDuplicates(list) && forall i: nat :: i in list ==> i < n
    ensures |list| <= n
  {
    MembersSize(list);
    SubsetSize(Members(list), Below(n));
  }

  lemma AppendDistinct(a: seq<nat>, b: seq<nat>)
    ensures NoDuplicates(a + b) <==> NoDuplicates(a) && NoDuplicates(b) && forall p :: p in a ==> p !in b
  {
    var c := a + b;
    assert forall i :: 0 <= i < |a| ==> c[i] == a[i];
    assert forall i :: 0 <= i < |b| ==> c[|a| + i] == b[i];
    if NoDuplicates(c) {
      forall p | p in a ensures p !in b {
        var i :| 0 <= i < |a| && a[i] == p;
        assert c[i] == p;
      }
    } else {
      var i, j :| 0 <= i < j < |c| && c[i] == c[j];
      assert j < |a| || c[j] in b;
      assert i >= |a| || c[i] in a;
    }
  }
}
