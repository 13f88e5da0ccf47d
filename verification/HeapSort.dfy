/** The in-place heapsort of the allocator's self-validation: sift-down on an array, and what
    it keeps, stated on the array's contents. */
module HeapSort {

  /** Element `c` is not above its parent. */
  predicate ParentDominates(s: seq<nat>, c: nat)
    requires 1 <= c < |s|
  {
    s[(c - 1) / 2] >= s[c]
  }

  /** Positions lo..end form a heap: every element there whose parent is at or after `lo`. */
  ghost predicate Heap(s: seq<nat>, lo: nat, end: nat)
    requires end < |s|
  {
    forall c :: 1 <= c <= end && (c - 1) / 2 >= lo ==> ParentDominates(s, c)
  }

  /** A heap but for `hole`, whose own parent dominates the hole's children. */
  ghost predicate HeapWithHole(s: seq<nat>, lo: nat, end: nat, hole: nat)
    requires end < |s|
  {
    && lo <= hole <= end
    && (forall c :: 1 <= c <= end && (c - 1) / 2 >= lo && (c - 1) / 2 != hole ==> ParentDominates(s, c))
    && (hole > 0 && (hole - 1) / 2 >= lo ==>
          && (2 * hole + 1 <= end ==> s[(hole - 1) / 2] >= s[2 * hole + 1])
          && (2 * hole + 2 <= end ==> s[(hole - 1) / 2] >= s[2 * hole + 2]))
  }

  function Swapped(s: seq<nat>, i: nat, j: nat): (r: seq<nat>)
    requires i < |s| && j < |s|
    ensures |r| == |s|
  {
    s[i := s[j]][j := s[i]]
  }

  /** `t` permutes the first `n` elements of `s` and moves nothing else. */
  ghost predicate PermutesPrefix(s: seq<nat>, t: seq<nat>, n: nat) {
    && n <= |s| == |t|
    && multiset(s[..n]) == multiset(t[..n])
    && s[n..] == t[n..]
  }

  lemma SwappedPermutes(s: seq<nat>, i: nat, j: nat, n: nat)
    requires i < n && j < n && n <= |s|
    ensures PermutesPrefix(s, Swapped(s, i, j), n)
  {
    assert Swapped(s, i, j)[..n] == Swapped(s[..n], i, j);
  }

  lemma PermutesReflexive(s: seq<nat>, n: nat)
    requires n <= |s|
    ensures PermutesPrefix(s, s, n)
  {
  }

  lemma PermutesTransitive(s: seq<nat>, t: seq<nat>, u: seq<nat>, n: nat)
    requires PermutesPrefix(s, t, n) && PermutesPrefix(t, u, n)
    ensures PermutesPrefix(s, u, n)
  {
  }

  lemma PermutesLonger(s: seq<nat>, t: seq<nat>, n: nat, count: nat)
    requires PermutesPrefix(s, t, n) && n <= count <= |s|
    ensures PermutesPrefix(s, t, count)
  {
    assert s[..count] == s[..n] + s[n..][..count - n];
    assert t[..count] == t[..n] + t[n..][..count - n];
    assert s[count..] == s[n..][count - n..];
    assert t[count..] == t[n..][count - n..];
  }

  /** A permuted prefix has the same members. */
  lemma PermutesMembers(s: seq<nat>, t: seq<nat>, n: nat, p: nat)
    requires PermutesPrefix(s, t, n)
    ensures p in s[..n] <==> p in t[..n]
  {
    assert p in s[..n] <==> p in multiset(s[..n]);
    assert p in t[..n] <==> p in multiset(t[..n]);
  }

  /** Swapping the hole with its larger child moves the hole one level down. */
  lemma SiftStep(s: seq<nat>, lo: nat, end: nat, hole: nat, child: nat)
    requires end < |s| && HeapWithHole(s, lo, end, hole)
    requires (child == 2 * hole + 1 || child == 2 * hole + 2) && child <= end
    requires s[hole] < s[child]
    requires 2 * hole + 1 <= end ==> s[2 * hole + 1] <= s[child]
    requires 2 * hole + 2 <= end ==> s[2 * hole + 2] <= s[child]
    ensures HeapWithHole(Swapped(s, hole, child), lo, end, child)
  {
    var t := Swapped(s, hole, child);
    forall c | 1 <= c <= end && (c - 1) / 2 >= lo && (c - 1) / 2 != child
      ensures ParentDominates(t, c)
    {
      if (c - 1) / 2 != hole {
        assert ParentDominates(s, c);
      }
    }
    assert 2 * child + 1 <= end ==> ParentDominates(s, 2 * child + 1);
    assert 2 * child + 2 <= end ==> ParentDominates(s, 2 * child + 2);
  }

  /** When no child exceeds the hole, the heap is whole. */
  lemma SiftDone(s: seq<nat>, lo: nat, end: nat, hole: nat)
    requires end < |s| && HeapWithHole(s, lo, end, hole)
    requires 2 * hole + 1 <= end ==> s[2 * hole + 1] <= s[hole]
    requires 2 * hole + 2 <= end ==> s[2 * hole + 2] <= s[hole]
    ensures Heap(s, lo, end)
  {
    forall c | 1 <= c <= end && (c - 1) / 2 >= lo ensures ParentDominates(s, c) {
      if (c - 1) / 2 == hole { assert c == 2 * hole + 1 || c == 2 * hole + 2; }
    }
  }

  /** The root of a heap is its maximum. */
  lemma {:induction false} RootIsMaximum(s: seq<nat>, end: nat, k: nat)
    requires end < |s| && k <= end && Heap(s, 0, end)
    ensures s[k] <= s[0]
  {
    if k > 0 {
      assert ParentDominates(s, k);
      RootIsMaximum(s, end, (k - 1) / 2);
    }
  }

  method SwapPages(pages: array<nat>, left: nat, right: nat)
    requires left < pages.Length && right < pages.Length
    modifies pages
    ensures pages[..] == Swapped(old(pages[..]), left, right)
  {
    var temp := pages[left];
    pages[left] := pages[right];
    pages[right] := temp;
  }

  method HeapSiftDown(pages: array<nat>, start: nat, end: nat)
    requires start <= end < pages.Length
    requires HeapWithHole(pages[..], start, end, start)
    modifies pages
    ensures Heap(pages[..], start, end)
    ensures PermutesPrefix(old(pages[..]), pages[..], end + 1)
  {
    hide HeapWithHole, PermutesPrefix, Swapped, Heap;
    PermutesReflexive(pages[..], end + 1);
    var root := start;
    while root * 2 + 1 <= end
      invariant start <= root <= end
      invariant HeapWithHole(pages[..], start, end, root)
      invariant PermutesPrefix(old(pages[..]), pages[..], end + 1)
      decreases end - root
    {
      var child := root * 2 + 1;
      var swapIndex := root;
      if pages[swapIndex] < pages[child] {
        swapIndex := child;
      }
      if child + 1 <= end && pages[swapIndex] < pages[child + 1] {
        swapIndex := child + 1;
      }
      if swapIndex == root {
        SiftDone(pages[..], start, end, root);
        return;
      }
      ghost var before := pages[..];
      SiftStep(before, start, end, root, swapIndex);
      SwappedPermutes(before, root, swapIndex, end + 1);
      SwapPages(pages, root, swapIndex);
      PermutesTransitive(old(pages[..]), before, pages[..], end + 1);
      root := swapIndex;
    }
    SiftDone(pages[..], start, end, root);
  }

  ghost predicate Sorted(s: seq<nat>) {
    forall i, j :: 0 <= i <= j < |s| ==> s[i] <= s[j]
  }

  /** The state of the second phase: positions after `end` hold the largest elements, sorted. */
  ghost predicate SortedFrom(s: seq<nat>, count: nat, end: nat)
    requires end < count <= |s|
  {
    && (forall i, j :: end < i <= j < count ==> s[i] <= s[j])
    && (forall i, j :: 0 <= i <= end < j < count ==> s[i] <= s[j])
  }

  /** Sifting permutes the unsorted part only, so the sorted part stays the largest. */
  lemma SortedFromKept(s: seq<nat>, t: seq<nat>, count: nat, end: nat)
    requires end < count <= |s| && SortedFrom(s, count, end)
    requires PermutesPrefix(s, t, end + 1)
    ensures SortedFrom(t, count, end)
  {
    forall j | end < j < |s| ensures t[j] == s[j] {
      assert t[end + 1..][j - end - 1] == s[end + 1..][j - end - 1];
    }
    forall i, j | 0 <= i <= end < j < count ensures t[i] <= t[j] {
      PermutesMembers(s, t, end + 1, t[i]);
      assert t[..end + 1][i] in t[..end + 1];
    }
  }

  lemma HeapLosesRoot(s: seq<nat>, end: nat)
    requires 0 < end < |s| && Heap(s, 0, end)
    ensures HeapWithHole(Swapped(s, end, 0), 0, end - 1, 0)
  {
    var t := Swapped(s, end, 0);
    forall c | 1 <= c <= end - 1 && (c - 1) / 2 >= 0 && (c - 1) / 2 != 0 ensures ParentDominates(t, c) {
      assert ParentDominates(s, c);
    }
  }

  lemma RootMovesToEnd(s: seq<nat>, count: nat, end: nat)
    requires 0 < end < count <= |s| && Heap(s, 0, end) && SortedFrom(s, count, end)
    ensures SortedFrom(Swapped(s, end, 0), count, end - 1)
  {
    var t := Swapped(s, end, 0);
    forall k | 0 <= k <= end ensures s[k] <= s[0] {
      RootIsMaximum(s, end, k);
    }
  }

  /** Sorts the first `count` elements and moves nothing else. */
  method SortPages(pages: array<nat>, count: nat)
    requires count <= pages.Length
    modifies pages
    ensures Sorted(pages[..count])
    ensures PermutesPrefix(old(pages[..]), pages[..], count)
  {
    hide HeapWithHole, PermutesPrefix, Swapped, SortedFrom;
    if count < 2 {
      ShortIsSorted(pages[..], count);
      return;
    }
    BuildHeap(pages, count);
    NothingSortedYet(pages[..], count);
    var end := count - 1;
    while end > 0
      invariant end < count
      invariant Heap(pages[..], 0, end)
      invariant SortedFrom(pages[..], count, end)
      invariant PermutesPrefix(old(pages[..]), pages[..], count)
    {
      ghost var s := pages[..];
      HeapLosesRoot(s, end);
      RootMovesToEnd(s, count, end);
      SwappedPermutes(s, end, 0, count);
      SwapPages(pages, end, 0);
      ghost var t := pages[..];
      end := end - 1;
      HeapSiftDown(pages, 0, end);
      SortedFromKept(t, pages[..], count, end);
      PermutesLonger(t, pages[..], end + 1, count);
      PermutesTransitive(old(pages[..]), s, t, count);
      PermutesTransitive(old(pages[..]), t, pages[..], count);
    }
    AllSorted(pages[..], count);
  }

  lemma ShortIsSorted(s: seq<nat>, count: nat)
    requires count < 2 && count <= |s|
    ensures Sorted(s[..count]) && PermutesPrefix(s, s, count)
  {
  }

  lemma NothingSortedYet(s: seq<nat>, count: nat)
    requires 0 < count <= |s|
    ensures SortedFrom(s, count, count - 1)
  {
  }

  lemma AllSorted(s: seq<nat>, count: nat)
    requires 0 < count <= |s| && SortedFrom(s, count, 0)
    ensures Sorted(s[..count])
  {
  }

  /** The first phase: a heap of the first `count` elements. */
  method BuildHeap(pages: array<nat>, count: nat)
    requires 2 <= count <= pages.Length
    modifies pages
    ensures Heap(pages[..], 0, count - 1)
    ensures PermutesPrefix(old(pages[..]), pages[..], count)
  {
    var start := (count - 2) / 2;
    while true
      invariant 0 <= start <= (count - 2) / 2
      invariant Heap(pages[..], start + 1, count - 1)
      invariant PermutesPrefix(old(pages[..]), pages[..], count)
      decreases start
    {
      ghost var before := pages[..];
      HoleAtStart(before, start, count - 1);
      HeapSiftDown(pages, start, count - 1);
      PermutesTransitive(old(pages[..]), before, pages[..], count);
      if start == 0 {
        break;
      }
      start := start - 1;
    }
  }

  lemma HoleAtStart(s: seq<nat>, start: nat, end: nat)
    requires start <= end < |s| && Heap(s, start + 1, end)
    ensures HeapWithHole(s, start, end, start)
  {
  }
}
