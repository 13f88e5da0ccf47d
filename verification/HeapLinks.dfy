/** The pointer structures of the heap: the doubly linked block list and the singly linked free
    lists threaded through the slab objects, against the sequences they stand for. */
module HeapLinks {
  import opened Collections
  import opened PhysicalMemorySpec
  import opened HeapLayout
  import opened HeapBlocks

  /** The two link fields of a block header; address 0 is null. */
  datatype Link = Link(previous: nat, next: nat)

  function PreviousOf(list: seq<nat>, i: nat): nat
    requires i < |list|
  {
    if i == 0 then 0 else list[i - 1]
  }

  function NextOf(list: seq<nat>, i: nat): nat
    requires i < |list|
  {
    if i + 1 == |list| then 0 else list[i + 1]
  }

  function HeadOf(list: seq<nat>): nat {
    if list == [] then 0 else list[0]
  }

  /** The node at index `i` points to its neighbours in the list. */
  ghost predicate NodeOk(links: map<nat, Link>, list: seq<nat>, i: nat)
    requires i < |list|
  {
    list[i] in links && links[list[i]] == Link(PreviousOf(list, i), NextOf(list, i))
  }

  /** `links` from `head` on is exactly the doubly linked list `list`. */
  ghost predicate Linked(links: map<nat, Link>, head: nat, list: seq<nat>) {
    && NoDuplicates(list) && 0 !in list
    && head == HeadOf(list)
    && forall i {:trigger NodeOk(links, list, i)} :: 0 <= i < |list| ==> NodeOk(links, list, i)
  }

  lemma Different(list: seq<nat>, i: nat, j: nat)
    requires NoDuplicates(list) && i < |list| && j < |list|
    ensures i != j ==> list[i] != list[j]
  {
  }

  lemma NotNull(list: seq<nat>, i: nat)
    requires 0 !in list && i < |list|
    ensures list[i] != 0
  {
    assert list[i] in list;
  }

  // ----- Linking a block in front -----

  function LinkedFront(links: map<nat, Link>, head: nat, a: nat): map<nat, Link> {
    var l := links[a := Link(0, head)];
    if head != 0 && head in l then l[head := l[head].(previous := a)] else l
  }

  lemma LinkFront(links: map<nat, Link>, head: nat, list: seq<nat>, a: nat)
    requires Linked(links, head, list) && a !in list && a != 0
    ensures head != 0 ==> head in links
    ensures Linked(LinkedFront(links, head, a), a, InsertAt(list, 0, a))
  {
    hide NoDuplicates;
    InsertMembers(list, 0, a);
    var t := InsertAt(list, 0, a);
    assert t == [a] + list;
    assert 0 !in t;
    if list != [] {
      assert NodeOk(links, list, 0);
      NotNull(list, 0);
    }
    forall j | 0 <= j < |t| ensures NodeOk(LinkedFront(links, head, a), t, j) {
      if j > 0 {
        assert NodeOk(links, list, j - 1);
        Different(list, 0, j - 1);
        assert list[j - 1] in list;
      }
    }
  }

  // ----- Linking a block behind another -----

  function LinkedBehind(links: map<nat, Link>, b: nat, a: nat): map<nat, Link>
    requires b in links
  {
    var next := links[b].next;
    var l := links[a := Link(b, next)];
    var m := if next != 0 && next in l then l[next := l[next].(previous := a)] else l;
    m[b := m[b].(next := a)]
  }

  lemma LinkBehind(links: map<nat, Link>, head: nat, list: seq<nat>, i: nat, a: nat)
    requires Linked(links, head, list) && i < |list| && a !in list && a != 0
    ensures list[i] in links && (links[list[i]].next != 0 ==> links[list[i]].next in links)
    ensures Linked(LinkedBehind(links, list[i], a), head, InsertAt(list, i + 1, a))
  {
    hide NoDuplicates;
    InsertMembers(list, i + 1, a);
    var t := InsertAt(list, i + 1, a);
    assert NodeOk(links, list, i);
    if i + 1 < |list| {
      assert NodeOk(links, list, i + 1);
    }
    assert 0 !in t && HeadOf(t) == HeadOf(list) by {
      assert 0 !in Members(t);
      assert t[0] == list[0];
    }
    forall j | 0 <= j < |t| ensures NodeOk(LinkedBehind(links, list[i], a), t, j) {
      LinkBehindNode(links, head, list, i, a, j);
    }
  }

  lemma LinkBehindNode(links: map<nat, Link>, head: nat, list: seq<nat>, i: nat, a: nat, j: nat)
    requires Linked(links, head, list) && i < |list| && a !in list && a != 0
    requires list[i] in links && j <= |list|
    ensures NodeOk(LinkedBehind(links, list[i], a), InsertAt(list, i + 1, a), j)
  {
    hide NoDuplicates;
    var t := InsertAt(list, i + 1, a);
    assert NodeOk(links, list, i);
    if i + 1 < |list| {
      assert NodeOk(links, list, i + 1);
      Different(list, i, i + 1);
      NotNull(list, i + 1);
      assert list[i + 1] in list;
    }
    assert list[i] in list;
    if j != i + 1 {
      var e := if j <= i then j else j - 1;
      assert NodeOk(links, list, e);
      Different(list, e, i);
      if i + 1 < |list| { Different(list, e, i + 1); }
      assert list[e] in list;
      assert t[j] == list[e];
    }
  }

  // ----- Unlinking a block -----

  function Unlinked(links: map<nat, Link>, b: nat): map<nat, Link>
    requires b in links
  {
    var k := links[b];
    var l := if k.previous != 0 && k.previous in links then links[k.previous := links[k.previous].(next := k.next)] else links;
    var m := if k.next != 0 && k.next in l then l[k.next := l[k.next].(previous := k.previous)] else l;
    m - {b}
  }

  lemma Unlink(links: map<nat, Link>, head: nat, list: seq<nat>, i: nat)
    requires Linked(links, head, list) && i < |list|
    ensures var b := list[i];
            && b in links
            && (links[b].previous != 0 ==> links[b].previous in links)
            && (links[b].next != 0 ==> links[b].next in links)
            && Linked(Unlinked(links, b), if links[b].previous != 0 then head else links[b].next, RemoveAt(list, i))
  {
    hide NoDuplicates;
    RemoveMembers(list, i);
    var t := RemoveAt(list, i);
    assert NodeOk(links, list, i);
    if i > 0 { assert NodeOk(links, list, i - 1); NotNull(list, i - 1); }
    if i + 1 < |list| { assert NodeOk(links, list, i + 1); }
    assert 0 !in t by { assert 0 !in Members(t); }
    forall j | 0 <= j < |t| ensures NodeOk(Unlinked(links, list[i]), t, j) {
      UnlinkNode(links, head, list, i, j);
    }
  }

  lemma UnlinkNode(links: map<nat, Link>, head: nat, list: seq<nat>, i: nat, j: nat)
    requires Linked(links, head, list) && i < |list| && list[i] in links && j + 1 < |list|
    ensures NodeOk(Unlinked(links, list[i]), RemoveAt(list, i), j)
  {
    hide NoDuplicates;
    var e := if j < i then j else j + 1;
    var t := RemoveAt(list, i);
    assert t[j] == list[e];
    assert NodeOk(links, list, i) && NodeOk(links, list, e);
    Different(list, e, i);
    if i > 0 {
      assert NodeOk(links, list, i - 1);
      NotNull(list, i - 1);
      Different(list, e, i - 1);
    }
    if i + 1 < |list| {
      assert NodeOk(links, list, i + 1);
      NotNull(list, i + 1);
      Different(list, e, i + 1);
      if i > 0 { Different(list, i - 1, i + 1); }
    }
  }

  /** Following the links from a block of the list. */
  lemma LinkAt(links: map<nat, Link>, head: nat, list: seq<nat>, i: nat)
    requires Linked(links, head, list) && i < |list|
    ensures list[i] in links && links[list[i]].next == NextOf(list, i)
    ensures i + 1 < |list| ==> list[i + 1] != 0
    ensures list[i] != 0
  {
    assert NodeOk(links, list, i);
    NotNull(list, i);
    if i + 1 < |list| { NotNull(list, i + 1); }
  }

  /** The successor's back link. */
  lemma LinkBack(links: map<nat, Link>, head: nat, list: seq<nat>, i: nat)
    requires Linked(links, head, list) && i + 1 < |list|
    ensures list[i + 1] in links && links[list[i + 1]].previous == list[i]
  {
    assert NodeOk(links, list, i + 1);
  }

  lemma HeadLinked(links: map<nat, Link>, head: nat, list: seq<nat>)
    requires Linked(links, head, list)
    ensures head == HeadOf(list)
  {
  }

  // ----- Free lists -----

  /** `next` from `head` on threads the objects of `list`, each known by its payload. */
  ghost predicate Chained(next: map<nat, nat>, head: nat, list: seq<nat>) {
    && head == (if list == [] then 0 else list[0] + HEADER)
    && forall i :: 0 <= i < |list| ==>
                     && list[i] + HEADER in next
                     && next[list[i] + HEADER] == (if i + 1 == |list| then 0 else list[i + 1] + HEADER)
  }

  lemma ChainPush(next: map<nat, nat>, head: nat, list: seq<nat>, h: nat)
    requires Chained(next, head, list) && h !in list
    ensures Chained(next[h + HEADER := head], h + HEADER, [h] + list)
  {
  }

  lemma ChainPop(next: map<nat, nat>, head: nat, list: seq<nat>)
    requires Chained(next, head, list) && list != []
    ensures head in next && Chained(next, next[head], list[1..])
  {
    assert list[0] + HEADER in next;
    assert |list| > 1 ==> list[1] + HEADER in next;
  }

  lemma ChainFrame(next: map<nat, nat>, head: nat, list: seq<nat>, h: nat, value: nat)
    requires Chained(next, head, list) && h !in list
    ensures Chained(next[h + HEADER := value], head, list)
  {
  }
}
