/** What a block header says, and sums of its parts over lists of blocks. */
module HeapBlocks {
  import opened Collections
  import opened HeapLayout

  const OBJECT_CACHE_COUNT: nat := 8
  const SLAB_CACHE_COUNT: nat := 4
  const NO_OBJECT_CACHE: nat := 0xFFFFFFFF

  datatype Magic = RawMagic | SlabMagic

  /** One header without its links. */
  datatype Info = Info(
    magic: Magic,
    size: nat,
    requested: nat,
    free: bool,
    critical: bool,
    objectFlag: bool,
    slabCache: nat,
    objectCache: nat)

  type Blocks = map<nat, Info>

  function Sizes(blocks: Blocks): map<nat, nat> {
    map a | a in blocks :: blocks[a].size
  }

  /** The quantities the heap counts, block by block. */
  datatype Measure =
    | Allocated
    | Requested
    | Active
    | FreeSize
    | Span
    | FreeIn(cache: nat)
    | ActiveIn(cache: nat)
    | ObjectIn(objects: nat)

  function Of(m: Measure, b: Info): nat {
    match m
    case Allocated => if b.free then 0 else b.size
    case Requested => if b.free then 0 else b.requested
    case Active => if b.free then 0 else 1
    case FreeSize => if b.free then b.size else 0
    case Span => b.size + HEADER
    case FreeIn(c) => if b.free && b.slabCache == c then 1 else 0
    case ActiveIn(c) => if !b.free && b.slabCache == c then 1 else 0
    case ObjectIn(k) => if b.objectFlag && b.objectCache == k then 1 else 0
  }

  ghost function Sum(m: Measure, blocks: Blocks, list: seq<nat>): nat
    requires forall a :: a in list ==> a in blocks
  {
    if list == [] then 0 else Of(m, blocks[list[0]]) + Sum(m, blocks, list[1..])
  }

  lemma {:induction false} SumAppend(m: Measure, blocks: Blocks, l: seq<nat>, r: seq<nat>)
    requires forall a :: a in l ==> a in blocks
    requires forall a :: a in r ==> a in blocks
    ensures forall a :: a in l + r ==> a in blocks
    ensures Sum(m, blocks, l + r) == Sum(m, blocks, l) + Sum(m, blocks, r)
  {
    if l == [] {
      assert l + r == r;
    } else {
      assert (l + r)[1..] == l[1..] + r;
      SumAppend(m, blocks, l[1..], r);
    }
  }

  /** Blocks outside the list, and equal quantities inside it, do not matter. */
  lemma {:induction false} SumFrame(m: Measure, b: Blocks, c: Blocks, list: seq<nat>)
    requires forall a :: a in list ==> a in b && a in c && Of(m, b[a]) == Of(m, c[a])
    ensures Sum(m, b, list) == Sum(m, c, list)
  {
    if list != [] {
      assert list[0] in list;
      SumFrame(m, b, c, list[1..]);
    }
  }

  /** Changing one block of the list changes the sum by the difference. */
  lemma SumUpdate(m: Measure, b: Blocks, list: seq<nat>, i: nat, info: Info)
    requires NoDuplicates(list) && i < |list|
    requires forall a :: a in list ==> a in b
    ensures Sum(m, b[list[i] := info], list) == Sum(m, b, list) - Of(m, b[list[i]]) + Of(m, info)
    ensures Sum(m, b, list) >= Of(m, b[list[i]])
  {
    var c := b[list[i] := info];
    var l, r := list[..i], list[i + 1..];
    assert list == l + ([list[i]] + r);
    SumAppend(m, b, l, [list[i]] + r);
    SumAppend(m, c, l, [list[i]] + r);
    SumAppend(m, b, [list[i]], r);
    SumAppend(m, c, [list[i]], r);
    SumFrame(m, b, c, l);
    SumFrame(m, b, c, r);
  }

  lemma SumOne(m: Measure, b: Blocks, a: nat)
    requires a in b
    ensures Sum(m, b, [a]) == Of(m, b[a])
  {
  }

  function InsertAt(list: seq<nat>, i: nat, a: nat): seq<nat>
    requires i <= |list|
  {
    list[..i] + [a] + list[i..]
  }

  function RemoveAt(list: seq<nat>, i: nat): seq<nat>
    requires i < |list|
  {
    list[..i] + list[i + 1..]
  }

  lemma SumInsert(m: Measure, b: Blocks, list: seq<nat>, i: nat, a: nat)
    requires i <= |list| && a in b
    requires forall x :: x in list ==> x in b
    ensures forall x :: x in InsertAt(list, i, a) ==> x in b
    ensures Sum(m, b, InsertAt(list, i, a)) == Sum(m, b, list) + Of(m, b[a])
  {
    assert list == list[..i] + list[i..];
    SumAppend(m, b, list[..i], list[i..]);
    SumAppend(m, b, list[..i], [a]);
    SumAppend(m, b, list[..i] + [a], list[i..]);
    SumOne(m, b, a);
  }

  lemma SumRemove(m: Measure, b: Blocks, list: seq<nat>, i: nat)
    requires i < |list|
    requires forall x :: x in list ==> x in b
    ensures forall x :: x in RemoveAt(list, i) ==> x in b
    ensures Sum(m, b, RemoveAt(list, i)) == Sum(m, b, list) - Of(m, b[list[i]])
  {
    assert InsertAt(RemoveAt(list, i), i, list[i]) == list;
    SumInsert(m, b, RemoveAt(list, i), i, list[i]);
  }

  lemma InsertMembers(list: seq<nat>, i: nat, a: nat)
    requires i <= |list|
    ensures Members(InsertAt(list, i, a)) == Members(list) + {a}
    ensures NoDuplicates(list) && a !in list ==> NoDuplicates(InsertAt(list, i, a))
  {
    var t := InsertAt(list, i, a);
    assert t[i] == a;
    assert list == list[..i] + list[i..];
  }

  lemma RemoveMembers(list: seq<nat>, i: nat)
    requires i < |list| && NoDuplicates(list)
    ensures Members(RemoveAt(list, i)) == Members(list) - {list[i]}
    ensures NoDuplicates(RemoveAt(list, i))
  {
    assert list == list[..i] + [list[i]] + list[i + 1..];
  }
}
