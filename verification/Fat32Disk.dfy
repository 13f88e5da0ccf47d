/** The FAT32 image at the level of FAT entries and clusters: allocation of chains, directory entries,
    file data, and a reader that only follows entries and chains. */
module Fat32Disk {

  const CLUSTER_SIZE: nat := 512
  const ROOT_CLUSTER: nat := 2
  const END_OF_CHAIN: nat := 0x0FFF_FFFF
  const MEDIA: nat := 0x0FFF_FFF8
  const ENTRY: nat := 32
  const ENTRIES: nat := 16
  const DIRECTORY: Byte := 0x10
  const ARCHIVE: Byte := 0x20
  const LARGEST_FILE: nat := 32 * 1024 * 1024

  type Byte = x: int | 0 <= x < 256
  type Bytes = seq<Byte>

  datatype Option<T> = None | Some(value: T)

  function Prepend<T>(front: seq<T>, rest: Option<seq<T>>): Option<seq<T>> {
    if rest.None? then None else Some(front + rest.value)
  }

  // ----- Little-endian numbers -----

  function Le16(v: nat): (b: Bytes)
    requires v < 0x1_0000
    ensures |b| == 2
  {
    [v % 256, v / 256]
  }

  function FromLe16(b: Bytes): nat
    requires |b| == 2
  {
    (b[0] as int) + 256 * (b[1] as int)
  }

  function Le32(v: nat): (b: Bytes)
    requires v < 0x1_0000_0000
    ensures |b| == 4
  {
    [v % 256, v / 256 % 256, v / 0x1_0000 % 256, v / 0x100_0000]
  }

  function FromLe32(b: Bytes): (v: nat)
    requires |b| == 4
    ensures v < 0x1_0000_0000
  {
    (b[0] as int) + 256 * (b[1] as int) + 0x1_0000 * (b[2] as int) + 0x100_0000 * (b[3] as int)
  }

  lemma Le16RoundTrip(v: nat)
    requires v < 0x1_0000
    ensures FromLe16(Le16(v)) == v
  {
  }

  lemma Le32RoundTrip(v: nat)
    requires v < 0x1_0000_0000
    ensures FromLe32(Le32(v)) == v
  {
    var a, b := v / 256, v / 0x1_0000;
    assert a / 256 == b by {
      assert v == 256 * a + v % 256 && v == 0x1_0000 * b + v % 0x1_0000;
    }
    assert b / 256 == v / 0x100_0000 by {
      assert v == 0x1_0000 * b + v % 0x1_0000 && v == 0x100_0000 * (v / 0x100_0000) + v % 0x100_0000;
    }
  }

  // ----- The disk -----

  datatype Disk = Disk(fat: seq<nat>, data: seq<Bytes>, next: nat)

  predicate Formed(d: Disk) {
    && |d.fat| == |d.data| <= 0x0FFF_FFF0
    && ROOT_CLUSTER < d.next <= |d.fat|
    && (forall c :: 0 <= c < |d.fat| ==> d.fat[c] < 0x1_0000_0000)
    && (forall c :: 0 <= c < |d.data| ==> |d.data[c]| == CLUSTER_SIZE)
  }

  function Zeros(): (r: Bytes)
    ensures |r| == CLUSTER_SIZE
  {
    seq(CLUSTER_SIZE, _ => 0)
  }

  function SetFat(d: Disk, cluster: nat, value: nat): Disk
    requires cluster < |d.fat|
  {
    d.(fat := d.fat[cluster := value])
  }

  function AllocateCluster(d: Disk): Disk
    requires d.next < |d.fat| == |d.data|
  {
    SetFat(d, d.next, END_OF_CHAIN).(data := d.data[d.next := Zeros()], next := d.next + 1)
  }

  /** How many clusters a file of this size takes: at least one. */
  function ChainLength(size: nat): (n: nat)
    ensures n >= 1
    ensures n * CLUSTER_SIZE >= size
    ensures n > 1 ==> (n - 1) * CLUSTER_SIZE < size
  {
    ((if size == 0 then 1 else size) + CLUSTER_SIZE - 1) / CLUSTER_SIZE
  }

  function ChainLink(first: nat, n: nat, i: nat): nat {
    if i + 1 == n then END_OF_CHAIN else first + i + 1
  }

  function ChainLinks(first: nat, n: nat): (r: seq<nat>)
    ensures |r| == n
  {
    seq(n, i requires 0 <= i < n => ChainLink(first, n, i))
  }

  /** A fresh chain: n clusters in a row, zeroed, each entry naming the next and the last one ending
      the chain. */
  function AllocateChain(d: Disk, n: nat): Disk
    requires d.next + n <= |d.fat| == |d.data|
  {
    Disk(d.fat[..d.next] + ChainLinks(d.next, n) + d.fat[d.next + n..],
         d.data[..d.next] + seq(n, _ => Zeros()) + d.data[d.next + n..],
         d.next + n)
  }

  predicate LinkAt(fat: seq<nat>, first: nat, n: nat, i: nat)
    requires first + n <= |fat| && i < n
  {
    fat[first + i] == ChainLink(first, n, i)
  }

  /** The entries from first on make a chain of exactly n clusters. */
  predicate IsChain(fat: seq<nat>, first: nat, n: nat) {
    && n >= 1 && ROOT_CLUSTER <= first && first + n <= |fat|
    && forall i: nat {:trigger LinkAt(fat, first, n, i)} :: i < n ==> LinkAt(fat, first, n, i)
  }

  // ----- Following a chain -----

  /** The clusters of a chain, found by following entries until one ends it; none if an entry leads
      off the disk, or the chain is longer than the FAT. */
  function Follow(fat: seq<nat>, cluster: nat, fuel: nat): Option<seq<nat>>
    decreases fuel
  {
    if fuel == 0 || cluster < ROOT_CLUSTER || cluster >= |fat| then None
    else
      var after := fat[cluster] % 0x1000_0000;
      if after >= 0x0FFF_FFF8 then Some([cluster]) else Prepend([cluster], Follow(fat, after, fuel - 1))
  }

  lemma {:induction false} ChainFollowed(fat: seq<nat>, first: nat, n: nat, fuel: nat)
    requires IsChain(fat, first, n) && fuel >= n && |fat| <= 0x0FFF_FFF0
    ensures Follow(fat, first, fuel) == Some(seq(n, i => first + i))
    decreases n
  {
    assert LinkAt(fat, first, n, 0);
    var whole := seq(n, i => first + i);
    if n > 1 {
      ChainTail(fat, first, n);
      ChainFollowed(fat, first + 1, n - 1, fuel - 1);
      assert whole == [first] + seq(n - 1, i => first + 1 + i);
    } else {
      assert whole == [first];
    }
  }

  lemma FirstLink(fat: seq<nat>, first: nat, n: nat)
    requires IsChain(fat, first, n)
    ensures n >= 1 && ROOT_CLUSTER <= first && first + n <= |fat|
    ensures fat[first] == if n == 1 then END_OF_CHAIN else first + 1
  {
    assert LinkAt(fat, first, n, 0);
  }

  lemma ChainTail(fat: seq<nat>, first: nat, n: nat)
    requires IsChain(fat, first, n) && n > 1
    ensures IsChain(fat, first + 1, n - 1) && fat[first] == first + 1
  {
    assert LinkAt(fat, first, n, 0);
    var second, rest := first + 1, n - 1;
    forall i: nat | i < rest ensures LinkAt(fat, second, rest, i) {
      assert LinkAt(fat, first, n, i + 1);
    }
  }

  lemma ChainUnchanged(fat: seq<nat>, other: seq<nat>, first: nat, n: nat)
    requires IsChain(fat, first, n) && |other| == |fat|
    requires forall c :: first <= c < first + n ==> other[c] == fat[c]
    ensures IsChain(other, first, n)
  {
    forall i: nat | i < n ensures LinkAt(other, first, n, i) {
      assert LinkAt(fat, first, n, i);
    }
  }

  /** A fresh chain is a chain of the clusters past the last one taken, and nothing before it changes. */
  lemma AllocateChainExact(d: Disk, n: nat)
    requires Formed(d) && n >= 1 && d.next + n <= |d.fat|
    ensures var e := AllocateChain(d, n);
            && Formed(e) && e.next == d.next + n && |e.fat| == |d.fat| && IsChain(e.fat, d.next, n)
            && (forall c :: 0 <= c < |d.fat| && !(d.next <= c < d.next + n) ==> e.fat[c] == d.fat[c] && e.data[c] == d.data[c])
            && (forall c :: d.next <= c < d.next + n ==> e.data[c] == Zeros())
  {
    var e := AllocateChain(d, n);
    forall i: nat | i < n ensures LinkAt(e.fat, d.next, n, i) {
    }
  }

  lemma AllocateClusterExact(d: Disk)
    requires Formed(d) && d.next < |d.fat|
    ensures AllocateCluster(d) == AllocateChain(d, 1)
  {
    var e := AllocateChain(d, 1);
    assert AllocateCluster(d).fat == e.fat;
    assert AllocateCluster(d).data == e.data;
  }

  // ----- File data -----

  function Overlay(cluster: Bytes, bytes: Bytes): (r: Bytes)
    requires |bytes| <= |cluster|
    ensures |r| == |cluster|
  {
    bytes + cluster[|bytes|..]
  }

  function PutData(d: Disk, cluster: nat, bytes: Bytes): Disk
    requires cluster < |d.data| && |bytes| <= |d.data[cluster]|
  {
    d.(data := d.data[cluster := Overlay(d.data[cluster], bytes)])
  }

  function Piece(size: nat): nat {
    if size > CLUSTER_SIZE then CLUSTER_SIZE else size
  }

  /** The bytes go out a cluster at a time, following the chain. */
  function WriteFile(d: Disk, cluster: nat, bytes: Bytes): Disk
    decreases |bytes|
  {
    if cluster >= END_OF_CHAIN || bytes == [] || cluster >= |d.fat| || cluster >= |d.data| || |d.data[cluster]| != CLUSTER_SIZE
    then d
    else
      var k := Piece(|bytes|);
      WriteFile(PutData(d, cluster, bytes[..k]), d.fat[cluster] % 0x1000_0000, bytes[k..])
  }

  /** The reader: a cluster at a time, until the size is reached. */
  function Read(d: Disk, cluster: nat, size: nat): Option<Bytes>
    decreases size
  {
    if size == 0 then Some([])
    else if cluster < ROOT_CLUSTER || cluster >= |d.fat| || cluster >= |d.data| || |d.data[cluster]| != CLUSTER_SIZE then None
    else
      Prepend(d.data[cluster][..Piece(size)], Read(d, d.fat[cluster] % 0x1000_0000, size - Piece(size)))
  }

  /** One cluster is written, and then the rest goes to the rest of the chain. */
  lemma WriteStep(d: Disk, first: nat, n: nat, bytes: Bytes)
    requires Formed(d) && IsChain(d.fat, first, n) && bytes != []
    ensures first < |d.data| && |d.data[first]| == CLUSTER_SIZE && Piece(|bytes|) <= CLUSTER_SIZE
    ensures var k := Piece(|bytes|);
            WriteFile(d, first, bytes)
            == WriteFile(PutData(d, first, bytes[..k]), if n == 1 then END_OF_CHAIN else first + 1, bytes[k..])
  {
    hide PutData, IsChain, WriteFile, Formed;
    FirstLink(d.fat, first, n);
    ClusterOf(d, first);
    WriteUnfold(d, first, bytes);
  }

  lemma ClusterOf(d: Disk, cluster: nat)
    requires Formed(d) && cluster < |d.fat|
    ensures cluster < |d.data| && |d.data[cluster]| == CLUSTER_SIZE && cluster < END_OF_CHAIN
  {
  }

  lemma WriteUnfold(d: Disk, cluster: nat, bytes: Bytes)
    requires bytes != [] && cluster < END_OF_CHAIN && cluster < |d.fat| && cluster < |d.data| && |d.data[cluster]| == CLUSTER_SIZE
    ensures Piece(|bytes|) <= CLUSTER_SIZE
    ensures var k := Piece(|bytes|);
            WriteFile(d, cluster, bytes) == WriteFile(PutData(d, cluster, bytes[..k]), d.fat[cluster] % 0x1000_0000, bytes[k..])
  {
    hide PutData;
  }

  /** Writing a file changes the clusters of its chain and no FAT entry. */
  lemma {:induction false} WriteFileFrame(d: Disk, first: nat, n: nat, bytes: Bytes)
    requires Formed(d) && IsChain(d.fat, first, n)
    ensures var e := WriteFile(d, first, bytes);
            && Formed(e) && e.fat == d.fat && e.next == d.next
            && (forall c :: 0 <= c < |d.data| && !(first <= c < first + n) ==> e.data[c] == d.data[c])
    decreases |bytes|
  {
    hide IsChain, Formed, WriteFile;
    if bytes != [] {
      WriteStep(d, first, n, bytes);
      FirstLink(d.fat, first, n);
      var k := Piece(|bytes|);
      var e := PutData(d, first, bytes[..k]);
      PutDataExact(d, first, bytes[..k]);
      if n > 1 {
        ChainTail(d.fat, first, n);
        WriteFileFrame(e, first + 1, n - 1, bytes[k..]);
      } else {
        WriteEnds(e, END_OF_CHAIN, bytes[k..]);
      }
    } else {
      WriteEnds(d, first, bytes);
    }
  }

  /** What is read depends only on the FAT and on the clusters of the chain. */
  lemma {:induction false} ReadSame(d: Disk, e: Disk, first: nat, n: nat, size: nat)
    requires Formed(d) && Formed(e) && IsChain(d.fat, first, n) && size <= n * CLUSTER_SIZE && |e.fat| == |d.fat|
    requires forall c :: first <= c < first + n ==> e.fat[c] == d.fat[c] && e.data[c] == d.data[c]
    ensures Read(e, first, size) == Read(d, first, size)
    decreases size
  {
    if size != 0 {
      if n > 1 {
        ChainTail(d.fat, first, n);
        ReadSame(d, e, first + 1, n - 1, size - Piece(size));
      } else {
        assert LinkAt(d.fat, first, n, 0);
      }
    }
  }

  lemma WriteEnds(d: Disk, cluster: nat, bytes: Bytes)
    requires cluster >= END_OF_CHAIN || bytes == []
    ensures WriteFile(d, cluster, bytes) == d
  {
  }

  lemma ReadStep(d: Disk, first: nat, n: nat, size: nat)
    requires Formed(d) && IsChain(d.fat, first, n) && size > 0
    ensures first < |d.data| && |d.data[first]| == CLUSTER_SIZE && Piece(size) <= CLUSTER_SIZE
    ensures Read(d, first, size)
         == Prepend(d.data[first][..Piece(size)], Read(d, if n == 1 then END_OF_CHAIN else first + 1, size - Piece(size)))
  {
    FirstLink(d.fat, first, n);
  }

  lemma PutDataExact(d: Disk, first: nat, piece: Bytes)
    requires Formed(d) && first < |d.data| && |piece| <= CLUSTER_SIZE
    ensures var e := PutData(d, first, piece); Formed(e) && e.fat == d.fat && e.data[first][..|piece|] == piece
  {
  }

  /** What was written is read back, whatever the size. */
  lemma {:induction false} ReadBack(d: Disk, first: nat, n: nat, bytes: Bytes)
    requires Formed(d) && IsChain(d.fat, first, n) && |bytes| <= n * CLUSTER_SIZE
    ensures Read(WriteFile(d, first, bytes), first, |bytes|) == Some(bytes)
    decreases |bytes|
  {
    hide IsChain, Formed, WriteFile, PutData;
    if bytes == [] {
      assert WriteFile(d, first, bytes) == d by { NothingToWrite(d, first); }
    } else {
      var k := Piece(|bytes|);
      WriteStep(d, first, n, bytes);
      var e := PutData(d, first, bytes[..k]);
      PutDataExact(d, first, bytes[..k]);
      WriteFileFrame(d, first, n, bytes);
      ReadStep(WriteFile(d, first, bytes), first, n, |bytes|);
      assert bytes == bytes[..k] + bytes[k..];
      if n > 1 {
        ChainTail(d.fat, first, n);
        ReadBack(e, first + 1, n - 1, bytes[k..]);
        WriteFileFrame(e, first + 1, n - 1, bytes[k..]);
      } else {
        NothingToWrite(e, END_OF_CHAIN);
      }
    }
  }

  /** More than the chain holds cannot be read: the reader notices that the chain ends. */
  lemma {:induction false} ReadTooLong(d: Disk, first: nat, n: nat, size: nat)
    requires Formed(d) && IsChain(d.fat, first, n) && size > n * CLUSTER_SIZE
    ensures Read(d, first, size) == None
    decreases n
  {
    hide IsChain, Formed, Read;
    FirstLink(d.fat, first, n);
    ReadStep(d, first, n, size);
    if n > 1 {
      ChainTail(d.fat, first, n);
      ReadTooLong(d, first + 1, n - 1, size - Piece(size));
    } else {
      ReadEnded(d, size - Piece(size));
    }
  }

  lemma ReadEnded(d: Disk, size: nat)
    requires Formed(d) && size > 0
    ensures Read(d, END_OF_CHAIN, size) == None
  {
  }

  /** So a file is read back exactly when its chain is long enough for it. */
  lemma ReadBackExact(d: Disk, first: nat, n: nat, bytes: Bytes)
    requires Formed(d) && IsChain(d.fat, first, n)
    ensures Read(WriteFile(d, first, bytes), first, |bytes|) == Some(bytes) <==> |bytes| <= n * CLUSTER_SIZE
  {
    hide IsChain, Formed, Read, WriteFile;
    if |bytes| <= n * CLUSTER_SIZE {
      ReadBack(d, first, n, bytes);
    } else {
      WriteFileFrame(d, first, n, bytes);
      ReadTooLong(WriteFile(d, first, bytes), first, n, |bytes|);
    }
  }

  lemma NothingToWrite(d: Disk, cluster: nat)
    ensures WriteFile(d, cluster, []) == d && Read(d, cluster, 0) == Some([])
  {
  }

  // ----- Directory entries -----

  datatype Entry = Entry(name: Bytes, attributes: Byte, cluster: nat, size: nat)

  function Field(text: Bytes, width: nat): (r: Bytes)
    ensures |r| == width
  {
    seq(width, i requires 0 <= i < width => if i < |text| then text[i] else 32)
  }

  /** The eleven bytes of a name: base and extension cut to width and filled up with spaces. */
  function FillName(base: Bytes, extension: Bytes): (r: Bytes)
    ensures |r| == 11
  {
    Field(base, 8) + Field(extension, 3)
  }

  /** The bytes of a name, one by one. */
  lemma FillNameIs(base: Bytes, extension: Bytes, i: nat)
    requires i < 11
    ensures i < 8 ==> FillName(base, extension)[i] == if i < |base| then base[i] else 32
    ensures i >= 8 ==> FillName(base, extension)[i] == if i - 8 < |extension| then extension[i - 8] else 32
  {
  }

  function SetEntry(directory: Bytes, index: nat, e: Entry): (r: Bytes)
    requires |directory| == CLUSTER_SIZE && index < ENTRIES
    requires |e.name| == 11 && e.cluster < 0x1_0000_0000 && e.size < 0x1_0000_0000
    ensures |r| == CLUSTER_SIZE
  {
    var at := index * ENTRY;
    directory[..at] + e.name + [e.attributes] + directory[at + 12..at + 20] + Le16(e.cluster / 0x1_0000)
    + directory[at + 22..at + 26] + Le16(e.cluster % 0x1_0000) + Le32(e.size) + directory[at + 32..]
  }

  function EntryAt(directory: Bytes, index: nat): Entry
    requires |directory| == CLUSTER_SIZE && index < ENTRIES
  {
    var at := index * ENTRY;
    Entry(directory[at..at + 11], directory[at + 11],
          0x1_0000 * FromLe16(directory[at + 20..at + 22]) + FromLe16(directory[at + 26..at + 28]),
          FromLe32(directory[at + 28..at + 32]))
  }

  /** An entry that is written is read back, and the other entries stay. */
  lemma EntryRoundTrip(directory: Bytes, index: nat, e: Entry, other: nat)
    requires |directory| == CLUSTER_SIZE && index < ENTRIES && other < ENTRIES
    requires |e.name| == 11 && e.cluster < 0x1_0000_0000 && e.size < 0x1_0000_0000
    ensures EntryAt(SetEntry(directory, index, e), other) == if other == index then e else EntryAt(directory, other)
  {
    hide Le16, Le32, FromLe16, FromLe32;
    var r := SetEntry(directory, index, e);
    var at := index * ENTRY;
    if other == index {
      assert r[at..at + 11] == e.name;
      assert r[at + 11] == e.attributes;
      assert r[at + 20..at + 22] == Le16(e.cluster / 0x1_0000);
      assert r[at + 26..at + 28] == Le16(e.cluster % 0x1_0000);
      assert r[at + 28..at + 32] == Le32(e.size);
      Le16RoundTrip(e.cluster / 0x1_0000);
      Le16RoundTrip(e.cluster % 0x1_0000);
      Le32RoundTrip(e.size);
    } else {
      var to := other * ENTRY;
      assert r[to..to + 32] == directory[to..to + 32];
      SliceOf(r, directory, to);
    }
  }

  lemma SliceOf(r: Bytes, s: Bytes, to: nat)
    requires to + 32 <= |r| == |s| && r[to..to + 32] == s[to..to + 32]
    ensures r[to..to + 11] == s[to..to + 11] && r[to + 11] == s[to + 11] && r[to + 20..to + 22] == s[to + 20..to + 22]
    ensures r[to + 26..to + 28] == s[to + 26..to + 28] && r[to + 28..to + 32] == s[to + 28..to + 32]
  {
    forall k | to <= k < to + 32 ensures r[k] == s[k] {
      assert r[k] == r[to..to + 32][k - to];
    }
  }
}
