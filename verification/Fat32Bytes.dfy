/** How FAT entries and clusters sit in the bytes of the image, and that writing one of them leaves
    the others alone. */
module Fat32Bytes {
  import opened Fat32Disk
  import opened Fat32Layout

  const FIRST_FAT: nat := PARTITION_LBA + RESERVED

  /** Where a FAT copy's entry for a cluster starts. */
  function FatOffset(fatSectors: nat, second: bool, cluster: nat): nat {
    (FIRST_FAT + if second then fatSectors else 0) * SECTOR + cluster * 4
  }

  /** Where a cluster's bytes start. */
  function DataOffset(fatSectors: nat, cluster: nat): nat
    requires cluster >= ROOT_CLUSTER
  {
    (FIRST_FAT + FAT_COUNT * fatSectors + cluster - ROOT_CLUSTER) * SECTOR
  }

  /** Room in each FAT copy for an entry of every cluster, and in the image for every cluster. */
  predicate Spacious(length: nat, fatSectors: nat, clusters: nat) {
    && ROOT_CLUSTER < clusters <= 0x0FFF_FFF0
    && clusters * 4 <= fatSectors * SECTOR
    && (FIRST_FAT + FAT_COUNT * fatSectors + clusters - ROOT_CLUSTER) * SECTOR <= length
  }

  function FatEntry(image: Bytes, fatSectors: nat, second: bool, cluster: nat): (v: nat)
    requires FatOffset(fatSectors, second, cluster) + 4 <= |image|
    ensures v < 0x1_0000_0000
  {
    var at := FatOffset(fatSectors, second, cluster);
    FromLe32(image[at..at + 4])
  }

  function ClusterBytes(image: Bytes, fatSectors: nat, cluster: nat): (b: Bytes)
    requires cluster >= ROOT_CLUSTER && DataOffset(fatSectors, cluster) + SECTOR <= |image|
    ensures |b| == SECTOR
  {
    var at := DataOffset(fatSectors, cluster);
    image[at..at + SECTOR]
  }

  function FatOf(image: Bytes, fatSectors: nat, second: bool, clusters: nat): (fat: seq<nat>)
    requires Spacious(|image|, fatSectors, clusters)
    ensures |fat| == clusters
    ensures forall c :: 0 <= c < clusters ==> fat[c] == FatEntry(image, fatSectors, second, c)
  {
    seq(clusters, c requires 0 <= c < clusters => FatEntry(image, fatSectors, second, c))
  }

  function DataOf(image: Bytes, fatSectors: nat, clusters: nat): (data: seq<Bytes>)
    requires Spacious(|image|, fatSectors, clusters)
    ensures |data| == clusters
    ensures forall c :: 0 <= c < clusters ==>
      data[c] == if c < ROOT_CLUSTER then Zeros() else ClusterBytes(image, fatSectors, c)
  {
    seq(clusters, c requires 0 <= c < clusters => if c < ROOT_CLUSTER then Zeros() else ClusterBytes(image, fatSectors, c))
  }

  /** The bytes changed only from one place on, over one length. */
  predicate ChangedOnly(was: Bytes, now: Bytes, at: nat, length: nat) {
    |now| == |was| && forall i :: 0 <= i < |was| && !(at <= i < at + length) ==> now[i] == was[i]
  }

  lemma SliceSame(was: Bytes, now: Bytes, at: nat, length: nat, from: nat, to: nat)
    requires ChangedOnly(was, now, at, length) && from <= to <= |was| && (to <= at || at + length <= from)
    ensures now[from..to] == was[from..to]
  {
  }

  /** Writing one entry changes that entry of that copy, and nothing else. */
  lemma EntryWritten(was: Bytes, now: Bytes, fatSectors: nat, second: bool, cluster: nat, value: nat, clusters: nat)
    requires Spacious(|was|, fatSectors, clusters) && cluster < clusters && value < 0x1_0000_0000
    requires var at := FatOffset(fatSectors, second, cluster);
             at + 4 <= |was| && ChangedOnly(was, now, at, 4) && now[at..at + 4] == Le32(value)
    ensures FatOf(now, fatSectors, second, clusters) == FatOf(was, fatSectors, second, clusters)[cluster := value]
    ensures FatOf(now, fatSectors, !second, clusters) == FatOf(was, fatSectors, !second, clusters)
    ensures DataOf(now, fatSectors, clusters) == DataOf(was, fatSectors, clusters)
  {
    hide FromLe32, Le32, ChangedOnly, FatEntry, ClusterBytes;
    var other := !second;
    assert |now| == |was| by {
      SameLength(was, now, FatOffset(fatSectors, second, cluster), 4);
    }
    forall c: nat | c < clusters && c != cluster ensures FatEntry(now, fatSectors, second, c) == FatEntry(was, fatSectors, second, c) {
      OtherEntry(was, now, fatSectors, second, cluster, second, c, clusters);
    }
    forall c: nat | c < clusters ensures FatEntry(now, fatSectors, other, c) == FatEntry(was, fatSectors, other, c) {
      OtherEntry(was, now, fatSectors, second, cluster, other, c, clusters);
    }
    forall c: nat | ROOT_CLUSTER <= c < clusters ensures ClusterBytes(now, fatSectors, c) == ClusterBytes(was, fatSectors, c) {
      OtherCluster(was, now, fatSectors, second, cluster, c, clusters);
    }
    ThisEntry(now, fatSectors, second, cluster, value, clusters);
  }

  lemma SameLength(was: Bytes, now: Bytes, at: nat, length: nat)
    requires ChangedOnly(was, now, at, length)
    ensures |now| == |was|
  {
  }

  lemma ThisEntry(now: Bytes, fatSectors: nat, second: bool, cluster: nat, value: nat, clusters: nat)
    requires Spacious(|now|, fatSectors, clusters) && cluster < clusters && value < 0x1_0000_0000
    requires var at := FatOffset(fatSectors, second, cluster); at + 4 <= |now| && now[at..at + 4] == Le32(value)
    ensures FatEntry(now, fatSectors, second, cluster) == value
  {
    hide FromLe32, Le32;
    Le32RoundTrip(value);
  }

  lemma OtherEntry(was: Bytes, now: Bytes, fatSectors: nat, second: bool, cluster: nat, copy: bool, c: nat, clusters: nat)
    requires Spacious(|was|, fatSectors, clusters) && cluster < clusters && c < clusters && (copy != second || c != cluster)
    requires |now| == |was| && ChangedOnly(was, now, FatOffset(fatSectors, second, cluster), 4)
    ensures FatEntry(now, fatSectors, copy, c) == FatEntry(was, fatSectors, copy, c)
  {
    hide FromLe32;
    var o := FatOffset(fatSectors, copy, c);
    SliceSame(was, now, FatOffset(fatSectors, second, cluster), 4, o, o + 4);
  }

  lemma OtherCluster(was: Bytes, now: Bytes, fatSectors: nat, second: bool, cluster: nat, c: nat, clusters: nat)
    requires Spacious(|was|, fatSectors, clusters) && cluster < clusters && ROOT_CLUSTER <= c < clusters
    requires |now| == |was| && ChangedOnly(was, now, FatOffset(fatSectors, second, cluster), 4)
    ensures ClusterBytes(now, fatSectors, c) == ClusterBytes(was, fatSectors, c)
  {
    var o := DataOffset(fatSectors, c);
    SliceSame(was, now, FatOffset(fatSectors, second, cluster), 4, o, o + SECTOR);
  }

  /** Writing into a cluster changes no FAT entry and no other cluster. */
  lemma ClusterWritten(was: Bytes, now: Bytes, fatSectors: nat, cluster: nat, clusters: nat)
    requires Spacious(|was|, fatSectors, clusters) && ROOT_CLUSTER <= cluster < clusters
    requires ChangedOnly(was, now, DataOffset(fatSectors, cluster), SECTOR)
    ensures FatOf(now, fatSectors, false, clusters) == FatOf(was, fatSectors, false, clusters)
    ensures FatOf(now, fatSectors, true, clusters) == FatOf(was, fatSectors, true, clusters)
    ensures DataOf(now, fatSectors, clusters)
         == DataOf(was, fatSectors, clusters)[cluster := ClusterBytes(now, fatSectors, cluster)]
  {
    hide FromLe32;
    var at := DataOffset(fatSectors, cluster);
    forall c: nat, second: bool | c < clusters
      ensures FatEntry(now, fatSectors, second, c) == FatEntry(was, fatSectors, second, c)
    {
      var o := FatOffset(fatSectors, second, c);
      SliceSame(was, now, at, SECTOR, o, o + 4);
    }
    forall c: nat | ROOT_CLUSTER <= c < clusters && c != cluster
      ensures ClusterBytes(now, fatSectors, c) == ClusterBytes(was, fatSectors, c)
    {
      var o := DataOffset(fatSectors, c);
      SliceSame(was, now, at, SECTOR, o, o + SECTOR);
    }
  }

  /** The disk the bytes hold, read from one of the FAT copies. */
  function DiskOf(image: Bytes, fatSectors: nat, second: bool, clusters: nat, next: nat): (d: Disk)
    requires Spacious(|image|, fatSectors, clusters) && ROOT_CLUSTER < next <= clusters
    ensures Formed(d) && |d.fat| == clusters && d.next == next
  {
    Disk(FatOf(image, fatSectors, second, clusters), DataOf(image, fatSectors, clusters), next)
  }

  function Patched(c: Bytes, from: nat, bytes: Bytes): (r: Bytes)
    requires from + |bytes| <= |c|
    ensures |r| == |c|
  {
    c[..from] + bytes + c[from + |bytes|..]
  }

  /** What a write into a sector leaves in it. */
  lemma SectorWritten(was: Bytes, now: Bytes, at: nat, from: nat, bytes: Bytes)
    requires at + SECTOR <= |was| && from + |bytes| <= SECTOR
    requires ChangedOnly(was, now, at + from, |bytes|) && now[at + from..at + from + |bytes|] == bytes
    ensures ChangedOnly(was, now, at, SECTOR)
    ensures now[at..at + SECTOR] == Patched(was[at..at + SECTOR], from, bytes)
  {
    var c := was[at..at + SECTOR];
    var r := Patched(c, from, bytes);
    var n := now[at..at + SECTOR];
    forall i | 0 <= i < SECTOR ensures n[i] == r[i] {
      if from <= i < from + |bytes| {
        assert now[at + i] == now[at + from..at + from + |bytes|][i - from];
      }
    }
  }

  /** A write into a cluster, seen on the disk. */
  lemma PatchSeen(was: Bytes, now: Bytes, fatSectors: nat, second: bool, clusters: nat, next: nat,
                  cluster: nat, from: nat, bytes: Bytes)
    requires Spacious(|was|, fatSectors, clusters) && ROOT_CLUSTER < next <= clusters && ROOT_CLUSTER <= cluster < clusters
    requires from + |bytes| <= SECTOR
    requires var at := DataOffset(fatSectors, cluster) + from;
             at + |bytes| <= |was| && ChangedOnly(was, now, at, |bytes|) && now[at..at + |bytes|] == bytes
    ensures var d := DiskOf(was, fatSectors, second, clusters, next);
            DiskOf(now, fatSectors, second, clusters, next)
            == d.(data := d.data[cluster := Patched(d.data[cluster], from, bytes)])
  {
    hide ChangedOnly;
    SectorWritten(was, now, DataOffset(fatSectors, cluster), from, bytes);
    ClusterWritten(was, now, fatSectors, cluster, clusters);
  }

  /** An entry write, seen on the disk. */
  lemma EntrySeen(was: Bytes, now: Bytes, fatSectors: nat, copy: bool, second: bool, clusters: nat, next: nat,
                  cluster: nat, value: nat)
    requires Spacious(|was|, fatSectors, clusters) && ROOT_CLUSTER < next <= clusters
    requires cluster < clusters && value < 0x1_0000_0000
    requires var at := FatOffset(fatSectors, copy, cluster);
             at + 4 <= |was| && ChangedOnly(was, now, at, 4) && now[at..at + 4] == Le32(value)
    ensures var d := DiskOf(was, fatSectors, second, clusters, next);
            DiskOf(now, fatSectors, second, clusters, next) == if copy == second then SetFat(d, cluster, value) else d
  {
    hide ChangedOnly, Le32;
    EntryWritten(was, now, fatSectors, copy, cluster, value, clusters);
  }
}
