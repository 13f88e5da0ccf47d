/** The image writer as it works: bytes in one buffer, FAT entries set in both copies, clusters taken
    by bumping a counter, file data copied along the chain. */
module Fat32Writer {
  import opened Fat32Disk
  import opened Fat32Layout
  import opened Fat32Image
  import opened Fat32Bytes
  import opened Fat32Headers

  /** The layout loop. It ends for every partition on which it can end at all. */
  method ComputeFatLayout(partition: nat) returns (fatSectors: nat, clusters: nat)
    requires Sized(partition) && Settles(partition)
    ensures Settled(partition, fatSectors) && fatSectors == Target(partition)
    ensures clusters == Clusters(partition, fatSectors)
  {
    hide Measure, Target;
    fatSectors := 1;
    while true
      invariant Room(partition, fatSectors)
      decreases Measure(partition, fatSectors)
    {
      var dataSectors := partition - RESERVED - FAT_COUNT * fatSectors;
      clusters := dataSectors;
      var required := DivideRoundUp((clusters + 2) * 4, SECTOR);
      SettledIsTarget(partition, fatSectors);
      if required == fatSectors {
        return;
      }
      StepCloses(partition, fatSectors);
      fatSectors := required;
    }
  }

  class Writer {
    const image: array<Byte>
    var PartitionSectors: nat
    var FatSectors: nat
    var FirstFatLba: nat
    var FirstDataLba: nat
    var NextCluster: nat
    var ClusterCount: nat

    predicate Placed()
      reads this
    {
      && Spacious(image.Length, FatSectors, ClusterCount + 2)
      && FirstFatLba == FIRST_FAT && FirstDataLba == FIRST_FAT + FAT_COUNT * FatSectors
      && ROOT_CLUSTER < NextCluster <= ClusterCount + 2
    }

    /** The disk as the first or the second FAT copy shows it. */
    function Copy(second: bool): Disk
      requires Placed()
      reads this, image
    {
      DiskOf(image[..], FatSectors, second, ClusterCount + 2, NextCluster)
    }

    function View(): Disk
      requires Placed()
      reads this, image
    {
      Copy(false)
    }

    /** Both FAT copies agree. */
    predicate Valid()
      reads this, image
    {
      Placed() && Copy(true) == Copy(false)
    }

    /** Everything before the first FAT copy. */
    function Header(): Bytes
      requires Placed()
      reads this, image
    {
      image[..FIRST_FAT * SECTOR]
    }

    twostate predicate SameLayout()
      reads this
    {
      && PartitionSectors == old(PartitionSectors) && FatSectors == old(FatSectors)
      && FirstFatLba == old(FirstFatLba) && FirstDataLba == old(FirstDataLba) && ClusterCount == old(ClusterCount)
    }

    method PutBytes(at: nat, bytes: Bytes)
      requires at + |bytes| <= image.Length
      modifies image
      ensures ChangedOnly(old(image[..]), image[..], at, |bytes|) && image[at..at + |bytes|] == bytes
    {
      ghost var was := image[..];
      var i := 0;
      while i < |bytes|
        invariant i <= |bytes|
        invariant forall k :: 0 <= k < image.Length ==>
          image[k] == if at <= k < at + i then bytes[k - at] else was[k]
      {
        image[at + i] := bytes[i];
        i := i + 1;
      }
    }

    /** One value in both FAT copies. */
    method SetFat(cluster: nat, value: nat)
      requires Placed() && cluster < ClusterCount + 2 && value < 0x1_0000_0000
      modifies image
      ensures Placed() && View() == Fat32Disk.SetFat(old(View()), cluster, value) && Header() == old(Header())
      ensures old(Valid()) ==> Valid()
    {
      hide DiskOf, Le32, ChangedOnly, Fat32Disk.SetFat, Formed;
      ghost var first, second := Copy(false), Copy(true);
      ghost var header := Header();
      var fat := 0;
      while fat < FAT_COUNT
        invariant fat <= FAT_COUNT && Header() == header
        invariant Copy(false) == if fat > 0 then Fat32Disk.SetFat(first, cluster, value) else first
        invariant Copy(true) == if fat > 1 then Fat32Disk.SetFat(second, cluster, value) else second
      {
        var at := (FirstFatLba + fat * FatSectors) * SECTOR + cluster * 4;
        assert at == FatOffset(FatSectors, fat == 1, cluster);
        ghost var was := image[..];
        PutBytes(at, Le32(value));
        EntrySeen(was, image[..], FatSectors, fat == 1, false, ClusterCount + 2, NextCluster, cluster, value);
        EntrySeen(was, image[..], FatSectors, fat == 1, true, ClusterCount + 2, NextCluster, cluster, value);
        HeaderKept(was, image[..], at, 4);
        fat := fat + 1;
      }
    }

    static lemma HeaderKept(was: Bytes, now: Bytes, at: nat, length: nat)
      requires ChangedOnly(was, now, at, length) && FIRST_FAT * SECTOR <= at && FIRST_FAT * SECTOR <= |was|
      ensures now[..FIRST_FAT * SECTOR] == was[..FIRST_FAT * SECTOR]
    {
    }

    /** Bytes into a cluster, from a place in it. */
    method PutCluster(cluster: nat, from: nat, bytes: Bytes)
      requires Placed() && ROOT_CLUSTER <= cluster < ClusterCount + 2 && from + |bytes| <= SECTOR
      modifies image
      ensures Placed() && Header() == old(Header()) && (old(Valid()) ==> Valid())
      ensures var d := old(View()); View() == d.(data := d.data[cluster := Patched(d.data[cluster], from, bytes)])
    {
      hide DiskOf, ChangedOnly, Patched;
      var at := (FirstDataLba + (cluster - 2)) * SECTOR + from;
      ghost var was := image[..];
      PutBytes(at, bytes);
      PatchSeen(was, image[..], FatSectors, false, ClusterCount + 2, NextCluster, cluster, from, bytes);
      PatchSeen(was, image[..], FatSectors, true, ClusterCount + 2, NextCluster, cluster, from, bytes);
      HeaderKept(was, image[..], at, |bytes|);
    }

    method InitializeFat()
      requires Placed()
      modifies image
      ensures Placed() && Header() == old(Header()) && (old(Valid()) ==> Valid())
      ensures var d := old(View());
              View() == Fat32Disk.SetFat(Fat32Disk.SetFat(Fat32Disk.SetFat(d, 0, MEDIA), 1, END_OF_CHAIN), ROOT_CLUSTER, END_OF_CHAIN)
    {
      hide DiskOf;
      SetFat(0, MEDIA);
      SetFat(1, END_OF_CHAIN);
      SetFat(ROOT_CLUSTER, END_OF_CHAIN);
    }

    method AllocateCluster() returns (cluster: nat)
      requires Valid() && NextCluster < ClusterCount + 2
      modifies this, image
      ensures Valid() && SameLayout() && Header() == old(Header())
      ensures cluster == old(NextCluster) && NextCluster == cluster + 1
      ensures View() == Fat32Disk.AllocateCluster(old(View()))
    {
      hide DiskOf, Zeros;
      cluster := NextCluster;
      ghost var d := View();
      NextSeen(image[..], FatSectors, false, ClusterCount + 2, NextCluster);
      NextSeen(image[..], FatSectors, true, ClusterCount + 2, NextCluster);
      NextCluster := NextCluster + 1;
      SetFat(cluster, END_OF_CHAIN);
      PutCluster(cluster, 0, Zeros());
      PatchWhole(d.data[cluster], Zeros());
    }

    static lemma NextSeen(bytes: Bytes, fatSectors: nat, second: bool, clusters: nat, next: nat)
      requires Spacious(|bytes|, fatSectors, clusters) && ROOT_CLUSTER < next < clusters
      ensures DiskOf(bytes, fatSectors, second, clusters, next + 1)
           == DiskOf(bytes, fatSectors, second, clusters, next).(next := next + 1)
    {
    }

    /** A chain for that many bytes: at least one cluster, each linked to the one taken before it. */
    method AllocateChain(byteCount: nat) returns (first: nat)
      requires Valid() && NextCluster + ChainLength(byteCount) <= ClusterCount + 2
      modifies this, image
      ensures Valid() && SameLayout() && Header() == old(Header())
      ensures first == old(NextCluster) && NextCluster == first + ChainLength(byteCount)
      ensures View() == Fat32Disk.AllocateChain(old(View()), ChainLength(byteCount))
    {
      hide DiskOf, Zeros, Fat32Disk.AllocateCluster, Fat32Disk.AllocateChain, Fat32Disk.SetFat, Spacious;
      var clusters := ChainLength(byteCount);
      ghost var d := View();
      first := 0;
      var previous := 0;
      var index := 0;
      AllocateNone(d);
      while index < clusters
        invariant index <= clusters && Valid() && SameLayout() && Header() == old(Header())
        invariant NextCluster == d.next + index && View() == Fat32Disk.AllocateChain(d, index)
        invariant index == 0 ==> first == 0 && previous == 0
        invariant index > 0 ==> first == d.next && previous == d.next + index - 1
      {
        var current := AllocateCluster();
        if first == 0 {
          first := current;
        }
        if previous != 0 {
          SetFat(previous, current);
        }
        previous := current;
        ExtendChain(d, index);
        index := index + 1;
      }
      LastLink(d, clusters);
      SetFat(previous, END_OF_CHAIN);
    }

    static lemma AllocateNone(d: Disk)
      requires d.next <= |d.fat| == |d.data|
      ensures Fat32Disk.AllocateChain(d, 0) == d
    {
    }

    /** Taking one more cluster and linking it in makes the chain one longer. */
    static lemma ExtendChain(d: Disk, n: nat)
      requires Formed(d) && d.next + n < |d.fat|
      ensures var e := Fat32Disk.AllocateCluster(Fat32Disk.AllocateChain(d, n));
              Fat32Disk.AllocateChain(d, n + 1)
              == if n == 0 then e else Fat32Disk.SetFat(e, d.next + n - 1, d.next + n)
    {
      hide Zeros;
      var e := Fat32Disk.AllocateCluster(Fat32Disk.AllocateChain(d, n));
      var f := if n == 0 then e else Fat32Disk.SetFat(e, d.next + n - 1, d.next + n);
      var g := Fat32Disk.AllocateChain(d, n + 1);
      assert g.fat == f.fat;
      assert g.data == f.data;
    }

    static lemma LastLink(d: Disk, n: nat)
      requires Formed(d) && n >= 1 && d.next + n <= |d.fat|
      ensures var e := Fat32Disk.AllocateChain(d, n);
              Fat32Disk.SetFat(e, d.next + n - 1, END_OF_CHAIN) == e
    {
      var e := Fat32Disk.AllocateChain(d, n);
      assert e.fat[d.next + n - 1] == END_OF_CHAIN;
    }

    static lemma PatchWhole(c: Bytes, bytes: Bytes)
      requires |c| == |bytes|
      ensures Patched(c, 0, bytes) == bytes
    {
    }

    /** Data that is longer than the chain is dropped where the chain ends. */
    method WriteFileData(first: nat, data: Bytes, ghost n: nat)
      requires Valid() && IsChain(View().fat, first, n)
      modifies image
      ensures Valid() && Header() == old(Header()) && View() == WriteFile(old(View()), first, data)
    {
      hide DiskOf, IsChain, WriteFile, PutData, Spacious, Patched, Formed;
      ghost var d := View();
      var cluster: nat := first;
      var written: nat := 0;
      ghost var m: nat := n;
      assert data[0..] == data;
      while cluster < END_OF_CHAIN && written < |data|
        invariant written <= |data| && Valid() && Header() == old(Header())
        invariant WriteFile(View(), cluster, data[written..]) == WriteFile(d, first, data)
        invariant written < |data| && cluster < END_OF_CHAIN ==> IsChain(View().fat, cluster, m)
        decreases |data| - written
      {
        var copySize := |data| - written;
        if copySize > SECTOR {
          copySize := SECTOR;
        }
        ghost var rest := data[written..];
        assert rest[..copySize] == data[written..written + copySize];
        assert rest[copySize..] == data[written + copySize..];
        FirstLink(View().fat, cluster, m);
        CopyStep(View(), cluster, m, rest);
        PutCluster(cluster, 0, data[written..written + copySize]);
        written := written + copySize;
        var at := FirstFatLba * SECTOR + cluster * 4;
        ReadEntry(cluster);
        cluster := FromLe32(image[at..at + 4]) % 0x1000_0000;
        m := if m > 1 then m - 1 else m;
      }
      NothingLeft(View(), cluster, data[written..]);
    }

    static lemma PatchFront(c: Bytes, bytes: Bytes)
      requires |bytes| <= |c|
      ensures Patched(c, 0, bytes) == Overlay(c, bytes)
    {
    }

    /** One turn of the copy loop. */
    static lemma CopyStep(d: Disk, cluster: nat, m: nat, rest: Bytes)
      requires Formed(d) && IsChain(d.fat, cluster, m) && rest != []
      ensures cluster < |d.data| && |d.data[cluster]| == CLUSTER_SIZE && Piece(|rest|) <= CLUSTER_SIZE
      ensures var k := Piece(|rest|); var next := d.fat[cluster] % 0x1000_0000;
              var e := d.(data := d.data[cluster := Patched(d.data[cluster], 0, rest[..k])]);
              && WriteFile(d, cluster, rest) == WriteFile(e, next, rest[k..])
              && (if m > 1 then IsChain(d.fat, next, m - 1) else next == END_OF_CHAIN)
    {
      hide IsChain, WriteFile, Patched, Overlay;
      FirstLink(d.fat, cluster, m);
      WriteStep(d, cluster, m, rest);
      PatchFront(d.data[cluster], rest[..Piece(|rest|)]);
      if m > 1 {
        ChainTail(d.fat, cluster, m);
      }
    }

    lemma ReadEntry(cluster: nat)
      requires Placed() && cluster < ClusterCount + 2
      ensures var at := FirstFatLba * SECTOR + cluster * 4;
              at + 4 <= image.Length && FromLe32(image[at..at + 4]) == View().fat[cluster]
    {
      hide FromLe32;
      var at := FirstFatLba * SECTOR + cluster * 4;
      assert image[..][at..at + 4] == image[at..at + 4];
    }

    static lemma NothingLeft(d: Disk, cluster: nat, rest: Bytes)
      requires cluster >= END_OF_CHAIN || rest == []
      ensures WriteFile(d, cluster, rest) == d
    {
    }

    // ----- The sectors before the FAT -----

    /** Bytes into a sector before the first FAT copy: the disk is not touched. */
    method PutHeader(lba: nat, from: nat, bytes: Bytes)
      requires Placed() && lba < FIRST_FAT && from + |bytes| <= SECTOR
      modifies image
      ensures Placed() && View() == old(View()) && Copy(true) == old(Copy(true))
      ensures |Header()| == FIRST_FAT * SECTOR == |old(Header())|
      ensures Header() == Patched(old(Header()), lba * SECTOR + from, bytes)
    {
      hide DiskOf;
      ghost var was := image[..];
      PutBytes(lba * SECTOR + from, bytes);
      HeaderUnseen(was, image[..], lba * SECTOR + from, |bytes|, FatSectors, false, ClusterCount + 2, NextCluster);
      HeaderUnseen(was, image[..], lba * SECTOR + from, |bytes|, FatSectors, true, ClusterCount + 2, NextCluster);
    }

    static lemma HeaderUnseen(was: Bytes, now: Bytes, at: nat, length: nat,
                              fatSectors: nat, second: bool, clusters: nat, next: nat)
      requires ChangedOnly(was, now, at, length) && at + length <= FIRST_FAT * SECTOR
      requires Spacious(|was|, fatSectors, clusters) && ROOT_CLUSTER < next <= clusters
      ensures DiskOf(now, fatSectors, second, clusters, next) == DiskOf(was, fatSectors, second, clusters, next)
    {
      hide FromLe32;
      forall c: nat | c < clusters ensures FatEntry(now, fatSectors, second, c) == FatEntry(was, fatSectors, second, c) {
        var o := FatOffset(fatSectors, second, c);
        SliceSame(was, now, at, length, o, o + 4);
      }
      forall c: nat | ROOT_CLUSTER <= c < clusters ensures ClusterBytes(now, fatSectors, c) == ClusterBytes(was, fatSectors, c) {
        var o := DataOffset(fatSectors, c);
        SliceSame(was, now, at, length, o, o + SECTOR);
      }
    }

    method WriteMbr()
      requires Placed() && PartitionSectors < 0x1_0000_0000
      modifies image
      ensures Placed() && View() == old(View()) && Copy(true) == old(Copy(true))
      ensures |old(Header())| == FIRST_FAT * SECTOR && Header() == Mbr(old(Header()), PartitionSectors)
    {
      hide DiskOf, Le32, Spacious, Patched;
      ghost var h := Header();
      PutHeader(0, 446, PARTITION_HEAD);
      PutHeader(0, 454, Le32(PARTITION_LBA));
      PatchJoin(h, 446, PARTITION_HEAD, Le32(PARTITION_LBA));
      PutHeader(0, 458, Le32(PartitionSectors));
      PatchJoin(h, 446, PARTITION_HEAD + Le32(PARTITION_LBA), Le32(PartitionSectors));
      PutHeader(0, 510, SIGNATURE);
    }

    method WriteBootVolume(lba: nat)
      requires Placed() && lba < FIRST_FAT
      modifies image
      ensures Placed() && View() == old(View()) && Copy(true) == old(Copy(true))
      ensures |old(Header())| == FIRST_FAT * SECTOR && Header() == Patched(old(Header()), lba * SECTOR, BootVolume())
    {
      hide DiskOf, Le32, Le16, Spacious, Patched;
      ghost var h, at := Header(), lba * SECTOR;
      ghost var bytes := JUMP_AND_OEM;
      PutHeader(lba, 0, JUMP_AND_OEM);
      PutHeader(lba, 11, Le16(SECTOR));
      PatchJoin(h, at, bytes, Le16(SECTOR));
      bytes := bytes + Le16(SECTOR);
      PutHeader(lba, 13, [1]);
      PatchJoin(h, at, bytes, [1]);
      bytes := bytes + [1];
      PutHeader(lba, 14, Le16(RESERVED));
      PatchJoin(h, at, bytes, Le16(RESERVED));
      bytes := bytes + Le16(RESERVED);
      PutHeader(lba, 16, [FAT_COUNT]);
      PatchJoin(h, at, bytes, [FAT_COUNT]);
      bytes := bytes + [FAT_COUNT];
      ghost var rest := Le16(0) + Le16(0) + [0xF8] + Le16(0) + Le16(63) + Le16(255);
      PutHeader(lba, 17, Le16(0) + Le16(0) + [0xF8] + Le16(0) + Le16(63) + Le16(255));
      PatchJoin(h, at, bytes, rest);
      bytes := bytes + rest;
      PutHeader(lba, 28, Le32(PARTITION_LBA));
      PatchJoin(h, at, bytes, Le32(PARTITION_LBA));
    }

    method WriteBootFats(lba: nat)
      requires Placed() && lba < FIRST_FAT && PartitionSectors < 0x1_0000_0000 && FatSectors < 0x1_0000_0000
      modifies image
      ensures Placed() && View() == old(View()) && Copy(true) == old(Copy(true))
      ensures |old(Header())| == FIRST_FAT * SECTOR
      ensures Header() == Patched(old(Header()), lba * SECTOR + 32, BootFats(PartitionSectors, FatSectors))
    {
      hide DiskOf, Le32, Le16, Spacious, Patched;
      ghost var h, at := Header(), lba * SECTOR + 32;
      ghost var bytes := Le32(PartitionSectors);
      PutHeader(lba, 32, Le32(PartitionSectors));
      PutHeader(lba, 36, Le32(FatSectors));
      PatchJoin(h, at, bytes, Le32(FatSectors));
      bytes := bytes + Le32(FatSectors);
      PutHeader(lba, 40, Le16(0) + Le16(0));
      PatchJoin(h, at, bytes, Le16(0) + Le16(0));
      bytes := bytes + (Le16(0) + Le16(0));
      PutHeader(lba, 44, Le32(ROOT_CLUSTER));
      PatchJoin(h, at, bytes, Le32(ROOT_CLUSTER));
      bytes := bytes + Le32(ROOT_CLUSTER);
      PutHeader(lba, 48, Le16(1) + Le16(6));
      PatchJoin(h, at, bytes, Le16(1) + Le16(6));
    }

    method WriteBootSector(lba: nat)
      requires Placed() && lba < FIRST_FAT && PartitionSectors < 0x1_0000_0000 && FatSectors < 0x1_0000_0000
      modifies image
      ensures Placed() && View() == old(View()) && Copy(true) == old(Copy(true))
      ensures |old(Header())| == FIRST_FAT * SECTOR
      ensures Header() == Boot(old(Header()), lba * SECTOR, PartitionSectors, FatSectors)
    {
      hide DiskOf, Spacious, Patched, BootVolume, BootFats;
      WriteBootVolume(lba);
      WriteBootFats(lba);
      PutHeader(lba, 64, [0x80]);
      PutHeader(lba, 66, [0x29] + Le32(0x4F52594E) + LABEL_AND_TYPE);
      PutHeader(lba, 510, SIGNATURE);
    }

    method WriteFsInfo(lba: nat)
      requires Placed() && lba < FIRST_FAT && NextCluster < 0x1_0000_0000
      modifies image
      ensures Placed() && View() == old(View()) && Copy(true) == old(Copy(true))
      ensures |old(Header())| == FIRST_FAT * SECTOR && Header() == FsInfo(old(Header()), lba * SECTOR, NextCluster)
    {
      hide DiskOf, Le32, Patched, Spacious;
      PutHeader(lba, 0, Le32(0x41615252));
      ghost var h, at := Header(), lba * SECTOR + 484;
      PutHeader(lba, 484, Le32(0x61417272));
      PutHeader(lba, 488, Le32(0xFFFFFFFF));
      PatchJoin(h, at, Le32(0x61417272), Le32(0xFFFFFFFF));
      PutHeader(lba, 492, Le32(NextCluster));
      PatchJoin(h, at, Le32(0x61417272) + Le32(0xFFFFFFFF), Le32(NextCluster));
      PutHeader(lba, 508, Le32(0xAA550000));
    }

    // ----- Directories -----

    /** The five fields of an entry, written one after another, are the entry. */
    static lemma FieldsMakeEntry(c: Bytes, index: nat, e: Entry)
      requires |c| == SECTOR && index < ENTRIES && Entries([e])
      ensures |e.name| == 11 && e.cluster < 0x1_0000_0000 && e.size < 0x1_0000_0000
      ensures var at := index * ENTRY;
              Patched(Patched(Patched(Patched(Patched(c, at, e.name), at + 11, [e.attributes]),
                                      at + 20, Le16(e.cluster / 0x1_0000)), at + 26, Le16(e.cluster % 0x1_0000)),
                      at + 28, Le32(e.size))
              == SetEntry(c, index, e)
    {
      hide Le16, Le32;
      assert e == [e][0];
      var at := index * ENTRY;
      var a := Patched(c, at, e.name);
      var b := Patched(a, at + 11, [e.attributes]);
      assert b == c[..at] + e.name + [e.attributes] + c[at + 12..];
      var d := Patched(b, at + 20, Le16(e.cluster / 0x1_0000));
      assert d == c[..at] + e.name + [e.attributes] + c[at + 12..at + 20] + Le16(e.cluster / 0x1_0000) + c[at + 22..];
      var f := Patched(d, at + 26, Le16(e.cluster % 0x1_0000));
      assert f == c[..at] + e.name + [e.attributes] + c[at + 12..at + 20] + Le16(e.cluster / 0x1_0000) + c[at + 22..at + 26]
                  + Le16(e.cluster % 0x1_0000) + c[at + 28..];
    }

    method WriteDirEntry(directory: nat, index: nat, base: Bytes, extension: Bytes, attributes: Byte, cluster: nat, size: nat)
      requires Valid() && ROOT_CLUSTER <= directory < ClusterCount + 2 && index < ENTRIES
      requires cluster < 0x1_0000_0000 && size < 0x1_0000_0000
      modifies image
      ensures Valid() && Header() == old(Header())
      ensures View() == PutEntry(old(View()), directory, index, Entry(FillName(base, extension), attributes, cluster, size))
    {
      hide DiskOf, Patched, FillName, Le16, Le32, SetEntry;
      var at := index * ENTRY;
      ghost var d := View();
      ghost var e := Entry(FillName(base, extension), attributes, cluster, size);
      assert Entries([e]);
      FieldsMakeEntry(d.data[directory], index, e);
      PutCluster(directory, at, FillName(base, extension));
      PutCluster(directory, at + 11, [attributes]);
      PutCluster(directory, at + 20, Le16(cluster / 0x1_0000));
      PutCluster(directory, at + 26, Le16(cluster % 0x1_0000));
      PutCluster(directory, at + 28, Le32(size));
      assert View().data == d.data[directory := SetEntry(d.data[directory], index, e)];
    }

    method WriteDotEntries(directory: nat, parent: nat)
      requires Valid() && ROOT_CLUSTER <= directory < ClusterCount + 2 && parent < ClusterCount + 2
      modifies image
      ensures Valid() && Header() == old(Header())
      ensures var es := [Folder(DOT, directory), Folder(DOTDOT, parent)];
              Entries(es) && View() == PutEntries(old(View()), directory, es)
    {
      hide DiskOf, FillName, PutEntry;
      ghost var d := View();
      ghost var a, b := Folder(DOT, directory), Folder(DOTDOT, parent);
      WriteDirEntry(directory, 0, DOT, [], DIRECTORY, directory, 0);
      WriteDirEntry(directory, 1, DOTDOT, [], DIRECTORY, parent, 0);
      EntriesTwo(d, directory, a, b);
    }

    static lemma EntriesTwo(d: Disk, cluster: nat, a: Entry, b: Entry)
      requires Formed(d) && cluster < |d.data| && Entries([a, b])
      ensures Entries([a]) && Entries([b])
      ensures PutEntries(d, cluster, [a, b]) == PutEntry(PutEntry(d, cluster, 0, a), cluster, 1, b)
    {
      hide PutEntry;
      assert a == [a, b][0] && b == [a, b][1];
      assert [a, b][..1] == [a];
      assert [a][..0] == [];
      assert PutEntries(d, cluster, [a]) == PutEntry(d, cluster, 0, a);
    }

    // ----- The build -----

    /** A zeroed buffer for the whole disk, and the layout of its one partition. */
    constructor ()
      ensures Valid() && fresh(image)
      ensures PartitionSectors == DISK_PARTITION && FatSectors == 993 && ClusterCount == 127006
      ensures NextCluster == ROOT_CLUSTER + 1 && image.Length == DISK_SECTORS * SECTOR
      ensures forall i :: 0 <= i < image.Length ==> image[i] == 0
    {
      DiskLayout();
      var fatSectors, clusters := ComputeFatLayout(DISK_PARTITION);
      image := new Byte[DISK_SECTORS * SECTOR](_ => 0);
      PartitionSectors := DISK_PARTITION;
      FatSectors := fatSectors;
      ClusterCount := clusters;
      FirstFatLba := PARTITION_LBA + RESERVED;
      FirstDataLba := PARTITION_LBA + RESERVED + FAT_COUNT * fatSectors;
      NextCluster := ROOT_CLUSTER + 1;
      new;
      LayoutFits(DISK_PARTITION, FatSectors);
      ZeroEntries(image[..], FatSectors, ClusterCount + 2);
    }

    /** Zero bytes are a disk of zero entries and zero clusters. */
    static lemma ZeroEntries(bytes: Bytes, fatSectors: nat, clusters: nat)
      requires Spacious(|bytes|, fatSectors, clusters) && forall i :: 0 <= i < |bytes| ==> bytes[i] == 0
      ensures forall second: bool, c: nat :: c < clusters ==> FatOf(bytes, fatSectors, second, clusters)[c] == 0
      ensures DataOf(bytes, fatSectors, clusters) == EmptyData(clusters)
      ensures FatOf(bytes, fatSectors, true, clusters) == FatOf(bytes, fatSectors, false, clusters)
    {
      forall second: bool, c: nat | c < clusters ensures FatEntry(bytes, fatSectors, second, c) == 0 {
        var o := FatOffset(fatSectors, second, c);
        assert bytes[o..o + 4] == [0, 0, 0, 0];
      }
      forall c: nat | ROOT_CLUSTER <= c < clusters ensures ClusterBytes(bytes, fatSectors, c) == Zeros() {
      }
    }

    /** The three first entries, on a zeroed disk, make the empty volume. */
    static lemma EmptyMade(d: Disk)
      requires |d.fat| > ROOT_CLUSTER && d.next == EFI_DIR && d.data == EmptyData(|d.fat|)
      requires forall c: nat :: c < |d.fat| ==> d.fat[c] == 0
      ensures Fat32Disk.SetFat(Fat32Disk.SetFat(Fat32Disk.SetFat(d, 0, MEDIA), 1, END_OF_CHAIN), ROOT_CLUSTER, END_OF_CHAIN)
           == Empty(|d.fat|)
    {
      assert Fat32Disk.SetFat(Fat32Disk.SetFat(Fat32Disk.SetFat(d, 0, MEDIA), 1, END_OF_CHAIN), ROOT_CLUSTER, END_OF_CHAIN).fat
          == EmptyFat(|d.fat|);
    }

    /** One more chain is the next of the list. */
    static lemma Took(d: Disk, lengths: seq<nat>, n: nat, longer: seq<nat>)
      requires Formed(d) && Positive(lengths) && n >= 1 && d.next + Sum(lengths) + n <= |d.fat| && longer == lengths + [n]
      ensures Positive(longer) && Sum(longer) == Sum(lengths) + n && d.next + Sum(longer) <= |d.fat|
      ensures TakeAll(d, longer) == Fat32Disk.AllocateChain(TakeAll(d, lengths), n)
      ensures n == 1 ==> TakeAll(d, longer) == Fat32Disk.AllocateCluster(TakeAll(d, lengths))
    {
      hide Fat32Disk.AllocateChain, Fat32Disk.AllocateCluster;
      assert longer[..|lengths|] == lengths;
      TakeAllFormed(d, lengths);
      if n == 1 {
        AllocateClusterExact(TakeAll(d, lengths));
      }
    }

    /** The chains up to the boot file. */
    method AllocateBoot(p: Plan)
      requires Valid() && NextCluster == EFI_DIR && SystemDir(p) <= ClusterCount + 2
      modifies this, image
      ensures Valid() && SameLayout() && Header() == old(Header())
      ensures var l := [1, 1, ChainLength(|p.boot|)];
              && Sum(l) == 2 + ChainLength(|p.boot|) && NextCluster == SystemDir(p)
              && View() == TakeAll(old(View()), l)
    {
      hide DiskOf, Spacious, TakeAll, Fat32Disk.AllocateChain, Fat32Disk.AllocateCluster, Sum, Formed, ChainLength;
      ghost var d := View();
      TookNone(d);
      var efi := AllocateCluster();
      Took(d, [], 1, [1]);
      var bootDir := AllocateCluster();
      Took(d, [1], 1, [1, 1]);
      var bootFile := AllocateChain(|p.boot|);
      Took(d, [1, 1], ChainLength(|p.boot|), [1, 1, ChainLength(|p.boot|)]);
    }

    /** The chains from the SYSTEM directory to the FONTS directory. */
    method AllocateSystem(p: Plan, ghost d: Disk)
      requires Valid() && Formed(d) && d.next == EFI_DIR && |d.fat| == ClusterCount + 2
      requires NextCluster == SystemDir(p) && FontFile(p) <= ClusterCount + 2
      requires var l := [1, 1, ChainLength(|p.boot|)];
               && Sum(l) == 2 + ChainLength(|p.boot|) && View() == TakeAll(d, l)
      modifies this, image
      ensures Valid() && SameLayout() && Header() == old(Header())
      ensures var l := [1, 1, ChainLength(|p.boot|), 1, 1, ChainLength(|p.kernel|), 1];
              && EFI_DIR + Sum(l) == NextCluster == FontFile(p) && View() == TakeAll(d, l)
    {
      hide DiskOf, Spacious, TakeAll, Fat32Disk.AllocateChain, Fat32Disk.AllocateCluster, Sum, Formed, ChainLength;
      ghost var b, k := ChainLength(|p.boot|), ChainLength(|p.kernel|);
      var system := AllocateCluster();
      Took(d, [1, 1, b], 1, [1, 1, b, 1]);
      var kernelDir := AllocateCluster();
      Took(d, [1, 1, b, 1], 1, [1, 1, b, 1, 1]);
      var kernelFile := AllocateChain(|p.kernel|);
      Took(d, [1, 1, b, 1, 1], k, [1, 1, b, 1, 1, k]);
      var fonts := AllocateCluster();
      Took(d, [1, 1, b, 1, 1, k], 1, [1, 1, b, 1, 1, k, 1]);
    }

    /** All the chains, in order. */
    method AllocateFiles(p: Plan)
      requires Valid() && NextCluster == EFI_DIR && Needed(p) <= ClusterCount + 2
      modifies this, image
      ensures Valid() && SameLayout() && Header() == old(Header())
      ensures EFI_DIR + Sum(Lengths(p)) == Needed(p) && View() == TakeAll(old(View()), Lengths(p))
    {
      hide DiskOf, Spacious, TakeAll, Fat32Disk.AllocateChain, Fat32Disk.AllocateCluster, Sum, Formed, ChainLength;
      LengthsSum(p);
      ghost var d := View();
      ghost var l := [1, 1, ChainLength(|p.boot|), 1, 1, ChainLength(|p.kernel|), 1];
      AllocateBoot(p);
      AllocateSystem(p, d);
      if p.font != [] {
        var fontFile := AllocateChain(|p.font|);
        Took(d, l, ChainLength(|p.font|), Lengths(p));
      } else {
        assert Lengths(p) == l;
      }
    }

    static lemma TookNone(d: Disk)
      requires Formed(d)
      ensures Sum([]) == 0 && TakeAll(d, []) == d
    {
    }

    method WriteRootDirectories(p: Plan)
      requires Valid() && Sane(p) && Needed(p) <= ClusterCount + 2
      modifies image
      ensures Valid() && Header() == old(Header())
      ensures View() == PutEntries(PutEntries(PutEntries(old(View()), ROOT_CLUSTER, RootEntries(p)), EFI_DIR, EfiEntries()),
                                   BOOT_DIR, BootEntries(p))
    {
      hide DiskOf, Spacious, PutEntries, PutEntry, FillName, ChainLength, Entries;
      ghost var d := View();
      WriteDirEntry(ROOT_CLUSTER, 0, EFI, [], DIRECTORY, EFI_DIR, 0);
      WriteDirEntry(ROOT_CLUSTER, 1, SYSTEM, [], DIRECTORY, SystemDir(p), 0);
      assert RootEntries(p) == [Folder(EFI, EFI_DIR), Folder(SYSTEM, SystemDir(p))];
      EntriesTwo(d, ROOT_CLUSTER, Folder(EFI, EFI_DIR), Folder(SYSTEM, SystemDir(p)));
      ghost var a := View();
      WriteDotEntries(EFI_DIR, ROOT_CLUSTER);
      WriteDirEntry(EFI_DIR, 2, BOOT, [], DIRECTORY, BOOT_DIR, 0);
      EntriesMore(a, EFI_DIR, [Folder(DOT, EFI_DIR), Folder(DOTDOT, ROOT_CLUSTER)], EfiEntries()[2], EfiEntries());
      ghost var b := View();
      WriteDotEntries(BOOT_DIR, EFI_DIR);
      WriteDirEntry(BOOT_DIR, 2, BOOTX64, EFI, ARCHIVE, BOOT_FILE, |p.boot|);
      EntriesMore(b, BOOT_DIR, [Folder(DOT, BOOT_DIR), Folder(DOTDOT, EFI_DIR)], BootEntries(p)[2], BootEntries(p));
    }

    method WriteSystemDirectory(p: Plan)
      requires Valid() && Sane(p) && Needed(p) <= ClusterCount + 2
      modifies image
      ensures Valid() && Header() == old(Header())
      ensures View() == PutEntries(old(View()), SystemDir(p), SystemEntries(p))
    {
      hide DiskOf, Spacious, PutEntries, PutEntry, FillName, ChainLength, Entries;
      ghost var c := View();
      WriteDotEntries(SystemDir(p), ROOT_CLUSTER);
      WriteDirEntry(SystemDir(p), 2, p.directory, [], DIRECTORY, KernelDir(p), 0);
      WriteDirEntry(SystemDir(p), 3, FONTS, [], DIRECTORY, FontsDir(p), 0);
      ghost var es := SystemEntries(p);
      EntriesMore(c, SystemDir(p), es[..3], es[3], es);
      EntriesMore(c, SystemDir(p), [Folder(DOT, SystemDir(p)), Folder(DOTDOT, ROOT_CLUSTER)], es[2], es[..3]);
    }

    method WriteFileDirectories(p: Plan)
      requires Valid() && Sane(p) && Needed(p) <= ClusterCount + 2
      modifies image
      ensures Valid() && Header() == old(Header())
      ensures View() == PutEntries(PutEntries(old(View()), KernelDir(p), KernelEntries(p)), FontsDir(p), FontsEntries(p))
    {
      hide DiskOf, Spacious, PutEntries, PutEntry, FillName, ChainLength, Entries;
      ghost var e := View();
      WriteDotEntries(KernelDir(p), SystemDir(p));
      WriteDirEntry(KernelDir(p), 2, p.file, ELF, ARCHIVE, KernelFile(p), |p.kernel|);
      EntriesMore(e, KernelDir(p), [Folder(DOT, KernelDir(p)), Folder(DOTDOT, SystemDir(p))], KernelEntries(p)[2], KernelEntries(p));
      ghost var f := View();
      WriteDotEntries(FontsDir(p), SystemDir(p));
      ghost var dots := [Folder(DOT, FontsDir(p)), Folder(DOTDOT, SystemDir(p))];
      if p.font != [] {
        WriteDirEntry(FontsDir(p), 2, ORYNSANS, TTF, ARCHIVE, FontFile(p), |p.font|);
        EntriesMore(f, FontsDir(p), dots, FontsEntries(p)[2], FontsEntries(p));
      } else {
        assert FontsEntries(p) == dots;
      }
    }

    /** The six directories. */
    method WriteDirectories(p: Plan)
      requires Valid() && Sane(p) && Needed(p) <= ClusterCount + 2
      modifies image
      ensures Valid() && Header() == old(Header()) && View() == Fat32Image.WriteDirectories(old(View()), p)
    {
      hide DiskOf, Spacious, PutEntries, ChainLength, RootEntries, EfiEntries, BootEntries, SystemEntries, KernelEntries, FontsEntries;
      WriteRootDirectories(p);
      WriteSystemDirectory(p);
      WriteFileDirectories(p);
    }

    static lemma EntriesMore(d: Disk, cluster: nat, es: seq<Entry>, e: Entry, more: seq<Entry>)
      requires Formed(d) && cluster < |d.data| && Entries(more) && more == es + [e]
      ensures Entries(es) && Entries([e]) && |es| < ENTRIES
      ensures PutEntries(d, cluster, more) == PutEntry(PutEntries(d, cluster, es), cluster, |es|, e)
    {
      hide PutEntry;
      assert more[..|es|] == es && more[|es|] == e;
    }

    method WriteFiles(p: Plan)
      requires Valid() && Sane(p) && Chains(View().fat, p)
      modifies image
      ensures Valid() && Header() == old(Header()) && View() == Fat32Image.WriteFiles(old(View()), p)
    {
      hide DiskOf, Spacious, Formed, IsChain, WriteFile;
      ghost var d := View();
      WriteFileFrame(d, BOOT_FILE, ChainLength(|p.boot|), p.boot);
      WriteFileData(BOOT_FILE, p.boot, ChainLength(|p.boot|));
      WriteFileFrame(View(), KernelFile(p), ChainLength(|p.kernel|), p.kernel);
      WriteFileData(KernelFile(p), p.kernel, ChainLength(|p.kernel|));
      if p.font != [] {
        WriteFileData(FontFile(p), p.font, ChainLength(|p.font|));
      }
    }

    /** The partition table, both boot sectors and the information sector. */
    method WriteHeaders()
      requires Placed() && PartitionSectors < 0x1_0000_0000 && FatSectors < 0x1_0000_0000 && NextCluster < 0x1_0000_0000
      modifies image
      ensures Placed() && View() == old(View()) && Copy(true) == old(Copy(true))
      ensures |old(Header())| == FIRST_FAT * SECTOR
      ensures Header() == Headers(old(Header()), PartitionSectors, FatSectors, NextCluster)
    {
      hide DiskOf, Spacious, Mbr, Boot, FsInfo;
      WriteMbr();
      WriteBootSector(PARTITION_LBA);
      WriteBootSector(PARTITION_LBA + 6);
      WriteFsInfo(PARTITION_LBA + 1);
    }

    /** What a reader learns is in the header. */
    static lemma GeometryOfHeader(bytes: Bytes, header: Bytes, boot: nat)
      requires |bytes| >= FIRST_FAT * SECTOR && header == bytes[..FIRST_FAT * SECTOR] && boot + SECTOR <= |header|
      ensures ReadGeometry(bytes, boot) == ReadGeometry(header, boot)
    {
      hide FromLe16, FromLe32;
      forall from, to | 0 <= from <= to <= |header| ensures bytes[from..to] == header[from..to] {
      }
    }

    /** The whole image, on a fresh buffer: what its bytes hold is the finished volume, in both FAT
        copies, and they say where to find it. */
    method CreateImage(p: Plan)
      requires Sane(p) && Fits(p, ClusterCount + 2) && NextCluster == EFI_DIR
      requires Valid() && PartitionSectors == DISK_PARTITION && FatSectors == 993
      requires forall i :: 0 <= i < image.Length ==> image[i] == 0
      modifies this, image
      ensures Valid() && SameLayout() && View() == Build(ClusterCount + 2, p)
      ensures |old(Header())| == FIRST_FAT * SECTOR && Header() == Headers(old(Header()), DISK_PARTITION, 993, EFI_DIR)
      ensures forall boot :: boot == PARTITION_LBA * SECTOR || boot == (PARTITION_LBA + 6) * SECTOR ==>
                ReadGeometry(image[..], boot) == Expected(129024, 993)
    {
      hide DiskOf, Formed, Fat32Disk.SetFat, Fat32Image.WriteFiles, Fat32Image.WriteDirectories, TakeAll, Chains,
           Headers, ReadGeometry, Empty, Sum;
      ghost var clusters := ClusterCount + 2;
      ghost var zero := View();
      ghost var empty := Header();
      ZeroDisk(image[..], FatSectors, clusters, NextCluster);
      WriteHeaders();
      ghost var header := Header();
      InitializeFat();
      EmptyMade(zero);
      EmptyFormed(clusters);
      LengthsSum(p);
      AllocateFiles(p);
      AllocatedChains(clusters, p);
      TakeAllFormed(Empty(clusters), Lengths(p));
      WriteDirectories(p);
      WriteFiles(p);
      HeadersRead(empty, DISK_PARTITION, 993, EFI_DIR);
      GeometryOfHeader(image[..], header, PARTITION_LBA * SECTOR);
      GeometryOfHeader(image[..], header, (PARTITION_LBA + 6) * SECTOR);
    }

    static lemma ZeroDisk(bytes: Bytes, fatSectors: nat, clusters: nat, next: nat)
      requires Spacious(|bytes|, fatSectors, clusters) && ROOT_CLUSTER < next <= clusters
      requires forall i :: 0 <= i < |bytes| ==> bytes[i] == 0
      ensures var d := DiskOf(bytes, fatSectors, false, clusters, next);
              d.data == EmptyData(clusters) && forall c: nat :: c < clusters ==> d.fat[c] == 0
    {
      hide FatOf, DataOf, EmptyData;
      ZeroEntries(bytes, fatSectors, clusters);
    }
  }
}
