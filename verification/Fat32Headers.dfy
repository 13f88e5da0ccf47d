/** The sectors in front of the first FAT copy: partition table, boot sectors and information sector,
    byte for byte, and what a reader learns from them. */
module Fat32Headers {
  import opened Fat32Disk
  import opened Fat32Layout
  import opened Fat32Image
  import opened Fat32Bytes

  const SIGNATURE: Bytes := [0x55, 0xAA]
  const PARTITION_HEAD: Bytes := [0x00, 0xFE, 0xFF, 0xFF, 0xEF, 0xFE, 0xFF, 0xFF]
  const JUMP_AND_OEM: Bytes := [0xEB, 0x58, 0x90, 79, 82, 89, 78, 32, 32, 32, 32]
  const LABEL_AND_TYPE: Bytes := [79, 82, 89, 78, 32, 69, 83, 80, 32, 32, 32, 70, 65, 84, 51, 50, 32, 32, 32]

  /** The partition table in sector 0: one entry, not bootable, of the EFI system type. */
  function Mbr(h: Bytes, partition: nat): (r: Bytes)
    requires SECTOR <= |h| && partition < 0x1_0000_0000
    ensures |r| == |h|
  {
    Patched(Patched(h, 446, PARTITION_HEAD + Le32(PARTITION_LBA) + Le32(partition)), 510, SIGNATURE)
  }

  /** The first 32 bytes of a boot sector: the volume. */
  function BootVolume(): (r: Bytes)
    ensures |r| == 32
  {
    JUMP_AND_OEM + Le16(SECTOR) + [1] + Le16(RESERVED) + [FAT_COUNT]
    + (Le16(0) + Le16(0) + [0xF8] + Le16(0) + Le16(63) + Le16(255)) + Le32(PARTITION_LBA)
  }

  /** The next 20: its FATs. */
  function BootFats(partition: nat, fatSectors: nat): (r: Bytes)
    requires partition < 0x1_0000_0000 && fatSectors < 0x1_0000_0000
    ensures |r| == 20
  {
    Le32(partition) + Le32(fatSectors) + (Le16(0) + Le16(0)) + Le32(ROOT_CLUSTER) + (Le16(1) + Le16(6))
  }

  function BootNames(): (r: Bytes)
    ensures |r| == 24
  {
    [0x29] + Le32(0x4F52594E) + LABEL_AND_TYPE
  }

  function Boot(h: Bytes, at: nat, partition: nat, fatSectors: nat): (r: Bytes)
    requires at + SECTOR <= |h| && partition < 0x1_0000_0000 && fatSectors < 0x1_0000_0000
    ensures |r| == |h|
  {
    Patched(Patched(Patched(Patched(Patched(h, at, BootVolume()), at + 32, BootFats(partition, fatSectors)),
                            at + 64, [0x80]),
                    at + 66, BootNames()),
            at + 510, SIGNATURE)
  }

  function FsInfo(h: Bytes, at: nat, next: nat): (r: Bytes)
    requires at + SECTOR <= |h| && next < 0x1_0000_0000
    ensures |r| == |h|
  {
    Patched(Patched(Patched(h, at, Le32(0x41615252)), at + 484, Le32(0x61417272) + Le32(0xFFFFFFFF) + Le32(next)),
            at + 508, Le32(0xAA550000))
  }

  /** All of them: the boot sector twice. */
  function Headers(h: Bytes, partition: nat, fatSectors: nat, next: nat): (r: Bytes)
    requires |h| == FIRST_FAT * SECTOR
    requires partition < 0x1_0000_0000 && fatSectors < 0x1_0000_0000 && next < 0x1_0000_0000
    ensures |r| == |h|
  {
    var boot := Boot(Mbr(h, partition), PARTITION_LBA * SECTOR, partition, fatSectors);
    FsInfo(Boot(boot, (PARTITION_LBA + 6) * SECTOR, partition, fatSectors), (PARTITION_LBA + 1) * SECTOR, next)
  }

  // ----- Fields and places -----

  /** What was written can be read, and the rest is as it was. */
  lemma PatchedRead(c: Bytes, from: nat, bytes: Bytes)
    requires from + |bytes| <= |c|
    ensures Patched(c, from, bytes)[from..from + |bytes|] == bytes
    ensures ChangedOnly(c, Patched(c, from, bytes), from, |bytes|)
  {
  }

  /** Two writes side by side are one. */
  lemma PatchJoin(c: Bytes, from: nat, a: Bytes, b: Bytes)
    requires from + |a| + |b| <= |c|
    ensures Patched(Patched(c, from, a), from + |a|, b) == Patched(c, from, a + b)
  {
  }

  lemma Within(was: Bytes, now: Bytes, at: nat, length: nat, wide: nat, wider: nat)
    requires ChangedOnly(was, now, at, length) && wide <= at && at + length <= wide + wider
    ensures ChangedOnly(was, now, wide, wider)
  {
  }

  lemma ChangedThen(a: Bytes, b: Bytes, c: Bytes, at: nat, length: nat)
    requires ChangedOnly(a, b, at, length) && ChangedOnly(b, c, at, length)
    ensures ChangedOnly(a, c, at, length)
  {
  }

  /** A part of a slice. */
  lemma PartRead(c: Bytes, at: nat, part: Bytes, from: nat, to: nat)
    requires at + |part| <= |c| && c[at..at + |part|] == part && from <= to <= |part|
    ensures c[at + from..at + to] == part[from..to]
  {
    forall k | 0 <= k < to - from ensures c[at + from..at + to][k] == part[from..to][k] {
      assert c[at..at + |part|][from + k] == part[from + k];
    }
  }

  lemma MbrRead(h: Bytes, partition: nat)
    requires SECTOR <= |h| && partition < 0x1_0000_0000
    ensures var r := Mbr(h, partition);
            && r[446..454] == [0x00, 0xFE, 0xFF, 0xFF, 0xEF, 0xFE, 0xFF, 0xFF]
            && FromLe32(r[454..458]) == 2048 && FromLe32(r[458..462]) == partition && r[510..512] == [0x55, 0xAA] && ChangedOnly(h, r, 0, SECTOR)
  {
    hide Le32, FromLe32, Patched, ChangedOnly;
    var entry := PARTITION_HEAD + Le32(PARTITION_LBA) + Le32(partition);
    var a := Patched(h, 446, entry);
    var r := Mbr(h, partition);
    PatchedRead(h, 446, entry);
    PatchedRead(a, 510, SIGNATURE);
    SliceSame(a, r, 510, 2, 446, 462);
    PartRead(r, 446, entry, 0, 8);
    assert entry[0..8] == PARTITION_HEAD && entry[8..12] == Le32(PARTITION_LBA) && entry[12..16] == Le32(partition);
    PartRead(r, 446, entry, 8, 12);
    PartRead(r, 446, entry, 12, 16);
    Le32RoundTrip(PARTITION_LBA);
    Le32RoundTrip(partition);
    Within(h, a, 446, 16, 0, SECTOR);
    Within(a, r, 510, 2, 0, SECTOR);
    ChangedThen(h, a, r, 0, SECTOR);
  }

  /** A boot sector says what the volume is, ends in its signature, and is all that was written. */
  lemma BootRead(h: Bytes, at: nat, partition: nat, fatSectors: nat)
    requires at + SECTOR <= |h| && partition < 0x1_0000_0000 && fatSectors < 0x1_0000_0000
    ensures var r := Boot(h, at, partition, fatSectors);
            && r[at..at + 32] == BootVolume() && r[at + 32..at + 52] == BootFats(partition, fatSectors)
            && r[at + 64..at + 65] == [0x80] && r[at + 66..at + 90] == BootNames() && r[at + 510..at + 512] == SIGNATURE
            && ChangedOnly(h, r, at, SECTOR)
  {
    hide BootVolume, BootFats, BootNames, Patched, ChangedOnly;
    var a := Patched(h, at, BootVolume());
    var b := Patched(a, at + 32, BootFats(partition, fatSectors));
    var c := Patched(b, at + 64, [0x80]);
    var d := Patched(c, at + 66, BootNames());
    var r := Patched(d, at + 510, SIGNATURE);
    PatchedRead(h, at, BootVolume());
    PatchedRead(a, at + 32, BootFats(partition, fatSectors));
    PatchedRead(b, at + 64, [0x80]);
    PatchedRead(c, at + 66, BootNames());
    PatchedRead(d, at + 510, SIGNATURE);
    SliceSame(a, b, at + 32, 20, at, at + 32);
    SliceSame(b, c, at + 64, 1, at, at + 32);
    SliceSame(b, c, at + 64, 1, at + 32, at + 52);
    SliceSame(c, d, at + 66, 24, at, at + 32);
    SliceSame(c, d, at + 66, 24, at + 32, at + 52);
    SliceSame(d, r, at + 510, 2, at, at + 32);
    SliceSame(d, r, at + 510, 2, at + 32, at + 52);
    SliceSame(d, r, at + 510, 2, at + 66, at + 90);
    SliceSame(c, d, at + 66, 24, at + 64, at + 65);
    SliceSame(d, r, at + 510, 2, at + 64, at + 65);
    Within(h, a, at, 32, at, SECTOR);
    Within(a, b, at + 32, 20, at, SECTOR);
    Within(b, c, at + 64, 1, at, SECTOR);
    Within(c, d, at + 66, 24, at, SECTOR);
    Within(d, r, at + 510, 2, at, SECTOR);
    ChangedThen(h, a, b, at, SECTOR);
    ChangedThen(h, b, c, at, SECTOR);
    ChangedThen(h, c, d, at, SECTOR);
    ChangedThen(h, d, r, at, SECTOR);
  }

  lemma FsInfoRead(h: Bytes, at: nat, next: nat)
    requires at + SECTOR <= |h| && next < 0x1_0000_0000
    ensures var r := FsInfo(h, at, next);
            && r[at..at + 4] == [0x52, 0x52, 0x61, 0x41] && r[at + 484..at + 492] == [0x72, 0x72, 0x41, 0x61, 0xFF, 0xFF, 0xFF, 0xFF]
            && FromLe32(r[at + 492..at + 496]) == next && r[at + 508..at + 512] == [0, 0, 0x55, 0xAA] && ChangedOnly(h, r, at, SECTOR)
  {
    hide Le32, FromLe32, Patched, ChangedOnly;
    var middle := Le32(0x61417272) + Le32(0xFFFFFFFF) + Le32(next);
    var a := Patched(h, at, Le32(0x41615252));
    var b := Patched(a, at + 484, middle);
    var r := Patched(b, at + 508, Le32(0xAA550000));
    PatchedRead(h, at, Le32(0x41615252));
    PatchedRead(a, at + 484, middle);
    PatchedRead(b, at + 508, Le32(0xAA550000));
    SliceSame(a, b, at + 484, 12, at, at + 4);
    SliceSame(b, r, at + 508, 4, at, at + 4);
    SliceSame(b, r, at + 508, 4, at + 484, at + 496);
    PartRead(r, at + 484, middle, 8, 12);
    PartRead(r, at + 484, middle, 0, 8);
    assert middle[8..12] == Le32(next) && middle[..8] == Le32(0x61417272) + Le32(0xFFFFFFFF);
    FsInfoBytes();
    Le32RoundTrip(next);
    Within(h, a, at, 4, at, SECTOR);
    Within(a, b, at + 484, 12, at, SECTOR);
    Within(b, r, at + 508, 4, at, SECTOR);
    ChangedThen(h, a, b, at, SECTOR);
    ChangedThen(h, b, r, at, SECTOR);
  }

  lemma FsInfoBytes()
    ensures Le32(0x41615252) == [0x52, 0x52, 0x61, 0x41] && Le32(0xAA550000) == [0, 0, 0x55, 0xAA]
    ensures Le32(0x61417272) == [0x72, 0x72, 0x41, 0x61] && Le32(0xFFFFFFFF) == [0xFF, 0xFF, 0xFF, 0xFF]
  {
  }

  // ----- What a reader learns -----

  /** The partition entry and the fields of a FAT32 boot sector. */
  datatype Geometry = Geometry(
    bootFlag: nat,
    partitionType: nat,
    partitionLba: nat,
    partitionSectors: nat,
    sectorSize: nat,
    clusterSectors: nat,
    reserved: nat,
    fatCount: nat,
    rootEntries: nat,
    smallTotal: nat,
    media: nat,
    smallFat: nat,
    hidden: nat,
    total: nat,
    fatSectors: nat,
    version: nat,
    rootCluster: nat,
    infoSector: nat,
    backupSector: nat)

  /** From the partition table and the boot sector at `boot`, each field at its place. */
  function ReadGeometry(image: Bytes, boot: nat): Geometry
    requires boot + SECTOR <= |image| && SECTOR <= |image|
  {
    Geometry(image[446], image[450], FromLe32(image[454..458]), FromLe32(image[458..462]),
             FromLe16(image[boot + 11..boot + 13]), image[boot + 13], FromLe16(image[boot + 14..boot + 16]), image[boot + 16],
             FromLe16(image[boot + 17..boot + 19]), FromLe16(image[boot + 19..boot + 21]), image[boot + 21],
             FromLe16(image[boot + 22..boot + 24]), FromLe32(image[boot + 28..boot + 32]),
             FromLe32(image[boot + 32..boot + 36]), FromLe32(image[boot + 36..boot + 40]),
             FromLe16(image[boot + 42..boot + 44]), FromLe32(image[boot + 44..boot + 48]),
             FromLe16(image[boot + 48..boot + 50]), FromLe16(image[boot + 50..boot + 52]))
  }

  /** What is expected there: an EFI system partition that is not bootable, sectors of 512 bytes, one to a
      cluster, two FATs after 32 reserved sectors, the root directory in cluster 2, the information sector
      second and the backup of the boot sector seventh. The fields of the older FAT types are 0. */
  function Expected(partition: nat, fatSectors: nat): Geometry {
    Geometry(0, 0xEF, 2048, partition, 512, 1, 32, 2, 0, 0, 0xF8, 0, 2048, partition, fatSectors, 0, 2, 1, 6)
  }

  /** The number in a part of a run of bytes. */
  lemma Number16(image: Bytes, at: nat, part: Bytes, k: nat)
    requires at + |part| <= |image| && image[at..at + |part|] == part && k + 2 <= |part|
    ensures FromLe16(image[at + k..at + k + 2]) == FromLe16(part[k..k + 2])
  {
    PartRead(image, at, part, k, k + 2);
  }

  lemma Number32(image: Bytes, at: nat, part: Bytes, k: nat)
    requires at + |part| <= |image| && image[at..at + |part|] == part && k + 4 <= |part|
    ensures FromLe32(image[at + k..at + k + 4]) == FromLe32(part[k..k + 4])
  {
    PartRead(image, at, part, k, k + 4);
  }

  lemma VolumeFields()
    ensures var v := BootVolume();
            && FromLe16(v[11..13]) == 512 && v[13] == 1 && FromLe16(v[14..16]) == 32 && v[16] == 2
            && FromLe16(v[17..19]) == 0 && FromLe16(v[19..21]) == 0 && v[21] == 0xF8 && FromLe16(v[22..24]) == 0
            && FromLe32(v[28..32]) == 2048
  {
    hide Le16, Le32, FromLe16, FromLe32;
    var v := BootVolume();
    assert v[11..13] == Le16(512) && v[14..16] == Le16(32) && v[17..19] == Le16(0) && v[19..21] == Le16(0);
    assert v[22..24] == Le16(0) && v[28..32] == Le32(2048);
    Le16RoundTrip(512);
    Le16RoundTrip(32);
    Le16RoundTrip(0);
    Le32RoundTrip(2048);
  }

  /** The bytes of a boot sector that are not the layout: the jump, the names, the geometry of old disks, the
      mirroring flags and the version, and the serial number. */
  lemma BootTexts(partition: nat, fatSectors: nat)
    requires partition < 0x1_0000_0000 && fatSectors < 0x1_0000_0000
    ensures BootVolume()[..11] == [0xEB, 0x58, 0x90] + Ascii("ORYN    ") && BootVolume()[24..28] == [63, 0, 255, 0]
    ensures BootFats(partition, fatSectors)[8..12] == [0, 0, 0, 0]
    ensures BootNames() == [0x29, 0x4E, 0x59, 0x52, 0x4F] + Ascii("ORYN ESP   ") + Ascii("FAT32   ")
  {
    hide Le32, Ascii;
    SerialBytes();
    TextBytes();
    assert BootFats(partition, fatSectors)[8..12] == Le16(0) + Le16(0);
  }

  lemma TextBytes()
    ensures Ascii("ORYN    ") == [79, 82, 89, 78, 32, 32, 32, 32]
    ensures Ascii("ORYN ESP   ") == [79, 82, 89, 78, 32, 69, 83, 80, 32, 32, 32]
    ensures Ascii("FAT32   ") == [70, 65, 84, 51, 50, 32, 32, 32]
  {
  }

  lemma SerialBytes()
    ensures Le32(0x4F52594E) == [0x4E, 0x59, 0x52, 0x4F]
  {
  }

  lemma FatsFields(partition: nat, fatSectors: nat)
    requires partition < 0x1_0000_0000 && fatSectors < 0x1_0000_0000
    ensures var f := BootFats(partition, fatSectors);
            && FromLe32(f[0..4]) == partition && FromLe32(f[4..8]) == fatSectors && FromLe16(f[10..12]) == 0
            && FromLe32(f[12..16]) == 2 && FromLe16(f[16..18]) == 1 && FromLe16(f[18..20]) == 6
  {
    hide Le16, Le32, FromLe16, FromLe32;
    var f := BootFats(partition, fatSectors);
    assert f[0..4] == Le32(partition) && f[4..8] == Le32(fatSectors) && f[10..12] == Le16(0) && f[12..16] == Le32(2);
    assert f[16..18] == Le16(1) && f[18..20] == Le16(6);
    Le32RoundTrip(partition);
    Le32RoundTrip(fatSectors);
    Le16RoundTrip(0);
    Le32RoundTrip(2);
    Le16RoundTrip(1);
    Le16RoundTrip(6);
  }

  /** Bytes that hold the partition entry and a boot sector give the layout back. */
  lemma GeometryFrom(image: Bytes, boot: nat, partition: nat, fatSectors: nat)
    requires SECTOR <= boot && boot + SECTOR <= |image| && partition < 0x1_0000_0000 && fatSectors < 0x1_0000_0000
    requires image[446] == 0 && image[450] == 0xEF && FromLe32(image[454..458]) == 2048 && FromLe32(image[458..462]) == partition
    requires image[boot..boot + 32] == BootVolume() && image[boot + 32..boot + 52] == BootFats(partition, fatSectors)
    ensures ReadGeometry(image, boot) == Expected(partition, fatSectors)
  {
    hide Le16, Le32, FromLe16, FromLe32, BootVolume, BootFats;
    var v, f := BootVolume(), BootFats(partition, fatSectors);
    VolumeFields();
    FatsFields(partition, fatSectors);
    Number16(image, boot, v, 11);
    Number16(image, boot, v, 14);
    Number16(image, boot, v, 17);
    Number16(image, boot, v, 19);
    Number16(image, boot, v, 22);
    Number32(image, boot, v, 28);
    assert image[boot + 13] == v[13] && image[boot + 16] == v[16] && image[boot + 21] == v[21] by {
      assert image[boot + 13] == image[boot..boot + 32][13] && image[boot + 16] == image[boot..boot + 32][16]
          && image[boot + 21] == image[boot..boot + 32][21];
    }
    Number32(image, boot + 32, f, 0);
    Number32(image, boot + 32, f, 4);
    Number16(image, boot + 32, f, 10);
    Number32(image, boot + 32, f, 12);
    Number16(image, boot + 32, f, 16);
    Number16(image, boot + 32, f, 18);
  }

  /** Both boot sectors give it back: writing the second, and the information sector, leaves the first. */
  lemma HeadersRead(h: Bytes, partition: nat, fatSectors: nat, next: nat)
    requires |h| == FIRST_FAT * SECTOR
    requires partition < 0x1_0000_0000 && fatSectors < 0x1_0000_0000 && next < 0x1_0000_0000
    ensures var r := Headers(h, partition, fatSectors, next);
            && ReadGeometry(r, 2048 * 512) == Expected(partition, fatSectors)
            && ReadGeometry(r, (2048 + 6) * 512) == Expected(partition, fatSectors)
            && r[510] == 0x55 && r[511] == 0xAA
  {
    hide Mbr, Boot, FsInfo, ReadGeometry, BootVolume, BootFats, BootNames, ChangedOnly, FromLe32;
    var one, two, info := PARTITION_LBA * SECTOR, (PARTITION_LBA + 6) * SECTOR, (PARTITION_LBA + 1) * SECTOR;
    var a := Mbr(h, partition);
    var b := Boot(a, one, partition, fatSectors);
    var c := Boot(b, two, partition, fatSectors);
    var r := FsInfo(c, info, next);
    MbrRead(h, partition);
    BootRead(a, one, partition, fatSectors);
    BootRead(b, two, partition, fatSectors);
    FsInfoRead(c, info, next);
    Kept(a, b, c, r, 446, 454);
    Kept(a, b, c, r, 454, 458);
    Kept(a, b, c, r, 458, 462);
    Kept(a, b, c, r, 510, 512);
    assert r[446] == r[446..454][0] && r[450] == r[446..454][4];
    assert r[510] == r[510..512][0] && r[511] == r[510..512][1];
    SliceSame(b, c, two, SECTOR, one, one + 32);
    SliceSame(c, r, info, SECTOR, one, one + 32);
    SliceSame(b, c, two, SECTOR, one + 32, one + 52);
    SliceSame(c, r, info, SECTOR, one + 32, one + 52);
    SliceSame(c, r, info, SECTOR, two, two + 32);
    SliceSame(c, r, info, SECTOR, two + 32, two + 52);
    GeometryFrom(r, one, partition, fatSectors);
    GeometryFrom(r, two, partition, fatSectors);
  }

  lemma Kept(a: Bytes, b: Bytes, c: Bytes, r: Bytes, from: nat, to: nat)
    requires from <= to <= SECTOR && |a| == FIRST_FAT * SECTOR
    requires ChangedOnly(a, b, PARTITION_LBA * SECTOR, SECTOR) && ChangedOnly(b, c, (PARTITION_LBA + 6) * SECTOR, SECTOR)
    requires ChangedOnly(c, r, (PARTITION_LBA + 1) * SECTOR, SECTOR)
    ensures |r| == |a| && r[from..to] == a[from..to]
  {
    SliceSame(a, b, PARTITION_LBA * SECTOR, SECTOR, from, to);
    SliceSame(b, c, (PARTITION_LBA + 6) * SECTOR, SECTOR, from, to);
    SliceSame(c, r, (PARTITION_LBA + 1) * SECTOR, SECTOR, from, to);
  }
}
