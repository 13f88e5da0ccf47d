/** The whole image: the order in which the directories and files are laid out, and what a reader
    that starts at the root directory finds. */
module Fat32Image {
  import opened Fat32Disk

  /** What goes into the image. No font is an empty font. */
  datatype Plan = Plan(boot: Bytes, kernel: Bytes, font: Bytes, directory: Bytes, file: Bytes)

  predicate Acceptable(p: Plan) {
    |p.boot| <= LARGEST_FILE && |p.kernel| <= LARGEST_FILE && |p.font| <= LARGEST_FILE
  }

  // Names, in ASCII.
  const EFI: Bytes := [69, 70, 73]
  const SYSTEM: Bytes := [83, 89, 83, 84, 69, 77]
  const BOOT: Bytes := [66, 79, 79, 84]
  const BOOTX64: Bytes := [66, 79, 79, 84, 88, 54, 52]
  const FONTS: Bytes := [70, 79, 78, 84, 83]
  const ORYNSANS: Bytes := [79, 82, 89, 78, 83, 65, 78, 83]
  const ELF: Bytes := [69, 76, 70]
  const TTF: Bytes := [84, 84, 70]
  const DOT: Bytes := [46]
  const DOTDOT: Bytes := [46, 46]

  // ----- Where everything goes -----

  const EFI_DIR: nat := 3
  const BOOT_DIR: nat := 4
  const BOOT_FILE: nat := 5

  function SystemDir(p: Plan): nat { BOOT_FILE + ChainLength(|p.boot|) }
  function KernelDir(p: Plan): nat { SystemDir(p) + 1 }
  function KernelFile(p: Plan): nat { SystemDir(p) + 2 }
  function FontsDir(p: Plan): nat { KernelFile(p) + ChainLength(|p.kernel|) }
  function FontFile(p: Plan): nat { FontsDir(p) + 1 }
  function Needed(p: Plan): nat { FontFile(p) + if p.font == [] then 0 else ChainLength(|p.font|) }

  /** The volume has the clusters for everything. */
  predicate Fits(p: Plan, clusters: nat) {
    Needed(p) <= clusters <= 0x0FFF_FFF0
  }

  // ----- The steps -----

  function EmptyFat(clusters: nat): (r: seq<nat>)
    ensures |r| == clusters
  {
    seq(clusters, c requires 0 <= c < clusters => if c == 0 then MEDIA else if c <= ROOT_CLUSTER then END_OF_CHAIN else 0)
  }

  function EmptyData(clusters: nat): (r: seq<Bytes>)
    ensures |r| == clusters
  {
    seq(clusters, _ => Zeros())
  }

  /** An all-zero volume after its first three FAT entries are set. */
  function Empty(clusters: nat): Disk {
    Disk(EmptyFat(clusters), EmptyData(clusters), ROOT_CLUSTER + 1)
  }

  function Sum(lengths: seq<nat>): nat
    decreases |lengths|
  {
    if lengths == [] then 0 else Sum(lengths[..|lengths| - 1]) + lengths[|lengths| - 1]
  }

  /** Chains of the given lengths, allocated one after another. */
  function TakeAll(d: Disk, lengths: seq<nat>): (e: Disk)
    requires |d.fat| == |d.data| && d.next + Sum(lengths) <= |d.fat|
    ensures |e.fat| == |e.data| == |d.fat| && e.next == d.next + Sum(lengths)
    decreases |lengths|
  {
    if lengths == [] then d
    else AllocateChain(TakeAll(d, lengths[..|lengths| - 1]), lengths[|lengths| - 1])
  }

  /** The chains of the image, in the order they are taken: the EFI and BOOT directories, the boot
      file, the SYSTEM and kernel directories, the kernel file, the FONTS directory, the font. */
  function Lengths(p: Plan): seq<nat> {
    [1, 1, ChainLength(|p.boot|), 1, 1, ChainLength(|p.kernel|), 1]
    + if p.font == [] then [] else [ChainLength(|p.font|)]
  }

  predicate Entries(es: seq<Entry>) {
    |es| <= ENTRIES
    && forall i :: 0 <= i < |es| ==> |es[i].name| == 11 && es[i].cluster < 0x1_0000_0000 && es[i].size < 0x1_0000_0000
  }

  function PutEntry(d: Disk, cluster: nat, index: nat, e: Entry): (r: Disk)
    requires Formed(d) && cluster < |d.data| && index < ENTRIES && Entries([e])
    ensures Formed(r) && r.fat == d.fat && r.next == d.next && |r.data| == |d.data|
  {
    assert e == [e][0];
    d.(data := d.data[cluster := SetEntry(d.data[cluster], index, e)])
  }

  function PutEntries(d: Disk, cluster: nat, es: seq<Entry>): (r: Disk)
    requires Formed(d) && cluster < |d.data| && Entries(es)
    ensures Formed(r) && r.fat == d.fat && r.next == d.next && |r.data| == |d.data|
    ensures forall c :: 0 <= c < |d.data| && c != cluster ==> r.data[c] == d.data[c]
    decreases |es|
  {
    if es == [] then d
    else PutEntry(PutEntries(d, cluster, es[..|es| - 1]), cluster, |es| - 1, es[|es| - 1])
  }

  function Folder(base: Bytes, cluster: nat): Entry {
    Entry(FillName(base, []), DIRECTORY, cluster, 0)
  }

  function File(base: Bytes, extension: Bytes, cluster: nat, size: nat): Entry {
    Entry(FillName(base, extension), ARCHIVE, cluster, size)
  }

  /** Sizes the builder accepts, and cluster numbers an entry can hold. */
  predicate Sane(p: Plan) {
    Acceptable(p) && Needed(p) <= 0x0FFF_FFF0
  }

  function RootEntries(p: Plan): (es: seq<Entry>)
    requires Sane(p)
    ensures Entries(es)
  {
    [Folder(EFI, EFI_DIR), Folder(SYSTEM, SystemDir(p))]
  }

  function EfiEntries(): (es: seq<Entry>)
    ensures Entries(es)
  {
    [Folder(DOT, EFI_DIR), Folder(DOTDOT, ROOT_CLUSTER), Folder(BOOT, BOOT_DIR)]
  }

  function BootEntries(p: Plan): (es: seq<Entry>)
    requires Sane(p)
    ensures Entries(es)
  {
    [Folder(DOT, BOOT_DIR), Folder(DOTDOT, EFI_DIR), File(BOOTX64, EFI, BOOT_FILE, |p.boot|)]
  }

  function SystemEntries(p: Plan): (es: seq<Entry>)
    requires Sane(p)
    ensures Entries(es)
  {
    [Folder(DOT, SystemDir(p)), Folder(DOTDOT, ROOT_CLUSTER), Folder(p.directory, KernelDir(p)), Folder(FONTS, FontsDir(p))]
  }

  function KernelEntries(p: Plan): (es: seq<Entry>)
    requires Sane(p)
    ensures Entries(es)
  {
    [Folder(DOT, KernelDir(p)), Folder(DOTDOT, SystemDir(p)), File(p.file, ELF, KernelFile(p), |p.kernel|)]
  }

  function FontsEntries(p: Plan): (es: seq<Entry>)
    requires Sane(p)
    ensures Entries(es)
  {
    [Folder(DOT, FontsDir(p)), Folder(DOTDOT, SystemDir(p))]
    + if p.font == [] then [] else [File(ORYNSANS, TTF, FontFile(p), |p.font|)]
  }

  function WriteDirectories(d: Disk, p: Plan): (r: Disk)
    requires Formed(d) && Sane(p) && Fits(p, |d.fat|)
    ensures Formed(r) && r.fat == d.fat && r.next == d.next && |r.data| == |d.data|
  {
    var a := PutEntries(d, ROOT_CLUSTER, RootEntries(p));
    var b := PutEntries(a, EFI_DIR, EfiEntries());
    var c := PutEntries(b, BOOT_DIR, BootEntries(p));
    var e := PutEntries(c, SystemDir(p), SystemEntries(p));
    var f := PutEntries(e, KernelDir(p), KernelEntries(p));
    PutEntries(f, FontsDir(p), FontsEntries(p))
  }

  function WriteFiles(d: Disk, p: Plan): Disk {
    var a := WriteFile(WriteFile(d, BOOT_FILE, p.boot), KernelFile(p), p.kernel);
    if p.font == [] then a else WriteFile(a, FontFile(p), p.font)
  }

  // ----- Allocation -----

  /** Every directory and every file has its own chain, and no two of them share a cluster. */
  predicate Chains(fat: seq<nat>, p: Plan) {
    && IsChain(fat, ROOT_CLUSTER, 1) && IsChain(fat, EFI_DIR, 1) && IsChain(fat, BOOT_DIR, 1)
    && IsChain(fat, BOOT_FILE, ChainLength(|p.boot|))
    && IsChain(fat, SystemDir(p), 1) && IsChain(fat, KernelDir(p), 1)
    && IsChain(fat, KernelFile(p), ChainLength(|p.kernel|))
    && IsChain(fat, FontsDir(p), 1)
    && (p.font != [] ==> IsChain(fat, FontFile(p), ChainLength(|p.font|)))
  }

  predicate Blank(d: Disk) {
    forall c :: 0 <= c < |d.data| ==> d.data[c] == Zeros()
  }

  lemma EmptyFormed(clusters: nat)
    requires ROOT_CLUSTER < clusters <= 0x0FFF_FFF0
    ensures Formed(Empty(clusters)) && Blank(Empty(clusters)) && IsChain(Empty(clusters).fat, ROOT_CLUSTER, 1)
  {
    assert LinkAt(Empty(clusters).fat, ROOT_CLUSTER, 1, 0);
  }

  /** One more chain: the ones before it stay, and the volume stays blank. */
  lemma AllocateKeeps(d: Disk, n: nat, first: nat, m: nat)
    requires Formed(d) && n >= 1 && d.next + n <= |d.fat| && IsChain(d.fat, first, m) && first + m <= d.next
    ensures IsChain(AllocateChain(d, n).fat, first, m)
  {
    AllocateChainExact(d, n);
    ChainUnchanged(d.fat, AllocateChain(d, n).fat, first, m);
  }

  lemma AllocateBlank(d: Disk, n: nat)
    requires Formed(d) && Blank(d) && n >= 1 && d.next + n <= |d.fat|
    ensures Blank(AllocateChain(d, n))
  {
    AllocateChainExact(d, n);
  }

  predicate Positive(lengths: seq<nat>) {
    forall i :: 0 <= i < |lengths| ==> lengths[i] >= 1
  }

  lemma {:induction false} TakeAllFormed(d: Disk, lengths: seq<nat>)
    requires Formed(d) && Positive(lengths) && d.next + Sum(lengths) <= |d.fat|
    ensures var e := TakeAll(d, lengths); Formed(e) && (Blank(d) ==> Blank(e))
    decreases |lengths|
  {
    hide AllocateChain;
    if lengths != [] {
      var front, n := lengths[..|lengths| - 1], lengths[|lengths| - 1];
      TakeAllFormed(d, front);
      AllocateChainExact(TakeAll(d, front), n);
      if Blank(d) {
        AllocateBlank(TakeAll(d, front), n);
      }
    }
  }

  /** Chains taken earlier stay. */
  lemma {:induction false} TakeAllKeeps(d: Disk, lengths: seq<nat>, first: nat, m: nat)
    requires Formed(d) && Positive(lengths) && d.next + Sum(lengths) <= |d.fat|
    requires IsChain(d.fat, first, m) && first + m <= d.next
    ensures IsChain(TakeAll(d, lengths).fat, first, m)
    decreases |lengths|
  {
    hide AllocateChain, IsChain;
    if lengths != [] {
      var front, n := lengths[..|lengths| - 1], lengths[|lengths| - 1];
      TakeAllFormed(d, front);
      TakeAllKeeps(d, front, first, m);
      AllocateKeeps(TakeAll(d, front), n, first, m);
    }
  }

  /** However many chains are taken, each one starts where the ones before it end, so no two share a
      cluster. */
  lemma {:induction false} TakeAllChain(d: Disk, lengths: seq<nat>, i: nat)
    requires Formed(d) && Positive(lengths) && d.next + Sum(lengths) <= |d.fat| && i < |lengths|
    ensures IsChain(TakeAll(d, lengths).fat, d.next + Sum(lengths[..i]), lengths[i])
    decreases |lengths|
  {
    hide AllocateChain, IsChain;
    var front, n := lengths[..|lengths| - 1], lengths[|lengths| - 1];
    TakeAllFormed(d, front);
    if i < |front| {
      assert front[..i] == lengths[..i];
      SumPrefix(front, i);
      TakeAllChain(d, front, i);
      AllocateKeeps(TakeAll(d, front), n, d.next + Sum(lengths[..i]), lengths[i]);
    } else {
      assert front == lengths[..i];
      AllocateChainExact(TakeAll(d, front), n);
    }
  }

  lemma {:induction false} SumPrefix(lengths: seq<nat>, i: nat)
    requires i < |lengths|
    ensures Sum(lengths[..i]) + lengths[i] <= Sum(lengths)
    decreases |lengths|
  {
    var front := lengths[..|lengths| - 1];
    if i < |front| {
      SumPrefix(front, i);
      assert front[..i] == lengths[..i];
    } else {
      assert front == lengths[..i];
    }
  }

  function Build(clusters: nat, p: Plan): Disk
    requires Sane(p) && Fits(p, clusters)
  {
    EmptyFormed(clusters);
    LengthsSum(p);
    TakeAllFormed(Empty(clusters), Lengths(p));
    WriteFiles(WriteDirectories(TakeAll(Empty(clusters), Lengths(p)), p), p)
  }

  lemma LengthsSum(p: Plan)
    ensures Positive(Lengths(p)) && EFI_DIR + Sum(Lengths(p)) == Needed(p)
  {
    var b, k := ChainLength(|p.boot|), ChainLength(|p.kernel|);
    SumSeven(1, 1, b, 1, 1, k, 1);
    if p.font != [] {
      var f := ChainLength(|p.font|);
      assert Lengths(p)[..7] == [1, 1, b, 1, 1, k, 1];
    } else {
      assert Lengths(p) == [1, 1, b, 1, 1, k, 1];
    }
  }

  /** Partial sums of a list of at least seven. */
  lemma SumSeven(a: nat, b: nat, c: nat, d: nat, e: nat, f: nat, g: nat)
    ensures Sum([]) == 0 && Sum([a]) == a && Sum([a, b]) == a + b && Sum([a, b, c]) == a + b + c
    ensures Sum([a, b, c, d]) == a + b + c + d && Sum([a, b, c, d, e]) == a + b + c + d + e
    ensures Sum([a, b, c, d, e, f]) == a + b + c + d + e + f
    ensures Sum([a, b, c, d, e, f, g]) == a + b + c + d + e + f + g
  {
    assert [a][..0] == [];
    assert [a, b][..1] == [a];
    assert [a, b, c][..2] == [a, b];
    assert [a, b, c, d][..3] == [a, b, c];
    assert [a, b, c, d, e][..4] == [a, b, c, d];
    assert [a, b, c, d, e, f][..5] == [a, b, c, d, e];
    assert [a, b, c, d, e, f, g][..6] == [a, b, c, d, e, f];
  }

  lemma LengthsPrefixes(p: Plan)
    ensures var l := Lengths(p); var b, k := ChainLength(|p.boot|), ChainLength(|p.kernel|);
            && |l| == (if p.font == [] then 7 else 8)
            && Sum(l[..0]) == 0 && Sum(l[..1]) == 1 && Sum(l[..2]) == 2 && Sum(l[..3]) == 2 + b && Sum(l[..4]) == 3 + b
            && Sum(l[..5]) == 4 + b && Sum(l[..6]) == 4 + b + k && Sum(l[..7]) == 5 + b + k
  {
    var b, k := ChainLength(|p.boot|), ChainLength(|p.kernel|);
    var l := Lengths(p);
    SumSeven(1, 1, b, 1, 1, k, 1);
    assert l[..0] == [] && l[..1] == [1] && l[..2] == [1, 1] && l[..3] == [1, 1, b] && l[..4] == [1, 1, b, 1];
    assert l[..5] == [1, 1, b, 1, 1] && l[..6] == [1, 1, b, 1, 1, k] && l[..7] == [1, 1, b, 1, 1, k, 1];
  }

  /** After the allocations every directory and file of the plan has its chain. */
  lemma AllocatedChains(clusters: nat, p: Plan)
    requires Fits(p, clusters) && EFI_DIR + Sum(Lengths(p)) == Needed(p) && Formed(Empty(clusters))
    ensures Chains(TakeAll(Empty(clusters), Lengths(p)).fat, p)
  {
    hide IsChain, TakeAll, Formed, Sum;
    var d := Empty(clusters);
    var l := Lengths(p);
    LengthsSum(p);
    LengthsPrefixes(p);
    EmptyFormed(clusters);
    TakeAllKeeps(d, l, ROOT_CLUSTER, 1);
    TakeAllChain(d, l, 0);
    TakeAllChain(d, l, 1);
    TakeAllChain(d, l, 2);
    TakeAllChain(d, l, 3);
    TakeAllChain(d, l, 4);
    TakeAllChain(d, l, 5);
    TakeAllChain(d, l, 6);
    if p.font != [] {
      TakeAllChain(d, l, 7);
    }
  }

  // ----- Directories -----

  const NO_ENTRY: Entry := Entry([0, 0, 0, 0, 0, 0, 0, 0, 0, 0, 0], 0, 0, 0)

  predicate Listed(directory: Bytes, es: seq<Entry>, i: nat)
    requires |directory| == CLUSTER_SIZE && i < ENTRIES
  {
    EntryAt(directory, i) == if i < |es| then es[i] else NO_ENTRY
  }

  /** The directory holds these entries, in this order, and nothing else. */
  predicate Lists(directory: Bytes, es: seq<Entry>) {
    && |directory| == CLUSTER_SIZE && |es| <= ENTRIES
    && forall i: nat {:trigger Listed(directory, es, i)} :: i < ENTRIES ==> Listed(directory, es, i)
  }

  lemma ZerosList()
    ensures Lists(Zeros(), [])
  {
    forall i: nat | i < ENTRIES ensures Listed(Zeros(), [], i) {
      assert Zeros()[i * ENTRY..i * ENTRY + 11] == NO_ENTRY.name;
    }
  }

  lemma AppendListed(directory: Bytes, es: seq<Entry>, e: Entry)
    requires Lists(directory, es) && |es| < ENTRIES && Entries([e])
    requires |e.name| == 11 && e.cluster < 0x1_0000_0000 && e.size < 0x1_0000_0000
    ensures Lists(SetEntry(directory, |es|, e), es + [e])
  {
    hide SetEntry, EntryAt;
    var r := SetEntry(directory, |es|, e);
    forall i: nat | i < ENTRIES ensures Listed(r, es + [e], i) {
      assert Listed(directory, es, i);
      EntryRoundTrip(directory, |es|, e, i);
    }
  }

  /** Entries put into a blank cluster are exactly what it then lists. */
  lemma {:induction false} PutEntriesList(d: Disk, cluster: nat, es: seq<Entry>)
    requires Formed(d) && cluster < |d.data| && Entries(es) && d.data[cluster] == Zeros()
    ensures Lists(PutEntries(d, cluster, es).data[cluster], es)
    decreases |es|
  {
    hide Lists, SetEntry, Formed;
    if es == [] {
      ZerosList();
    } else {
      var front, e := es[..|es| - 1], es[|es| - 1];
      PutEntriesList(d, cluster, front);
      assert Entries([e]);
      AppendListed(PutEntries(d, cluster, front).data[cluster], front, e);
      assert front + [e] == es;
      PutEntryData(PutEntries(d, cluster, front), cluster, |front|, e);
    }
  }

  lemma PutEntryData(d: Disk, cluster: nat, index: nat, e: Entry)
    requires Formed(d) && cluster < |d.data| && index < ENTRIES && Entries([e])
    ensures |d.data[cluster]| == CLUSTER_SIZE && |e.name| == 11 && e.cluster < 0x1_0000_0000 && e.size < 0x1_0000_0000
    ensures PutEntry(d, cluster, index, e).data[cluster] == SetEntry(d.data[cluster], index, e)
  {
    hide SetEntry;
    assert e == [e][0];
  }

  /** All six directories hold what the plan says. */
  predicate Directories(d: Disk, p: Plan)
    requires Sane(p) && FontsDir(p) < |d.data|
  {
    && Lists(d.data[ROOT_CLUSTER], RootEntries(p)) && Lists(d.data[EFI_DIR], EfiEntries())
    && Lists(d.data[BOOT_DIR], BootEntries(p)) && Lists(d.data[SystemDir(p)], SystemEntries(p))
    && Lists(d.data[KernelDir(p)], KernelEntries(p)) && Lists(d.data[FontsDir(p)], FontsEntries(p))
  }

  lemma WriteDirectoriesExact(d: Disk, p: Plan)
    requires Formed(d) && Blank(d) && Sane(p) && Fits(p, |d.fat|)
    ensures Directories(WriteDirectories(d, p), p)
  {
    hide Formed, PutEntries, Lists, RootEntries, EfiEntries, BootEntries, SystemEntries, KernelEntries, FontsEntries, Entries;
    FormedSizes(d);
    var a := PutEntries(d, ROOT_CLUSTER, RootEntries(p));
    var b := PutEntries(a, EFI_DIR, EfiEntries());
    var c := PutEntries(b, BOOT_DIR, BootEntries(p));
    var e := PutEntries(c, SystemDir(p), SystemEntries(p));
    var f := PutEntries(e, KernelDir(p), KernelEntries(p));
    FormedSizes(a); FormedSizes(b); FormedSizes(c); FormedSizes(e); FormedSizes(f);
    PutEntriesList(d, ROOT_CLUSTER, RootEntries(p));
    PutEntriesList(a, EFI_DIR, EfiEntries());
    PutEntriesList(b, BOOT_DIR, BootEntries(p));
    PutEntriesList(c, SystemDir(p), SystemEntries(p));
    PutEntriesList(e, KernelDir(p), KernelEntries(p));
    PutEntriesList(f, FontsDir(p), FontsEntries(p));
  }

  lemma FormedSizes(d: Disk)
    requires Formed(d)
    ensures |d.fat| == |d.data|
  {
  }

  // ----- Files -----

  /** The writes to the files leave the FAT and the directories alone, and every file reads back. */
  predicate FilesThere(d: Disk, p: Plan) {
    && Read(d, BOOT_FILE, |p.boot|) == Some(p.boot)
    && Read(d, KernelFile(p), |p.kernel|) == Some(p.kernel)
    && (p.font != [] ==> Read(d, FontFile(p), |p.font|) == Some(p.font))
  }

  lemma WriteFilesExact(d: Disk, p: Plan)
    requires Formed(d) && Sane(p) && Fits(p, |d.fat|) && Chains(d.fat, p) && Directories(d, p)
    ensures var e := WriteFiles(d, p); Formed(e) && e.fat == d.fat && Directories(e, p) && FilesThere(e, p)
  {
    hide Formed, WriteFile, Read, Lists, IsChain;
    var nb, nk, nf := ChainLength(|p.boot|), ChainLength(|p.kernel|), ChainLength(|p.font|);
    FormedSizes(d);
    var a := WriteFile(d, BOOT_FILE, p.boot);
    WriteFileFrame(d, BOOT_FILE, nb, p.boot);
    ReadBack(d, BOOT_FILE, nb, p.boot);
    FormedSizes(a);
    var b := WriteFile(a, KernelFile(p), p.kernel);
    WriteFileFrame(a, KernelFile(p), nk, p.kernel);
    ReadBack(a, KernelFile(p), nk, p.kernel);
    ReadSame(a, b, BOOT_FILE, nb, |p.boot|);
    FormedSizes(b);
    if p.font != [] {
      var c := WriteFile(b, FontFile(p), p.font);
      WriteFileFrame(b, FontFile(p), nf, p.font);
      ReadBack(b, FontFile(p), nf, p.font);
      ReadSame(b, c, BOOT_FILE, nb, |p.boot|);
      ReadSame(b, c, KernelFile(p), nk, |p.kernel|);
    }
  }

  /** The image: chains, directories and files, all at once. */
  lemma BuildExact(clusters: nat, p: Plan)
    requires Sane(p) && Fits(p, clusters)
    ensures var d := Build(clusters, p);
            && Formed(d) && |d.fat| == clusters && Chains(d.fat, p) && Directories(d, p) && FilesThere(d, p)
  {
    hide Formed, Blank, Chains, Directories, FilesThere, TakeAll, WriteFiles, WriteDirectories, Sum, Empty;
    EmptyFormed(clusters);
    LengthsSum(p);
    EmptyNext(clusters);
    AllocatedChains(clusters, p);
    TakeAllFormed(Empty(clusters), Lengths(p));
    var d := TakeAll(Empty(clusters), Lengths(p));
    WriteDirectoriesExact(d, p);
    WriteFilesExact(WriteDirectories(d, p), p);
  }

  /** In the finished image the file chains have the length their sizes call for, end properly, and
      share no cluster. */
  lemma FileChainsDisjoint(clusters: nat, p: Plan)
    requires Sane(p) && Fits(p, clusters)
    ensures var fat := Build(clusters, p).fat;
            var b := Follow(fat, BOOT_FILE, clusters);
            var k := Follow(fat, KernelFile(p), clusters);
            var f := Follow(fat, FontFile(p), clusters);
            && b.Some? && |b.value| == ChainLength(|p.boot|)
            && k.Some? && |k.value| == ChainLength(|p.kernel|)
            && (forall c :: c in b.value ==> c !in k.value)
            && (p.font != [] ==>
                  && f.Some? && |f.value| == ChainLength(|p.font|)
                  && forall c :: c in f.value ==> c !in b.value && c !in k.value)
  {
    hide Build, Formed, Directories, FilesThere, IsChain, Follow;
    BuildExact(clusters, p);
    var fat := Build(clusters, p).fat;
    ChainFollowed(fat, BOOT_FILE, ChainLength(|p.boot|), clusters);
    ChainFollowed(fat, KernelFile(p), ChainLength(|p.kernel|), clusters);
    if p.font != [] {
      ChainFollowed(fat, FontFile(p), ChainLength(|p.font|), clusters);
    }
  }

  /** Taking chains changes no entry but theirs. */
  lemma {:induction false} TakeAllFrame(d: Disk, lengths: seq<nat>, c: nat)
    requires |d.fat| == |d.data| && d.next + Sum(lengths) <= |d.fat| && c < |d.fat|
    requires c < d.next || d.next + Sum(lengths) <= c
    ensures TakeAll(d, lengths).fat[c] == d.fat[c]
    decreases |lengths|
  {
    if lengths != [] {
      TakeAllFrame(d, lengths[..|lengths| - 1], c);
    }
  }

  /** The FAT beside the chains: the media byte in entry 0, an end mark in entry 1, and every cluster that is
      not needed free. */
  lemma FatBesideChains(clusters: nat, p: Plan, c: nat)
    requires Sane(p) && Fits(p, clusters) && c < clusters
    ensures var fat := Build(clusters, p).fat;
            && |fat| == clusters && fat[0] == 0x0FFF_FFF8 && fat[1] >= 0x0FFF_FFF8
            && (c >= Needed(p) ==> fat[c] == 0)
  {
    hide Formed, Chains, Directories, FilesThere, TakeAll, Sum, WriteFiles, WriteDirectories;
    BuildExact(clusters, p);
    EmptyFormed(clusters);
    LengthsSum(p);
    EmptyNext(clusters);
    AllocatedChains(clusters, p);
    TakeAllFormed(Empty(clusters), Lengths(p));
    var d := TakeAll(Empty(clusters), Lengths(p));
    WriteDirectoriesExact(d, p);
    WriteFilesExact(WriteDirectories(d, p), p);
    TakeAllFrame(Empty(clusters), Lengths(p), 0);
    TakeAllFrame(Empty(clusters), Lengths(p), 1);
    if c >= Needed(p) {
      TakeAllFrame(Empty(clusters), Lengths(p), c);
    }
  }

  lemma EmptyNext(clusters: nat)
    ensures Empty(clusters).next == EFI_DIR && |Empty(clusters).fat| == |Empty(clusters).data| == clusters
  {
  }

  // ----- The reader -----

  /** The first entry of that name, from an index on. */
  function Find(directory: Bytes, name: Bytes, index: nat): Option<Entry>
    requires |directory| == CLUSTER_SIZE && index <= ENTRIES
    decreases ENTRIES - index
  {
    if index == ENTRIES then None
    else if EntryAt(directory, index).name == name then Some(EntryAt(directory, index))
    else Find(directory, name, index + 1)
  }

  /** The attribute bit that tells a directory from a file. */
  predicate IsDirectory(e: Entry) {
    e.attributes / 16 % 2 == 1
  }

  /** Walks the path from a directory, by name, through directories only, and reads the file at its end. */
  function ReadPath(d: Disk, cluster: nat, path: seq<Bytes>): Option<Bytes>
    decreases |path|
  {
    if path == [] || cluster < ROOT_CLUSTER || cluster >= |d.data| || |d.data[cluster]| != CLUSTER_SIZE then None
    else
      var e := Find(d.data[cluster], path[0], 0);
      if e.None? || (IsDirectory(e.value) <==> |path| == 1) then None
      else if |path| == 1 then Read(d, e.value.cluster, e.value.size)
      else ReadPath(d, e.value.cluster, path[1..])
  }

  lemma {:induction false} FindFirst(directory: Bytes, es: seq<Entry>, k: nat, index: nat)
    requires Lists(directory, es) && index <= k < |es| && forall i :: index <= i < k ==> es[i].name != es[k].name
    ensures Find(directory, es[k].name, index) == Some(es[k])
    decreases k - index
  {
    hide EntryAt;
    assert Listed(directory, es, index);
    if index < k {
      FindFirst(directory, es, k, index + 1);
    }
  }

  lemma {:induction false} FindNone(directory: Bytes, es: seq<Entry>, name: Bytes, index: nat)
    requires Lists(directory, es) && index <= ENTRIES && name != NO_ENTRY.name && forall i :: 0 <= i < |es| ==> es[i].name != name
    ensures Find(directory, name, index) == None
    decreases ENTRIES - index
  {
    hide EntryAt;
    if index < ENTRIES {
      assert Listed(directory, es, index);
      FindNone(directory, es, name, index + 1);
    }
  }

  /** Two padded names differ when a place of either field does. */
  lemma NamesDiffer(b: Bytes, x: Bytes, c: Bytes, y: Bytes, i: nat)
    requires (i < 8 && Field(b, 8)[i] != Field(c, 8)[i]) || (i < 3 && Field(x, 3)[i] != Field(y, 3)[i])
    ensures FillName(b, x) != FillName(c, y)
  {
    if i < 8 && Field(b, 8)[i] != Field(c, 8)[i] {
      assert FillName(b, x)[i] != FillName(c, y)[i];
    } else {
      assert FillName(b, x)[8 + i] != FillName(c, y)[8 + i];
    }
  }

  lemma RealName(b: Bytes, x: Bytes)
    requires |x| > 0 && x[0] != 0
    ensures FillName(b, x) != NO_ENTRY.name
  {
    assert FillName(b, x)[8] == x[0];
  }

  /** The codes of plain characters. */
  function Ascii(text: string): (r: Bytes)
    requires forall i :: 0 <= i < |text| ==> text[i] < 128 as char
    ensures |r| == |text| && forall i :: 0 <= i < |text| ==> r[i] == text[i] as int
  {
    seq(|text|, i requires 0 <= i < |text| => text[i] as int)
  }

  // The paths, as names appear in directory entries: eight characters and three.
  function BootPath(): seq<Bytes> { [Ascii("EFI        "), Ascii("BOOT       "), Ascii("BOOTX64 EFI")] }
  function KernelPath(p: Plan): seq<Bytes> { [Ascii("SYSTEM     "), FillName(p.directory, []), FillName(p.file, Ascii("ELF"))] }
  function FontPath(): seq<Bytes> { [Ascii("SYSTEM     "), Ascii("FONTS      "), Ascii("ORYNSANSTTF")] }

  /** The names the writer fills in are those. */
  lemma PathNames()
    ensures BootPath() == [FillName(EFI, []), FillName(BOOT, []), FillName(BOOTX64, EFI)]
    ensures FontPath() == [FillName(SYSTEM, []), FillName(FONTS, []), FillName(ORYNSANS, TTF)]
    ensures Ascii("ELF") == ELF
  {
    forall k, i | 0 <= k < 3 && 0 <= i < 11
      ensures BootPath()[k][i] == [FillName(EFI, []), FillName(BOOT, []), FillName(BOOTX64, EFI)][k][i]
      ensures FontPath()[k][i] == [FillName(SYSTEM, []), FillName(FONTS, []), FillName(ORYNSANS, TTF)][k][i]
    {
    }
    assert Ascii("ELF") == ELF;
    SamePaths(BootPath(), [FillName(EFI, []), FillName(BOOT, []), FillName(BOOTX64, EFI)]);
    SamePaths(FontPath(), [FillName(SYSTEM, []), FillName(FONTS, []), FillName(ORYNSANS, TTF)]);
  }

  lemma SamePaths(a: seq<Bytes>, b: seq<Bytes>)
    requires |a| == |b| == 3 && forall k :: 0 <= k < 3 ==> |a[k]| == |b[k]| == 11
    requires forall k, i :: 0 <= k < 3 && 0 <= i < 11 ==> a[k][i] == b[k][i]
    ensures a == b
  {
    forall k | 0 <= k < 3 ensures a[k] == b[k] {
      assert forall i :: 0 <= i < 11 ==> a[k][i] == b[k][i];
    }
  }

  /** What the writer marks as a directory is one to the reader, and a file is not. */
  lemma KindsTold(base: Bytes, extension: Bytes, cluster: nat, size: nat)
    ensures IsDirectory(Folder(base, cluster)) && !IsDirectory(File(base, extension, cluster, size))
    ensures Folder(base, cluster) == Entry(FillName(base, []), 0x10, cluster, 0)
    ensures File(base, extension, cluster, size) == Entry(FillName(base, extension), 0x20, cluster, size)
  {
  }

  /** Each directory starts with itself and the directory above, by their dot names; EFI is at cluster 3 below
      the root at 2, and BOOT at 4 below that. */
  lemma DotsLead(p: Plan)
    requires Sane(p)
    ensures var self := Ascii(".          "); var above := Ascii("..         ");
            && EfiEntries()[..2] == [Entry(self, 0x10, 3, 0), Entry(above, 0x10, 2, 0)]
            && BootEntries(p)[..2] == [Entry(self, 0x10, 4, 0), Entry(above, 0x10, 3, 0)]
            && SystemEntries(p)[..2] == [Entry(self, 0x10, SystemDir(p), 0), Entry(above, 0x10, 2, 0)]
            && KernelEntries(p)[..2] == [Entry(self, 0x10, KernelDir(p), 0), Entry(above, 0x10, SystemDir(p), 0)]
            && FontsEntries(p)[..2] == [Entry(self, 0x10, FontsDir(p), 0), Entry(above, 0x10, SystemDir(p), 0)]
  {
    DotNames();
    hide FillName;
  }

  lemma DotNames()
    ensures FillName(DOT, []) == Ascii(".          ") && FillName(DOTDOT, []) == Ascii("..         ")
  {
    forall i | 0 <= i < 11
      ensures FillName(DOT, [])[i] == Ascii(".          ")[i] && FillName(DOTDOT, [])[i] == Ascii("..         ")[i]
    {
      FillNameIs(DOT, [], i);
      FillNameIs(DOTDOT, [], i);
    }
  }

  /** Two steps down and a file at the end. */
  lemma ReadThree(d: Disk, cluster: nat, path: seq<Bytes>)
    requires |path| == 3
    ensures ReadPath(d, cluster, path) ==
            if cluster < ROOT_CLUSTER || cluster >= |d.data| || |d.data[cluster]| != CLUSTER_SIZE then None
            else var e := Find(d.data[cluster], path[0], 0);
              if e.None? || !IsDirectory(e.value) then None else ReadPath(d, e.value.cluster, [path[1], path[2]])
    ensures ReadPath(d, cluster, [path[1], path[2]]) ==
            if cluster < ROOT_CLUSTER || cluster >= |d.data| || |d.data[cluster]| != CLUSTER_SIZE then None
            else var e := Find(d.data[cluster], path[1], 0);
              if e.None? || !IsDirectory(e.value) then None else ReadPath(d, e.value.cluster, [path[2]])
    ensures ReadPath(d, cluster, [path[2]]) ==
            if cluster < ROOT_CLUSTER || cluster >= |d.data| || |d.data[cluster]| != CLUSTER_SIZE then None
            else var e := Find(d.data[cluster], path[2], 0);
              if e.None? || IsDirectory(e.value) then None else Read(d, e.value.cluster, e.value.size)
  {
    hide Find, Read;
    assert path[1..] == [path[1], path[2]];
    assert [path[1], path[2]][1..] == [path[2]];
  }

  /** \EFI\BOOT\BOOTX64.EFI reads back as the boot file. */
  lemma BootFileFound(clusters: nat, p: Plan)
    requires Sane(p) && Fits(p, clusters)
    ensures ReadPath(Build(clusters, p), ROOT_CLUSTER, BootPath()) == Some(p.boot)
  {
    hide Build, Read, Find, Lists, Chains, FillName, ReadPath, Ascii;
    var d := Build(clusters, p);
    BuildExact(clusters, p);
    PathNames();
    KindsTold(EFI, [], EFI_DIR, 0);
    ReadThree(d, ROOT_CLUSTER, BootPath());
    ReadThree(d, EFI_DIR, BootPath());
    ReadThree(d, BOOT_DIR, BootPath());
    FindFirst(d.data[ROOT_CLUSTER], RootEntries(p), 0, 0);
    NamesDiffer(DOT, [], BOOT, [], 0);
    NamesDiffer(DOTDOT, [], BOOT, [], 0);
    FindFirst(d.data[EFI_DIR], EfiEntries(), 2, 0);
    NamesDiffer(DOT, [], BOOTX64, EFI, 0);
    NamesDiffer(DOTDOT, [], BOOTX64, EFI, 0);
    FindFirst(d.data[BOOT_DIR], BootEntries(p), 2, 0);
  }

  /** The kernel directory is not named like a dot entry. */
  predicate DirectoryNamed(p: Plan) {
    FillName(p.directory, []) != FillName(DOT, []) && FillName(p.directory, []) != FillName(DOTDOT, [])
  }

  lemma SystemFound(d: Disk, p: Plan)
    requires Sane(p) && Formed(d) && FontsDir(p) < |d.data| && Directories(d, p)
    ensures Find(d.data[ROOT_CLUSTER], FillName(SYSTEM, []), 0) == Some(Folder(SYSTEM, SystemDir(p)))
  {
    hide Find, Lists;
    NamesDiffer(EFI, [], SYSTEM, [], 0);
    FindFirst(d.data[ROOT_CLUSTER], RootEntries(p), 1, 0);
  }

  /** The path of the kernel reads back as the kernel exactly when the kernel directory is not named
      like a dot entry. */
  lemma KernelFound(clusters: nat, p: Plan)
    requires Sane(p) && Fits(p, clusters)
    ensures ReadPath(Build(clusters, p), ROOT_CLUSTER, KernelPath(p)) == Some(p.kernel) <==> DirectoryNamed(p)
  {
    hide Build, Read, Find, Lists, Chains, FillName, ReadPath, Ascii;
    var d := Build(clusters, p);
    BuildExact(clusters, p);
    PathNames();
    SystemFound(d, p);
    ReadThree(d, ROOT_CLUSTER, KernelPath(p));
    ReadThree(d, SystemDir(p), KernelPath(p));
    ReadThree(d, KernelDir(p), KernelPath(p));
    var name := FillName(p.file, ELF);
    RealName(p.file, ELF);
    NamesDiffer(DOT, [], p.file, ELF, 0);
    NamesDiffer(DOTDOT, [], p.file, ELF, 0);
    if FillName(p.directory, []) == FillName(DOT, []) {
      FindFirst(d.data[SystemDir(p)], SystemEntries(p), 0, 0);
      NamesDiffer(p.directory, [], p.file, ELF, 0);
      NamesDiffer(FONTS, [], p.file, ELF, 0);
      FindNone(d.data[SystemDir(p)], SystemEntries(p), name, 0);
    } else if FillName(p.directory, []) == FillName(DOTDOT, []) {
      NamesDiffer(DOT, [], DOTDOT, [], 1);
      FindFirst(d.data[SystemDir(p)], SystemEntries(p), 1, 0);
      NamesDiffer(EFI, [], p.file, ELF, 0);
      NamesDiffer(SYSTEM, [], p.file, ELF, 0);
      FindNone(d.data[ROOT_CLUSTER], RootEntries(p), name, 0);
      ReadThree(d, ROOT_CLUSTER, KernelPath(p));
    } else {
      FindFirst(d.data[SystemDir(p)], SystemEntries(p), 2, 0);
      FindFirst(d.data[KernelDir(p)], KernelEntries(p), 2, 0);
    }
  }

  /** A font, when there is one, reads back exactly when the kernel directory does not hide FONTS. */
  lemma FontFound(clusters: nat, p: Plan)
    requires Sane(p) && Fits(p, clusters) && p.font != []
    ensures ReadPath(Build(clusters, p), ROOT_CLUSTER, FontPath()) == Some(p.font)
       <==> FillName(p.directory, []) != FillName(FONTS, [])
  {
    hide Build, Read, Find, Lists, Chains, FillName, ReadPath, Ascii;
    var d := Build(clusters, p);
    BuildExact(clusters, p);
    PathNames();
    SystemFound(d, p);
    ReadThree(d, ROOT_CLUSTER, FontPath());
    ReadThree(d, SystemDir(p), FontPath());
    ReadThree(d, KernelDir(p), FontPath());
    ReadThree(d, FontsDir(p), FontPath());
    NamesDiffer(DOT, [], FONTS, [], 0);
    NamesDiffer(DOTDOT, [], FONTS, [], 0);
    NamesDiffer(DOT, [], ORYNSANS, TTF, 0);
    NamesDiffer(DOTDOT, [], ORYNSANS, TTF, 0);
    if FillName(p.directory, []) == FillName(FONTS, []) {
      FindFirst(d.data[SystemDir(p)], SystemEntries(p), 2, 0);
      NamesDiffer(p.file, ELF, ORYNSANS, TTF, 0);
      RealName(ORYNSANS, TTF);
      FindNone(d.data[KernelDir(p)], KernelEntries(p), FillName(ORYNSANS, TTF), 0);
    } else {
      FindFirst(d.data[SystemDir(p)], SystemEntries(p), 3, 0);
      FindFirst(d.data[FontsDir(p)], FontsEntries(p), 2, 0);
    }
  }
}
