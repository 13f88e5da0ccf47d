/** Sealing and verifying the boot handoff: which bytes are covered, and what a seal detects. */
module HandoffChecksum {
  import opened Arithmetic
  import opened HandoffCrc

  const INFO_SIZE: nat := 2216
  const CHECKSUM_OFFSET: nat := 52
  const CHECKSUM_END: nat := 56
  const ENTRY_SIZE: nat := 40
  const MAX_MAP: nat := 1048576
  const MAX_FONT: nat := 8388608
  const SIGNATURE: nat := 0x544F_4F42_4E59_524F
  const VERSION: nat := 7

  /** The boot information as bytes, and the memory its map and font pointers lead to. */
  datatype Handoff = Handoff(info: Bytes, mapMemory: Bytes, fontMemory: Bytes)

  predicate Formed(h: Handoff) {
    |h.info| == INFO_SIZE && |h.mapMemory| == MAX_MAP && |h.fontMemory| == MAX_FONT
  }

  /** The little-endian number in some bytes. */
  function Number(b: Bytes): nat
    decreases |b|
  {
    if b == [] then 0 else (b[0] as nat) + 256 * Number(b[1..])
  }

  function FieldOf(info: Bytes, from: nat, to: nat): nat
    requires from <= to <= |info|
  {
    Number(info[from..to])
  }

  function Field(h: Handoff, from: nat, to: nat): nat
    requires Formed(h) && from <= to <= INFO_SIZE
  {
    FieldOf(h.info, from, to)
  }

  // The fields that are looked at, at their offsets in the structure.
  function Signature(h: Handoff): nat requires Formed(h) { Field(h, 0, 8) }
  function Version(h: Handoff): nat requires Formed(h) { Field(h, 8, 12) }
  function Size(h: Handoff): nat requires Formed(h) { Field(h, 12, 16) }
  function Flags(h: Handoff): nat requires Formed(h) { Field(h, 16, 24) }
  function MapAddress(h: Handoff): nat requires Formed(h) { Field(h, 24, 32) }
  function MapCount(h: Handoff): nat requires Formed(h) { Field(h, 32, 40) }
  function MapEntrySize(h: Handoff): nat requires Formed(h) { Field(h, 40, 48) }
  function FontAddress(h: Handoff): nat requires Formed(h) { Field(h, 1240, 1248) }
  function FontSize(h: Handoff): nat requires Formed(h) { Field(h, 1248, 1256) }

  predicate HasMap(h: Handoff) requires Formed(h) { Flags(h) % 2 == 1 }
  predicate HasFont(h: Handoff) requires Formed(h) { Flags(h) / 16 % 2 == 1 }

  predicate Compatible(h: Handoff)
    requires Formed(h)
  {
    Signature(h) == SIGNATURE && Version(h) == VERSION && Size(h) >= INFO_SIZE && Flags(h) < 0x1000
  }

  function MapBytes(h: Handoff): nat
    requires Formed(h)
  {
    MapCount(h) * MapEntrySize(h)
  }

  /** The map is there, in whole entries, and not too long. */
  predicate MapUsable(h: Handoff)
    requires Formed(h)
  {
    && MapEntrySize(h) >= ENTRY_SIZE && MapCount(h) <= MAX_MAP / MapEntrySize(h)
    && MapAddress(h) != 0 && 0 < MapBytes(h) <= MAX_MAP
  }

  predicate FontUsable(h: Handoff)
    requires Formed(h)
  {
    FontAddress(h) != 0 && 0 < FontSize(h) <= MAX_FONT
  }

  predicate Computable(h: Handoff)
    requires Formed(h)
  {
    Compatible(h) && (HasMap(h) ==> MapUsable(h)) && (HasFont(h) ==> FontUsable(h))
  }

  /** Everything the checksum is taken over: the information without its checksum field, then the
      memory map, then the font. */
  function Covered(h: Handoff): Bytes
    requires Formed(h) && Computable(h)
  {
    h.info[..CHECKSUM_OFFSET] + h.info[CHECKSUM_END..]
    + (if HasMap(h) then h.mapMemory[..MapBytes(h)] else [])
    + (if HasFont(h) then h.fontMemory[..FontSize(h)] else [])
  }

  /** The CRC of some bytes, before 0 is kept for "no checksum". */
  function Crc(bytes: Bytes): bv32 {
    Xor(Update(INITIAL, bytes), INITIAL)
  }

  /** 0 means not computable, so a CRC of 0 is reported as all ones. */
  function Merge(c: bv32): bv32 {
    if c == 0 then INITIAL else c
  }

  function Compute(h: Handoff): bv32
    requires Formed(h)
  {
    if Computable(h) then Merge(Crc(Covered(h))) else 0
  }

  // ----- The checksum field -----

  function WordBytes(v: bv32): (b: Bytes)
    ensures |b| == 4
  {
    [(v & 0xFF) as bv8, ((v >> 8) & 0xFF) as bv8, ((v >> 16) & 0xFF) as bv8, (v >> 24) as bv8]
  }

  function ReadWord(b: Bytes): bv32
    requires |b| == 4
  {
    Word(b[0], b[1], b[2], b[3])
  }

  lemma WordRoundTrip(v: bv32)
    ensures ReadWord(WordBytes(v)) == v
  {
  }

  function Stored(h: Handoff): bv32
    requires Formed(h)
  {
    ReadWord(h.info[CHECKSUM_OFFSET..CHECKSUM_END])
  }

  function Store(h: Handoff, v: bv32): (r: Handoff)
    requires Formed(h)
    ensures Formed(r)
  {
    h.(info := h.info[..CHECKSUM_OFFSET] + WordBytes(v) + h.info[CHECKSUM_END..])
  }

  function Seal(h: Handoff): (r: Handoff)
    requires Formed(h)
    ensures Formed(r)
  {
    Store(Store(h, 0), Compute(Store(h, 0)))
  }

  predicate Verify(h: Handoff)
    requires Formed(h)
  {
    Stored(h) != 0 && Compute(h) != 0 && Compute(h) == Stored(h)
  }

  // ----- Sealing -----

  lemma FieldStays(h: Handoff, v: bv32, from: nat, to: nat)
    requires Formed(h) && from <= to <= INFO_SIZE && (to <= CHECKSUM_OFFSET || from >= CHECKSUM_END)
    ensures Field(Store(h, v), from, to) == Field(h, from, to)
  {
    hide WordBytes, Number;
    assert Store(h, v).info[from..to] == h.info[from..to];
  }

  /** The checksum does not depend on its own field. */
  lemma StoreChangesNothingCovered(h: Handoff, v: bv32)
    requires Formed(h)
    ensures Computable(Store(h, v)) <==> Computable(h)
    ensures Computable(h) ==> Covered(Store(h, v)) == Covered(h)
    ensures Compute(Store(h, v)) == Compute(h)
  {
    hide WordBytes, FieldOf, Crc, Merge;
    FieldStays(h, v, 0, 8);
    FieldStays(h, v, 8, 12);
    FieldStays(h, v, 12, 16);
    FieldStays(h, v, 16, 24);
    FieldStays(h, v, 24, 32);
    FieldStays(h, v, 32, 40);
    FieldStays(h, v, 40, 48);
    FieldStays(h, v, 1240, 1248);
    FieldStays(h, v, 1248, 1256);
    CoveredInfoSame(h, v);
  }

  lemma CoveredInfoSame(h: Handoff, v: bv32)
    requires Formed(h)
    ensures var s := Store(h, v);
            s.info[..CHECKSUM_OFFSET] == h.info[..CHECKSUM_OFFSET] && s.info[CHECKSUM_END..] == h.info[CHECKSUM_END..]
            && s.mapMemory == h.mapMemory && s.fontMemory == h.fontMemory
  {
    hide WordBytes;
  }

  lemma StoredIs(h: Handoff, v: bv32)
    requires Formed(h)
    ensures Stored(Store(h, v)) == v
  {
    hide WordBytes, ReadWord;
    assert Store(h, v).info[CHECKSUM_OFFSET..CHECKSUM_END] == WordBytes(v);
    WordRoundTrip(v);
  }

  lemma ComputeIsZero(h: Handoff)
    requires Formed(h)
    ensures Compute(h) == 0 <==> !Computable(h)
  {
    hide Crc, Covered;
  }

  /** A sealed handoff verifies exactly when its checksum can be computed. */
  lemma SealVerifies(h: Handoff)
    requires Formed(h)
    ensures Verify(Seal(h)) <==> Computable(h)
    ensures Compute(Seal(h)) == Compute(h) && Stored(Seal(h)) == Compute(h)
  {
    hide Store, Compute, Stored, Computable;
    StoreChangesNothingCovered(h, 0);
    var z := Store(h, 0);
    StoreChangesNothingCovered(z, Compute(z));
    StoredIs(z, Compute(z));
    ComputeIsZero(h);
  }

  // ----- Detection -----

  lemma MergeExact(x: bv32, y: bv32)
    requires x != y
    ensures Merge(x) == Merge(y) <==> {x, y} == {0, INITIAL}
  {
  }

  lemma CrcDiffers(x: Bytes, y: Bytes)
    ensures Crc(x) == Crc(y) <==> Update(INITIAL, x) == Update(INITIAL, y)
  {
    hide Update, Xor;
    XorFacts(Update(INITIAL, x), INITIAL, 0);
    XorFacts(Update(INITIAL, y), INITIAL, 0);
  }

  /** The covered bytes of two handoffs differ only within four bytes in a row. */
  predicate DifferAt(x: Bytes, y: Bytes, at: nat, n: nat) {
    && |x| == |y| && n <= 4 && at + n <= |x| && x != y
    && x[..at] == y[..at] && x[at + n..] == y[at + n..]
  }

  /** A change within four covered bytes in a row is detected, unless it is the one pair of CRCs that
      the reserved 0 merges. */
  lemma ChangeDetectedExactly(sealed: Handoff, changed: Handoff, at: nat, n: nat)
    requires Formed(sealed) && Formed(changed) && Verify(sealed) && Computable(changed)
    requires Stored(changed) == Stored(sealed)
    requires Computable(sealed) && DifferAt(Covered(sealed), Covered(changed), at, n)
    ensures Verify(changed) <==> {Crc(Covered(sealed)), Crc(Covered(changed))} == {0, INITIAL}
  {
    hide Covered, Update, Merge, Computable, Stored, Crc;
    var x, y := Covered(sealed), Covered(changed);
    var p, q := x[at..at + n], y[at..at + n];
    assert x == x[..at] + p + x[at + n..] && y == y[..at] + q + y[at + n..];
    BurstChangesState(INITIAL, x[..at], p, q, x[at + n..]);
    CrcDiffers(x, y);
    MergeExact(Crc(x), Crc(y));
    ComputeIsZero(changed);
  }

  /** The same memory is covered: the same flags for map and font, and for each that is there the same
      place and length. */
  predicate SameRanges(h: Handoff, g: Handoff)
    requires Formed(h) && Formed(g)
  {
    && HasMap(g) == HasMap(h) && HasFont(g) == HasFont(h)
    && (HasMap(h) ==> MapAddress(g) == MapAddress(h) && MapBytes(g) == MapBytes(h))
    && (HasFont(h) ==> FontAddress(g) == FontAddress(h) && FontSize(g) == FontSize(h))
  }

  /** The bytes of the fields that choose what is covered. */
  predicate Selecting(i: nat) {
    16 <= i < 48 || 1240 <= i < 1256
  }

  predicate Outside(from: nat, to: nat, i: nat) {
    i < from || i >= to
  }

  lemma FieldSame(h: Handoff, i: nat, b: bv8, from: nat, to: nat)
    requires Formed(h) && i < INFO_SIZE && from <= to <= INFO_SIZE && Outside(from, to, i)
    ensures Field(h.(info := h.info[i := b]), from, to) == Field(h, from, to)
  {
    hide Number;
    assert h.info[i := b][from..to] == h.info[from..to];
  }

  /** A byte of any other field chooses no range. */
  lemma OtherByteSameRanges(h: Handoff, i: nat, b: bv8)
    requires Formed(h) && i < INFO_SIZE && !Selecting(i)
    ensures SameRanges(h, h.(info := h.info[i := b]))
  {
    hide FieldOf;
    FieldSame(h, i, b, 16, 24);
    FieldSame(h, i, b, 24, 32);
    FieldSame(h, i, b, 32, 40);
    FieldSame(h, i, b, 40, 48);
    FieldSame(h, i, b, 1240, 1248);
    FieldSame(h, i, b, 1248, 1256);
  }

  /** Changing a byte of the information, and no range, changes one covered byte. */
  lemma InfoByteCovered(h: Handoff, i: nat, b: bv8)
    requires Formed(h) && Computable(h) && i < INFO_SIZE && Outside(CHECKSUM_OFFSET, CHECKSUM_END, i) && h.info[i] != b
    requires var g := h.(info := h.info[i := b]); Computable(g) && SameRanges(h, g)
    ensures var g := h.(info := h.info[i := b]);
            Stored(g) == Stored(h) && DifferAt(Covered(h), Covered(g), if i < CHECKSUM_OFFSET then i else i - 4, 1)
  {
    hide FieldOf, ReadWord, DifferAt, Computable, Covered, Blocks, SameRanges;
    var g := h.(info := h.info[i := b]);
    assert g.info[CHECKSUM_OFFSET..CHECKSUM_END] == h.info[CHECKSUM_OFFSET..CHECKSUM_END];
    var at := if i < CHECKSUM_OFFSET then i else i - 4;
    var x, y := h.info[..CHECKSUM_OFFSET] + h.info[CHECKSUM_END..], g.info[..CHECKSUM_OFFSET] + g.info[CHECKSUM_END..];
    OneByte(h.info, i, b);
    SameBlocks(h, g);
    DifferBefore(x, y, at, 1, Blocks(h));
    CoveredIs(h);
    CoveredIs(g);
  }

  /** The covered bytes outside the information. */
  function Blocks(h: Handoff): Bytes
    requires Formed(h) && Computable(h)
  {
    RangesLong(h);
    (if HasMap(h) then h.mapMemory[..MapBytes(h)] else []) + (if HasFont(h) then h.fontMemory[..FontSize(h)] else [])
  }

  lemma CoveredIs(h: Handoff)
    requires Formed(h) && Computable(h)
    ensures Covered(h) == h.info[..CHECKSUM_OFFSET] + h.info[CHECKSUM_END..] + Blocks(h)
  {
    hide Computable, HasMap, HasFont, MapBytes, FontSize;
    RangesLong(h);
  }

  lemma SameBlocks(h: Handoff, g: Handoff)
    requires Formed(h) && Formed(g) && Computable(h) && Computable(g) && SameRanges(h, g)
    requires g.mapMemory == h.mapMemory && g.fontMemory == h.fontMemory
    ensures Blocks(g) == Blocks(h)
  {
    hide Computable, HasMap, HasFont, MapBytes, FontSize, MapAddress, FontAddress;
    RangesLong(h);
  }

  lemma RangesLong(h: Handoff)
    requires Formed(h) && Computable(h)
    ensures (HasMap(h) ==> MapBytes(h) <= MAX_MAP) && (HasFont(h) ==> FontSize(h) <= MAX_FONT)
  {
    hide Field;
  }

  lemma OneByte(info: Bytes, i: nat, b: bv8)
    requires |info| == INFO_SIZE && i < INFO_SIZE && Outside(CHECKSUM_OFFSET, CHECKSUM_END, i) && info[i] != b
    ensures var other := info[i := b];
            DifferAt(info[..CHECKSUM_OFFSET] + info[CHECKSUM_END..], other[..CHECKSUM_OFFSET] + other[CHECKSUM_END..],
                     if i < CHECKSUM_OFFSET then i else i - 4, 1)
  {
    var other := info[i := b];
    var x, y := info[..CHECKSUM_OFFSET] + info[CHECKSUM_END..], other[..CHECKSUM_OFFSET] + other[CHECKSUM_END..];
    var at := if i < CHECKSUM_OFFSET then i else i - 4;
    assert x[at] == info[i] && y[at] == b;
    assert x[..at] == y[..at];
    assert x[at + 1..] == y[at + 1..];
  }

  lemma DifferBefore(x: Bytes, y: Bytes, at: nat, n: nat, rest: Bytes)
    requires DifferAt(x, y, at, n)
    ensures DifferAt(x + rest, y + rest, at, n)
  {
    assert (x + rest)[..at] == x[..at] && (y + rest)[..at] == y[..at];
    assert (x + rest)[at + n..] == x[at + n..] + rest && (y + rest)[at + n..] == y[at + n..] + rest;
    assert (x + rest)[..|x|] == x && (y + rest)[..|x|] == y;
  }

  /** So a sealed handoff with one byte of its information changed, and no covered range, is refused: at
      once if that byte makes it incompatible or a range unusable, and else unless its CRC and the
      changed one are the merged pair. */
  lemma InfoByteDetected(h: Handoff, i: nat, b: bv8)
    requires Formed(h) && Computable(h) && i < INFO_SIZE && Outside(CHECKSUM_OFFSET, CHECKSUM_END, i)
    requires Seal(h).info[i] != b && SameRanges(Seal(h), Seal(h).(info := Seal(h).info[i := b]))
    ensures var s := Seal(h); var g := s.(info := s.info[i := b]);
            && Formed(g) && Computable(s)
            && (Verify(g) <==> Computable(g) && {Crc(Covered(s)), Crc(Covered(g))} == {0, INITIAL})
  {
    hide Computable, Covered, Crc, Stored, Verify, Seal, Compute, SameRanges;
    var s := Seal(h);
    var g := s.(info := s.info[i := b]);
    SealVerifies(h);
    ComputeIsZero(h);
    ComputeIsZero(s);
    if Computable(g) {
      InfoByteCovered(s, i, b);
      ChangeDetectedExactly(s, g, if i < CHECKSUM_OFFSET then i else i - 4, 1);
    } else {
      NotComputable(g);
    }
  }

  lemma NotComputable(h: Handoff)
    requires Formed(h) && !Computable(h)
    ensures !Verify(h)
  {
    ComputeIsZero(h);
  }

  lemma DifferAfter(front: Bytes, x: Bytes, y: Bytes, at: nat, n: nat)
    requires DifferAt(x, y, at, n)
    ensures DifferAt(front + x, front + y, |front| + at, n)
  {
    assert (front + x)[..|front| + at] == front + x[..at] && (front + y)[..|front| + at] == front + y[..at];
    assert (front + x)[|front| + at + n..] == x[at + n..] && (front + y)[|front| + at + n..] == y[at + n..];
    assert (front + x)[|front|..] == x && (front + y)[|front|..] == y;
  }

  lemma BlockByte(block: Bytes, length: nat, i: nat, b: bv8)
    requires i < length <= |block| && block[i] != b
    ensures DifferAt(block[..length], block[i := b][..length], i, 1)
  {
    var x, y := block[..length], block[i := b][..length];
    assert x[i] == block[i] && y[i] == b;
    assert x[i + 1..] == y[i + 1..];
  }

  lemma MapByteCovered(s: Handoff, i: nat, b: bv8)
    requires Formed(s) && Computable(s) && HasMap(s) && i < MapBytes(s) && s.mapMemory[i] != b
    ensures var g := s.(mapMemory := s.mapMemory[i := b]);
            Formed(g) && Computable(g) && Stored(g) == Stored(s)
            && DifferAt(Covered(s), Covered(g), INFO_SIZE - 4 + i, 1)
  {
    hide FieldOf, DifferAt, ReadWord;
    var g := s.(mapMemory := s.mapMemory[i := b]);
    SameInfo(s, g);
    var info := s.info[..CHECKSUM_OFFSET] + s.info[CHECKSUM_END..];
    var x, y := s.mapMemory[..MapBytes(s)], g.mapMemory[..MapBytes(s)];
    var font := if HasFont(s) then s.fontMemory[..FontSize(s)] else [];
    BlockByte(s.mapMemory, MapBytes(s), i, b);
    DifferAfter(info, x, y, i, 1);
    DifferBefore(info + x, info + y, |info| + i, 1, font);
  }

  lemma FontByteCovered(s: Handoff, i: nat, b: bv8)
    requires Formed(s) && Computable(s) && HasFont(s) && i < FontSize(s) && s.fontMemory[i] != b
    ensures var g := s.(fontMemory := s.fontMemory[i := b]);
            var at := INFO_SIZE - 4 + (if HasMap(s) then MapBytes(s) else 0) + i;
            Formed(g) && Computable(g) && Stored(g) == Stored(s) && DifferAt(Covered(s), Covered(g), at, 1)
  {
    hide FieldOf, DifferAt, ReadWord;
    var g := s.(fontMemory := s.fontMemory[i := b]);
    SameInfo(s, g);
    var front := s.info[..CHECKSUM_OFFSET] + s.info[CHECKSUM_END..] + (if HasMap(s) then s.mapMemory[..MapBytes(s)] else []);
    BlockByte(s.fontMemory, FontSize(s), i, b);
    DifferAfter(front, s.fontMemory[..FontSize(s)], g.fontMemory[..FontSize(s)], i, 1);
  }

  /** A changed byte of the memory map, or of the font, is refused in the same way. */
  lemma BlockByteDetected(h: Handoff, inMap: bool, i: nat, b: bv8)
    requires Formed(h) && Computable(h)
    requires if inMap then HasMap(h) && i < MapBytes(h) && h.mapMemory[i] != b else HasFont(h) && i < FontSize(h) && h.fontMemory[i] != b
    ensures var s := Seal(h);
            var g := if inMap then s.(mapMemory := s.mapMemory[i := b]) else s.(fontMemory := s.fontMemory[i := b]);
            && Formed(g) && Computable(s) && Computable(g)
            && (Verify(g) <==> {Crc(Covered(s)), Crc(Covered(g))} == {0, INITIAL})
  {
    hide Covered, Crc, Stored, Verify, Seal, Compute, DifferAt, FieldOf;
    var s := Seal(h);
    SealVerifies(h);
    SealKeeps(h);
    ComputeIsZero(h);
    ComputeIsZero(s);
    if inMap {
      MapByteCovered(s, i, b);
      ChangeDetectedExactly(s, s.(mapMemory := s.mapMemory[i := b]), INFO_SIZE - 4 + i, 1);
    } else {
      FontByteCovered(s, i, b);
      ChangeDetectedExactly(s, s.(fontMemory := s.fontMemory[i := b]), INFO_SIZE - 4 + (if HasMap(s) then MapBytes(s) else 0) + i, 1);
    }
  }

  lemma SameInfo(s: Handoff, g: Handoff)
    requires Formed(s) && Formed(g) && s.info == g.info
    ensures Computable(g) == Computable(s) && Stored(g) == Stored(s)
  {
    hide FieldOf, ReadWord;
  }

  /** Sealing changes only the checksum field. */
  lemma SealKeeps(h: Handoff)
    requires Formed(h)
    ensures var s := Seal(h);
            && s.mapMemory == h.mapMemory && s.fontMemory == h.fontMemory
            && HasMap(s) == HasMap(h) && HasFont(s) == HasFont(h) && MapBytes(s) == MapBytes(h) && FontSize(s) == FontSize(h)
  {
    hide FieldOf, Compute, WordBytes;
    var z := Store(h, 0);
    FieldStays(h, 0, 16, 24);
    FieldStays(z, Compute(z), 16, 24);
    FieldStays(h, 0, 32, 40);
    FieldStays(z, Compute(z), 32, 40);
    FieldStays(h, 0, 40, 48);
    FieldStays(z, Compute(z), 40, 48);
    FieldStays(h, 0, 1248, 1256);
    FieldStays(z, Compute(z), 1248, 1256);
  }

  // ----- In memory -----

  /** The update loop: eight shifts to a byte, with the polynomial masked by the low bit. */
  method ChecksumUpdate(checksum: bv32, source: array<bv8>, from: nat, count: nat) returns (c: bv32)
    requires from + count <= source.Length
    ensures c == Update(checksum, source[from..from + count])
  {
    hide Update, BitSteps, Xor, Wide, Odd, Half;
    c := checksum;
    var index := 0;
    assert source[from..from + 0] == [];
    UpdateNone(checksum);
    while index < count
      invariant index <= count && c == Update(checksum, source[from..from + index])
    {
      ghost var before := c;
      var x := Xor(c, Wide(source[from + index]));
      c := x;
      var bit := 0;
      while bit < 8
        invariant bit <= 8 && BitSteps(c, 8 - bit) == BitSteps(x, 8)
      {
        StepsUnfold(c, 8 - bit);
        c := MaskedStep(c);
        bit := bit + 1;
      }
      StepsUnfold(c, 0);
      UpdateMore(checksum, source[from..from + index], source[from + index]);
      assert source[from..from + index + 1] == source[from..from + index] + [source[from + index]];
      index := index + 1;
    }
  }

  /** One shift as the source writes it. */
  function MaskedStep(c: bv32): (d: bv32)
    ensures d == BitStep(c)
  {
    MaskedPolynomial(c);
    XorUndone(c >> 1, c);
    (c >> 1) ^ (POLYNOMIAL & (0 - (c & 1)))
  }

  lemma UpdateNone(c: bv32)
    ensures Update(c, []) == c
  {
  }

  lemma StepsUnfold(c: bv32, n: nat)
    ensures n > 0 ==> BitSteps(c, n) == BitSteps(BitStep(c), n - 1)
    ensures BitSteps(c, 0) == c
  {
    hide BitStep;
  }

  lemma UpdateMore(c: bv32, bytes: Bytes, b: bv8)
    ensures Update(c, bytes + [b]) == BitSteps(Xor(Update(c, bytes), Wide(b)), 8)
  {
    hide BitSteps, Xor, Wide;
    UpdateConcat(c, bytes, [b]);
    assert [b][1..] == [];
  }

  class BootInfo {
    const info: array<bv8>
    const mapMemory: array<bv8>
    const fontMemory: array<bv8>

    predicate Valid() {
      && info.Length == INFO_SIZE && mapMemory.Length == MAX_MAP && fontMemory.Length == MAX_FONT
      && info != mapMemory && info != fontMemory
    }

    function View(): (h: Handoff)
      requires Valid()
      reads info, mapMemory, fontMemory
      ensures Formed(h)
    {
      Handoff(info[..], mapMemory[..], fontMemory[..])
    }

    /** A block behind a pointer joins the checksum, if it can. */
    method AppendBlock(checksum: bv32, block: array<bv8>, address: nat, count: nat, maximum: nat) returns (c: bv32, ok: bool)
      requires maximum <= block.Length
      ensures ok <==> address != 0 && 0 < count <= maximum
      ensures c == if ok then Update(checksum, block[..count]) else checksum
    {
      if address == 0 || count == 0 || count > maximum {
        return checksum, false;
      }
      c := ChecksumUpdate(checksum, block, 0, count);
      assert block[0..0 + count] == block[..count];
      ok := true;
    }

    /** The blocks are updated one after another; what comes out is the checksum of all of it. */
    method ComputeChecksum() returns (checksum: bv32)
      requires Valid()
      ensures checksum == Compute(View())
    {
      hide Update, FieldOf, Xor, Merge;
      ghost var h := View();
      if !Compatible(View()) {
        return 0;
      }
      var c := ChecksumUpdate(INITIAL, info, 0, CHECKSUM_OFFSET);
      c := ChecksumUpdate(c, info, CHECKSUM_END, INFO_SIZE - CHECKSUM_END);
      ghost var covered := h.info[..CHECKSUM_OFFSET] + h.info[CHECKSUM_END..];
      assert info[0..0 + CHECKSUM_OFFSET] == h.info[..CHECKSUM_OFFSET];
      assert info[CHECKSUM_END..CHECKSUM_END + (INFO_SIZE - CHECKSUM_END)] == h.info[CHECKSUM_END..];
      UpdateConcat(INITIAL, h.info[..CHECKSUM_OFFSET], h.info[CHECKSUM_END..]);
      if HasMap(View()) {
        var size := MapEntrySize(View());
        if size < ENTRY_SIZE || MapCount(View()) > MAX_MAP / size {
          return 0;
        }
        var ok;
        c, ok := AppendBlock(c, mapMemory, MapAddress(View()), MapCount(View()) * size, MAX_MAP);
        if !ok {
          return 0;
        }
        UpdateConcat(INITIAL, covered, h.mapMemory[..MapBytes(h)]);
        covered := covered + h.mapMemory[..MapBytes(h)];
      } else {
        assert covered + [] == covered;
      }
      if HasFont(View()) {
        var ok;
        c, ok := AppendBlock(c, fontMemory, FontAddress(View()), FontSize(View()), MAX_FONT);
        if !ok {
          return 0;
        }
        UpdateConcat(INITIAL, covered, h.fontMemory[..FontSize(h)]);
        covered := covered + h.fontMemory[..FontSize(h)];
      } else {
        assert covered + [] == covered;
      }
      assert covered == Covered(h);
      return Merge(Xor(c, INITIAL));
    }

    method StoreChecksum(v: bv32)
      requires Valid()
      modifies info
      ensures View() == Store(old(View()), v)
    {
      hide WordBytes;
      ghost var was := info[..];
      var b := WordBytes(v);
      info[52], info[53], info[54], info[55] := b[0], b[1], b[2], b[3];
      assert info[..] == was[..CHECKSUM_OFFSET] + b + was[CHECKSUM_END..];
    }

    method SealChecksum()
      requires Valid()
      modifies info
      ensures View() == Seal(old(View()))
      ensures Verify(View()) <==> Computable(old(View()))
    {
      hide Store, Compute, Computable, Verify;
      SealVerifies(View());
      StoreChecksum(0);
      var c := ComputeChecksum();
      StoreChecksum(c);
    }

    method VerifyChecksum() returns (ok: bool)
      requires Valid()
      ensures ok == Verify(View())
    {
      hide Compute, ReadWord;
      var stored := ReadWord([info[52], info[53], info[54], info[55]]);
      assert info[..][CHECKSUM_OFFSET..CHECKSUM_END] == [info[52], info[53], info[54], info[55]];
      if stored == 0 {
        return false;
      }
      var expected := ComputeChecksum();
      return expected != 0 && expected == stored;
    }
  }

  // ----- Known values -----

  /** The check value of CRC-32, of the digits 1 to 9; and the one CRC that is reported as another. */
  lemma CheckValue()
    ensures Crc([0x31, 0x32, 0x33, 0x34, 0x35, 0x36, 0x37, 0x38, 0x39]) == 0xCBF4_3926
    ensures Merge(0) == 0xFFFF_FFFF && Merge(0xCBF4_3926) == 0xCBF4_3926
  {
    hide Update;
    KnownState();
  }

  /** A checksum is computed exactly for a compatible handoff, of the signature and version 7, at least
      2216 bytes and no flag from 12 on, whose memory map, if bit 0 of the flags tells of one, is at some
      address in entries of at least 40 bytes, between 1 byte and 1 MiB in all, and whose font, if bit 4
      tells of one, is at some address and has between 1 byte and 8 MiB. */
  lemma ComputedWhen(h: Handoff)
    requires Formed(h)
    ensures Compute(h) != 0 <==>
            && FieldOf(h.info, 0, 8) == 0x544F_4F42_4E59_524F && FieldOf(h.info, 8, 12) == 7
            && FieldOf(h.info, 12, 16) >= 2216 && FieldOf(h.info, 16, 24) < 4096
            && (FieldOf(h.info, 16, 24) % 2 == 1 ==>
                  && FieldOf(h.info, 24, 32) != 0 && FieldOf(h.info, 40, 48) >= 40
                  && 1 <= FieldOf(h.info, 32, 40) * FieldOf(h.info, 40, 48) <= 0x10_0000)
            && (FieldOf(h.info, 16, 24) / 16 % 2 == 1 ==>
                  FieldOf(h.info, 1240, 1248) != 0 && 1 <= FieldOf(h.info, 1248, 1256) <= 0x80_0000)
  {
    hide Crc, Covered, Number;
    var count, size := FieldOf(h.info, 32, 40), FieldOf(h.info, 40, 48);
    if size >= 40 {
      Whole(count, size, 0x10_0000);
    }
  }

  lemma Whole(count: nat, size: nat, limit: nat)
    requires size > 0
    ensures count <= limit / size <==> count * size <= limit
  {
    var q := limit / size;
    assert q * size <= limit < (q + 1) * size;
    if count <= q {
      MulMono(size, count, q);
    } else {
      MulMono(size, q + 1, count);
    }
  }

  /** Covered are all bytes of the information but 52 to 55, then the map, then the font; the checksum is
      that of all of them in a row. */
  lemma CoveredBytes(h: Handoff)
    requires Formed(h) && Compute(h) != 0
    ensures var entries := if FieldOf(h.info, 16, 24) % 2 == 1 then FieldOf(h.info, 32, 40) * FieldOf(h.info, 40, 48) else 0;
            var font := if FieldOf(h.info, 16, 24) / 16 % 2 == 1 then FieldOf(h.info, 1248, 1256) else 0;
            && entries <= |h.mapMemory| && font <= |h.fontMemory|
            && Compute(h) == Merge(Crc(h.info[..52] + h.info[56..] + h.mapMemory[..entries] + h.fontMemory[..font]))
  {
    hide Crc, Merge, Number;
    ComputeIsZero(h);
    assert h.mapMemory[..0] == [] == h.fontMemory[..0];
    assert Covered(h) + [] == Covered(h);
  }

  /** Sealing writes the checksum into bytes 52 to 55, the low byte first, and nothing else. */
  lemma SealWrites(h: Handoff)
    requires Formed(h)
    ensures var s := Seal(h); var c := Compute(h);
            && s.mapMemory == h.mapMemory && s.fontMemory == h.fontMemory && |s.info| == 2216 == |h.info|
            && (forall k :: 0 <= k < 2216 && !(52 <= k < 56) ==> s.info[k] == h.info[k])
            && s.info[52] == (c & 0xFF) as bv8 && s.info[53] == ((c >> 8) & 0xFF) as bv8
            && s.info[54] == ((c >> 16) & 0xFF) as bv8 && s.info[55] == (c >> 24) as bv8
  {
    hide Compute;
    StoreChangesNothingCovered(h, 0);
  }

  /** Numbers are stored with the low byte first. */
  lemma NumberIs(b: Bytes)
    ensures |b| == 4 ==> Number(b) == b[0] as int + 0x100 * (b[1] as int) + 0x1_0000 * (b[2] as int) + 0x100_0000 * (b[3] as int)
    ensures |b| == 8 ==> Number(b) == Number(b[..4]) + 0x1_0000_0000 * Number(b[4..])
  {
    hide Number;
    if |b| == 4 {
      NumberStep(b);
      NumberStep(b[1..]);
      NumberStep(b[2..]);
      NumberStep(b[3..]);
      assert b[1..][1..] == b[2..] && b[2..][1..] == b[3..] && b[3..][1..] == [];
    } else if |b| == 8 {
      NumberJoins(b[..4], b[4..]);
      assert Weight(4) == 256 * Weight(3) == 65536 * Weight(2) == 0x1_0000_0000;
      assert b == b[..4] + b[4..];
    }
  }

  lemma NumberStep(b: Bytes)
    requires b != []
    ensures Number(b) == b[0] as int + 256 * Number(b[1..]) && Number([]) == 0
  {
  }

  function Weight(n: nat): nat {
    if n == 0 then 1 else 256 * Weight(n - 1)
  }

  lemma Spread(m: nat, w: nat, n: nat)
    ensures 256 * (m + w * n) == 256 * m + 256 * w * n
  {
  }

  lemma {:induction false} NumberJoins(a: Bytes, b: Bytes)
    ensures Number(a + b) == Number(a) + Weight(|a|) * Number(b)
    decreases |a|
  {
    if a == [] {
      assert a + b == b;
    } else {
      hide Number;
      assert (a + b)[1..] == a[1..] + b;
      NumberStep(a);
      NumberStep(a + b);
      NumberJoins(a[1..], b);
      Spread(Number(a[1..]), Weight(|a| - 1), Number(b));
    }
  }
}
