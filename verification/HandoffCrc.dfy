/** The handoff checksum's CRC-32: the bit-by-bit loop, its agreement with the table form of section 8
    of RFC 1952, and what changes it detects. */
module HandoffCrc {

  type Bytes = seq<bv8>

  const INITIAL: bv32 := 0xFFFF_FFFF
  const POLYNOMIAL: bv32 := 0xEDB8_8320

  // ----- Words, by name so that proofs about loops need not look at bits -----

  function Xor(a: bv32, b: bv32): bv32 { a ^ b }
  function Half(c: bv32): bv32 { c >> 1 }
  predicate Odd(c: bv32) { c & 1 == 1 }
  function Twice(w: bv32): bv32 { w << 1 }
  predicate Roomy(w: bv32) { w < 0x8000_0000 }
  function Down8(c: bv32): bv32 { c >> 8 }
  function Low8(c: bv32): bv32 { c & 0xFF }
  function Wide(b: bv8): bv32 { b as bv32 }

  function BitStep(c: bv32): bv32 {
    if Odd(c) then Xor(Half(c), POLYNOMIAL) else Half(c)
  }

  function BitSteps(c: bv32, n: nat): bv32
    decreases n
  {
    if n == 0 then c else BitSteps(BitStep(c), n - 1)
  }

  function ByteStep(c: bv32, b: bv8): bv32 {
    BitSteps(Xor(c, Wide(b)), 8)
  }

  function Update(c: bv32, bytes: Bytes): bv32
    decreases |bytes|
  {
    if bytes == [] then c else Update(ByteStep(c, bytes[0]), bytes[1..])
  }

  // ----- Facts about words -----

  lemma XorUndone(a: bv32, b: bv32)
    ensures (a ^ b) ^ b == a && a ^ 0 == a
  {
  }

  lemma MixedInLater(a: bv32, w: bv32)
    ensures (a ^ w) ^ 0xEDB8_8320 == (a ^ 0xEDB8_8320) ^ w
  {
  }

  lemma XorCancels(a: bv32, b: bv32, c: bv32)
    requires a ^ b == a ^ c
    ensures b == c
  {
  }

  lemma XorFacts(a: bv32, b: bv32, c: bv32)
    ensures Xor(Xor(a, b), b) == a && Xor(a, 0) == a
    ensures Xor(a, b) == Xor(a, c) ==> b == c
  {
    XorUndone(a, b);
    if a ^ b == a ^ c {
      XorCancels(a, b, c);
    }
  }

  /** The mask of the loop picks the polynomial exactly when the low bit is set. */
  lemma MaskedPolynomial(c: bv32)
    ensures POLYNOMIAL & (0 - (c & 1)) == if c & 1 == 1 then POLYNOMIAL else 0
  {
    assert c & 1 == 0 || c & 1 == 1;
  }

  lemma OddBack(c: bv32)
    requires c & 1 == 1
    ensures ((((c >> 1) ^ 0xEDB8_8320) ^ 0xEDB8_8320) << 1) | 1 == c
    ensures ((c >> 1) ^ 0xEDB8_8320) & 0x8000_0000 == 0x8000_0000
  {
  }

  lemma EvenBack(c: bv32)
    requires c & 1 != 1
    ensures (c >> 1) << 1 == c && (c >> 1) & 0x8000_0000 != 0x8000_0000
  {
  }

  lemma HighForward(d: bv32)
    requires d & 0x8000_0000 == 0x8000_0000
    ensures ((((d ^ 0xEDB8_8320) << 1) | 1) >> 1) ^ 0xEDB8_8320 == d
    ensures (((d ^ 0xEDB8_8320) << 1) | 1) & 1 == 1
  {
  }

  lemma LowForward(d: bv32)
    requires d & 0x8000_0000 != 0x8000_0000
    ensures (d << 1) >> 1 == d && (d << 1) & 1 != 1
  {
  }

  lemma ShiftedIn(x: bv32, w: bv32)
    requires w < 0x8000_0000
    ensures (x ^ (w << 1)) & 1 == x & 1 && (x ^ (w << 1)) >> 1 == (x >> 1) ^ w
  {
  }

  // ----- Concatenation -----

  /** Updating over two blocks in turn is updating over both at once. */
  lemma {:induction false} UpdateConcat(c: bv32, a: Bytes, b: Bytes)
    ensures Update(c, a + b) == Update(Update(c, a), b)
    decreases |a|
  {
    hide ByteStep;
    if a == [] {
      assert a + b == b;
    } else {
      assert (a + b)[0] == a[0] && (a + b)[1..] == a[1..] + b;
      UpdateConcat(ByteStep(c, a[0]), a[1..], b);
    }
  }

  // ----- Every step is a bijection -----

  predicate High(d: bv32) { d & 0x8000_0000 == 0x8000_0000 }
  function TwicePlusOne(w: bv32): bv32 { (w << 1) | 1 }

  /** The step backwards: the polynomial's top bit tells whether it was mixed in. */
  function BitBack(d: bv32): bv32 {
    if High(d) then TwicePlusOne(Xor(d, POLYNOMIAL)) else Twice(d)
  }

  lemma BitStepBack(c: bv32)
    ensures BitBack(BitStep(c)) == c
  {
    if c & 1 == 1 {
      OddBack(c);
    } else {
      EvenBack(c);
    }
  }

  lemma BitBackStep(d: bv32)
    ensures BitStep(BitBack(d)) == d
  {
    if d & 0x8000_0000 == 0x8000_0000 {
      HighForward(d);
    } else {
      LowForward(d);
    }
  }

  function BitsBack(d: bv32, n: nat): bv32
    decreases n
  {
    if n == 0 then d else BitBack(BitsBack(d, n - 1))
  }

  lemma {:induction false} BitsBackInverts(c: bv32, n: nat)
    ensures BitsBack(BitSteps(c, n), n) == c && BitSteps(BitsBack(c, n), n) == c
    decreases n
  {
    hide BitStep, BitBack;
    if n > 0 {
      BitsBackInverts(BitStep(c), n - 1);
      BitStepBack(c);
      BitsBackInverts(c, n - 1);
      BitBackStep(BitsBack(c, n - 1));
    }
  }

  function ByteBack(d: bv32, b: bv8): bv32 {
    Xor(BitsBack(d, 8), Wide(b))
  }

  /** For each byte the step permutes the 32-bit states. */
  lemma ByteStepBijective(c: bv32, b: bv8)
    ensures ByteBack(ByteStep(c, b), b) == c && ByteStep(ByteBack(c, b), b) == c
  {
    hide BitSteps, BitsBack, Xor, Wide;
    BitsBackInverts(Xor(c, Wide(b)), 8);
    BitsBackInverts(c, 8);
    XorFacts(c, Wide(b), 0);
    XorFacts(BitsBack(c, 8), Wide(b), 0);
  }

  /** Different states stay different, whatever follows. */
  lemma {:induction false} UpdateInjective(c: bv32, d: bv32, bytes: Bytes)
    requires c != d
    ensures Update(c, bytes) != Update(d, bytes)
    decreases |bytes|
  {
    hide ByteStep, ByteBack;
    if bytes != [] {
      ByteStepBijective(c, bytes[0]);
      ByteStepBijective(d, bytes[0]);
      UpdateInjective(ByteStep(c, bytes[0]), ByteStep(d, bytes[0]), bytes[1..]);
    }
  }

  // ----- Linearity, and the table form -----

  lemma ShiftedOdd(x: bv32, w: bv32)
    requires Roomy(w)
    ensures Odd(Xor(x, Twice(w))) == Odd(x)
  {
    ShiftedIn(x, w);
  }

  lemma ShiftedHalf(x: bv32, w: bv32)
    requires Roomy(w)
    ensures Half(Xor(x, Twice(w))) == Xor(Half(x), w)
  {
    ShiftedIn(x, w);
  }

  lemma MixOrder(a: bv32, w: bv32)
    ensures Xor(Xor(a, w), POLYNOMIAL) == Xor(Xor(a, POLYNOMIAL), w)
  {
    MixedInLater(a, w);
  }

  /** Bits that have not reached the bottom yet only move down. */
  lemma BitStepShifts(x: bv32, w: bv32)
    requires Roomy(w)
    ensures BitStep(Xor(x, Twice(w))) == Xor(BitStep(x), w)
  {
    hide Xor, Odd, Half, Twice, Roomy;
    ShiftedOdd(x, w);
    ShiftedHalf(x, w);
    MixOrder(Half(x), w);
  }

  function Up(w: bv32, n: nat): bv32
    decreases n
  {
    if n == 0 then w else Up(Twice(w), n - 1)
  }

  predicate RoomFor(w: bv32, n: nat)
    decreases n
  {
    n == 0 || (Roomy(w) && RoomFor(Twice(w), n - 1))
  }

  lemma {:induction false} UpLast(w: bv32, n: nat)
    requires n > 0 && RoomFor(w, n)
    ensures RoomFor(w, n - 1) && Roomy(Up(w, n - 1)) && Up(w, n) == Twice(Up(w, n - 1))
    decreases n
  {
    hide Roomy, Twice;
    if n > 1 {
      UpLast(Twice(w), n - 1);
    }
  }

  /** Over n steps, bits shifted up by n come down again, and mix with nothing. */
  lemma {:induction false} BitStepsShift(x: bv32, w: bv32, n: nat)
    requires RoomFor(w, n)
    ensures BitSteps(Xor(x, Up(w, n)), n) == Xor(BitSteps(x, n), w)
    decreases n
  {
    hide BitStep, Xor, Twice, Roomy;
    if n > 0 {
      UpLast(w, n);
      BitStepShifts(x, Up(w, n - 1));
      BitStepsShift(BitStep(x), w, n - 1);
    }
  }

  lemma EightUp(w: bv32)
    requires w < 0x100_0000
    ensures w << 8 == (((((((w << 1) << 1) << 1) << 1) << 1) << 1) << 1) << 1
    ensures w < 0x8000_0000 && w << 1 < 0x8000_0000 && (w << 1) << 1 < 0x8000_0000
    ensures ((w << 1) << 1) << 1 < 0x8000_0000 && (((w << 1) << 1) << 1) << 1 < 0x8000_0000
    ensures ((((w << 1) << 1) << 1) << 1) << 1 < 0x8000_0000
    ensures (((((w << 1) << 1) << 1) << 1) << 1) << 1 < 0x8000_0000
    ensures ((((((w << 1) << 1) << 1) << 1) << 1) << 1) << 1 < 0x8000_0000
  {
  }

  function Up8(w: bv32): bv32 { w << 8 }
  predicate Three(w: bv32) { w < 0x100_0000 }

  lemma UpUnfold(w: bv32)
    ensures Up(w, 8) == Twice(Twice(Twice(Twice(Twice(Twice(Twice(Twice(w))))))))
    ensures (&& Roomy(w) && Roomy(Twice(w)) && Roomy(Twice(Twice(w))) && Roomy(Twice(Twice(Twice(w))))
             && Roomy(Twice(Twice(Twice(Twice(w))))) && Roomy(Twice(Twice(Twice(Twice(Twice(w))))))
             && Roomy(Twice(Twice(Twice(Twice(Twice(Twice(w)))))))
             && Roomy(Twice(Twice(Twice(Twice(Twice(Twice(Twice(w))))))))) ==> RoomFor(w, 8)
  {
    hide Twice, Roomy;
    var a := Twice(w);
    var b := Twice(a);
    var c := Twice(b);
    var d := Twice(c);
    var e := Twice(d);
    var f := Twice(e);
    var g := Twice(f);
    assert Up(w, 8) == Up(a, 7) == Up(b, 6) == Up(c, 5) == Up(d, 4) == Up(e, 3) == Up(f, 2) == Up(g, 1) == Up(Twice(g), 0);
    assert RoomFor(Twice(g), 0) && (Roomy(g) ==> RoomFor(g, 1)) && (Roomy(g) && Roomy(f) ==> RoomFor(f, 2));
    assert Roomy(g) && Roomy(f) && Roomy(e) && Roomy(d) ==> RoomFor(e, 3) && RoomFor(d, 4);
    assert RoomFor(d, 4) && Roomy(c) && Roomy(b) ==> RoomFor(c, 5) && RoomFor(b, 6);
    assert RoomFor(b, 6) && Roomy(a) && Roomy(w) ==> RoomFor(a, 7) && RoomFor(w, 8);
  }

  lemma Up8Is(w: bv32)
    requires Three(w)
    ensures Up(w, 8) == Up8(w) && RoomFor(w, 8)
  {
    hide Up, RoomFor;
    EightUp(w);
    UpUnfold(w);
  }

  /** Over a whole byte the upper bits only move down by eight. */
  lemma ByteShift(x: bv32, w: bv32)
    requires Three(w)
    ensures BitSteps(Xor(x, Up8(w)), 8) == Xor(BitSteps(x, 8), w)
  {
    hide Up, Up8, RoomFor, Xor, BitSteps, Three;
    Up8Is(w);
    BitStepsShift(x, w, 8);
  }

  /** The table of the sample code: what eight steps make of each byte value. */
  function TableEntry(n: bv32): bv32 {
    BitSteps(n, 8)
  }

  lemma SplitWord(x: bv32)
    ensures x == Xor(Low8(x), Up8(Down8(x))) && Three(Down8(x))
  {
  }

  lemma ByteStaysLow(c: bv32, b: bv8)
    ensures Down8(Xor(c, Wide(b))) == Down8(c)
  {
  }

  /** The bit-by-bit loop does what the table-driven sample code does. */
  lemma ByteStepIsTableStep(c: bv32, b: bv8)
    ensures ByteStep(c, b) == Xor(TableEntry(Low8(Xor(c, Wide(b)))), Down8(c))
  {
    hide BitSteps, Xor, Wide, Low8, Down8, Up8, Three;
    var x := Xor(c, Wide(b));
    SplitWord(x);
    ByteStaysLow(c, b);
    ByteShift(Low8(x), Down8(x));
  }

  function TableUpdate(c: bv32, bytes: Bytes): bv32
    decreases |bytes|
  {
    if bytes == [] then c
    else TableUpdate(Xor(TableEntry(Low8(Xor(c, Wide(bytes[0])))), Down8(c)), bytes[1..])
  }

  /** So the whole update is the one of section 8 of RFC 1952. */
  lemma {:induction false} UpdateIsTableUpdate(c: bv32, bytes: Bytes)
    ensures Update(c, bytes) == TableUpdate(c, bytes)
    decreases |bytes|
  {
    hide ByteStep, TableEntry, Xor, Wide, Low8, Down8;
    if bytes != [] {
      ByteStepIsTableStep(c, bytes[0]);
      UpdateIsTableUpdate(ByteStep(c, bytes[0]), bytes[1..]);
    }
  }

  // ----- Changes confined to four bytes -----

  function Word(a: bv8, b: bv8, c: bv8, d: bv8): bv32 {
    (a as bv32) ^ ((b as bv32) << 8) ^ ((c as bv32) << 16) ^ ((d as bv32) << 24)
  }

  lemma WordSplit(s: bv32, a: bv8, b: bv8, c: bv8, d: bv8)
    ensures Three(Word(b, c, d, 0)) && Xor(s, Word(a, b, c, d)) == Xor(Xor(s, Wide(a)), Up8(Word(b, c, d, 0)))
  {
  }

  lemma WordInjective(a: bv8, b: bv8, c: bv8, d: bv8, e: bv8, f: bv8, g: bv8, h: bv8)
    requires Word(a, b, c, d) == Word(e, f, g, h)
    ensures a == e && b == f && c == g && d == h
  {
  }

  lemma ZeroWord()
    ensures Word(0, 0, 0, 0) == 0
  {
  }

  lemma {:induction false} StepsAdd(c: bv32, m: nat, n: nat)
    ensures BitSteps(c, m + n) == BitSteps(BitSteps(c, m), n)
    decreases m
  {
    hide BitStep;
    if m > 0 {
      StepsAdd(BitStep(c), m - 1, n);
    }
  }

  /** One byte of a word is consumed: the others move down. */
  lemma WordStep(s: bv32, a: bv8, b: bv8, c: bv8, d: bv8)
    ensures BitSteps(Xor(s, Word(a, b, c, d)), 8) == Xor(ByteStep(s, a), Word(b, c, d, 0))
  {
    hide BitSteps, Word, Xor, Wide, Up8, Three;
    WordSplit(s, a, b, c, d);
    ByteShift(Xor(s, Wide(a)), Word(b, c, d, 0));
  }

  lemma UpdateFour(s: bv32, a: bv8, b: bv8, c: bv8, d: bv8)
    ensures Update(s, [a, b, c, d]) == ByteStep(ByteStep(ByteStep(ByteStep(s, a), b), c), d)
  {
    hide ByteStep, Update;
    assert [a, b, c, d] == [a] + [b, c, d] && [b, c, d] == [b] + [c, d] && [c, d] == [c] + [d] && [d] == [d] + [];
    UpdateOne(s, a, [b, c, d]);
    UpdateOne(ByteStep(s, a), b, [c, d]);
    UpdateOne(ByteStep(ByteStep(s, a), b), c, [d]);
    UpdateOne(ByteStep(ByteStep(ByteStep(s, a), b), c), d, []);
    UpdateOne(ByteStep(ByteStep(ByteStep(ByteStep(s, a), b), c), d), d, []);
  }

  lemma UpdateOne(s: bv32, b: bv8, rest: Bytes)
    ensures Update(s, [b] + rest) == Update(ByteStep(s, b), rest) && Update(s, []) == s
  {
    hide ByteStep;
    assert ([b] + rest)[1..] == rest;
  }

  /** Four bytes in a row are one word: the word is mixed in and 32 steps follow. */
  lemma FourBytes(s: bv32, a: bv8, b: bv8, c: bv8, d: bv8)
    ensures Update(s, [a, b, c, d]) == BitSteps(Xor(s, Word(a, b, c, d)), 32)
  {
    hide BitSteps, ByteStep, Word, Xor, Update;
    UpdateFour(s, a, b, c, d);
    var t := ByteStep(s, a);
    var u := ByteStep(t, b);
    var v := ByteStep(u, c);
    var w := ByteStep(v, d);
    WordStep(s, a, b, c, d);
    WordStep(t, b, c, d, 0);
    WordStep(u, c, d, 0, 0);
    WordStep(v, d, 0, 0, 0);
    ZeroWord();
    XorFacts(w, 0, 0);
    var x := Xor(s, Word(a, b, c, d));
    StepsAdd(x, 8, 24);
    StepsAdd(BitSteps(x, 8), 8, 16);
    StepsAdd(BitSteps(BitSteps(x, 8), 8), 8, 8);
  }

  /** Four bytes that differ leave different states. */
  lemma FourBytesDiffer(s: bv32, p: Bytes, q: Bytes)
    requires |p| == 4 && |q| == 4 && p != q
    ensures Update(s, p) != Update(s, q)
  {
    hide BitSteps, BitsBack, Update, Word, Xor;
    assert p == [p[0], p[1], p[2], p[3]] && q == [q[0], q[1], q[2], q[3]];
    FourBytes(s, p[0], p[1], p[2], p[3]);
    FourBytes(s, q[0], q[1], q[2], q[3]);
    var x, y := Word(p[0], p[1], p[2], p[3]), Word(q[0], q[1], q[2], q[3]);
    if Update(s, p) == Update(s, q) {
      BitsBackInverts(Xor(s, x), 32);
      BitsBackInverts(Xor(s, y), 32);
      XorFacts(s, x, y);
      WordInjective(p[0], p[1], p[2], p[3], q[0], q[1], q[2], q[3]);
    }
  }

  /** A change confined to at most four bytes in a row always changes the state after all the bytes. */
  lemma BurstChangesState(c: bv32, front: Bytes, p: Bytes, q: Bytes, back: Bytes)
    requires |p| == |q| <= 4 && p != q
    ensures Update(c, front + p + back) != Update(c, front + q + back)
  {
    hide Update;
    var pad: Bytes := seq(4 - |p|, _ => 0);
    var s := Update(c, front);
    UpdateConcat(c, front + p, back);
    UpdateConcat(c, front, p);
    UpdateConcat(c, front + q, back);
    UpdateConcat(c, front, q);
    UpdateConcat(s, p, pad);
    UpdateConcat(s, q, pad);
    assert (p + pad)[..|p|] == p && (q + pad)[..|q|] == q;
    FourBytesDiffer(s, p + pad, q + pad);
    UpdateInjective(Update(s, p), Update(s, q), back);
  }

  // ----- A known value -----

  lemma NineSteps()
    ensures ByteStep(0xFFFF_FFFF, 0x31) == 0x7C23_1048
    ensures ByteStep(0x7C23_1048, 0x32) == 0xB0AC_BB32
    ensures ByteStep(0xB0AC_BB32, 0x33) == 0x77B7_9C2D
    ensures ByteStep(0x77B7_9C2D, 0x34) == 0x641C_1F5C
    ensures ByteStep(0x641C_1F5C, 0x35) == 0x340A_C5E3
    ensures ByteStep(0x340A_C5E3, 0x36) == 0xF68D_2C9E
    ensures ByteStep(0xF68D_2C9E, 0x37) == 0xAFFC_9660
    ensures ByteStep(0xAFFC_9660, 0x38) == 0x651F_2550
    ensures ByteStep(0x651F_2550, 0x39) == 0x340B_C6D9
  {
  }

  /** The digits 1 to 9 leave the state that makes the usual check value of CRC-32, 0xCBF43926. */
  lemma KnownState()
    ensures Update(0xFFFF_FFFF, [0x31, 0x32, 0x33, 0x34, 0x35, 0x36, 0x37, 0x38, 0x39]) == 0x340B_C6D9
  {
    hide ByteStep, Update;
    NineSteps();
    UpdateFour(0xFFFF_FFFF, 0x31, 0x32, 0x33, 0x34);
    UpdateFour(0x641C_1F5C, 0x35, 0x36, 0x37, 0x38);
    UpdateOne(0x651F_2550, 0x39, []);
    UpdateOne(0x340B_C6D9, 0x39, []);
    var a, b, c: Bytes := [0x31, 0x32, 0x33, 0x34], [0x35, 0x36, 0x37, 0x38], [0x39];
    assert [0x39] + [] == c;
    UpdateConcat(0xFFFF_FFFF, a, b + c);
    UpdateConcat(0x641C_1F5C, b, c);
    assert a + (b + c) == [0x31, 0x32, 0x33, 0x34, 0x35, 0x36, 0x37, 0x38, 0x39];
  }
}
