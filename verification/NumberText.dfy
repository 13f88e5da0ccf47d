/** Numbers as text: the numerals the printer writes, and what the two string-to-number functions make
    of any text. */
module NumberText {

  type Byte = x: int | 0 <= x < 256
  type Text = seq<Byte>

  const ULLONG_MAX: nat := 0xFFFF_FFFF_FFFF_FFFF
  const TWO64: nat := 0x1_0000_0000_0000_0000
  const LLONG_MAX: nat := 0x7FFF_FFFF_FFFF_FFFF
  const LLONG_MIN: int := -0x8000_0000_0000_0000
  const EINVAL: nat := 22
  const ERANGE: nat := 34

  /** A character, or the terminator behind the last one. */
  function At(text: Text, i: nat): Byte {
    if i < |text| then text[i] else 0
  }

  // ----- Reading -----

  function DigitValue(c: Byte): (d: int)
    ensures -1 <= d < 36
  {
    if 48 <= c <= 57 then c - 48
    else if 97 <= c <= 122 then c - 97 + 10
    else if 65 <= c <= 90 then c - 65 + 10
    else -1
  }

  predicate IsDigit(text: Text, i: nat, base: int) {
    0 <= DigitValue(At(text, i)) < base
  }

  predicate IsSpace(c: Byte) {
    c in {32, 9, 10, 13, 11, 12}
  }

  function SkipSpaces(text: Text, i: nat): (r: nat)
    requires i <= |text|
    ensures i <= r <= |text|
    decreases |text| - i
  {
    if i < |text| && IsSpace(text[i]) then SkipSpaces(text, i + 1) else i
  }

  function SkipSpaceAndSign(text: Text): (r: (bool, nat))
    ensures r.1 <= |text|
  {
    var i := SkipSpaces(text, 0);
    if At(text, i) == 45 then (true, i + 1) else if At(text, i) == 43 then (false, i + 1) else (false, i)
  }

  predicate HexPrefix(text: Text, i: nat) {
    At(text, i) == 48 && (At(text, i + 1) == 120 || At(text, i + 1) == 88)
  }

  /** The base, and where the digits start. */
  function ResolveBase(text: Text, i: nat, base: int): (r: (int, nat))
    requires i <= |text|
    ensures i <= r.1 <= |text|
  {
    if base == 0 then
      if HexPrefix(text, i) then (16, i + 2) else if At(text, i) == 48 then (8, i) else (10, i)
    else if base == 16 && HexPrefix(text, i) then (16, i + 2)
    else (base, i)
  }

  predicate AllDigits(t: Text, base: int) {
    forall k :: 0 <= k < |t| ==> 0 <= DigitValue(t[k]) < base
  }

  /** Where the run of digits ends. */
  function DigitsEnd(text: Text, i: nat, base: int): (e: nat)
    requires i <= |text|
    ensures i <= e <= |text| && !IsDigit(text, e, base) && AllDigits(text[i..e], base)
    decreases |text| - i
  {
    if i < |text| && IsDigit(text, i, base) then
      var e := DigitsEnd(text, i + 1, base);
      assert text[i..e] == [text[i]] + text[i + 1..e];
      e
    else i
  }

  /** The number a row of digits stands for, however large. */
  function Value(t: Text, base: nat): nat
    requires AllDigits(t, base)
    decreases |t|
  {
    if t == [] then 0 else Value(t[..|t| - 1], base) * base + DigitValue(t[|t| - 1])
  }

  function Clip(m: nat): (v: nat)
    ensures v <= ULLONG_MAX
  {
    if m > ULLONG_MAX then ULLONG_MAX else m
  }

  /** What a conversion returns: the value, the index it stopped at, and the error number after it. */
  datatype Parsed = Parsed(value: int, end: nat, errno: nat)

  function Strtoull(text: Text, base: int, errno: nat): (r: Parsed)
    ensures 0 <= r.value <= ULLONG_MAX && r.end <= |text|
  {
    var (negative, start) := SkipSpaceAndSign(text);
    var (b, first) := ResolveBase(text, start, base);
    if b < 2 || b > 36 then Parsed(0, 0, EINVAL)
    else
      var e := DigitsEnd(text, first, b);
      var m := Value(text[first..e], b);
      var v := Clip(m);
      Parsed(if negative then (TWO64 - v) % TWO64 else v, if e == first then 0 else e, if m > ULLONG_MAX then ERANGE else errno)
  }

  function Strtoll(text: Text, base: int): (r: Parsed)
    ensures LLONG_MIN <= r.value <= LLONG_MAX
  {
    var (negative, start) := SkipSpaceAndSign(text);
    var inner := Strtoull(text[start..], base, 0);
    if inner.end == 0 then Parsed(0, 0, inner.errno)
    else
      var limit := if negative then LLONG_MAX + 1 else LLONG_MAX;
      if inner.value > limit then Parsed(if negative then LLONG_MIN else LLONG_MAX, start + inner.end, ERANGE)
      else Parsed(if negative then -inner.value else inner.value, start + inner.end, inner.errno)
  }

  /** The loop's test for a digit that would not fit, and the value with the digit. */
  predicate Overflows(value: nat, digit: nat, base: nat)
    requires base > 0 && digit <= ULLONG_MAX
  {
    value > (ULLONG_MAX - digit) / base
  }

  function Append(value: nat, digit: nat, base: nat): nat {
    value * base + digit
  }

  /** One more digit: the loop's test is exactly whether the true value outgrows 64 bits, and what the
      loop does keeps the clipped value. */
  lemma DigitStep(t: Text, c: Byte, base: nat)
    requires 2 <= base <= 36 && AllDigits(t, base) && 0 <= DigitValue(c) < base
    ensures AllDigits(t + [c], base)
    ensures var m, d := Clip(Value(t, base)), DigitValue(c);
            var next := Value(t + [c], base);
            && (Overflows(m, d, base) <==> next > ULLONG_MAX)
            && (Value(t, base) >= ULLONG_MAX ==> next > ULLONG_MAX)
            && (next <= ULLONG_MAX ==> next == Append(m, d, base) && m != ULLONG_MAX)
  {
    var m, d := Value(t, base), DigitValue(c);
    assert (t + [c])[..|t|] == t;
    FitsExactly(Clip(m), base, d);
    if m >= ULLONG_MAX {
      GrowsBeyond(m, base);
      GrowsBeyond(ULLONG_MAX, base);
    }
  }

  lemma FitsExactly(v: nat, base: nat, d: nat)
    requires 2 <= base && d < base && d <= ULLONG_MAX
    ensures v > (ULLONG_MAX - d) / base <==> v * base + d > ULLONG_MAX
  {
    var q := (ULLONG_MAX - d) / base;
    assert q * base <= ULLONG_MAX - d < (q + 1) * base;
    if v > q {
      Product(q + 1, v, base);
    } else {
      Product(v, q, base);
    }
  }

  lemma Product(a: nat, b: nat, c: nat)
    requires a <= b
    ensures a * c <= b * c
  {
  }

  lemma GrowsBeyond(m: nat, base: nat)
    requires m >= ULLONG_MAX && base >= 2
    ensures m * base > ULLONG_MAX
  {
    Product(2, base, m);
  }

  // ----- Writing -----

  function DigitChar(d: nat, upper: bool): Byte
    requires d < 16
  {
    if d < 10 then 48 + d else if upper then 65 + d - 10 else 97 + d - 10
  }

  /** The usual numeral: no leading zeros, and "0" for zero. */
  function Numeral(v: nat, base: nat, upper: bool): (t: Text)
    requires 2 <= base <= 16
    ensures |t| > 0
    decreases v
  {
    if v < base then [DigitChar(v, upper)]
    else
      Smaller(v, base);
      Numeral(v / base, base, upper) + [DigitChar(v % base, upper)]
  }

  lemma Smaller(v: nat, base: nat)
    requires v >= base >= 2
    ensures 0 < v / base < v
  {
    assert v == base * (v / base) + v % base;
    if v / base >= v {
      Product(2, base, v / base);
    }
  }

  function Signed(v: int): (t: Text)
    ensures |t| > 0
  {
    if v < 0 then [45] + Numeral(-v, 10, false) else Numeral(v, 10, false)
  }

  lemma DigitRoundTrip(d: nat, upper: bool)
    requires d < 16
    ensures DigitValue(DigitChar(d, upper)) == d && !IsSpace(DigitChar(d, upper))
    ensures DigitChar(d, upper) != 45 && DigitChar(d, upper) != 43 && DigitChar(d, upper) != 120 && DigitChar(d, upper) != 88
    ensures DigitChar(d, upper) != 0 && (DigitChar(d, upper) == 48 <==> d == 0)
  {
  }

  /** A numeral is digits only, does not start with zero unless it is "0", and stands for its number. */
  lemma {:induction false} NumeralExact(v: nat, base: nat, upper: bool)
    requires 2 <= base <= 16
    ensures var t := Numeral(v, base, upper);
            && AllDigits(t, base) && (t[0] == 48 <==> v == 0) && (v == 0 ==> |t| == 1)
            && Value(t, base) == v
    decreases v
  {
    var t := Numeral(v, base, upper);
    if v < base {
      DigitRoundTrip(v, upper);
      assert t[..0] == [];
    } else {
      Smaller(v, base);
      var f := Numeral(v / base, base, upper);
      NumeralExact(v / base, base, upper);
      DigitRoundTrip(v % base, upper);
      assert t[..|t| - 1] == f && t[0] == f[0];
      DivisionBack(v, base);
    }
  }

  lemma DivisionBack(v: nat, base: nat)
    requires base > 0
    ensures v / base * base + v % base == v
  {
  }

  // ----- Round trips -----

  lemma {:induction false} DigitsEndIs(front: Text, t: Text, base: nat)
    requires AllDigits(t, base)
    ensures DigitsEnd(front + t, |front|, base) == |front + t|
    decreases |t|
  {
    if t != [] {
      assert (front + t)[|front|] == t[0];
      assert front + t == (front + [t[0]]) + t[1..];
      DigitsEndIs(front + [t[0]], t[1..], base);
    }
  }

  /** A numeral behind a prefix is read as its number, up to the end of the text. */
  lemma ReadsNumeral(front: Text, v: nat, base: nat, upper: bool)
    requires 2 <= base <= 16
    ensures var text := front + Numeral(v, base, upper);
            && DigitsEnd(text, |front|, base) == |text|
            && AllDigits(text[|front|..|text|], base) && Value(text[|front|..|text|], base) == v
  {
    hide Numeral, Value;
    var t := Numeral(v, base, upper);
    NumeralExact(v, base, upper);
    DigitsEndIs(front, t, base);
    assert (front + t)[|front|..|front + t|] == t;
  }

  lemma NoPrefix(v: nat, base: nat, upper: bool)
    requires 2 <= base <= 16
    ensures var t := Numeral(v, base, upper); SkipSpaceAndSign(t) == (false, 0) && !HexPrefix(t, 0)
  {
    NumeralExact(v, base, upper);
    var t := Numeral(v, base, upper);
    NumeralChars(v, base, upper, 0);
    assert SkipSpaces(t, 0) == 0;
    if |t| > 1 {
      NumeralChars(v, base, upper, 1);
    }
  }

  lemma {:induction false} NumeralChars(v: nat, base: nat, upper: bool, k: nat)
    requires 2 <= base <= 16 && k < |Numeral(v, base, upper)|
    ensures var c := Numeral(v, base, upper)[k]; !IsSpace(c) && c != 45 && c != 43 && c != 120 && c != 88 && c != 0
    decreases v
  {
    if v < base {
      DigitRoundTrip(v, upper);
    } else {
      Smaller(v, base);
      DigitRoundTrip(v % base, upper);
      if k < |Numeral(v / base, base, upper)| {
        NumeralChars(v / base, base, upper, k);
      }
    }
  }

  /** strtoull on the numeral of any number: the number itself if it fits 64 bits, else the largest one
      and a range error; always to the end of the text. */
  lemma UnsignedExact(v: nat, base: nat, upper: bool, errno: nat)
    requires 2 <= base <= 16
    ensures var t := Numeral(v, base, upper);
            Strtoull(t, base, errno) == Parsed(Clip(v), |t|, if v > ULLONG_MAX then ERANGE else errno)
  {
    hide Numeral, Value;
    var t := Numeral(v, base, upper);
    NoPrefix(v, base, upper);
    ReadsNumeral([], v, base, upper);
    assert [] + t == t;
  }

  /** So strtoull reads back what "%llu" and "%llx" write; decimal also with base 0. */
  lemma UnsignedRoundTrip(v: nat, base: nat, upper: bool, errno: nat)
    requires v <= ULLONG_MAX && 2 <= base <= 16
    ensures var t := Numeral(v, base, upper); Strtoull(t, base, errno) == Parsed(v, |t|, errno)
    ensures base == 10 ==> var t := Numeral(v, 10, upper); Strtoull(t, 0, errno) == Parsed(v, |t|, errno)
  {
    hide Numeral, Value;
    var t := Numeral(v, base, upper);
    UnsignedExact(v, base, upper, errno);
    NoPrefix(v, base, upper);
    NumeralExact(v, base, upper);
    ReadsNumeral([], v, base, upper);
    assert [] + t == t;
    if base == 10 && v == 0 {
      ReadsNumeral([], 0, 8, upper);
      ZeroNumeral(upper);
      assert [] + Numeral(0, 8, upper) == t;
    }
  }

  /** A minus sign in front negates modulo 2^64; in front of a number too large the result is 1. */
  lemma NegatedUnsigned(v: nat, errno: nat)
    ensures var t := [45] + Numeral(v, 10, false);
            Strtoull(t, 10, errno)
            == Parsed((TWO64 - Clip(v)) % TWO64, |t|, if v > ULLONG_MAX then ERANGE else errno)
    ensures v > ULLONG_MAX ==> Strtoull([45] + Numeral(v, 10, false), 10, errno).value == 1
  {
    hide Numeral, Value;
    var t := [45] + Numeral(v, 10, false);
    assert t[0] == 45;
    assert SkipSpaces(t, 0) == 0;
    ReadsNumeral([45], v, 10, false);
  }

  lemma ZeroNumeral(upper: bool)
    ensures Numeral(0, 8, upper) == Numeral(0, 10, upper)
  {
  }

  /** strtoull reads back what "%p" writes, with base 16 and with base 0. */
  lemma PointerRoundTrip(v: nat, errno: nat)
    requires v <= ULLONG_MAX
    ensures var t := [48, 120] + Numeral(v, 16, false);
            Strtoull(t, 16, errno) == Parsed(v, |t|, errno) && Strtoull(t, 0, errno) == Parsed(v, |t|, errno)
  {
    var t := [48, 120] + Numeral(v, 16, false);
    ReadsNumeral([48, 120], v, 16, false);
    assert t[0] == 48 && t[1] == 120;
    assert SkipSpaces(t, 0) == 0;
  }

  function Clamp(v: int): int {
    if v < LLONG_MIN then LLONG_MIN else if v > LLONG_MAX then LLONG_MAX else v
  }

  /** strtoll on the text of any integer: the integer itself if it fits, the least one included, else the
      nearest one and a range error; always to the end of the text. */
  lemma SignedExact(v: int)
    ensures Strtoll(Signed(v), 10) == Parsed(Clamp(v), |Signed(v)|, if Clamp(v) == v then 0 else ERANGE)
  {
    hide Numeral, Value, Strtoull;
    var t := Signed(v);
    if v < 0 {
      var n := Numeral(-v, 10, false);
      assert t[0] == 45;
      assert SkipSpaces(t, 0) == 0;
      assert t[1..] == n;
      UnsignedExact(-v, 10, false, 0);
    } else {
      NoPrefix(v, 10, false);
      assert t[0..] == t;
      UnsignedExact(v, 10, false, 0);
    }
  }

  // ----- How long numerals get -----

  function Power(base: nat, n: nat): nat {
    if n == 0 then 1 else base * Power(base, n - 1)
  }

  lemma {:induction false} NumeralLength(v: nat, base: nat, upper: bool, n: nat)
    requires 2 <= base <= 16 && n >= 1 && v < Power(base, n)
    ensures |Numeral(v, base, upper)| <= n
    decreases n
  {
    if v >= base {
      Smaller(v, base);
      assert Power(base, n) == base * Power(base, n - 1);
      if n > 1 {
        QuotientBelow(v, base, Power(base, n - 1));
        NumeralLength(v / base, base, upper, n - 1);
      }
    }
  }

  lemma QuotientBelow(v: nat, base: nat, p: nat)
    requires base > 0 && v < base * p
    ensures v / base < p
  {
    assert v == base * (v / base) + v % base;
    if v / base >= p {
      Product(p, v / base, base);
    }
  }

  lemma {:induction false} PowerGrows(a: nat, b: nat, n: nat)
    requires a <= b
    ensures Power(a, n) <= Power(b, n)
    decreases n
  {
    if n > 0 {
      PowerGrows(a, b, n - 1);
      Product(a, b, Power(a, n - 1));
      Product(Power(a, n - 1), Power(b, n - 1), b);
    }
  }

  lemma {:induction false} PowerOfFour(n: nat)
    ensures Power(4, n + 4) == 256 * Power(4, n)
  {
    assert Power(4, n + 4) == 4 * Power(4, n + 3) && Power(4, n + 3) == 4 * Power(4, n + 2);
    assert Power(4, n + 2) == 4 * Power(4, n + 1) && Power(4, n + 1) == 4 * Power(4, n);
  }

  /** 32 places are enough for 64 bits in any base from 4 on, so in bases 10 and 16 the printer's digit
      buffer never cuts a numeral. */
  lemma BufferLongEnough(v: nat, base: nat, upper: bool)
    requires v <= ULLONG_MAX && 4 <= base <= 16
    ensures |Numeral(v, base, upper)| <= 32
  {
    PowerOfFour(0);
    PowerOfFour(4);
    PowerOfFour(8);
    PowerOfFour(12);
    PowerOfFour(16);
    PowerOfFour(20);
    PowerOfFour(24);
    PowerOfFour(28);
    assert Power(4, 32) == TWO64;
    PowerGrows(4, base, 32);
    NumeralLength(v, base, upper, 32);
  }

  // ----- What is read, whatever the text -----

  /** The digits: 0 to 9, then a to z or A to Z. */
  lemma DigitsAre(c: Byte, d: nat)
    requires d < 36
    ensures DigitValue(c) == d <==> if d < 10 then c == 48 + d else c == 87 + d || c == 55 + d
  {
  }

  lemma DigitCharsAre(d: nat)
    requires d < 16
    ensures DigitChar(d, false) == [48, 49, 50, 51, 52, 53, 54, 55, 56, 57, 97, 98, 99, 100, 101, 102][d]
    ensures DigitChar(d, true) == [48, 49, 50, 51, 52, 53, 54, 55, 56, 57, 65, 66, 67, 68, 69, 70][d]
  {
  }

  /** Each place counts the base times the one behind it, the first digit the most. */
  lemma {:induction false} FirstDigitCounts(c: Byte, t: Text, base: nat)
    requires AllDigits([c] + t, base)
    ensures AllDigits(t, base) && Value([c] + t, base) == DigitValue(c) * Power(base, |t|) + Value(t, base)
    decreases |t|
  {
    assert t == ([c] + t)[1..];
    var all := [c] + t;
    forall k | 0 <= k < |t| ensures 0 <= DigitValue(t[k]) < base {
      assert t[k] == all[k + 1];
    }
    if t == [] {
      assert all[..0] == [] && all[0] == c;
    } else {
      var front := t[..|t| - 1];
      assert all[..|all| - 1] == [c] + front && all[|all| - 1] == t[|t| - 1];
      FirstDigitCounts(c, front, base);
      Distributes(DigitValue(c), Power(base, |front|), Value(front, base), base);
    }
  }

  lemma Distributes(d: int, p: nat, v: nat, base: nat)
    ensures (d * p + v) * base == d * (base * p) + v * base
  {
  }

  predicate Spaces(t: Text) {
    forall k :: 0 <= k < |t| ==> 9 <= t[k] <= 13 || t[k] == 32
  }

  /** The text starts with neither a space nor a sign. */
  predicate Bare(t: Text) {
    t != [] ==> !(9 <= t[0] <= 13) && t[0] !in {32, 43, 45}
  }

  lemma {:induction false} SpacesSkipped(front: Text, spaces: Text, t: Text)
    requires Spaces(spaces) && (t != [] ==> !(9 <= t[0] <= 13 || t[0] == 32))
    ensures SkipSpaces(front + spaces + t, |front|) == |front + spaces|
    decreases |spaces|
  {
    var text := front + spaces + t;
    if spaces != [] {
      assert text[|front|] == spaces[0];
      assert text == (front + [spaces[0]]) + spaces[1..] + t;
      SpacesSkipped(front + [spaces[0]], spaces[1..], t);
    } else if t != [] {
      assert text[|front|] == t[0];
    }
  }

  lemma SignSkipped(spaces: Text, sign: Text, t: Text)
    requires Spaces(spaces) && sign in {[], [43], [45]} && Bare(t)
    ensures SkipSpaceAndSign(spaces + sign + t) == (sign == [45], |spaces + sign|)
  {
    var text := spaces + sign + t;
    SpacesSkipped([], spaces, sign + t);
    assert [] + spaces + (sign + t) == text;
    if sign != [] {
      assert text[|spaces|] == sign[0];
    } else if t != [] {
      assert text[|spaces|] == t[0];
    }
  }

  lemma {:induction false} DigitsEndShifted(front: Text, t: Text, i: nat, base: int)
    requires i <= |t|
    ensures DigitsEnd(front + t, |front| + i, base) == |front| + DigitsEnd(t, i, base)
    decreases |t| - i
  {
    if i < |t| {
      assert (front + t)[|front| + i] == t[i];
      if IsDigit(t, i, base) {
        DigitsEndShifted(front, t, i + 1, base);
      }
    }
  }

  lemma ResolveShifted(front: Text, t: Text, base: int)
    ensures var (b, i) := ResolveBase(t, 0, base); ResolveBase(front + t, |front|, base) == (b, |front| + i)
  {
    assert At(front + t, |front|) == At(t, 0) && At(front + t, |front| + 1) == At(t, 1);
  }

  lemma ReadsFrom(text: Text, base: int, errno: nat, negative: bool, start: nat, b: int, first: nat)
    requires SkipSpaceAndSign(text) == (negative, start) && ResolveBase(text, start, base) == (b, first)
    ensures b < 2 || b > 36 ==> Strtoull(text, base, errno) == Parsed(0, 0, EINVAL)
    ensures !(b < 2 || b > 36) ==>
              var e := DigitsEnd(text, first, b);
              var m := Value(text[first..e], b);
              var v := Clip(m);
              Strtoull(text, base, errno)
              == Parsed(if negative then (TWO64 - v) % TWO64 else v, if e == first then 0 else e, if m > ULLONG_MAX then ERANGE else errno)
  {
    hide SkipSpaceAndSign, ResolveBase, DigitsEnd, Value, Clip;
  }

  lemma DigitsShifted(front: Text, t: Text, i: nat, b: int)
    requires i <= |t|
    ensures var e := DigitsEnd(t, i, b);
            DigitsEnd(front + t, |front| + i, b) == |front| + e && (front + t)[|front| + i..|front| + e] == t[i..e]
  {
    hide DigitsEnd;
    DigitsEndShifted(front, t, i, b);
  }

  /** The same digits read from further behind give the same number, with the end moved along. */
  lemma ReadsShifted(front: Text, t: Text, base: int, errno: nat, negative: bool, start: nat, b: int, i: nat)
    requires SkipSpaceAndSign(t) == (false, 0) && ResolveBase(t, 0, base) == (b, i)
    requires SkipSpaceAndSign(front + t) == (negative, start) && ResolveBase(front + t, start, base) == (b, |front| + i)
    ensures var r := Strtoull(t, base, errno);
            Strtoull(front + t, base, errno)
            == Parsed(if !negative || r.value == 0 then r.value else 0x1_0000_0000_0000_0000 - r.value,
                      if r.end == 0 then 0 else |front| + r.end, r.errno)
  {
    hide SkipSpaceAndSign, ResolveBase, DigitsEnd, Value, Strtoull;
    ReadsFrom(t, base, errno, false, 0, b, i);
    ReadsFrom(front + t, base, errno, negative, start, b, |front| + i);
    DigitsShifted(front, t, i, b);
  }

  /** Spaces and a sign in front only move the end of the number; a minus sign negates it modulo 2^64. */
  lemma SignedText(spaces: Text, sign: Text, t: Text, base: int, errno: nat)
    requires Spaces(spaces) && sign in {[], [43], [45]} && Bare(t)
    ensures var r := Strtoull(t, base, errno);
            Strtoull(spaces + sign + t, base, errno)
            == Parsed(if sign != [45] || r.value == 0 then r.value else 0x1_0000_0000_0000_0000 - r.value,
                      if r.end == 0 then 0 else |spaces + sign| + r.end, r.errno)
  {
    hide SkipSpaceAndSign, ResolveBase, DigitsEnd, Value, Spaces, Bare, Strtoull;
    var front := spaces + sign;
    SignSkipped(spaces, sign, t);
    SignSkipped([], [], t);
    assert [] + [] + t == t;
    ResolveShifted(front, t, base);
    var (b, i) := ResolveBase(t, 0, base);
    ReadsShifted(front, t, base, errno, sign == [45], |front|, b, i);
  }

  /** The signed conversion clips what the unsigned one reads to 64 bits with a sign. */
  lemma SignedReads(spaces: Text, sign: Text, t: Text, base: int)
    requires Spaces(spaces) && sign in {[], [43], [45]} && Bare(t)
    ensures var r := Strtoull(t, base, 0);
            var v := if sign == [45] then -r.value else r.value;
            var end := |spaces + sign| + r.end;
            Strtoll(spaces + sign + t, base)
            == if r.end == 0 then Parsed(0, 0, r.errno)
               else if v < -0x8000_0000_0000_0000 then Parsed(-0x8000_0000_0000_0000, end, 34)
               else if v > 0x7FFF_FFFF_FFFF_FFFF then Parsed(0x7FFF_FFFF_FFFF_FFFF, end, 34)
               else Parsed(v, end, r.errno)
  {
    hide SkipSpaceAndSign, Strtoull, Spaces, Bare;
    SignSkipped(spaces, sign, t);
    assert (spaces + sign + t)[|spaces + sign|..] == t;
  }

  /** No base but 0 and 2 to 36 is taken, whatever the text. */
  lemma BadBase(text: Text, base: int, errno: nat)
    requires base != 0 && !(2 <= base <= 36)
    ensures Strtoull(text, base, errno) == Parsed(0, 0, 22)
  {
  }

  /** Base 0 is 16 behind 0x, 8 behind another 0, and else 10. */
  lemma BaseZero(t: Text, errno: nat)
    requires Bare(t)
    ensures Strtoull(t, 0, errno)
         == Strtoull(t, if |t| > 0 && t[0] == 48 then if |t| > 1 && t[1] in {88, 120} then 16 else 8 else 10, errno)
  {
    hide DigitsEnd, Value;
    SignSkipped([], [], t);
    assert [] + [] + t == t;
  }

  /** In base 16 a prefix 0x counts as nothing; a prefix with no digit behind it is no number. */
  lemma PrefixSkipped(x: Byte, t: Text, errno: nat)
    requires Bare(t) && x in {88, 120} && !(|t| > 1 && t[0] == 48 && t[1] in {88, 120})
    ensures var r := Strtoull(t, 16, errno);
            Strtoull([48, x] + t, 16, errno) == Parsed(r.value, if r.end == 0 then 0 else 2 + r.end, r.errno)
  {
    hide SkipSpaceAndSign, DigitsEnd, Value, Strtoull;
    var text := [48, x] + t;
    SignSkipped([], [], t);
    assert [] + [] + t == t;
    SignSkipped([], [], text);
    assert [] + [] + text == text;
    assert text[0] == 48 && text[1] == x;
    ReadsShifted([48, x], t, 16, errno, false, 0, 16, 0);
  }

  /** The longest row of digits is read, up to what does not belong to it: its value, or the largest one
      and a range error if that takes more than 64 bits. Without a digit nothing is read. */
  lemma DigitsRead(digits: Text, rest: Text, base: nat, errno: nat)
    requires 2 <= base <= 36 && AllDigits(digits, base) && (rest != [] ==> !(0 <= DigitValue(rest[0]) < base))
    requires Bare(digits + rest)
    requires base == 16 ==> !(|digits + rest| > 1 && (digits + rest)[0] == 48 && (digits + rest)[1] in {88, 120})
    ensures var v := Value(digits, base);
            Strtoull(digits + rest, base, errno)
            == if v > 0xFFFF_FFFF_FFFF_FFFF then Parsed(0xFFFF_FFFF_FFFF_FFFF, |digits|, 34) else Parsed(v, |digits|, errno)
  {
    hide DigitsEnd, Value, AllDigits, SkipSpaceAndSign, ResolveBase, Bare, Strtoull;
    var t := digits + rest;
    SignSkipped([], [], t);
    assert [] + [] + t == t;
    NothingSkipped(t, base);
    ReadsFrom(t, base, errno, false, 0, base, 0);
    RowEnds([], digits, rest, base);
    assert [] + digits + rest == t && t[0..|digits|] == digits;
  }

  lemma NothingSkipped(t: Text, base: nat)
    requires base > 0 && (base == 16 ==> !(|t| > 1 && t[0] == 48 && t[1] in {88, 120}))
    ensures ResolveBase(t, 0, base) == (base, 0)
  {
  }

  lemma {:induction false} RowEnds(front: Text, digits: Text, rest: Text, base: nat)
    requires AllDigits(digits, base) && (rest != [] ==> !(0 <= DigitValue(rest[0]) < base)) && base >= 2
    ensures DigitsEnd(front + digits + rest, |front|, base) == |front + digits|
    decreases |digits|
  {
    var text := front + digits + rest;
    if digits != [] {
      assert text[|front|] == digits[0];
      assert text == (front + [digits[0]]) + digits[1..] + rest;
      RowEnds(front + [digits[0]], digits[1..], rest, base);
    } else if rest != [] {
      assert text[|front|] == rest[0];
    }
  }
}
