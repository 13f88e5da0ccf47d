/** The formatted printer: what a format writes, and the bounded buffer it writes it to. */
module FormatText {
  import opened NumberText

  const TWO32: nat := 0x1_0000_0000

  /** An argument as its register holds it, and the string it points to where it is read as one. */
  datatype Arg = Arg(bits: nat, text: OptionalText)
  datatype OptionalText = Null | Points(chars: Text)

  predicate ArgsOk(args: seq<Arg>) {
    forall k :: 0 <= k < |args| ==> args[k].bits < TWO64
  }

  function Int64(bits: nat): int {
    if bits > LLONG_MAX then bits - TWO64 else bits
  }

  function Int32(bits: nat): int {
    var low := bits % TWO32;
    if low >= TWO32 / 2 then low - TWO32 else low
  }

  // ----- What a format writes -----

  datatype Directive = Plain(c: Byte) | Percent | Convert(kind: Byte, longs: nat) | Unknown(c: Byte)

  /** Where a row of length letters ends. */
  function SkipLongs(f: Text, i: nat): (r: nat)
    requires i <= |f|
    ensures i <= r <= |f|
    decreases |f| - i
  {
    if i < |f| && f[i] == 108 then SkipLongs(f, i + 1) else i
  }

  predicate IsConversion(c: Byte) {
    c in {99, 115, 100, 105, 117, 120, 88, 112}
  }

  /** The directive at a place of the format, and where the next one starts. */
  function Next(f: Text, i: nat): (r: (Directive, nat))
    requires i < |f|
    ensures i < r.1 <= |f|
    ensures r.0.Convert? ==> IsConversion(r.0.kind)
  {
    if f[i] != 37 then (Plain(f[i]), i + 1)
    else if At(f, i + 1) == 37 then (Percent, i + 2)
    else
      var k := SkipLongs(f, i + 1);
      var after := if k < |f| then k + 1 else k;
      if k < |f| && IsConversion(f[k]) then (Convert(f[k], k - (i + 1)), after) else (Unknown(At(f, k)), after)
  }

  function Uses(d: Directive): nat {
    if d.Convert? then 1 else 0
  }

  /** How many arguments the rest of a format takes. */
  function Needs(f: Text, i: nat): nat
    requires i <= |f|
    decreases |f| - i
  {
    if i == |f| then 0 else Uses(Next(f, i).0) + Needs(f, Next(f, i).1)
  }

  /** What one conversion writes. */
  function Converted(kind: Byte, longs: nat, a: Arg): Text
    requires IsConversion(kind) && a.bits < TWO64
  {
    if kind == 99 then [a.bits % 256]
    else if kind == 115 then (match a.text case Null => [40, 110, 117, 108, 108, 41] case Points(chars) => chars)
    else if kind == 100 || kind == 105 then Signed(if longs >= 1 then Int64(a.bits) else Int32(a.bits))
    else if kind == 117 then Numeral(if longs >= 1 then a.bits else a.bits % TWO32, 10, false)
    else if kind == 112 then [48, 120] + Numeral(a.bits, 16, false)
    else Numeral(if longs >= 1 then a.bits else a.bits % TWO32, 16, kind == 88)
  }

  function Written(d: Directive, args: seq<Arg>, a: nat): Text
    requires ArgsOk(args) && (d.Convert? ==> IsConversion(d.kind) && a < |args|)
  {
    match d
    case Plain(c) => [c]
    case Percent => [37]
    case Convert(kind, longs) => Converted(kind, longs, args[a])
    case Unknown(c) => if c == 0 then [37] else [37, c]
  }

  /** The whole output of a format, however long. */
  function Render(f: Text, i: nat, args: seq<Arg>, a: nat): Text
    requires i <= |f| && ArgsOk(args) && a + Needs(f, i) <= |args|
    decreases |f| - i
  {
    if i == |f| then []
    else Written(Next(f, i).0, args, a) + Render(f, Next(f, i).1, args, a + Uses(Next(f, i).0))
  }

  function ToInt(n: nat): int {
    Int32(n)
  }

  // ----- Printing and parsing -----

  const LLD: Text := [37, 108, 108, 100]
  const LLU: Text := [37, 108, 108, 117]
  const LLX: Text := [37, 108, 108, 120]
  const PTR: Text := [37, 112]

  lemma RenderOne(f: Text, kind: Byte, longs: nat, a: Arg)
    requires a.bits < TWO64 && IsConversion(kind) && f != [] && Next(f, 0) == (Convert(kind, longs), |f|)
    ensures Needs(f, 0) == 1 && Render(f, 0, [a], 0) == Converted(kind, longs, a)
  {
    hide Converted;
    assert Needs(f, |f|) == 0;
    assert Render(f, |f|, [a], 1) == [];
  }

  lemma LongLong(kind: Byte)
    requires IsConversion(kind)
    ensures Next([37, 108, 108, kind], 0) == (Convert(kind, 2), 4)
  {
    var f := [37, 108, 108, kind];
    assert SkipLongs(f, 3) == 3;
    assert SkipLongs(f, 2) == 3;
    assert SkipLongs(f, 1) == 3;
  }

  /** Printing a 64-bit number and parsing it gives it back: "%lld" with strtoll for every signed value,
      "%llu" and "%llx" with strtoull in base 10 and 16, "%p" in base 16 and base 0. */
  lemma PrintThenParse(a: Arg, errno: nat)
    requires a.bits < TWO64
    ensures Needs(LLD, 0) == 1 && Needs(LLU, 0) == 1 && Needs(LLX, 0) == 1 && Needs(PTR, 0) == 1
    ensures var t := Render(LLD, 0, [a], 0); Strtoll(t, 10) == Parsed(Int64(a.bits), |t|, 0)
    ensures var t := Render(LLU, 0, [a], 0); Strtoull(t, 10, errno) == Parsed(a.bits, |t|, errno)
    ensures var t := Render(LLX, 0, [a], 0); Strtoull(t, 16, errno) == Parsed(a.bits, |t|, errno)
    ensures var t := Render(PTR, 0, [a], 0);
            Strtoull(t, 16, errno) == Parsed(a.bits, |t|, errno) && Strtoull(t, 0, errno) == Parsed(a.bits, |t|, errno)
  {
    hide Strtoll, Strtoull, Numeral, Signed;
    LongLong(100);
    LongLong(117);
    LongLong(120);
    assert SkipLongs(PTR, 1) == 1;
    RenderOne(LLD, 100, 2, a);
    RenderOne(LLU, 117, 2, a);
    RenderOne(LLX, 120, 2, a);
    RenderOne(PTR, 112, 0, a);
    SignedExact(Int64(a.bits));
    UnsignedRoundTrip(a.bits, 10, false, errno);
    UnsignedRoundTrip(a.bits, 16, false, errno);
    PointerRoundTrip(a.bits, errno);
  }

  // ----- The bounded buffer -----

  /** The buffer holds the output so far, up to one place short of its size; behind that it is as it was. */
  predicate Holds(now: Text, was: Text, size: nat, out: Text) {
    |now| == |was| && forall k :: 0 <= k < |now| ==> now[k] == if k < |out| && k + 1 < size then out[k] else was[k]
  }

  function Content(target: array?<Byte>): Text
    reads target
  {
    if target == null then [] else target[..]
  }

  method BufferPut(target: array?<Byte>, size: nat, used: nat, ch: Byte, ghost was: Text, ghost out: Text) returns (after: nat)
    requires target != null ==> size <= target.Length
    requires Holds(Content(target), was, size, out) && used == |out|
    modifies target
    ensures Holds(Content(target), was, size, out + [ch]) && after == |out| + 1
  {
    if target != null && size > 0 && used + 1 < size {
      target[used] := ch;
    }
    after := used + 1;
  }

  method BufferPutString(target: array?<Byte>, size: nat, used: nat, text: OptionalText, ghost was: Text, ghost out: Text) returns (after: nat)
    requires target != null ==> size <= target.Length
    requires Holds(Content(target), was, size, out) && used == |out|
    modifies target
    ensures var t := if text.Null? then [40, 110, 117, 108, 108, 41] else text.chars;
            Holds(Content(target), was, size, out + t) && after == |out + t|
  {
    hide Holds;
    var t := if text.Null? then [40, 110, 117, 108, 108, 41] else text.chars;
    after := used;
    var i := 0;
    assert out + t[..0] == out;
    while i < |t|
      invariant i <= |t| && Holds(Content(target), was, size, out + t[..i]) && after == |out| + i
    {
      after := BufferPut(target, size, after, t[i], was, out + t[..i]);
      assert out + t[..i] + [t[i]] == out + t[..i + 1];
      i := i + 1;
    }
    assert t[..i] == t;
  }

  predicate BufferHas(buffer: seq<Byte>, n: Text, index: nat) {
    |buffer| == 32 && index <= 32 && index <= |n| && forall k :: 0 <= k < index ==> buffer[k] == n[|n| - 1 - k]
  }

  /** The digits go into the 32-place buffer last first, and all of them find room. */
  method FillDigits(buffer: array<Byte>, value: nat, base: nat, upper: bool) returns (index: nat)
    requires buffer.Length == 32 && 0 < value <= ULLONG_MAX && (base == 10 || base == 16)
    modifies buffer
    ensures BufferHas(buffer[..], Numeral(value, base, upper), index) && index == |Numeral(value, base, upper)|
  {
    hide Numeral;
    ghost var n := Numeral(value, base, upper);
    BufferLongEnough(value, base, upper);
    index := 0;
    var v: nat := value;
    assert n[..|n| - 0] == n;
    while v != 0 && index < 32
      invariant BufferHas(buffer[..], n, index)
      invariant v != 0 ==> Numeral(v, base, upper) == n[..|n| - index]
      invariant v == 0 <==> index == |n|
      decreases v
    {
      LastDigit(v, base, upper);
      ghost var front := n[..|n| - index];
      assert front[|front| - 1] == n[|n| - 1 - index];
      buffer[index] := DigitChar(v % base, upper);
      v := v / base;
      assert front[..|front| - 1] == n[..|n| - (index + 1)];
      index := index + 1;
    }
  }

  /** The digits come out of the buffer again, first first, and make the whole numeral. */
  method BufferPutUnsigned(target: array?<Byte>, size: nat, used: nat, value: nat, base: nat, upper: bool,
                           ghost was: Text, ghost out: Text) returns (after: nat)
    requires target != null ==> size <= target.Length
    requires Holds(Content(target), was, size, out) && used == |out|
    requires value <= ULLONG_MAX && (base == 10 || base == 16)
    modifies target
    ensures Holds(Content(target), was, size, out + Numeral(value, base, upper)) && after == |out + Numeral(value, base, upper)|
  {
    hide Holds;
    if value == 0 {
      after := BufferPut(target, size, used, 48, was, out);
      return;
    }
    var buffer := new Byte[32];
    var index := FillDigits(buffer, value, base, upper);
    after := PutDigits(target, size, used, buffer, index, was, out, Numeral(value, base, upper));
  }

  method PutDigits(target: array?<Byte>, size: nat, used: nat, buffer: array<Byte>, count: nat,
                   ghost was: Text, ghost out: Text, ghost n: Text) returns (after: nat)
    requires target != null ==> size <= target.Length
    requires target != buffer && BufferHas(buffer[..], n, count) && count == |n|
    requires Holds(Content(target), was, size, out) && used == |out|
    modifies target
    ensures Holds(Content(target), was, size, out + n) && after == |out + n|
  {
    hide Holds;
    var index: nat := count;
    after := used;
    assert out + n[..0] == out;
    while index > 0
      invariant index <= |n| <= 32 && Holds(Content(target), was, size, out + n[..|n| - index]) && after == |out| + |n| - index
      invariant BufferHas(buffer[..], n, count)
    {
      index := index - 1;
      after := BufferPut(target, size, after, buffer[index], was, out + n[..|n| - 1 - index]);
      assert out + n[..|n| - 1 - index] + [n[|n| - 1 - index]] == out + n[..|n| - index];
    }
    assert n[..|n|] == n;
  }

  /** The last digit, and the numeral without it. */
  lemma LastDigit(v: nat, base: nat, upper: bool)
    requires 2 <= base <= 16 && v > 0
    ensures var n := Numeral(v, base, upper);
            && n[|n| - 1] == DigitChar(v % base, upper) && 0 <= v / base < v
            && (v / base == 0 <==> |n| == 1)
            && (v / base != 0 ==> Numeral(v / base, base, upper) == n[..|n| - 1])
  {
    if v >= base {
      Smaller(v, base);
    } else {
      OneDigit(v, base);
    }
  }

  lemma OneDigit(v: nat, base: nat)
    requires v < base
    ensures v / base == 0 && v % base == v
  {
  }

  method BufferPutSigned(target: array?<Byte>, size: nat, used: nat, value: int, ghost was: Text, ghost out: Text) returns (after: nat)
    requires target != null ==> size <= target.Length
    requires Holds(Content(target), was, size, out) && used == |out| && LLONG_MIN <= value <= LLONG_MAX
    modifies target
    ensures Holds(Content(target), was, size, out + Signed(value)) && after == |out + Signed(value)|
  {
    hide Holds, Numeral;
    if value < 0 {
      after := BufferPut(target, size, used, 45, was, out);
      after := BufferPutUnsigned(target, size, after, (TWO64 - (TWO64 + value)) % TWO64, 10, false, was, out + [45]);
      assert out + [45] + Numeral(-value, 10, false) == out + Signed(value);
    } else {
      after := BufferPutUnsigned(target, size, used, value, 10, false, was, out);
    }
  }

  method BufferPutConverted(target: array?<Byte>, size: nat, used: nat, kind: Byte, longs: nat, a: Arg,
                            ghost was: Text, ghost out: Text) returns (after: nat)
    requires target != null ==> size <= target.Length
    requires Holds(Content(target), was, size, out) && used == |out| && IsConversion(kind) && a.bits < TWO64
    modifies target
    ensures Holds(Content(target), was, size, out + Converted(kind, longs, a)) && after == |out + Converted(kind, longs, a)|
  {
    hide Holds, Numeral, Signed;
    if kind == 99 {
      after := BufferPut(target, size, used, a.bits % 256, was, out);
    } else if kind == 115 {
      after := BufferPutString(target, size, used, a.text, was, out);
    } else if kind == 100 || kind == 105 {
      after := BufferPutSigned(target, size, used, if longs >= 1 then Int64(a.bits) else Int32(a.bits), was, out);
    } else if kind == 117 {
      after := BufferPutUnsigned(target, size, used, if longs >= 1 then a.bits else a.bits % TWO32, 10, false, was, out);
    } else if kind == 112 {
      after := BufferPutString(target, size, used, Points([48, 120]), was, out);
      after := BufferPutUnsigned(target, size, after, a.bits, 16, false, was, out + [48, 120]);
      assert out + [48, 120] + Numeral(a.bits, 16, false) == out + Converted(kind, longs, a);
    } else {
      after := BufferPutUnsigned(target, size, used, if longs >= 1 then a.bits else a.bits % TWO32, 16, kind == 88, was, out);
    }
  }

  method BufferPutDirective(target: array?<Byte>, size: nat, used: nat, d: Directive, args: seq<Arg>, a: nat,
                            ghost was: Text, ghost out: Text) returns (after: nat)
    requires target != null ==> size <= target.Length
    requires Holds(Content(target), was, size, out) && used == |out|
    requires ArgsOk(args) && (d.Convert? ==> IsConversion(d.kind) && a < |args|)
    modifies target
    ensures Holds(Content(target), was, size, out + Written(d, args, a)) && after == |out + Written(d, args, a)|
  {
    hide Holds, Converted, IsConversion;
    match d
    case Plain(c) =>
      after := BufferPut(target, size, used, c, was, out);
    case Percent =>
      after := BufferPut(target, size, used, 37, was, out);
    case Convert(kind, longs) =>
      after := BufferPutConverted(target, size, used, kind, longs, args[a], was, out);
    case Unknown(c) =>
      after := BufferPut(target, size, used, 37, was, out);
      if c != 0 {
        after := BufferPut(target, size, after, c, was, out + [37]);
        assert out + [37] + [c] == out + [37, c];
      }
  }

  /** The output that fits, terminated; the rest of the buffer as it was. */
  function Fitted(was: Text, size: nat, out: Text): Text
    requires 0 < size <= |was|
  {
    var n := if |out| < size then |out| else size - 1;
    out[..n] + [0] + was[n + 1..]
  }

  /** The printer returns the length of the whole output, and stores exactly the terminated part of it
      that fits. */
  method Vsnprintf(target: array?<Byte>, size: nat, format: OptionalText, args: seq<Arg>) returns (result: int)
    requires target != null ==> size <= target.Length
    requires ArgsOk(args) && (format.Points? ==> Needs(format.chars, 0) <= |args|)
    modifies target
    ensures format.Null? ==> result == -1
    ensures format.Points? ==> result == ToInt(|Render(format.chars, 0, args, 0)|)
    ensures target != null && size > 0 ==>
      target[..] == if format.Null? then old(target[..])[0 := 0] else Fitted(old(target[..]), size, Render(format.chars, 0, args, 0))
    ensures target != null && size == 0 ==> target[..] == old(target[..])
  {
    hide Render, Needs, Written, IsConversion, Next, Holds;
    ghost var was := Content(target);
    if format.Null? {
      if target != null && size > 0 {
        target[0] := 0;
      }
      return -1;
    }
    var f := format.chars;
    var used: nat := 0;
    var i: nat := 0;
    var a: nat := 0;
    ghost var out: Text := [];
    ghost var whole := Render(f, 0, args, 0);
    assert out + whole == whole;
    NothingHeld(was, size);
    while i < |f|
      invariant i <= |f| && a + Needs(f, i) <= |args|
      invariant Holds(Content(target), was, size, out) && used == |out| && out + Render(f, i, args, a) == whole
      decreases |f| - i
    {
      RenderStep(f, i, args, a);
      var step := Next(f, i);
      var d, next: nat := step.0, step.1;
      ghost var w := Written(d, args, a);
      ghost var rest := Render(f, next, args, a + Uses(d));
      assert out + (w + rest) == (out + w) + rest;
      used := BufferPutDirective(target, size, used, d, args, a, was, out);
      a := a + Uses(d);
      out := out + w;
      i := next;
    }
    RenderEnd(f, args, a);
    assert out + [] == out;
    if target != null && size == 0 {
      NothingStored(target[..], was, out);
    }
    if target != null && size > 0 {
      HeldIsFitted(target[..], was, size, out);
      if used >= size {
        target[size - 1] := 0;
      } else {
        target[used] := 0;
      }
    }
    result := ToInt(used);
  }

  lemma NothingHeld(was: Text, size: nat)
    ensures Holds(was, was, size, [])
  {
  }

  lemma NothingStored(now: Text, was: Text, out: Text)
    requires Holds(now, was, 0, out)
    ensures now == was
  {
  }

  /** The terminator makes what is held the part that fits. */
  lemma HeldIsFitted(now: Text, was: Text, size: nat, out: Text)
    requires Holds(now, was, size, out) && 0 < size <= |was|
    ensures |now| == |was|
    ensures now[(if |out| >= size then size - 1 else |out|) := 0] == Fitted(was, size, out)
  {
  }

  lemma RenderStep(f: Text, i: nat, args: seq<Arg>, a: nat)
    requires i < |f| && ArgsOk(args) && a + Needs(f, i) <= |args|
    ensures var (d, next) := Next(f, i);
            && i < next <= |f| && (d.Convert? ==> IsConversion(d.kind) && a < |args|)
            && a + Uses(d) + Needs(f, next) <= |args|
            && Render(f, i, args, a) == Written(d, args, a) + Render(f, next, args, a + Uses(d))
  {
  }

  lemma RenderEnd(f: Text, args: seq<Arg>, a: nat)
    requires ArgsOk(args) && a + Needs(f, |f|) <= |args|
    ensures Render(f, |f|, args, a) == []
  {
  }

  // ----- The two conversions, as they run -----

  method ConvertUnsigned(text: Text, base: int, errno: nat) returns (r: Parsed)
    ensures r == Strtoull(text, base, errno)
  {
    hide Value, Overflows, Append;
    var start := 0;
    while start < |text| && IsSpace(text[start])
      invariant start <= |text| && SkipSpaces(text, 0) == SkipSpaces(text, start)
    {
      start := start + 1;
    }
    var negative := false;
    if At(text, start) == 45 || At(text, start) == 43 {
      negative := At(text, start) == 45;
      start := start + 1;
    }
    assert SkipSpaceAndSign(text) == (negative, start);
    var (b, first) := ResolveBase(text, start, base);
    if b < 2 || b > 36 {
      return Parsed(0, 0, EINVAL);
    }
    var value, cursor, error := ReadDigits(text, first, b, errno);
    r := Parsed(if negative then (TWO64 - value) % TWO64 else value, if cursor == first then 0 else cursor, error);
  }

  /** The digit loop: the clipped value and the range error come out exactly. */
  method ReadDigits(text: Text, first: nat, base: nat, errno: nat) returns (value: nat, cursor: nat, error: nat)
    requires first <= |text| && 2 <= base <= 36
    ensures cursor == DigitsEnd(text, first, base) && AllDigits(text[first..cursor], base)
    ensures var m := Value(text[first..cursor], base); value == Clip(m) && error == if m > ULLONG_MAX then ERANGE else errno
  {
    hide Value, Overflows, Append;
    cursor, value, error := first, 0, errno;
    assert text[first..first] == [];
    EmptyValue(base);
    while IsDigit(text, cursor, base)
      invariant first <= cursor <= |text| && AllDigits(text[first..cursor], base)
      invariant DigitsEnd(text, first, base) == DigitsEnd(text, cursor, base)
      invariant value == Clip(Value(text[first..cursor], base))
      invariant error == if Value(text[first..cursor], base) > ULLONG_MAX then ERANGE else errno
      decreases |text| - cursor
    {
      assert cursor < |text|;
      assert text[first..cursor + 1] == text[first..cursor] + [text[cursor]];
      DigitStep(text[first..cursor], text[cursor], base);
      var digit := DigitValue(text[cursor]);
      if Overflows(value, digit, base) {
        error := ERANGE;
        value := ULLONG_MAX;
      } else if value != ULLONG_MAX {
        value := Append(value, digit, base);
      }
      cursor := cursor + 1;
    }
  }

  lemma EmptyValue(b: nat)
    ensures Value([], b) == 0
  {
  }

  method ConvertSigned(text: Text, base: int) returns (r: Parsed)
    ensures r == Strtoll(text, base)
  {
    hide Value, Strtoull;
    var start := 0;
    while start < |text| && IsSpace(text[start])
      invariant start <= |text| && SkipSpaces(text, 0) == SkipSpaces(text, start)
    {
      start := start + 1;
    }
    var negative := false;
    if At(text, start) == 45 || At(text, start) == 43 {
      negative := At(text, start) == 45;
      start := start + 1;
    }
    var inner := ConvertUnsigned(text[start..], base, 0);
    if inner.end == 0 {
      return Parsed(0, 0, inner.errno);
    }
    var limit := if negative then LLONG_MAX + 1 else LLONG_MAX;
    if inner.value > limit {
      return Parsed(if negative then LLONG_MIN else LLONG_MAX, start + inner.end, ERANGE);
    }
    return Parsed(if negative then -inner.value else inner.value, start + inner.end, inner.errno);
  }

  // ----- What each piece of a format prints -----

  /** The bits of the number that the conversion reads: 32 without an l, 64 with at least one. */
  predicate SameBits(v: int, bits: nat, longs: nat) {
    if longs == 0 then (v - bits) % 0x1_0000_0000 == 0 else (v - bits) % 0x1_0000_0000_0000_0000 == 0
  }

  predicate SignedRange(v: int, longs: nat) {
    if longs == 0 then -0x8000_0000 <= v < 0x8000_0000 else -0x8000_0000_0000_0000 <= v < 0x8000_0000_0000_0000
  }

  predicate UnsignedRange(v: nat, longs: nat) {
    if longs == 0 then v < 0x1_0000_0000 else v < 0x1_0000_0000_0000_0000
  }

  /** The text stands for the argument as the conversion reads it: c 99, s 115, d 100, i 105, u 117,
      x 120, X 88, p 112. */
  ghost predicate Shows(t: Text, kind: Byte, longs: nat, arg: Arg) {
    && (kind == 99 ==> t == [arg.bits % 256])
    && (kind == 115 ==> if arg.text.Null? then t == [40, 110, 117, 108, 108, 41] else t == arg.text.chars)
    && (kind == 100 || kind == 105 ==> exists v :: SignedRange(v, longs) && SameBits(v, arg.bits, longs) && t == Signed(v))
    && (kind == 117 ==> exists v: nat :: UnsignedRange(v, longs) && SameBits(v, arg.bits, longs) && t == Numeral(v, 10, false))
    && (kind == 120 ==> exists v: nat :: UnsignedRange(v, longs) && SameBits(v, arg.bits, longs) && t == Numeral(v, 16, false))
    && (kind == 88 ==> exists v: nat :: UnsignedRange(v, longs) && SameBits(v, arg.bits, longs) && t == Numeral(v, 16, true))
    && (kind == 112 ==> t == [48, 120] + Numeral(arg.bits, 16, false))
  }

  /** There is one such number of either kind. */
  lemma OneNumber(v: int, w: int, bits: nat, longs: nat)
    requires SameBits(v, bits, longs) && SameBits(w, bits, longs)
    ensures SignedRange(v, longs) && SignedRange(w, longs) ==> v == w
    ensures 0 <= v && 0 <= w && UnsignedRange(v, longs) && UnsignedRange(w, longs) ==> v == w
  {
    if longs == 0 {
      var q, p := (v - bits) / 0x1_0000_0000, (w - bits) / 0x1_0000_0000;
      assert v - w == 0x1_0000_0000 * (q - p);
    } else {
      var q, p := (v - bits) / 0x1_0000_0000_0000_0000, (w - bits) / 0x1_0000_0000_0000_0000;
      assert v - w == 0x1_0000_0000_0000_0000 * (q - p);
    }
  }

  lemma ReadAs(bits: nat, longs: nat)
    requires bits < TWO64
    ensures var v := if longs == 0 then Int32(bits) else Int64(bits); SignedRange(v, longs) && SameBits(v, bits, longs)
    ensures var v := if longs == 0 then bits % TWO32 else bits; UnsignedRange(v, longs) && SameBits(v, bits, longs)
  {
  }

  lemma ConvertedShows(kind: Byte, longs: nat, arg: Arg)
    requires IsConversion(kind) && arg.bits < TWO64
    ensures Shows(Converted(kind, longs, arg), kind, longs, arg)
  {
    hide Signed, Numeral, SignedRange, UnsignedRange, SameBits, Int32, Int64;
    ReadAs(arg.bits, longs);
  }

  /** A plain character prints itself. */
  lemma PlainPrints(f: Text, i: nat, args: seq<Arg>, a: nat)
    requires i < |f| && f[i] != 37 && ArgsOk(args) && a + Needs(f, i) <= |args|
    ensures Needs(f, i) == Needs(f, i + 1) && Render(f, i, args, a) == [f[i]] + Render(f, i + 1, args, a)
  {
  }

  /** So a format without a percent sign prints itself. */
  lemma {:induction false} PlainTextPrints(f: Text, i: nat, args: seq<Arg>, a: nat)
    requires i <= |f| && (forall k :: i <= k < |f| ==> f[k] != 37) && ArgsOk(args) && a <= |args|
    ensures Needs(f, i) == 0 && Render(f, i, args, a) == f[i..]
    decreases |f| - i
  {
    if i < |f| {
      PlainTextPrints(f, i + 1, args, a);
      PlainPrints(f, i, args, a);
      assert f[i..] == [f[i]] + f[i + 1..];
    }
  }

  lemma {:induction false} LongsEnd(f: Text, i: nat, longs: nat)
    requires i + longs <= |f| && (forall k :: i <= k < i + longs ==> f[k] == 108) && At(f, i + longs) != 108
    ensures SkipLongs(f, i) == i + longs
    decreases longs
  {
    if longs > 0 {
      LongsEnd(f, i + 1, longs - 1);
    }
  }

  /** A percent sign, a row of l behind it, and what stands there. */
  predicate Directed(f: Text, i: nat, longs: nat) {
    && i + 1 + longs <= |f| && f[i] == 37 && (forall k :: i + 1 <= k < i + 1 + longs ==> f[k] == 108)
    && At(f, i + 1 + longs) != 108
  }

  /** Two percent signs print one, and one at the end of the format prints itself. */
  lemma PercentPrints(f: Text, i: nat, args: seq<Arg>, a: nat)
    requires i < |f| && f[i] == 37 && ArgsOk(args) && a + Needs(f, i) <= |args|
    ensures i + 1 < |f| && f[i + 1] == 37 ==>
              Needs(f, i) == Needs(f, i + 2) && Render(f, i, args, a) == [37] + Render(f, i + 2, args, a)
    ensures i + 1 == |f| ==> Render(f, i, args, a) == [37]
  {
    assert i + 1 == |f| ==> SkipLongs(f, i + 1) == i + 1 && Render(f, i + 1, args, a) == [];
  }

  /** A conversion, behind any number of l, prints its argument. */
  lemma ConversionPrints(f: Text, i: nat, longs: nat, args: seq<Arg>, a: nat)
    requires Directed(f, i, longs) && i + 1 + longs < |f| && f[i + 1 + longs] in {99, 115, 100, 105, 117, 120, 88, 112}
    requires ArgsOk(args) && a + Needs(f, i) <= |args|
    ensures var k := i + 1 + longs;
            && Needs(f, i) == 1 + Needs(f, k + 1)
            && exists t :: Shows(t, f[k], longs, args[a]) && Render(f, i, args, a) == t + Render(f, k + 1, args, a + 1)
  {
    hide Shows, Converted, SkipLongs;
    var k := i + 1 + longs;
    LongsEnd(f, i + 1, longs);
    ConvertedShows(f[k], longs, args[a]);
  }

  /** Anything else prints the percent sign and the character at fault, the l left out, and takes no
      argument. */
  lemma UnknownPrints(f: Text, i: nat, longs: nat, args: seq<Arg>, a: nat)
    requires Directed(f, i, longs) && i + 1 + longs < |f| && f[i + 1 + longs] !in {0, 99, 115, 100, 105, 117, 120, 88, 112}
    requires f[i + 1 + longs] == 37 ==> longs > 0
    requires ArgsOk(args) && a + Needs(f, i) <= |args|
    ensures var k := i + 1 + longs;
            Needs(f, i) == Needs(f, k + 1) && Render(f, i, args, a) == [37, f[k]] + Render(f, k + 1, args, a)
  {
    hide SkipLongs, Needs, Render, Next, Shows;
    NextUnknown(f, i, longs);
    RenderStep(f, i, args, a);
    NeedsStep(f, i);
  }

  lemma NextUnknown(f: Text, i: nat, longs: nat)
    requires Directed(f, i, longs) && i + 1 + longs < |f| && f[i + 1 + longs] !in {0, 99, 115, 100, 105, 117, 120, 88, 112}
    requires f[i + 1 + longs] == 37 ==> longs > 0
    ensures Next(f, i) == (Unknown(f[i + 1 + longs]), i + 1 + longs + 1)
  {
    hide SkipLongs;
    LongsEnd(f, i + 1, longs);
  }

  lemma NeedsStep(f: Text, i: nat)
    requires i < |f|
    ensures Needs(f, i) == Uses(Next(f, i).0) + Needs(f, Next(f, i).1)
  {
  }

  /** The length comes back as a 32-bit int: itself below 2^31, and otherwise its low 32 bits. */
  lemma ReturnedLength(n: nat)
    ensures n < 0x8000_0000 ==> ToInt(n) == n
    ensures -0x8000_0000 <= ToInt(n) < 0x8000_0000 && (ToInt(n) - n) % 0x1_0000_0000 == 0
  {
  }
}
