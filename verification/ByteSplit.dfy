/**
 Byte values split for decimal-aligned columns (src/UI/Format.h): the allocation-free splitter that fills a
 32-character buffer, against the plain one that uses std::format. Doubles are exact reals here.
 */
module ByteSplit {
  import opened Wrappers
  import opened Numeric
  import opened DecimalText

  const INT64_MAX := 0x7FFF_FFFF_FFFF_FFFF
  const BUFFER_SIZE := 32
  const KB := 1024.0
  const MB := 1024.0 * 1024.0
  const GB := 1024.0 * 1024.0 * 1024.0

  datatype ByteUnit = ByteUnit(suffix: string, scale: real, decimals: int)

  /** The locale's thousands separator; None is the source's '\0', a locale without grouping. */
  type Separator = Option<char>

  function ChooseByteUnit(bytes: real): (unit: ByteUnit)
  {
    var absBytes := Abs(bytes);
    if absBytes >= GB then ByteUnit("GB", GB, 1)
    else if absBytes >= MB then ByteUnit("MB", MB, 1)
    else if absBytes >= KB then ByteUnit("KB", KB, 1)
    else ByteUnit("B", 1.0, 1)
  }

  /** How many bytes a suffix stands for. */
  predicate StandsFor(suffix: string, scale: real) {
    || (suffix == "B" && scale == 1.0)
    || (suffix == "KB" && scale == KB)
    || (suffix == "MB" && scale == MB)
    || (suffix == "GB" && scale == GB)
  }

  /** The chosen unit is the largest that the value fills: from KB up at least 1.0, below GB less than 1024; and its
      suffix names its scale. */
  lemma ChosenUnitFits(bytes: real)
    ensures
      var unit := ChooseByteUnit(bytes);
      var shown := Abs(bytes) / unit.scale;
      && StandsFor(unit.suffix, unit.scale)
      && (unit.suffix != "B" ==> 1.0 <= shown)
      && (unit.suffix != "GB" ==> shown < 1024.0)
      && OneDecimal(unit)
  {
    assert "B"[0] != "GB"[0] && "KB"[0] != "GB"[0] && "MB"[0] != "GB"[0];
    assert |"B"| == 1 && |"KB"| == 2 && |"MB"| == 2 && |"GB"| == 2;
  }

  predicate OneDecimal(unit: ByteUnit) {
    unit.scale > 0.0 && unit.decimals > 0 && unit.suffix in {"B", "KB", "MB", "GB"}
  }

  // ---------------------------------------------------------------------------------------------
  // Rounding to one decimal, with the carry
  // ---------------------------------------------------------------------------------------------

  /** static_cast<std::int64_t>: truncation toward zero. */
  function Truncate(x: real): int {
    if x < 0.0 then -((-x).Floor) else x.Floor
  }

  /** std::round: halves away from zero. */
  function Round(x: real): int {
    if x < 0.0 then -((-x + 0.5).Floor) else (x + 0.5).Floor
  }

  /** Sign, whole part and tenth digit of a value rounded to tenths. */
  function TenthDigit(value: real): int {
    Round(Abs(value - Truncate(value) as real) * 10.0)
  }

  function RoundedWhole(value: real): int {
    if TenthDigit(value) >= 10 then Truncate(value) + (if value >= 0.0 then 1 else -1) else Truncate(value)
  }

  function RoundedTenth(value: real): (d: nat)
    ensures d <= 9
  {
    if TenthDigit(value) >= 10 then 0 else TenthDigit(value)
  }

  /** The source's casts and increments are defined only while they stay within std::int64_t. */
  predicate FitsInt64(value: real) {
    -INT64_MAX - 1 <= Truncate(value) <= INT64_MAX && -INT64_MAX - 1 <= RoundedWhole(value) <= INT64_MAX
  }

  /** The nearest number of tenths; halfway between two it is the larger one. */
  predicate IsNearestTenth(shown: real, value: real) {
    -1.0 / 20.0 < shown - value <= 1.0 / 20.0
  }

  lemma RoundingIsClose(value: real)
    requires value >= 0.0
    ensures RoundedWhole(value) >= 0
    ensures IsNearestTenth(RoundedWhole(value) as real + RoundedTenth(value) as real / 10.0, value)
  {
    var whole := Truncate(value);
    var fraction := value - whole as real;
    assert 0.0 <= fraction < 1.0;
    assert 0 <= TenthDigit(value) <= 10;
  }

  /** A negative value is rounded as its absolute value is, with the sign on the whole part. */
  lemma RoundingIsSymmetric(value: real)
    ensures RoundedWhole(-value) == -RoundedWhole(value) && RoundedTenth(-value) == RoundedTenth(value)
  {
  }

  // ---------------------------------------------------------------------------------------------
  // Digit grouping
  // ---------------------------------------------------------------------------------------------

  /** std::format("{:L}") on digits, locale grouping by three: groups are cut from the right. */
  function Grouped(digits: string, sep: Separator): string {
    if sep.None? || |digits| <= 3 then digits
    else Grouped(digits[..|digits| - 3], sep) + [sep.value] + digits[|digits| - 3..]
  }

  function LocaleInteger(n: int, sep: Separator): string {
    if n < 0 then "-" + Grouped(Numeral(-n), sep) else Grouped(Numeral(n), sep)
  }

  function Erased(s: string, sep: Separator): string {
    if s == [] then []
    else Erased(s[..|s| - 1], sep) + (if sep == Some(s[|s| - 1]) then [] else [s[|s| - 1]])
  }

  lemma {:induction false} ErasedAppend(s: string, t: string, sep: Separator)
    ensures Erased(s + t, sep) == Erased(s, sep) + Erased(t, sep)
  {
    if t == [] {
      assert s + t == s;
    } else {
      ErasedAppend(s, t[..|t| - 1], sep);
      assert (s + t)[..|s + t| - 1] == s + t[..|t| - 1];
    }
  }

  lemma {:induction false} ErasedWithout(s: string, sep: Separator)
    requires forall k :: 0 <= k < |s| ==> sep != Some(s[k])
    ensures Erased(s, sep) == s
  {
    if s != [] {
      ErasedWithout(s[..|s| - 1], sep);
    }
  }

  /** Erasing the separators gives the digits back, whatever (non-digit) separator the locale uses. */
  lemma {:induction false} GroupingErases(digits: string, sep: Separator)
    requires AllDigits(digits) && (sep.Some? ==> !IsDigit(sep.value))
    ensures Erased(Grouped(digits, sep), sep) == digits
  {
    if sep.None? || |digits| <= 3 {
      ErasedWithout(digits, sep);
    } else {
      var head, tail := digits[..|digits| - 3], digits[|digits| - 3..];
      assert Grouped(digits, sep) == Grouped(head, sep) + [sep.value] + tail;
      hide Erased, Grouped;
      GroupingErases(head, sep);
      ErasedBetween(Grouped(head, sep), sep.value, tail);
      ErasedWithout(tail, sep);
      assert head + tail == digits;
    }
  }

  lemma ErasedBetween(front: string, c: char, tail: string)
    ensures Erased(front + [c] + tail, Some(c)) == Erased(front, Some(c)) + Erased(tail, Some(c))
  {
    hide Erased;
    ErasedAppend(front + [c], tail, Some(c));
    ErasedSeparator(front, c);
  }

  lemma ErasedSeparator(front: string, c: char)
    ensures Erased(front + [c], Some(c)) == Erased(front, Some(c))
  {
    assert (front + [c])[..|front|] == front;
  }

  function GroupedLength(n: nat): nat {
    if n == 0 then 0 else n + (n - 1) / 3
  }

  function FromRight(s: string, k: nat): char
    requires k < |s|
  {
    s[|s| - 1 - k]
  }

  /** A separator sits exactly after every three digits counted from the right. */
  lemma {:induction false} SeparatorsEveryThree(digits: string, sep: Separator)
    requires AllDigits(digits) && sep.Some? && !IsDigit(sep.value)
    ensures
      var text := Grouped(digits, sep);
      && |text| == GroupedLength(|digits|)
      && forall k :: 0 <= k < |text| ==> (FromRight(text, k) == sep.value <==> k % 4 == 3)
  {
    if |digits| > 3 {
      var head, tail := digits[..|digits| - 3], digits[|digits| - 3..];
      SeparatorsEveryThree(head, sep);
      var front, text := Grouped(head, sep), Grouped(digits, sep);
      assert text == front + [sep.value] + tail;
      hide Grouped, FromRight;
      forall k | 0 <= k < |text|
        ensures FromRight(text, k) == sep.value <==> k % 4 == 3
      {
        FromRightOfGroup(front, sep.value, tail, k);
        assert k >= 4 ==> (k - 4) % 4 == k % 4;
      }
    }
  }

  lemma FromRightOfGroup(front: string, sep: char, tail: string, k: nat)
    requires |tail| == 3 && k < |front| + 4
    ensures FromRight(front + [sep] + tail, k)
         == if k < 3 then tail[2 - k] else if k == 3 then sep else FromRight(front, k - 4)
  {
  }

  // ---------------------------------------------------------------------------------------------
  // The plain splitter
  // ---------------------------------------------------------------------------------------------

  /** AlignedNumericParts */
  datatype Parts = Parts(wholePart: string, decimalPart: string, unitPart: string)

  function SplitBytesForAlignment(bytes: real, unit: ByteUnit, sep: Separator): Parts
    requires unit.scale > 0.0
  {
    var value := bytes / unit.scale;
    if unit.decimals > 0 then
      Parts(LocaleInteger(RoundedWhole(value), sep) + ".", [DigitChar(RoundedTenth(value))], " " + unit.suffix)
    else
      Parts(LocaleInteger(Truncate(value), sep), "", " " + unit.suffix)
  }

  // ---------------------------------------------------------------------------------------------
  // The allocation-free splitter
  // ---------------------------------------------------------------------------------------------

  /** Of n digits, a separator goes before digit i (counted from the left). */
  predicate Boundary(n: nat, i: nat)
    requires i < n
  {
    i > 0 && (n - i) % 3 == 0
  }

  /** The loop's own test, from the size of the leftmost group. */
  lemma BoundaryFromLeft(n: nat, i: nat)
    requires i < n
    ensures
      var firstGroupSize := (n - 1) % 3 + 1;
      i >= firstGroupSize && (i - firstGroupSize) % 3 == 0 <==> Boundary(n, i)
  {
    var q, first := (n - 1) / 3, (n - 1) % 3 + 1;
    assert n == 3 * q + first;
  }

  /** The characters the loop has written after the first i of the digits. */
  function Emitted(digits: string, i: nat, sep: Separator): string
    requires i <= |digits|
  {
    if i == 0 then ""
    else if sep.Some? && Boundary(|digits|, i - 1) then Emitted(digits, i - 1, sep) + [sep.value] + [digits[i - 1]]
    else Emitted(digits, i - 1, sep) + [digits[i - 1]]
  }

  /** Separators come at most once in three digits. */
  lemma {:induction false} EmittedLength(digits: string, i: nat, sep: Separator)
    requires 1 <= i <= |digits|
    ensures |Emitted(digits, i, sep)|
         == i + if sep.None? then 0 else (|digits| - 1) / 3 - (|digits| - i) / 3
  {
    if i > 1 {
      EmittedLength(digits, i - 1, sep);
    } else {
      assert Emitted(digits, 0, sep) == "";
    }
  }

  lemma {:induction false} EmittedOfPrefix(digits: string, i: nat, sep: Separator)
    requires |digits| > 3 && i <= |digits| - 3
    ensures Emitted(digits, i, sep) == Emitted(digits[..|digits| - 3], i, sep)
  {
    if i > 0 {
      EmittedOfPrefix(digits, i - 1, sep);
    }
  }

  /** Writing left to right with the boundary test gives the right-to-left grouping. */
  lemma {:induction false} EmittedIsGrouped(digits: string, sep: Separator)
    ensures Emitted(digits, |digits|, sep) == Grouped(digits, sep)
    decreases |digits|
  {
    var n := |digits|;
    if sep.None? || n <= 3 {
      EmittedPlain(digits, n, sep);
      assert digits[..n] == digits;
    } else {
      var head := digits[..n - 3];
      EmittedIsGrouped(head, sep);
      EmittedOfPrefix(digits, n - 3, sep);
      EmittedGroup(digits, sep);
    }
  }

  lemma {:induction false} EmittedPlain(digits: string, i: nat, sep: Separator)
    requires i <= |digits| && (sep.None? || |digits| <= 3)
    ensures Emitted(digits, i, sep) == digits[..i]
  {
    if i > 0 {
      EmittedPlain(digits, i - 1, sep);
    }
  }

  lemma EmittedGroup(digits: string, sep: Separator)
    requires sep.Some? && |digits| > 3
    ensures Emitted(digits, |digits|, sep)
         == Emitted(digits, |digits| - 3, sep) + [sep.value] + digits[|digits| - 3..]
  {
    var n := |digits|;
    EmittedStep(digits, n - 3, sep, true);
    EmittedStep(digits, n - 2, sep, false);
    EmittedStep(digits, n - 1, sep, false);
    Reassociate(Emitted(digits, n - 3, sep), sep.value, digits);
  }

  lemma Reassociate(front: string, s: char, digits: string)
    requires |digits| > 3
    ensures
      var n := |digits|;
      front + [s, digits[n - 3]] + [digits[n - 2]] + [digits[n - 1]] == front + [s] + digits[n - 3..]
  {
    assert digits[|digits| - 3..] == [digits[|digits| - 3], digits[|digits| - 2], digits[|digits| - 1]];
  }

  lemma EmittedStep(digits: string, i: nat, sep: Separator, atBoundary: bool)
    requires i < |digits| && (atBoundary <==> sep.Some? && Boundary(|digits|, i))
    ensures Emitted(digits, i + 1, sep)
         == Emitted(digits, i, sep) + (if atBoundary then [sep.value, digits[i]] else [digits[i]])
  {
  }

  /** AlignedBytesParts: the whole part lies in the first wholePartLen characters of its own buffer. */
  class AlignedBytesParts {
    const buffer: array<char>
    var wholePartLen: nat
    var decimalDigit: char
    var unitPart: string

    constructor ()
      ensures fresh(buffer) && buffer.Length == BUFFER_SIZE
      ensures wholePartLen == 0 && decimalDigit == '0' && unitPart == ""
    {
      buffer := new char[BUFFER_SIZE](_ => '\0');
      wholePartLen, decimalDigit, unitPart := 0, '0', "";
    }

    function Shown(): Parts
      requires wholePartLen <= buffer.Length
      reads this, buffer
    {
      Parts(buffer[..wholePartLen], [decimalDigit], unitPart)
    }
  }

  method EmitDigit(buffer: array<char>, start: nat, digit: char, sep: Separator) returns (pos: nat)
    requires start + 2 <= buffer.Length
    modifies buffer
    ensures buffer[..start] == old(buffer[..start])
    ensures pos == start + (if sep.Some? then 2 else 1)
    ensures buffer[..pos] == old(buffer[..start]) + (if sep.Some? then [sep.value, digit] else [digit])
  {
    pos := start;
    if sep.Some? {
      buffer[pos] := sep.value;
      pos := pos + 1;
    }
    buffer[pos] := digit;
    pos := pos + 1;
  }

  /** The digit loop: each digit, preceded by a separator at a group boundary past the first group. */
  method EmitDigits(buffer: array<char>, digits: string, sep: Separator) returns (pos: nat)
    requires buffer.Length == BUFFER_SIZE && 1 <= |digits| <= 20
    modifies buffer
    ensures pos <= 26 && buffer[..pos] == Grouped(digits, sep)
  {
    pos := 0;
    var firstGroupSize := (|digits| - 1) % 3 + 1;
    for i := 0 to |digits|
      invariant pos == |Emitted(digits, i, sep)| && pos <= i + 6
      invariant buffer[..pos] == Emitted(digits, i, sep)
    {
      EmittedLength(digits, i + 1, sep);
      var atBoundary := sep.Some? && i >= firstGroupSize && (i - firstGroupSize) % 3 == 0;
      BoundaryFromLeft(|digits|, i);
      EmittedStep(digits, i, sep, atBoundary);
      pos := EmitDigit(buffer, pos, digits[i], if atBoundary then sep else None);
    }
    EmittedIsGrouped(digits, sep);
  }

  /** A 64-bit whole part has at most 19 digits, so the release-build clamp to 20 never acts. */
  lemma WholePartFits(n: nat)
    requires n <= INT64_MAX
    ensures |Numeral(n)| <= 19
  {
    assert Pow10(19) == 10_000_000_000_000_000_000 by {
      assert Pow10(5) == 100_000;
      assert Pow10(10) == 100_000 * Pow10(5);
      assert Pow10(15) == 100_000 * Pow10(10);
      assert Pow10(19) == 10_000 * Pow10(15);
    }
    NumeralLength(n, 19);
  }

  function ClampedValue(bytes: real, unit: ByteUnit): real
    requires unit.scale > 0.0
  {
    (if bytes < 0.0 then 0.0 else bytes) / unit.scale
  }

  /** What the allocation-free splitter shows: negative sizes count as zero. */
  function FastParts(bytes: real, unit: ByteUnit, sep: Separator): Parts
    requires unit.scale > 0.0
  {
    var value := ClampedValue(bytes, unit);
    Parts(
      LocaleInteger(RoundedWhole(value), sep) + (if unit.decimals > 0 then "." else ""),
      [DigitChar(RoundedTenth(value))],
      if unit.suffix in {"GB", "MB", "KB"} then " " + unit.suffix else " B")
  }

  /** The rounding step, with the carry from .95 and above into the whole part. */
  method RoundToTenth(value: real) returns (wholeValue: nat, fractionalDigit: nat)
    requires value >= 0.0
    ensures wholeValue == RoundedWhole(value) && fractionalDigit == RoundedTenth(value)
  {
    RoundingIsClose(value);
    wholeValue := Truncate(value);
    var fractional := value - wholeValue as real;
    fractionalDigit := Round(fractional * 10.0);
    if fractionalDigit >= 10 {
      fractionalDigit := 0;
      wholeValue := wholeValue + 1;
    }
  }

  method SplitBytesForAlignmentFast(bytesIn: real, unit: ByteUnit, sep: Separator) returns (parts: AlignedBytesParts)
    requires unit.scale > 0.0
    requires FitsInt64(ClampedValue(bytesIn, unit))
    ensures fresh(parts) && fresh(parts.buffer) && parts.buffer.Length == BUFFER_SIZE
    ensures parts.wholePartLen < BUFFER_SIZE && parts.buffer[parts.wholePartLen] == '\0'
    ensures parts.Shown() == FastParts(bytesIn, unit, sep)
  {
    hide RoundedWhole, RoundedTenth, Truncate, Grouped, Numeral, DigitChar;
    var bytes := if bytesIn < 0.0 then 0.0 else bytesIn;
    var wholeValue, fractionalDigit := RoundToTenth(bytes / unit.scale);

    parts := new AlignedBytesParts();
    var digitBuf := Numeral(wholeValue);
    WholePartFits(wholeValue);
    var safeNumDigits := if |digitBuf| < 20 then |digitBuf| else 20;
    assert digitBuf[..safeNumDigits] == digitBuf;
    var pos := EmitDigits(parts.buffer, digitBuf[..safeNumDigits], sep);
    if unit.decimals > 0 {
      parts.buffer[pos] := '.';
      pos := pos + 1;
    }
    parts.buffer[pos] := '\0';
    parts.wholePartLen := pos;
    parts.decimalDigit := DigitChar(fractionalDigit);
    parts.unitPart :=
      if unit.suffix == "GB" then " GB"
      else if unit.suffix == "MB" then " MB"
      else if unit.suffix == "KB" then " KB"
      else " B";
  }

  // ---------------------------------------------------------------------------------------------
  // Main results
  // ---------------------------------------------------------------------------------------------

  /** The two splitters agree exactly above -1/20 of a unit: everywhere on sizes, not on real negatives. */
  lemma FastAgreesExactly(bytes: real, unit: ByteUnit, sep: Separator)
    requires OneDecimal(unit) && FitsInt64(bytes / unit.scale)
    ensures FastParts(bytes, unit, sep) == SplitBytesForAlignment(bytes, unit, sep)
       <==> bytes / unit.scale > -1.0 / 20.0
  {
    var value := bytes / unit.scale;
    if bytes >= 0.0 {
      assert ClampedValue(bytes, unit) == value >= 0.0;
    } else {
      NegativeQuotient(bytes, unit.scale);
      ZeroRounds();
      assert ClampedValue(bytes, unit) == 0.0;
      NegativeRounds(value);
      var fast, plain := FastParts(bytes, unit, sep), SplitBytesForAlignment(bytes, unit, sep);
      assert fast.wholePart == "0." && fast.decimalPart == "0" by { assert Numeral(0) == "0"; }
      if RoundedWhole(value) < 0 {
        assert plain.wholePart[0] == '-' && fast.wholePart[0] == '0';
      } else {
        assert Numeral(0) == "0";
        assert DigitChar(RoundedTenth(value)) == '0' <==> RoundedTenth(value) == 0;
        if plain.decimalPart == fast.decimalPart {
          assert plain.decimalPart[0] == fast.decimalPart[0];
        }
      }
    }
  }

  /** A size of -1 byte: "0.0 B" from one, "-1.0 B" from the other. */
  lemma NegativeSizeDisagrees(sep: Separator)
    ensures FastParts(-1.0, ByteUnit("B", 1.0, 1), sep) == Parts("0.", "0", " B")
    ensures SplitBytesForAlignment(-1.0, ByteUnit("B", 1.0, 1), sep) == Parts("-1.", "0", " B")
  {
    ZeroRounds();
    assert Numeral(0) == "0" && Numeral(1) == "1";
    assert "B" != "GB" && "B" != "MB" && "B" != "KB" by { assert |"B"| == 1 && |"GB"| == |"MB"| == |"KB"| == 2; }
    var value := -1.0 / 1.0;
    assert value == -1.0 && Truncate(value) == -1 && TenthDigit(value) == 0;
  }

  lemma NegativeQuotient(bytes: real, scale: real)
    requires bytes < 0.0 && scale > 0.0
    ensures bytes / scale < 0.0 && 0.0 / scale == 0.0
  {
    var q := bytes / scale;
    assert q * scale == bytes;
    if q >= 0.0 {
      ProductNotNegative(q, scale);
    }
  }

  lemma ProductNotNegative(x: real, y: real)
    requires x >= 0.0 && y >= 0.0
    ensures x * y >= 0.0
  {
  }

  lemma ZeroRounds()
    ensures RoundedWhole(0.0) == 0 && RoundedTenth(0.0) == 0
  {
  }

  /** A negative value rounds to zero tenths exactly above -1/20; otherwise it shows a sign or a digit. */
  lemma NegativeRounds(value: real)
    requires value < 0.0
    ensures RoundedWhole(value) <= 0
    ensures RoundedWhole(value) == 0 && RoundedTenth(value) == 0 <==> value > -1.0 / 20.0
  {
    var whole := (-value).Floor;
    assert Truncate(value) == -whole;
    var fraction := -value - whole as real;
    assert Abs(value - Truncate(value) as real) == fraction;
    assert TenthDigit(value) == (fraction * 10.0 + 0.5).Floor;
  }

  /** Read without its separators and point, the shown number is the size in that unit to the nearest tenth. */
  lemma ShownNumberIsClose(bytes: real, unit: ByteUnit, sep: Separator)
    requires bytes >= 0.0 && OneDecimal(unit) && FitsInt64(bytes / unit.scale) && (sep.Some? ==> !IsDigit(sep.value))
    ensures
      var shown := FastParts(bytes, unit, sep);
      var text := shown.wholePart[..|shown.wholePart| - 1];
      && shown.wholePart == text + "." && shown.unitPart == " " + unit.suffix && |shown.decimalPart| == 1
      && ParseNumber(Erased(text, sep)).Some?
      && IsNearestTenth(
           ParseNumber(Erased(text, sep)).value as real + DigitValue(shown.decimalPart[0]) as real / 10.0,
           bytes / unit.scale)
  {
    hide RoundedWhole, RoundedTenth, Grouped, Numeral, Erased, ParseNumber, IsNearestTenth;
    var value := bytes / unit.scale;
    QuotientNotNegative(bytes, unit.scale);
    RoundingIsClose(value);
    var whole := RoundedWhole(value);
    GroupingErases(Numeral(whole), sep);
    NumeralReadsBack(whole);
    var shown := FastParts(bytes, unit, sep);
    assert shown.wholePart == Grouped(Numeral(whole), sep) + ".";
    assert shown.wholePart[..|shown.wholePart| - 1] == Grouped(Numeral(whole), sep);
    assert DigitValue(shown.decimalPart[0]) == RoundedTenth(value);
  }

  lemma QuotientNotNegative(x: real, y: real)
    requires x >= 0.0 && y > 0.0
    ensures x / y >= 0.0
  {
  }
}
