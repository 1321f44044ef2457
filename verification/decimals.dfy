/** Reading text as a decimal number the way `java.math.BigDecimal`'s string
    constructor reads it. The `@Digits` constraint on a text value parses it
    this way and then bounds the number's integer and fraction digits. */
module Decimals {
  import opened Wrappers
  import opened Chars

  /** The number of runs of ten decimal digits (Unicode general category
      Nd) in the Basic Multilingual Plane. Java reads a string one UTF-16
      code unit at a time, so a digit outside that plane never counts as
      one. */
  const RunCount: nat := 37

  /** The first code point of the `k`-th run, in ascending order. */
  function RunStart(k: nat): int
    requires k < RunCount
  {
    match k
    case 0 => 0x0030
    case 1 => 0x0660
    case 2 => 0x06F0
    case 3 => 0x07C0
    case 4 => 0x0966
    case 5 => 0x09E6
    case 6 => 0x0A66
    case 7 => 0x0AE6
    case 8 => 0x0B66
    case 9 => 0x0BE6
    case 10 => 0x0C66
    case 11 => 0x0CE6
    case 12 => 0x0D66
    case 13 => 0x0DE6
    case 14 => 0x0E50
    case 15 => 0x0ED0
    case 16 => 0x0F20
    case 17 => 0x1040
    case 18 => 0x1090
    case 19 => 0x17E0
    case 20 => 0x1810
    case 21 => 0x1946
    case 22 => 0x19D0
    case 23 => 0x1A80
    case 24 => 0x1A90
    case 25 => 0x1B50
    case 26 => 0x1BB0
    case 27 => 0x1C40
    case 28 => 0x1C50
    case 29 => 0xA620
    case 30 => 0xA8D0
    case 31 => 0xA900
    case 32 => 0xA9D0
    case 33 => 0xA9F0
    case 34 => 0xAA50
    case 35 => 0xABF0
    case _ => 0xFF10
  }

  /** The value of `c` as a digit of one of the runs from the `k`-th on.
      The runs are ascending, so the search stops at the first run that
      starts above `c`. */
  function ValueFrom(c: char, k: nat): (d: Option<nat>)
    requires k <= RunCount
    ensures d.Some? ==> d.value < 10
    decreases RunCount - k
  {
    if k == RunCount || c as int < RunStart(k) then None
    else if c as int < RunStart(k) + 10 then Some(c as int - RunStart(k))
    else ValueFrom(c, k + 1)
  }

  /** The value of `c` as a decimal digit, if it is one: Java's
      `Character.isDigit` and `Character.digit(c, 10)`. */
  function DigitValue(c: char): (d: Option<nat>)
    ensures d.Some? ==> d.value < 10
    ensures IsAsciiDigit(c) ==> d == Some(c as int - '0' as int)
  {
    ValueFrom(c, 0)
  }

  predicate IsDecimalDigit(c: char) {
    DigitValue(c).Some?
  }

  predicate AllDecimalDigits(s: string) {
    forall i :: 0 <= i < |s| ==> IsDecimalDigit(s[i])
  }

  /** The characters that start an exponent. */
  const ExponentMarks: set<char> := {'e', 'E'}

  /** The signs, the decimal point and the exponent markers are not digits. */
  lemma MarksAreNotDigits()
    ensures !IsDecimalDigit('+') && !IsDecimalDigit('-') && !IsDecimalDigit('.')
    ensures !IsDecimalDigit('e') && !IsDecimalDigit('E')
    ensures forall c :: c in ExponentMarks ==> !IsDecimalDigit(c)
    ensures forall c :: c in {'.'} ==> !IsDecimalDigit(c)
  {
  }

  /** Every ASCII digit is a decimal digit. */
  lemma AsciiDigitsAreDecimal(s: string)
    requires AllDigits(s)
    ensures AllDecimalDigits(s)
  {
    forall i | 0 <= i < |s|
      ensures IsDecimalDigit(s[i])
    {
      assert IsAsciiDigit(s[i]);
    }
  }

  /** Digits of value zero at the front do not count towards precision. */
  function StripLeadingZeros(d: string): (r: string)
    ensures |r| <= |d|
    ensures forall i :: 0 <= i < |r| ==> r[i] == d[|d| - |r| + i]
    ensures forall i :: 0 <= i < |d| - |r| ==> DigitValue(d[i]) == Some(0)
    ensures |r| > 0 ==> DigitValue(r[0]) != Some(0)
  {
    if |d| > 0 && DigitValue(d[0]) == Some(0) then StripLeadingZeros(d[1..]) else d
  }

  /** The precision of the unscaled value a string of digits denotes: the
      number of its significant digits, and 1 for zero. */
  function Precision(d: string): (p: nat)
    ensures 1 <= p
    ensures |d| > 0 ==> p <= |d|
    ensures |d| > 0 && DigitValue(d[0]) != Some(0) ==> p == |d|
  {
    var significant := StripLeadingZeros(d);
    if |significant| == 0 then 1 else |significant|
  }

  /** The value of a string of decimal digits, most significant first. */
  function DigitsValue(d: string): nat
    requires AllDecimalDigits(d)
  {
    if |d| == 0 then 0 else DigitsValue(d[..|d| - 1]) * 10 + DigitValue(d[|d| - 1]).value
  }

  /** The range of a Java `int`, which an exponent and a scale must lie in. */
  const IntMin: int := -0x8000_0000
  const IntMax: int := 0x7FFF_FFFF

  /** `x` as Java `int` arithmetic leaves it: wrapped, two's complement, into
      the `int` range. */
  function Int32(x: int): (r: int)
    ensures IntMin <= r <= IntMax
    ensures (x - r) % 0x1_0000_0000 == 0
    ensures IntMin <= x <= IntMax ==> r == x
  {
    var r := (x - IntMin) % 0x1_0000_0000 + IntMin;
    assert x - r == (x - IntMin) / 0x1_0000_0000 * 0x1_0000_0000;
    r
  }

  /** The exponent after `e` or `E`: an optional sign, then one or more
      digits, whose value must fit in an `int` ("Exponent overflow"
      otherwise). */
  function ParseExponent(t: string): (r: Option<int>)
    ensures r.Some? ==> IntMin <= r.value <= IntMax
    ensures |t| > 0 && AllDecimalDigits(t) ==> (r.Some? <==> DigitsValue(t) <= IntMax)
    ensures |t| > 0 && AllDecimalDigits(t) && DigitsValue(t) <= IntMax ==> r == Some(DigitsValue(t))
    ensures |t| > 1 && t[0] == '-' && AllDecimalDigits(t[1..]) ==>
              (r.Some? <==> DigitsValue(t[1..]) <= -IntMin)
  {
    var digits := if |t| > 0 && (t[0] == '+' || t[0] == '-') then t[1..] else t;
    if |digits| == 0 || !AllDecimalDigits(digits) then None
    else
      assert |t| > 0 && AllDecimalDigits(t) ==> digits == t by {
        if |t| > 0 && AllDecimalDigits(t) {
          MarksAreNotDigits();
          assert IsDecimalDigit(t[0]);
        }
      }
      var value: int := if t[0] == '-' then -(DigitsValue(digits) as int) else DigitsValue(digits);
      if value < IntMin || IntMax < value then None else Some(value)
  }

  /** A decimal number as `BigDecimal` keeps it: the precision of its
      unscaled value and its scale (the value is unscaled * 10^-scale). */
  datatype Decimal = Decimal(precision: nat, scale: int)

  /** What the scan of a significand has seen so far: the digits counted
      from the first non-zero one, the digits after the point, whether the
      point was seen, and whether any digit was. */
  datatype Scanned = Scanned(significant: nat, fractionDigits: nat, afterPoint: bool, anyDigit: bool)

  const Start: Scanned := Scanned(0, 0, false, false)

  function TakeDigit(acc: Scanned, value: nat): Scanned {
    Scanned(
      if acc.significant > 0 || value != 0 then acc.significant + 1 else 0,
      if acc.afterPoint then acc.fractionDigits + 1 else acc.fractionDigits,
      acc.afterPoint,
      true)
  }

  /** The number a finished significand and its exponent denote. Without a
      digit there is no number; zero has precision 1. */
  function Finish(acc: Scanned, exponent: int): (r: Option<Decimal>)
    ensures r.Some? ==> acc.anyDigit
  {
    var scale := acc.fractionDigits - exponent;
    if !acc.anyDigit || scale < IntMin || IntMax < scale then None
    else Some(Decimal(if acc.significant == 0 then 1 else acc.significant, scale))
  }

  /** The scan of `new BigDecimal(s)` after the sign, one character at a
      time: digits, at most one decimal point, then optionally `e` or `E`
      and the exponent. Any other character, a second point, or a scale
      outside the `int` range is a `NumberFormatException` (`None`). */
  function ScanNumber(s: string, acc: Scanned): (r: Option<Decimal>)
    ensures r.Some? ==> 1 <= r.value.precision && IntMin <= r.value.scale <= IntMax
    ensures r.Some? ==> acc.anyDigit || exists i :: 0 <= i < |s| && IsDecimalDigit(s[i])
  {
    if |s| == 0 then Finish(acc, 0)
    else
      match DigitValue(s[0])
      case Some(v) =>
        var r := ScanNumber(s[1..], TakeDigit(acc, v));
        assert r.Some? ==> exists i :: 0 <= i < |s| && IsDecimalDigit(s[i]) by {
          assert IsDecimalDigit(s[0]);
        }
        r
      case None =>
        if s[0] == '.' && !acc.afterPoint then
          var r := ScanNumber(s[1..], acc.(afterPoint := true));
          assert r.Some? ==> acc.anyDigit || exists i :: 0 <= i < |s| && IsDecimalDigit(s[i]) by {
            if r.Some? && !acc.anyDigit {
              var i :| 0 <= i < |s| - 1 && IsDecimalDigit(s[1..][i]);
              assert s[i + 1] == s[1..][i];
            }
          }
          r
        else if s[0] in ExponentMarks then
          match ParseExponent(s[1..])
          case None => None
          case Some(x) => Finish(acc, x)
        else
          None
  }

  /** `new BigDecimal(s)`: an optional sign, then the scan. */
  function ParseBigDecimal(s: string): (r: Option<Decimal>)
    ensures r.Some? ==> 1 <= r.value.precision && IntMin <= r.value.scale <= IntMax
    ensures r.Some? ==> exists i :: 0 <= i < |s| && IsDecimalDigit(s[i])
  {
    if |s| > 0 && (s[0] == '+' || s[0] == '-') then
      var r := ScanNumber(s[1..], Start);
      assert r.Some? ==> exists i :: 0 <= i < |s| && IsDecimalDigit(s[i]) by {
        if r.Some? {
          var i :| 0 <= i < |s| - 1 && IsDecimalDigit(s[1..][i]);
          assert s[i + 1] == s[1..][i];
        }
      }
      r
    else
      ScanNumber(s, Start)
  }

  /** The scan state after the digits `d`: the significant count grows by
      all of `d` once a non-zero digit has been seen, and otherwise by the
      digits of `d` after its leading zeros. */
  function AfterDigits(acc: Scanned, d: string): Scanned {
    Scanned(
      if acc.significant > 0 then acc.significant + |d| else |StripLeadingZeros(d)|,
      if acc.afterPoint then acc.fractionDigits + |d| else acc.fractionDigits,
      acc.afterPoint,
      acc.anyDigit || |d| > 0)
  }

  /** Scanning a run of digits only updates the state. */
  lemma {:induction false} ScanDigits(d: string, rest: string, acc: Scanned)
    requires AllDecimalDigits(d)
    ensures ScanNumber(d + rest, acc) == ScanNumber(rest, AfterDigits(acc, d))
    decreases |d|
  {
    if |d| == 0 {
      assert d + rest == rest;
      assert AfterDigits(acc, d) == acc;
    } else {
      var v := DigitValue(d[0]).value;
      assert (d + rest)[0] == d[0];
      assert (d + rest)[1..] == d[1..] + rest;
      ScanDigits(d[1..], rest, TakeDigit(acc, v));
      assert AfterDigits(TakeDigit(acc, v), d[1..]) == AfterDigits(acc, d);
    }
  }

  /** A string of digits, with an optional sign, reads as an integer: scale
      zero and the precision of its digits. */
  lemma ParseInteger(sign: string, d: string)
    requires sign == "" || sign == "+" || sign == "-"
    requires |d| > 0 && AllDecimalDigits(d)
    ensures ParseBigDecimal(sign + d) == Some(Decimal(Precision(d), 0))
  {
    MarksAreNotDigits();
    ScanDigits(d, "", Start);
    assert d + "" == d;
    var s := sign + d;
    if |sign| == 0 {
      assert s == d;
      assert IsDecimalDigit(d[0]);
    } else {
      assert s[1..] == d;
    }
  }

  /** A trailing decimal point adds no fraction digit: "123." reads like
      "123". */
  lemma ParseTrailingPoint(d: string)
    requires |d| > 0 && AllDecimalDigits(d)
    ensures ParseBigDecimal(d + ".") == Some(Decimal(Precision(d), 0))
  {
    MarksAreNotDigits();
    ScanDigits(d, ".", Start);
    assert (d + ".")[0] == d[0];
    assert "."[1..] == "";
  }

  /** An exponent moves the decimal point: "123E1" is 1230 with scale -1,
      keeping the precision of its digits. */
  lemma {:induction false} ParseScientific(d: string, x: string)
    requires |d| > 0 && AllDecimalDigits(d)
    requires |x| > 0 && AllDecimalDigits(x) && DigitsValue(x) <= IntMax
    ensures ParseBigDecimal(d + ("E" + x)) == Some(Decimal(Precision(d), -(DigitsValue(x) as int)))
  {
    var s := d + ("E" + x);
    assert s[0] == d[0];
    SignlessStart(s);
    ScanScientific(d, x);
  }

  /** Past the optional sign: the digits, then the exponent. */
  lemma {:induction false} ScanScientific(d: string, x: string)
    requires |d| > 0 && AllDecimalDigits(d)
    requires |x| > 0 && AllDecimalDigits(x) && DigitsValue(x) <= IntMax
    ensures ScanNumber(d + ("E" + x), Start) == Some(Decimal(Precision(d), -(DigitsValue(x) as int)))
  {
    ScanDigits(d, "E" + x, Start);
    ScanExponent(x, AfterDigits(Start, d));
    FinishDigits(d, DigitsValue(x));
  }

  /** Digits alone, then the exponent: the precision of the digits, and the
      exponent negated as the scale. */
  lemma FinishDigits(d: string, exponent: int)
    requires |d| > 0 && IntMin <= -exponent <= IntMax
    ensures Finish(AfterDigits(Start, d), exponent) == Some(Decimal(Precision(d), -exponent))
  {
  }

  /** A number that starts with a digit has no sign to strip. */
  lemma SignlessStart(s: string)
    requires |s| > 0 && IsDecimalDigit(s[0])
    ensures ParseBigDecimal(s) == ScanNumber(s, Start)
  {
    MarksAreNotDigits();
  }

  /** The exponent ends the scan. */
  lemma ScanExponent(x: string, acc: Scanned)
    requires |x| > 0 && AllDecimalDigits(x) && DigitsValue(x) <= IntMax
    ensures ScanNumber("E" + x, acc) == Finish(acc, DigitsValue(x))
  {
    MarksAreNotDigits();
    assert ("E" + x)[1..] == x;
  }

  /** Appending an ASCII digit shifts the value one place left. */
  lemma {:induction false} DigitsValueAppend(d: string, c: char)
    requires AllDecimalDigits(d) && IsAsciiDigit(c)
    ensures AllDecimalDigits(d + [c])
    ensures DigitsValue(d + [c]) == DigitsValue(d) * 10 + (c as int - '0' as int)
  {
    assert (d + [c])[..|d|] == d;
  }

  /** An exponent outside the `int` range is an "Exponent overflow": the
      text is not a number at all. */
  lemma {:induction false} ParseExponentOverflow(d: string, x: string)
    requires |d| > 0 && AllDecimalDigits(d)
    requires |x| > 0 && AllDecimalDigits(x) && IntMax < DigitsValue(x)
    ensures ParseBigDecimal(d + ("E" + x)) == None
  {
    var s := d + ("E" + x);
    assert s[0] == d[0];
    SignlessStart(s);
    ScanDigits(d, "E" + x, Start);
    ScanExponentOverflow(x, AfterDigits(Start, d));
  }

  lemma ScanExponentOverflow(x: string, acc: Scanned)
    requires |x| > 0 && AllDecimalDigits(x) && IntMax < DigitsValue(x)
    ensures ScanNumber("E" + x, acc) == None
  {
    MarksAreNotDigits();
    assert ("E" + x)[1..] == x;
  }
}
