/**
 * The parts of Python's `str.strip()`, `int()` and `float()` that the
 * estimator relies on when it reads numbers out of text entries and CSV cells.
 * Accepted: surrounding whitespace, an optional sign, ASCII decimal digits and,
 * for `float()`, at most one decimal point with a digit on at least one side.
 */
module Numerals {
  import opened Wrappers

  /**
   * The characters `str.strip()` removes when given no argument, which are
   * the ones `str.isspace()` accepts: the ASCII controls tab to carriage
   * return, the four separators 0x1C to 0x1F, space, NEL, no-break space
   * and the Unicode space separators, line separator and paragraph
   * separator.
   */
  predicate IsSpace(c: char) {
    ('\U{0009}' <= c <= '\U{000D}') || ('\U{001C}' <= c <= '\U{0020}')
    || c == '\U{0085}' || c == '\U{00A0}' || c == '\U{1680}'
    || ('\U{2000}' <= c <= '\U{200A}') || c == '\U{2028}' || c == '\U{2029}'
    || c == '\U{202F}' || c == '\U{205F}' || c == '\U{3000}'
  }

  predicate IsDigit(c: char) {
    '0' <= c <= '9'
  }

  predicate AllDigits(s: string) {
    forall k :: 0 <= k < |s| ==> IsDigit(s[k])
  }

  /** `s` without its leading whitespace. */
  function StripStart(s: string): (r: string)
    ensures |r| <= |s| && r == s[|s| - |r|..]
    ensures forall k :: 0 <= k < |s| - |r| ==> IsSpace(s[k])
    ensures r == [] || !IsSpace(r[0])
  {
    if s != [] && IsSpace(s[0]) then StripStart(s[1..]) else s
  }

  /** `s` without its trailing whitespace. */
  function StripEnd(s: string): (r: string)
    ensures |r| <= |s| && r == s[..|r|]
    ensures forall k :: |r| <= k < |s| ==> IsSpace(s[k])
    ensures r == [] || !IsSpace(r[|r| - 1])
  {
    if s != [] && IsSpace(s[|s| - 1]) then StripEnd(s[..|s| - 1]) else s
  }

  /** `s.strip()`. */
  function Strip(s: string): (r: string)
    ensures r <= StripStart(s)
    ensures r == [] || (!IsSpace(r[0]) && !IsSpace(r[|r| - 1]))
  {
    StripEnd(StripStart(s))
  }

  /** `s.strip()` is empty exactly when `s` is all whitespace. */
  lemma StripEmptyIff(s: string)
    ensures Strip(s) == [] <==> forall k :: 0 <= k < |s| ==> IsSpace(s[k])
  {
    var t := StripStart(s);
    if Strip(s) == [] {
      forall k | |s| - |t| <= k < |s|
        ensures IsSpace(s[k])
      {
        assert s[k] == t[k - (|s| - |t|)];
      }
    }
  }

  function DigitValue(c: char): nat
    requires IsDigit(c)
  {
    (c as int) - ('0' as int)
  }

  /** The value of a string of decimal digits, most significant first. */
  function DigitsValue(s: string): nat
    requires AllDigits(s)
  {
    if s == [] then 0 else 10 * DigitsValue(s[..|s| - 1]) + DigitValue(s[|s| - 1])
  }

  /** The value of the digits after a decimal point: "25" is 0.25. */
  function FractionValue(s: string): (r: real)
    requires AllDigits(s)
    ensures 0.0 <= r < 1.0
  {
    if s == [] then 0.0 else (DigitValue(s[0]) as real + FractionValue(s[1..])) / 10.0
  }

  /** Splits an optional leading sign off: (is negative, rest). */
  function SplitSign(t: string): (bool, string) {
    if t != [] && (t[0] == '-' || t[0] == '+') then (t[0] == '-', t[1..]) else (false, t)
  }

  /** The index of the first '.' in `s`, or |s| when there is none. */
  function DotIndex(s: string): (d: nat)
    ensures d <= |s|
    ensures d < |s| ==> s[d] == '.'
    ensures forall k :: 0 <= k < d ==> s[k] != '.'
  {
    if s == [] then 0 else if s[0] == '.' then 0 else 1 + DotIndex(s[1..])
  }

  /** Text that starts and ends with something other than whitespace is its own strip. */
  lemma TrimmedStrips(s: string)
    ensures s != [] && !IsSpace(s[0]) && !IsSpace(s[|s| - 1]) ==> Strip(s) == s
  {
  }

  /**
   * `int(s)`: a string of digits reads as its decimal value, and a leading
   * '-' negates it. Blank text is not a number.
   */
  function ParseInt(s: string): (r: Option<int>)
    ensures (forall k :: 0 <= k < |s| ==> IsSpace(s[k])) ==> r.None?
  {
    IntOf(Strip(s))
  }

  /** `int()` of text already stripped. */
  function IntOf(t: string): Option<int> {
    var (negative, body) := SplitSign(t);
    if body != [] && AllDigits(body) then
      Some(if negative then -(DigitsValue(body) as int) else DigitsValue(body) as int)
    else
      None
  }

  /**
   * `float(s)`: an optional sign, then digits with at most one point. Blank
   * text is not a number.
   */
  function ParseFloat(s: string): (r: Option<real>)
    ensures (forall k :: 0 <= k < |s| ==> IsSpace(s[k])) ==> r.None?
  {
    FloatOf(Strip(s))
  }

  /** `float()` of text already stripped. */
  function FloatOf(t: string): Option<real> {
    var (negative, body) := SplitSign(t);
    match UnsignedDecimal(body)
    case None => None
    case Some(v) => Some(if negative then -v else v)
  }

  /** The unsigned part of `float()`: digits with at most one point, and a digit on at least one side of it. */
  function UnsignedDecimal(body: string): Option<real> {
    var d := DotIndex(body);
    var whole := body[..d];
    var fraction := if d < |body| then body[d + 1..] else [];
    if AllDigits(whole) && AllDigits(fraction) && |whole| + |fraction| > 0 then
      Some(DigitsValue(whole) as real + FractionValue(fraction))
    else
      None
  }

  /** Digits without a point read as their integer value. */
  lemma DigitsAsDecimal(body: string)
    ensures body != [] && AllDigits(body) ==> UnsignedDecimal(body) == Some(DigitsValue(body) as real)
  {
    DigitsHaveNoDot(body);
  }

  /** Decimal notation: digits, a point at `d` and digits read as the whole part plus the fraction. */
  lemma DecimalValue(s: string, d: nat)
    requires d < |s| && s[d] == '.' && AllDigits(s[..d]) && AllDigits(s[d + 1..]) && |s| > 1
    ensures ParseFloat(s) == Some(DigitsValue(s[..d]) as real + FractionValue(s[d + 1..]))
  {
    DecimalIsTrimmed(s, d);
    DecimalSplitsAtPoint(s, d);
  }

  /** Decimal notation has nothing to strip and no sign, so `float()` reads it unsigned. */
  lemma DecimalIsTrimmed(s: string, d: nat)
    requires d < |s| && s[d] == '.' && AllDigits(s[..d]) && AllDigits(s[d + 1..])
    ensures ParseFloat(s) == UnsignedDecimal(s)
  {
    assert !IsSpace(s[0]) by {
      if d > 0 { assert IsDigit(s[..d][0]); }
    }
    assert !IsSpace(s[|s| - 1]) by {
      if d < |s| - 1 { assert IsDigit(s[d + 1..][|s| - d - 2]); }
    }
    TrimmedStrips(s);
    UnsignedRead(s);
  }

  /** Text with no sign and nothing to strip reads as its unsigned value. */
  lemma UnsignedRead(s: string)
    requires s != [] && Strip(s) == s && s[0] != '-' && s[0] != '+'
    ensures ParseFloat(s) == UnsignedDecimal(s)
  {
  }

  /** The first point of decimal notation is the one after the whole part. */
  lemma DecimalSplitsAtPoint(s: string, d: nat)
    requires d < |s| && s[d] == '.' && AllDigits(s[..d]) && AllDigits(s[d + 1..]) && |s| > 1
    ensures UnsignedDecimal(s) == Some(DigitsValue(s[..d]) as real + FractionValue(s[d + 1..]))
  {
    assert forall k :: 0 <= k < d ==> IsDigit(s[..d][k]);
    assert DotIndex(s) == d;
  }

  /** A digit string has no decimal point. */
  lemma {:induction false} DigitsHaveNoDot(s: string)
    ensures AllDigits(s) ==> DotIndex(s) == |s| && s[..|s|] == s
  {
    if s != [] && AllDigits(s) {
      assert IsDigit(s[0]);
      DigitsHaveNoDot(s[1..]);
    }
  }

  /** `int()` reads a plain digit string as its decimal value, and one after '-' as the negated value. */
  lemma IntValue(s: string)
    ensures s != [] && AllDigits(s) ==> ParseInt(s) == Some(DigitsValue(s) as int)
    ensures |s| > 1 && s[0] == '-' && AllDigits(s[1..]) ==> ParseInt(s) == Some(-(DigitsValue(s[1..]) as int))
  {
    if s != [] && AllDigits(s) {
      PlainIntValue(s);
      assert IsDigit(s[0]);
    } else if |s| > 1 && s[0] == '-' && AllDigits(s[1..]) {
      NegativeIntValue(s);
    }
  }

  /** A digit string has nothing to strip and reads as its value. */
  lemma PlainIntValue(s: string)
    requires s != [] && AllDigits(s)
    ensures ParseInt(s) == Some(DigitsValue(s) as int)
  {
    assert Strip(s) == s by {
      assert IsDigit(s[0]) && IsDigit(s[|s| - 1]);
      TrimmedStrips(s);
    }
    ReadStripped(s);
    UnsignedInt(s);
  }

  /** Unsigned digits are `int()` of their decimal value. */
  lemma UnsignedInt(t: string)
    requires t != [] && AllDigits(t)
    ensures IntOf(t) == Some(DigitsValue(t) as int)
  {
    assert IsDigit(t[0]);
  }

  /** '-' followed by digits has nothing to strip and reads as the negated value. */
  lemma NegativeIntValue(s: string)
    requires |s| > 1 && s[0] == '-' && AllDigits(s[1..])
    ensures ParseInt(s) == Some(-(DigitsValue(s[1..]) as int))
  {
    assert Strip(s) == s by {
      assert IsDigit(s[1..][|s| - 2]);
      TrimmedStrips(s);
    }
    ReadStripped(s);
  }

  /** Text that is its own strip reads as `int()` of itself. */
  lemma ReadStripped(s: string)
    requires Strip(s) == s
    ensures ParseInt(s) == IntOf(s)
  {
  }

  /** Whatever `int()` accepts, `float()` accepts with the same value. */
  lemma IntParsesAsFloat(s: string)
    ensures ParseInt(s).Some? ==> ParseFloat(s) == Some(ParseInt(s).value as real)
  {
    IntOfAsFloat(Strip(s));
  }

  /** On stripped text, whatever `int()` accepts, `float()` accepts with the same value. */
  lemma IntOfAsFloat(t: string)
    ensures IntOf(t).Some? ==> FloatOf(t) == Some(IntOf(t).value as real)
  {
    var (negative, body) := SplitSign(t);
    DigitsAsDecimal(body);
  }

  /** Stripped text is a slice of the text. */
  lemma StripIsSlice(s: string) returns (a: nat)
    ensures a + |Strip(s)| <= |s| && Strip(s) == s[a..a + |Strip(s)|]
  {
    var r := StripStart(s);
    a := |s| - |r|;
    assert Strip(s) == r[..|Strip(s)|];
  }

  /** Text that `float()` reads holds a digit. */
  lemma NumberHasDigit(s: string)
    ensures ParseFloat(s).Some? ==> exists k :: 0 <= k < |s| && IsDigit(s[k])
  {
    var t := Strip(s);
    if FloatOf(t).Some? {
      var m := StrippedNumberHasDigit(t);
      var a := StripIsSlice(s);
      assert s[a + m] == t[m];
    }
  }

  /** Stripped text that `float()` reads holds a digit, at `m`. */
  lemma StrippedNumberHasDigit(t: string) returns (m: nat)
    requires FloatOf(t).Some?
    ensures m < |t| && IsDigit(t[m])
  {
    var body := SplitSign(t).1;
    var d := DotIndex(body);
    var i := if d > 0 then 0 else d + 1;
    assert i < |body| && IsDigit(body[i]) by {
      if d > 0 { assert body[..d][0] == body[0]; }
      else { assert body[d + 1..][0] == body[d + 1]; }
    }
    m := |t| - |body| + i;
    assert body == t[|t| - |body|..];
  }
}
