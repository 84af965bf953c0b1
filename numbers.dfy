/**
 * Decimal digits both ways, int.TryParse for the "UserId" claim, and the
 * invariant-culture part of decimal.TryParse used for statement amounts.
 */
module Numbers {
  import opened Wrappers
  import opened Text

  predicate IsDigit(c: char) {
    '0' <= c <= '9'
  }

  predicate AllDigits(s: string) {
    forall i :: 0 <= i < |s| ==> IsDigit(s[i])
  }

  function DigitValue(c: char): (d: nat)
    requires IsDigit(c)
    ensures d < 10
  {
    c as int - '0' as int
  }

  function DigitChar(d: nat): (c: char)
    requires d < 10
    ensures IsDigit(c) && DigitValue(c) == d
  {
    ('0' as int + d) as char
  }

  function Pow10(k: nat): (p: nat)
    ensures p >= 1
  {
    if k == 0 then 1 else 10 * Pow10(k - 1)
  }

  /** The value of a string of decimal digits, most significant first. */
  function DigitsValue(s: string): (n: nat)
    requires AllDigits(s)
    ensures n < Pow10(|s|)
  {
    if s == [] then 0 else DigitsValue(s[..|s| - 1]) * 10 + DigitValue(s[|s| - 1])
  }

  /** `n` in decimal, without leading zeros (Int32.ToString() on a non-negative value). */
  function NatToString(n: nat): (s: string)
    ensures |s| >= 1 && AllDigits(s)
    ensures |s| > 1 ==> s[0] != '0'
  {
    if n < 10 then [DigitChar(n)] else NatToString(n / 10) + [DigitChar(n % 10)]
  }

  lemma {:induction false} NatToStringRoundTrip(n: nat)
    ensures DigitsValue(NatToString(n)) == n
  {
    if n >= 10 {
      NatToStringRoundTrip(n / 10);
      var s := NatToString(n);
      assert s[..|s| - 1] == NatToString(n / 10);
    }
  }

  /** Int32.ToString() under the invariant culture. */
  function IntToString(i: int): string {
    if i < 0 then "-" + NatToString(-i) else NatToString(i)
  }

  /** `n` written with exactly `width` digits, zero-padded (the "yyyy", "MM", "dd" fields). */
  function FixedDigits(n: nat, width: nat): (s: string)
    requires n < Pow10(width)
    ensures |s| == width && AllDigits(s) && DigitsValue(s) == n
  {
    if width == 0 then []
    else
      var s := FixedDigits(n / 10, width - 1) + [DigitChar(n % 10)];
      assert s[..|s| - 1] == FixedDigits(n / 10, width - 1);
      s
  }

  lemma DivModTen(q: nat, d: nat)
    requires d < 10
    ensures (q * 10 + d) / 10 == q && (q * 10 + d) % 10 == d
  {
  }

  /** Appending a digit to the value appends it to the fixed-width rendering. */
  lemma FixedDigitsStep(q: nat, c: char, width: nat)
    requires IsDigit(c) && q * 10 + DigitValue(c) < Pow10(width + 1)
    ensures q < Pow10(width)
    ensures FixedDigits(q * 10 + DigitValue(c), width + 1) == FixedDigits(q, width) + [c]
  {
    var n := q * 10 + DigitValue(c);
    DivModTen(q, DigitValue(c));
    assert DigitChar(DigitValue(c)) == c;
  }

  /** A digit string is the fixed-width rendering of its own value. */
  lemma {:induction false} FixedDigitsOfValue(s: string)
    requires AllDigits(s)
    ensures FixedDigits(DigitsValue(s), |s|) == s
  {
    if s != [] {
      var init, c := s[..|s| - 1], s[|s| - 1];
      FixedDigitsOfValue(init);
      FixedDigitsStep(DigitsValue(init), c, |init|);
      assert init + [c] == s;
    }
  }

  // ---------------------------------------------------------------- int.TryParse

  const Int32Min: int := -0x8000_0000
  const Int32Max: int := 0x7FFF_FFFF

  /** The blanks integer parsing skips at either end: U+0009..U+000D and U+0020. */
  predicate IsNumberWhite(c: char) {
    ('\t' <= c <= '\r') || c == ' '
  }

  /**
   * int.TryParse(string) (NumberStyles.Integer): optional blanks, an optional
   * '-' or '+', one or more digits, optional blanks, and a value in Int32's range.
   * A missing claim (null) fails.
   */
  function ParseInt32(claim: Option<string>): (r: Option<int>)
    ensures r.Some? ==> Int32Min <= r.value <= Int32Max
  {
    match claim
    case None => None
    case Some(s) =>
      var t := TrimChars(s, IsNumberWhite);
      if t == [] then None
      else
        var body := if t[0] == '-' || t[0] == '+' then t[1..] else t;
        if body == [] || !AllDigits(body) then None
        else
          var v := if t[0] == '-' then -(DigitsValue(body) as int) else DigitsValue(body);
          if Int32Min <= v <= Int32Max then Some(v) else None
  }

  /** Every Int32 written by IntToString parses back to itself. */
  lemma IntRoundTrip(n: int)
    requires Int32Min <= n <= Int32Max
    ensures ParseInt32(Some(IntToString(n))) == Some(n)
  {
    if n < 0 {
      NegativeIntRoundTrip(n);
    } else {
      NatRoundTrip(n);
    }
  }

  lemma NatRoundTrip(n: nat)
    requires n <= Int32Max
    ensures ParseInt32(Some(NatToString(n))) == Some(n)
  {
    NatToStringRoundTrip(n);
    DigitTextParses(NatToString(n));
  }

  lemma NegativeIntRoundTrip(n: int)
    requires Int32Min <= n < 0
    ensures ParseInt32(Some("-" + NatToString(-n))) == Some(n)
  {
    var m: nat := -n;
    var digits := NatToString(m);
    NatToStringRoundTrip(m);
    assert DigitsValue(digits) == m;
    NegativeDigitTextParses(digits);
  }

  /** Plain digits parse to their value when it fits in Int32. */
  lemma DigitTextParses(s: string)
    requires AllDigits(s) && s != [] && DigitsValue(s) <= Int32Max
    ensures ParseInt32(Some(s)) == Some(DigitsValue(s))
  {
    DigitNotWhite(s[0]);
    DigitNotWhite(s[|s| - 1]);
    TrimCharsUnchanged(s, IsNumberWhite);
    assert s[0] != '-' && s[0] != '+' by {
      assert IsDigit(s[0]);
    }
  }

  lemma DigitNotWhite(c: char)
    requires IsDigit(c)
    ensures !IsNumberWhite(c) && !IsWhiteSpace(c)
  {
  }

  /** '-' and digits parse to the negated value when it fits in Int32. */
  lemma NegativeDigitTextParses(s: string)
    requires AllDigits(s) && s != [] && -(DigitsValue(s) as int) >= Int32Min
    ensures ParseInt32(Some("-" + s)) == Some(-(DigitsValue(s) as int))
  {
    var t := "-" + s;
    assert t[0] == '-' && t[1..] == s;
    assert IsDigit(s[|s| - 1]) && t[|t| - 1] == s[|s| - 1];
    TrimCharsUnchanged(t, IsNumberWhite);
  }

  // ------------------------------------------------------------- decimal.TryParse

  /** The integer part: empty, or a digit followed by digits and ',' group separators. */
  predicate IsGroupedDigits(s: string) {
    s == [] || (IsDigit(s[0]) && forall i :: 0 <= i < |s| ==> IsDigit(s[i]) || s[i] == ',')
  }

  /** The characters of `s` other than `c`, in order. */
  function Without(s: string, c: char): (r: string)
    ensures c !in r
    ensures c !in s ==> r == s
  {
    if s == [] then [] else (if s[0] == c then [] else [s[0]]) + Without(s[1..], c)
  }

  lemma WithoutKeepsDigits(s: string)
    requires IsGroupedDigits(s)
    ensures AllDigits(Without(s, ','))
  {
    WithoutCommaDigits(s);
  }

  lemma {:induction false} WithoutCommaDigits(s: string)
    requires forall i :: 0 <= i < |s| ==> IsDigit(s[i]) || s[i] == ','
    ensures AllDigits(Without(s, ','))
  {
    if s != [] {
      WithoutCommaDigits(s[1..]);
    }
  }

  /** The value of the fraction digits after the decimal point: 0.d1d2d3... */
  function Fraction(f: string): (v: real)
    requires AllDigits(f)
    ensures 0.0 <= v < 1.0
  {
    if f == [] then 0.0 else (DigitValue(f[0]) as real + Fraction(f[1..])) / 10.0
  }

  /** The text before the first '.' and the text after it ("" when there is no point). */
  function SplitAtPoint(s: string): (parts: (string, string))
    ensures '.' !in parts.0
    ensures '.' in s ==> s == parts.0 + "." + parts.1
    ensures '.' !in s ==> parts == (s, "")
  {
    match IndexOf(s, '.')
    case None => (s, "")
    case Some(k) =>
      assert s == s[..k] + "." + s[k + 1..];
      (s[..k], s[k + 1..])
  }

  /** The value of grouped integer digits and fraction digits, when at least one digit is present. */
  function PartsValue(whole: string, fraction: string): (r: Option<real>)
    ensures r.Some? ==> r.value >= 0.0
    ensures r.Some? <==> IsGroupedDigits(whole) && AllDigits(fraction) && (whole != [] || fraction != [])
  {
    if IsGroupedDigits(whole) && AllDigits(fraction) && (whole != [] || fraction != []) then
      WithoutKeepsDigits(whole);
      Some(DigitsValue(Without(whole, ',')) as real + Fraction(fraction))
    else None
  }

  /**
   * An unsigned amount: grouped integer digits, then optionally '.' and
   * fraction digits, with at least one digit somewhere.
   */
  function ParseUnsignedDecimal(s: string): (r: Option<real>)
    ensures r.Some? ==> r.value >= 0.0
  {
    var (whole, fraction) := SplitAtPoint(s);
    PartsValue(whole, fraction)
  }

  /**
   * decimal.TryParse(text, Number | AllowCurrencySymbol | AllowThousands |
   * AllowLeadingSign, InvariantCulture) on the subset: an optional leading
   * '-' or '+' and an unsigned amount.
   */
  function ParseDecimalInvariant(s: string): (r: Option<real>)
    ensures r.Some? && s != [] && s[0] == '-' ==> r.value <= 0.0
    ensures r.Some? && (s == [] || s[0] != '-') ==> r.value >= 0.0
  {
    if s == [] then None
    else
      var body := if s[0] == '-' || s[0] == '+' then s[1..] else s;
      match ParseUnsignedDecimal(body)
      case None => None
      case Some(v) => Some(if s[0] == '-' then -v else v)
  }

  /** The first `c` of `w + [c] + rest` is the one after `w` when `w` has none. */
  lemma IndexAfterPrefix(w: string, c: char, rest: string)
    requires c !in w
    ensures IndexOf(w + [c] + rest, c) == Some(|w|)
  {
    var s := w + [c] + rest;
    assert s[|w|] == c;
    assert s[..|w|] == w;
  }

  lemma DigitsHaveNoPunctuation(s: string)
    requires AllDigits(s)
    ensures '.' !in s && ',' !in s && '-' !in s && '+' !in s
  {
    forall i | 0 <= i < |s| ensures s[i] != '.' && s[i] != ',' && s[i] != '-' && s[i] != '+' {
      assert IsDigit(s[i]);
    }
  }

  /** Digits, a point and digits split at that point. */
  lemma SplitAtDigitsPoint(whole: string, fraction: string)
    requires AllDigits(whole)
    ensures SplitAtPoint(whole + "." + fraction) == (whole, fraction)
  {
    DigitsHaveNoPunctuation(whole);
    var s := whole + "." + fraction;
    IndexAfterPrefix(whole, '.', fraction);
    assert s[..|whole|] == whole;
    assert s[|whole| + 1..] == fraction;
  }

  /** Plain digits on both sides of the point have their positional value. */
  lemma DigitPartsValue(whole: string, fraction: string)
    requires AllDigits(whole) && AllDigits(fraction) && whole != []
    ensures PartsValue(whole, fraction) == Some(DigitsValue(whole) as real + Fraction(fraction))
  {
    DigitsHaveNoPunctuation(whole);
    assert IsGroupedDigits(whole);
    assert Without(whole, ',') == whole;
  }

  lemma UnsignedRoundTrip(whole: string, fraction: string)
    requires AllDigits(whole) && AllDigits(fraction) && whole != []
    ensures ParseUnsignedDecimal(whole + "." + fraction) == Some(DigitsValue(whole) as real + Fraction(fraction))
  {
    SplitAtDigitsPoint(whole, fraction);
    DigitPartsValue(whole, fraction);
  }

  /** Whole digits, then '.', then fraction digits parse to their value. */
  lemma DecimalRoundTrip(whole: string, fraction: string)
    requires AllDigits(whole) && AllDigits(fraction) && whole != []
    ensures ParseDecimalInvariant(whole + "." + fraction) == Some(DigitsValue(whole) as real + Fraction(fraction))
  {
    UnsignedRoundTrip(whole, fraction);
    var s := whole + "." + fraction;
    assert IsDigit(s[0]);
  }

  /** The same text with a '-' in front parses to the negated value. */
  lemma NegativeDecimalRoundTrip(whole: string, fraction: string)
    requires AllDigits(whole) && AllDigits(fraction) && whole != []
    ensures ParseDecimalInvariant("-" + (whole + "." + fraction)) == Some(-(DigitsValue(whole) as real + Fraction(fraction)))
  {
    UnsignedRoundTrip(whole, fraction);
    NegatedUnsigned(whole + "." + fraction);
  }

  /** Digits with no point parse to their integer value. */
  lemma WholeRoundTrip(whole: string)
    requires AllDigits(whole) && whole != []
    ensures ParseDecimalInvariant(whole) == Some(DigitsValue(whole) as real)
  {
    DigitsHaveNoPunctuation(whole);
    assert IsDigit(whole[0]);
    assert SplitAtPoint(whole) == (whole, "");
    DigitPartsValue(whole, "");
  }

  lemma NegatedUnsigned(s: string)
    requires ParseUnsignedDecimal(s).Some?
    ensures ParseDecimalInvariant("-" + s) == Some(-ParseUnsignedDecimal(s).value)
  {
    var t := "-" + s;
    assert t[0] == '-' && t[1..] == s;
  }

  /** A leading '-' only negates: the unsigned part is parsed the same way. */
  lemma NegatedAmount(s: string)
    requires s != [] && s[0] != '-' && s[0] != '+'
    ensures ParseDecimalInvariant("-" + s) == (match ParseDecimalInvariant(s) case Some(v) => Some(-v) case None => None)
  {
    var t := "-" + s;
    assert t[0] == '-' && t[1..] == s;
    assert ParseDecimalInvariant(s) == ParseUnsignedDecimal(s);
  }
}
