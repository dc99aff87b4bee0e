/** Python's float() on the numerals docktool.py meets: an optional sign,
    then digits with an optional fractional part ("12", "1.5", ".5", "5.").
    Values are exact reals. */
module Numerals {
  import opened Outcomes
  import opened Text

  predicate IsDigit(c: char) {
    '0' <= c <= '9'
  }

  predicate AllDigits(s: string) {
    forall i :: 0 <= i < |s| ==> IsDigit(s[i])
  }

  function DigitValue(c: char): nat
    requires IsDigit(c)
  {
    c as int - '0' as int
  }

  /** The value of a digit string read in base ten; "" reads as 0. */
  function DigitsValue(ds: string): nat
    requires AllDigits(ds)
  {
    if ds == [] then 0 else 10 * DigitsValue(ds[..|ds| - 1]) + DigitValue(ds[|ds| - 1])
  }

  function Pow10(n: nat): (p: nat)
    ensures p >= 1
  {
    if n == 0 then 1 else 10 * Pow10(n - 1)
  }

  /** The characters a numeral accepted by ParseNumber is made of. */
  predicate IsNumeralChar(c: char) {
    IsDigit(c) || c == '.' || c == '+' || c == '-'
  }

  /** The value of the numeral "w.f". */
  function PointValue(w: string, f: string): real
    requires AllDigits(w) && AllDigits(f)
  {
    DigitsValue(w) as real + DigitsValue(f) as real / Pow10(|f|) as real
  }

  /** Digits with an optional fractional part, no sign. */
  function ParseUnsigned(s: string): (r: Option<real>)
    ensures r.Some? ==> s != [] && forall i :: 0 <= i < |s| ==> IsDigit(s[i]) || s[i] == '.'
    ensures r.Some? ==> r.value >= 0.0
  {
    if '.' in s then
      var w := Before(s, '.');
      var f := s[|w| + 1..];
      assert s == w + "." + f;
      if AllDigits(w) && AllDigits(f) && |w| + |f| > 0 then
        Some(PointValue(w, f))
      else
        None
    else if s != [] && AllDigits(s) then
      Some(DigitsValue(s) as real)
    else
      None
  }

  /** float(s) for the numerals above, or None where float raises ValueError. */
  function ParseNumber(s: string): (r: Option<real>)
    ensures r.Some? ==> s != [] && forall i :: 0 <= i < |s| ==> IsNumeralChar(s[i])
    ensures r.Some? && (s[0] != '-') ==> r.value >= 0.0
  {
    if s != [] && (s[0] == '+' || s[0] == '-') then
      match ParseUnsigned(s[1..])
      case Some(v) => Some(if s[0] == '-' then -v else v)
      case None => None
    else
      ParseUnsigned(s)
  }

  /** float(token), raising ValueError on text it cannot read. */
  function ToFloat(token: string): (r: Result<real>)
    ensures r.Ok? <==> ParseNumber(token).Some?
    ensures r.Ok? ==> r.value == ParseNumber(token).value
    ensures r.Err? ==> r.failure == ValueError(token)
  {
    match ParseNumber(token)
    case Some(v) => Ok(v)
    case None => Err(ValueError(token))
  }

  /** A numeral contains no capital letter, so lower-casing keeps it. */
  lemma NumeralLower(s: string)
    requires ParseNumber(s).Some?
    ensures Lower(s) == s
  {
    LowerNoUpper(s);
  }

  // ---------------------------------------------------------------------
  // A reference rendering of natural numbers, and the round trip through it

  /** The decimal numeral of `n`, as str(n) writes it. */
  function DecimalText(n: nat): (s: string)
    ensures s != [] && AllDigits(s)
  {
    if n < 10 then ['0' + n as char] else DecimalText(n / 10) + ['0' + (n % 10) as char]
  }

  lemma {:induction false} DecimalTextValue(n: nat)
    ensures DigitsValue(DecimalText(n)) == n
  {
    if n >= 10 {
      var s := DecimalText(n);
      assert s[..|s| - 1] == DecimalText(n / 10);
      DecimalTextValue(n / 10);
    }
  }

  /** float(str(n)) == n for every natural number n. */
  lemma ParseDecimalText(n: nat)
    ensures ParseNumber(DecimalText(n)) == Some(n as real)
  {
    var s := DecimalText(n);
    DecimalTextValue(n);
    assert !IsDigit('.');
    assert '.' !in s;
  }

  /** float("w.f") is w + f / 10^|f| for digit strings w and f, not both empty. */
  lemma ParseFraction(w: string, f: string)
    requires AllDigits(w) && AllDigits(f) && |w| + |f| > 0
    ensures ParseNumber(w + "." + f) == Some(PointValue(w, f))
  {
    var s := w + "." + f;
    assert '.' in s && Before(s, '.') == w && s[|w| + 1..] == f by {
      assert s == w + ("." + f);
      assert '.' !in w by { assert !IsDigit('.'); }
      FirstIndexAfter(w, "." + f, '.');
    }
    assert s[0] != '+' && s[0] != '-' by {
      if w != [] { assert s[0] == w[0]; } else { assert s[0] == '.'; }
    }
    assert ParseUnsigned(s) == Some(PointValue(w, f));
  }

  /** A leading minus sign negates the value. */
  lemma ParseNegative(t: string)
    requires ParseUnsigned(t).Some?
    ensures ParseNumber("-" + t) == Some(-ParseUnsigned(t).value)
  {
    assert ("-" + t)[1..] == t;
  }

  /** Text that float() refuses: the empty string, words, a lone point, a lone sign. */
  lemma NotNumerals()
    ensures ParseNumber("") == None
    ensures ParseNumber("abc") == None
    ensures ParseNumber(".") == None
    ensures ParseNumber("-") == None
    ensures ParseNumber("5min") == None
  {
    assert !IsNumeralChar('a');
    assert !IsNumeralChar('m');
    assert "."[1..] == [];
    assert Before(".", '.') == [];
  }
}
