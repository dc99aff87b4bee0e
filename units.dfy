/** The two unit converters of docktool.py: convert_time (a duration to
    seconds) and size2gb (a size to gibibytes). */
module Units {
  import opened Outcomes
  import opened Text
  import opened Numerals

  /** The day factor convert_time uses: 216000 seconds, which is sixty hours. */
  const DaySecondsAsWritten: real := 216000.0
  /** The length of a day. */
  const DaySecondsIntended: real := 86400.0

  /** x * k, kept behind a function so that the solver treats the product of
      two unknowns as a single term. */
  function Times(x: real, k: real): real {
    x * k
  }

  /** Multiplies a number that was read, and passes a failure on. */
  function Scale(r: Result<real>, k: real): Result<real> {
    if r.Ok? then Ok(Times(r.value, k)) else r
  }

  lemma ScaleOk(r: Result<real>, v: real, k: real)
    requires Yields(r, v)
    ensures Yields(Scale(r, k), Times(v, k))
  {
  }

  /** x / k, kept behind a function for the same reason as Times. */
  function Over(x: real, k: real): real
    requires k != 0.0
  {
    x / k
  }

  /** Divides a number that was read, and passes a failure on. */
  function Shrink(r: Result<real>, k: real): Result<real>
    requires k != 0.0
  {
    if r.Ok? then Ok(Over(r.value, k)) else r
  }

  // ---------------------------------------------------------------------
  // convert_time

  /** The unit letter convert_time dispatches on, checking the endings in
      the order d, h, m or "min", s; None when the text has none of them. */
  function TimeLetter(t: string): (c: Option<char>)
    ensures c.Some? ==> c.value in "dhms" && c.value in t
  {
    if EndsWith(t, "d") then assert t[|t| - 1] == 'd'; Some('d')
    else if EndsWith(t, "h") then assert t[|t| - 1] == 'h'; Some('h')
    else if EndsWith(t, "m") || EndsWith(t, "min") then
      assert t[|t| - 1] == 'm' || t[|t| - 3] == 'm';
      Some('m')
    else if EndsWith(t, "s") then assert t[|t| - 1] == 's'; Some('s')
    else None
  }

  /** convert_time with the day factor as a parameter: lower-case the text,
      read the text before the first occurrence of the unit letter as a
      number and scale it; text with no unit ending is read as seconds. */
  function DurationSeconds(text: string, daySeconds: real): Result<real> {
    var t := Lower(text);
    match TimeLetter(t)
    case Some(c) => Scale(ToFloat(Before(t, c)), SecondsPer([c], daySeconds))
    case None =>
      match ParseNumber(t)
      case Some(v) => Ok(v)
      case None => Err(InputError(text))
  }

  /** convert_time as written, with a day of 216000 seconds. */
  function ConvertTime(text: string): Result<real> {
    DurationSeconds(text, DaySecondsAsWritten)
  }

  /** convert_time with a day of 86400 seconds. */
  function ConvertTimeIntended(text: string): Result<real> {
    DurationSeconds(text, DaySecondsIntended)
  }

  /** The unit words convert_time recognises, lower-cased; "" stands for none. */
  predicate IsTimeUnit(u: string) {
    u == "" || u == "d" || u == "h" || u == "m" || u == "min" || u == "s"
  }

  /** Seconds per unit, as convert_time scales them. */
  function SecondsPer(u: string, daySeconds: real): real
    requires IsTimeUnit(u)
  {
    if u == "d" then daySeconds
    else if u == "h" then 3600.0
    else if u == "m" || u == "min" then 60.0
    else 1.0
  }

  /** The text before the first `c` in `n + u` is `n` when the numeral `n`
      is followed by a word starting with the letter `c`. */
  lemma BeforeAfterNumeral(n: string, u: string, c: char)
    requires ParseNumber(n).Some? && u != [] && u[0] == c && !IsNumeralChar(c)
    ensures c in n + u && Before(n + u, c) == n
  {
    assert c !in n;
    FirstIndexAfter(n, u, c);
  }

  /** Lower-casing a numeral followed by a word lower-cases only the word. */
  lemma LowerAfterNumeral(n: string, unit: string)
    requires ParseNumber(n).Some?
    ensures Lower(n + unit) == n + Lower(unit)
  {
    LowerAppend(n, unit);
    NumeralLower(n);
  }

  /** A numeral followed by a unit word dispatches on the word's first letter. */
  lemma TimeLetterOfNumeral(n: string, u: string)
    requires ParseNumber(n).Some? && IsTimeUnit(u)
    ensures TimeLetter(n + u) == if u == "" then None else Some(u[0])
  {
    var t := n + u;
    var last := n[|n| - 1];
    assert IsNumeralChar(last);
    EndsWithOne(t, 'd'); EndsWithOne(t, 'h'); EndsWithOne(t, 'm'); EndsWithOne(t, 's');
    if u == "" {
      assert t[|t| - 1] == last;
    } else if u == "min" {
      assert t[|t| - 1] == 'n' && t[|t| - 3] == 'm' && t[|t| - 2] == 'i';
    } else {
      assert t[|t| - 1] == u[0];
    }
  }

  /** The value of a numeral followed by a unit word (in any letter case) is
      the numeral times that unit's number of seconds. */
  lemma DurationOfNumeral(n: string, unit: string, daySeconds: real)
    requires ParseNumber(n).Some?
    requires IsTimeUnit(Lower(unit))
    ensures Yields(DurationSeconds(n + unit, daySeconds), Times(ParseNumber(n).value, SecondsPer(Lower(unit), daySeconds)))
  {
    LowerAfterNumeral(n, unit);
    if Lower(unit) == "" {
      BareDuration(n, unit, daySeconds);
    } else {
      WordDuration(n, unit, daySeconds);
    }
  }

  /** A numeral with no unit word is read as seconds. */
  lemma BareDuration(n: string, unit: string, daySeconds: real)
    requires ParseNumber(n).Some? && Lower(unit) == "" && Lower(n + unit) == n
    ensures Yields(DurationSeconds(n + unit, daySeconds), ParseNumber(n).value)
  {
    TimeLetterOfNumeral(n, "");
  }

  /** A numeral followed by a unit word is scaled by that word's factor. */
  lemma WordDuration(n: string, unit: string, daySeconds: real)
    requires ParseNumber(n).Some? && IsTimeUnit(Lower(unit)) && Lower(unit) != ""
    requires Lower(n + unit) == n + Lower(unit)
    ensures Yields(DurationSeconds(n + unit, daySeconds), Times(ParseNumber(n).value, SecondsPer(Lower(unit), daySeconds)))
  {
    var u := Lower(unit);
    var k := SecondsPer(u, daySeconds);
    TimeLetterOfNumeral(n, u);
    BeforeAfterNumeral(n, u, u[0]);
    assert SecondsPer([u[0]], daySeconds) == k by {
      if u == "min" { assert [u[0]] == "m"; }
    }
    ScaleOk(ToFloat(n), ParseNumber(n).value, k);
  }

  /** convert_time of a numeral N followed by d, h, m, min or s (any letter
      case) is N*216000, N*3600, N*60, N*60 or N seconds; a bare numeral is N. */
  lemma ConvertTimeOfNumeral(n: string, unit: string)
    requires ParseNumber(n).Some?
    requires IsTimeUnit(Lower(unit))
    ensures Yields(ConvertTime(n + unit), Times(ParseNumber(n).value, SecondsPer(Lower(unit), 216000.0)))
  {
    DurationOfNumeral(n, unit, DaySecondsAsWritten);
  }

  /** Every duration convert_time accepts is a numeral followed by text that
      starts with the unit letter it dispatched on; its value is the numeral
      times that letter's factor, whatever follows the letter. */
  lemma DurationAccepted(text: string, daySeconds: real) returns (n: string, rest: string)
    requires DurationSeconds(text, daySeconds).Ok?
    ensures Lower(text) == n + rest && ParseNumber(n).Some?
    ensures rest == [] || rest[0] in "dhms"
    ensures DurationSeconds(text, daySeconds).value ==
      Times(ParseNumber(n).value, SecondsPer(if rest == [] then "" else [rest[0]], daySeconds))
  {
    var t := Lower(text);
    var r := DurationSeconds(text, daySeconds);
    match TimeLetter(t)
    case Some(c) =>
      n := Before(t, c);
      rest := t[|n|..];
      assert t == n + rest;
      assert [rest[0]] == [c];
      assert r == Scale(ToFloat(n), SecondsPer([c], daySeconds));
      ScaleOk(ToFloat(n), ParseNumber(n).value, SecondsPer([c], daySeconds));
    case None =>
      n, rest := t, [];
      assert t == n + rest;
      assert r == Ok(ParseNumber(t).value);
  }

  /** convert_time refuses a word with no unit ending. */
  lemma ConvertTimeRejectsWord()
    ensures ConvertTime("abc") == Err(InputError("abc"))
  {
    LowerNoUpper("abc");
    assert TimeLetter("abc") == None by {
      assert "abc"[2] == 'c';
    }
    NotNumerals();
  }

  /** convert_time refuses the empty string. */
  lemma ConvertTimeRejectsEmpty()
    ensures ConvertTime("") == Err(InputError(""))
  {
    assert Lower("") == "";
    NotNumerals();
  }

  /** After a numeral, "mins" dispatches on its final s. */
  lemma MinsAfterNumeral(n: string)
    requires ParseNumber(n).Some?
    ensures Lower(n + "mins") == n + "mins"
    ensures TimeLetter(n + "mins") == Some('s')
  {
    var t := n + "mins";
    LowerNoUpper("mins");
    LowerAfterNumeral(n, "mins");
    assert t[|t| - 1] == 's' && t[|t| - 2] == 'n';
  }

  /** The text before the first s of a numeral followed by "mins" is the
      numeral and "min". */
  lemma BeforeMins(n: string)
    requires ParseNumber(n).Some?
    ensures 's' in n + "mins" && Before(n + "mins", 's') == n + "min"
  {
    var w := n + "min";
    assert 's' !in w by {
      assert forall i :: 0 <= i < |n| ==> w[i] == n[i];
    }
    assert n + "mins" == w + "s";
    FirstIndexAfter(w, "s", 's');
  }

  /** A numeral followed by "mins" (as in "5mins") ends in s, so
      convert_time reads the text before the first s, the numeral and
      "min", as a number, and fails. */
  lemma ConvertTimeRejectsMins(n: string)
    requires ParseNumber(n).Some?
    ensures ConvertTime(n + "mins") == Err(ValueError(n + "min"))
  {
    var w := n + "min";
    MinsAfterNumeral(n);
    BeforeMins(n);
    assert !IsNumeralChar(w[|n|]);
  }

  /** The day factor of convert_time is sixty hours, not twenty-four. */
  lemma ConvertTimeDayIsSixtyHours()
    ensures ConvertTime("1d") == Ok(60.0 * 3600.0)
    ensures ConvertTimeIntended("1d") == Ok(24.0 * 3600.0)
  {
    ParseDecimalText(1);
    assert DecimalText(1) == "1";
    LowerNoUpper("d");
    assert "1d" == "1" + "d";
    DurationOfNumeral("1", "d", DaySecondsAsWritten);
    DurationOfNumeral("1", "d", DaySecondsIntended);
  }

  /** With a day of 86400 seconds, a numeral N followed by d converts to
      N*86400 seconds, and the other units as in ConvertTimeOfNumeral. */
  lemma ConvertTimeIntendedOfNumeral(n: string, unit: string)
    requires ParseNumber(n).Some?
    requires IsTimeUnit(Lower(unit))
    ensures Yields(ConvertTimeIntended(n + unit), Times(ParseNumber(n).value, SecondsPer(Lower(unit), 86400.0)))
  {
    DurationOfNumeral(n, unit, DaySecondsIntended);
  }

  /** With a day of 86400 seconds a day count converts to N*86400 seconds,
      and every other duration converts as before. */
  lemma ConvertTimeIntendedAgrees(text: string)
    ensures TimeLetter(Lower(text)) != Some('d') ==> ConvertTimeIntended(text) == ConvertTime(text)
    ensures TimeLetter(Lower(text)) == Some('d') && ConvertTime(text).Ok? ==>
      ConvertTimeIntended(text) == Ok(ConvertTime(text).value / 216000.0 * 86400.0)
  {
  }
  // ---------------------------------------------------------------------
  // size2gb

  /** The text size2gb reads: everything before the first space. */
  function SizeToken(t: string): (tok: string)
    ensures |tok| <= |t| && tok == t[..|tok|]
    ensures ' ' !in tok
    ensures ' ' !in t ==> tok == t
  {
    if ' ' in t then Before(t, ' ') else t
  }

  /** The unit letter size2gb dispatches on, checking the endings in the
      order kb or k, mb or m, gb or g, b; None when there is none of them. */
  function SizeLetter(s: string): (c: Option<char>)
    ensures c.Some? ==> c.value in "kmgb" && c.value in s
  {
    if EndsWith(s, "kb") || EndsWith(s, "k") then
      assert s[|s| - 1] == 'k' || s[|s| - 2] == 'k';
      Some('k')
    else if EndsWith(s, "mb") || EndsWith(s, "m") then
      assert s[|s| - 1] == 'm' || s[|s| - 2] == 'm';
      Some('m')
    else if EndsWith(s, "gb") || EndsWith(s, "g") then
      assert s[|s| - 1] == 'g' || s[|s| - 2] == 'g';
      Some('g')
    else if EndsWith(s, "b") then
      assert s[|s| - 1] == 'b';
      Some('b')
    else None
  }

  /** The size units size2gb recognises, lower-cased; "" stands for none. */
  predicate IsSizeUnit(u: string) {
    u == "" || u == "b" || u == "k" || u == "kb" || u == "m" || u == "mb" || u == "g" || u == "gb"
  }

  /** How many of a unit make one gibibyte (1024-based); no unit means bytes. */
  function UnitsPerGiB(u: string): (k: real)
    requires IsSizeUnit(u)
    ensures k > 0.0
  {
    if u == "k" || u == "kb" then 1048576.0
    else if u == "m" || u == "mb" then 1024.0
    else if u == "g" || u == "gb" then 1.0
    else 1073741824.0
  }

  /** The second half of size2gb, on a lower-cased token without spaces:
      read the text before the first unit letter as a number and convert it
      to gibibytes; a token with no unit ending is read as a number of bytes. */
  function ReadSize(s: string): Result<real> {
    match SizeLetter(s)
    case Some(c) => Shrink(ToFloat(Before(s, c)), UnitsPerGiB([c]))
    case None =>
      match ParseNumber(s)
      case Some(v) => Ok(Over(v, UnitsPerGiB("")))
      case None => Err(InputError(s))
  }

  /** size2gb: lower-case the text, keep the token before the first space
      and read it as a size. */
  function Size2Gb(text: string): Result<real> {
    ReadSize(SizeToken(Lower(text)))
  }

  lemma ShrinkOk(r: Result<real>, v: real, k: real)
    requires Yields(r, v) && k != 0.0
    ensures Yields(Shrink(r, k), Over(v, k))
  {
  }

  /** A numeral followed by a size unit dispatches on the unit's first letter. */
  lemma SizeLetterOfNumeral(n: string, u: string)
    requires ParseNumber(n).Some? && IsSizeUnit(u)
    ensures SizeLetter(n + u) == if u == "" then None else Some(u[0])
  {
    var t := n + u;
    var last := n[|n| - 1];
    assert IsNumeralChar(last);
    EndsWithOne(t, 'k'); EndsWithOne(t, 'm'); EndsWithOne(t, 'g'); EndsWithOne(t, 'b');
    EndsWithTwo(t, 'k', 'b'); EndsWithTwo(t, 'm', 'b'); EndsWithTwo(t, 'g', 'b');
    if u == "" {
      assert t[|t| - 1] == last;
    } else if |u| == 2 {
      assert t[|t| - 1] == 'b' && t[|t| - 2] == u[0];
    } else {
      assert t[|t| - 1] == u[0] && t[|t| - 2] == last;
    }
  }

  /** A unit word and its first letter stand for the same unit. */
  lemma UnitLetterPerGiB(u: string)
    requires IsSizeUnit(u) && u != ""
    ensures IsSizeUnit([u[0]]) && UnitsPerGiB([u[0]]) == UnitsPerGiB(u)
  {
    if |u| == 2 { assert [u[0]] == u[..1]; }
  }

  /** A bare numeral is a number of bytes. */
  lemma ReadSizeOfBareNumeral(n: string)
    requires ParseNumber(n).Some?
    ensures Yields(ReadSize(n), Over(ParseNumber(n).value, UnitsPerGiB("")))
  {
    SizeLetterOfNumeral(n, "");
    assert n + "" == n;
  }

  /** A numeral followed by a unit word is that many units. */
  lemma ReadSizeOfNumeralUnit(n: string, u: string)
    requires ParseNumber(n).Some? && IsSizeUnit(u) && u != ""
    ensures Yields(ReadSize(n + u), Over(ParseNumber(n).value, UnitsPerGiB(u)))
  {
    SizeLetterOfNumeral(n, u);
    BeforeAfterNumeral(n, u, u[0]);
    UnitLetterPerGiB(u);
    ShrinkOk(ToFloat(n), ParseNumber(n).value, UnitsPerGiB(u));
  }

  /** A numeral followed by a size unit contains no space. */
  lemma NumeralUnitSpaceless(n: string, u: string)
    requires ParseNumber(n).Some? && IsSizeUnit(u)
    ensures SizeToken(n + u) == n + u
  {
    assert !IsNumeralChar(' ');
    assert ' ' !in n;
    assert ' ' !in u;
  }

  /** size2gb of a numeral N followed by k/kb, m/mb, g/gb, b or nothing (any
      letter case) is N/1024^2, N/1024, N, N/1024^3 or N/1024^3 gibibytes.
      In particular a size ending in kb, mb or gb is never read as bytes. */
  lemma Size2GbOfNumeral(n: string, unit: string)
    requires ParseNumber(n).Some?
    requires IsSizeUnit(Lower(unit))
    ensures Yields(Size2Gb(n + unit), Over(ParseNumber(n).value, UnitsPerGiB(Lower(unit))))
  {
    var u := Lower(unit);
    LowerAfterNumeral(n, unit);
    NumeralUnitSpaceless(n, u);
    if u == "" {
      ReadSizeOfBareNumeral(n);
      assert n + u == n;
    } else {
      ReadSizeOfNumeralUnit(n, u);
    }
  }

  /** Cutting at the first space keeps what comes before it. */
  lemma SizeTokenCut(t: string, rest: string)
    requires ' ' !in t
    ensures SizeToken(t + " " + rest) == t
  {
    assert t + " " + rest == t + (" " + rest);
    FirstIndexAfter(t, " " + rest, ' ');
  }

  /** size2gb reads only the text before the first space: "1.2GB (50%)"
      gives what "1.2GB" gives. */
  lemma Size2GbIgnoresAfterSpace(token: string, rest: string)
    requires ' ' !in token
    ensures Size2Gb(token + " " + rest) == Size2Gb(token)
  {
    LowerAppend(token + " ", rest);
    LowerAppend(token, " ");
    assert Lower(" ") == " ";
    LowerKeepsAbsent(token, ' ');
    SizeTokenCut(Lower(token), Lower(rest));
  }

  /** Every token ReadSize accepts is a numeral followed by text that starts
      with the unit letter it dispatched on (or by nothing); its value is the
      numeral divided by that unit's count per gibibyte. */
  lemma ReadSizeAccepted(s: string) returns (n: string, rest: string)
    requires ReadSize(s).Ok?
    ensures s == n + rest && ParseNumber(n).Some?
    ensures rest == [] || rest[0] in "kmgb"
    ensures ReadSize(s).value == Over(ParseNumber(n).value, UnitsPerGiB(if rest == [] then "" else [rest[0]]))
  {
    match SizeLetter(s)
    case Some(c) =>
      n := Before(s, c);
      rest := s[|n|..];
      assert s == n + rest;
      assert [rest[0]] == [c];
      ShrinkOk(ToFloat(n), ParseNumber(n).value, UnitsPerGiB([c]));
    case None =>
      n, rest := s, [];
      assert s == n + rest;
  }

  /** Every size size2gb accepts is a numeral followed by text that starts
      with the unit letter it dispatched on, then anything up to the first
      space; its value is the numeral over that letter's units per GiB. */
  lemma Size2GbAccepted(text: string) returns (n: string, rest: string)
    requires Size2Gb(text).Ok?
    ensures SizeToken(Lower(text)) == n + rest && ParseNumber(n).Some?
    ensures rest == [] || rest[0] in "kmgb"
    ensures Size2Gb(text).value == Over(ParseNumber(n).value, UnitsPerGiB(if rest == [] then "" else [rest[0]]))
  {
    n, rest := ReadSizeAccepted(SizeToken(Lower(text)));
  }

  /** size2gb refuses a size with an unknown unit such as T. */
  lemma Size2GbRejectsUnknownUnit()
    ensures Size2Gb("1.5T") == Err(InputError("1.5t"))
  {
    var t := "1.5t";
    assert Lower("1.5T") == t;
    assert SizeToken(t) == t;
    assert SizeLetter(t) == None by {
      assert t[3] == 't' && t[2] == '5';
    }
    assert ParseNumber(t) == None by {
      assert !IsNumeralChar(t[3]);
    }
  }

  /** size2gb refuses a word. */
  lemma Size2GbRejectsWord()
    ensures Size2Gb("abc") == Err(InputError("abc"))
  {
    var t := "abc";
    LowerNoUpper(t);
    assert SizeToken(t) == t;
    assert SizeLetter(t) == None by {
      assert t[2] == 'c' && t[1] == 'b';
    }
    assert ParseNumber(t) == None by {
      assert !IsNumeralChar(t[0]);
    }
  }

  /** size2gb refuses a unit with no number before it. */
  lemma Size2GbRejectsBareUnit()
    ensures Size2Gb("GB") == Err(ValueError(""))
  {
    var t := "gb";
    assert Lower("GB") == t;
    assert SizeToken(t) == t;
    assert SizeLetter(t) == Some('g') by {
      assert t[1] == 'b' && t[0] == 'g';
    }
    assert Before(t, 'g') == "";
    NotNumerals();
  }

  /** A size written without a minus sign converts to a non-negative amount. */
  lemma Size2GbNonNegative(text: string)
    requires Size2Gb(text).Ok?
    requires '-' !in text
    ensures Size2Gb(text).value >= 0.0
  {
    var n, rest := Size2GbAccepted(text);
    assert n[0] != '-' by {
      LowerKeepsAbsent(text, '-');
      var s := SizeToken(Lower(text));
      assert n[0] == s[0] == Lower(text)[0];
    }
    var u := if rest == [] then "" else [rest[0]];
    assert IsSizeUnit(u);
    OverNonNegative(ParseNumber(n).value, UnitsPerGiB(u));
  }

  /** A non-negative amount divided by a positive factor stays non-negative. */
  lemma OverNonNegative(x: real, k: real)
    requires x >= 0.0 && k > 0.0
    ensures Over(x, k) >= 0.0
  {
  }
}
