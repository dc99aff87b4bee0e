/** The string operations docktool.py relies on: str.lower, str.endswith,
    str.startswith, str.strip, str.split, and the substitution
    re.sub(r"\s{2,}", "\t", line) that turns column gaps into tabs.
    Characters are Dafny `char`s; whitespace and case are the ASCII ones. */
module Text {

  /** The ASCII characters that str.strip() and the regex class \s treat as
      whitespace: space, and tab, newline, vertical tab, form feed and carriage
      return (codes 9 to 13). */
  predicate IsSpace(c: char) {
    c == ' ' || '\t' <= c <= '\r'
  }

  predicate IsUpper(c: char) {
    'A' <= c <= 'Z'
  }

  function LowerChar(c: char): (r: char)
    ensures IsUpper(c) ==> r as int == c as int + 32
    ensures !IsUpper(c) ==> r == c
  {
    if IsUpper(c) then (c as int + 32) as char else c
  }

  /** str.lower() on ASCII letters. */
  function Lower(s: string): (r: string)
    ensures |r| == |s|
    ensures forall i :: 0 <= i < |s| ==> r[i] == LowerChar(s[i])
  {
    seq(|s|, i requires 0 <= i < |s| => LowerChar(s[i]))
  }

  lemma LowerAppend(a: string, b: string)
    ensures Lower(a + b) == Lower(a) + Lower(b)
  {
  }

  /** Lower-casing leaves a string without capital letters unchanged. */
  lemma LowerNoUpper(s: string)
    requires forall i :: 0 <= i < |s| ==> !IsUpper(s[i])
    ensures Lower(s) == s
  {
  }

  /** Lower-casing brings in no character other than a lower-case letter. */
  lemma LowerKeepsAbsent(s: string, c: char)
    requires c !in s && !('a' <= c <= 'z')
    ensures c !in Lower(s)
  {
    var r := Lower(s);
    forall i | 0 <= i < |r|
      ensures r[i] != c
    {
      assert s[i] != c;
    }
  }

  /** str.endswith(suffix). */
  predicate EndsWith(s: string, suffix: string) {
    |suffix| <= |s| && forall i :: |s| - |suffix| <= i < |s| ==> s[i] == suffix[i - (|s| - |suffix|)]
  }

  /** Ending with one character is having it last. */
  lemma EndsWithOne(s: string, c: char)
    ensures EndsWith(s, [c]) <==> |s| >= 1 && s[|s| - 1] == c
  {
  }

  /** Ending with two characters is having them last, in order. */
  lemma EndsWithTwo(s: string, c: char, d: char)
    ensures EndsWith(s, [c, d]) <==> |s| >= 2 && s[|s| - 2] == c && s[|s| - 1] == d
  {
  }

  /** str.startswith(prefix). */
  predicate StartsWith(s: string, prefix: string) {
    |prefix| <= |s| && forall i :: 0 <= i < |prefix| ==> s[i] == prefix[i]
  }

  /** Position of the first occurrence of `c` in `s`. */
  function FirstIndex(s: string, c: char): (i: nat)
    requires c in s
    ensures i < |s| && s[i] == c && c !in s[..i]
  {
    if s[0] == c then 0 else 1 + FirstIndex(s[1..], c)
  }

  /** The first occurrence of `c` in `a + b` lies in `b` when `a` lacks `c`. */
  lemma FirstIndexAfter(a: string, b: string, c: char)
    requires c !in a && c in b
    ensures FirstIndex(a + b, c) == |a| + FirstIndex(b, c)
  {
    var i, j := FirstIndex(a + b, c), FirstIndex(b, c);
    assert (a + b)[|a| + j] == c;
  }

  /** The part of `s` before the first `c`: element 0 of s.split(c, 1). */
  function Before(s: string, c: char): (r: string)
    requires c in s
    ensures |r| < |s| && r == s[..|r|] && s[|r|] == c && c !in r
  {
    s[..FirstIndex(s, c)]
  }

  // ---------------------------------------------------------------------
  // str.strip()

  function TrimLeft(s: string): (r: string)
    ensures |r| <= |s| && r == s[|s| - |r|..]
    ensures r == [] || !IsSpace(r[0])
    ensures forall i :: 0 <= i < |s| - |r| ==> IsSpace(s[i])
  {
    if |s| > 0 && IsSpace(s[0]) then TrimLeft(s[1..]) else s
  }

  function TrimRight(s: string): (r: string)
    ensures |r| <= |s| && r == s[..|r|]
    ensures r == [] || !IsSpace(r[|r| - 1])
    ensures forall i :: |r| <= i < |s| ==> IsSpace(s[i])
  {
    if |s| > 0 && IsSpace(s[|s| - 1]) then TrimRight(s[..|s| - 1]) else s
  }

  /** Every character is whitespace. */
  predicate AllSpace(w: string) {
    forall i :: 0 <= i < |w| ==> IsSpace(w[i])
  }

  /** str.strip(): drop leading and trailing whitespace. The result is the
      slice of `s` starting at `a`; everything before and after it is
      whitespace, and it neither starts nor ends with whitespace. */
  function Strip(s: string): (r: string)
    ensures r == [] || (!IsSpace(r[0]) && !IsSpace(r[|r| - 1]))
    ensures exists a :: (0 <= a <= |s| - |r| && r == s[a..a + |r|] &&
                         AllSpace(s[..a]) && AllSpace(s[a + |r|..]))
  {
    var t := TrimLeft(s);
    var r := TrimRight(t);
    assert AllSpace(s[..|s| - |t|]);
    assert AllSpace(t[|r|..]);
    SlicePieces(s, t, r);
    r
  }

  /** A suffix `t` of `s` and a prefix `r` of `t`, each cut off by
      whitespace only: `r` is a slice of `s` with whitespace on either side. */
  lemma SlicePieces(s: string, t: string, r: string)
    requires |t| <= |s| && t == s[|s| - |t|..] && AllSpace(s[..|s| - |t|])
    requires |r| <= |t| && r == t[..|r|] && AllSpace(t[|r|..])
    ensures var a := |s| - |t|;
      a + |r| <= |s| && r == s[a..a + |r|] && AllSpace(s[..a]) && AllSpace(s[a + |r|..])
  {
    var a := |s| - |t|;
    assert s[a + |r|..] == t[|r|..];
  }

  /** Leading whitespace is dropped up to the first other character. */
  lemma {:induction false} TrimLeftRun(w: string, y: string)
    requires AllSpace(w) && (y == [] || !IsSpace(y[0]))
    ensures TrimLeft(w + y) == y
    decreases |w|
  {
    if w == [] {
      assert w + y == y;
    } else {
      assert (w + y)[0] == w[0];
      assert (w + y)[1..] == w[1..] + y;
      TrimLeftRun(w[1..], y);
    }
  }

  /** Trailing whitespace is dropped back to the last other character. */
  lemma {:induction false} TrimRightRun(x: string, w: string)
    requires AllSpace(w) && (x == [] || !IsSpace(x[|x| - 1]))
    ensures TrimRight(x + w) == x
    decreases |w|
  {
    if w == [] {
      assert x + w == x;
    } else {
      var v := w[..|w| - 1];
      assert (x + w)[|x + w| - 1] == w[|w| - 1];
      assert (x + w)[..|x + w| - 1] == x + v;
      TrimRightRun(x, v);
    }
  }

  /** strip() removes exactly the whitespace padding around a text that
      neither starts nor ends with whitespace. */
  lemma StripPadded(lead: string, x: string, trail: string)
    requires AllSpace(lead) && AllSpace(trail)
    requires x != [] && !IsSpace(x[0]) && !IsSpace(x[|x| - 1])
    ensures Strip(lead + x + trail) == x
  {
    assert lead + x + trail == lead + (x + trail);
    TrimLeftRun(lead, x + trail);
    TrimRightRun(x, trail);
  }

  /** A string that neither starts nor ends with whitespace is its own strip. */
  lemma StripTrimmed(s: string)
    requires s == [] || (!IsSpace(s[0]) && !IsSpace(s[|s| - 1]))
    ensures Strip(s) == s
  {
  }

  // ---------------------------------------------------------------------
  // re.sub(r"\s{2,}", "\t", s)

  /** No two whitespace characters stand next to each other. */
  predicate NoDoubleSpace(s: string)
    decreases |s|
  {
    |s| < 2 || ((!IsSpace(s[0]) || !IsSpace(s[1])) && NoDoubleSpace(s[1..]))
  }

  /** The substitution as a left-to-right scan. `inRun` says that a tab has
      just been written for a run of whitespace that is still going on, so
      further whitespace is swallowed. Outside a run, whitespace followed by
      more whitespace starts a run and writes one tab; a lone whitespace
      character, like any other character, is copied. */
  function Scan(s: string, inRun: bool): (r: string)
    ensures r != [] ==> s != [] && (IsSpace(r[0]) <==> !inRun && IsSpace(s[0]))
    decreases |s|
  {
    if s == [] then []
    else if IsSpace(s[0]) && inRun then Scan(s[1..], true)
    else if IsSpace(s[0]) && |s| >= 2 && IsSpace(s[1]) then "\t" + Scan(s[2..], true)
    else [s[0]] + Scan(s[1..], false)
  }

  /** Every maximal run of two or more whitespace characters becomes one tab;
      a lone whitespace character is kept as it is. The regex is greedy and
      scans left to right, so the runs it replaces are exactly the maximal ones. */
  function Collapse(s: string): (r: string)
    ensures r == [] <==> s == []
    ensures r != [] ==> IsSpace(r[0]) == IsSpace(s[0])
  {
    Scan(s, false)
  }

  /** A string with no adjacent whitespace is left alone. */
  lemma {:induction false} CollapseFixed(s: string)
    requires NoDoubleSpace(s)
    ensures Collapse(s) == s
    decreases |s|
  {
    if s != [] {
      CollapseFixed(s[1..]);
    }
  }

  /** No two whitespace characters stand together in what the scan writes. */
  lemma {:induction false} ScanNoDoubleSpace(s: string, inRun: bool)
    ensures NoDoubleSpace(Scan(s, inRun))
    decreases |s|
  {
    if s == [] {
    } else if IsSpace(s[0]) && inRun {
      ScanNoDoubleSpace(s[1..], true);
    } else if IsSpace(s[0]) && |s| >= 2 && IsSpace(s[1]) {
      ScanNoDoubleSpace(s[2..], true);
      var c := Scan(s[2..], true);
      assert ("\t" + c)[1..] == c;
    } else {
      ScanNoDoubleSpace(s[1..], false);
      var c := Scan(s[1..], false);
      assert ([s[0]] + c)[1..] == c;
    }
  }

  /** Substituting twice changes nothing more than substituting once. */
  lemma CollapseIdempotent(s: string)
    ensures Collapse(Collapse(s)) == Collapse(s)
  {
    ScanNoDoubleSpace(s, false);
    CollapseFixed(Collapse(s));
  }

  /** The scan distributes over a split point just after a non-space; the
      second part starts outside a run. */
  lemma {:induction false} ScanAppend(a: string, b: string, inRun: bool)
    requires a != [] && !IsSpace(a[|a| - 1])
    ensures Scan(a + b, inRun) == Scan(a, inRun) + Scan(b, false)
    decreases |a|
  {
    assert (a + b)[0] == a[0];
    if |a| == 1 {
      assert (a + b)[1..] == b;
      assert Scan(a + b, inRun) == [a[0]] + Scan(b, false);
      assert Scan(a, inRun) == [a[0]];
      AppendAssoc([a[0]], [], Scan(b, false));
    } else {
      assert (a + b)[1] == a[1];
      if IsSpace(a[0]) && !inRun && IsSpace(a[1]) {
        var r := a[2..];
        assert (a + b)[2..] == r + b;
        ScanAppend(r, b, true);
        assert Scan(a + b, inRun) == "\t" + Scan(r + b, true);
        assert Scan(a, inRun) == "\t" + Scan(r, true);
        AppendAssoc("\t", Scan(r, true), Scan(b, false));
      } else {
        var r := a[1..];
        assert (a + b)[1..] == r + b;
        ScanAppend(r, b, IsSpace(a[0]) && inRun);
        if IsSpace(a[0]) && inRun {
          assert Scan(a + b, inRun) == Scan(r + b, true);
          assert Scan(a, inRun) == Scan(r, true);
        } else {
          assert Scan(a + b, inRun) == [a[0]] + Scan(r + b, false);
          assert Scan(a, inRun) == [a[0]] + Scan(r, false);
          AppendAssoc([a[0]], Scan(r, false), Scan(b, false));
        }
      }
    }
  }

  /** Substitution distributes over a split point just after a non-space. */
  lemma CollapseAppend(a: string, b: string)
    requires a == [] || !IsSpace(a[|a| - 1])
    ensures Collapse(a + b) == Collapse(a) + Collapse(b)
  {
    if a == [] {
      assert a + b == b;
    } else {
      ScanAppend(a, b, false);
    }
  }

  /** Inside a run, further whitespace is swallowed up to the next other
      character, after which the scan goes on as outside a run. */
  lemma {:induction false} ScanRun(w: string, b: string)
    requires AllSpace(w) && (b == [] || !IsSpace(b[0]))
    ensures Scan(w + b, true) == Scan(b, false)
    decreases |w|
  {
    if w == [] {
      assert w + b == b;
    } else {
      assert (w + b)[0] == w[0];
      assert (w + b)[1..] == w[1..] + b;
      ScanRun(w[1..], b);
    }
  }

  /** A run of two or more whitespace characters of any kind, up to the next
      other character, becomes a single tab. */
  lemma CollapseRun(w: string, b: string)
    requires |w| >= 2 && AllSpace(w) && (b == [] || !IsSpace(b[0]))
    ensures Collapse(w + b) == "\t" + Collapse(b)
  {
    var s := w + b;
    assert IsSpace(s[0]) && IsSpace(s[1]);
    assert s[2..] == w[2..] + b;
    ScanRun(w[2..], b);
    ScanRun([], b);
  }

  // ---------------------------------------------------------------------
  // str.split(sep) and its inverse, str.join

  /** str.split(sep) with a one-character separator: the pieces between
      separators, always at least one. */
  function Split(s: string, sep: char): (r: seq<string>)
    ensures |r| >= 1
    ensures forall k :: 0 <= k < |r| ==> sep !in r[k]
    decreases |s|
  {
    if sep !in s then [s]
    else
      var i := FirstIndex(s, sep);
      [s[..i]] + Split(s[i + 1..], sep)
  }

  /** sep.join(fields). */
  function Join(fields: seq<string>, sep: string): string
    requires |fields| >= 1
  {
    if |fields| == 1 then fields[0] else fields[0] + sep + Join(fields[1..], sep)
  }

  /** Splitting and joining again gives the original string back. */
  lemma {:induction false} JoinSplit(s: string, sep: char)
    ensures Join(Split(s, sep), [sep]) == s
    decreases |s|
  {
    if sep in s {
      var i := FirstIndex(s, sep);
      var x, rest := s[..i], s[i + 1..];
      assert s == x + [sep] + rest;
      SplitAtFirst(x, sep, rest);
      JoinSplit(rest, sep);
      JoinCons(x, Split(rest, sep), [sep]);
    } else {
      assert Split(s, sep) == [s];
    }
  }

  /** Concatenation is associative. */
  lemma AppendAssoc<T>(x: seq<T>, y: seq<T>, z: seq<T>)
    ensures (x + y) + z == x + (y + z)
  {
  }

  /** A non-empty sequence is its head followed by its tail. */
  lemma HeadTail<T>(s: seq<T>)
    requires |s| >= 1
    ensures [s[0]] + s[1..] == s
  {
  }

  /** Joining a field in front of other fields puts the separator between. */
  lemma JoinCons(x: string, fields: seq<string>, sep: string)
    requires |fields| >= 1
    ensures Join([x] + fields, sep) == x + sep + Join(fields, sep)
  {
    assert ([x] + fields)[1..] == fields;
  }

  /** Splitting at the first separator, which follows a separator-free `x`. */
  lemma SplitAtFirst(x: string, sep: char, rest: string)
    requires sep !in x
    ensures Split(x + [sep] + rest, sep) == [x] + Split(rest, sep)
  {
    var s := x + [sep] + rest;
    assert s == x + ([sep] + rest);
    FirstIndexAfter(x, [sep] + rest, sep);
    assert s[..|x|] == x;
    assert s[|x| + 1..] == rest;
  }

  /** Joining separator-free fields and splitting again gives the fields back. */
  lemma {:induction false} SplitJoin(fields: seq<string>, sep: char)
    requires |fields| >= 1
    requires forall k :: 0 <= k < |fields| ==> sep !in fields[k]
    ensures Split(Join(fields, [sep]), sep) == fields
    decreases |fields|
  {
    if |fields| > 1 {
      var tail := fields[1..];
      assert forall k :: 0 <= k < |tail| ==> tail[k] == fields[k + 1];
      assert Join(fields, [sep]) == fields[0] + [sep] + Join(tail, [sep]);
      SplitAtFirst(fields[0], sep, Join(tail, [sep]));
      SplitJoin(tail, sep);
      HeadTail(fields);
    } else {
      assert Join(fields, [sep]) == fields[0];
    }
  }

  /** The first and last characters of a join come from the first and last field. */
  lemma {:induction false} JoinEnds(fields: seq<string>, sep: string)
    requires |fields| >= 1 && forall k :: 0 <= k < |fields| ==> fields[k] != []
    ensures var j := Join(fields, sep);
      j != [] && j[0] == fields[0][0] && j[|j| - 1] == fields[|fields| - 1][|fields[|fields| - 1]| - 1]
    decreases |fields|
  {
    if |fields| > 1 {
      JoinEnds(fields[1..], sep);
    }
  }
}
