/** The two table scrapers of docktool.py. Each reads the text a command
    printed (`docker system df`, `df -h`), given here as its sequence of
    lines, and splits every line into columns with the same rule. */
module Tables {
  import opened Outcomes
  import opened Text
  import opened Units

  // ---------------------------------------------------------------------
  // The column rule

  /** Strip the line, turn every run of two or more whitespace characters
      into a tab, and split at the tabs. */
  function Columns(line: string): (cols: seq<string>)
    ensures |cols| >= 1
  {
    Split(Collapse(Strip(line)), '\t')
  }

  /** A cell as the commands write it: not empty, no whitespace at either
      end, no tab, and no two whitespace characters in a row (single spaces,
      as in "Local Volumes", are allowed). */
  predicate ValidField(f: string) {
    f != [] && !IsSpace(f[0]) && !IsSpace(f[|f| - 1]) && '\t' !in f && NoDoubleSpace(f)
  }

  /** The padding a command puts between two cells: two or more whitespace
      characters. */
  predicate IsGap(w: string) {
    |w| >= 2 && AllSpace(w)
  }

  /** A row as a command lays it out: the cells with the given gaps between. */
  function Render(fields: seq<string>, gaps: seq<string>): string
    requires |fields| >= 1 && |gaps| == |fields| - 1
    decreases |fields|
  {
    if |fields| == 1 then fields[0] else fields[0] + gaps[0] + Render(fields[1..], gaps[1..])
  }

  /** A laid-out row starts with its first cell's first character and ends
      with its last cell's last character. */
  lemma {:induction false} RenderEnds(fields: seq<string>, gaps: seq<string>)
    requires |fields| >= 1 && |gaps| == |fields| - 1
    requires forall k :: 0 <= k < |fields| ==> fields[k] != []
    ensures var r := Render(fields, gaps);
      r != [] && r[0] == fields[0][0] && r[|r| - 1] == fields[|fields| - 1][|fields[|fields| - 1]| - 1]
    decreases |fields|
  {
    if |fields| > 1 {
      var tail := fields[1..];
      assert forall k :: 0 <= k < |tail| ==> tail[k] == fields[k + 1];
      RenderEnds(tail, gaps[1..]);
    }
  }

  /** A cell, a gap and then more text: the gap becomes a tab. */
  lemma CollapseAfterCell(f: string, w: string, rest: string)
    requires f != [] && !IsSpace(f[|f| - 1]) && NoDoubleSpace(f)
    requires IsGap(w) && rest != [] && !IsSpace(rest[0])
    ensures Collapse(f + w + rest) == f + "\t" + Collapse(rest)
  {
    CollapseFixed(f);
    assert f + w + rest == f + (w + rest);
    CollapseAppend(f, w + rest);
    CollapseRun(w, rest);
    AppendAssoc(f, "\t", Collapse(rest));
  }

  /** Cells laid out with any gaps collapse to cells separated by one tab each. */
  lemma {:induction false} CollapseRendered(fields: seq<string>, gaps: seq<string>)
    requires |fields| >= 1 && |gaps| == |fields| - 1
    requires forall k :: 0 <= k < |fields| ==> ValidField(fields[k])
    requires forall k :: 0 <= k < |gaps| ==> IsGap(gaps[k])
    ensures Collapse(Render(fields, gaps)) == Join(fields, "\t")
    decreases |fields|
  {
    if |fields| == 1 {
      CollapseFixed(fields[0]);
    } else {
      var tail, gtail := fields[1..], gaps[1..];
      assert forall k :: 0 <= k < |tail| ==> tail[k] == fields[k + 1];
      assert forall k :: 0 <= k < |gtail| ==> gtail[k] == gaps[k + 1];
      var rest := Render(tail, gtail);
      RenderEnds(tail, gtail);
      CollapseAfterCell(fields[0], gaps[0], rest);
      CollapseRendered(tail, gtail);
    }
  }

  /** The column rule recovers the cells of a row laid out with any gaps of
      two or more whitespace characters, whatever whitespace surrounds the
      row (such as the line break at its end): the rule inverts the layout. */
  lemma ColumnsOfRenderedRow(lead: string, fields: seq<string>, gaps: seq<string>, trail: string)
    requires |fields| >= 1 && |gaps| == |fields| - 1
    requires forall k :: 0 <= k < |fields| ==> ValidField(fields[k])
    requires forall k :: 0 <= k < |gaps| ==> IsGap(gaps[k])
    requires AllSpace(lead) && AllSpace(trail)
    ensures Columns(lead + Render(fields, gaps) + trail) == fields
  {
    var row := Render(fields, gaps);
    RenderEnds(fields, gaps);
    StripPadded(lead, row, trail);
    CollapseRendered(fields, gaps);
    SplitJoin(fields, '\t');
  }

  /** Reads columns i and j of a row as sizes, in Python's order of
      evaluation: index i, convert it, index j, convert it. */
  function RowSizes(cols: seq<string>, i: nat, j: nat): (r: Result<(real, real)>)
    ensures |cols| <= i ==> r == Err(IndexError(i))
    ensures i < |cols| && Size2Gb(cols[i]).Err? ==> r == Err(Size2Gb(cols[i]).failure)
    ensures i < |cols| && Size2Gb(cols[i]).Ok? && |cols| <= j ==> r == Err(IndexError(j))
    ensures i < |cols| && Size2Gb(cols[i]).Ok? && j < |cols| && Size2Gb(cols[j]).Err? ==>
      r == Err(Size2Gb(cols[j]).failure)
    ensures i < |cols| && j < |cols| && Size2Gb(cols[i]).Ok? && Size2Gb(cols[j]).Ok? ==> r.Ok?
    ensures r.Ok? ==>
      i < |cols| && j < |cols| && Yields(Size2Gb(cols[i]), r.value.0) && Yields(Size2Gb(cols[j]), r.value.1)
  {
    if |cols| <= i then Err(IndexError(i))
    else match Size2Gb(cols[i])
      case Err(f) => Err(f)
      case Ok(a) =>
        if |cols| <= j then Err(IndexError(j))
        else match Size2Gb(cols[j])
          case Err(f) => Err(f)
          case Ok(b) => Ok((a, b))
  }

  // ---------------------------------------------------------------------
  // stat_cache

  /** stat_cache passes over the header line and blank lines. */
  predicate IsSkipped(line: string) {
    StartsWith(Strip(line), "TYPE") || Strip(line) == []
  }

  /** Adds a row's two sizes to the running sums; a failure stops the sum. */
  function AddRow(acc: (real, real), row: Result<(real, real)>): Result<(real, real)> {
    if row.Ok? then Ok((acc.0 + row.value.0, acc.1 + row.value.1)) else Err(row.failure)
  }

  /** What one line of `docker system df` contributes: nothing for a skipped
      line, otherwise its columns 3 and 4 read as sizes, or the failure met
      reading them. */
  function CacheRow(line: string): (row: Option<Result<(real, real)>>)
    ensures row.None? <==> IsSkipped(line)
  {
    if IsSkipped(line) then None else Some(RowSizes(Columns(line), 3, 4))
  }

  /** One more line: skipped lines and earlier failures leave the sums as they are. */
  function Accumulate(acc: Result<(real, real)>, row: Option<Result<(real, real)>>): Result<(real, real)> {
    if acc.Err? || row.None? then acc else AddRow(acc.value, row.value)
  }

  /** The sums over the rows, read from the top, or the first failure. */
  function SumRows(rows: seq<Option<Result<(real, real)>>>): Result<(real, real)> {
    if rows == [] then Ok((0.0, 0.0))
    else Accumulate(SumRows(rows[..|rows| - 1]), rows[|rows| - 1])
  }

  /** One reading per line, in order. */
  function MapLines<T>(f: string -> T, lines: seq<string>): (r: seq<T>)
    ensures |r| == |lines| && forall i :: 0 <= i < |lines| ==> r[i] == f(lines[i])
  {
    seq(|lines|, i requires 0 <= i < |lines| => f(lines[i]))
  }

  /** Reading two consecutive parts line by line reads each part in turn. */
  lemma MapLinesAppend<T>(f: string -> T, a: seq<string>, b: seq<string>)
    ensures MapLines(f, a + b) == MapLines(f, a) + MapLines(f, b)
  {
    var x, y := MapLines(f, a + b), MapLines(f, a) + MapLines(f, b);
    forall i | 0 <= i < |x|
      ensures x[i] == y[i]
    {
      if i < |a| {
        assert (a + b)[i] == a[i];
      } else {
        assert (a + b)[i] == b[i - |a|];
      }
    }
  }

  /** The contribution of every line of `docker system df`, in order. */
  function CacheRows(lines: seq<string>): (rows: seq<Option<Result<(real, real)>>>)
    ensures |rows| == |lines| && forall i :: 0 <= i < |lines| ==> rows[i] == CacheRow(lines[i])
  {
    MapLines(CacheRow, lines)
  }

  /** What stat_cache returns for the given output of `docker system df`:
      the sums of columns 3 and 4 over all rows that are not skipped, or the
      first failure met, reading from the top. */
  function CacheTotals(lines: seq<string>): Result<(real, real)> {
    SumRows(CacheRows(lines))
  }

  lemma AccumulateRow(csum: real, rsum: real, c: real, d: real, csum': real, rsum': real)
    requires csum' == csum + c && rsum' == rsum + d
    ensures Accumulate(Ok((csum, rsum)), Some(Ok((c, d)))) == Ok((csum', rsum'))
  {
  }

  lemma SumRowsSnoc(rows: seq<Option<Result<(real, real)>>>, row: Option<Result<(real, real)>>)
    ensures SumRows(rows + [row]) == Accumulate(SumRows(rows), row)
  {
    assert (rows + [row])[..|rows|] == rows;
  }

  /** stat_cache reads one line more. */
  lemma CacheTotalsSnoc(lines: seq<string>, n: nat)
    requires n < |lines|
    ensures CacheTotals(lines[..n + 1]) == Accumulate(CacheTotals(lines[..n]), CacheRow(lines[n]))
  {
    assert lines[..n + 1] == lines[..n] + [lines[n]];
    CacheRowsAppend(lines[..n], [lines[n]]);
    assert CacheRows([lines[n]]) == [CacheRow(lines[n])];
    SumRowsSnoc(CacheRows(lines[..n]), CacheRow(lines[n]));
  }

  /** A data row that reads as sizes c and d adds them to the sums. */
  lemma CacheTotalsStep(lines: seq<string>, n: nat, csum: real, rsum: real, c: real, d: real, csum': real, rsum': real)
    requires n < |lines| && CacheTotals(lines[..n]) == Ok((csum, rsum))
    requires CacheRow(lines[n]) == Some(Ok((c, d)))
    requires csum' == csum + c && rsum' == rsum + d
    ensures CacheTotals(lines[..n + 1]) == Ok((csum', rsum'))
  {
    CacheTotalsSnoc(lines, n);
    AccumulateRow(csum, rsum, c, d, csum', rsum');
  }

  /** stat_cache's result is that of all lines but the last, updated by the last. */
  lemma CacheTotalsLast(lines: seq<string>)
    requires lines != []
    ensures CacheTotals(lines) == Accumulate(CacheTotals(lines[..|lines| - 1]), CacheRow(lines[|lines| - 1]))
  {
    assert lines[..|lines| - 1 + 1] == lines;
    CacheTotalsSnoc(lines, |lines| - 1);
  }

  /** Once the rows read so far have failed, later rows change nothing. */
  lemma {:induction false} SumRowsSticky(rows: seq<Option<Result<(real, real)>>>, n: nat)
    requires n <= |rows| && SumRows(rows[..n]).Err?
    ensures SumRows(rows) == SumRows(rows[..n])
    decreases |rows|
  {
    if n < |rows| {
      var init := rows[..|rows| - 1];
      assert init[..n] == rows[..n];
      SumRowsSticky(init, n);
    } else {
      assert rows[..n] == rows;
    }
  }

  /** Once the lines read so far have failed, stat_cache fails with that failure. */
  lemma CacheTotalsSticky(lines: seq<string>, n: nat)
    requires n <= |lines| && CacheTotals(lines[..n]).Err?
    ensures CacheTotals(lines) == CacheTotals(lines[..n])
  {
    assert CacheRows(lines)[..n] == CacheRows(lines[..n]);
    SumRowsSticky(CacheRows(lines), n);
  }

  /** The body of stat_cache's loop for a data row: columns 3 and 4 read
      as sizes, the first failure stopping the reading. */
  method ReadCacheRow(cols: seq<string>) returns (r: Result<(real, real)>)
    ensures r == RowSizes(cols, 3, 4)
  {
    if |cols| <= 3 {
      return Err(IndexError(3));
    }
    var c := Size2Gb(cols[3]);
    if c.Err? {
      return Err(c.failure);
    }
    if |cols| <= 4 {
      return Err(IndexError(4));
    }
    var d := Size2Gb(cols[4]);
    if d.Err? {
      return Err(d.failure);
    }
    return Ok((c.value, d.value));
  }

  /** The loop of stat_cache over the lines of `docker system df`. */
  method StatCache(lines: seq<string>) returns (r: Result<(real, real)>)
    ensures r == CacheTotals(lines)
  {
    var csum, rsum := 0.0, 0.0;
    assert lines[..0] == [];
    for n := 0 to |lines|
      invariant CacheTotals(lines[..n]) == Ok((csum, rsum))
    {
      var line := Strip(lines[n]);
      if StartsWith(line, "TYPE") || line == [] {
        CacheTotalsSnoc(lines, n);
        continue;
      }
      var row := ReadCacheRow(Split(Collapse(line), '\t'));
      if row.Err? {
        CacheTotalsSnoc(lines, n);
        CacheTotalsSticky(lines, n + 1);
        return Err(row.failure);
      }
      var c, d := row.value.0, row.value.1;
      ghost var csum0, rsum0 := csum, rsum;
      csum, rsum := csum + c, rsum + d;
      CacheTotalsStep(lines, n, csum0, rsum0, c, d, csum, rsum);
    }
    assert lines[..|lines|] == lines;
    return Ok((csum, rsum));
  }

  /** The lines stat_cache reads as rows. */
  function DataLines(lines: seq<string>): (rows: seq<string>)
    ensures |rows| <= |lines|
    ensures forall k :: 0 <= k < |rows| ==> !IsSkipped(rows[k])
  {
    if lines == [] then []
    else
      var last := lines[|lines| - 1];
      DataLines(lines[..|lines| - 1]) + (if IsSkipped(last) then [] else [last])
  }

  /** Header and blank lines contribute nothing to either sum: dropping
      them, wherever they stand, leaves the result as it was. */
  lemma {:induction false} CacheTotalsOfDataLines(lines: seq<string>)
    ensures CacheTotals(DataLines(lines)) == CacheTotals(lines)
    decreases |lines|
  {
    if lines != [] {
      var init, last := lines[..|lines| - 1], lines[|lines| - 1];
      CacheTotalsOfDataLines(init);
      CacheTotalsLast(lines);
      if IsSkipped(last) {
        assert DataLines(lines) == DataLines(init);
        assert CacheRow(last) == None;
      } else {
        var rows := DataLines(lines);
        assert rows == DataLines(init) + [last];
        assert rows[..|rows| - 1] == DataLines(init);
        CacheTotalsLast(rows);
      }
    }
  }

  /** Combines the results of two consecutive parts of the output. */
  function Combine(x: Result<(real, real)>, y: Result<(real, real)>): Result<(real, real)> {
    if x.Err? then x else AddRow(x.value, y)
  }

  lemma {:induction false} SumRowsAppend(a: seq<Option<Result<(real, real)>>>, b: seq<Option<Result<(real, real)>>>)
    ensures SumRows(a + b) == Combine(SumRows(a), SumRows(b))
    decreases |b|
  {
    if b == [] {
      assert a + b == a;
    } else {
      var init, last := b[..|b| - 1], b[|b| - 1];
      assert a + b == (a + init) + [last];
      assert b == init + [last];
      SumRowsSnoc(a + init, last);
      SumRowsSnoc(init, last);
      SumRowsAppend(a, init);
    }
  }

  /** stat_cache over two consecutive parts of the output: the sums add up,
      and the first part's failure wins over the second's. */
  lemma CacheTotalsAppend(a: seq<string>, b: seq<string>)
    ensures CacheTotals(a + b) == Combine(CacheTotals(a), CacheTotals(b))
  {
    CacheRowsAppend(a, b);
    SumRowsAppend(CacheRows(a), CacheRows(b));
  }

  /** The rows of two consecutive parts are the rows of each, in order. */
  lemma CacheRowsAppend(a: seq<string>, b: seq<string>)
    ensures CacheRows(a + b) == CacheRows(a) + CacheRows(b)
  {
    MapLinesAppend(CacheRow, a, b);
  }

  /** A single row that is not skipped gives its own columns 3 and 4, or
      their failure. */
  lemma CacheTotalsOfRow(line: string)
    requires !IsSkipped(line)
    ensures CacheTotals([line]) == AddRow((0.0, 0.0), RowSizes(Columns(line), 3, 4))
  {
    assert [line][..0] == [];
    CacheTotalsSnoc([line], 0);
  }

  /** A row that is not skipped and has fewer than five columns makes
      stat_cache fail, wherever it stands. */
  lemma ShortRowFails(lines: seq<string>, k: nat)
    requires k < |lines| && !IsSkipped(lines[k]) && |Columns(lines[k])| < 5
    ensures CacheTotals(lines).Err?
  {
    var a, b := lines[..k], lines[k + 1..];
    assert lines == a + ([lines[k]] + b);
    CacheTotalsOfRow(lines[k]);
    CacheTotalsAppend([lines[k]], b);
    CacheTotalsAppend(a, [lines[k]] + b);
  }

  // ---------------------------------------------------------------------
  // monitor_disk_storage

  /** What monitor_disk_storage returns for the given output of `df -h`:
      columns 1 and 2 of the first line whose column 0 is `dname`, read as
      sizes, or (0, 0) when no line names that device. */
  function DiskLookup(lines: seq<string>, dname: string): Result<(real, real)>
  {
    if lines == [] then Ok((0.0, 0.0))
    else if Columns(lines[0])[0] == dname then RowSizes(Columns(lines[0]), 1, 2)
    else DiskLookup(lines[1..], dname)
  }

  /** The loop of monitor_disk_storage over the lines of `df -h`. */
  method MonitorDiskStorage(lines: seq<string>, dname: string) returns (r: Result<(real, real)>)
    ensures r == DiskLookup(lines, dname)
  {
    var dsize, usize := 0.0, 0.0;
    var n := 0;
    while n < |lines|
      invariant 0 <= n <= |lines|
      invariant DiskLookup(lines[n..], dname) == DiskLookup(lines, dname)
      invariant dsize == 0.0 && usize == 0.0
    {
      assert lines[n..][1..] == lines[n + 1..];
      var cols := Split(Collapse(Strip(lines[n])), '\t');
      if cols[0] == dname {
        if |cols| <= 1 {
          return Err(IndexError(1));
        }
        var d := Size2Gb(cols[1]);
        if d.Err? {
          return Err(d.failure);
        }
        if |cols| <= 2 {
          return Err(IndexError(2));
        }
        var u := Size2Gb(cols[2]);
        if u.Err? {
          return Err(u.failure);
        }
        dsize, usize := d.value, u.value;
        break;
      }
      n := n + 1;
    }
    return Ok((dsize, usize));
  }

  /** A line that does not name the device passes the lookup on. */
  lemma DiskLookupSkip(lines: seq<string>, dname: string)
    requires lines != [] && Columns(lines[0])[0] != dname
    ensures DiskLookup(lines, dname) == DiskLookup(lines[1..], dname)
  {
  }

  /** A line that names the device ends the lookup with its sizes. */
  lemma DiskLookupHit(lines: seq<string>, dname: string)
    requires lines != [] && Columns(lines[0])[0] == dname
    ensures DiskLookup(lines, dname) == RowSizes(Columns(lines[0]), 1, 2)
  {
  }

  /** Read from line `j` on, the first line naming the device, `lines[k]`,
      decides the result. */
  lemma {:induction false} DiskLookupFrom(lines: seq<string>, dname: string, j: nat, k: nat)
    requires j <= k < |lines| && Columns(lines[k])[0] == dname
    requires forall i :: j <= i < k ==> Columns(lines[i])[0] != dname
    ensures DiskLookup(lines[j..], dname) == RowSizes(Columns(lines[k]), 1, 2)
    decreases k - j
  {
    var s := lines[j..];
    assert s[0] == lines[j];
    if j < k {
      assert s[1..] == lines[j + 1..];
      DiskLookupSkip(s, dname);
      DiskLookupFrom(lines, dname, j + 1, k);
    } else {
      DiskLookupHit(s, dname);
    }
  }

  /** The first line naming the device decides the result; lines after it,
      matching or not, are not read. */
  lemma DiskLookupFirstMatch(lines: seq<string>, dname: string, k: nat)
    requires k < |lines| && Columns(lines[k])[0] == dname
    requires forall i :: 0 <= i < k ==> Columns(lines[i])[0] != dname
    ensures DiskLookup(lines, dname) == RowSizes(Columns(lines[k]), 1, 2)
  {
    assert lines[0..] == lines;
    DiskLookupFrom(lines, dname, 0, k);
  }

  /** Read from line `j` on, with no line naming the device, the result is
      the sentinel (0, 0). */
  lemma {:induction false} DiskLookupNoneFrom(lines: seq<string>, dname: string, j: nat)
    requires j <= |lines|
    requires forall i :: j <= i < |lines| ==> Columns(lines[i])[0] != dname
    ensures DiskLookup(lines[j..], dname) == Ok((0.0, 0.0))
    decreases |lines| - j
  {
    if j < |lines| {
      var s := lines[j..];
      assert s[0] == lines[j];
      assert s[1..] == lines[j + 1..];
      DiskLookupSkip(s, dname);
      DiskLookupNoneFrom(lines, dname, j + 1);
    }
  }

  /** When no line names the device the result is the sentinel (0, 0). */
  lemma DiskLookupNotFound(lines: seq<string>, dname: string)
    requires forall i :: 0 <= i < |lines| ==> Columns(lines[i])[0] != dname
    ensures DiskLookup(lines, dname) == Ok((0.0, 0.0))
  {
    assert lines[0..] == lines;
    DiskLookupNoneFrom(lines, dname, 0);
  }

  /** Read from line `j` on, lines after a matching line `a[k]` can be
      anything. */
  lemma {:induction false} DiskLookupIgnoresLaterFrom(a: seq<string>, b: seq<string>, dname: string, j: nat, k: nat)
    requires j <= k < |a| && Columns(a[k])[0] == dname
    ensures DiskLookup((a + b)[j..], dname) == DiskLookup(a[j..], dname)
    decreases k - j
  {
    var s, t := a[j..], (a + b)[j..];
    assert s[0] == a[j] && t[0] == a[j];
    if Columns(a[j])[0] == dname {
      DiskLookupHit(s, dname);
      DiskLookupHit(t, dname);
    } else {
      assert s[1..] == a[j + 1..] && t[1..] == (a + b)[j + 1..];
      DiskLookupSkip(s, dname);
      DiskLookupSkip(t, dname);
      DiskLookupIgnoresLaterFrom(a, b, dname, j + 1, k);
    }
  }

  /** Lines after a matching line `a[k]` can be anything. */
  lemma DiskLookupIgnoresLater(a: seq<string>, b: seq<string>, dname: string, k: nat)
    requires k < |a| && Columns(a[k])[0] == dname
    ensures DiskLookup(a + b, dname) == DiskLookup(a, dname)
  {
    assert a[0..] == a && (a + b)[0..] == a + b;
    DiskLookupIgnoresLaterFrom(a, b, dname, 0, k);
  }
}
