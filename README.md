# docktool: a Dafny model of its cache and disk check

`docktool.py` keeps the disk of a Docker host from filling up. Each cycle it
prunes the builder cache. It then reads two tables:

- `docker system df`, from which `stat_cache` sums the total and the reclaimable sizes;
- `df -h`, from which `monitor_disk_storage` reads the size and the usage of one disk.

From the disk figures, `clear_cache` either warns, takes emergency measures or
does nothing.

This project models the logic between those commands and proves properties of it:

- `convert_time` turns durations such as `"2h"` into seconds.
- `size2gb` turns sizes such as `"1.5GB"` or `"300MB"` into GiB (1024-based).
- The column rule splits a table line into cells:
  - strip the line;
  - turn every run of two or more whitespace characters into a tab;
  - split at tabs.
- The row loops of `stat_cache` and `monitor_disk_storage`.
- The branch choice of one cycle of `clear_cache`.

Python's exceptions become values of `Outcomes.Result`:

- `ValueError(token)` is a `float()` that fails on `token`.
- `InputError(text)` is the `Exception("Size … input error")` the two converters raise.
- `IndexError(i)` is a line with no cell `i`.

The output of a shell command is a parameter: a sequence of lines.

Modules, one per file:

- `Outcomes` (outcomes.dfy): `Option`, `Failure`, `Result`.
- `Text` (text.dfy): the string operations the code relies on. These are `lower`,
  `strip`, `endswith`/`startswith`, `split(c, 1)`, `split(sep)`, `join`, and the
  `\s{2,}` → tab substitution.
- `Numerals` (numerals.dfy): `float()` on decimal numerals.
- `Units` (units.dfy): `convert_time` and `size2gb`.
- `Tables` (tables.dfy): the column rule, `stat_cache` and `monitor_disk_storage`.
  Each of the two functions is an imperative loop, proved against a recursive
  specification function.
- `Cleanup` (cleanup.dfy): the branch choice of `clear_cache`.

Some of the code's behaviour is surprising; the model follows the code:

- A day counts as 216000 seconds (60 hours). See Findings.
- `size2gb` keeps only the text before the first space. So `"5 GB"` is read as `"5"`,
  that is, 5 bytes (`Units.Size2GbIgnoresAfterSpace`).
- `convert_time` picks its unit from the ending of the text: `d`, `h`, `m` or
  `min`, `s`, or none. `size2gb` does the same with `kb` or `k`, `mb` or `m`,
  `gb` or `g`, `b`, or none. Both then cut at the first occurrence of the
  unit's first letter and drop the rest. So `"5min"` ends with `min`, is cut at
  its `m` and gives 300 seconds. `"5mins"` ends with `s`, is cut at its `s` and
  fails on `float("5min")`.
- The warning test comes before the emergency test. So with non-negative sizes
  the emergency branch is never taken. See Findings.
- When the disk is not found, the sizes stay `(0, 0)`. `0 >= 0 * 0.95` holds, so
  the cycle warns (`Cleanup.MissingDiskWarns`).

## Model

| member | source | states |
|---|---|---|
| Text.EndsWith | docktool.py:33-44 | `endswith(suffix)`: the last characters of the text are the suffix (read through `Text.EndsWithOne`, `Text.EndsWithTwo`) |
| Text.EndsWithOne | docktool.py:33-44 | ending with one character is having it last |
| Text.EndsWithTwo | docktool.py:61-70 | ending with two characters is having them last, in order |
| Text.StartsWith | docktool.py:91 | `startswith(prefix)`: the first characters of the text are the prefix |
| Text.Lower | docktool.py:31 | `str.lower()` keeps the length, lowers every ASCII capital and keeps every other character |
| Text.Before | docktool.py:34 | `split(c, 1)[0]`: the text before the first `c`, a proper prefix followed by `c` and free of `c` |
| Text.FirstIndexAfter | docktool.py:34 | the first `c` in `a + b`, with no `c` in `a`, lies in `b`, shifted by `|a|` |
| Text.Strip | docktool.py:90 | `strip()` gives a contiguous piece of the line with no whitespace at either end, and everything it removes on either side is whitespace |
| Text.TrimLeftRun | docktool.py:90 | removing leading whitespace drops exactly a whitespace run before a non-whitespace character |
| Text.TrimRightRun | docktool.py:90 | removing trailing whitespace drops exactly a whitespace run after a non-whitespace character |
| Text.StripPadded | docktool.py:90 | `strip()` of a text padded with whitespace on both sides gives back the text |
| Text.StripTrimmed | docktool.py:90 | a line without whitespace at either end is unchanged by `strip()` |
| Text.Scan | docktool.py:93 | the left-to-right pass of the substitution: its output starts with whitespace only when the line does and no run was open (properties in `Text.ScanRun`, `Text.ScanAppend`, `Text.ScanNoDoubleSpace`) |
| Text.Collapse | docktool.py:93 | the substitution empties only the empty line and keeps whether the line starts with whitespace |
| Text.CollapseFixed | docktool.py:93 | a line with no two adjacent whitespace characters is unchanged |
| Text.ScanNoDoubleSpace | docktool.py:93 | after the substitution no two whitespace characters are adjacent |
| Text.CollapseIdempotent | docktool.py:93 | applying the substitution twice is the same as once |
| Text.ScanAppend | docktool.py:93 | the pass over a line split after a non-whitespace character is the pass over each part, the second started with no run open |
| Text.CollapseAppend | docktool.py:93 | the substitution distributes over a join point whose left side ends in a non-whitespace character |
| Text.ScanRun | docktool.py:93 | once a run is open, every further whitespace character up to the next non-whitespace one is dropped |
| Text.CollapseRun | docktool.py:93 | any run of two or more whitespace characters before a cell becomes one tab |
| Text.SplitAtFirst | docktool.py:94 | a line splits at its first separator into the text before it and the pieces of the rest |
| Text.Split | docktool.py:94 | `split(sep)` gives at least one piece, and no piece contains `sep` |
| Text.JoinSplit | docktool.py:94 | joining the pieces of `split(sep)` with `sep` gives back the line |
| Text.SplitJoin | docktool.py:94 | splitting a join of `sep`-free cells gives back the cells |
| Numerals.ParseNumber | docktool.py:47 | an accepted numeral is made of digits, a point and a sign, and is not negative unless it starts with `-` |
| Numerals.NumeralLower | docktool.py:31 | lower-casing leaves a numeral unchanged |
| Numerals.ParseDecimalText | docktool.py:47 | the decimal text of a natural number reads back as that number |
| Numerals.ParseFraction | docktool.py:47 | digits, a point and digits (either side may be empty, not both) read as their decimal value |
| Numerals.ParseNegative | docktool.py:47 | a leading minus negates the value |
| Numerals.NotNumerals | docktool.py:46-49 | `""`, `"abc"`, `"."`, `"-"` and `"5min"` are refused |
| Units.DurationSeconds | docktool.py:28-51 | `convert_time` for a given day length; its behaviour is stated by `Units.DurationOfNumeral`, `Units.DurationAccepted` and the rejection lemmas below |
| Units.ConvertTime | docktool.py:28-51 | `convert_time` as written, a day being 216000 seconds; stated by `Units.ConvertTimeOfNumeral`, `Units.DurationAccepted`, `Units.ConvertTimeRejectsWord`, `Units.ConvertTimeRejectsEmpty` and `Units.ConvertTimeRejectsMins` |
| Units.TimeLetter | docktool.py:33-44 | the unit letter `convert_time` dispatches on is one of `d h m s` and occurs in the text |
| Units.TimeLetterOfNumeral | docktool.py:33-44 | after a numeral, the first letter of the unit is the one dispatched on |
| Units.DurationOfNumeral | docktool.py:31-47 | a numeral N followed by a unit converts to N times that unit's seconds, for any day length |
| Units.BareDuration | docktool.py:45-47 | a bare numeral is read as that many seconds |
| Units.WordDuration | docktool.py:33-44 | a numeral followed by a unit word is scaled by that word's factor |
| Units.ConvertTimeOfNumeral | docktool.py:31-47 | N followed by `d`, `h`, `m`/`min`, `s` or nothing (any case) converts to N·216000, N·3600, N·60, N or N seconds |
| Units.DurationAccepted | docktool.py:31-51 | every accepted duration is a numeral followed by a unit letter (or nothing) and text that is ignored; its value is the numeral times that unit |
| Units.ConvertTimeRejectsWord | docktool.py:45-49 | `"abc"` raises the input error naming the original text |
| Units.ConvertTimeRejectsEmpty | docktool.py:45-49 | the empty text raises the input error |
| Units.MinsAfterNumeral | docktool.py:31-42 | a numeral followed by `mins` is dispatched on `s` |
| Units.BeforeMins | docktool.py:43 | the cut before the first `s` of N`mins` is N`min` |
| Units.ConvertTimeRejectsMins | docktool.py:42-44 | N`mins` fails with a `ValueError` on N`min` |
| Units.ConvertTimeDayIsSixtyHours | docktool.py:33-35 | `"1d"` converts to 60·3600 seconds as written, and to 24·3600 with the intended day |
| Units.ConvertTimeIntendedOfNumeral | docktool.py:33-47 | with the intended day, N`d` is N·86400 seconds and the other units are unchanged |
| Units.ConvertTimeIntendedAgrees | docktool.py:33-35 | the intended conversion differs from the written one only on days, by the factor 86400/216000 |
| Units.Size2Gb | docktool.py:54-79 | `size2gb`: lower-case, cut at the first space, read the token; stated by `Units.Size2GbOfNumeral`, `Units.Size2GbAccepted`, `Units.Size2GbIgnoresAfterSpace`, `Units.Size2GbNonNegative` and the rejection lemmas below |
| Units.ReadSize | docktool.py:61-77 | the unit dispatch of `size2gb`; stated by `Units.ReadSizeOfBareNumeral`, `Units.ReadSizeOfNumeralUnit` and `Units.ReadSizeAccepted` |
| Units.SizeToken | docktool.py:59-60 | `split(" ", 1)[0]` is a prefix with no space, and the whole text when there is no space |
| Units.SizeTokenCut | docktool.py:59-60 | a token followed by a space and anything is cut back to the token |
| Units.Size2GbIgnoresAfterSpace | docktool.py:59-60 | whatever follows the first space does not change the size |
| Units.SizeLetter | docktool.py:61-72 | the unit letter `size2gb` dispatches on is one of `k m g b` and occurs in the text |
| Units.SizeLetterOfNumeral | docktool.py:61-72 | after a numeral, `kb`, `mb` and `gb` dispatch on their first letter, not on `b` |
| Units.UnitsPerGiB | docktool.py:61-75 | every divisor is positive |
| Units.UnitLetterPerGiB | docktool.py:61-69 | `k`/`kb`, `m`/`mb` and `g`/`gb` share their divisor |
| Units.ReadSizeOfBareNumeral | docktool.py:73-75 | a bare numeral is read as bytes |
| Units.ReadSizeOfNumeralUnit | docktool.py:61-72 | a numeral with a unit is divided by 1024², 1024, 1 or 1024³ |
| Units.NumeralUnitSpaceless | docktool.py:59-60 | a numeral with a unit has no space to cut at |
| Units.Size2GbOfNumeral | docktool.py:57-75 | N with unit `k`/`kb`, `m`/`mb`, `g`/`gb`, `b` or nothing (any case) is N/1024², N/1024, N, N/1024³ or N/1024³ GiB |
| Units.ReadSizeAccepted | docktool.py:61-77 | every accepted token is a numeral followed by a unit letter (or nothing) and ignored text; its value is the numeral over that unit's divisor |
| Units.Size2GbAccepted | docktool.py:57-79 | the same for `size2gb` as a whole, of the lowered token before the first space |
| Units.Size2GbRejectsUnknownUnit | docktool.py:73-77 | `"1.5T"` raises the input error naming the lowered `"1.5t"` |
| Units.Size2GbRejectsWord | docktool.py:73-77 | `"abc"` raises the input error |
| Units.Size2GbRejectsBareUnit | docktool.py:67-69 | `"GB"` fails with a `ValueError` on the empty numeral |
| Units.OverNonNegative | docktool.py:63-75 | dividing a non-negative amount by a unit's divisor keeps it non-negative |
| Units.Size2GbNonNegative | docktool.py:57-79 | a size written without a minus sign is not negative |
| Tables.Columns | docktool.py:90-94 | a line always has at least one cell |
| Tables.RenderEnds | docktool.py:90-94 | a row laid out from non-empty cells starts with its first cell's first character and ends with its last cell's last character |
| Tables.CollapseAfterCell | docktool.py:93 | a cell followed by a gap of two or more whitespace characters and more text becomes the cell, a tab and the rest |
| Tables.CollapseRendered | docktool.py:93 | cells laid out with any gaps of two or more whitespace characters become cells separated by single tabs |
| Tables.ColumnsOfRenderedRow | docktool.py:90-94 | cells that are non-empty, have no whitespace at either end, no tab and no two adjacent whitespace characters (single spaces inside are allowed), laid out with any gaps of two or more whitespace characters and padded with any whitespace on either side, are read back exactly |
| Tables.RowSizes | docktool.py:95-96 | each outcome in order: a missing first cell is an index error; a failing first cell fails before the second is looked at; then a missing second cell is an index error; then a failing second cell fails; two readable cells succeed, with their sizes |
| Tables.IsSkipped | docktool.py:91 | the skip test of `stat_cache`; stated through `Tables.CacheRow` and `Tables.DataLines` |
| Tables.CacheRow | docktool.py:90-92 | a line is skipped exactly when it is empty after stripping or starts with `TYPE` |
| Tables.CacheRowsAppend | docktool.py:89 | the rows of two consecutive parts of the output are the rows of each part, in order |
| Tables.CacheTotals | docktool.py:82-99 | what `stat_cache` returns; stated by `Tables.StatCache`, `Tables.CacheTotalsSnoc`, `Tables.CacheTotalsAppend`, `Tables.CacheTotalsSticky`, `Tables.CacheTotalsOfDataLines`, `Tables.CacheTotalsOfRow` and `Tables.ShortRowFails` |
| Tables.AccumulateRow | docktool.py:95-96 | a row read as `(c, d)` adds `c` to the total and `d` to the reclaimable sum |
| Tables.SumRowsSnoc | docktool.py:89-96 | the sum of rows grows one row at a time |
| Tables.CacheTotalsSnoc | docktool.py:89-96 | the totals of the first n+1 lines are those of the first n plus line n |
| Tables.CacheTotalsStep | docktool.py:95-96 | one data row adds its sizes to the running sums |
| Tables.CacheTotalsLast | docktool.py:89-96 | the totals of the lines are those of all but the last, plus the last |
| Tables.SumRowsSticky | docktool.py:95-96 | once a row has failed, later rows change nothing |
| Tables.CacheTotalsSticky | docktool.py:95-96 | the first failing line decides the result of the whole table |
| Tables.ReadCacheRow | docktool.py:94-96 | reads cells 3 and 4 with the source's error order |
| Tables.StatCache | docktool.py:82-99 | the loop returns the totals of the table, or the first failure |
| Tables.DataLines | docktool.py:90-92 | filtering keeps no skipped line |
| Tables.CacheTotalsOfDataLines | docktool.py:90-92 | dropping the skipped lines does not change the totals |
| Tables.SumRowsAppend | docktool.py:89-96 | the sum over two runs of rows combines the two sums |
| Tables.CacheTotalsAppend | docktool.py:89-96 | the totals of two tables read in sequence combine: sums add, and the first failure wins |
| Tables.CacheTotalsOfRow | docktool.py:93-96 | a one-line table is that line's cells 3 and 4 |
| Tables.ShortRowFails | docktool.py:95-96 | a data line with fewer than five cells makes the whole call fail |
| Tables.DiskLookup | docktool.py:102-118 | what `monitor_disk_storage` returns; stated by `Tables.MonitorDiskStorage`, `Tables.DiskLookupFirstMatch`, `Tables.DiskLookupNotFound` and `Tables.DiskLookupIgnoresLater` |
| Tables.MonitorDiskStorage | docktool.py:102-118 | the loop returns the lookup of the disk: the sizes of the first matching line, or `(0, 0)` |
| Tables.DiskLookupSkip | docktool.py:113 | a line whose first cell is not the disk passes the lookup on |
| Tables.DiskLookupHit | docktool.py:113-115 | a line whose first cell is the disk ends the lookup with its cells 1 and 2 |
| Tables.DiskLookupFrom | docktool.py:109-115 | read from any line on, the first line naming the disk decides the result |
| Tables.DiskLookupNoneFrom | docktool.py:105-118 | read from any line on, with no line naming the disk, the result is `(0, 0)` |
| Tables.DiskLookupFirstMatch | docktool.py:113-115 | the first line whose first cell is the disk decides, through its cells 1 and 2 |
| Tables.DiskLookupNotFound | docktool.py:105-106 | with no matching line the sizes are `(0, 0)` |
| Tables.DiskLookupIgnoresLaterFrom | docktool.py:113-115 | read from any line on, lines after a line naming the disk do not change the result |
| Tables.DiskLookupIgnoresLater | docktool.py:115 | lines after a match are never read |
| Cleanup.ChooseBranch | docktool.py:159-171 | warning iff usage ≥ 95% of the size; emergency iff the size is negative and usage lies in [99.9%, 95%) of it; otherwise quiet |
| Cleanup.ChooseBranchIntended | docktool.py:159-171 | emergency iff usage ≥ 99.9% of the size; warning iff usage lies in [95%, 99.9%) of it |
| Cleanup.ChooseBranchVersusIntended | docktool.py:159-163 | for a non-negative size the written order never chooses emergency, and differs from the intended one exactly from 99.9% on, where it warns |
| Cleanup.EmergencyMissed | docktool.py:159-163 | 99.95 GiB used of 100 GiB: the code warns, the intended order takes emergency measures |
| Cleanup.CycleBranch | docktool.py:157-171 | the branch one cycle takes, or the failure that ends it; stated by `Cleanup.CheckCycle`, `Cleanup.MissingDiskWarns` and `Cleanup.NoEmergency` |
| Cleanup.CheckCycle | docktool.py:157-171 | `stat_cache` runs first and its failure ends the cycle; then the disk lookup; then the branch |
| Cleanup.MissingDiskWarns | docktool.py:158-159 | when the disk is not in `df -h`, the cycle warns |
| Cleanup.DiskLookupNonNegativeFrom | docktool.py:109-115 | read from any line on, when the size cells (1 and 2) of the lines naming the disk have no minus sign, the sizes found are not negative |
| Cleanup.DiskLookupNonNegative | docktool.py:113-114 | when the size cells of the lines naming the disk have no minus sign, the sizes read are not negative |
| Cleanup.NoEmergency | docktool.py:157-169 | when the size cells of the lines of `df -h` naming the disk have no minus sign, no cycle takes the emergency branch |

## Left out

- The shell commands at docktool.py:85, 108, 156 and 164 (`os.popen`). Their output is a parameter, and the prune itself is not modelled.
- `send_mail` (docktool.py:121-144), which is SMTP I/O.
- The endless loop of `clear_cache`, its counter and `time.sleep` (docktool.py:150-155, 172). Only the check of one cycle is modelled; `convert_time(args.sleep_time)` (line 149) is modelled as `Units.ConvertTime`.
- The notifications of the warning and emergency branches (docktool.py:160-162, 167-169). These call `stat_cache` with keyword arguments it does not take, which raises a `TypeError`. When the disk size is 0, formatting the percentage also divides by zero. The model stops at the choice of branch.
- Logging (docktool.py:97, 116, 154-155), argument parsing and start-up (docktool.py:177-221).
- Numerals.ParseNumber: models `float()` only on `[sign] digits [. digits]`. `float()` also accepts surrounding whitespace, exponents, underscores, `inf` and `nan`, so such inputs are accepted in Python and refused here. Values are exact reals, without IEEE rounding.
- Text.IsSpace: ASCII whitespace only (space and codes 9-13). Python's `strip()` and `\s` also cover codes 28-31 and Unicode spaces.
- Text.Lower: lowers ASCII capitals only; Python also lower-cases non-ASCII letters.
- Tables.StatCache: reads both cells of a row before adding either to the sums. The source adds cell 3 to `csum` before reading cell 4, but a failure in cell 4 raises, so the partial sum is never returned.
- Cleanup.CheckCycle: uses the branch choice as written, not the corrected one, because the model follows the code. The corrected choice is `Cleanup.ChooseBranchIntended`.

## Findings

| source | as written | input that shows it | evidently intended | confidence | as-written member | corrected member |
|---|---|---|---|---|---|---|
| docktool.py:35 | a day is multiplied by 216000 seconds (60 hours) | `convert_time("1d")` gives 216000.0 | 86400 seconds per day | high; not executed | Units.ConvertTimeDayIsSixtyHours | Units.ConvertTimeIntendedOfNumeral |
| docktool.py:159-163 | the 95% warning test comes before the 99.9% emergency test, so emergency needs a negative disk size | disk 100 GiB, 99.95 GiB used: warning | emergency from 99.9%, warning from 95% to 99.9% | high; not executed | Cleanup.EmergencyMissed | Cleanup.ChooseBranchIntended |
