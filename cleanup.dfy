/** The check at the end of every cycle of clear_cache: after pruning, the
    cache and the disk are measured and one of three branches is taken. Only
    the choice of branch is modelled; what each branch then does (another
    prune, a notification) is not. */
module Cleanup {
  import opened Outcomes
  import opened Units
  import opened Tables

  /** The branches of the check: warn that the disk is almost full, take
      the emergency measures, or do nothing until the next cycle. */
  datatype Branch = Warning | Emergency | Quiet

  /** The share of the disk in use at which clear_cache warns. */
  const WarningShare: real := 0.95

  /** The share of the disk in use at which clear_cache takes emergency measures. */
  const EmergencyShare: real := 0.999

  /** The branch as written: the warning test comes first, and the emergency
      test is reached only when the warning test failed. Since 0.999 exceeds
      0.95, that happens only for a negative disk size. */
  function ChooseBranch(dsize: real, usize: real): (b: Branch)
    ensures b == Warning <==> usize >= dsize * WarningShare
    ensures b == Emergency <==> dsize < 0.0 && dsize * EmergencyShare <= usize < dsize * WarningShare
    ensures b == Quiet <==> usize < dsize * WarningShare && usize < dsize * EmergencyShare
  {
    if usize >= dsize * WarningShare then Warning
    else if usize >= dsize * EmergencyShare then Emergency
    else Quiet
  }

  /** The branch with the stricter test first, as the two thresholds mean
      it: emergency from 99.9% in use, a warning from 95%. */
  function ChooseBranchIntended(dsize: real, usize: real): (b: Branch)
    ensures b == Emergency <==> usize >= dsize * EmergencyShare
    ensures b == Warning <==> dsize * WarningShare <= usize < dsize * EmergencyShare
  {
    if usize >= dsize * EmergencyShare then Emergency
    else if usize >= dsize * WarningShare then Warning
    else Quiet
  }

  /** For a disk size that is not negative the two orders agree except from
      99.9% in use on, where the code as written warns instead of taking
      the emergency measures. */
  lemma ChooseBranchVersusIntended(dsize: real, usize: real)
    requires dsize >= 0.0
    ensures ChooseBranch(dsize, usize) != Emergency
    ensures ChooseBranch(dsize, usize) != ChooseBranchIntended(dsize, usize) <==> usize >= dsize * EmergencyShare
    ensures usize >= dsize * EmergencyShare ==> ChooseBranch(dsize, usize) == Warning
  {
  }

  /** A disk of 100 GiB with 99.95 GiB in use: the code as written warns,
      the intended order takes the emergency measures. */
  lemma EmergencyMissed()
    ensures ChooseBranch(100.0, 99.95) == Warning
    ensures ChooseBranchIntended(100.0, 99.95) == Emergency
  {
  }

  /** The branch one cycle of clear_cache reaches: stat_cache runs first and
      its failure stops the cycle, then monitor_disk_storage, then the choice. */
  function CycleBranch(system: seq<string>, df: seq<string>, dname: string): Result<Branch> {
    match CacheTotals(system)
    case Err(f) => Err(f)
    case Ok(_) =>
      match DiskLookup(df, dname)
      case Err(f) => Err(f)
      case Ok(sizes) => Ok(ChooseBranch(sizes.0, sizes.1))
  }

  /** One cycle's measurements and check, given the outputs of
      `docker system df` and `df -h`. */
  method CheckCycle(system: seq<string>, df: seq<string>, dname: string) returns (r: Result<Branch>)
    ensures r == CycleBranch(system, df, dname)
  {
    var cache := StatCache(system);
    if cache.Err? {
      return Err(cache.failure);
    }
    var disk := MonitorDiskStorage(df, dname);
    if disk.Err? {
      return Err(disk.failure);
    }
    var (dsize, usize) := disk.value;
    return Ok(ChooseBranch(dsize, usize));
  }

  /** When no line of `df -h` names the disk, the sizes are the sentinel
      (0, 0), and 0 >= 0 * 0.95: the cycle warns. */
  lemma MissingDiskWarns(system: seq<string>, df: seq<string>, dname: string)
    requires CacheTotals(system).Ok?
    requires forall i :: 0 <= i < |df| ==> Columns(df[i])[0] != dname
    ensures CycleBranch(system, df, dname) == Ok(Warning)
  {
    DiskLookupNotFound(df, dname);
  }

  /** Every line of the table that names the device carries no minus sign
      in its size cells (columns 1 and 2), as in the sizes `df -h` writes. */
  predicate UnsignedDeviceRows(lines: seq<string>, dname: string) {
    forall k :: 0 <= k < |lines| && Columns(lines[k])[0] == dname ==>
      (|Columns(lines[k])| > 1 ==> '-' !in Columns(lines[k])[1]) &&
      (|Columns(lines[k])| > 2 ==> '-' !in Columns(lines[k])[2])
  }

  /** Read from line `j` on, the sizes found for the device are not negative. */
  lemma {:induction false} DiskLookupNonNegativeFrom(lines: seq<string>, dname: string, j: nat)
    requires j <= |lines| && UnsignedDeviceRows(lines, dname)
    requires DiskLookup(lines[j..], dname).Ok?
    ensures DiskLookup(lines[j..], dname).value.0 >= 0.0
    ensures DiskLookup(lines[j..], dname).value.1 >= 0.0
    decreases |lines| - j
  {
    var s := lines[j..];
    if j < |lines| {
      assert s[0] == lines[j] && s[1..] == lines[j + 1..];
      var cols := Columns(lines[j]);
      if cols[0] == dname {
        DiskLookupHit(s, dname);
        assert |cols| > 2;
        Size2GbNonNegative(cols[1]);
        Size2GbNonNegative(cols[2]);
      } else {
        DiskLookupSkip(s, dname);
        DiskLookupNonNegativeFrom(lines, dname, j + 1);
      }
    }
  }

  /** The sizes monitor_disk_storage reads for a device whose lines carry
      unsigned sizes are not negative. */
  lemma DiskLookupNonNegative(lines: seq<string>, dname: string)
    requires UnsignedDeviceRows(lines, dname) && DiskLookup(lines, dname).Ok?
    ensures DiskLookup(lines, dname).value.0 >= 0.0 && DiskLookup(lines, dname).value.1 >= 0.0
  {
    assert lines[0..] == lines;
    DiskLookupNonNegativeFrom(lines, dname, 0);
  }

  /** When the lines of `df -h` naming the device carry unsigned sizes, no
      cycle of clear_cache ever takes the emergency branch. */
  lemma NoEmergency(system: seq<string>, df: seq<string>, dname: string)
    requires UnsignedDeviceRows(df, dname)
    ensures CycleBranch(system, df, dname) != Ok(Emergency)
  {
    if CacheTotals(system).Ok? && DiskLookup(df, dname).Ok? {
      DiskLookupNonNegative(df, dname);
      var sizes := DiskLookup(df, dname).value;
      ChooseBranchVersusIntended(sizes.0, sizes.1);
    }
  }
}
