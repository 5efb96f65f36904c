/** The per-file listing printed while a source directory is scanned
    (`file_scan_progress`, shared by the `analyze` and `reshape` commands),
    and the `analyze` command's own aborts.

    The listing line is ` * <padded name>nk_loc = ...`; only the padded
    name is modelled, since the rest is formatted by Python's f-strings
    from values the pool files report. */
module ScanListing {
  import opened Wrappers

  /** `' ' * k`. */
  function Spaces(k: nat): (r: string)
    ensures |r| == k
    ensures forall j | 0 <= j < k :: r[j] == ' '
  {
    if k == 0 then [] else Spaces(k - 1) + [' ']
  }

  /** The padding of `file_scan_progress`: the name, a colon and two
      spaces, then spaces up to `maxLen + 3` characters when shorter. */
  function PadFileName(name: string, maxLen: nat): (r: string)
    ensures |r| >= |name| + 3 && r[..|name| + 3] == name + ":  "
    ensures forall j | |name| + 3 <= j < |r| :: r[j] == ' '
    ensures |r| == if |name| < maxLen then maxLen + 3 else |name| + 3
  {
    var out := name + ":  ";
    if |out| < maxLen + 3 then out + Spaces(maxLen + 3 - |out|) else out
  }

  /** The padded name is the only string that starts with the name and
      `":  "`, continues with spaces only, and has the column width: the
      contract of `PadFileName` pins its result down. */
  lemma PadFileNameUnique(name: string, maxLen: nat, s: string)
    requires |s| >= |name| + 3 && s[..|name| + 3] == name + ":  "
    requires forall j | |name| + 3 <= j < |s| :: s[j] == ' '
    requires |s| == if |name| < maxLen then maxLen + 3 else |name| + 3
    ensures s == PadFileName(name, maxLen)
  {
    var r := PadFileName(name, maxLen);
    assert |r| == |s|;
    forall j | 0 <= j < |s| ensures s[j] == r[j] {
      if j < |name| + 3 {
        assert s[j] == s[..|name| + 3][j] && r[j] == r[..|name| + 3][j];
      }
    }
  }

  /** A name that already fills the column is left as `name + ":  "`. */
  lemma PadLongName(name: string, maxLen: nat)
    requires |name| >= maxLen
    ensures PadFileName(name, maxLen) == name + ":  "
  {
    var r := PadFileName(name, maxLen);
    assert r == r[..|name| + 3];
  }

  /** `max(len(f.filename) for f in ...)` over a non-empty listing. */
  function MaxLength(names: seq<string>): (m: nat)
    requires |names| >= 1
    ensures forall k | 0 <= k < |names| :: |names[k]| <= m
    ensures exists k | 0 <= k < |names| :: |names[k]| == m
  {
    if |names| == 1 then |names[0]|
    else
      var rest := MaxLength(names[1..]);
      assert forall k | 1 <= k < |names| :: names[k] == names[1..][k - 1];
      if |names[0]| >= rest then |names[0]|
      else
        var k :| 0 <= k < |names[1..]| && |names[1..][k]| == rest;
        assert names[k + 1] == names[1..][k];
        rest
  }

  /** Why the scan stops: the source is not a directory, it holds no pool
      file, or reading the pool files raised. */
  datatype ScanFailure = SourceNotADirectory | NoPoolFiles | ScanRaised

  /** How the pool files are read: `scan_files` in this process, or, under
      `--mp`, `scan_files_mp` handed the `--max-processes` count. */
  datatype ScanMode = Serial | Parallel(maxProcesses: int)

  /** The scan a command asks for, from its `--mp` and `--max-processes`
      options. */
  function ScanModeOf(mp: bool, maxProcesses: int): (r: ScanMode)
    ensures r.Parallel? <==> mp
    ensures r.Parallel? ==> r.maxProcesses == maxProcesses
  {
    if mp then Parallel(maxProcesses) else Serial
  }

  /** The listing of the scanned files, one padded name per file, in the
      order the pool files are enumerated. With no pool file the scan stops
      before the maximum is taken. */
  function ListPoolFiles(names: seq<string>): (r: Result<seq<string>, ScanFailure>)
    ensures r.Err? <==> |names| == 0
    ensures r.Err? ==> r.error == NoPoolFiles
    ensures r.Ok? ==> |r.value| == |names|
    ensures r.Ok? ==> forall k | 0 <= k < |names| :: r.value[k] == PadFileName(names[k], MaxLength(names))
  {
    if |names| == 0 then Err(NoPoolFiles)
    else
      var m := MaxLength(names);
      Ok(seq(|names|, k requires 0 <= k < |names| => PadFileName(names[k], m)))
  }

  /** The columns line up: every listed name has the same width, three more
      than the longest file name, and starts with its own file name. */
  lemma ListingAligned(names: seq<string>)
    requires |names| >= 1
    ensures ListPoolFiles(names).Ok?
    ensures forall k | 0 <= k < |names| ::
      |ListPoolFiles(names).value[k]| == MaxLength(names) + 3
      && ListPoolFiles(names).value[k][..|names[k]|] == names[k]
  {
    var m := MaxLength(names);
    var lines := ListPoolFiles(names).value;
    forall k | 0 <= k < |names|
      ensures |lines[k]| == m + 3 && lines[k][..|names[k]|] == names[k]
    {
      assert |names[k]| <= m;
      assert lines[k][..|names[k]|] == lines[k][..|names[k]| + 3][..|names[k]|];
    }
  }

  /** The options of the `analyze` command that decide its outcome. */
  datatype AnalyzeArgs = AnalyzeArgs(fromdirIsDir: bool, mp: bool, maxProcesses: int)

  /** The `analyze` command: `check_args` rejects a source path that is not
      a directory, then the scan stops when there is no pool file, and
      otherwise reads the files in the mode the options ask for; whether
      that read returns is the oracle `scanOk`. Each stop ends the process
      with status 1. */
  function Analyze(args: AnalyzeArgs, names: seq<string>, scanOk: ScanMode -> bool): (r: Result<seq<string>, ScanFailure>)
    ensures r.Err? <==> !args.fromdirIsDir || |names| == 0 || !scanOk(ScanModeOf(args.mp, args.maxProcesses))
    ensures !args.fromdirIsDir ==> r == Err(SourceNotADirectory)
    ensures r == Err(NoPoolFiles) <==> args.fromdirIsDir && |names| == 0
    ensures r == Err(ScanRaised) <==> args.fromdirIsDir && |names| >= 1 && !scanOk(ScanModeOf(args.mp, args.maxProcesses))
    ensures r.Ok? ==> r == ListPoolFiles(names)
  {
    if !args.fromdirIsDir then Err(SourceNotADirectory)
    else if |names| == 0 then Err(NoPoolFiles)
    else if !scanOk(ScanModeOf(args.mp, args.maxProcesses)) then Err(ScanRaised)
    else ListPoolFiles(names)
  }

  /** Exit status of `analyze`. */
  function AnalyzeStatus(args: AnalyzeArgs, names: seq<string>, scanOk: ScanMode -> bool): (status: nat)
    ensures status == 0 <==> args.fromdirIsDir && |names| >= 1 && scanOk(ScanModeOf(args.mp, args.maxProcesses))
    ensures status == 0 || status == 1
  {
    if Analyze(args, names, scanOk).Err? then 1 else 0
  }

  /** The process count reaches the scan only under `--mp`: a serial scan
      ignores `--max-processes`, so two runs differing only in it end alike. */
  lemma SerialScanIgnoresProcessCount(fromdirIsDir: bool, names: seq<string>, scanOk: ScanMode -> bool, m1: int, m2: int)
    ensures AnalyzeStatus(AnalyzeArgs(fromdirIsDir, false, m1), names, scanOk)
         == AnalyzeStatus(AnalyzeArgs(fromdirIsDir, false, m2), names, scanOk)
  {
  }
}
