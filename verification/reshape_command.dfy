/** The `reshape` command: argument checks, the source scan's abort, the
    dry-run switch, and the choice between the serial and the parallel
    engine.

    The file system is reduced to what the command asks of it: whether the
    source path is a directory, and what sits at the target path. The
    scanned source set is given as a store of `n` k-points over `pSrc`
    pools. */
module ReshapeCommand {
  import opened Wrappers
  import opened Mapper
  import opened Storage
  import opened SerialCopy
  import opened Worker
  import opened Aggregator
  import ScanListing

  /** What is found at the target path. */
  datatype TargetPath =
    | Absent
    | Directory(entries: nat)
    | RegularFile

  /** The parsed command line, with the directory tests already answered.
      `maxProcesses` is `--max-processes`, any integer argparse accepts. */
  datatype ReshapeArgs = ReshapeArgs(fromdirIsDir: bool, pools: int, todir: TargetPath, dryrun: bool, mp: bool, maxProcesses: int)

  /** The default of `--max-processes`. */
  const DefaultMaxProcesses: int := 50

  /** Why the command stops early. Each of these ends the process with exit
      status 1: three are `sys.exit(1)` calls, and the other two are
      exceptions nobody catches, which Python reports with status 1 as well:
      listing a target path that is a regular file, and starting a worker
      pool of fewer than one process (`multiprocessing.Pool` raises
      `ValueError`). */
  datatype Failure =
    | SourceNotADirectory
    | PoolsNotPositive
    | TargetNotEmpty
    | TargetNotListable
    | NoSourcePools
    | ProcessCountNotPositive

  /** Starting the parallel engine's worker pool: `multiprocessing.Pool`
      refuses a process count below one. */
  function StartPool(maxProcesses: int): (r: Result<nat, Failure>)
    ensures r.Ok? <==> maxProcesses >= 1
    ensures r.Ok? ==> r.value == maxProcesses
    ensures r.Err? ==> r.error == ProcessCountNotPositive
  {
    if maxProcesses < 1 then Err(ProcessCountNotPositive) else Ok(maxProcesses)
  }

  /** `check_args`: the source must be a directory, the pool count positive,
      and the target either absent or an empty directory. The tests run in
      that order, so the first one that fails names the failure. */
  function CheckArgs(args: ReshapeArgs): (r: Option<Failure>)
    ensures r.None? <==> args.fromdirIsDir && args.pools >= 1 && (args.todir.Absent? || args.todir == Directory(0))
    ensures !args.fromdirIsDir ==> r == Some(SourceNotADirectory)
    ensures r == Some(PoolsNotPositive) <==> args.fromdirIsDir && args.pools < 1
    ensures r == Some(TargetNotEmpty) <==> args.fromdirIsDir && args.pools >= 1 && args.todir.Directory? && args.todir.entries > 0
    ensures r == Some(TargetNotListable) <==> args.fromdirIsDir && args.pools >= 1 && args.todir.RegularFile?
  {
    if !args.fromdirIsDir then Some(SourceNotADirectory)
    else if args.pools < 1 then Some(PoolsNotPositive)
    else match args.todir
      case Absent => None
      case Directory(entries) => if entries > 0 then Some(TargetNotEmpty) else None
      case RegularFile => Some(TargetNotListable)
  }

  /** The order in which the coordinator receives the workers' messages:
      any interleaving of the message lists of workers `0 .. pools-1`. */
  ghost predicate ArrivalOrder(q: seq<Message>, src: Store, n: nat, pSrc: nat, pools: nat, flush: nat -> bool)
    requires pSrc >= 1 && pools >= 1 && Complete(src, n, pSrc)
  {
    && (forall j | 0 <= j < |q| :: q[j].pool < pools)
    && (forall p | 0 <= p < pools :: Project(q, p) == GenerateFile(src, n, pSrc, p, pools, flush).messages)
  }

  /** `mp_write_new_target_files`: one worker per target pool, each writing
      its own file, while the coordinator drains the queue. Whatever the
      interleaving and the flush choices, the files written form the
      reshaped set and the progress total reaches the number of k-points. */
  method MpWriteNewTargetFiles(src: Store, n: nat, pSrc: nat, pools: nat, flush: nat -> bool, q: seq<Message>)
    returns (tgt: Store, progress: nat)
    requires pSrc >= 1 && pools >= 1 && Complete(src, n, pSrc)
    requires ArrivalOrder(q, src, n, pSrc, pools, flush)
    ensures tgt == Reshaped(src, n, pSrc, pools)
    ensures progress == n
  {
    var files := seq(pools, p requires 0 <= p < pools => GenerateFile(src, n, pSrc, p, pools, flush).file);
    ParallelMatchesReshaped(src, n, pSrc, pools, flush, files);
    tgt := Merge(files);
    ProgressTotal(q, src, n, pSrc, pools, flush);
    var consumed;
    progress, consumed := MonitorWorkers(q, pools);
  }

  /** The scan `scan_source_directory` asks for, from `--mp` and
      `--max-processes`. */
  function ScanModeOf(args: ReshapeArgs): (r: ScanListing.ScanMode)
    ensures r.Parallel? <==> args.mp
    ensures r.Parallel? ==> r.maxProcesses == args.maxProcesses
  {
    ScanListing.ScanModeOf(args.mp, args.maxProcesses)
  }

  /** `main` of the reshape command, where `scan_source_directory` found
      `pSrc` pool files holding `n` k-points, and `scanOk` says whether
      reading them in a given mode returns. Returns the exit status and
      the target set written, if any. It stops with status 1, writing
      nothing, when the arguments are rejected, the source holds no pool
      file, or the scan raises; the scan runs before the dry-run test, so
      `--mp` hands it `--max-processes` even on a dry run. A dry run then
      writes nothing and succeeds; the parallel engine stops with status 1,
      writing nothing, when `--max-processes` is below one; otherwise
      either engine writes the reshaped set. */
  method Run(args: ReshapeArgs, src: Store, n: nat, pSrc: nat, scanOk: ScanListing.ScanMode -> bool, flush: nat -> bool, q: seq<Message>)
    returns (status: nat, target: Option<Store>)
    requires pSrc >= 1 ==> Complete(src, n, pSrc)
    requires args.mp && args.pools >= 1 && pSrc >= 1 ==> ArrivalOrder(q, src, n, pSrc, args.pools as nat, flush)
    ensures status == 0 <==> CheckArgs(args).None? && pSrc >= 1 && scanOk(ScanModeOf(args)) && (args.dryrun || !args.mp || args.maxProcesses >= 1)
    ensures status == 0 || status == 1
    ensures target.Some? <==> status == 0 && !args.dryrun
    ensures target.Some? ==> args.pools >= 1 && pSrc >= 1 && target.value == Reshaped(src, n, pSrc, args.pools as nat)
  {
    if CheckArgs(args).Some? {
      return 1, None;
    }
    if pSrc == 0 {
      return 1, None;
    }
    if !scanOk(ScanModeOf(args)) {
      return 1, None;
    }
    if args.dryrun {
      return 0, None;
    }
    var tgt;
    if args.mp {
      if StartPool(args.maxProcesses).Err? {
        return 1, None;
      }
      var progress;
      tgt, progress := MpWriteNewTargetFiles(src, n, pSrc, args.pools as nat, flush, q);
    } else {
      tgt := WriteNewTargetFiles(src, n, pSrc, args.pools as nat);
    }
    return 0, Some(tgt);
  }
}
