# pertool, modelled in Dafny

pertool is a command-line helper for Perturbo runs. Perturbo keeps its
electron-phonon data in `tmp/` as one HDF5 "pool file" per MPI pool,
named like `prefix_eph_g2_p3.h5`. This project models the logic at the
heart of four of pertool's commands, and proves properties about it:

- **`reshape`** rewrites a set of pool files for a different number of
  pools. The global k-point `i` is stored in pool `i % P` at local
  position `i / P`. There are two copy engines:
  - a serial loop;
  - a parallel one, with one worker per target file and a coordinator
    that adds up the progress messages the workers put on a shared queue.

  The model proves the following:
  - the index mapping is a bijection;
  - the workers' stripes `range(p, N, P)` partition the k-points;
  - the serial loop builds exactly the reshaped set;
  - whatever the progress-report timing and the queue interleaving, the
    workers' files together are the same set, and the coordinator stops
    exactly when every worker has finished, with a total of `N`.
- **`generate`** generates run directories from a template directory. The
  model covers:
  - the parsers of `--set NAME=VALUE` and `--foreach NAME=[V1,...]`;
  - the check that no variable is given twice;
  - the Cartesian-product expansion of the `--foreach` variables;
  - how the variables are layered (input, then config, then step);
  - the order of the generation steps;
  - the copy-or-link rule for the remaining files;
  - which configuration file is loaded.
- **`yaml2perf`** turns YAML run reports into one table row each. The
  model covers the nested lookup and the row and header construction.
- **`analyze`** and the scan in `reshape` list the pool files with their
  names padded to one column width. The model covers that padding, the
  two aborts before it, and the stop when reading the files raises. The
  read is serial, or parallel with `--max-processes` under `--mp`.

The modules follow the source:

| module | what it models |
|---|---|
| `Mapper` | the k-point mapping and the stripes |
| `Storage` | pool files as maps from 1-based (pool, local) slots to the two record fields, and the reference `Reshaped` set |
| `SerialCopy` | the serial copy loop |
| `Worker` | one worker of the parallel engine |
| `Aggregator` | the coordinator's progress loop |
| `ReshapeCommand` | the argument check, the dry-run switch and the choice of engine |
| `PoolFileNames` | the pool-file name pattern |
| `ScanListing` | the column padding, and the aborts of `analyze` |
| `Strings` | `strip`, `partition`, `split` and `join` |
| `GenerateArgs` | the two argument parsers and the duplicate-name check |
| `Expansion` | the `--foreach` expansion |
| `GeneratePlan` | the generation of one directory, and loading the configuration |
| `Yaml2Perf` | the lookup and the table |
| `Findings` | the code as written, where it departs from its evident intent |

Some things are parameters rather than modelled behaviour:

- File-system state is passed in as data: whether a path is a directory,
  what sits at the target path, the listing, and file sizes.
- Parsed configuration and YAML documents are inputs.
- The wall-clock test that decides when a worker reports progress is an
  arbitrary oracle `flush`.
- The order in which the queue delivers messages is an arbitrary
  interleaving of the workers' message lists.

## Model

| member | source | states |
|---|---|---|
| Mapper.KlocToPool | pertool/reshape.py:123-124 | the pool lies below the pool count, and `local * P + pool` gives back the global index (the round-robin rule assumed for the mapping) |
| Mapper.MapperBijection | pertool/reshape.py:123-130 | index `i` maps to a pair iff the pair's pool is below `P` and the pair stands for `i`, so the mapping is a bijection onto the in-range pairs |
| Mapper.KlocToPoolInjective | pertool/reshape.py:123-124 | two indices that map to the same pair are equal, a consequence of the bijection |
| Mapper.Stripe | pertool/reshape.py:147 | the `k`-th index of `range(start, n, step)` is `start + k * step`, and every index is below `n` |
| Mapper.StripeBound | pertool/reshape.py:147 | position `l` lies inside the stripe iff `start + l * step < n` |
| Mapper.StripeMapsToPool | pertool/reshape.py:147-160 | the `k`-th index of worker `p`'s stripe maps to pool `p` (the assert holds) at local `k`, the value the file's `nk_loc` has reached |
| Mapper.StripeMembership | pertool/reshape.py:147-153 | an index lies in worker `p`'s stripe iff it is below `N` and maps to pool `p` |
| Mapper.StripesPartition | pertool/reshape.py:193-200 | every index below `N` lies in exactly one of the stripes of workers `0 .. P-1` |
| Mapper.StripeLengthsSum | pertool/reshape.py:193-200 | the stripe lengths of the `P` workers add up to `N` |
| Mapper.StripeBalance | pertool/reshape.py:147 | a later pool's stripe is never longer than an earlier one's, and at most one shorter |
| Storage.SlotOf | pertool/reshape.py:126-130 | the 1-based slot of a k-point lies in files `1 .. P`, at local index 1 or more |
| Storage.SlotRoundTrip | pertool/reshape.py:126-130 | reading a slot back as a global index inverts `SlotOf`, and the other way round on files `1 .. P` |
| Storage.InSlotsOf | pertool/reshape.py:122-130 | a slot is written by the loop iff it lies in files `1 .. P` and stands for a k-point below `N` |
| Storage.SlotsOfSnoc | pertool/reshape.py:122-130 | one more k-point adds exactly its own slot, which no earlier k-point used |
| Storage.Moved | pertool/reshape.py:122-130 | a moved record field holds exactly the target slots of k-points `0 .. N-1`, each with that k-point's source value |
| Storage.MovedRoundTrip | pertool/reshape.py:122-130 | moving a field to `P_tgt` pools and back to `P_src` restores it |
| Storage.Reshaped | pertool/reshape.py:122-130 | the reference result: both fields of every k-point moved from its source slot to its target slot, and no other slot present |
| Storage.ReshapeRoundTrip | pertool/reshape.py:122-130 | reshaping to `P_tgt` pools and back to `P_src` gives back the source set |
| Storage.MergePoolFiles | pertool/reshape.py:193-200 | putting files `1 .. k` of a set back together, one per writer, gives exactly the records of those files |
| Storage.ReshapedIsMergeOfFiles | pertool/reshape.py:193-200 | the reshaped set is the merge of its `P_tgt` pool files |
| SerialCopy.WriteNewTargetFiles | pertool/reshape.py:110-135 | the serial engine writes exactly the target slots of k-points `0 .. N-1`, each holding both fields of the same k-point in the source; the result equals `Reshaped`, and the source is never written |
| SerialCopy.ReshapedNothing | pertool/reshape.py:117-118 | the freshly created target files hold no record |
| SerialCopy.ReshapedSnoc | pertool/reshape.py:122-130 | one loop pass turns the reshape of the first `i` k-points into that of the first `i + 1`, by setting `eph_g2` and then `bands_index` at k-point `i`'s target slot |
| Worker.CopyRecord | pertool/reshape.py:148-158 | the target pool of the `k`-th stripe index is the worker's own (the assert holds), and the copy changes both fields at slot `(pool + 1, k + 1)` only, to that k-point's source values |
| Worker.FilledContents | pertool/reshape.py:141-160 | after `k` copies, the file holds exactly local slots `1 .. k` of file `pool + 1`, each with the source record of the matching stripe index |
| Worker.FilledUnique | pertool/reshape.py:141-160 | two files that both hold exactly the first `k` records of the stripe are equal |
| Worker.RunStripe | pertool/reshape.py:145-167 | the loop over the rest of the stripe ends with `nk_loc` at the stripe length and the whole stripe copied; every message it sends is a report of its own pool with a count of at least 1; the counts sent plus the final unreported count equal the starting count plus the records copied, whatever the flush choices |
| Worker.GenerateFile | pertool/reshape.py:138-171 | a worker ends with `nk_loc` equal to its stripe length and its file filled along the whole stripe; it sends counts of its own pool closed by exactly one sentinel; its counts sum to the stripe length; the remainder report comes just before the sentinel, and every earlier count is positive |
| Worker.CloseStream | pertool/reshape.py:169-170 | the remainder report and then the sentinel close a well-formed message list, adding the remainder to the total |
| Worker.FilledIsPoolFile | pertool/reshape.py:138-160 | a file that holds the whole stripe's records is pool file `pool + 1` of the reshaped set |
| Worker.WorkerFileIsPoolFile | pertool/reshape.py:138-171 | the file a worker writes is exactly pool file `pool + 1` of the reshaped set: nothing missing, nothing extra, whatever the flush choices |
| Worker.ParallelMatchesReshaped | pertool/reshape.py:193-200 | the files of workers `0 .. P-1` together form the reshaped set, the same result as the serial engine |
| Aggregator.NothingAfterSentinel | pertool/reshape.py:214-217 | after pool `p`'s sentinel, no later message on the queue comes from pool `p` |
| Aggregator.Running | pertool/reshape.py:211 | the set of running pools is empty iff every pool has sent its sentinel |
| Aggregator.PoolsBelow | pertool/reshape.py:193-200 | the initial task table has exactly the pools `0 .. P-1` |
| Aggregator.MonitorWorkers | pertool/reshape.py:210-222 | on any interleaving of complete worker lists, the loop reads the whole queue, stops exactly when the last sentinel arrives and not before, never deletes a pool twice, and ends with `count` equal to the sum of all counts sent |
| Aggregator.MonitorStep | pertool/reshape.py:211-219 | while a pool is still running, `queue.get()` has a message to return, a sentinel comes from a running pool (so `del` succeeds), and taking a message drops its pool if it is a sentinel and otherwise adds its count |
| Aggregator.SumCountsByPool | pertool/reshape.py:210-219 | the counts on the whole queue add up to the sum, over the pools, of each pool's counts: none lost, none counted twice |
| Aggregator.ProgressTotal | pertool/reshape.py:162-170 | when each pool's messages on the queue are its worker's list, the queue is well formed and its counts add up to `N` |
| ReshapeCommand.CheckArgs | pertool/reshape.py:50-67 | the arguments pass iff the source is a directory, the pool count is positive, and the target is absent or an empty directory; the first failing test, in source order, names the failure |
| ReshapeCommand.MpWriteNewTargetFiles | pertool/reshape.py:174-228 | the parallel engine writes the reshaped set, and its progress count ends at `N` |
| ReshapeCommand.StartPool | pertool/reshape.py:187 | the worker pool starts iff `--max-processes` is at least one, and otherwise fails with the process-count error |
| ReshapeCommand.Run | pertool/reshape.py:231-247 | status 0 iff the arguments pass, the scan found pool files, reading them in the mode `--mp`/`--max-processes` choose returned (before the dry-run test, as at reshape.py:99-100), and the run is a dry run, serial, or has `--max-processes` of at least one; otherwise status 1; files are written iff the status is 0 and it is no dry run, and what either engine writes is the reshaped set |
| PoolFileNames.MatchPoolFileName | pertool/reshape.py:18 | a recognised name has valid groups (a non-empty prefix without `_`, one or more digits) and is exactly the name they spell |
| PoolFileNames.MatchSpelled | pertool/reshape.py:18 | every name spelled from valid groups is recognised, with those groups |
| ScanListing.PadFileName | pertool/analyze.py:33-40 | the padded name starts with `name + ":  "` and continues with spaces only; it is `max_filename_len + 3` long when the name is shorter than `max_filename_len`, and unpadded otherwise |
| ScanListing.PadFileNameUnique | pertool/analyze.py:36-38 | exactly one string has that prefix, only spaces after it, and that width: the padded name |
| ScanListing.PadLongName | pertool/analyze.py:37-38 | a name already as long as the column is only given its colon and two spaces |
| ScanListing.MaxLength | pertool/analyze.py:51 | the maximum is the length of one of the names, and no name is longer |
| ScanListing.ListPoolFiles | pertool/analyze.py:42-61 | with no pool file the scan stops; otherwise every file gets its name padded to the longest name's width, in order |
| ScanListing.ListingAligned | pertool/analyze.py:36-51 | every listed name is exactly `max_filename_len + 3` wide and starts with its own file name |
| ScanListing.Analyze | pertool/analyze.py:22-61 | `analyze` stops iff the source is not a directory, holds no pool file, or the scan in the mode `--mp`/`--max-processes` choose raises, naming which in that order; otherwise it lists the padded names |
| ScanListing.AnalyzeStatus | pertool/analyze.py:64-71 | the exit status is 0 iff the source is a directory with pool files whose scan in the chosen mode returns, and 1 otherwise |
| ScanListing.SerialScanIgnoresProcessCount | pertool/analyze.py:56-59 | without `--mp` the process count never reaches the scan, so `--max-processes` does not change the outcome |
| Strings.Strip | pertool/generate.py:259-260 | `strip()` leaves no whitespace at either end, and is empty iff its input is all whitespace |
| Strings.StripIsPadded | pertool/generate.py:259-260 | what `strip()` keeps sits in its input with only whitespace before and after it |
| Strings.StripPadded | pertool/generate.py:273-274 | any whitespace padding of a trimmed string strips back to that string |
| Strings.Partition | pertool/generate.py:255 | `partition` finds a separator iff the input has one; it then splits at the first one, and the input is before + separator + after |
| Strings.PartitionFirst | pertool/generate.py:269 | text with no separator, then the separator, then anything, partitions into exactly those three parts |
| Strings.Split | pertool/generate.py:280 | `split` gives at least one piece, no piece holds the separator, and joining the pieces gives the input back |
| Strings.SplitJoin | pertool/generate.py:280 | `split` undoes `join` when no item holds the separator |
| GenerateArgs.ParseSetVar | pertool/generate.py:250-262 | an argument without `=` is rejected; otherwise the name and the value come back stripped, and the name holds no `=` |
| GenerateArgs.SetVarAtFirstEquals | pertool/generate.py:255-262 | the split is at the first `=`: the name is the stripped text before it, the value the stripped text after it, further `=` included |
| GenerateArgs.SetVarRoundTrip | pertool/generate.py:250-262 | a name and a value written with any whitespace around them and around the `=` parse back to that name and value |
| GenerateArgs.StripEach | pertool/generate.py:283 | each item is stripped, in order |
| GenerateArgs.DropEmpty | pertool/generate.py:284 | every kept item is a non-empty input item, every non-empty input item is kept, and nothing is kept iff every item is empty |
| GenerateArgs.DropEmptyAppend | pertool/generate.py:284 | filtering a concatenation filters each part and keeps them in order |
| GenerateArgs.DropEmptyOne | pertool/generate.py:284 | one item is kept iff it is non-empty; with `DropEmptyAppend` this fixes the order and the repetitions of the result |
| GenerateArgs.ParseValueList | pertool/generate.py:274-289 | empty value text fails (the `IndexError`); text not framed by `[` and `]` is rejected; a framed list whose comma-separated pieces are all whitespace is rejected as holding no values, and only such a list; an accepted list has at least one item, each non-empty, stripped and comma-free |
| GenerateArgs.ListItems | pertool/generate.py:280-284 | every item kept is non-empty, stripped and free of commas, and none is kept iff every piece is whitespace only |
| GenerateArgs.ListItemsOfPiece | pertool/generate.py:280-284 | a piece without a comma gives its stripped text, or nothing when it is whitespace only |
| GenerateArgs.ListItemsAtComma | pertool/generate.py:280-284 | the items of `x,y` are those of `x` followed by those of `y` |
| GenerateArgs.ListItemsOfPieces | pertool/generate.py:280-284 | items written with whitespace around them, with whitespace-only pieces in between, come back in order with their repetitions, and nothing else does |
| GenerateArgs.ValueListOfPieces | pertool/generate.py:274-289 | a bracketed list written that way is accepted with exactly its items, or rejected as holding no values when it has none |
| GenerateArgs.ListItemsOfJoin | pertool/generate.py:280-284 | valid items joined with commas are read back as the same items, in order |
| GenerateArgs.ParseForeach | pertool/generate.py:264-289 | an argument without `=` is rejected; otherwise the name comes back stripped and free of `=` |
| GenerateArgs.ForeachValuesValid | pertool/generate.py:279-289 | an accepted list holds at least one item, each non-empty, stripped and comma-free |
| GenerateArgs.ForeachAtFirstEquals | pertool/generate.py:269-277 | the split is at the first `=`, and the value text fails the indexing exactly when it is all whitespace |
| GenerateArgs.ForeachRoundTrip | pertool/generate.py:264-289 | `name=[v1,...,vk]` with valid items parses back to that name and those items |
| GenerateArgs.DuplicateMessage | pertool/generate.py:371 | the corrected report: the fixed prefix, then the variable's name, then the fixed suffix |
| GenerateArgs.DuplicateMessageNamesVariable | pertool/generate.py:382-384 | two equal corrected reports name the same variable |
| GenerateArgs.Report | pertool/generate.py:366-387 | the corrected report: a repeated name is reported, with its name (as written the text `{name}` is printed, see "## Findings"); a malformed argument is not reported this way |
| GenerateArgs.CollectSets | pertool/generate.py:366-375 | the `--set` loop succeeds iff every argument parses and no name repeats; it then keeps the parsed assignments and a table of each name's value; a reported parse error is one of the arguments' errors |
| GenerateArgs.CollectForeaches | pertool/generate.py:377-387 | the `--foreach` loop succeeds iff every argument parses and no name repeats among the `--set` names and its own; it then keeps the lists in order |
| GenerateArgs.CollectParsed | pertool/generate.py:366-387 | both loops succeed iff every argument parses and all the names are distinct; then the `--set` values are kept by name and the `--foreach` lists in order |
| GenerateArgs.CollectVariables | pertool/generate.py:366-387 | on the raw command line: accepted iff every argument parses and the names are distinct; each `--foreach` entry is its argument's parse |
| GenerateArgs.SetDuplicateRejected | pertool/generate.py:370-372 | two `--set` arguments with one name make the command line rejected |
| GenerateArgs.ForeachDuplicateRejected | pertool/generate.py:382-384 | a `--foreach` name already given makes the command line rejected |
| Expansion.Expand | pertool/generate.py:101-117 | the number of leaf calls is the product of the value-list lengths, and exactly one call is made with no `--foreach` variable |
| Expansion.ExpandEach | pertool/generate.py:112-117 | the loop over one variable's values makes one block of calls per value |
| Expansion.Index | pertool/generate.py:112-117 | a combination's position among the calls lies below the number of calls |
| Expansion.Decode | pertool/generate.py:101-117 | every position stands for a valid combination, and `Index` maps that combination back to the position |
| Expansion.IndexInjective | pertool/generate.py:101-117 | distinct combinations sit at distinct positions, so no combination is visited twice |
| Expansion.IndexLexicographic | pertool/generate.py:112-117 | the first variable is outermost: at the first variable where two combinations differ, the one with the earlier value is visited first |
| Expansion.ExpandEachAt | pertool/generate.py:112-117 | the calls for value `a` of a variable form block `a`, which is the expansion of the remaining variables with that value bound |
| Expansion.ExpandAt | pertool/generate.py:101-117 | the call at a combination's position gets exactly that combination's variables |
| Expansion.ExpandIsProduct | pertool/generate.py:101-117 | each call gets the variables of the combination at its position, so the calls run through the Cartesian product in order |
| Expansion.BindKeys | pertool/generate.py:115-116 | a call's variables are the input's names plus the `--foreach` names |
| Expansion.BindKeepsInput | pertool/generate.py:115-116 | an input variable that is no `--foreach` name keeps its value: the caller's map is copied, not changed |
| Expansion.BindChosen | pertool/generate.py:115-116 | with distinct names, each `--foreach` variable is bound to the value its combination picks |
| GeneratePlan.CopyDecision | pertool/generate.py:229-247 | a file of at least 500,000,000 bytes is linked when large-file linking is on, even a directory; otherwise a directory is linked and anything else copied |
| GeneratePlan.CopyDecisionMonotone | pertool/generate.py:233 | a linked large file stays linked when it grows, and a copied file stays copied when it shrinks |
| GeneratePlan.Layer | pertool/generate.py:126-127 | updating a copy keeps the keys of both maps, with the overriding map's values where it has them |
| GeneratePlan.VariablePrecedence | pertool/generate.py:126-156 | a step variable wins over a configuration variable, which wins over an input variable |
| GeneratePlan.FirstLoaded | pertool/generate.py:314-319 | the loader loop fails iff every attempt fails, and otherwise yields the first attempt that succeeded |
| GeneratePlan.LoadConfig | pertool/generate.py:301-342 | corrected: a configuration file (the user's, or else the template directory's defaults) is loaded as JSON if that parses, and otherwise as YAML; loading fails iff neither parses |
| GeneratePlan.TemplateRenders | pertool/generate.py:168-176 | each template of a step is rendered in order, with the step's variables |
| GeneratePlan.FirstUnnamed | pertool/generate.py:146-150 | finds the first step without a name, if any |
| GeneratePlan.GenerateTargetDirContents | pertool/generate.py:120-187 | the function does what `Planned` says: nothing without steps; the steps before an unnamed one, then the error; otherwise every step's renderings and then the remaining files |
| GeneratePlan.RenderTemplates | pertool/generate.py:164-176 | the inner loop renders every template of the step in order and records its input |
| GeneratePlan.PlaceFiles | pertool/generate.py:181-187 | the final loop places every listed file that is no template input, in listing order, by the copy rule with large-file linking on |
| GeneratePlan.PlacementsSkipInputs | pertool/generate.py:181-185 | no template input is copied or linked |
| GeneratePlan.PlacementsCover | pertool/generate.py:181-187 | every listed file that is no template input is placed, as the copy rule decides |
| GeneratePlan.NoStepsNothingDone | pertool/generate.py:138-141 | a configuration without steps renders nothing and copies nothing |
| GeneratePlan.UnnamedStepStops | pertool/generate.py:146-150 | at the first step without a name the run stops and reports that step's 1-based number, having only rendered the steps before it |
| GeneratePlan.RendersUseStepVars | pertool/generate.py:155-176 | every rendering uses the layered variables of one of the steps |
| Yaml2Perf.Lookup | pertool/yaml2perf.py:38-43 | a found value is never null, unless the path is empty |
| Yaml2Perf.GetValueOfEmptyPath | pertool/yaml2perf.py:38-45 | with no steps the document's own `str()` is shown |
| Yaml2Perf.GetValueStep | pertool/yaml2perf.py:38-45 | one more step: a walk stopped along `path` gives `missing`; otherwise `path` reached a mapping, and `path + [key]` shows `str()` of the key's value, or `missing` when the key is absent or null |
| Yaml2Perf.GetValueOrEmpty | pertool/yaml2perf.py:38 | by default a missing value reads as the empty string |
| Yaml2Perf.LookupAppend | pertool/yaml2perf.py:40-43 | the walk goes step by step: looking up `p + q` means looking up `q` from where `p` leads, and it stops where `p` stops |
| Yaml2Perf.PresentValueReported | pertool/yaml2perf.py:40-45 | at any depth, a present, non-null value in the mapping a path reaches is reported as its `str()` |
| Yaml2Perf.AbsentOrNullMissing | pertool/yaml2perf.py:40-43 | at any depth, a walk that stops early, an absent key and a null value all read as missing |
| Yaml2Perf.FalsyValuesShown | pertool/yaml2perf.py:42 | `0`, `False` and an empty mapping are shown, not treated as missing |
| Yaml2Perf.Row | pertool/yaml2perf.py:48-57 | a row is the base name and then one looked-up value per path, in order, 28 cells in all |
| Yaml2Perf.RowValues | pertool/yaml2perf.py:54-55 | one looked-up value per path, in path order |
| Yaml2Perf.Header | pertool/yaml2perf.py:61-63 | the header is `filepath` and then each path joined with dots, one cell per row cell |
| Yaml2Perf.HeaderNames | pertool/yaml2perf.py:62-63 | each path joined with dots, in order |
| Yaml2Perf.RowAligned | pertool/yaml2perf.py:69-71 | when no cell holds a tab, a printed row splits back into exactly its cells, as many as the header has |
| Findings.DuplicateMessageAsWrittenHidesName | pertool/generate.py:371 | as written, the report is the same for every variable, while the corrected report differs between names |
| Findings.LoadConfigAsWritten | pertool/generate.py:314-319 | as written, a user-given file loads exactly when it parses as JSON |
| Findings.YamlUserFileRejectedAsWritten | pertool/generate.py:312-323 | a user-given file that parses only as YAML is rejected as written, and loaded by the corrected loader |

## Left out

- Storage is not modelled. The HDF5 pool files, `PoolFile`/`PoolFileSet`,
  and opening, closing, creating and scanning files belong to
  `pertool/poolfiles.py`, which is not part of this model. A set of pool
  files is two maps from slots to opaque record fields.
- The scanned source set is taken to hold both fields of every k-point
  below `nkpt`. This is the `Complete` precondition of the engines; the
  scan that would establish it is in `pertool/poolfiles.py`.
- `kloc_index_to_pool_index` is also in `pertool/poolfiles.py`. It is
  assumed to be the round-robin rule `(i % P, i / P)`. The worker's
  assert and its `nk_loc` counter agree with that rule.
- The pool-file pattern is taken to match whole names, and `\d` to mean
  `0`..`9`. How `FILE_REGEX` is applied is in `pertool/poolfiles.py`.
- Process scheduling is not modelled: `multiprocessing` pools, the
  manager queue, pickling, closing the source set before spawning, and
  `join`. A worker that dies before its sentinel would make the
  coordinator wait forever; the model assumes every worker completes.
- Wall-clock time and the report interval are replaced by the `flush`
  oracle.
- `print`, progress bars, the argparse parsers and the command dispatch
  are not modelled.
- ScanListing.ListPoolFiles does not model the rest of the listing line
  (`nk_loc` and `nkq`), because those values are read from the files.
- The directory tests and listings are inputs, not file-system calls. So
  are the creation of the target directory (`os.makedirs`,
  `make_target_dir`) and the `sys.exit` calls, which become results.
- JSON and YAML parsing are not modelled. A parse is an input, `None` when
  the parser raises. With PyYAML 6, `yaml.load` without a `Loader` raises
  on every file; that version dependence is not modelled.
- The load-failure message at `pertool/generate.py:322` lacks the `f`
  prefix, like the duplicate-name message. It is not modelled, because
  the model does not produce that message.
- Jinja2 rendering, `str.format_map` and `pathvalidate` are not modelled.
  A rendering is recorded with its template names and its variables, and
  a template that needs a missing variable (a `KeyError` or an undefined
  error) is not modelled.
- `copy_file_to_dir`'s file operations and `shutil.copystat` are not
  modelled. Only the copy-or-link decision is.
- The commented-out `generate_target_dir` block
  (`pertool/generate.py:67-99`) never runs.
- The `generate` command's `check_args` (`pertool/generate.py:292-298`)
  is not modelled. It is the same non-directory abort as in `analyze`.
- The model does not chain directory generation onto the expansion.
  `Expansion.Expand` yields the leaf calls' variable maps. Each such map
  is the input of `GeneratePlan.GenerateTargetDirContents`.
- Expansion.Expand lists the calls that are made when none of them
  raises. An exception in one leaf call ends the whole expansion. Such
  exceptions are the `RuntimeError` for an unnamed step
  (`pertool/generate.py:150`) and a rendering error. So the later
  combinations are then never generated.
- Yaml2Perf.PyStr gives exact text only for `None`, booleans, integers
  and strings. Floats, lists, dates and mappings carry their `str()` text
  as data, because Python's float and dict printing is not modelled.
- The lookup walk assumes that every step before the last reaches a
  mapping (`Walkable`). Where the script would crash on `.get` of a
  non-mapping, the model has a precondition instead.
- Yaml2Perf.Header does not prove that a header name splits back into
  its path at the dots. That would need every literal key to be free of
  dots, which is not proved.
- ReshapeCommand.Run takes the outcome of reading the pool files as an
  input, `scanOk`. That read is `scan_files`, or `scan_files_mp` handed
  `--max-processes` under `--mp`, and it runs even on a dry run. Both are
  in `pertool/poolfiles.py`, which is not part of this model. So the
  model does not decide whether a process count below one makes the
  parallel scan raise. It promises status 0 only where the given scan
  returns.
- ScanListing.AnalyzeStatus takes the same scan outcome as an input, for
  the same reason. So the status of `analyze --mp -M 0` depends on what
  `scan_files_mp` does with a count of 0, which the model leaves open.
- GenerateArgs.Report covers only the duplicate-name report. A
  malformed argument raises, and its traceback is not modelled.

## Findings

| source | as written | input that shows it | evidently intended | confidence | as-written member | corrected member |
|---|---|---|---|---|---|---|
| pertool/generate.py:371 | the duplicate-name report is a plain string literal, so it prints the text `{name}` and never names the variable (the same at line 383) | `--set nk=1 --set nk=2`, or a name given by both `--set` and `--foreach` | an f-string naming the repeated variable | high; not executed | Findings.DuplicateMessageAsWrittenHidesName | GenerateArgs.DuplicateMessageNamesVariable |
| pertool/generate.py:314-319 | the loop over `[json, yaml]` calls the JSON loader on both passes, so a `--config` file is never tried as YAML | `--config mp_conf.yml`, holding valid YAML that is not JSON | try JSON, then YAML, as the comment and the error message say | high; not executed | Findings.YamlUserFileRejectedAsWritten | GeneratePlan.LoadConfig |
