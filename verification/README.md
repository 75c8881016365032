# MapReduce lab core, modelled in Dafny

This project models the deterministic core of a small Go MapReduce
implementation. It has three runtimes:

- a sequential one;
- a multithreaded one with ten bucket files;
- a distributed coordinator/worker pair that talks over RPC.

The user's `mapf`/`reducef` stay uninterpreted function parameters. Files and
directory listings become maps and sequences passed in. Everything else is
pure functions over immutable datatypes. The exceptions are methods: the Reduce
grouping loop (`Grouping.ReduceRuns`, `RunEnd`, `CollectValues`), which carries
loop invariants, and the methods that call it (`Workers.ReduceBranch`,
`Workers.RunReduceTask`, `Sequential.CallReduce`, `Sequential.Run`,
`Multithreaded.CallReduce`).

Modules, in dependency order:

- `Results`: `Option` and `Result`. `Err` models a Go error return or a
  run-time panic.
- `Strings`: Go strings as byte sequences (`Str`). Also:
  - Go's `<` on strings, shown to be a strict total order that agrees with
    the common-prefix definition;
  - `strings.Split` on one byte, with its inverse `Join`;
  - the scanner's carriage-return drop.
- `Numbers`: `%d` formatting, and `strconv.Atoi` with its error ignored. A
  syntax error gives 0 and overflow clamps to 64 bits; Atoi reads back every
  64-bit integer `%d` writes.
- `KeyValues`: the `KeyValue` pair and `ByKey.Less`. `sort.Sort(ByKey(...))`
  is specified only as "a key-sorted permutation": Go's sort is not stable,
  so nothing here depends on value order inside a key.
- `Records`: the intermediate file format. It covers:
  - `WriteRecord` (`key value\n`) and `IntermediateFile.Write` as an append;
  - line scanning, and the `strings.Split(line, " ")` field pick;
  - reading a file that may be missing (it reads as empty), and the
    contents of several files one after another;
  - the round trip, which holds when keys and values contain no space and no
    newline and values have no trailing carriage return.
- `Partitioning`: `ihash`, the bucket index and routing of Map output.
  - `ihash` is FNV-1a over 32 bits, masked to 31 bits.
  - Routing is proved to be a partition of the Map output.
  - Also here: `CreateOutputFiles` naming.
- `Grouping`: the `i`/`j` run-scanning Reduce loop shared by all three
  runtimes, and the specification it meets on sorted input:
  - exactly one `reducef` call per distinct key;
  - keys strictly increasing;
  - each call gets that key's values.
- `Tasks`: `MapTask`/`ReduceTask` as one tagged datatype, with the status and
  type codes and the accessors.
- `Workers`: `AssignTask`, the `getTask` reply decoder (with an encoder and
  a round-trip lemma), the Map branch, `loadDataFromIntermediateFiles` and
  the Reduce branch.
- `Coordinator`: the scheduling state exactly as `coordinator.go` writes it.
  This includes its defects:
  - `SendTask` never sets `Ok` and never marks a task `Running`;
  - `GetTaskStatus` updates a loop copy.
- `Sequential`, `Multithreaded`: the two local runtimes, end to end. The
  multithreaded runtime meets the same reduce specification as the
  sequential one under three conditions:
  - the Map output's keys and values contain no space and no newline;
  - its values do not end in a carriage return;
  - the intermediate directory holds only the ten bucket files.

  Outside these conditions the two runtimes differ. The multithreaded one
  cuts a value at its first space (`Records.ParseLineKeepsFirstToken`) and
  drops a value's final carriage return (`Records.TrailingCarriageReturnIsLost`).

Where the code's evident intent and what it does differ, the model follows
the code:

- `SendTask` leaves `Ok` and the task's status unchanged
  (`src/pkg/coordinator.go:150-179`).
  - `getTask` treats a reply whose `Ok` is false as a failure
    (`src/pkg/worker.go:182-184`), and `task.go` has a `Running` status
    code. So `SendTask` is evidently meant to set `Ok=true` on a reply that
    carries a task, and to mark that task `Running`.
  - `coordinator.go` does neither. `Ok` is never assigned, so every reply
    reads `Ok=false`. The no-work reply is correct; a reply that carries a
    task is refused by the worker. Statuses never change.
- `GetTaskStatus` is evidently meant to store the reported status. It
  writes the status into the loop variable only (see Findings).
- The Reduce loop passes a key's values in list order. That list comes from
  `sort.Sort`, which is unstable, so the model claims only that each group
  holds that key's values as a multiset.
- The worker sends heartbeats (`src/pkg/worker.go:163-175`). The
  coordinator has no handler for them, and no watchdog or reassignment of
  tasks.

## Model

| member | source | states |
|---|---|---|
| Strings.Less | src/pkg/helper.go:38 | Go's string `<` is irreflexive, and the right string is non-empty and does not start with a smaller byte than the left one; `LessIffCommonPrefix` characterises it exactly |
| Strings.LessIffCommonPrefix | src/pkg/helper.go:38 | Go's string `<` holds exactly when, after a common prefix, the left string ends first or has the smaller next byte |
| Strings.LessTransitive | src/pkg/helper.go:38 | the key order is transitive |
| Strings.LessTotal | src/pkg/helper.go:38 | any two distinct keys are ordered one way or the other |
| Strings.LessCommonPrefix | src/runtimes/multithreaded.go:90 | a shared prefix does not change the order of two names, which is how directory listings order bucket files |
| Strings.Split | src/pkg/helper.go:74 | `strings.Split` on one byte gives at least one field, no field holds the separator, and joining the fields with it restores the line |
| Strings.SplitJoin | src/pkg/helper.go:74 | splitting a join of separator-free fields gives the fields back |
| Strings.DropCR | src/pkg/helper.go:71-73 | the scanner removes the trailing carriage return when there is one, and changes nothing else |
| Numbers.FormatNat | src/pkg/helper.go:58 | `%d` of a non-negative number is a non-empty digit string denoting it, without a leading zero |
| Numbers.Atoi | src/pkg/worker.go:189-190 | `strconv.Atoi` with the error dropped always yields a 64-bit integer |
| Numbers.AtoiFormatInt | src/pkg/worker.go:189-190 | Atoi reads back every 64-bit integer written with `%d` |
| Numbers.AtoiRejectsShort | src/pkg/worker.go:189-190 | a short argument that is not an optional sign followed by digits decodes to 0 |
| KeyValues.ByKeyLess | src/pkg/helper.go:38 | `ByKey.Less` never holds between pairs with equal keys; `ByKeyLessIsStrictWeakOrder` gives the full order properties |
| KeyValues.ByKeyLessIsStrictWeakOrder | src/pkg/helper.go:36-38 | `ByKey.Less` is irreflexive, asymmetric and transitive, treats pairs with equal keys as incomparable, and ignores values |
| KeyValues.Insert | src/pkg/helper.go:77 | inserting into a key-sorted list keeps it sorted and adds exactly that pair |
| KeyValues.SortByKey | src/pkg/helper.go:77 | the sort yields a key-sorted permutation of its input (no stability is claimed) |
| KeyValues.ValuesWithKeyCounts | src/pkg/worker.go:125-128 | how often a value is among a key's values equals how often that pair occurs |
| KeyValues.PermutationKeepsValuesPerKey | src/pkg/worker.go:117 | sorting keeps each key's values as a multiset |
| KeyValues.PermutationKeepsKeys | src/pkg/worker.go:117 | sorting keeps the set of keys |
| Records.Record | src/pkg/helper.go:28-30 | `WriteRecord` writes the key, one space, the value and one newline, in that order and nothing else (the sequential runtime's `writeRecord`, src/runtimes/sequential.go:92-94, is the same) |
| Records.Append | src/pkg/helper.go:45-49 | one `Write` keeps the file's earlier contents and adds exactly that pair's record after them |
| Records.WriteAll | src/pkg/helper.go:45-49 | a sequence of `Write` calls appends exactly one `key value\n` record per call, in call order |
| Records.ParseLine | src/pkg/helper.go:74-75 | a line fails (index out of range) exactly when it has no space; otherwise the key and value are space-free and, joined by a space, form a prefix of the line |
| Records.ParseRecordLine | src/pkg/helper.go:74-75 | a `key value` line with space-free fields parses to that pair |
| Records.ScanLines | src/pkg/helper.go:71-73 | the scanner yields no line exactly for an empty file, and no line holds a newline |
| Records.ParseRecords | src/pkg/helper.go:70-76 | loading a file before the sort succeeds exactly when every scanned line has a space; it then gives one pair per line, each the parse of its line, in file order |
| Records.ParseLineKeepsFirstToken | src/pkg/helper.go:74-75 | a value containing spaces is cut to its first space-separated token |
| Records.ScanRecord | src/pkg/helper.go:71-73 | the scanner returns a written record's line, then the rest of the file |
| Records.LoadIntermediateFile | src/pkg/helper.go:66-78 | loading succeeds exactly when every line parses, and then returns a key-sorted permutation of the parsed records |
| Records.RecordsRoundTrip | src/pkg/helper.go:72-76 | records written for clean pairs parse back to exactly those pairs, in order |
| Records.WriteAllRoundTrip | src/pkg/helper.go:45-49 | a file built by `Write` calls on clean pairs reads back as those pairs |
| Records.TrailingCarriageReturnIsLost | src/pkg/helper.go:71-73 | a value ending in a carriage return reads back without it |
| Partitioning.Fnv1aIsFold | src/pkg/worker.go:18-19 | the hash `Fnv1a` computes is the offset basis with the key's bytes folded in from the first to the last, the order in which `Write` consumes them |
| Partitioning.MaskIsLow31Bits | src/pkg/worker.go:20 | masking with `0x7fffffff` equals taking the remainder modulo 2^31 |
| Partitioning.Low31 | src/pkg/worker.go:20 | `int(h & 0x7fffffff)` read as an integer is below 2^31 and equals the integer remainder of `h` modulo 2^31 |
| Partitioning.IHashIsMask | src/pkg/worker.go:17-21 | `IHash(key)` equals `int(Sum32() & 0x7fffffff)` of the key's FNV-1a hash, exactly as `ihash` returns it |
| Partitioning.IHash | src/pkg/worker.go:17-21 | `ihash` lies in `[0, 2^31)` and, as a function of the key bytes, gives equal keys equal hashes |
| Partitioning.IHashOfA | src/pkg/worker.go:17-21 | FNV-1a of "a" is `0xe40c292c`, and `ihash("a")` is `0x640c292c` |
| Partitioning.Bucket | src/pkg/worker.go:92 | `ihash(key) % BUCKETS` lies in `[0, BUCKETS)` |
| Partitioning.InBucket | src/pkg/worker.go:91-96 | the pairs chosen for a bucket all hash to that bucket |
| Partitioning.Route | src/pkg/worker.go:91-96 | after routing, each bucket file holds its old contents followed by the records of exactly the pairs hashed to it, in emission order |
| Partitioning.RouteAppend | src/runtimes/multithreaded.go:63-76 | routing two batches one after the other equals routing their concatenation |
| Partitioning.InBucketCounts | src/pkg/worker.go:91-96 | a bucket holds a pair as often as it was emitted if the pair hashes there, and never otherwise |
| Partitioning.PartitionIsPermutation | src/runtimes/multithreaded.go:63-76 | all buckets together are a permutation of the Map output, so every pair lands in exactly one bucket |
| Partitioning.IntermediateName | src/pkg/helper.go:58 | a bucket file's name is `intermediate-` followed by the decimal digits of its index |
| Partitioning.IntermediateNameIndex | src/pkg/helper.go:58 | the index can be read back from a bucket file name |
| Partitioning.CreateOutputFiles | src/pkg/helper.go:55-64 | the file map has exactly the keys `0..nReduce-1` |
| Partitioning.OutputFilesDistinct | src/pkg/helper.go:55-64 | different bucket indexes get different paths |
| Partitioning.EmptyFiles | src/pkg/helper.go:60 | freshly created bucket files are empty |
| Grouping.RunLength | src/pkg/worker.go:121-124 | the inner `j` loop stops at the first pair with a different key, or at the end |
| Grouping.Runs | src/pkg/worker.go:119-134 | the groups handed to `reducef` are non-empty, neighbouring groups differ in key, and together they are exactly the input |
| Grouping.RunsStep | src/pkg/worker.go:120-133 | what one outer iteration finds between `i` and `j` is the first group of the remaining input |
| Grouping.RunsCoverKeys | src/pkg/worker.go:119-134 | the groups' keys are exactly the input's keys |
| Grouping.RunEnd | src/pkg/worker.go:121-124 | the `j` loop returns the end of the maximal run of `intermediate[i].Key` |
| Grouping.CollectValues | src/pkg/worker.go:125-128 | the `k` loop collects the run's values in sequence order |
| Grouping.ReduceRuns | src/pkg/worker.go:119-134 | the loop calls `reducef` once per maximal run, on that run's key and values in order: record `g` is run `g`'s key with `reducef` of its values. Every pair is consumed exactly once, and empty input writes nothing |
| Grouping.ReduceOutputsSnoc | src/pkg/worker.go:129-131 | each iteration appends exactly one record, for its run |
| Grouping.RunsOfSortedIncrease | src/pkg/worker.go:117-134 | on key-sorted input the group keys strictly increase |
| Grouping.RunsOfSortedCollectAllValues | src/pkg/worker.go:120-129 | on key-sorted input each group's values are all of its key's values, in sequence order |
| Grouping.FlattenLength | src/pkg/worker.go:120-133 | the group sizes add up to the number of pairs |
| Grouping.DistinctGroupKeys | src/pkg/worker.go:119-134 | with strictly increasing keys there are as many groups as distinct keys |
| Grouping.OneRunPerKey | src/pkg/worker.go:117-134 | on sorted input `reducef` runs once per distinct key and the group sizes sum to `len(intermediate)` |
| Grouping.OutputKeys | src/pkg/worker.go:129-131 | the written keys are the group keys |
| Grouping.ReduceOfSortedPermutation | src/pkg/worker.go:117-134 | after any sort of the pairs: one record per distinct key, keys strictly increasing, and each value is `reducef` of that key's values (same multiset) |
| Grouping.SortThenReduceMeetsSpec | src/pkg/worker.go:117-134 | sorting and then grouping writes what the reduce specification allows |
| Grouping.ReduceSpecIgnoresOrder | src/runtimes/sequential.go:22-26 | the reduce specification depends only on the multiset of pairs, so the unstable sort does not matter |
| Tasks.IsSuccess | src/pkg/task.go:18-20 | a task is successful exactly when its display name (`GetStatusStr`) is "Success" |
| Tasks.StatusName | src/pkg/task.go:30-43 | the display name is "Unknown" exactly for codes other than 0, 1, 2, 3 |
| Tasks.GetStatusStr | src/pkg/task.go:75-88 | both task kinds show "Unknown" exactly for unnamed codes |
| Tasks.SetStatus | src/pkg/task.go:49-51 | `SetStatus(s)` makes the status `s`; the kind, id, index, type and the kind-specific fields are unchanged |
| Tasks.SetStatusDetermines | src/pkg/task.go:90-92 | two tasks equal apart from status, and with the same status, are equal |
| Tasks.SetStatusLastWins | src/pkg/task.go:90-92 | the later of two `SetStatus` calls wins, repeating a call changes nothing more, and setting the current status is a no-op |
| Tasks.StatusNamesDistinct | src/pkg/task.go:30-43 | two named codes have the same display name only if they are equal |
| Tasks.CodesDistinct | src/pkg/task.go:98-112 | the four status codes are distinct, and so are `Map` and `Reduce` |
| Workers.AssignTask | src/pkg/worker.go:54-59 | assigning stores the task, sets `RunningTask`, returns true, and keeps id, buckets and directory |
| Workers.AssignTaskLastWins | src/pkg/worker.go:54-59 | a later assignment replaces an earlier one; repeating an assignment changes nothing |
| Workers.GetTask | src/pkg/worker.go:178-215 | fails exactly when `Ok` is false or the type is neither Map nor Reduce. Otherwise it gives a `NotStarted` task of the reply's type. Id and index come from Atoi. A Map task takes its input file from `Args`; a Reduce task takes its output fields from `Args` and `WorkerDirs` from the reply |
| Workers.EncodeTask | src/pkg/worker.go:186-212 | the reply describing a task is `Ok` and carries the task's type |
| Workers.GetTaskEncodeTask | src/pkg/worker.go:186-212 | decoding the reply that describes a well-formed task returns that task, reset to `NotStarted` |
| Workers.GetTaskMissingId | src/pkg/worker.go:189 | a missing `Id` argument decodes to id 0, not to an error |
| Workers.MapBranch | src/pkg/worker.go:88-96 | each of the `BUCKETS` files holds exactly the records of the pairs hashed to it, in emission order |
| Workers.MapBranchRoundTrip | src/pkg/worker.go:91-96 | for clean Map output each bucket file reads back as exactly its pairs, all of which hash to that bucket |
| Workers.CompletionReport | src/pkg/worker.go:247-252 | the completion report carries `Success` with the task's id and type |
| Workers.SubdirPaths | src/pkg/worker.go:150-152 | one path `workerDir/sub/intermediate-index` per listed sub-directory, in listing order |
| Workers.IntermediatePaths | src/pkg/worker.go:145-158 | every visited path is the bucket-`index` file of a listed sub-directory of one of the worker directories; `IntermediatePathsExactly` adds the converse |
| Workers.IntermediatePathsExactly | src/pkg/worker.go:145-158 | the loader visits exactly the bucket-`index` file of every sub-directory of every worker directory |
| Workers.IntermediatePathsAppend | src/pkg/worker.go:147-157 | worker directories are visited in the given order |
| Workers.LoadFiles | src/pkg/worker.go:150-156 | loading succeeds exactly when every visited file parses |
| Workers.LoadDataFromIntermediateFiles | src/pkg/worker.go:145-159 | the gathered load succeeds exactly when every visited file parses |
| Workers.LoadFilesPieces | src/pkg/worker.go:150-156 | for files holding clean batches, the load is the concatenation, in listing order, of one key-sorted permutation per batch |
| Workers.LoadFilesRoundTrip | src/pkg/worker.go:154-155 | files holding clean batches load as those batches concatenated in listing order. Each batch comes back as a key-sorted permutation of itself, so the whole load holds every pair as often as the batches do |
| Workers.ReduceBranch | src/pkg/worker.go:116-134 | the Reduce branch writes what the reduce specification allows for the loaded pairs |
| Workers.RunReduceTask | src/pkg/worker.go:101-138 | a Reduce task fails only on a malformed line; otherwise its records meet the reduce specification for the gathered pairs |
| Coordinator.OutputName | src/pkg/coordinator.go:87 | a reduce task's output file is named `out-` followed by the decimal digits of its index |
| Coordinator.MapTasksFor | src/pkg/coordinator.go:75-83 | map task `i` has id `i`, is `NotStarted`, and has input file `files[i]` and index `i` |
| Coordinator.ReduceTasksFor | src/pkg/coordinator.go:86-96 | reduce task `i` has id `i`, is `NotStarted`, and is named `out-i` / `intermediate-i` |
| Coordinator.MakeCoordinator | src/pkg/coordinator.go:65-100 | exactly `len(files)` map tasks and `max(nReduce, 0)` reduce tasks, all `NotStarted`, with no workers |
| Coordinator.AllSuccess | src/pkg/coordinator.go:43-50 | the early-exit loop returns true exactly when every task succeeded |
| Coordinator.Done | src/pkg/coordinator.go:42-51 | `Done` holds exactly when every map and every reduce task succeeded; it is vacuously true with no tasks |
| Coordinator.MapTasksAreDone | src/pkg/coordinator.go:53-60 | holds exactly when every map task succeeded |
| Coordinator.DoneImpliesMapTasksDone | src/pkg/coordinator.go:42-60 | `Done` implies `mapTasksAreDone` |
| Coordinator.CountSuccess | src/pkg/coordinator.go:103-116 | the completed-task count never exceeds the task count |
| Coordinator.CountSuccessAll | src/pkg/coordinator.go:103-116 | a task list is finished exactly when all its tasks count as completed |
| Coordinator.DoneIffAllCompleted | src/pkg/coordinator.go:102-116 | `Done` agrees with completed tasks equalling total tasks |
| Coordinator.FirstNotStarted | src/pkg/coordinator.go:154-162 | returns the lowest position of a `NotStarted` task, or nothing when there is none |
| Coordinator.SendTask | src/pkg/coordinator.go:150-179 | the reply's `Ok` stays false. No task changes. A picked task is `NotStarted` in its phase's list |
| Coordinator.SendTaskPhaseBarrier | src/pkg/coordinator.go:152-177 | a reduce task is handed out only once all map tasks succeeded. Until then the lowest `NotStarted` map task is picked, and nothing is picked when no map task is `NotStarted`, even if reduce tasks wait |
| Coordinator.SendTaskRepeats | src/pkg/coordinator.go:150-179 | since no status changes, a second request gets the same answer |
| Coordinator.FreshCoordinator | src/pkg/coordinator.go:65-100 | a new job is done only when it has no tasks; its first request gets map task 0, or reduce task 0 when there are no files |
| Coordinator.GetTaskStatus | src/pkg/coordinator.go:125-148 | as written: the reply is `Ok` and the stored task lists are unchanged |
| Coordinator.GetTaskStatusLosesReport | src/pkg/coordinator.go:132-144 | a report cannot make an unfinished job done |
| Coordinator.GetTaskStatusCounterexample | src/pkg/coordinator.go:125-148 | with one input file and no reduce tasks, reporting map task 0 as successful leaves the job not done as written and done with the correction |
| Coordinator.UpdateStatus | src/pkg/coordinator.go:132-144 | every task with the reported id takes the reported status; nothing else changes |
| Coordinator.ReportStatus | src/pkg/coordinator.go:125-148 | corrected: the stored tasks of the reported phase are updated, and the other phase and the workers are unchanged |
| Coordinator.ReportAllSucceeds | src/pkg/coordinator.go:125-148 | with the correction, success reports make each reported task successful and keep earlier successes |
| Coordinator.ReportingEveryTaskFinishesJob | src/pkg/coordinator.go:42-51 | with the correction, reporting success for every task makes `Done` true |
| Coordinator.RegisterWorker | src/pkg/coordinator.go:181-187 | appends exactly one `{id, "idle"}` entry, keeps earlier workers and the tasks, and replies `Ok` |
| Coordinator.RegisterWorkersInOrder | src/pkg/coordinator.go:181-187 | successive registrations are recorded in arrival order |
| Sequential.CallMap | src/runtimes/sequential.go:28-47 | succeeds exactly when every input file can be read; otherwise it fails on the first unreadable file |
| Sequential.CallMapAppend | src/runtimes/sequential.go:33-45 | the result is the Map outputs of the files concatenated in order |
| Sequential.CallMapSingle | src/runtimes/sequential.go:35-36 | one file contributes exactly `mapf(name, content)` |
| Sequential.CallReduce | src/runtimes/sequential.go:63-94 | one record per maximal run, holding `reducef` of that run's values. The written keys are exactly the input's keys. On sorted input: one record per distinct key, in increasing key order, each reduced from its key's values. Empty input writes nothing. The output file holds the `key value\n` lines |
| Sequential.Run | src/runtimes/sequential.go:22-26 | the written records meet the reduce specification for all Map output |
| Multithreaded.BucketName | src/runtimes/multithreaded.go:55-57 | bucket `b` is named `intermediate-` followed by the single digit `b` |
| Multithreaded.BucketNames | src/runtimes/multithreaded.go:55-60 | exactly `BUCKETS` = 10 files, `intermediate-0` through `intermediate-9` |
| Multithreaded.BucketInRange | src/runtimes/multithreaded.go:71 | `ihash(key) % BUCKETS` lies in `[0, 10)` and uses the same `ihash` as the worker |
| Multithreaded.BucketNamesSorted | src/runtimes/multithreaded.go:90 | the bucket names are in strictly increasing string order, so the directory listing keeps bucket order |
| Multithreaded.CallMap | src/runtimes/multithreaded.go:47-82 | the bucket contents equal routing the sequential runtime's Map output; it fails exactly when the sequential Map phase fails |
| Multithreaded.CallMapBuckets | src/runtimes/multithreaded.go:63-76 | bucket `b` holds exactly the pairs hashed to `b`, and the buckets together are a permutation of the Map output |
| Multithreaded.ReadBuckets | src/runtimes/multithreaded.go:97-106 | reading succeeds exactly when every listed file parses |
| Multithreaded.ReadBucketsRoundTrip | src/runtimes/multithreaded.go:97-106 | reading the bucket files in directory order gives the buckets' pairs, bucket by bucket |
| Multithreaded.CallReduce | src/runtimes/multithreaded.go:84-129 | fails when the directory cannot be listed or a line has no space; otherwise the records meet the reduce specification for the pairs read |
| Multithreaded.RunAgreesWithSequential | src/runtimes/multithreaded.go:42-45 | on clean Map output the pairs read back are a permutation of the Map output, so the runtime meets the sequential runtime's specification |

## Left out

- RPC and transport are not modelled: `call`, sockets, `server`, gob registration. Replies and arguments are plain datatypes.
- The coordinator's side of the protocol is modelled with the coordinator's own reply shape, because `coordinator.go` and `rpc.go` disagree on the message types:
  - `SendTask` sets `reply.Id`, `reply.Phase` and `reply.Status`, but `NewTaskReply` has no such fields (`rpc.go:29-34`).
  - `SendTask` copies a task's `Args` into `reply.Args`, but that field is a `map[string]string` there, not the coordinator's task arguments.
  - `GetTaskStatus` reads `args.Phase`, but `TaskStatusArgs` carries `Type`, not `Phase` (`rpc.go:15-19`).
  - `RegisterWorker` reads `args.WorkerId` (`coordinator.go:182`), but `RegisterWorkerArgs` has `Id`, not `WorkerId` (`rpc.go:36-42`).
  - `rpc.go` is therefore used only for the worker's `NewTaskReply` and `TaskStatusArgs`.
- File-system I/O is not modelled. File contents and directory listings are parameters:
  - a missing worker directory lists nothing and a missing intermediate file reads as empty, because the Go code ignores those errors;
  - a missing input file is an `Err` in place of `log.Fatalf`;
  - directory creation, `os.Create` and closing are not modelled.
- The bufio scanner's 64 KiB token limit is not modelled.
- Concurrency is not modelled. The multithreaded Map goroutines run one after another in input order, and the mutexes become sequential appends. Interleavings between files would change record order within a bucket, which the reduce specification does not depend on.
- Heartbeats, sleeps, the `Run` retry loop, `MakeWorker`/`setUp`/`registerWorker` (process id, logger, directory creation) and all logging and printing are not modelled. `Coordinator.Run` is modelled only through its completed-task count.
- The worker's two branches inside `Run` are modelled as `MapBranch` and `RunReduceTask`, not as one loop. The output path `filepath.Join(OutputDir, OutputFileName)` and the Map task's directory `WorkerDir/Id` are not tied to file contents.
- `BUCKETS` is used in `src/pkg/worker.go` but not declared in any of the package files this model covers. `MapBranch` takes it as a positive parameter.
- `INTERMEDIATE_DIR`, `OUTPUT_DIR`, `MapPhase` and `ReducePhase` are not declared in any of the package files this model covers either. The first two are parameters of `MakeCoordinator`; the phases are a two-value datatype.
- The table of open intermediate files that `MakeCoordinator` shares between all map tasks is not modelled.
- The file that declares `KeyValue` is not part of this model. It is taken to be a struct of two strings.
- Coordinator.AllSuccess: `Done` ranges over a Go map of two lists in random order. Only the result is modelled, and the result does not depend on that order.
- Partitioning.IHash: Go converts the masked `uint32` to `int`, which cannot overflow. The model states the range and leaves Go's `int` width out.
- Numbers.Atoi: results are unbounded integers clamped to the 64-bit range, matching `strconv.Atoi` on 64-bit platforms. 32-bit `int` is not modelled.
- Tasks.GetId, Tasks.GetStatus and Tasks.GetTaskType are plain field reads with no contract of their own. They are specified through `Tasks.SetStatus` and `Workers.GetTask`.
- KeyValues.SortByKey: Go's `sort.Sort` is unstable. The model sorts by stable insertion but promises only a key-sorted permutation, so no result depends on the order of values within a key.

## Findings

| source | as written | input that shows it | evidently intended | confidence | as-written member | corrected member |
|---|---|---|---|---|---|---|
| src/pkg/coordinator.go:132-144 | `for _, task := range c.tasks[...] { if task.Id == id { task.Status = args.Status } }` assigns to the loop's copy, so the stored task is never updated | a coordinator with one input file and no reduce tasks; the worker reports map task 0 as `Success`; `Done()` stays false forever | the stored task with that id takes the reported status, so reporting every task as successful finishes the job | high (not executed) | Coordinator.GetTaskStatusCounterexample | Coordinator.ReportingEveryTaskFinishesJob |
