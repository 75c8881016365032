/**
  The worker side of the distributed runtime: decoding the coordinator's task
  reply, recording an assignment, the Map branch (route every emitted pair to
  its bucket file), and the Reduce branch (gather the bucket from every
  worker directory, sort, group, reduce).
*/
module Workers {
  import opened Strings
  import opened Numbers
  import opened Results
  import opened KeyValues
  import opened Records
  import opened Partitioning
  import opened Grouping
  import opened Tasks

  /** `WorkerStatus` codes. */
  const Idle: int := 0
  const RunningTask: int := 1
  const Dead: int := 2

  /** A worker's state; `AssignedTask` is a nil interface until a task is assigned. */
  datatype Worker = Worker(id: int, status: int, assignedTask: Option<Task>, buckets: int, workerDir: Str)

  /** `AssignTask` on the worker's pointer receiver, with its boolean result. */
  function AssignTask(w: Worker, t: Task): (r: (Worker, bool))
    ensures r.1
    ensures r.0.assignedTask == Some(t) && r.0.status == RunningTask
    ensures r.0.id == w.id && r.0.buckets == w.buckets && r.0.workerDir == w.workerDir
  {
    (w.(assignedTask := Some(t), status := RunningTask), true)
  }

  /** A later assignment replaces an earlier one completely. */
  lemma AssignTaskLastWins(w: Worker, a: Task, b: Task)
    ensures AssignTask(AssignTask(w, a).0, b) == AssignTask(w, b)
    ensures AssignTask(AssignTask(w, a).0, a) == AssignTask(w, a)
  {
  }

  /** `NewTaskReply`: what the coordinator answers to a task request. */
  datatype TaskReply = TaskReply(ok: bool, taskType: int, args: map<Str, Str>, workerDirs: seq<Str>)

  /** The two errors `getTask` returns. */
  datatype TaskError = FailedToGetTask | UnknownTaskType

  /** Indexing a Go map: a missing key reads as the empty string. */
  function Arg(args: map<Str, Str>, name: Str): (r: Str)
    ensures name in args ==> r == args[name]
    ensures name !in args ==> r == []
  {
    if name in args then args[name] else []
  }

  /**
    `getTask` after the RPC: the reply decoded into a task whose status is
    `NotStarted`. `Id` and `Index` go through `strconv.Atoi` with the error
    ignored.
  */
  function GetTask(reply: TaskReply): (r: Result<Task, TaskError>)
    ensures r == Err(FailedToGetTask) <==> !reply.ok
    ensures r == Err(UnknownTaskType) <==> reply.ok && reply.taskType != Map && reply.taskType != Reduce
    ensures r.Ok? ==> GetStatus(r.value) == NotStarted && GetTaskType(r.value) == reply.taskType
    ensures r.Ok? ==> (r.value.MapTask? <==> reply.taskType == Map)
    ensures r.Ok? ==> GetId(r.value) == Atoi(Arg(reply.args, "Id")) && r.value.index == Atoi(Arg(reply.args, "Index"))
    ensures r.Ok? && r.value.MapTask? ==> r.value.inputFile == Arg(reply.args, "InputFile")
    ensures r.Ok? && r.value.ReduceTask? ==>
      && r.value.workerDirs == reply.workerDirs
      && r.value.outputDir == Arg(reply.args, "OutputDir")
      && r.value.outputFileName == Arg(reply.args, "OutputFileName")
  {
    if !reply.ok then Err(FailedToGetTask)
    else if reply.taskType == Map then
      Ok(MapTask(Atoi(Arg(reply.args, "Id")), NotStarted, Arg(reply.args, "InputFile"),
                 Atoi(Arg(reply.args, "Index")), Map))
    else if reply.taskType == Reduce then
      Ok(ReduceTask(Atoi(Arg(reply.args, "Id")), NotStarted, Atoi(Arg(reply.args, "Index")),
                    Arg(reply.args, "OutputDir"), Arg(reply.args, "OutputFileName"),
                    reply.workerDirs, Reduce))
    else Err(UnknownTaskType)
  }

  /** A task whose type code matches its kind and whose numbers fit in 64 bits. */
  predicate WellFormed(t: Task) {
    && t.taskType == (if t.MapTask? then Map else Reduce)
    && MinInt64 <= t.id <= MaxInt64
    && MinInt64 <= t.index <= MaxInt64
  }

  /** The reply that describes `t`, with the numbers written in decimal. */
  function EncodeTask(t: Task): (r: TaskReply)
    ensures r.ok && r.taskType == GetTaskType(t)
  {
    match t
    case MapTask(id, _, inputFile, index, taskType) =>
      TaskReply(true, taskType,
                map["Id" := FormatInt(id), "Index" := FormatInt(index), "InputFile" := inputFile], [])
    case ReduceTask(id, _, index, outputDir, outputFileName, workerDirs, taskType) =>
      TaskReply(true, taskType,
                map["Id" := FormatInt(id), "Index" := FormatInt(index),
                    "OutputDir" := outputDir, "OutputFileName" := outputFileName], workerDirs)
  }

  /** The five argument names are different strings. */
  lemma ArgNamesDistinct()
    ensures "Id" != "Index" && "Id" != "InputFile" && "Index" != "InputFile"
    ensures "Id" != "OutputDir" && "Index" != "OutputDir"
    ensures "Id" != "OutputFileName" && "Index" != "OutputFileName" && "OutputDir" != "OutputFileName"
  {
    var id: Str, index: Str, inputFile: Str := "Id", "Index", "InputFile";
    var outputDir: Str, outputFileName: Str := "OutputDir", "OutputFileName";
    assert |id| == 2 && |index| == 5 && |inputFile| == 9 && |outputDir| == 9 && |outputFileName| == 14;
  }

  /** A Map task's argument map gives back each field under its name. */
  lemma MapArgs(id: Str, index: Str, inputFile: Str)
    ensures var m := map["Id" := id, "Index" := index, "InputFile" := inputFile];
      Arg(m, "Id") == id && Arg(m, "Index") == index && Arg(m, "InputFile") == inputFile
  {
    ArgNamesDistinct();
    var m1 := map["Id" := id];
    var m2 := m1["Index" := index];
    assert m2["Id"] == id && m2["Index"] == index;
  }

  /** A Reduce task's argument map gives back each field under its name. */
  lemma ReduceArgs(id: Str, index: Str, outputDir: Str, outputFileName: Str)
    ensures var m := map["Id" := id, "Index" := index, "OutputDir" := outputDir, "OutputFileName" := outputFileName];
      && Arg(m, "Id") == id && Arg(m, "Index") == index
      && Arg(m, "OutputDir") == outputDir && Arg(m, "OutputFileName") == outputFileName
  {
    ArgNamesDistinct();
    var m1 := map["Id" := id];
    var m2 := m1["Index" := index];
    var m3 := m2["OutputDir" := outputDir];
    assert m2["Id"] == id && m2["Index"] == index;
    assert m3["Id"] == id && m3["Index"] == index && m3["OutputDir"] == outputDir;
  }

  /** The argument map `EncodeTask` builds carries the task's fields under their names. */
  lemma EncodeTaskArgs(t: Task)
    ensures Arg(EncodeTask(t).args, "Id") == FormatInt(t.id)
    ensures Arg(EncodeTask(t).args, "Index") == FormatInt(t.index)
    ensures t.MapTask? ==> Arg(EncodeTask(t).args, "InputFile") == t.inputFile
    ensures t.ReduceTask? ==> Arg(EncodeTask(t).args, "OutputDir") == t.outputDir
                              && Arg(EncodeTask(t).args, "OutputFileName") == t.outputFileName
  {
    if t.MapTask? {
      MapArgs(FormatInt(t.id), FormatInt(t.index), t.inputFile);
    } else {
      ReduceArgs(FormatInt(t.id), FormatInt(t.index), t.outputDir, t.outputFileName);
    }
  }

  /** Decoding the reply that describes a task gives the task back, reset to `NotStarted`. */
  lemma GetTaskEncodeTask(t: Task)
    requires WellFormed(t)
    ensures GetTask(EncodeTask(t)) == Ok(SetStatus(t, NotStarted))
  {
    var reply := EncodeTask(t);
    EncodeTaskArgs(t);
    AtoiFormatInt(t.id);
    AtoiFormatInt(t.index);
    var r := GetTask(reply);
    assert r.Ok?;
    var u := r.value;
    assert GetId(u) == t.id && u.index == t.index;
    SetStatusDetermines(u, SetStatus(t, NotStarted));
  }

  /** A reply without an `Id` (or with a malformed one) yields task id 0, not an error. */
  lemma GetTaskMissingId(reply: TaskReply)
    requires reply.ok && (reply.taskType == Map || reply.taskType == Reduce)
    requires "Id" !in reply.args
    ensures GetTask(reply).Ok? && GetId(GetTask(reply).value) == 0
  {
  }

  /**
    The Map branch of `Run` over the pairs `mapf` emitted: the contents of the
    `buckets` files created in the Map task's directory, starting empty, after each
    pair is written to the file of its bucket.
  */
  function MapBranch(buckets: nat, kvs: seq<KeyValue>): (files: seq<Str>)
    requires buckets > 0
    ensures |files| == buckets
    ensures forall b :: 0 <= b < buckets ==> files[b] == Serialize(InBucket(kvs, b, buckets))
  {
    var files := Route(EmptyFiles(buckets), kvs);
    assert forall b :: 0 <= b < buckets ==> files[b] == [] + Serialize(InBucket(kvs, b, buckets));
    files
  }

  /**
    When the emitted pairs survive the record format, every bucket file reads
    back as exactly the pairs hashed to it, in emission order.
  */
  lemma MapBranchRoundTrip(buckets: nat, kvs: seq<KeyValue>, b: nat)
    requires buckets > 0 && b < buckets && Clean(kvs)
    ensures ParseRecords(MapBranch(buckets, kvs)[b]) == Ok(InBucket(kvs, b, buckets))
    ensures forall i :: 0 <= i < |InBucket(kvs, b, buckets)| ==> Bucket(InBucket(kvs, b, buckets)[i].key, buckets) == b
  {
    var part := InBucket(kvs, b, buckets);
    assert Clean(part) by {
      forall i | 0 <= i < |part| ensures CleanKey(part[i].key) && CleanValue(part[i].value) {
        assert part[i] in multiset(part);
        InBucketCounts(kvs, b, buckets, part[i]);
        assert part[i] in multiset(kvs);
        var j :| 0 <= j < |kvs| && kvs[j] == part[i];
      }
    }
    RecordsRoundTrip(part);
  }

  /** `TaskStatusArgs`: what `sendTaskCompletion` reports. */
  datatype TaskStatusArgs = TaskStatusArgs(id: int, status: int, taskType: int)

  /**
    What the worker reports after either branch: the task was marked
    `Running`, then `SetStatus(Success)`, and its id, status and type are sent.
  */
  function CompletionReport(t: Task): (r: TaskStatusArgs)
    ensures r.status == Success
    ensures r.id == GetId(t) && r.taskType == GetTaskType(t)
  {
    var done := SetStatus(SetStatus(t, Running), Success);
    TaskStatusArgs(GetId(done), GetStatus(done), GetTaskType(done))
  }

  /** `fmt.Sprintf("%s/%s/intermediate-%d", workerDir, dir.Name(), index)`. */
  function IntermediatePath(workerDir: Str, sub: Str, index: int): Str {
    workerDir + "/" + sub + "/" + "intermediate-" + FormatInt(index)
  }

  /** `os.ReadDir` with its error ignored: a missing directory lists nothing. */
  function ListDir(listing: map<Str, seq<Str>>, dir: Str): seq<Str> {
    if dir in listing then listing[dir] else []
  }

  /** The files one worker directory contributes, one per sub-directory, in listing order. */
  function SubdirPaths(workerDir: Str, subs: seq<Str>, index: int): (r: seq<Str>)
    ensures |r| == |subs|
    ensures forall i :: 0 <= i < |subs| ==> r[i] == IntermediatePath(workerDir, subs[i], index)
  {
    seq(|subs|, i requires 0 <= i < |subs| => IntermediatePath(workerDir, subs[i], index))
  }

  /** `p` is the bucket-`index` file of a listed sub-directory of one of `workerDirs`. */
  predicate ListedBucketFile(workerDirs: seq<Str>, listing: map<Str, seq<Str>>, index: int, p: Str) {
    exists d, sub :: d in workerDirs && sub in ListDir(listing, d) && p == IntermediatePath(d, sub, index)
  }

  /** The files `loadDataFromIntermediateFiles` visits, worker directory by worker directory. */
  function IntermediatePaths(workerDirs: seq<Str>, listing: map<Str, seq<Str>>, index: int): (r: seq<Str>)
    ensures forall i :: 0 <= i < |r| ==> ListedBucketFile(workerDirs, listing, index, r[i])
    decreases |workerDirs|
  {
    if |workerDirs| == 0 then []
    else
      var head := SubdirPaths(workerDirs[0], ListDir(listing, workerDirs[0]), index);
      var rest := IntermediatePaths(workerDirs[1..], listing, index);
      ListedBucketFilesConcat(workerDirs, listing, index, head, rest);
      head + rest
  }

  /** The first directory's files, then files listed under the others, are all listed files. */
  lemma ListedBucketFilesConcat(workerDirs: seq<Str>, listing: map<Str, seq<Str>>, index: int,
                                head: seq<Str>, rest: seq<Str>)
    requires |workerDirs| > 0
    requires head == SubdirPaths(workerDirs[0], ListDir(listing, workerDirs[0]), index)
    requires forall i :: 0 <= i < |rest| ==> ListedBucketFile(workerDirs[1..], listing, index, rest[i])
    ensures forall i :: 0 <= i < |head + rest| ==> ListedBucketFile(workerDirs, listing, index, (head + rest)[i])
  {
    forall i | 0 <= i < |head + rest|
      ensures ListedBucketFile(workerDirs, listing, index, (head + rest)[i])
    {
      if i < |head| {
        var sub := ListDir(listing, workerDirs[0])[i];
        assert workerDirs[0] in workerDirs && sub in ListDir(listing, workerDirs[0]);
        assert (head + rest)[i] == IntermediatePath(workerDirs[0], sub, index);
      } else {
        assert (head + rest)[i] == rest[i - |head|];
        assert ListedBucketFile(workerDirs[1..], listing, index, rest[i - |head|]);
        var d, sub :| d in workerDirs[1..] && sub in ListDir(listing, d) && rest[i - |head|] == IntermediatePath(d, sub, index);
        assert d in workerDirs;
      }
    }
  }

  /** The visited files are exactly the bucket-`index` files of every listed sub-directory. */
  lemma {:induction false} IntermediatePathsExactly(workerDirs: seq<Str>, listing: map<Str, seq<Str>>,
                                                    index: int, p: Str)
    ensures p in IntermediatePaths(workerDirs, listing, index)
        <==> exists d, sub :: d in workerDirs && sub in ListDir(listing, d) && p == IntermediatePath(d, sub, index)
    decreases |workerDirs|
  {
    if |workerDirs| > 0 {
      var d0 := workerDirs[0];
      var head := SubdirPaths(d0, ListDir(listing, d0), index);
      var rest := IntermediatePaths(workerDirs[1..], listing, index);
      IntermediatePathsExactly(workerDirs[1..], listing, index, p);
      if p in head {
        var i :| 0 <= i < |head| && head[i] == p;
        assert d0 in workerDirs && ListDir(listing, d0)[i] in ListDir(listing, d0);
      }
      if exists d, sub :: d in workerDirs && sub in ListDir(listing, d) && p == IntermediatePath(d, sub, index) {
        var d, sub :| d in workerDirs && sub in ListDir(listing, d) && p == IntermediatePath(d, sub, index);
        if d == d0 {
          var i :| 0 <= i < |ListDir(listing, d0)| && ListDir(listing, d0)[i] == sub;
          assert head[i] == p;
        } else {
          assert d in workerDirs[1..];
        }
      }
    }
  }

  /** Gathering from two lists of worker directories is gathering from each, in order. */
  lemma {:induction false} IntermediatePathsAppend(a: seq<Str>, c: seq<Str>, listing: map<Str, seq<Str>>, index: int)
    ensures IntermediatePaths(a + c, listing, index)
         == IntermediatePaths(a, listing, index) + IntermediatePaths(c, listing, index)
    decreases |a|
  {
    if |a| == 0 {
      assert a + c == c;
    } else {
      assert (a + c)[0] == a[0];
      assert (a + c)[1..] == a[1..] + c;
      IntermediatePathsAppend(a[1..], c, listing, index);
      AppendAssociative(SubdirPaths(a[0], ListDir(listing, a[0]), index),
                        IntermediatePaths(a[1..], listing, index), IntermediatePaths(c, listing, index));
    }
  }

  /** `LoadDataFromIntermediateFile` on each path in turn, the results appended in order. */
  function LoadFiles(paths: seq<Str>, fs: map<Str, Str>): (r: Result<seq<KeyValue>, ParseError>)
    ensures r.Ok? <==> forall i :: 0 <= i < |paths| ==> ParseRecords(ReadOrEmpty(fs, paths[i])).Ok?
    decreases |paths|
  {
    if |paths| == 0 then Ok([])
    else
      var first := LoadIntermediateFile(ReadOrEmpty(fs, paths[0]));
      var rest := LoadFiles(paths[1..], fs);
      assert rest.Ok? <==> forall i :: 1 <= i < |paths| ==> ParseRecords(ReadOrEmpty(fs, paths[i])).Ok? by {
        forall i | 1 <= i < |paths| ensures paths[1..][i - 1] == paths[i] {}
      }
      if first.Err? then Err(first.error)
      else if rest.Err? then Err(rest.error)
      else Ok(first.value + rest.value)
  }

  /**
    `loadDataFromIntermediateFiles(workerDirs, index)` over a directory
    listing and file contents. A line without a space panics (`Err`).
  */
  function LoadDataFromIntermediateFiles(workerDirs: seq<Str>, listing: map<Str, seq<Str>>,
                                         fs: map<Str, Str>, index: int): (r: Result<seq<KeyValue>, ParseError>)
    ensures r.Ok? <==> forall p :: p in IntermediatePaths(workerDirs, listing, index) ==> ParseRecords(ReadOrEmpty(fs, p)).Ok?
  {
    LoadFiles(IntermediatePaths(workerDirs, listing, index), fs)
  }

  /** The per-file loads behind `LoadFiles` on clean batches: each batch, key-sorted. */
  lemma {:induction false} LoadFilesPieces(paths: seq<Str>, fs: map<Str, Str>, parts: seq<seq<KeyValue>>)
    returns (pieces: seq<seq<KeyValue>>)
    requires |parts| == |paths|
    requires forall i :: 0 <= i < |paths| ==> Clean(parts[i]) && ReadOrEmpty(fs, paths[i]) == Serialize(parts[i])
    ensures LoadFiles(paths, fs).Ok?
    ensures |pieces| == |parts| && LoadFiles(paths, fs).value == Concat(pieces)
    ensures forall i :: 0 <= i < |parts| ==> IsSortedPermutation(parts[i], pieces[i])
    decreases |paths|
  {
    if |paths| == 0 {
      pieces := [];
    } else {
      RecordsRoundTrip(parts[0]);
      var rest := LoadFilesPieces(paths[1..], fs, parts[1..]);
      pieces := [LoadIntermediateFile(ReadOrEmpty(fs, paths[0])).value] + rest;
      assert pieces[1..] == rest;
      forall i | 0 <= i < |parts| ensures IsSortedPermutation(parts[i], pieces[i]) {
        if i > 0 {
          assert parts[1..][i - 1] == parts[i];
        }
      }
    }
  }

  /** Loading clean batches keeps every pair exactly as often as the batches hold it. */
  lemma {:induction false} LoadFilesMultiset(paths: seq<Str>, fs: map<Str, Str>, parts: seq<seq<KeyValue>>)
    requires |parts| == |paths|
    requires forall i :: 0 <= i < |paths| ==> Clean(parts[i]) && ReadOrEmpty(fs, paths[i]) == Serialize(parts[i])
    ensures LoadFiles(paths, fs).Ok?
    ensures multiset(LoadFiles(paths, fs).value) == multiset(Concat(parts))
    decreases |paths|
  {
    if |paths| > 0 {
      RecordsRoundTrip(parts[0]);
      LoadFilesMultiset(paths[1..], fs, parts[1..]);
    }
  }

  /**
    When every visited file holds the records of a clean batch of pairs, the
    loaded pairs are those batches in listing order, each re-ordered by its
    file's sort into a key-sorted permutation of the batch.
  */
  lemma LoadFilesRoundTrip(paths: seq<Str>, fs: map<Str, Str>, parts: seq<seq<KeyValue>>)
    requires |parts| == |paths|
    requires forall i :: 0 <= i < |paths| ==> Clean(parts[i]) && ReadOrEmpty(fs, paths[i]) == Serialize(parts[i])
    ensures LoadFiles(paths, fs).Ok?
    ensures exists pieces: seq<seq<KeyValue>> ::
      && |pieces| == |parts|
      && LoadFiles(paths, fs).value == Concat(pieces)
      && forall i :: 0 <= i < |parts| ==> IsSortedPermutation(parts[i], pieces[i])
    ensures multiset(LoadFiles(paths, fs).value) == multiset(Concat(parts))
  {
    var pieces := LoadFilesPieces(paths, fs, parts);
    LoadFilesMultiset(paths, fs, parts);
  }

  /**
    The Reduce branch of `Run` after loading: sort the pairs by key, then
    the grouping loop; returns the records written to the output file.
  */
  method ReduceBranch(intermediate: seq<KeyValue>, reducef: (Str, seq<Str>) -> Str)
    returns (records: seq<KeyValue>, output: Str)
    ensures ReduceSpec(intermediate, records, reducef)
    ensures output == Serialize(records)
  {
    var sorted := SortByKey(intermediate);
    var groups;
    groups, records := ReduceRuns(sorted, reducef);
    SortThenReduceMeetsSpec(intermediate, sorted, reducef);
    output := WriteAll([], records);
    assert [] + Serialize(records) == Serialize(records);
  }

  /**
    A whole Reduce task: gather bucket `task.index` from every worker
    directory, then reduce. A malformed line is the error.
  */
  method RunReduceTask(task: Task, listing: map<Str, seq<Str>>, fs: map<Str, Str>,
                       reducef: (Str, seq<Str>) -> Str)
    returns (r: Result<seq<KeyValue>, ParseError>)
    requires task.ReduceTask?
    ensures r.Ok? <==> LoadDataFromIntermediateFiles(task.workerDirs, listing, fs, task.index).Ok?
    ensures r.Ok? ==> ReduceSpec(LoadDataFromIntermediateFiles(task.workerDirs, listing, fs, task.index).value,
                                 r.value, reducef)
  {
    var loaded := LoadDataFromIntermediateFiles(task.workerDirs, listing, fs, task.index);
    if loaded.Err? {
      return Err(loaded.error);
    }
    var records, _ := ReduceBranch(loaded.value, reducef);
    return Ok(records);
  }
}
