/**
  The coordinator's scheduling state in the variant kept in `coordinator.go`:
  a list of map tasks, a list of reduce tasks and a list of registered
  workers. Handing out a task, reporting a task's status and registering a
  worker are modelled as they are written there.
*/
module Coordinator {
  import opened Strings
  import opened Numbers
  import opened Results
  import opened Partitioning
  import Tasks

  datatype Phase = MapPhase | ReducePhase

  /** The per-task arguments (the shared table of open intermediate files is not modelled). */
  datatype TaskArgs =
    | MapArgs(inputFile: Str, index: int)
    | ReduceArgs(index: int, intermediateDir: Str, outputDir: Str, intermediateFile: Str, outputFileName: Str)

  datatype Task = Task(id: int, phase: Phase, status: int, args: TaskArgs)

  /** `worker{id, status}` as the coordinator records it. */
  datatype WorkerEntry = WorkerEntry(id: int, status: Str)

  /** `tasks["map"]`, `tasks["reduce"]` and `workers`. */
  datatype Coordinator = Coordinator(workers: seq<WorkerEntry>, mapTasks: seq<Task>, reduceTasks: seq<Task>)

  predicate IsSuccess(t: Task) {
    t.status == Tasks.Success
  }

  /** `fmt.Sprintf("out-%d", index)`. */
  function OutputName(index: nat): (r: Str)
    ensures |r| > |"out-"| && r[..|"out-"|] == "out-"
    ensures AllDigits(r[|"out-"|..]) && DigitsValue(r[|"out-"|..]) == index
  {
    "out-" + FormatNat(index)
  }

  function MapTasksFor(files: seq<Str>): (ts: seq<Task>)
    ensures |ts| == |files|
    ensures forall i :: 0 <= i < |files| ==> ts[i] == Task(i, MapPhase, Tasks.NotStarted, MapArgs(files[i], i))
  {
    seq(|files|, i requires 0 <= i < |files| => Task(i, MapPhase, Tasks.NotStarted, MapArgs(files[i], i)))
  }

  function ReduceTasksFor(nReduce: nat, intermediateDir: Str, outputDir: Str): (ts: seq<Task>)
    ensures |ts| == nReduce
    ensures forall i :: 0 <= i < nReduce ==>
      ts[i] == Task(i, ReducePhase, Tasks.NotStarted,
                    ReduceArgs(i, intermediateDir, outputDir, IntermediateName(i), OutputName(i)))
  {
    seq(nReduce, i requires 0 <= i < nReduce =>
      Task(i, ReducePhase, Tasks.NotStarted, ReduceArgs(i, intermediateDir, outputDir, IntermediateName(i), OutputName(i))))
  }

  /**
    `MakeCoordinator(files, nReduce)`: one map task per input file and one
    reduce task per bucket (none when `nReduce` is not positive), all
    `NotStarted`, and no workers. The two directory constants are parameters.
  */
  function MakeCoordinator(files: seq<Str>, nReduce: int, intermediateDir: Str, outputDir: Str): (c: Coordinator)
    ensures c.workers == []
    ensures |c.mapTasks| == |files|
    ensures |c.reduceTasks| == if nReduce > 0 then nReduce else 0
    ensures forall i :: 0 <= i < |files| ==>
      && c.mapTasks[i].id == i && c.mapTasks[i].phase == MapPhase && c.mapTasks[i].status == Tasks.NotStarted
      && c.mapTasks[i].args.MapArgs? && c.mapTasks[i].args.inputFile == files[i] && c.mapTasks[i].args.index == i
    ensures forall i :: 0 <= i < |c.reduceTasks| ==>
      && c.reduceTasks[i].id == i && c.reduceTasks[i].phase == ReducePhase && c.reduceTasks[i].status == Tasks.NotStarted
      && c.reduceTasks[i].args.ReduceArgs? && c.reduceTasks[i].args.index == i
      && c.reduceTasks[i].args.outputFileName == OutputName(i)
      && c.reduceTasks[i].args.intermediateFile == IntermediateName(i)
  {
    Coordinator([], MapTasksFor(files), ReduceTasksFor(if nReduce > 0 then nReduce else 0, intermediateDir, outputDir))
  }

  /** The `for ... range` loop that returns false at the first unfinished task. */
  function AllSuccess(ts: seq<Task>): (r: bool)
    ensures r <==> forall i :: 0 <= i < |ts| ==> IsSuccess(ts[i])
    decreases |ts|
  {
    if |ts| == 0 then true
    else if !IsSuccess(ts[0]) then false
    else
      assert forall i :: 1 <= i < |ts| ==> ts[1..][i - 1] == ts[i];
      AllSuccess(ts[1..])
  }

  /** `Done()`: both task lists are checked (the map's iteration order does not matter). */
  function Done(c: Coordinator): (r: bool)
    ensures r <==> ((forall i :: 0 <= i < |c.mapTasks| ==> IsSuccess(c.mapTasks[i]))
                    && (forall i :: 0 <= i < |c.reduceTasks| ==> IsSuccess(c.reduceTasks[i])))
  {
    AllSuccess(c.mapTasks) && AllSuccess(c.reduceTasks)
  }

  function MapTasksAreDone(c: Coordinator): (r: bool)
    ensures r <==> forall i :: 0 <= i < |c.mapTasks| ==> IsSuccess(c.mapTasks[i])
  {
    AllSuccess(c.mapTasks)
  }

  /** A finished job has in particular finished its map phase. */
  lemma DoneImpliesMapTasksDone(c: Coordinator)
    ensures Done(c) ==> MapTasksAreDone(c)
    ensures Done(c) <==> MapTasksAreDone(c) && AllSuccess(c.reduceTasks)
  {
  }

  /** The `completedTasks` counter of `Coordinator.Run`. */
  function CountSuccess(ts: seq<Task>): (r: nat)
    ensures r <= |ts|
    decreases |ts|
  {
    if |ts| == 0 then 0 else (if IsSuccess(ts[0]) then 1 else 0) + CountSuccess(ts[1..])
  }

  /** A task list is finished exactly when every one of its tasks counts as completed. */
  lemma {:induction false} CountSuccessAll(ts: seq<Task>)
    ensures CountSuccess(ts) == |ts| <==> AllSuccess(ts)
    decreases |ts|
  {
    if |ts| > 0 {
      CountSuccessAll(ts[1..]);
    }
  }

  /** `Done()` agrees with the progress counters: completed tasks equal total tasks. */
  lemma DoneIffAllCompleted(c: Coordinator)
    ensures Done(c) <==> CountSuccess(c.mapTasks) + CountSuccess(c.reduceTasks) == |c.mapTasks| + |c.reduceTasks|
  {
    CountSuccessAll(c.mapTasks);
    CountSuccessAll(c.reduceTasks);
  }

  /** The position of the first `NotStarted` task, if any. */
  function FirstNotStarted(ts: seq<Task>): (r: Option<nat>)
    ensures r.None? <==> forall i :: 0 <= i < |ts| ==> ts[i].status != Tasks.NotStarted
    ensures r.Some? ==> r.value < |ts| && ts[r.value].status == Tasks.NotStarted
                        && forall i :: 0 <= i < r.value ==> ts[i].status != Tasks.NotStarted
    decreases |ts|
  {
    if |ts| == 0 then None
    else if ts[0].status == Tasks.NotStarted then Some(0)
    else
      var rest := FirstNotStarted(ts[1..]);
      assert forall i :: 1 <= i < |ts| ==> ts[1..][i - 1] == ts[i];
      if rest.None? then None else Some(rest.value + 1)
  }

  /** Which task `SendTask` copied into its reply: its phase and its position in that phase's list. */
  datatype Pick = Pick(phase: Phase, position: nat)

  /**
    `SendTask`'s reply. The copied task fields are represented by `picked`;
    `ok` is never assigned, so it keeps its zero value.
  */
  datatype SendReply = SendReply(ok: bool, picked: Option<Pick>)

  /**
    `SendTask` as written: while some map task is unfinished only map tasks
    are considered, otherwise only reduce tasks; the first `NotStarted` one
    is copied into the reply. No task's status changes.
  */
  function SendTask(c: Coordinator): (r: (Coordinator, SendReply))
    ensures r.0 == c
    ensures !r.1.ok
    ensures r.1.picked.Some? && r.1.picked.value.phase == MapPhase ==>
      r.1.picked.value.position < |c.mapTasks| && c.mapTasks[r.1.picked.value.position].status == Tasks.NotStarted
    ensures r.1.picked.Some? && r.1.picked.value.phase == ReducePhase ==>
      r.1.picked.value.position < |c.reduceTasks| && c.reduceTasks[r.1.picked.value.position].status == Tasks.NotStarted
  {
    var picked :=
      if !MapTasksAreDone(c) then
        (match FirstNotStarted(c.mapTasks)
         case None => None
         case Some(p) => Some(Pick(MapPhase, p)))
      else
        (match FirstNotStarted(c.reduceTasks)
         case None => None
         case Some(p) => Some(Pick(ReducePhase, p)));
    (c, SendReply(false, picked))
  }

  /**
    The phase barrier: a reduce task is handed out only after every map task
    succeeded, and while maps are unfinished the first `NotStarted` map task
    is the one handed out (nothing when none is `NotStarted`, even if reduce
    tasks wait).
  */
  lemma SendTaskPhaseBarrier(c: Coordinator)
    ensures SendTask(c).1.picked.Some? && SendTask(c).1.picked.value.phase == ReducePhase ==> MapTasksAreDone(c)
    ensures !MapTasksAreDone(c) ==>
      match FirstNotStarted(c.mapTasks)
      case None => SendTask(c).1.picked.None?
      case Some(p) => SendTask(c).1.picked == Some(Pick(MapPhase, p))
    ensures MapTasksAreDone(c) ==>
      match FirstNotStarted(c.reduceTasks)
      case None => SendTask(c).1.picked.None?
      case Some(p) => SendTask(c).1.picked == Some(Pick(ReducePhase, p))
  {
  }

  /** Handing out a task leaves every status as it was, so the same task is handed out again. */
  lemma SendTaskRepeats(c: Coordinator)
    ensures SendTask(SendTask(c).0).1 == SendTask(c).1
  {
  }

  /** A fresh job is done only when it has no tasks, and its first request gets map task 0. */
  lemma FreshCoordinator(files: seq<Str>, nReduce: int, intermediateDir: Str, outputDir: Str)
    ensures Done(MakeCoordinator(files, nReduce, intermediateDir, outputDir)) <==> |files| == 0 && nReduce <= 0
    ensures |files| > 0 ==>
      SendTask(MakeCoordinator(files, nReduce, intermediateDir, outputDir)).1.picked == Some(Pick(MapPhase, 0))
    ensures |files| == 0 && nReduce > 0 ==>
      SendTask(MakeCoordinator(files, nReduce, intermediateDir, outputDir)).1.picked == Some(Pick(ReducePhase, 0))
  {
    var c := MakeCoordinator(files, nReduce, intermediateDir, outputDir);
    if |files| > 0 {
      assert !IsSuccess(c.mapTasks[0]);
    } else if nReduce > 0 {
      assert !IsSuccess(c.reduceTasks[0]);
    }
  }

  /** `TaskStatusArgs` in the shape this file reads it: an id, a phase and the new status. */
  datatype StatusReport = StatusReport(id: int, phase: Phase, status: int)

  /**
    `GetTaskStatus` as written: the new status is assigned to the `range`
    loop's copy of each matching task, so the stored lists do not change;
    the reply is always `Ok`.
  */
  function GetTaskStatus(c: Coordinator, report: StatusReport): (r: (Coordinator, bool))
    ensures r.1
    ensures r.0.mapTasks == c.mapTasks && r.0.reduceTasks == c.reduceTasks && r.0.workers == c.workers
  {
    (c, true)
  }

  /** Reporting success for a task of an unfinished job leaves the job unfinished. */
  lemma GetTaskStatusLosesReport(c: Coordinator, report: StatusReport)
    requires !Done(c)
    ensures !Done(GetTaskStatus(c, report).0)
  {
  }

  /** A concrete run: one input file, its map task reported done, and the job is still not done. */
  lemma GetTaskStatusCounterexample()
    ensures var c := MakeCoordinator(["in.txt"], 0, "i", "o");
      && !Done(GetTaskStatus(c, StatusReport(0, MapPhase, Tasks.Success)).0)
      && Done(ReportStatus(c, StatusReport(0, MapPhase, Tasks.Success)).0)
  {
    var c := MakeCoordinator(["in.txt"], 0, "i", "o");
    assert !IsSuccess(c.mapTasks[0]);
    var after := ReportStatus(c, StatusReport(0, MapPhase, Tasks.Success)).0;
    assert IsSuccess(after.mapTasks[0]);
  }

  /** Every task of `ts` with the reported id takes the reported status. */
  function UpdateStatus(ts: seq<Task>, id: int, status: int): (r: seq<Task>)
    ensures |r| == |ts|
    ensures forall i :: 0 <= i < |ts| ==>
      && r[i].id == ts[i].id && r[i].phase == ts[i].phase && r[i].args == ts[i].args
      && r[i].status == (if ts[i].id == id then status else ts[i].status)
  {
    seq(|ts|, i requires 0 <= i < |ts| => if ts[i].id == id then ts[i].(status := status) else ts[i])
  }

  /** `GetTaskStatus` as evidently intended: the stored tasks of the reported phase are updated. */
  function ReportStatus(c: Coordinator, report: StatusReport): (r: (Coordinator, bool))
    ensures r.1
    ensures r.0.workers == c.workers
    ensures report.phase == MapPhase ==>
      r.0.mapTasks == UpdateStatus(c.mapTasks, report.id, report.status) && r.0.reduceTasks == c.reduceTasks
    ensures report.phase == ReducePhase ==>
      r.0.reduceTasks == UpdateStatus(c.reduceTasks, report.id, report.status) && r.0.mapTasks == c.mapTasks
  {
    if report.phase == MapPhase then
      (c.(mapTasks := UpdateStatus(c.mapTasks, report.id, report.status)), true)
    else
      (c.(reduceTasks := UpdateStatus(c.reduceTasks, report.id, report.status)), true)
  }

  /** Reports of success, applied one after another with `ReportStatus`. */
  function ReportAll(c: Coordinator, reports: seq<StatusReport>): Coordinator
    decreases |reports|
  {
    if |reports| == 0 then c else ReportAll(ReportStatus(c, reports[0]).0, reports[1..])
  }

  /** One success report per task id of a list. */
  function SuccessReports(ts: seq<Task>, phase: Phase): (r: seq<StatusReport>)
    ensures |r| == |ts|
    ensures forall i :: 0 <= i < |ts| ==> r[i] == StatusReport(ts[i].id, phase, Tasks.Success)
  {
    seq(|ts|, i requires 0 <= i < |ts| => StatusReport(ts[i].id, phase, Tasks.Success))
  }

  /** Success once set stays set under further success reports, and reported tasks become successful. */
  lemma {:induction false} ReportAllSucceeds(c: Coordinator, reports: seq<StatusReport>)
    requires forall k :: 0 <= k < |reports| ==> reports[k].status == Tasks.Success
    ensures var d := ReportAll(c, reports);
      && |d.mapTasks| == |c.mapTasks| && |d.reduceTasks| == |c.reduceTasks|
      && (forall i :: 0 <= i < |c.mapTasks| ==>
            d.mapTasks[i].id == c.mapTasks[i].id
            && (IsSuccess(c.mapTasks[i]) || StatusReport(c.mapTasks[i].id, MapPhase, Tasks.Success) in reports
                ==> IsSuccess(d.mapTasks[i])))
      && (forall i :: 0 <= i < |c.reduceTasks| ==>
            d.reduceTasks[i].id == c.reduceTasks[i].id
            && (IsSuccess(c.reduceTasks[i]) || StatusReport(c.reduceTasks[i].id, ReducePhase, Tasks.Success) in reports
                ==> IsSuccess(d.reduceTasks[i])))
    decreases |reports|
  {
    if |reports| > 0 {
      var next := ReportStatus(c, reports[0]).0;
      ReportAllSucceeds(next, reports[1..]);
      forall k | 0 <= k < |reports| && k > 0 ensures reports[k] in reports[1..] {
        assert reports[1..][k - 1] == reports[k];
      }
    }
  }

  /**
    With the corrected status update, reporting success for every map task
    and then every reduce task finishes the job.
  */
  lemma ReportingEveryTaskFinishesJob(c: Coordinator)
    ensures Done(ReportAll(c, SuccessReports(c.mapTasks, MapPhase) + SuccessReports(c.reduceTasks, ReducePhase)))
  {
    var reports := SuccessReports(c.mapTasks, MapPhase) + SuccessReports(c.reduceTasks, ReducePhase);
    var m := |c.mapTasks|;
    forall i | 0 <= i < m ensures StatusReport(c.mapTasks[i].id, MapPhase, Tasks.Success) in reports {
      assert reports[i] == StatusReport(c.mapTasks[i].id, MapPhase, Tasks.Success);
    }
    forall i | 0 <= i < |c.reduceTasks|
      ensures StatusReport(c.reduceTasks[i].id, ReducePhase, Tasks.Success) in reports
    {
      assert reports[m + i] == StatusReport(c.reduceTasks[i].id, ReducePhase, Tasks.Success);
    }
    ReportAllSucceeds(c, reports);
  }

  /** `RegisterWorker`: one idle entry appended; the reply is always `Ok`. */
  function RegisterWorker(c: Coordinator, workerId: int): (r: (Coordinator, bool))
    ensures r.1
    ensures |r.0.workers| == |c.workers| + 1
    ensures r.0.workers[..|c.workers|] == c.workers
    ensures r.0.workers[|c.workers|] == WorkerEntry(workerId, "idle")
    ensures r.0.mapTasks == c.mapTasks && r.0.reduceTasks == c.reduceTasks
  {
    (c.(workers := c.workers + [WorkerEntry(workerId, "idle")]), true)
  }

  /** Registrations are recorded in arrival order, one entry each. */
  lemma {:induction false} RegisterWorkersInOrder(c: Coordinator, ids: seq<int>)
    ensures RegisterAll(c, ids).workers == c.workers + seq(|ids|, i requires 0 <= i < |ids| => WorkerEntry(ids[i], "idle"))
    decreases |ids|
  {
    var entries := seq(|ids|, i requires 0 <= i < |ids| => WorkerEntry(ids[i], "idle"));
    if |ids| == 0 {
      assert entries == [];
    } else {
      var next := RegisterWorker(c, ids[0]).0;
      RegisterWorkersInOrder(next, ids[1..]);
      var rest := seq(|ids[1..]|, i requires 0 <= i < |ids[1..]| => WorkerEntry(ids[1..][i], "idle"));
      assert entries == [WorkerEntry(ids[0], "idle")] + rest;
      AppendAssociative(c.workers, [WorkerEntry(ids[0], "idle")], rest);
    }
  }

  function RegisterAll(c: Coordinator, ids: seq<int>): Coordinator
    decreases |ids|
  {
    if |ids| == 0 then c else RegisterAll(RegisterWorker(c, ids[0]).0, ids[1..])
  }
}
