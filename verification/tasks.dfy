/**
  The task records the worker and coordinator exchange: a Map task (one input
  file) or a Reduce task (one bucket index), each with an integer status code
  and an integer type code.
*/
module Tasks {
  import opened Strings

  /** `TaskType` codes. */
  const Map: int := 0
  const Reduce: int := 1

  /** `TaskStatus` codes. Any other integer is a legal (unknown) status. */
  const NotStarted: int := 0
  const Running: int := 1
  const Success: int := 2
  const Failure: int := 3

  /** `MapTask` and `ReduceTask`, the two implementations of the `Task` interface. */
  datatype Task =
    | MapTask(id: int, status: int, inputFile: Str, index: int, taskType: int)
    | ReduceTask(id: int, status: int, index: int, outputDir: Str, outputFileName: Str,
                 workerDirs: seq<Str>, taskType: int)

  function GetId(t: Task): int {
    t.id
  }

  function GetStatus(t: Task): int {
    t.status
  }

  function GetTaskType(t: Task): int {
    t.taskType
  }

  /** The four named status codes. */
  predicate KnownStatus(code: int) {
    code == NotStarted || code == Running || code == Success || code == Failure
  }

  /** `IsSuccess` agrees with the display name: a task succeeded exactly when it shows "Success". */
  function IsSuccess(t: Task): (r: bool)
    ensures r <==> GetStatusStr(t) == "Success"
  {
    if t.status == Success then true
    else
      NotSuccessName(t.status);
      false
  }

  /** The display name of a status code, shared by both task kinds. */
  function StatusName(code: int): (r: Str)
    ensures !KnownStatus(code) <==> r == "Unknown"
  {
    if code == NotStarted then "Not Started"
    else if code == Running then "Running"
    else if code == Success then "Success"
    else if code == Failure then "Failure"
    else "Unknown"
  }

  function GetStatusStr(t: Task): (r: Str)
    ensures !KnownStatus(t.status) <==> r == "Unknown"
  {
    StatusName(t.status)
  }

  /** `SetStatus` on the task's pointer receiver: only the status changes. */
  function SetStatus(t: Task, code: int): (r: Task)
    ensures GetStatus(r) == code
    ensures r.MapTask? <==> t.MapTask?
    ensures GetId(r) == GetId(t) && GetTaskType(r) == GetTaskType(t) && r.index == t.index
    ensures r.MapTask? ==> r.inputFile == t.inputFile
    ensures r.ReduceTask? ==> r.outputDir == t.outputDir && r.outputFileName == t.outputFileName
                              && r.workerDirs == t.workerDirs
  {
    t.(status := code)
  }

  /** Two tasks agree everywhere except possibly in their status. */
  predicate SameButStatus(a: Task, b: Task) {
    a.(status := 0) == b.(status := 0)
  }

  /** A task is determined by its status and everything else. */
  lemma SetStatusDetermines(t: Task, u: Task)
    requires SameButStatus(t, u) && GetStatus(t) == GetStatus(u)
    ensures t == u
  {
    assert t == t.(status := 0).(status := GetStatus(t));
    assert u == u.(status := 0).(status := GetStatus(u));
  }

  /** The later of two `SetStatus` calls wins; setting the same status twice changes nothing more. */
  lemma SetStatusLastWins(t: Task, a: int, b: int)
    ensures SetStatus(SetStatus(t, a), b) == SetStatus(t, b)
    ensures SetStatus(SetStatus(t, a), a) == SetStatus(t, a)
    ensures SetStatus(t, GetStatus(t)) == t
  {
    SetStatusDetermines(SetStatus(SetStatus(t, a), b), SetStatus(t, b));
    SetStatusDetermines(SetStatus(t, GetStatus(t)), t);
  }

  /** Only the `Success` code is displayed as "Success". */
  lemma NotSuccessName(code: int)
    requires code != Success
    ensures StatusName(code) != "Success"
  {
    if KnownStatus(code) {
      assert StatusName(Success) == "Success";
      StatusNamesDistinct(code, Success);
    } else {
      var unknown: Str := "Unknown";
      assert unknown[0] != 'S';
    }
  }

  /** The four display names are different, so a known status can be read back from its name. */
  lemma StatusNamesDistinct(a: int, b: int)
    requires KnownStatus(a) && KnownStatus(b)
    ensures StatusName(a) == StatusName(b) <==> a == b
  {
    if a != b {
      var x, y := StatusName(a), StatusName(b);
      assert |x| != |y| || x[0] != y[0];
    }
  }

  /** The named status codes are four different values, and the two task types differ. */
  lemma CodesDistinct()
    ensures |{NotStarted, Running, Success, Failure}| == 4
    ensures Map != Reduce
  {
    assert {NotStarted, Running, Success, Failure} == {0, 1, 2, 3};
  }
}
