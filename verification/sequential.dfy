/**
  The sequential runtime: run `mapf` over every input file, keep all pairs in
  one list, sort it by key, and write one `key value` record per distinct key
  to the single output file.
*/
module Sequential {
  import opened Strings
  import opened Results
  import opened KeyValues
  import opened Records
  import opened Grouping

  /** `readFile` stops the process (`log.Fatalf`) on a file it cannot open; the name is the error. */
  datatype MapError = CannotOpen(filename: Str)

  /**
    `callMap`: the files are read in order and each file's pairs appended to
    the list; the first unreadable file ends the run.
  */
  function CallMap(mapf: (Str, Str) -> seq<KeyValue>, filenames: seq<Str>, fs: map<Str, Str>)
    : (r: Result<seq<KeyValue>, MapError>)
    ensures r.Ok? <==> forall i :: 0 <= i < |filenames| ==> filenames[i] in fs
    ensures r.Err? ==> exists i :: 0 <= i < |filenames| && r.error == CannotOpen(filenames[i])
                        && filenames[i] !in fs && forall j :: 0 <= j < i ==> filenames[j] in fs
    decreases |filenames|
  {
    if |filenames| == 0 then Ok([])
    else
      var n := |filenames| - 1;
      var front := filenames[..n];
      assert forall i :: 0 <= i < n ==> front[i] == filenames[i];
      var before :- CallMap(mapf, front, fs);
      var name := filenames[n];
      if name !in fs then Err(CannotOpen(name))
      else Ok(before + mapf(name, fs[name]))
  }

  /** Mapping two lists of files one after the other gives both outputs, in order. */
  lemma {:induction false} CallMapAppend(mapf: (Str, Str) -> seq<KeyValue>, a: seq<Str>, b: seq<Str>, fs: map<Str, Str>)
    requires forall i :: 0 <= i < |a| ==> a[i] in fs
    requires forall i :: 0 <= i < |b| ==> b[i] in fs
    ensures CallMap(mapf, a + b, fs).Ok? && CallMap(mapf, a, fs).Ok? && CallMap(mapf, b, fs).Ok?
    ensures CallMap(mapf, a + b, fs).value == CallMap(mapf, a, fs).value + CallMap(mapf, b, fs).value
    decreases |b|
  {
    var ab := a + b;
    assert forall i :: 0 <= i < |ab| ==> ab[i] in fs by {
      forall i | 0 <= i < |ab| ensures ab[i] in fs {
        if i >= |a| {
          assert ab[i] == b[i - |a|];
        }
      }
    }
    if |b| == 0 {
      assert ab == a;
      assert CallMap(mapf, b, fs) == Ok([]);
    } else {
      var n := |b| - 1;
      var b1 := b[..n];
      assert ab[..|ab| - 1] == a + b1;
      assert ab[|ab| - 1] == b[n];
      CallMapAppend(mapf, a, b1, fs);
      var x := CallMap(mapf, a, fs).value;
      var y := CallMap(mapf, b1, fs).value;
      var z := mapf(b[n], fs[b[n]]);
      assert CallMap(mapf, ab, fs).value == (x + y) + z;
      assert CallMap(mapf, b, fs).value == y + z;
      AppendAssociative(x, y, z);
    }
  }

  /** Mapping one file gives exactly `mapf`'s output for it. */
  lemma CallMapSingle(mapf: (Str, Str) -> seq<KeyValue>, name: Str, fs: map<Str, Str>)
    requires name in fs
    ensures CallMap(mapf, [name], fs) == Ok(mapf(name, fs[name]))
  {
    assert [name][..0] == [];
    assert [] + mapf(name, fs[name]) == mapf(name, fs[name]);
  }

  /**
    `callReduce`: the grouping loop over the list as given, each record
    written with `writeRecord`. On a key-sorted list it writes what the
    reduce specification allows; on an empty list it writes nothing.
  */
  method CallReduce(reducef: (Str, seq<Str>) -> Str, intermediate: seq<KeyValue>)
    returns (records: seq<KeyValue>, output: Str)
    ensures records == ReduceOutputs(Runs(intermediate), reducef)
    ensures Keys(records) == Keys(intermediate)
    ensures var runs := Runs(intermediate);
      && |records| == |runs|
      && forall i :: 0 <= i < |records| ==> records[i].value == reducef(runs[i].key, runs[i].values)
    ensures SortedByKey(intermediate) ==> ReduceSpec(intermediate, records, reducef)
    ensures |intermediate| == 0 ==> records == []
    ensures output == Serialize(records)
  {
    var groups;
    groups, records := ReduceRuns(intermediate, reducef);
    OutputKeys(groups, reducef);
    RunsCoverKeys(intermediate);
    if SortedByKey(intermediate) {
      SortThenReduceMeetsSpec(intermediate, intermediate, reducef);
    }
    output := WriteAll([], records);
    assert [] + Serialize(records) == Serialize(records);
  }

  /**
    `Run`: map every file, sort the pairs by key, reduce. The records
    written are one per distinct key of all Map output, keys increasing,
    each reduced from exactly that key's values.
  */
  method Run(mapf: (Str, Str) -> seq<KeyValue>, reducef: (Str, seq<Str>) -> Str,
             filenames: seq<Str>, fs: map<Str, Str>)
    returns (r: Result<seq<KeyValue>, MapError>, output: Str)
    ensures r.Ok? <==> CallMap(mapf, filenames, fs).Ok?
    ensures r.Ok? ==> ReduceSpec(CallMap(mapf, filenames, fs).value, r.value, reducef)
    ensures r.Ok? ==> output == Serialize(r.value)
  {
    var mapped := CallMap(mapf, filenames, fs);
    if mapped.Err? {
      return Err(mapped.error), [];
    }
    var sorted := SortByKey(mapped.value);
    var records;
    records, output := CallReduce(reducef, sorted);
    ReduceSpecIgnoresOrder(sorted, mapped.value, records, reducef);
    r := Ok(records);
  }
}
