/**
  The Reduce loop shared by the worker and both runtimes: over the sorted
  intermediate pairs, find each maximal run of equal keys (`i` to `j`),
  collect its values and call `reducef` once for the run.
*/
module Grouping {
  import opened Strings
  import opened KeyValues

  /** The arguments of one `reducef` call: a key and the values of its run. */
  datatype Group = Group(key: Str, values: seq<Str>)

  /** The pairs a group stands for. */
  function Expand(g: Group): (r: seq<KeyValue>)
    ensures |r| == |g.values|
  {
    seq(|g.values|, i requires 0 <= i < |g.values| => KeyValue(g.key, g.values[i]))
  }

  function Flatten(gs: seq<Group>): seq<KeyValue>
    decreases |gs|
  {
    if |gs| == 0 then [] else Expand(gs[0]) + Flatten(gs[1..])
  }

  /** Length of the leading run of pairs whose key is `k` (the inner `j` loop). */
  function RunLength(s: seq<KeyValue>, k: Str): (r: nat)
    ensures r <= |s|
    ensures forall i :: 0 <= i < r ==> s[i].key == k
    ensures r < |s| ==> s[r].key != k
    decreases |s|
  {
    if |s| == 0 || s[0].key != k then 0 else 1 + RunLength(s[1..], k)
  }

  predicate AdjacentKeysDiffer(gs: seq<Group>) {
    forall i :: 0 < i < |gs| ==> gs[i - 1].key != gs[i].key
  }

  predicate StrictlyIncreasingKeys(gs: seq<Group>) {
    forall i, j :: 0 <= i < j < |gs| ==> Less(gs[i].key, gs[j].key)
  }

  function GroupKeys(gs: seq<Group>): set<Str> {
    set i | 0 <= i < |gs| :: gs[i].key
  }

  lemma ExpandOfRun(s: seq<KeyValue>, k: Str)
    requires forall i :: 0 <= i < |s| ==> s[i].key == k
    ensures Expand(Group(k, Values(s))) == s
  {
  }

  /**
    The maximal runs of equal keys, in sequence order: the groups the Reduce
    loop hands to `reducef`. Together they are exactly the input, each run is
    non-empty, and neighbouring runs have different keys.
  */
  function Runs(s: seq<KeyValue>): (gs: seq<Group>)
    ensures Flatten(gs) == s
    ensures forall i :: 0 <= i < |gs| ==> |gs[i].values| > 0
    ensures AdjacentKeysDiffer(gs)
    ensures |s| > 0 ==> |gs| > 0 && gs[0].key == s[0].key
    decreases |s|
  {
    if |s| == 0 then []
    else
      var k := s[0].key;
      var j := RunLength(s, k);
      var first := Group(k, Values(s[..j]));
      var rest := Runs(s[j..]);
      var gs := [first] + rest;
      assert gs[1..] == rest;
      ExpandOfRun(s[..j], k);
      assert s == s[..j] + s[j..];
      gs
  }

  /** What the loop finds between `i` and `j` is the first run of `s[i..]`. */
  lemma RunsStep(s: seq<KeyValue>, i: nat, j: nat)
    requires i < j <= |s|
    requires forall m :: i <= m < j ==> s[m].key == s[i].key
    requires j < |s| ==> s[j].key != s[i].key
    ensures Runs(s[i..]) == [Group(s[i].key, Values(s[i..j]))] + Runs(s[j..])
  {
    var t := s[i..];
    assert RunLength(t, t[0].key) == j - i;
    assert t[..j - i] == s[i..j];
    assert t[j - i..] == s[j..];
  }

  lemma GroupKeysCons(g: Group, rest: seq<Group>)
    ensures GroupKeys([g] + rest) == {g.key} + GroupKeys(rest)
  {
    var gs := [g] + rest;
    forall x | x in GroupKeys(rest) ensures x in GroupKeys(gs) {
      var i :| 0 <= i < |rest| && rest[i].key == x;
      assert gs[i + 1].key == x;
    }
    forall x | x in GroupKeys(gs) ensures x in {g.key} + GroupKeys(rest) {
      var i :| 0 <= i < |gs| && gs[i].key == x;
      if i > 0 {
        assert rest[i - 1].key == x;
      } else {
        assert gs[0] == g;
      }
    }
  }

  lemma KeysOfRunThenRest(s: seq<KeyValue>, j: nat)
    requires 0 < j <= |s|
    requires forall i :: 0 <= i < j ==> s[i].key == s[0].key
    ensures Keys(s) == {s[0].key} + Keys(s[j..])
  {
    forall x | x in Keys(s) ensures x in {s[0].key} + Keys(s[j..]) {
      var i :| 0 <= i < |s| && s[i].key == x;
      if i >= j {
        assert s[j..][i - j] == s[i];
      }
    }
    forall x | x in Keys(s[j..]) ensures x in Keys(s) {
      var i :| 0 <= i < |s[j..]| && s[j..][i].key == x;
      assert s[i + j].key == x;
    }
    assert s[0].key in Keys(s);
  }

  /** Every key of the input has a run and every run's key comes from the input. */
  lemma {:induction false} RunsCoverKeys(s: seq<KeyValue>)
    ensures GroupKeys(Runs(s)) == Keys(s)
    decreases |s|
  {
    if |s| > 0 {
      var k := s[0].key;
      var j := RunLength(s, k);
      var rest := Runs(s[j..]);
      assert Runs(s) == [Group(k, Values(s[..j]))] + rest;
      RunsCoverKeys(s[j..]);
      GroupKeysCons(Group(k, Values(s[..j])), rest);
      KeysOfRunThenRest(s, j);
    }
  }

  /** The records the loop writes: each run's key with `reducef` of its values. */
  function ReduceOutputs(gs: seq<Group>, reducef: (Str, seq<Str>) -> Str): seq<KeyValue> {
    seq(|gs|, i requires 0 <= i < |gs| => KeyValue(gs[i].key, reducef(gs[i].key, gs[i].values)))
  }

  lemma LoopStep(s: seq<KeyValue>, i: nat, j: nat, groups: seq<Group>)
    requires i < j <= |s|
    requires forall m :: i <= m < j ==> s[m].key == s[i].key
    requires j < |s| ==> s[j].key != s[i].key
    requires groups + Runs(s[i..]) == Runs(s)
    ensures (groups + [Group(s[i].key, Values(s[i..j]))]) + Runs(s[j..]) == Runs(s)
  {
    RunsStep(s, i, j);
    AppendAssociative(groups, [Group(s[i].key, Values(s[i..j]))], Runs(s[j..]));
  }

  lemma ReduceOutputsSnoc(gs: seq<Group>, g: Group, reducef: (Str, seq<Str>) -> Str)
    ensures ReduceOutputs(gs + [g], reducef)
         == ReduceOutputs(gs, reducef) + [KeyValue(g.key, reducef(g.key, g.values))]
  {
  }

  /**
    The `i`/`j` loop itself. It calls `reducef` once per maximal run of equal
    keys, passing the run's values in sequence order, and consumes every pair
    exactly once; on sorted input the written keys strictly increase.
  */
  method ReduceRuns(intermediate: seq<KeyValue>, reducef: (Str, seq<Str>) -> Str)
    returns (groups: seq<Group>, records: seq<KeyValue>)
    ensures groups == Runs(intermediate)
    ensures Flatten(groups) == intermediate
    ensures records == ReduceOutputs(groups, reducef)
    ensures |records| == |groups|
    ensures forall g :: 0 <= g < |records| ==>
      records[g].key == groups[g].key && records[g].value == reducef(groups[g].key, groups[g].values)
    ensures |intermediate| == 0 ==> records == []
  {
    groups := [];
    records := [];
    var i := 0;
    while i < |intermediate|
      invariant 0 <= i <= |intermediate|
      invariant groups + Runs(intermediate[i..]) == Runs(intermediate)
      invariant records == ReduceOutputs(groups, reducef)
    {
      var j := RunEnd(intermediate, i);
      var values := CollectValues(intermediate, i, j);
      var output := reducef(intermediate[i].key, values);
      LoopStep(intermediate, i, j, groups);
      var group := Group(intermediate[i].key, values);
      ReduceOutputsSnoc(groups, group, reducef);
      groups := groups + [group];
      records := records + [KeyValue(intermediate[i].key, output)];
      i := j;
    }
    assert intermediate[i..] == [];
    assert groups + [] == groups;
  }

  /** The inner `j` loop: the end of the run of `s[i].key` that starts at `i`. */
  method RunEnd(s: seq<KeyValue>, i: nat) returns (j: nat)
    requires i < |s|
    ensures i < j <= |s|
    ensures forall m :: i <= m < j ==> s[m].key == s[i].key
    ensures j < |s| ==> s[j].key != s[i].key
  {
    j := i + 1;
    while j < |s| && s[j].key == s[i].key
      invariant i < j <= |s|
      invariant forall m :: i <= m < j ==> s[m].key == s[i].key
    {
      j := j + 1;
    }
  }

  /** The `k` loop: the values of `s[i..j]`, in sequence order. */
  method CollectValues(s: seq<KeyValue>, i: nat, j: nat) returns (values: seq<Str>)
    requires i <= j <= |s|
    ensures values == Values(s[i..j])
  {
    values := [];
    var k := i;
    while k < j
      invariant i <= k <= j
      invariant values == Values(s[i..k])
    {
      assert s[i..k + 1] == s[i..k] + [s[k]];
      values := values + [s[k].value];
      k := k + 1;
    }
  }

  lemma {:induction false} RunKeysAtLeast(s: seq<KeyValue>, g: nat)
    requires SortedByKey(s) && |s| > 0 && g < |Runs(s)|
    ensures LessOrEqual(s[0].key, Runs(s)[g].key)
  {
    var gs := Runs(s);
    RunsCoverKeys(s);
    assert gs[g].key in GroupKeys(gs);
    var i :| 0 <= i < |s| && s[i].key == gs[g].key;
    if i > 0 {
      assert LessOrEqual(s[0].key, s[i].key);
    } else {
      LessIrreflexive(s[0].key);
    }
  }

  lemma SortedSuffix(s: seq<KeyValue>, j: nat)
    requires SortedByKey(s) && j <= |s|
    ensures SortedByKey(s[j..])
  {
    forall a, b | 0 <= a < b < |s[j..]| ensures LessOrEqual(s[j..][a].key, s[j..][b].key) {
      assert s[j..][a] == s[j + a] && s[j..][b] == s[j + b];
    }
  }

  /** On key-sorted input the runs' keys strictly increase: each key gets one run. */
  lemma {:induction false} RunsOfSortedIncrease(s: seq<KeyValue>)
    requires SortedByKey(s)
    ensures StrictlyIncreasingKeys(Runs(s))
    decreases |s|
  {
    if |s| > 0 {
      var gs := Runs(s);
      var k := s[0].key;
      var j := RunLength(s, k);
      var rest := Runs(s[j..]);
      assert gs == [Group(k, Values(s[..j]))] + rest;
      SortedSuffix(s, j);
      RunsOfSortedIncrease(s[j..]);
      forall a, b | 0 <= a < b < |gs| ensures Less(gs[a].key, gs[b].key) {
        if a == 0 {
          assert gs[b] == rest[b - 1];
          RunKeysAtLeast(s[j..], b - 1);
          assert j < |s|;
          assert LessOrEqual(k, s[j].key);
          assert s[j..][0] == s[j];
          LessOrEqualNotEqual(k, s[j].key);
          if s[j].key != rest[b - 1].key {
            LessOrEqualNotEqual(s[j].key, rest[b - 1].key);
            LessTransitive(k, s[j].key, rest[b - 1].key);
          }
        } else {
          assert gs[a] == rest[a - 1] && gs[b] == rest[b - 1];
        }
      }
    }
  }

  /** On key-sorted input a run's values are all the values of its key, in sequence order. */
  lemma {:induction false} RunsOfSortedCollectAllValues(s: seq<KeyValue>)
    requires SortedByKey(s)
    ensures forall g :: 0 <= g < |Runs(s)| ==> Runs(s)[g].values == ValuesWithKey(s, Runs(s)[g].key)
    decreases |s|
  {
    if |s| > 0 {
      var gs := Runs(s);
      var k := s[0].key;
      var j := RunLength(s, k);
      var rest := Runs(s[j..]);
      assert gs == [Group(k, Values(s[..j]))] + rest;
      SortedSuffix(s, j);
      RunsOfSortedCollectAllValues(s[j..]);
      assert s == s[..j] + s[j..];
      ValuesWithKeyOfRun(s[..j], k);
      RunsOfSortedIncrease(s);
      forall g | 0 <= g < |gs| ensures gs[g].values == ValuesWithKey(s, gs[g].key) {
        var key := gs[g].key;
        ValuesWithKeyAppend(s[..j], s[j..], key);
        if g == 0 {
          assert k !in Keys(s[j..]);
          ValuesWithAbsentKey(s[j..], k);
        } else {
          assert gs[g] == rest[g - 1];
          assert key != k;
          if |s[..j]| > 0 {
            ValuesWithAbsentKey(s[..j], key);
          }
        }
      }
    }
  }

  function TotalValues(gs: seq<Group>): nat
    decreases |gs|
  {
    if |gs| == 0 then 0 else |gs[0].values| + TotalValues(gs[1..])
  }

  /** The run sizes add up to the number of pairs: nothing is dropped or repeated. */
  lemma {:induction false} FlattenLength(gs: seq<Group>)
    ensures |Flatten(gs)| == TotalValues(gs)
    decreases |gs|
  {
    if |gs| > 0 {
      FlattenLength(gs[1..]);
    }
  }

  /** With strictly increasing keys there are as many runs as distinct keys. */
  lemma {:induction false} DistinctGroupKeys(gs: seq<Group>)
    requires StrictlyIncreasingKeys(gs)
    ensures |GroupKeys(gs)| == |gs|
    decreases |gs|
  {
    if |gs| > 0 {
      var rest := gs[1..];
      assert StrictlyIncreasingKeys(rest) by {
        forall a, b | 0 <= a < b < |rest| ensures Less(rest[a].key, rest[b].key) {
          assert rest[a] == gs[a + 1] && rest[b] == gs[b + 1];
        }
      }
      DistinctGroupKeys(rest);
      FirstGroupKeyIsNew(gs);
    }
  }

  /** The first group's key is new to the rest, whose keys make up the remaining ones. */
  lemma FirstGroupKeyIsNew(gs: seq<Group>)
    requires |gs| > 0 && StrictlyIncreasingKeys(gs)
    ensures GroupKeys(gs) == {gs[0].key} + GroupKeys(gs[1..])
    ensures gs[0].key !in GroupKeys(gs[1..])
  {
    var rest := gs[1..];
    forall x | x in GroupKeys(rest) ensures x in GroupKeys(gs) {
      var i :| 0 <= i < |rest| && rest[i].key == x;
      assert gs[i + 1].key == x;
    }
    if gs[0].key in GroupKeys(rest) {
      var i :| 0 <= i < |rest| && rest[i].key == gs[0].key;
      assert gs[i + 1] == rest[i];
      LessIrreflexive(gs[0].key);
    }
  }

  /** On sorted input `reducef` runs exactly once per distinct key. */
  lemma OneRunPerKey(s: seq<KeyValue>)
    requires SortedByKey(s)
    ensures |Runs(s)| == |Keys(s)|
    ensures TotalValues(Runs(s)) == |s|
  {
    RunsOfSortedIncrease(s);
    RunsCoverKeys(s);
    DistinctGroupKeys(Runs(s));
    FlattenLength(Runs(s));
  }

  /** The keys the loop writes are the keys of its groups. */
  lemma OutputKeys(gs: seq<Group>, reducef: (Str, seq<Str>) -> Str)
    ensures Keys(ReduceOutputs(gs, reducef)) == GroupKeys(gs)
  {
    var out := ReduceOutputs(gs, reducef);
    forall x | x in GroupKeys(gs) ensures x in Keys(out) {
      var i :| 0 <= i < |gs| && gs[i].key == x;
      assert out[i].key == x;
    }
  }

  /**
    What the sort-then-reduce pipeline writes for the pairs `s`, given any
    key-sorted permutation `t` of them (the sort is not stable, so the order
    of values inside a key is left open): one record per distinct key of `s`,
    keys strictly increasing, and each record's value is `reducef` of that
    key together with exactly the values `s` pairs with it, in some order.
  */
  lemma ReduceOfSortedPermutation(s: seq<KeyValue>, t: seq<KeyValue>, reducef: (Str, seq<Str>) -> Str)
    requires IsSortedPermutation(s, t)
    ensures |ReduceOutputs(Runs(t), reducef)| == |Keys(s)|
    ensures Keys(ReduceOutputs(Runs(t), reducef)) == Keys(s)
    ensures forall i, j :: 0 <= i < j < |Runs(t)| ==>
      Less(ReduceOutputs(Runs(t), reducef)[i].key, ReduceOutputs(Runs(t), reducef)[j].key)
    ensures forall i :: 0 <= i < |Runs(t)| ==>
      ReduceOutputs(Runs(t), reducef)[i].value == reducef(Runs(t)[i].key, Runs(t)[i].values)
      && multiset(Runs(t)[i].values) == multiset(ValuesWithKey(s, Runs(t)[i].key))
    ensures TotalValues(Runs(t)) == |s|
  {
    var gs := Runs(t);
    OneRunPerKey(t);
    RunsCoverKeys(t);
    OutputKeys(gs, reducef);
    PermutationKeepsKeys(s, t);
    RunsOfSortedIncrease(t);
    RunsOfSortedCollectAllValues(t);
    forall i | 0 <= i < |gs|
      ensures multiset(gs[i].values) == multiset(ValuesWithKey(s, gs[i].key))
    {
      PermutationKeepsValuesPerKey(s, t, gs[i].key);
    }
    assert |s| == |t| by {
      assert |multiset(s)| == |multiset(t)|;
    }
  }

  /** `r`'s value is `reducef` applied to its key and to that key's values in `s`, in some order. */
  ghost predicate ReducedFrom(r: KeyValue, s: seq<KeyValue>, reducef: (Str, seq<Str>) -> Str) {
    exists vs: seq<Str> :: multiset(vs) == multiset(ValuesWithKey(s, r.key)) && r.value == reducef(r.key, vs)
  }

  /**
    The records a sort-then-reduce pass over the pairs `s` may write: one per
    distinct key, keys strictly increasing, each value reduced from exactly
    that key's values.
  */
  ghost predicate ReduceSpec(s: seq<KeyValue>, records: seq<KeyValue>, reducef: (Str, seq<Str>) -> Str) {
    && Keys(records) == Keys(s)
    && |records| == |Keys(s)|
    && (forall i, j :: 0 <= i < j < |records| ==> Less(records[i].key, records[j].key))
    && (forall i :: 0 <= i < |records| ==> ReducedFrom(records[i], s, reducef))
  }

  /** Grouping any key-sorted permutation of the pairs writes what the specification allows. */
  lemma SortThenReduceMeetsSpec(s: seq<KeyValue>, t: seq<KeyValue>, reducef: (Str, seq<Str>) -> Str)
    requires IsSortedPermutation(s, t)
    ensures ReduceSpec(s, ReduceOutputs(Runs(t), reducef), reducef)
  {
    var gs := Runs(t);
    var out := ReduceOutputs(gs, reducef);
    ReduceOfSortedPermutation(s, t, reducef);
    forall i | 0 <= i < |out| ensures ReducedFrom(out[i], s, reducef) {
      var vs := gs[i].values;
      assert multiset(vs) == multiset(ValuesWithKey(s, out[i].key));
      assert out[i].value == reducef(out[i].key, vs);
    }
  }

  /** The specification only sees the pairs as a multiset: reordering the input keeps it. */
  lemma ReduceSpecIgnoresOrder(s: seq<KeyValue>, s2: seq<KeyValue>, records: seq<KeyValue>,
                               reducef: (Str, seq<Str>) -> Str)
    requires multiset(s) == multiset(s2)
    requires ReduceSpec(s, records, reducef)
    ensures ReduceSpec(s2, records, reducef)
  {
    PermutationKeepsKeys(s, s2);
    forall i | 0 <= i < |records| ensures ReducedFrom(records[i], s2, reducef) {
      var vs :| multiset(vs) == multiset(ValuesWithKey(s, records[i].key))
                && records[i].value == reducef(records[i].key, vs);
      PermutationKeepsValuesPerKey(s, s2, records[i].key);
      assert multiset(vs) == multiset(ValuesWithKey(s2, records[i].key));
    }
  }
}
