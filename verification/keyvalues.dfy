/**
  Map output pairs, the `ByKey` order and sorting by key.
*/
module KeyValues {
  import opened Strings

  /** One pair emitted by the application's Map function. */
  datatype KeyValue = KeyValue(key: Str, value: Str)

  /** `ByKey.Less`: compares the keys only. */
  predicate ByKeyLess(a: KeyValue, b: KeyValue)
    ensures ByKeyLess(a, b) ==> a.key != b.key
  {
    Less(a.key, b.key)
  }

  /**
    `ByKey.Less` is a strict weak order whose incomparable pairs are exactly
    the pairs with equal keys; the values never take part.
  */
  lemma ByKeyLessIsStrictWeakOrder(a: KeyValue, b: KeyValue, c: KeyValue)
    ensures !ByKeyLess(a, a)
    ensures ByKeyLess(a, b) ==> !ByKeyLess(b, a)
    ensures ByKeyLess(a, b) && ByKeyLess(b, c) ==> ByKeyLess(a, c)
    ensures !ByKeyLess(a, b) && !ByKeyLess(b, a) <==> a.key == b.key
    ensures ByKeyLess(a, b) == ByKeyLess(a.(value := c.value), b.(value := a.value))
  {
    LessIrreflexive(a.key);
    LessAsymmetric(a.key, b.key);
    LessAsymmetric(b.key, a.key);
    LessTotal(a.key, b.key);
    if ByKeyLess(a, b) && ByKeyLess(b, c) {
      LessTransitive(a.key, b.key, c.key);
    }
  }

  /** Keys never decrease along the sequence; nothing is said about values. */
  predicate SortedByKey(s: seq<KeyValue>) {
    forall i, j :: 0 <= i < j < |s| ==> LessOrEqual(s[i].key, s[j].key)
  }

  /** `r` is one of the outcomes `sort.Sort(ByKey(s))` may produce. */
  predicate IsSortedPermutation(s: seq<KeyValue>, r: seq<KeyValue>) {
    SortedByKey(r) && multiset(r) == multiset(s)
  }

  /** A pair whose key is at most every key of a sorted list may go in front of it. */
  lemma ConsSorted(x: KeyValue, s: seq<KeyValue>)
    requires SortedByKey(s)
    requires forall j :: 0 <= j < |s| ==> LessOrEqual(x.key, s[j].key)
    ensures SortedByKey([x] + s)
  {
    var r := [x] + s;
    forall i, j | 0 <= i < j < |r| ensures LessOrEqual(r[i].key, r[j].key) {
      if i > 0 {
        assert r[i] == s[i - 1] && r[j] == s[j - 1];
      } else {
        assert r[j] == s[j - 1];
      }
    }
  }

  /** The first key of a sorted list is a lower bound of all its keys. */
  lemma HeadIsLeast(s: seq<KeyValue>, k: Str)
    requires SortedByKey(s) && |s| > 0 && LessOrEqual(k, s[0].key)
    ensures forall j :: 0 <= j < |s| ==> LessOrEqual(k, s[j].key)
  {
    forall j | 0 < j < |s| ensures LessOrEqual(k, s[j].key) {
      LessOrEqualTransitive(k, s[0].key, s[j].key);
    }
  }

  /** Every member of `t` is a member of `s` or is `x`, all with keys at least `k`. */
  lemma LowerBoundOfInsert(k: Str, x: KeyValue, s: seq<KeyValue>, t: seq<KeyValue>)
    requires multiset(t) == multiset(s) + multiset{x}
    requires LessOrEqual(k, x.key)
    requires forall j :: 0 <= j < |s| ==> LessOrEqual(k, s[j].key)
    ensures forall j :: 0 <= j < |t| ==> LessOrEqual(k, t[j].key)
  {
    forall j | 0 <= j < |t| ensures LessOrEqual(k, t[j].key) {
      assert t[j] in multiset(t);
      if t[j] != x {
        assert t[j] in multiset(s);
        var m :| 0 <= m < |s| && s[m] == t[j];
      }
    }
  }

  function Insert(x: KeyValue, s: seq<KeyValue>): (r: seq<KeyValue>)
    requires SortedByKey(s)
    ensures SortedByKey(r)
    ensures multiset(r) == multiset(s) + multiset{x}
    decreases |s|
  {
    if |s| == 0 then [x]
    else if LessOrEqual(x.key, s[0].key) then
      HeadIsLeast(s, x.key);
      ConsSorted(x, s);
      [x] + s
    else
      var rest := s[1..];
      assert s == [s[0]] + rest;
      assert SortedByKey(rest) by {
        forall i, j | 0 <= i < j < |rest| ensures LessOrEqual(rest[i].key, rest[j].key) {
          assert rest[i] == s[i + 1] && rest[j] == s[j + 1];
        }
      }
      var tail := Insert(x, rest);
      LessTotal(x.key, s[0].key);
      LessImpliesLessOrEqual(s[0].key, x.key);
      assert forall j :: 0 <= j < |rest| ==> LessOrEqual(s[0].key, rest[j].key) by {
        forall j | 0 <= j < |rest| ensures LessOrEqual(s[0].key, rest[j].key) {
          assert rest[j] == s[j + 1];
        }
      }
      LowerBoundOfInsert(s[0].key, x, rest, tail);
      ConsSorted(s[0], tail);
      [s[0]] + tail
  }

  /**
    A model of `sort.Sort(ByKey(s))`. Go's sort is not stable, so the only
    promise callers may rely on is the contract: a permutation of `s` with
    non-decreasing keys. The order among equal keys is unspecified.
  */
  function SortByKey(s: seq<KeyValue>): (r: seq<KeyValue>)
    ensures IsSortedPermutation(s, r)
    decreases |s|
  {
    if |s| == 0 then []
    else
      var r := Insert(s[0], SortByKey(s[1..]));
      assert s == [s[0]] + s[1..];
      r
  }

  /** The values of `s`, in order. */
  function Values(s: seq<KeyValue>): (r: seq<Str>)
    ensures |r| == |s|
    ensures forall i :: 0 <= i < |s| ==> r[i] == s[i].value
  {
    seq(|s|, i requires 0 <= i < |s| => s[i].value)
  }

  /** The values paired with key `k` in `s`, in sequence order. */
  function ValuesWithKey(s: seq<KeyValue>, k: Str): seq<Str>
    decreases |s|
  {
    if |s| == 0 then []
    else (if s[0].key == k then [s[0].value] else []) + ValuesWithKey(s[1..], k)
  }

  /** The distinct keys of `s`. */
  function Keys(s: seq<KeyValue>): set<Str> {
    set i | 0 <= i < |s| :: s[i].key
  }

  lemma {:induction false} ValuesWithKeyAppend(a: seq<KeyValue>, b: seq<KeyValue>, k: Str)
    ensures ValuesWithKey(a + b, k) == ValuesWithKey(a, k) + ValuesWithKey(b, k)
    decreases |a|
  {
    if |a| == 0 {
      assert a + b == b;
    } else {
      assert (a + b)[1..] == a[1..] + b;
      ValuesWithKeyAppend(a[1..], b, k);
    }
  }

  /** A key that does not occur contributes no values. */
  lemma {:induction false} ValuesWithAbsentKey(s: seq<KeyValue>, k: Str)
    requires k !in Keys(s)
    ensures ValuesWithKey(s, k) == []
    decreases |s|
  {
    if |s| > 0 {
      assert s[0].key in Keys(s);
      assert Keys(s[1..]) <= Keys(s) by {
        forall i | 0 <= i < |s[1..]| ensures s[1..][i].key in Keys(s) {
          assert s[1..][i] == s[i + 1];
        }
      }
      ValuesWithAbsentKey(s[1..], k);
    }
  }

  /** A run of one key contributes all its values to that key. */
  lemma {:induction false} ValuesWithKeyOfRun(s: seq<KeyValue>, k: Str)
    requires forall i :: 0 <= i < |s| ==> s[i].key == k
    ensures ValuesWithKey(s, k) == Values(s)
    decreases |s|
  {
    if |s| > 0 {
      ValuesWithKeyOfRun(s[1..], k);
    }
  }

  /** How often `v` is among `k`'s values is how often the pair `(k, v)` occurs. */
  lemma {:induction false} ValuesWithKeyCounts(s: seq<KeyValue>, k: Str, v: Str)
    ensures multiset(ValuesWithKey(s, k))[v] == multiset(s)[KeyValue(k, v)]
    decreases |s|
  {
    if |s| > 0 {
      ValuesWithKeyCounts(s[1..], k, v);
      assert s == [s[0]] + s[1..];
      assert multiset(s) == multiset{s[0]} + multiset(s[1..]);
    }
  }

  /** Reordering the pairs keeps each key's values as a multiset. */
  lemma PermutationKeepsValuesPerKey(s: seq<KeyValue>, t: seq<KeyValue>, k: Str)
    requires multiset(s) == multiset(t)
    ensures multiset(ValuesWithKey(s, k)) == multiset(ValuesWithKey(t, k))
  {
    forall v ensures multiset(ValuesWithKey(s, k))[v] == multiset(ValuesWithKey(t, k))[v] {
      ValuesWithKeyCounts(s, k, v);
      ValuesWithKeyCounts(t, k, v);
    }
  }

  lemma PermutationKeepsKeys(s: seq<KeyValue>, t: seq<KeyValue>)
    requires multiset(s) == multiset(t)
    ensures Keys(s) == Keys(t)
  {
    forall k | k in Keys(s) ensures k in Keys(t) {
      var i :| 0 <= i < |s| && s[i].key == k;
      assert s[i] in multiset(t);
    }
    forall k | k in Keys(t) ensures k in Keys(s) {
      var i :| 0 <= i < |t| && t[i].key == k;
      assert t[i] in multiset(s);
    }
  }
}
