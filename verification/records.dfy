/**
  The intermediate file format: one `key value` line per pair, written by
  `WriteRecord` and read back by a line scanner plus `strings.Split`.
*/
module Records {
  import opened Strings
  import opened KeyValues
  import opened Results

  /** `WriteRecord(f, key, value)`: the bytes `fmt.Fprintf(f, "%v %v\n", ...)` appends. */
  function Record(key: Str, value: Str): (r: Str)
    ensures |r| == |key| + |value| + 2
    ensures r[..|key|] == key && r[|key|] == Space
    ensures r[|key| + 1..|r| - 1] == value && r[|r| - 1] == Newline
  {
    key + [Space] + value + [Newline]
  }

  /** The bytes of a file holding one record per pair, in order. */
  function Serialize(kvs: seq<KeyValue>): Str
    decreases |kvs|
  {
    if |kvs| == 0 then [] else Record(kvs[0].key, kvs[0].value) + Serialize(kvs[1..])
  }

  /** `IntermediateFile.Write` (and `SyncedFile.Write`): one record appended to the file. */
  function Append(content: Str, kv: KeyValue): (r: Str)
    ensures |r| == |content| + |kv.key| + |kv.value| + 2
    ensures r[..|content|] == content
    ensures r[|content|..] == Record(kv.key, kv.value)
  {
    content + Record(kv.key, kv.value)
  }

  /** A sequence of `Write` calls, one per pair, in call order. */
  function WriteAll(content: Str, kvs: seq<KeyValue>): (r: Str)
    ensures r == content + Serialize(kvs)
    decreases |kvs|
  {
    if |kvs| == 0 then content
    else
      var head := Record(kvs[0].key, kvs[0].value);
      assert Serialize(kvs) == head + Serialize(kvs[1..]);
      AppendAssociative(content, head, Serialize(kvs[1..]));
      WriteAll(Append(content, kvs[0]), kvs[1..])
  }

  /**
    `bufio.Scanner` with `ScanLines`: the pieces between newlines, each with
    one trailing carriage return dropped; a final piece without a newline
    still counts when non-empty. (The scanner's token-size limit is not modelled.)
  */
  function ScanLines(data: Str): (r: seq<Str>)
    ensures |r| == 0 <==> |data| == 0
    ensures forall i :: 0 <= i < |r| ==> Newline !in r[i]
    decreases |data|
  {
    if |data| == 0 then []
    else
      var i := IndexOf(data, Newline);
      if i < |data| then [DropCR(data[..i])] + ScanLines(data[i + 1..])
      else [DropCR(data)]
  }

  /** Indexing `values[1]` on a line without a space is a run-time panic in Go. */
  datatype ParseError = IndexOutOfRange(line: Str)

  /**
    `values := strings.Split(line, " ")` followed by
    `KeyValue{Key: values[0], Value: values[1]}`.
  */
  function ParseLine(line: Str): (r: Result<KeyValue, ParseError>)
    ensures r.Err? <==> Space !in line
    ensures r.Ok? ==> Space !in r.value.key && Space !in r.value.value
    ensures r.Ok? ==> r.value.key + [Space] + r.value.value <= line
  {
    var fields := Split(line, Space);
    if |fields| < 2 then
      assert line == fields[0];
      Err(IndexOutOfRange(line))
    else
      assert line == fields[0] + [Space] + Join(fields[1..], Space);
      assert Space in line by {
        assert line[|fields[0]|] == Space;
      }
      assert Join(fields[1..], Space) == Join([fields[1]] + fields[2..], Space) by {
        assert fields[1..] == [fields[1]] + fields[2..];
      }
      Ok(KeyValue(fields[0], fields[1]))
  }

  function ParseLines(lines: seq<Str>): (r: Result<seq<KeyValue>, ParseError>)
    ensures r.Ok? <==> forall i :: 0 <= i < |lines| ==> Space in lines[i]
    ensures r.Ok? ==> |r.value| == |lines|
    ensures r.Ok? ==> forall i :: 0 <= i < |lines| ==> ParseLine(lines[i]) == Ok(r.value[i])
    decreases |lines|
  {
    if |lines| == 0 then Ok([])
    else
      var kv :- ParseLine(lines[0]);
      var rest :- ParseLines(lines[1..]);
      Ok([kv] + rest)
  }

  /** The scanning loop of the loaders: every line parsed, the first bad line panics. */
  function ParseRecords(content: Str): (r: Result<seq<KeyValue>, ParseError>)
    ensures var lines := ScanLines(content);
      && (r.Ok? <==> forall i :: 0 <= i < |lines| ==> Space in lines[i])
      && (r.Ok? ==> |r.value| == |lines|)
      && (r.Ok? ==> forall i :: 0 <= i < |lines| ==> ParseLine(lines[i]) == Ok(r.value[i]))
  {
    var lines := ScanLines(content);
    var r := ParseLines(lines);
    assert r.Ok? ==> |r.value| == |lines|;
    r
  }

  /** Opening a missing file is ignored; the scanner then reads nothing. */
  function ReadOrEmpty(fs: map<Str, Str>, path: Str): Str {
    if path in fs then fs[path] else []
  }

  /** The contents of several files (or record batches) one after another. */
  function Concat<T>(parts: seq<seq<T>>): seq<T>
    decreases |parts|
  {
    if |parts| == 0 then [] else parts[0] + Concat(parts[1..])
  }

  /**
    `LoadDataFromIntermediateFile` on the file's contents: the parsed records,
    sorted by key. A missing file (its open error is ignored) reads as empty.
  */
  function LoadIntermediateFile(content: Str): (r: Result<seq<KeyValue>, ParseError>)
    ensures r.Ok? <==> ParseRecords(content).Ok?
    ensures r.Ok? ==> IsSortedPermutation(ParseRecords(content).value, r.value)
  {
    var parsed :- ParseRecords(content);
    Ok(SortByKey(parsed))
  }

  predicate CleanKey(k: Str) {
    Space !in k && Newline !in k
  }

  /** A value survives the scanner when it has no separator and no trailing carriage return. */
  predicate CleanValue(v: Str) {
    Space !in v && Newline !in v && (|v| == 0 || v[|v| - 1] != CarriageReturn)
  }

  predicate Clean(kvs: seq<KeyValue>) {
    forall i :: 0 <= i < |kvs| ==> CleanKey(kvs[i].key) && CleanValue(kvs[i].value)
  }

  /** The line written for `(k, v)` parses back to `(k, v)` when neither holds a space. */
  lemma ParseRecordLine(k: Str, v: Str)
    requires Space !in k && Space !in v
    ensures ParseLine(k + [Space] + v) == Ok(KeyValue(k, v))
  {
    assert Join([k, v], Space) == k + [Space] + v;
    SplitJoin([k, v], Space);
  }

  /** A value holding a space loses everything from its first space on. */
  lemma ParseLineKeepsFirstToken(k: Str, v: Str)
    requires Space !in k && Space in v
    ensures ParseLine(k + [Space] + v) == Ok(KeyValue(k, Split(v, Space)[0]))
  {
    var tokens := Split(v, Space);
    var parts := [k] + tokens;
    assert Join(parts, Space) == k + [Space] + v by {
      assert parts[1..] == tokens;
    }
    SplitJoin(parts, Space);
  }

  /** The scanner returns the record's line, without its newline, and goes on after it. */
  lemma ScanRecord(k: Str, v: Str, rest: Str)
    requires Newline !in k && Newline !in v
    requires |v| == 0 || v[|v| - 1] != CarriageReturn
    ensures ScanLines(Record(k, v) + rest) == [k + [Space] + v] + ScanLines(rest)
  {
    var line := k + [Space] + v;
    assert Newline !in line;
    var data := Record(k, v) + rest;
    assert data == line + [Newline] + rest;
    IndexOfAppend(line, Newline, rest);
    assert data[..|line|] == line;
    assert data[|line| + 1..] == rest;
    assert DropCR(line) == line;
  }

  lemma ParseLinesCons(line: Str, lines: seq<Str>, kv: KeyValue, kvs: seq<KeyValue>)
    requires ParseLine(line) == Ok(kv) && ParseLines(lines) == Ok(kvs)
    ensures ParseLines([line] + lines) == Ok([kv] + kvs)
  {
    assert ([line] + lines)[0] == line;
    assert ([line] + lines)[1..] == lines;
  }

  lemma CleanTail(kvs: seq<KeyValue>)
    requires |kvs| > 0 && Clean(kvs)
    ensures Clean(kvs[1..])
  {
    forall i | 0 <= i < |kvs[1..]| ensures CleanKey(kvs[1..][i].key) && CleanValue(kvs[1..][i].value) {
      assert kvs[1..][i] == kvs[i + 1];
    }
  }

  /** Conditional round trip of the intermediate format. */
  lemma {:induction false} RecordsRoundTrip(kvs: seq<KeyValue>)
    requires Clean(kvs)
    ensures ParseRecords(Serialize(kvs)) == Ok(kvs)
    decreases |kvs|
  {
    if |kvs| > 0 {
      var k, v := kvs[0].key, kvs[0].value;
      assert CleanKey(k) && CleanValue(v);
      var tail := Serialize(kvs[1..]);
      assert Serialize(kvs) == Record(k, v) + tail;
      CleanTail(kvs);
      RecordsRoundTrip(kvs[1..]);
      ParseRecordsCons(k, v, tail, kvs[1..]);
      assert kvs == [KeyValue(k, v)] + kvs[1..];
    }
  }

  /** A clean record in front of a well-formed file parses to its pair in front of the file's pairs. */
  lemma ParseRecordsCons(k: Str, v: Str, tail: Str, kvs: seq<KeyValue>)
    requires CleanKey(k) && CleanValue(v)
    requires ParseLines(ScanLines(tail)) == Ok(kvs)
    ensures ParseLines(ScanLines(Record(k, v) + tail)) == Ok([KeyValue(k, v)] + kvs)
  {
    ScanRecord(k, v, tail);
    ParseRecordLine(k, v);
    ParseLinesCons(k + [Space] + v, ScanLines(tail), KeyValue(k, v), kvs);
  }

  /** A file filled by `Write` calls reads back as exactly the written pairs. */
  lemma WriteAllRoundTrip(kvs: seq<KeyValue>)
    requires Clean(kvs)
    ensures ParseRecords(WriteAll([], kvs)) == Ok(kvs)
  {
    assert [] + Serialize(kvs) == Serialize(kvs);
    RecordsRoundTrip(kvs);
  }

  /** A trailing carriage return in a value is eaten by the scanner. */
  lemma TrailingCarriageReturnIsLost(k: Str, v: Str)
    requires CleanKey(k) && Space !in v && Newline !in v
    ensures ParseRecords(Serialize([KeyValue(k, v + [CarriageReturn])])) == Ok([KeyValue(k, v)])
  {
    var line := k + [Space] + v + [CarriageReturn];
    var data := Serialize([KeyValue(k, v + [CarriageReturn])]);
    var kvs := [KeyValue(k, v + [CarriageReturn])];
    assert kvs[1..] == [];
    assert Serialize(kvs[1..]) == [];
    assert data == Record(k, v + [CarriageReturn]) + [];
    assert data == line + [Newline] + [];
    assert Newline !in line;
    IndexOfAppend(line, Newline, []);
    assert data[..|line|] == line;
    assert data[|line| + 1..] == [];
    assert DropCR(line) == k + [Space] + v;
    assert ScanLines(data) == [k + [Space] + v];
    ParseRecordLine(k, v);
    assert ParseLines([]) == Ok([]);
    ParseLinesCons(k + [Space] + v, [], KeyValue(k, v), []);
    assert [k + [Space] + v] + [] == [k + [Space] + v];
    assert [KeyValue(k, v)] + [] == [KeyValue(k, v)];
  }
}
