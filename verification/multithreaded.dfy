/**
  The multithreaded runtime: Map output is routed into ten bucket files under
  `data/intermediate/`; the reduce step reads every file of that directory,
  parses the lines, sorts all pairs by key and groups them. The per-file
  goroutines are taken one after another, in input order.
*/
module Multithreaded {
  import opened Strings
  import opened Numbers
  import opened Results
  import opened KeyValues
  import opened Records
  import opened Partitioning
  import opened Grouping
  import Sequential

  /** `BUCKETS`. */
  const Buckets: nat := 10

  /** The directory holding the bucket files, with its trailing slash. */
  const IntermediateDir: Str := "data/intermediate/"

  /** The name of bucket file `b`: `intermediate-0` to `intermediate-9`. */
  function BucketName(b: nat): (r: Str)
    requires b < Buckets
    ensures r == "intermediate-" + [DigitChar(b)]
  {
    IntermediateName(b)
  }

  function BucketPath(b: nat): Str
    requires b < Buckets
  {
    IntermediateDir + BucketName(b)
  }

  /** The bucket names in order; in this order they are also sorted as `os.ReadDir` lists them. */
  function BucketNames(): (r: seq<Str>)
    ensures |r| == Buckets
    ensures forall b :: 0 <= b < Buckets ==> r[b] == BucketName(b)
  {
    seq(Buckets, b requires 0 <= b < Buckets => BucketName(b))
  }

  /** `ihash(key) % BUCKETS` always names one of the ten files. */
  lemma BucketInRange(key: Str)
    ensures 0 <= Bucket(key, Buckets) < Buckets
    ensures Bucket(key, Buckets) == IHash(key) % 10
  {
  }

  /** The ten names are in strictly increasing string order, so a directory listing keeps bucket order. */
  lemma BucketNamesSorted(a: nat, b: nat)
    requires a < b < Buckets
    ensures Less(BucketName(a), BucketName(b))
  {
    LessCommonPrefix("intermediate-", [DigitChar(a)], [DigitChar(b)]);
  }

  /**
    `callMap`: each file's pairs are routed to their buckets, file after
    file; bucket `b`'s contents end up in `result[b]`. A file that cannot be
    read ends the run.
  */
  function CallMap(mapf: (Str, Str) -> seq<KeyValue>, filenames: seq<Str>, fs: map<Str, Str>)
    : (r: Result<seq<Str>, Sequential.MapError>)
    ensures r.Ok? <==> Sequential.CallMap(mapf, filenames, fs).Ok?
    ensures r.Ok? ==> r.value == Route(EmptyFiles(Buckets), Sequential.CallMap(mapf, filenames, fs).value)
    decreases |filenames|
  {
    if |filenames| == 0 then
      assert Route(EmptyFiles(Buckets), []) == EmptyFiles(Buckets);
      Ok(EmptyFiles(Buckets))
    else
      var n := |filenames| - 1;
      var before :- CallMap(mapf, filenames[..n], fs);
      var name := filenames[n];
      if name !in fs then Err(Sequential.CannotOpen(name))
      else
        var emitted := mapf(name, fs[name]);
        RouteAppend(EmptyFiles(Buckets), Sequential.CallMap(mapf, filenames[..n], fs).value, emitted);
        Ok(Route(before, emitted))
  }

  /**
    Every Map output pair is written to exactly one bucket: bucket `b` holds
    the pairs whose key hashes to `b`, in emission order, and the buckets
    together hold every pair exactly as often as it was emitted.
  */
  lemma CallMapBuckets(mapf: (Str, Str) -> seq<KeyValue>, filenames: seq<Str>, fs: map<Str, Str>)
    requires CallMap(mapf, filenames, fs).Ok?
    ensures var kvs := Sequential.CallMap(mapf, filenames, fs).value;
      && |CallMap(mapf, filenames, fs).value| == Buckets
      && (forall b :: 0 <= b < Buckets ==>
            CallMap(mapf, filenames, fs).value[b] == Serialize(Partition(kvs, Buckets)[b]))
      && multiset(Concat(Partition(kvs, Buckets))) == multiset(kvs)
  {
    var kvs := Sequential.CallMap(mapf, filenames, fs).value;
    PartitionIsPermutation(kvs, Buckets);
    assert forall b :: 0 <= b < Buckets ==> EmptyFiles(Buckets)[b] + Serialize(InBucket(kvs, b, Buckets))
                                             == Serialize(InBucket(kvs, b, Buckets));
  }

  /** The reduce step's failures: the directory cannot be listed, or a line has no space. */
  datatype ReduceError = CannotReadDir | BadLine(error: ParseError)

  /**
    The scanning loops of `callReduce`: each listed file's lines parsed in
    order (no per-file sort here), all appended. A file that cannot be
    opened reads as empty.
  */
  function ReadBuckets(names: seq<Str>, fs: map<Str, Str>): (r: Result<seq<KeyValue>, ParseError>)
    ensures r.Ok? <==> forall i :: 0 <= i < |names| ==> ParseRecords(ReadOrEmpty(fs, IntermediateDir + names[i])).Ok?
    decreases |names|
  {
    if |names| == 0 then Ok([])
    else
      var first := ParseRecords(ReadOrEmpty(fs, IntermediateDir + names[0]));
      var rest := ReadBuckets(names[1..], fs);
      assert forall i :: 1 <= i < |names| ==> names[1..][i - 1] == names[i];
      if first.Err? then Err(first.error)
      else if rest.Err? then Err(rest.error)
      else Ok(first.value + rest.value)
  }

  /**
    `callReduce`: list the directory (`None` when `os.ReadDir` fails), read
    and parse every file, sort by key, group and reduce.
  */
  method CallReduce(reducef: (Str, seq<Str>) -> Str, listing: Option<seq<Str>>, fs: map<Str, Str>)
    returns (r: Result<seq<KeyValue>, ReduceError>, output: Str)
    ensures r.Ok? <==> listing.Some? && ReadBuckets(listing.value, fs).Ok?
    ensures listing.None? ==> r == Err(CannotReadDir)
    ensures r.Ok? ==> ReduceSpec(ReadBuckets(listing.value, fs).value, r.value, reducef)
    ensures r.Ok? ==> output == Serialize(r.value)
  {
    if listing.None? {
      return Err(CannotReadDir), [];
    }
    var read := ReadBuckets(listing.value, fs);
    if read.Err? {
      return Err(BadLine(read.error)), [];
    }
    var sorted := SortByKey(read.value);
    var records;
    records, output := Sequential.CallReduce(reducef, sorted);
    ReduceSpecIgnoresOrder(sorted, read.value, records, reducef);
    r := Ok(records);
  }

  /** A bucket of clean pairs holds only clean pairs. */
  lemma InBucketClean(kvs: seq<KeyValue>, b: nat, buckets: nat)
    requires Clean(kvs) && buckets > 0
    ensures Clean(InBucket(kvs, b, buckets))
  {
    var part := InBucket(kvs, b, buckets);
    forall i | 0 <= i < |part| ensures CleanKey(part[i].key) && CleanValue(part[i].value) {
      InBucketCounts(kvs, b, buckets, part[i]);
      assert part[i] in multiset(kvs);
      var j :| 0 <= j < |kvs| && kvs[j] == part[i];
    }
  }

  /** Reading the first `n` buckets back gives the pairs hashed to them, bucket by bucket. */
  lemma {:induction false} ReadBucketsRoundTrip(kvs: seq<KeyValue>, fs: map<Str, Str>, n: nat)
    requires Clean(kvs) && n <= Buckets
    requires forall b :: 0 <= b < Buckets ==> BucketPath(b) in fs && fs[BucketPath(b)] == Serialize(InBucket(kvs, b, Buckets))
    ensures ReadBuckets(BucketNames()[Buckets - n..], fs) == Ok(Concat(Partition(kvs, Buckets)[Buckets - n..]))
    decreases n
  {
    var names := BucketNames()[Buckets - n..];
    var parts := Partition(kvs, Buckets)[Buckets - n..];
    if n > 0 {
      var b := Buckets - n;
      assert names[0] == BucketName(b);
      assert names[1..] == BucketNames()[Buckets - (n - 1)..];
      assert parts[1..] == Partition(kvs, Buckets)[Buckets - (n - 1)..];
      var part := InBucket(kvs, b, Buckets);
      assert parts[0] == part;
      InBucketClean(kvs, b, Buckets);
      RecordsRoundTrip(part);
      ReadBucketsRoundTrip(kvs, fs, n - 1);
    } else {
      assert names == [] && parts == [];
    }
  }

  /**
    The whole multithreaded run on clean Map output: when the directory
    holds exactly the ten bucket files `callMap` wrote, whatever `callReduce`
    may write meets the same specification as the sequential runtime over
    the same Map output.
  */
  lemma RunAgreesWithSequential(mapf: (Str, Str) -> seq<KeyValue>, reducef: (Str, seq<Str>) -> Str,
                                filenames: seq<Str>, fs: map<Str, Str>, disk: map<Str, Str>,
                                records: seq<KeyValue>)
    requires CallMap(mapf, filenames, fs).Ok?
    requires Clean(Sequential.CallMap(mapf, filenames, fs).value)
    requires forall b :: 0 <= b < Buckets ==>
      BucketPath(b) in disk && disk[BucketPath(b)] == CallMap(mapf, filenames, fs).value[b]
    ensures ReadBuckets(BucketNames(), disk).Ok?
    ensures multiset(ReadBuckets(BucketNames(), disk).value) == multiset(Sequential.CallMap(mapf, filenames, fs).value)
    ensures ReduceSpec(ReadBuckets(BucketNames(), disk).value, records, reducef)
        <==> ReduceSpec(Sequential.CallMap(mapf, filenames, fs).value, records, reducef)
  {
    var kvs := Sequential.CallMap(mapf, filenames, fs).value;
    CallMapBuckets(mapf, filenames, fs);
    ReadBucketsRoundTrip(kvs, disk, Buckets);
    assert BucketNames()[0..] == BucketNames();
    assert Partition(kvs, Buckets)[0..] == Partition(kvs, Buckets);
    var read := ReadBuckets(BucketNames(), disk).value;
    if ReduceSpec(read, records, reducef) {
      ReduceSpecIgnoresOrder(read, kvs, records, reducef);
    }
    if ReduceSpec(kvs, records, reducef) {
      ReduceSpecIgnoresOrder(kvs, read, records, reducef);
    }
  }
}
