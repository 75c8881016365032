/**
  Routing Map output to buckets: `ihash` (32-bit FNV-1a masked to 31 bits),
  `ihash(key) % buckets`, and the per-bucket intermediate files.
*/
module Partitioning {
  import opened Strings
  import opened Numbers
  import opened KeyValues
  import opened Records

  const FnvOffsetBasis: bv32 := 2166136261
  const FnvPrime: bv32 := 16777619

  /** One byte of FNV-1a: xor the byte in, then multiply modulo 2^32. */
  function FnvStep(h: bv32, b: Byte): bv32 {
    (h ^ (b as int as bv32)) * FnvPrime
  }

  /** The hash's `Write` loop: the bytes folded into the state from the first to the last. */
  function FnvFold(h: bv32, s: Str): bv32
    decreases |s|
  {
    if |s| == 0 then h else FnvFold(FnvStep(h, s[0]), s[1..])
  }

  /** Folding one more byte is one more step on the folded state. */
  lemma {:induction false} FnvFoldSnoc(h: bv32, s: Str, b: Byte)
    ensures FnvFold(h, s + [b]) == FnvStep(FnvFold(h, s), b)
    decreases |s|
  {
    if |s| == 0 {
      assert [] + [b] == [b];
      assert [b][1..] == [];
    } else {
      assert (s + [b])[0] == s[0];
      assert (s + [b])[1..] == s[1..] + [b];
      FnvFoldSnoc(FnvStep(h, s[0]), s[1..], b);
    }
  }

  /** `fnv.New32a()`, `Write(bytes)`, `Sum32()`, stated from the last byte back. */
  function Fnv1a(s: Str): bv32
    decreases |s|
  {
    if |s| == 0 then FnvOffsetBasis else FnvStep(Fnv1a(s[..|s| - 1]), s[|s| - 1])
  }

  /** The hash of a key is the offset basis with the key's bytes folded in from the first. */
  lemma {:induction false} Fnv1aIsFold(s: Str)
    ensures Fnv1a(s) == FnvFold(FnvOffsetBasis, s)
    decreases |s|
  {
    if |s| > 0 {
      var n := |s| - 1;
      Fnv1aIsFold(s[..n]);
      FnvFoldSnoc(FnvOffsetBasis, s[..n], s[n]);
      assert s[..n] + [s[n]] == s;
    }
  }

  /** Masking with `0x7fffffff` keeps the low 31 bits: a remainder modulo 2^31. */
  lemma MaskIsLow31Bits(x: bv32)
    ensures x & 0x7fffffff == x % 0x8000_0000
  {
  }

  lemma Below32(x: bv32)
    ensures x as int < 0x1_0000_0000
  {
  }

  lemma TopBit(x: bv32)
    ensures (x >> 31) as int == 0 || (x >> 31) as int == 1
  {
  }

  /** A 32-bit word is its low 31 bits plus 2^31 times its top bit. */
  lemma Decompose(x: bv32)
    ensures x as int == (x & 0x7fffffff) as int + 0x8000_0000 * ((x >> 31) as int)
  {
  }

  lemma SetTop(x: bv32)
    ensures (x | 0x8000_0000) & 0x7fffffff == x & 0x7fffffff
    ensures (x | 0x8000_0000) >> 31 == 1
  {
  }

  /** The masked word is below 2^31: with the top bit set it would still be below 2^32. */
  lemma MaskBelow(x: bv32)
    ensures (x & 0x7fffffff) as int < 0x8000_0000
  {
    var w := x | 0x8000_0000;
    SetTop(x);
    Decompose(w);
    Below32(w);
  }

  lemma ModOfSplit(n: int, low: int, top: int)
    requires 0 <= low < 0x8000_0000 && (top == 0 || top == 1)
    requires n == low + 0x8000_0000 * top
    ensures n % 0x8000_0000 == low
  {
  }

  /** The masked value, read as an integer, is the integer remainder modulo 2^31. */
  lemma MaskAsInt(x: bv32)
    ensures (x & 0x7fffffff) as int == (x as int) % 0x8000_0000
  {
    Decompose(x);
    TopBit(x);
    MaskBelow(x);
    ModOfSplit(x as int, (x & 0x7fffffff) as int, (x >> 31) as int);
  }

  /** `int(h & 0x7fffffff)` for a 32-bit hash: the integer remainder modulo 2^31. */
  function Low31(h: bv32): (r: nat)
    ensures r < 0x8000_0000
    ensures r == (h & 0x7fffffff) as int
  {
    MaskAsInt(h);
    (h as int) % 0x8000_0000
  }

  /**
    `ihash(key)`: `int(Sum32() & 0x7fffffff)`, written as the remainder
    modulo 2^31 (see `IHashIsMask`). The same function serves the worker and
    the multithreaded runtime, so both route a key to the same bucket.
  */
  function IHash(key: Str): (r: nat)
    ensures r < 0x8000_0000
  {
    (Fnv1a(key) as int) % 0x8000_0000
  }

  /** `IHash` is exactly `int(h.Sum32() & 0x7fffffff)`. */
  lemma IHashIsMask(key: Str)
    ensures IHash(key) == (Fnv1a(key) & 0x7fffffff) as int
  {
    var h := Fnv1a(key);
    assert IHash(key) == Low31(h) == (h as int) % 0x8000_0000;
  }

  /** Known answer: the published FNV-1a test vector for "a". */
  lemma IHashOfA()
    ensures Fnv1a("a") == 0xe40c292c
    ensures IHash("a") == 0x640c292c
  {
  }

  /** `ihash(key) % buckets`: the bucket a pair is written to. */
  function Bucket(key: Str, buckets: nat): (r: nat)
    requires buckets > 0
    ensures r < buckets
  {
    IHash(key) % buckets
  }

  /** The pairs of `kvs` whose key hashes to bucket `b`, in emission order. */
  function InBucket(kvs: seq<KeyValue>, b: nat, buckets: nat): (r: seq<KeyValue>)
    requires buckets > 0
    ensures forall i :: 0 <= i < |r| ==> Bucket(r[i].key, buckets) == b
    decreases |kvs|
  {
    if |kvs| == 0 then []
    else (if Bucket(kvs[0].key, buckets) == b then [kvs[0]] else []) + InBucket(kvs[1..], b, buckets)
  }

  lemma SerializeAppend(a: seq<KeyValue>, b: seq<KeyValue>)
    ensures Serialize(a + b) == Serialize(a) + Serialize(b)
    decreases |a|
  {
    if |a| == 0 {
      assert a + b == b;
    } else {
      assert (a + b)[1..] == a[1..] + b;
      SerializeAppend(a[1..], b);
    }
  }

  lemma InBucketAppend(a: seq<KeyValue>, c: seq<KeyValue>, b: nat, buckets: nat)
    requires buckets > 0
    ensures InBucket(a + c, b, buckets) == InBucket(a, b, buckets) + InBucket(c, b, buckets)
    decreases |a|
  {
    if |a| == 0 {
      assert a + c == c;
    } else {
      assert (a + c)[1..] == a[1..] + c;
      InBucketAppend(a[1..], c, b, buckets);
    }
  }

  lemma SerializeCons(kv: KeyValue, rest: seq<KeyValue>)
    ensures Serialize([kv] + rest) == Record(kv.key, kv.value) + Serialize(rest)
  {
    var s := [kv] + rest;
    assert s[0] == kv && s[1..] == rest;
  }

  lemma RouteStepBucket(files: seq<Str>, next: seq<Str>, kvs: seq<KeyValue>, b: nat)
    requires |files| > 0 && |kvs| > 0 && b < |files|
    requires next == files[Bucket(kvs[0].key, |files|) := Append(files[Bucket(kvs[0].key, |files|)], kvs[0])]
    ensures next[b] + Serialize(InBucket(kvs[1..], b, |files|)) == files[b] + Serialize(InBucket(kvs, b, |files|))
  {
    var n := |files|;
    var rest := InBucket(kvs[1..], b, n);
    var tail := Serialize(rest);
    var record := Record(kvs[0].key, kvs[0].value);
    if b == Bucket(kvs[0].key, n) {
      assert InBucket(kvs, b, n) == [kvs[0]] + rest;
      SerializeCons(kvs[0], rest);
      assert next[b] == files[b] + record;
      AppendAssociative(files[b], record, tail);
    } else {
      assert InBucket(kvs, b, n) == rest;
      assert next[b] == files[b];
    }
  }

  /**
    The Map branch's loop: each pair appended (`Write`) to the file of its
    bucket. `files` holds the current contents, one entry per bucket.
  */
  function Route(files: seq<Str>, kvs: seq<KeyValue>): (r: seq<Str>)
    requires |files| > 0
    ensures |r| == |files|
    ensures forall b :: 0 <= b < |files| ==> r[b] == files[b] + Serialize(InBucket(kvs, b, |files|))
    decreases |kvs|
  {
    if |kvs| == 0 then files
    else
      var n := |files|;
      var b0 := Bucket(kvs[0].key, n);
      var next := files[b0 := Append(files[b0], kvs[0])];
      var r := Route(next, kvs[1..]);
      assert forall b :: 0 <= b < n ==> r[b] == files[b] + Serialize(InBucket(kvs, b, n)) by {
        forall b | 0 <= b < n ensures r[b] == files[b] + Serialize(InBucket(kvs, b, n)) {
          RouteStepBucket(files, next, kvs, b);
        }
      }
      r
  }

  /** Routing two batches one after the other is routing their concatenation. */
  lemma RouteAppend(files: seq<Str>, a: seq<KeyValue>, c: seq<KeyValue>)
    requires |files| > 0
    ensures Route(Route(files, a), c) == Route(files, a + c)
  {
    var n := |files|;
    var left := Route(Route(files, a), c);
    var right := Route(files, a + c);
    forall b | 0 <= b < n ensures left[b] == right[b] {
      InBucketAppend(a, c, b, n);
      SerializeAppend(InBucket(a, b, n), InBucket(c, b, n));
    }
  }

  /** Bucket `b` holds every pair hashing to `b` as often as it was emitted, and nothing else. */
  lemma {:induction false} InBucketCounts(kvs: seq<KeyValue>, b: nat, buckets: nat, x: KeyValue)
    requires buckets > 0
    ensures multiset(InBucket(kvs, b, buckets))[x]
         == if Bucket(x.key, buckets) == b then multiset(kvs)[x] else 0
    decreases |kvs|
  {
    if |kvs| > 0 {
      InBucketCounts(kvs[1..], b, buckets, x);
      assert kvs == [kvs[0]] + kvs[1..];
    }
  }

  lemma {:induction false} ConcatCountSingle<T>(parts: seq<seq<T>>, j: nat, x: T)
    requires forall b :: 0 <= b < |parts| && b != j ==> multiset(parts[b])[x] == 0
    ensures multiset(Concat(parts))[x] == if j < |parts| then multiset(parts[j])[x] else 0
    decreases |parts|
  {
    if |parts| > 0 {
      ConcatCountSingle(parts[1..], if j == 0 then |parts| else j - 1, x);
    }
  }

  /** All buckets of a fixed count, as sequences of pairs. */
  function Partition(kvs: seq<KeyValue>, buckets: nat): (r: seq<seq<KeyValue>>)
    requires buckets > 0
  {
    seq(buckets, b requires 0 <= b < buckets => InBucket(kvs, b, buckets))
  }

  /** Every emitted pair lands in exactly one bucket: the buckets together are a permutation. */
  lemma PartitionIsPermutation(kvs: seq<KeyValue>, buckets: nat)
    requires buckets > 0
    ensures multiset(Concat(Partition(kvs, buckets))) == multiset(kvs)
  {
    var parts := Partition(kvs, buckets);
    forall x ensures multiset(Concat(parts))[x] == multiset(kvs)[x] {
      var j := Bucket(x.key, buckets);
      forall b | 0 <= b < |parts| && b != j ensures multiset(parts[b])[x] == 0 {
        InBucketCounts(kvs, b, buckets, x);
      }
      ConcatCountSingle(parts, j, x);
      InBucketCounts(kvs, j, buckets, x);
    }
  }

  /** `fmt.Sprintf("intermediate-%d", index)`. */
  function IntermediateName(index: nat): (r: Str)
    ensures |r| > |"intermediate-"| && r[..|"intermediate-"|] == "intermediate-"
    ensures AllDigits(r[|"intermediate-"|..]) && DigitsValue(r[|"intermediate-"|..]) == index
  {
    "intermediate-" + FormatNat(index)
  }

  /** The index a bucket file's name was made from can be read back from it. */
  lemma IntermediateNameIndex(index: nat)
    requires index <= MaxInt64
    ensures IntermediateName(index)[|"intermediate-"|..] == FormatInt(index)
    ensures Atoi(IntermediateName(index)[|"intermediate-"|..]) == index
  {
    assert IntermediateName(index)[|"intermediate-"|..] == FormatNat(index);
    AtoiFormatInt(index);
  }

  /**
    `CreateOutputFiles(nReduce, outputDir)`: bucket `i` goes to
    `outputDir/intermediate-i` for `0 <= i < nReduce`.
  */
  function CreateOutputFiles(nReduce: int, outputDir: Str): (m: map<int, Str>)
    ensures forall i :: i in m <==> 0 <= i < nReduce
  {
    map i | 0 <= i < nReduce :: outputDir + "/" + IntermediateName(i)
  }

  /** Different buckets never share a file. */
  lemma OutputFilesDistinct(nReduce: int, outputDir: Str, i: int, j: int)
    requires i in CreateOutputFiles(nReduce, outputDir) && j in CreateOutputFiles(nReduce, outputDir)
    requires i != j
    ensures CreateOutputFiles(nReduce, outputDir)[i] != CreateOutputFiles(nReduce, outputDir)[j]
  {
    var p := outputDir + "/" + "intermediate-";
    assert outputDir + "/" + IntermediateName(i) == p + FormatNat(i);
    assert outputDir + "/" + IntermediateName(j) == p + FormatNat(j);
    assert FormatNat(i) != FormatNat(j) by {
      if FormatNat(i) == FormatNat(j) {
        FormatNatInjective(i, j);
      }
    }
    assert (p + FormatNat(i))[|p|..] == FormatNat(i);
    assert (p + FormatNat(j))[|p|..] == FormatNat(j);
  }

  /** The bucket contents after the Map branch, starting from freshly created (empty) files. */
  function EmptyFiles(buckets: nat): (r: seq<Str>)
    ensures |r| == buckets && forall b :: 0 <= b < buckets ==> r[b] == []
  {
    seq(buckets, b => [])
  }
}
