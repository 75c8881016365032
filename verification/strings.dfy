/**
  Go strings as the model sees them. A Go `string` is an immutable sequence of
  bytes; `Str` holds one `char` per byte, so every element is below 256 and
  byte-wise comparison is comparison of these chars.
*/
module Strings {

  type Byte = c: char | c as int < 256 witness ' '

  type Str = seq<Byte>

  const Space: Byte := ' '
  const Newline: Byte := '\n'
  const CarriageReturn: Byte := '\r'

  /** Stated once for the solver, which otherwise struggles with long concatenations. */
  lemma AppendAssociative<T>(a: seq<T>, b: seq<T>, c: seq<T>)
    ensures (a + b) + c == a + (b + c)
  {
  }

  /** Go's `a < b` on strings: lexicographic on bytes, a proper prefix first. */
  predicate Less(a: Str, b: Str)
    ensures Less(a, b) ==> a != b
    ensures Less(a, b) ==> |b| > 0 && (|a| == 0 || a[0] <= b[0])
    decreases |a|
  {
    if |a| == 0 then |b| > 0
    else if |b| == 0 then false
    else if a[0] != b[0] then a[0] < b[0]
    else Less(a[1..], b[1..])
  }

  /** Non-strict companion of `Less`: `a` does not come after `b`. */
  predicate LessOrEqual(a: Str, b: Str) {
    !Less(b, a)
  }

  /**
    The textbook description of the same order: after a common prefix of
    length `i`, either `a` ends or `a`'s next byte is smaller.
  */
  ghost predicate LessAt(a: Str, b: Str, i: nat) {
    && i <= |a| && i <= |b|
    && a[..i] == b[..i]
    && (i == |a| < |b| || (i < |a| && i < |b| && a[i] < b[i]))
  }

  /** A non-empty common prefix starts with the same byte in both strings. */
  lemma LessAtHead(a: Str, b: Str, i: nat)
    requires LessAt(a, b, i)
    ensures i > 0 ==> a[0] == b[0]
  {
    if i > 0 {
      assert a[..i][0] == a[0] && b[..i][0] == b[0];
    }
  }

  lemma {:induction false} LessIffCommonPrefix(a: Str, b: Str)
    ensures Less(a, b) <==> exists i: nat :: LessAt(a, b, i)
    decreases |a|
  {
    if |a| == 0 {
      if |b| > 0 {
        assert LessAt(a, b, 0);
      }
    } else if |b| == 0 {
    } else if a[0] != b[0] {
      if a[0] < b[0] {
        assert LessAt(a, b, 0);
      }
      forall i: nat | LessAt(a, b, i) ensures a[0] < b[0] {
        LessAtHead(a, b, i);
      }
    } else {
      LessIffCommonPrefix(a[1..], b[1..]);
      if Less(a, b) {
        var i: nat :| LessAt(a[1..], b[1..], i);
        assert a[..i + 1] == [a[0]] + a[1..][..i];
        assert b[..i + 1] == [b[0]] + b[1..][..i];
        assert LessAt(a, b, i + 1);
      }
      forall i: nat | LessAt(a, b, i) ensures Less(a, b) {
        assert i > 0;
        assert a[1..][..i - 1] == a[..i][1..];
        assert b[1..][..i - 1] == b[..i][1..];
        assert LessAt(a[1..], b[1..], i - 1);
      }
    }
  }

  lemma {:induction false} LessIrreflexive(a: Str)
    ensures !Less(a, a)
    decreases |a|
  {
    if |a| > 0 {
      LessIrreflexive(a[1..]);
    }
  }

  lemma {:induction false} LessAsymmetric(a: Str, b: Str)
    ensures Less(a, b) ==> !Less(b, a)
    decreases |a|
  {
    if |a| > 0 && |b| > 0 && a[0] == b[0] {
      LessAsymmetric(a[1..], b[1..]);
    }
  }

  lemma {:induction false} LessTransitive(a: Str, b: Str, c: Str)
    requires Less(a, b) && Less(b, c)
    ensures Less(a, c)
    decreases |a|
  {
    if |a| > 0 && a[0] == b[0] && b[0] == c[0] {
      LessTransitive(a[1..], b[1..], c[1..]);
    }
  }

  lemma {:induction false} LessTotal(a: Str, b: Str)
    ensures a == b || Less(a, b) || Less(b, a)
    decreases |a|
  {
    if |a| > 0 && |b| > 0 && a[0] == b[0] {
      LessTotal(a[1..], b[1..]);
      if a[1..] == b[1..] {
        assert a == [a[0]] + a[1..] && b == [b[0]] + b[1..];
      }
    }
  }

  /** `LessOrEqual` is a total preorder that coincides with `Less` off the diagonal. */
  lemma LessOrEqualTransitive(a: Str, b: Str, c: Str)
    requires LessOrEqual(a, b) && LessOrEqual(b, c)
    ensures LessOrEqual(a, c)
  {
    if Less(c, a) {
      LessTotal(a, b);
      LessTotal(b, c);
      if Less(a, b) {
        LessTransitive(c, a, b);
      } else if Less(b, c) {
        LessTransitive(b, c, a);
      } else {
        LessIrreflexive(a);
      }
    }
  }

  lemma LessOrEqualNotEqual(a: Str, b: Str)
    requires LessOrEqual(a, b) && a != b
    ensures Less(a, b)
  {
    LessTotal(a, b);
  }

  lemma LessImpliesLessOrEqual(a: Str, b: Str)
    requires Less(a, b)
    ensures LessOrEqual(a, b)
  {
    LessAsymmetric(a, b);
  }

  lemma {:induction false} LessCommonPrefix(p: Str, a: Str, b: Str)
    ensures Less(p + a, p + b) <==> Less(a, b)
    decreases |p|
  {
    if |p| > 0 {
      assert (p + a)[0] == (p + b)[0] == p[0];
      assert (p + a)[1..] == p[1..] + a;
      assert (p + b)[1..] == p[1..] + b;
      LessCommonPrefix(p[1..], a, b);
    } else {
      assert p + a == a && p + b == b;
    }
  }

  /** Position of the first `b` in `s`, or `|s|` when there is none. */
  function IndexOf(s: Str, b: Byte): (r: nat)
    ensures r <= |s|
    ensures r < |s| ==> s[r] == b
    ensures forall j :: 0 <= j < r ==> s[j] != b
    decreases |s|
  {
    if |s| == 0 then 0
    else if s[0] == b then 0
    else 1 + IndexOf(s[1..], b)
  }

  lemma IndexOfAppend(a: Str, b: Byte, rest: Str)
    requires b !in a
    ensures IndexOf(a + [b] + rest, b) == |a|
  {
    var s := a + [b] + rest;
    assert s[|a|] == b;
    assert forall j :: 0 <= j < |a| ==> s[j] == a[j];
  }

  lemma IndexOfAbsent(s: Str, b: Byte)
    requires b !in s
    ensures IndexOf(s, b) == |s|
  {
    assert forall j :: 0 <= j < |s| ==> s[j] in s;
  }

  /** Go's `strings.Join` with a one-byte separator. */
  function Join(parts: seq<Str>, sep: Byte): Str
    decreases |parts|
  {
    if |parts| == 0 then []
    else if |parts| == 1 then parts[0]
    else parts[0] + [sep] + Join(parts[1..], sep)
  }

  /**
    Go's `strings.Split` with a one-byte separator: the pieces between
    successive separators, always at least one (`Split("", sep) == [""]`).
  */
  function Split(s: Str, sep: Byte): (r: seq<Str>)
    ensures |r| >= 1
    ensures forall i :: 0 <= i < |r| ==> sep !in r[i]
    ensures Join(r, sep) == s
    decreases |s|
  {
    var i := IndexOf(s, sep);
    if i == |s| then [s]
    else
      var rest := Split(s[i + 1..], sep);
      assert s == s[..i] + [sep] + s[i + 1..];
      [s[..i]] + rest
  }

  /** Splitting a join of separator-free pieces gives the pieces back. */
  lemma {:induction false} SplitJoin(parts: seq<Str>, sep: Byte)
    requires |parts| >= 1
    requires forall i :: 0 <= i < |parts| ==> sep !in parts[i]
    ensures Split(Join(parts, sep), sep) == parts
    decreases |parts|
  {
    if |parts| == 1 {
      IndexOfAbsent(parts[0], sep);
    } else {
      var tail := Join(parts[1..], sep);
      IndexOfAppend(parts[0], sep, tail);
      var s := parts[0] + [sep] + tail;
      assert s[..|parts[0]|] == parts[0];
      assert s[|parts[0]| + 1..] == tail;
      SplitJoin(parts[1..], sep);
      assert parts == [parts[0]] + parts[1..];
    }
  }

  /** `bufio`'s dropCR: removes one trailing carriage return, when there is one. */
  function DropCR(line: Str): (r: Str)
    ensures r == line || (line == r + [CarriageReturn])
    ensures |line| > 0 && line[|line| - 1] == CarriageReturn ==> line == r + [CarriageReturn]
    ensures (|line| == 0 || line[|line| - 1] != CarriageReturn) ==> r == line
  {
    if |line| > 0 && line[|line| - 1] == CarriageReturn then line[..|line| - 1] else line
  }
}
