/**
  Decimal text for integers: `fmt.Sprintf("%d", n)` / `strconv.Itoa`, and
  `strconv.Atoi` with its error result ignored, on a 64-bit platform.
*/
module Numbers {
  import opened Strings

  const MaxInt64: int := 0x7fff_ffff_ffff_ffff
  const MinInt64: int := -0x8000_0000_0000_0000
  const MaxUint64: int := 0xffff_ffff_ffff_ffff

  predicate IsDigit(c: Byte) {
    '0' <= c <= '9'
  }

  predicate AllDigits(s: Str) {
    forall i :: 0 <= i < |s| ==> IsDigit(s[i])
  }

  function DigitChar(d: nat): (c: Byte)
    requires d < 10
    ensures IsDigit(c) && c as int - '0' as int == d
  {
    (d + '0' as int) as char
  }

  /** The number a string of decimal digits denotes (leading zeros allowed). */
  function DigitsValue(s: Str): nat
    requires AllDigits(s)
    decreases |s|
  {
    if |s| == 0 then 0
    else DigitsValue(s[..|s| - 1]) * 10 + (s[|s| - 1] as int - '0' as int)
  }

  /** `%d` of a non-negative integer: shortest decimal digits, no leading zero. */
  function FormatNat(n: nat): (r: Str)
    ensures |r| >= 1 && AllDigits(r)
    ensures DigitsValue(r) == n
    ensures r[0] == '0' ==> n == 0
    decreases n
  {
    if n < 10 then [DigitChar(n)]
    else
      var front := FormatNat(n / 10);
      var r := front + [DigitChar(n % 10)];
      assert r[..|r| - 1] == front;
      r
  }

  /** `%d` / `strconv.Itoa` of any integer. */
  function FormatInt(n: int): Str {
    if n < 0 then ['-'] + FormatNat(-n) else FormatNat(n)
  }

  lemma FormatNatInjective(m: nat, n: nat)
    requires FormatNat(m) == FormatNat(n)
    ensures m == n
  {
  }

  /** Length of the longest all-digit prefix. */
  function DigitPrefix(s: Str): (r: nat)
    ensures r <= |s| && AllDigits(s[..r])
    ensures r < |s| ==> !IsDigit(s[r])
    decreases |s|
  {
    if |s| == 0 then 0
    else if IsDigit(s[0]) then
      var r := 1 + DigitPrefix(s[1..]);
      assert s[..r] == [s[0]] + s[1..][..r - 1];
      r
    else 0
  }

  function Clamp64(v: int): int {
    if v > MaxInt64 then MaxInt64 else if v < MinInt64 then MinInt64 else v
  }

  /** An optional sign followed by at least one digit: what Atoi accepts without error. */
  predicate IsDecimal(s: Str) {
    && |s| > 0
    && var body := if s[0] == '-' || s[0] == '+' then s[1..] else s;
       |body| > 0 && AllDigits(body)
  }

  /**
    `strconv.Atoi(s)` with the error dropped. A syntax error gives 0; a value
    outside the 64-bit range gives the nearest bound. As in `ParseUint`, an
    overflow inside the leading digits is reported (and clamped) before any
    later non-digit is looked at.
  */
  function Atoi(s: Str): (r: int)
    ensures MinInt64 <= r <= MaxInt64
  {
    if |s| == 0 then 0
    else
      var negative := s[0] == '-';
      var body := if s[0] == '-' || s[0] == '+' then s[1..] else s;
      var p := DigitPrefix(body);
      if |body| == 0 then 0
      else if DigitsValue(body[..p]) > MaxUint64 then (if negative then MinInt64 else MaxInt64)
      else if p < |body| then 0
      else var magnitude: int := DigitsValue(body);
        Clamp64(if negative then -magnitude else magnitude)
  }

  lemma DigitPrefixAllDigits(s: Str)
    requires AllDigits(s)
    ensures DigitPrefix(s) == |s|
  {
  }

  /** Atoi reads back every 64-bit integer that Itoa writes. */
  lemma AtoiFormatInt(n: int)
    requires MinInt64 <= n <= MaxInt64
    ensures Atoi(FormatInt(n)) == n
  {
    var m: nat := if n < 0 then -n else n;
    var digits := FormatNat(m);
    DigitPrefixAllDigits(digits);
    assert digits[..|digits|] == digits;
    if n < 0 {
      assert FormatInt(n)[1..] == digits;
    } else {
      assert FormatInt(n) == digits;
      assert IsDigit(digits[0]);
    }
  }

  function Pow10(k: nat): nat {
    if k == 0 then 1 else 10 * Pow10(k - 1)
  }

  lemma {:induction false} DigitsValueBound(s: Str)
    requires AllDigits(s)
    ensures DigitsValue(s) < Pow10(|s|)
    decreases |s|
  {
    if |s| > 0 {
      DigitsValueBound(s[..|s| - 1]);
    }
  }

  lemma {:induction false} Pow10Monotone(j: nat, k: nat)
    requires j <= k
    ensures Pow10(j) <= Pow10(k)
    decreases k
  {
    if j < k {
      Pow10Monotone(j, k - 1);
    }
  }

  lemma Pow10Of18()
    ensures Pow10(18) == 1_000_000_000_000_000_000
  {
    assert Pow10(3) == 1000;
    assert Pow10(6) == 1000 * Pow10(3) by {
      assert Pow10(6) == 10 * Pow10(5) == 100 * Pow10(4) == 1000 * Pow10(3);
    }
    assert Pow10(9) == 1000 * Pow10(6) by {
      assert Pow10(9) == 10 * Pow10(8) == 100 * Pow10(7) == 1000 * Pow10(6);
    }
    assert Pow10(12) == 1000 * Pow10(9) by {
      assert Pow10(12) == 10 * Pow10(11) == 100 * Pow10(10) == 1000 * Pow10(9);
    }
    assert Pow10(15) == 1000 * Pow10(12) by {
      assert Pow10(15) == 10 * Pow10(14) == 100 * Pow10(13) == 1000 * Pow10(12);
    }
    assert Pow10(18) == 1000 * Pow10(15) by {
      assert Pow10(18) == 10 * Pow10(17) == 100 * Pow10(16) == 1000 * Pow10(15);
    }
  }

  /**
    Input shorter than 19 bytes cannot overflow, so whatever is not an
    optionally signed run of digits reads as 0.
  */
  lemma AtoiRejectsShort(s: Str)
    requires |s| < 19 && !IsDecimal(s)
    ensures Atoi(s) == 0
  {
    if |s| > 0 {
      var body := if s[0] == '-' || s[0] == '+' then s[1..] else s;
      if |body| > 0 {
        var p := DigitPrefix(body);
        DigitsValueBound(body[..p]);
        Pow10Monotone(p, 18);
        Pow10Of18();
      }
    }
  }
}
