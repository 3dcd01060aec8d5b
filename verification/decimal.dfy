/** Decimal digit strings: Go's `strconv.ParseUint(s, 10, 64)` and the `%d` /
    `%02d` verbs of `fmt`, with the facts about them that parsing and
    comparison rely on. */
module Decimal {
  import opened Errors

  /** 2^64: every `uint64` is below it. */
  const U64: nat := 0x1_0000_0000_0000_0000

  type u64 = n: int | 0 <= n < U64

  /** Go's `n + 1` on a `uint64`, which wraps to 0 above 2^64 - 1. */
  function Inc64(n: u64): (r: u64)
    ensures n < U64 - 1 ==> r == n + 1
    ensures n == U64 - 1 ==> r == 0
  {
    (n + 1) % U64
  }

  predicate IsDigit(c: char) {
    '0' <= c <= '9'
  }

  predicate AllDigits(s: string) {
    forall i :: 0 <= i < |s| ==> IsDigit(s[i])
  }

  function DigitValue(c: char): nat
    requires IsDigit(c)
  {
    (c as int) - ('0' as int)
  }

  function DigitChar(d: nat): (c: char)
    requires d < 10
    ensures IsDigit(c) && DigitValue(c) == d
  {
    (('0' as int) + d) as char
  }

  /** The number a digit string denotes, read most significant digit first. */
  function Value(s: string): nat
    requires AllDigits(s)
    decreases |s|
  {
    if |s| == 0 then 0 else Value(s[..|s| - 1]) * 10 + DigitValue(s[|s| - 1])
  }

  /** A non-empty digit string with no superfluous leading zero: "0", "7",
      "10", but not "01". */
  predicate NoLeadingZero(s: string) {
    |s| > 0 && (|s| == 1 || s[0] != '0')
  }

  /** `fmt`'s `%d` of a non-negative integer. */
  function Dec(n: nat): (s: string)
    ensures AllDigits(s) && Value(s) == n
    ensures NoLeadingZero(s)
    ensures n < 10 <==> |s| == 1
    decreases n
  {
    if n < 10 then [DigitChar(n)]
    else
      var s := Dec(n / 10) + [DigitChar(n % 10)];
      assert s[..|s| - 1] == Dec(n / 10);
      s
  }

  /** `fmt`'s `%02d`: at least two digits, zero-padded on the left. */
  function Pad2(n: nat): (s: string)
    ensures AllDigits(s) && Value(s) == n
    ensures |s| >= 2
    ensures n < 100 ==> |s| == 2
  {
    if n < 10 then
      var s := ['0'] + Dec(n);
      assert s[..1] == ['0'];
      s
    else
      assert n < 100 ==> n / 10 < 10;
      Dec(n)
  }

  /** `strconv.ParseUint(s, 10, 64)`: a non-empty run of ASCII digits whose
      value fits in 64 bits; no sign, no underscore, no base prefix. */
  function ParseUint(s: string): (r: Option<u64>)
    ensures r.Some? <==> |s| > 0 && AllDigits(s) && Value(s) < U64
    ensures r.Some? ==> r.value == Value(s)
  {
    if |s| > 0 && AllDigits(s) && Value(s) < U64 then Some(Value(s)) else None
  }

  /** The numeric test `comparePrePart` makes: `ParseUint` succeeds. */
  predicate IsUint(s: string) {
    ParseUint(s).Some?
  }

  function Pow10(k: nat): (p: nat)
    ensures p >= 1
  {
    if k == 0 then 1 else 10 * Pow10(k - 1)
  }

  lemma {:induction false} ValueBelowPow10(s: string)
    requires AllDigits(s)
    ensures Value(s) < Pow10(|s|)
    decreases |s|
  {
    if |s| > 0 {
      ValueBelowPow10(s[..|s| - 1]);
    }
  }

  lemma {:induction false} ValueAtLeastPow10(s: string)
    requires AllDigits(s) && |s| > 0 && s[0] != '0'
    ensures Value(s) >= Pow10(|s| - 1)
    decreases |s|
  {
    if |s| > 1 {
      var init := s[..|s| - 1];
      assert init[0] == s[0];
      ValueAtLeastPow10(init);
    }
  }

  /** Two digit strings of the same length and the same value are equal. */
  lemma {:induction false} SameLengthValueInjective(a: string, b: string)
    requires AllDigits(a) && AllDigits(b) && |a| == |b|
    requires Value(a) == Value(b)
    ensures a == b
    decreases |a|
  {
    if |a| > 0 {
      var ia, ib := a[..|a| - 1], b[..|b| - 1];
      var da, db := DigitValue(a[|a| - 1]), DigitValue(b[|b| - 1]);
      assert Value(ia) == Value(ib) && da == db by {
        assert Value(a) == Value(ia) * 10 + da && Value(b) == Value(ib) * 10 + db;
      }
      SameLengthValueInjective(ia, ib);
      assert a == ia + [a[|a| - 1]] && b == ib + [b[|b| - 1]];
    }
  }

  /** Digit strings without superfluous leading zeros denote distinct
      numbers: the property that makes numeric prerelease identifiers
      compare consistently. */
  lemma CanonicalValueInjective(a: string, b: string)
    requires AllDigits(a) && AllDigits(b) && NoLeadingZero(a) && NoLeadingZero(b)
    requires Value(a) == Value(b)
    ensures a == b
  {
    if |a| < |b| {
      ValueBelowPow10(a);
      ValueAtLeastPow10(b);
      assert false;
    } else if |b| < |a| {
      ValueBelowPow10(b);
      ValueAtLeastPow10(a);
      assert false;
    }
    SameLengthValueInjective(a, b);
  }
}
