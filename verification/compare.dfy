/** Version precedence (compare.go): major, minor and patch as unsigned
    integers, then the prerelease rules of section 11 of Semantic Versioning
    2.0.0, with the library's own treatment of missing and numeric
    identifiers. Metadata and the original text are never consulted. */
module Precedence {
  import opened Decimal
  import opened Text
  import opened Versions

  /** Go's `<` on strings: byte-wise lexicographic order. For text in UTF-8
      this is the order of code points, so it is stated on characters. */
  predicate LexLess(a: string, b: string)
    decreases |a|
  {
    |b| > 0 && (|a| == 0 || a[0] < b[0] || (a[0] == b[0] && LexLess(a[1..], b[1..])))
  }

  lemma {:induction false} LexLessIrreflexive(a: string)
    ensures !LexLess(a, a)
    decreases |a|
  {
    if |a| > 0 {
      LexLessIrreflexive(a[1..]);
    }
  }

  /** Of two distinct strings exactly one is below the other. */
  lemma {:induction false} LexLessTotal(a: string, b: string)
    requires a != b
    ensures LexLess(a, b) != LexLess(b, a)
    decreases |a|
  {
    if |a| > 0 && |b| > 0 && a[0] == b[0] {
      assert a == [a[0]] + a[1..] && b == [b[0]] + b[1..];
      LexLessTotal(a[1..], b[1..]);
    }
  }

  lemma {:induction false} LexLessTransitive(a: string, b: string, c: string)
    requires LexLess(a, b) && LexLess(b, c)
    ensures LexLess(a, c)
    decreases |a|
  {
    if |a| > 0 && a[0] == b[0] && b[0] == c[0] {
      LexLessTransitive(a[1..], b[1..], c[1..]);
    }
  }

  /** `compareSegment`: the sign of `v - o`. */
  function CompareSegment(v: u64, o: u64): (r: int)
    ensures r == -1 <==> v < o
    ensures r == 0 <==> v == o
    ensures r == 1 <==> v > o
  {
    if v < o then -1 else if v > o then 1 else 0
  }

  /** `comparePrePart`: one prerelease identifier against another. The
      empty string (a missing identifier) is below everything, an identifier
      that `ParseUint` accepts is below one it rejects, two rejected ones
      compare byte-wise and two accepted ones by value, where equal values
      of different spellings ("1" and "01") give -1 either way round. */
  function ComparePrePart(s: string, o: string): (r: int)
    ensures r in {-1, 0, 1}
    ensures r == 0 <==> s == o
    ensures s != o && s == "" ==> r == -1
    ensures s != o && o == "" ==> r == 1
    ensures s != "" && o != "" && IsUint(s) && !IsUint(o) ==> r == -1
    ensures s != "" && o != "" && !IsUint(s) && IsUint(o) ==> r == 1
    ensures s != o && s != "" && o != "" && !IsUint(s) && !IsUint(o) ==> (r == 1 <==> LexLess(o, s))
    ensures s != o && IsUint(s) && IsUint(o) ==> (r == 1 <==> Value(s) > Value(o))
  {
    if s == o then 0
    else if s == "" then -1
    else if o == "" then 1
    else if !IsUint(o) && !IsUint(s) then (if LexLess(o, s) then 1 else -1)
    else if !IsUint(o) then -1
    else if !IsUint(s) then 1
    else if ParseUint(s).value > ParseUint(o).value then 1
    else -1
  }

  /** The identifier at the head of a list, or the `""` placeholder once the
      list is exhausted. */
  function Head(x: seq<string>): string {
    if |x| > 0 then x[0] else ""
  }

  function Tail(x: seq<string>): seq<string> {
    if |x| > 0 then x[1..] else []
  }

  /** The loop of `comparePrerelease` over two identifier lists, the shorter
      padded with `""`: the first non-zero `ComparePrePart` decides. */
  function CompareParts(x: seq<string>, y: seq<string>): (r: int)
    ensures r in {-1, 0, 1}
    decreases |x| + |y|
  {
    if |x| == 0 && |y| == 0 then 0
    else
      var d := ComparePrePart(Head(x), Head(y));
      if d != 0 then d else CompareParts(Tail(x), Tail(y))
  }

  /** `comparePrerelease`. */
  function ComparePrerelease(v: string, o: string): (r: int)
    ensures r in {-1, 0, 1}
  {
    CompareParts(Identifiers(v), Identifiers(o))
  }

  /** `Compare`: -1, 0 or 1 as `a` precedes, ties with or follows `b`. */
  function Compare(a: Version, b: Version): (r: int)
    ensures r in {-1, 0, 1}
    ensures a.major != b.major ==> (r == 1 <==> a.major > b.major) && r != 0
    ensures a.major == b.major && a.minor != b.minor ==> (r == 1 <==> a.minor > b.minor) && r != 0
    ensures a.major == b.major && a.minor == b.minor && a.patch != b.patch ==>
              (r == 1 <==> a.patch > b.patch) && r != 0
    ensures a.major == b.major && a.minor == b.minor && a.patch == b.patch ==>
              (a.pre == "" && b.pre == "" ==> r == 0)
              && (a.pre == "" && b.pre != "" ==> r == 1)
              && (a.pre != "" && b.pre == "" ==> r == -1)
              && (a.pre != "" && b.pre != "" ==> r == ComparePrerelease(a.pre, b.pre))
  {
    var d1 := CompareSegment(a.major, b.major);
    if d1 != 0 then d1
    else
      var d2 := CompareSegment(a.minor, b.minor);
      if d2 != 0 then d2
      else
        var d3 := CompareSegment(a.patch, b.patch);
        if d3 != 0 then d3
        else if a.pre == "" && b.pre == "" then 0
        else if a.pre == "" then 1
        else if b.pre == "" then -1
        else ComparePrerelease(a.pre, b.pre)
  }

  /** `Lt`, `Gt` and `Eq`: sign tests of `Compare`. */
  predicate Lt(a: Version, b: Version) {
    Compare(a, b) < 0
  }

  predicate Gt(a: Version, b: Version) {
    Compare(a, b) > 0
  }

  predicate Eq(a: Version, b: Version) {
    Compare(a, b) == 0
  }

  // ---------------------------------------------------------------------
  // The order on identifiers.

  /** A numeric identifier has no superfluous leading zero, as section 9 of
      Semantic Versioning 2.0.0 demands and `validatePrerelease` enforces. */
  predicate Canonical(s: string) {
    IsUint(s) ==> NoLeadingZero(s)
  }

  predicate AllCanonical(x: seq<string>) {
    forall i :: 0 <= i < |x| ==> Canonical(x[i])
  }

  /** Every identifier of a prerelease is canonical. */
  predicate CanonicalPrerelease(p: string) {
    AllCanonical(Identifiers(p))
  }

  /** The precedence rule for identifiers, written independently of
      `ComparePrePart`: a missing identifier is lowest, numeric identifiers
      come next ordered by value, and the rest follow in byte order. */
  predicate IdentBelow(a: string, b: string) {
    || (a == "" && b != "")
    || (a != "" && b != "" &&
        (|| (IsUint(a) && !IsUint(b))
         || (IsUint(a) && IsUint(b) && ParseUint(a).value < ParseUint(b).value)
         || (!IsUint(a) && !IsUint(b) && LexLess(a, b))))
  }

  lemma CanonicalNumericInjective(a: string, b: string)
    requires Canonical(a) && Canonical(b) && IsUint(a) && IsUint(b)
    requires ParseUint(a).value == ParseUint(b).value
    ensures a == b
  {
    CanonicalValueInjective(a, b);
  }

  /** On canonical identifiers `ComparePrePart` returns -1 exactly when the
      precedence rule puts the first below the second. */
  lemma PrePartBelow(a: string, b: string)
    requires Canonical(a) && Canonical(b)
    ensures ComparePrePart(a, b) == -1 <==> IdentBelow(a, b)
  {
    if a != b && !IsUint(a) && !IsUint(b) {
      LexLessTotal(a, b);
    }
    if a != b && IsUint(a) && IsUint(b) && ParseUint(a).value == ParseUint(b).value {
      CanonicalNumericInjective(a, b);
    }
    if a == b {
      LexLessIrreflexive(a);
    }
  }

  lemma PrePartAntisymmetric(a: string, b: string)
    requires Canonical(a) && Canonical(b)
    ensures ComparePrePart(a, b) == -ComparePrePart(b, a)
  {
    if a != b && !IsUint(a) && !IsUint(b) {
      LexLessTotal(a, b);
    }
    if a != b && IsUint(a) && IsUint(b) && ParseUint(a).value == ParseUint(b).value {
      CanonicalNumericInjective(a, b);
    }
  }

  lemma PrePartTransitive(a: string, b: string, c: string)
    requires Canonical(a) && Canonical(b) && Canonical(c)
    requires ComparePrePart(a, b) == -1 && ComparePrePart(b, c) == -1
    ensures ComparePrePart(a, c) == -1
  {
    PrePartBelow(a, b);
    PrePartBelow(b, c);
    PrePartBelow(a, c);
    if !IsUint(a) && !IsUint(b) && !IsUint(c) && a != "" && b != "" && c != "" {
      LexLessTransitive(a, b, c);
    }
  }

  // ---------------------------------------------------------------------
  // The order on identifier lists.

  lemma {:induction false} PartsReflexive(x: seq<string>)
    ensures CompareParts(x, x) == 0
    decreases |x|
  {
    if |x| > 0 {
      PartsReflexive(Tail(x));
    }
  }

  /** A proper prefix of an identifier list is below it: `alpha` is below
      `alpha.1`, because the missing identifier is read as `""`. */
  lemma {:induction false} PartsPrefixBelow(x: seq<string>, y: seq<string>)
    requires |x| < |y| && x == y[..|x|] && y[|x|] != ""
    ensures CompareParts(x, y) == -1
    decreases |x|
  {
    if |x| > 0 {
      assert Head(x) == Head(y);
      assert Tail(x) == Tail(y)[..|Tail(x)|];
      PartsPrefixBelow(Tail(x), Tail(y));
    }
  }

  /** Past a common prefix, the first pair of differing identifiers
      decides. */
  lemma {:induction false} PartsFirstDifference(x: seq<string>, y: seq<string>, k: nat)
    requires k < |x| && k < |y| && x[..k] == y[..k] && x[k] != y[k]
    ensures CompareParts(x, y) == ComparePrePart(x[k], y[k])
    decreases k
  {
    if k > 0 {
      assert x[0] == x[..k][0] == y[..k][0] == y[0];
      assert Tail(x)[..k - 1] == Tail(y)[..k - 1];
      PartsFirstDifference(Tail(x), Tail(y), k - 1);
    }
  }

  /** One identifier is below itself followed by more identifiers:
      `1.0.0-alpha` precedes `1.0.0-alpha.1`. */
  lemma PrereleaseExtendBelow(p: string, q: string)
    requires p != "" && '.' !in p && Identifiers(q)[0] != ""
    ensures ComparePrerelease(p, p + "." + q) == -1
  {
    SplitOnAbsent(p, '.');
    SplitOnAfter(p, '.', q);
    assert Identifiers(p + "." + q) == [p] + Identifiers(q);
    PartsPrefixBelow([p], [p] + Identifiers(q));
  }

  lemma {:induction false} PartsAntisymmetric(x: seq<string>, y: seq<string>)
    requires AllCanonical(x) && AllCanonical(y)
    ensures CompareParts(x, y) == -CompareParts(y, x)
    decreases |x| + |y|
  {
    if |x| > 0 || |y| > 0 {
      PrePartAntisymmetric(Head(x), Head(y));
      PartsAntisymmetric(Tail(x), Tail(y));
    }
  }

  /** Lexicographic extension: at most and at most gives at most, and one
      strict step makes the whole strict. */
  lemma {:induction false} PartsTransitive(x: seq<string>, y: seq<string>, z: seq<string>)
    requires AllCanonical(x) && AllCanonical(y) && AllCanonical(z)
    requires CompareParts(x, y) <= 0 && CompareParts(y, z) <= 0
    ensures CompareParts(x, z) <= 0
    ensures CompareParts(x, y) == -1 || CompareParts(y, z) == -1 ==> CompareParts(x, z) == -1
    decreases |x| + |y| + |z|
  {
    var hx, hy, hz := Head(x), Head(y), Head(z);
    if |x| == 0 && |y| == 0 && |z| == 0 {
    } else {
      if ComparePrePart(hx, hy) == -1 && ComparePrePart(hy, hz) == -1 {
        PrePartTransitive(hx, hy, hz);
      }
      if ComparePrePart(hx, hy) == 0 && ComparePrePart(hy, hz) == 0 {
        PartsTransitive(Tail(x), Tail(y), Tail(z));
      }
    }
  }

  /** Without empty identifiers the padding can never tie, so only equal
      lists compare equal. */
  lemma {:induction false} PartsZeroIffEqual(x: seq<string>, y: seq<string>)
    requires forall i :: 0 <= i < |x| ==> x[i] != ""
    requires forall i :: 0 <= i < |y| ==> y[i] != ""
    ensures CompareParts(x, y) == 0 <==> x == y
    decreases |x| + |y|
  {
    if x == y {
      PartsReflexive(x);
    } else if |x| > 0 && |y| > 0 {
      PartsZeroIffEqual(x[1..], y[1..]);
      assert x == [x[0]] + x[1..] && y == [y[0]] + y[1..];
    }
  }

  // ---------------------------------------------------------------------
  // The order on versions.

  /** Versions whose prerelease identifiers are canonical. */
  predicate CanonicalVersion(v: Version) {
    CanonicalPrerelease(v.pre)
  }

  /** No prerelease, or one with no empty identifier, as both parsers
      guarantee. */
  predicate NoEmptyIdentifier(p: string) {
    p == "" || forall i :: 0 <= i < |Identifiers(p)| ==> Identifiers(p)[i] != ""
  }

  lemma CompareReflexive(a: Version)
    ensures Compare(a, a) == 0
  {
    PartsReflexive(Identifiers(a.pre));
  }

  lemma CompareAntisymmetric(a: Version, b: Version)
    requires CanonicalVersion(a) && CanonicalVersion(b)
    ensures Compare(a, b) == -Compare(b, a)
  {
    PartsAntisymmetric(Identifiers(a.pre), Identifiers(b.pre));
  }

  /** `Compare` is transitive on canonical versions, strictly so when either
      step is strict. */
  lemma CompareTransitive(a: Version, b: Version, c: Version)
    requires CanonicalVersion(a) && CanonicalVersion(b) && CanonicalVersion(c)
    requires Compare(a, b) <= 0 && Compare(b, c) <= 0
    ensures Compare(a, c) <= 0
    ensures Compare(a, b) == -1 || Compare(b, c) == -1 ==> Compare(a, c) == -1
  {
    if a.major == b.major == c.major && a.minor == b.minor == c.minor && a.patch == b.patch == c.patch
       && a.pre != "" && b.pre != "" && c.pre != "" {
      PartsTransitive(Identifiers(a.pre), Identifiers(b.pre), Identifiers(c.pre));
    }
  }

  /** `Compare` ties exactly when major, minor, patch and prerelease agree,
      given prereleases without empty identifiers. */
  lemma CompareZeroIff(a: Version, b: Version)
    requires NoEmptyIdentifier(a.pre) && NoEmptyIdentifier(b.pre)
    ensures Compare(a, b) == 0 <==>
              a.major == b.major && a.minor == b.minor && a.patch == b.patch && a.pre == b.pre
  {
    if a.pre != "" && b.pre != "" {
      PartsZeroIffEqual(Identifiers(a.pre), Identifiers(b.pre));
      if Identifiers(a.pre) == Identifiers(b.pre) {
        SplitOnInjective(a.pre, b.pre, ".");
      }
    }
  }

  /** Neither metadata nor the original text takes part in the comparison. */
  lemma CompareIgnoresMetadata(a: Version, b: Version, meta: string, text: string)
    ensures Compare(a.(metadata := meta, original := text), b) == Compare(a, b)
    ensures Compare(a, b.(metadata := meta, original := text)) == Compare(a, b)
  {
  }

  lemma LtGtConverse(a: Version, b: Version)
    requires CanonicalVersion(a) && CanonicalVersion(b)
    ensures Lt(a, b) <==> Gt(b, a)
    ensures Eq(a, b) <==> Eq(b, a)
  {
    CompareAntisymmetric(a, b);
  }
}
