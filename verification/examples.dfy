/** Worked expressions with the semantic-version parser plugged in, as in
    the library's own constraint tests: what a range admits and rejects. */
module Examples {
  import opened Errors
  import opened Decimal
  import opened Text
  import opened Versions
  import opened Precedence
  import opened Comparable
  import Semver
  import opened Constraints
  import opened ConstraintLaws

  /** A release value as `NewSemver` returns it. */
  function Release(major: u64, minor: u64, patch: u64, text: string): Version {
    Version(Semver, major, minor, patch, "", "", text)
  }

  /** Parsing the rendering of a release gives that release. */
  lemma ParsesRelease(major: u64, minor: u64, patch: u64, text: string)
    requires text == Dec(major) + "." + Dec(minor) + "." + Dec(patch)
    ensures Semver.NewSemver(text) == Ok(Release(major, minor, patch, text))
  {
    var m := Semver.Groups(Dec(major), Dec(minor), Dec(patch), "", "");
    CoreAssembles(Dec(major), Dec(minor), Dec(patch));
    assert Semver.WellShaped(m);
    Recognised(m, text);
    Semver.ParseDigitsDec(major);
    Semver.ParseDigitsDec(minor);
    Semver.ParseDigitsDec(patch);
    Semver.NewSemverOk(text, m, major, minor, patch);
  }

  lemma Parses123(s: string)
    requires s == "1.2.3"
    ensures Semver.NewSemver(s) == Ok(Release(1, 2, 3, s))
  {
    assert Dec(1) == "1" && Dec(2) == "2" && Dec(3) == "3";
    ParsesRelease(1, 2, 3, s);
  }

  /** `M.m` parses with patch 0. */
  lemma ParsesShort(major: u64, minor: u64, text: string)
    requires text == Dec(major) + "." + Dec(minor)
    ensures Semver.NewSemver(text) == Ok(Release(major, minor, 0, text))
  {
    var m := Semver.Groups(Dec(major), Dec(minor), "", "", "");
    ConcatAssociative(Dec(major), ".", Dec(minor));
    Recognised(m, text);
    Semver.ParseDigitsDec(major);
    Semver.ParseDigitsDec(minor);
    Semver.NewSemverOk(text, m, major, minor, 0);
  }

  /** `M` parses with minor and patch 0. */
  lemma ParsesMajor(major: u64, text: string)
    requires text == Dec(major)
    ensures Semver.NewSemver(text) == Ok(Release(major, 0, 0, text))
  {
    var m := Semver.Groups(Dec(major), "", "", "", "");
    Recognised(m, text);
    Semver.ParseDigitsDec(major);
    Semver.NewSemverOk(text, m, major, 0, 0);
  }

  /** A text assembled from well-shaped groups is recognised with them. */
  lemma Recognised(m: Semver.Groups, text: string)
    requires Semver.WellShaped(m) && text == Semver.Assemble(m)
    ensures Semver.MatchSemver(text) == Some(m)
  {
    assert (if false then "v" else "") + Semver.Assemble(m) == text;
    Semver.MatchAssembled(m, false);
  }

  /** Three non-empty digit runs joined by dots are their core text. */
  lemma CoreAssembles(a: string, b: string, c: string)
    requires a != "" && b != "" && c != ""
    ensures a + "." + b + "." + c == Semver.CoreText(Semver.Groups(a, b, c, "", ""))
  {
    ConcatAssociative(a, ".", b);
    ConcatAssociative(a + "." + b, ".", c);
  }

  /** A prerelease made of one identifier that is not all digits. */
  lemma OneIdentifier(pre: string)
    requires pre != "" && '.' !in pre && Semver.AllIdentChars(pre) && !AllDigits(pre)
    ensures Semver.IsIdentList(pre) && Semver.ValidatePrerelease(pre).Pass?
  {
    SplitOnAbsent(pre, '.');
    assert Identifiers(pre) == [pre];
  }

  /** `M.m.p-pre` parses to those fields. */
  lemma ParsesPrerelease(major: u64, minor: u64, patch: u64, pre: string, text: string)
    requires pre != "" && '.' !in pre && Semver.AllIdentChars(pre) && !AllDigits(pre)
    requires text == Dec(major) + "." + Dec(minor) + "." + Dec(patch) + "-" + pre
    ensures Semver.NewSemver(text) == Ok(Version(Semver, major, minor, patch, pre, "", text))
  {
    OneIdentifier(pre);
    var m := Semver.Groups(Dec(major), Dec(minor), Dec(patch), pre, "");
    CoreAssembles(Dec(major), Dec(minor), Dec(patch));
    var core := Dec(major) + "." + Dec(minor) + "." + Dec(patch);
    ConcatAssociative(core, "-", pre);
    assert Semver.WellShaped(m);
    Recognised(m, text);
    Semver.ParseDigitsDec(major);
    Semver.ParseDigitsDec(minor);
    Semver.ParseDigitsDec(patch);
    Semver.NewSemverOk(text, m, major, minor, patch);
  }

  /** The caret expansion of `1.2.3` runs from 1.2.3 to 2.0.0. */
  lemma CaretRange123(g: string, b: string, v: Version)
    requires b == "1.2.3" && g == "^" + b
    ensures ParseCaret(g, b, Semver.NewSemver).Ok?
    ensures GroupHolds(v, ParseCaret(g, b, Semver.NewSemver).value) <==>
              Compare(v, Release(1, 2, 3, b)) >= 0
              && (v.major == 1 || (v.major == 2 && v.minor == 0 && v.patch == 0 && v.pre != ""))
  {
    ReplaceAbsent(b, 'x', '0');
    Parses123(b);
    CaretMajor(g, b, Semver.NewSemver, v);
  }

  /** `^1.2.3` admits the versions from 1.2.3 below 2.0.0, and the
      prereleases of 2.0.0. The texts are parameters pinned by the
      preconditions, which keeps the parser from being unfolded on
      literals. */
  lemma CaretExample(g: string, b: string, v: Version)
    requires b == "1.2.3" && g == "^" + b
    ensures ParseGroup(g, Semver.NewSemver).Ok?
    ensures GroupHolds(v, ParseGroup(g, Semver.NewSemver).value) <==>
              Compare(v, Release(1, 2, 3, b)) >= 0
              && (v.major == 1 || (v.major == 2 && v.minor == 0 && v.patch == 0 && v.pre != ""))
  {
    CaretGroup(b, Semver.NewSemver);
    CaretRange123(g, b, v);
  }

  /** 1.8.9 satisfies `^1.2.3`; 2.8.9 and 1.2.2 do not. */
  lemma CaretExampleCases(g: string, b: string, yes: Version, tooHigh: Version, tooLow: Version)
    requires b == "1.2.3" && g == "^" + b
    requires yes == Release(1, 8, 9, "1.8.9")
    requires tooHigh == Release(2, 8, 9, "2.8.9")
    requires tooLow == Release(1, 2, 2, "1.2.2")
    ensures ParseGroup(g, Semver.NewSemver).Ok?
    ensures GroupHolds(yes, ParseGroup(g, Semver.NewSemver).value)
    ensures !GroupHolds(tooHigh, ParseGroup(g, Semver.NewSemver).value)
    ensures !GroupHolds(tooLow, ParseGroup(g, Semver.NewSemver).value)
  {
    CaretExample(g, b, yes);
    CaretExample(g, b, tooHigh);
    CaretExample(g, b, tooLow);
  }

  /** `0.x` becomes `0.0`: two pieces, parsing to 0.0.0. */
  lemma ZeroXBody(b: string)
    requires b == "0.x"
    ensures ReplaceChar(b, 'x', '0') == "0.0"
    ensures |SplitOn(ReplaceChar(b, 'x', '0'), ".")| == 2
    ensures Semver.NewSemver(ReplaceChar(b, 'x', '0')) == Ok(Release(0, 0, 0, "0.0"))
  {
    var body := ReplaceChar(b, 'x', '0');
    assert body == "0.0";
    assert Dec(0) == "0";
    ParsesShort(0, 0, body);
    SplitOnAfter("0", '.', "0");
    SplitOnAbsent("0", '.');
    assert body == "0" + ['.'] + "0";
  }

  /** The caret expansion of `0.x` runs from 0.0.0 to 0.1.0. */
  lemma CaretRangeZeroX(g: string, b: string, v: Version)
    requires b == "0.x" && g == "^" + b
    ensures ParseCaret(g, b, Semver.NewSemver).Ok?
    ensures GroupHolds(v, ParseCaret(g, b, Semver.NewSemver).value) <==>
              Compare(v, Release(0, 0, 0, "0.0")) >= 0
              && v.major == 0 && (v.minor == 0 || (v.minor == 1 && v.patch == 0 && v.pre != ""))
  {
    ZeroXBody(b);
    CaretZero(g, b, Semver.NewSemver, v);
  }

  /** `^0.x`: the `x` becomes `0` and `0.0` has two pieces, so the range
      stops below 0.1.0, not below 1.0.0 as the comment above
      `parseCaretConstraint` (constraints.go:253) says. */
  lemma CaretZeroXExample(g: string, b: string, v: Version)
    requires b == "0.x" && g == "^" + b
    ensures ParseGroup(g, Semver.NewSemver).Ok?
    ensures GroupHolds(v, ParseGroup(g, Semver.NewSemver).value) <==>
              Compare(v, Release(0, 0, 0, "0.0")) >= 0
              && v.major == 0 && (v.minor == 0 || (v.minor == 1 && v.patch == 0 && v.pre != ""))
  {
    assert AllBodyChars(b);
    CaretGroup(b, Semver.NewSemver);
    CaretRangeZeroX(g, b, v);
  }

  /** 0.0.5 satisfies `^0.x`; 0.5.0, which the comment's reading would
      admit, does not. */
  lemma CaretZeroXCases(g: string, b: string, yes: Version, no: Version)
    requires b == "0.x" && g == "^" + b
    requires yes == Release(0, 0, 5, "0.0.5")
    requires no == Release(0, 5, 0, "0.5.0")
    ensures ParseGroup(g, Semver.NewSemver).Ok?
    ensures GroupHolds(yes, ParseGroup(g, Semver.NewSemver).value)
    ensures !GroupHolds(no, ParseGroup(g, Semver.NewSemver).value)
  {
    CaretZeroXExample(g, b, yes);
    CaretZeroXExample(g, b, no);
  }

  /** `1.1 - 2` admits the versions from 1.1.0 up to 2.0.0 inclusive: the
      short forms are filled with zeros before comparing. */
  lemma HyphenExample(g: string, a: string, b: string, v: Version)
    requires a == "1.1" && b == "2" && g == a + " - " + b
    ensures ParseGroup(g, Semver.NewSemver).Ok?
    ensures GroupHolds(v, ParseGroup(g, Semver.NewSemver).value) <==>
              Compare(v, Release(1, 1, 0, a)) >= 0 && Compare(v, Release(2, 0, 0, b)) <= 0
  {
    Parses11(a);
    Parses2(b);
    HyphenEndBodies(a, b);
    HyphenOfBodies(a, b, Semver.NewSemver, v);
  }

  lemma HyphenEndBodies(a: string, b: string)
    requires a == "1.1" && b == "2"
    ensures SimpleBody(a) && SimpleBody(b)
  {
  }

  lemma Parses11(a: string)
    requires a == "1.1"
    ensures Semver.NewSemver(a) == Ok(Release(1, 1, 0, a))
  {
    assert Dec(1) == "1";
    ParsesShort(1, 1, a);
  }

  lemma Parses2(b: string)
    requires b == "2"
    ensures Semver.NewSemver(b) == Ok(Release(2, 0, 0, b))
  {
    assert Dec(2) == "2";
    ParsesMajor(2, b);
  }

  /** `a - b` for any two plain bodies the parser reads as 1.1.0 and
      2.0.0. */
  lemma HyphenOfBodies(a: string, b: string, fn: Parser, v: Version)
    requires SimpleBody(a) && SimpleBody(b)
    requires fn(a) == Ok(Release(1, 1, 0, a)) && fn(b) == Ok(Release(2, 0, 0, b))
    ensures ParseGroup(a + " - " + b, fn).Ok?
    ensures GroupHolds(v, ParseGroup(a + " - " + b, fn).value) <==>
              Compare(v, Release(1, 1, 0, a)) >= 0 && Compare(v, Release(2, 0, 0, b)) <= 0
  {
    HyphenRangeHolds(a, b, fn, v);
  }

  lemma HyphenExampleCases(g: string, a: string, b: string, inside: Version, top: Version, above: Version, below: Version)
    requires a == "1.1" && b == "2" && g == a + " - " + b
    requires inside == Release(1, 1, 1, "1.1.1")
    requires top == Release(2, 0, 0, "2.0.0")
    requires above == Release(2, 0, 1, "2.0.1")
    requires below == Release(1, 0, 9, "1.0.9")
    ensures ParseGroup(g, Semver.NewSemver).Ok?
    ensures GroupHolds(inside, ParseGroup(g, Semver.NewSemver).value)
    ensures GroupHolds(top, ParseGroup(g, Semver.NewSemver).value)
    ensures !GroupHolds(above, ParseGroup(g, Semver.NewSemver).value)
    ensures !GroupHolds(below, ParseGroup(g, Semver.NewSemver).value)
  {
    HyphenExample(g, a, b, inside);
    HyphenExample(g, a, b, top);
    HyphenExample(g, a, b, above);
    HyphenExample(g, a, b, below);
  }

  /** The tilde expansion of `1.2.3` runs from 1.2.3 to 1.3.0. */
  lemma TildeRange123(g: string, b: string, v: Version)
    requires b == "1.2.3" && g == "~" + b
    ensures ParseTilde(g, b, Semver.NewSemver).Ok?
    ensures GroupHolds(v, ParseTilde(g, b, Semver.NewSemver).value) <==>
              Compare(v, Release(1, 2, 3, b)) >= 0 && v.major == 1
              && (v.minor == 2 || (v.minor == 3 && v.patch == 0 && v.pre != ""))
  {
    ReplaceAbsent(b, 'x', '0');
    Parses123(b);
    TildeMinor(g, b, Semver.NewSemver, v);
  }

  /** `~1.2.3` stays within 1.2, from 1.2.3 on. */
  lemma TildeExample(g: string, b: string, v: Version)
    requires b == "1.2.3" && g == "~" + b
    ensures ParseGroup(g, Semver.NewSemver).Ok?
    ensures GroupHolds(v, ParseGroup(g, Semver.NewSemver).value) <==>
              Compare(v, Release(1, 2, 3, b)) >= 0 && v.major == 1
              && (v.minor == 2 || (v.minor == 3 && v.patch == 0 && v.pre != ""))
  {
    TildeGroup(b, Semver.NewSemver);
    TildeRange123(g, b, v);
  }

  /** 1.2.9 satisfies `~1.2.3`; 1.3.0 does not. */
  lemma TildeExampleCases(g: string, b: string, yes: Version, no: Version)
    requires b == "1.2.3" && g == "~" + b
    requires yes == Release(1, 2, 9, "1.2.9")
    requires no == Release(1, 3, 0, "1.3.0")
    ensures ParseGroup(g, Semver.NewSemver).Ok?
    ensures GroupHolds(yes, ParseGroup(g, Semver.NewSemver).value)
    ensures !GroupHolds(no, ParseGroup(g, Semver.NewSemver).value)
  {
    TildeExample(g, b, yes);
    TildeExample(g, b, no);
  }

  lemma StarText(g: string, a: string, b: string, w: string)
    requires a == "1" && b == "2" && w == "x" && g == a + "." + b + "." + w
    ensures g[0] == '1' && g[4] == 'x' && AllBodyChars(g)
  {
  }

  lemma Parses120(t: string)
    requires t == "1" + "." + "2" + ".0"
    ensures Semver.NewSemver(t) == Ok(Release(1, 2, 0, t))
  {
    assert Dec(1) == "1" && Dec(2) == "2" && Dec(0) == "0";
    ParsesRelease(1, 2, 0, t);
  }

  lemma StarExpansion(g: string, a: string, b: string, w: string)
    requires a == "1" && b == "2" && w == "x" && g == a + "." + b + "." + w
    ensures var lo := Release(1, 2, 0, a + "." + b + ".0");
            ParseStar(g, g, Semver.NewSemver) == Ok(Interval(g, lo, IncMinor(lo)))
  {
    StarPatch(g, a, b, w, Semver.NewSemver);
    Parses120(a + "." + b + ".0");
  }

  /** `1.2.x` expands to the interval from 1.2.0 to the next minor. */
  lemma StarParse(g: string, a: string, b: string, w: string)
    requires a == "1" && b == "2" && w == "x" && g == a + "." + b + "." + w
    ensures var lo := Release(1, 2, 0, a + "." + b + ".0");
            ParseGroup(g, Semver.NewSemver) == Ok(Interval(g, lo, IncMinor(lo)))
  {
    StarText(g, a, b, w);
    WildcardGroup(g, Semver.NewSemver);
    StarExpansion(g, a, b, w);
  }

  /** `1.2.x` runs from 1.2.0 to 1.3.0. */
  lemma StarExample(g: string, a: string, b: string, w: string, v: Version)
    requires a == "1" && b == "2" && w == "x" && g == a + "." + b + "." + w
    ensures ParseGroup(g, Semver.NewSemver).Ok?
    ensures GroupHolds(v, ParseGroup(g, Semver.NewSemver).value) <==>
              Compare(v, Release(1, 2, 0, a + "." + b + ".0")) >= 0 && v.major == 1
              && (v.minor == 2 || (v.minor == 3 && v.patch == 0 && v.pre != ""))
  {
    StarParse(g, a, b, w);
    BelowIncMinor(Release(1, 2, 0, a + "." + b + ".0"), v);
  }

  /** `1.0.0-x` is a version `NewSemver` accepts. */
  lemma ParsesOneDashX(g: string)
    requires g == "1.0.0-x"
    ensures Semver.NewSemver(g).Ok?
  {
    assert Dec(1) == "1" && Dec(0) == "0";
    assert g == Dec(1) + "." + Dec(0) + "." + Dec(0) + "-" + "x";
    assert !IsDigit("x"[0]);
    ParsesPrerelease(1, 0, 0, "x", g);
  }

  lemma DashXText(g: string, a: string, b: string, c: string)
    requires a == "1" && b == "0" && c == "0-x" && g == a + "." + b + "." + c
    ensures g[0] == '1' && g[6] == 'x' && AllBodyChars(g)
    ensures '.' !in a && '.' !in b && '.' !in c && !IsWild(b) && !IsWild(c)
  {
  }

  /** `1.0.0-x` parses as a version (`ParsesOneDashX`), but the `x` of its
      prerelease sends the token down the wildcard path, where no upper end
      is found: the case the source leaves to a nil dereference. */
  lemma NoUpperBoundExample(g: string, a: string, b: string, c: string)
    requires a == "1" && b == "0" && c == "0-x" && g == a + "." + b + "." + c
    ensures ParseGroup(g, Semver.NewSemver) == Err(NoUpperBound)
  {
    DashXText(g, a, b, c);
    WildcardGroup(g, Semver.NewSemver);
    DashXStar(g, a, b, c);
  }

  lemma DashXStar(g: string, a: string, b: string, c: string)
    requires a == "1" && b == "0" && c == "0-x" && g == a + "." + b + "." + c
    ensures ParseStar(g, g, Semver.NewSemver) == Err(NoUpperBound)
  {
    DashXText(g, a, b, c);
    ParsesOneDashX(g);
    StarWithoutBound(g, a, b, c, Semver.NewSemver);
  }

  /** `alpha` is one identifier that is not all digits. */
  lemma AlphaIdentifier(pre: string)
    requires pre == "alpha"
    ensures pre != "" && '.' !in pre && Semver.AllIdentChars(pre) && !AllDigits(pre)
  {
    assert !IsDigit(pre[0]);
  }

  lemma AlphaText(b: string)
    requires b == "0.0.1-alpha"
    ensures b == Dec(0) + "." + Dec(0) + "." + Dec(1) + "-" + "alpha"
  {
    assert Dec(1) == "1" && Dec(0) == "0";
  }

  lemma ParsesAlpha(b: string)
    requires b == "0.0.1-alpha"
    ensures Semver.NewSemver(b) == Ok(Version(Semver, 0, 0, 1, "alpha", "", b))
  {
    AlphaIdentifier("alpha");
    AlphaText(b);
    ParsesPrerelease(0, 0, 1, "alpha", b);
  }

  lemma AlphaNoX(b: string)
    requires b == "0.0.1-alpha"
    ensures Semver.NewSemver(ReplaceChar(b, 'x', '0')) == Ok(Version(Semver, 0, 0, 1, "alpha", "", b))
  {
    assert 'x' !in b;
    ReplaceAbsent(b, 'x', '0');
    ParsesAlpha(b);
  }

  lemma EmptyCaretRange(g: string, b: string, v: Version)
    requires b == "0.0.1-alpha" && g == "^" + b
    ensures ParseCaret(g, b, Semver.NewSemver).Ok?
    ensures !GroupHolds(v, ParseCaret(g, b, Semver.NewSemver).value)
  {
    AlphaNoX(b);
    CaretPatchPrereleaseEmpty(g, b, Semver.NewSemver, v);
  }

  /** `^0.0.1-alpha` admits no version at all. */
  lemma EmptyCaretExample(g: string, b: string, v: Version)
    requires b == "0.0.1-alpha" && g == "^" + b
    ensures ParseGroup(g, Semver.NewSemver).Ok?
    ensures !GroupHolds(v, ParseGroup(g, Semver.NewSemver).value)
  {
    CaretGroup(b, Semver.NewSemver);
    EmptyCaretRange(g, b, v);
  }

  lemma Parses100(x: string)
    requires x == "1.0.0"
    ensures Semver.NewSemver(x) == Ok(Release(1, 0, 0, x))
  {
    assert Dec(1) == "1" && Dec(0) == "0";
    ParsesRelease(1, 0, 0, x);
  }

  lemma Parses200(x: string)
    requires x == "2.0.0"
    ensures Semver.NewSemver(x) == Ok(Release(2, 0, 0, x))
  {
    assert Dec(2) == "2" && Dec(0) == "0";
    ParsesRelease(2, 0, 0, x);
  }

  lemma OutsideBodies(x1: string, x2: string)
    requires x1 == "1.0.0" && x2 == "2.0.0"
    ensures SimpleBody(x1) && '|' !in x1 && SimpleBody(x2) && '|' !in x2
  {
  }

  /** `<1.0.0 || >=2.0.0` parses to two groups of one comparison each. */
  /** `<x1 || >=x2` for any two plain bodies the parser reads as the
      releases 1.0.0 and 2.0.0. */
  lemma OutsideOfBodies(x1: string, x2: string, fn: Parser)
    requires SimpleBody(x1) && '|' !in x1 && SimpleBody(x2) && '|' !in x2
    requires fn(x1) == Ok(Release(1, 0, 0, x1)) && fn(x2) == Ok(Release(2, 0, 0, x2))
    ensures NewConstraint("<" + x1 + " || " + ">=" + x2, fn)
            == Ok(Constraints([[Constraint("<" + x1, x1, Less, Release(1, 0, 0, x1))],
                               [Constraint(">=" + x2, x2, GreaterEq, Release(2, 0, 0, x2))]]))
  {
    assert OpOf("<") == Less && OpOf(">=") == GreaterEq;
    PlainDisjunction("<", x1, ">=", x2, fn);
  }

  lemma OutsideParse(x1: string, x2: string)
    requires x1 == "1.0.0" && x2 == "2.0.0"
    ensures NewConstraint("<" + x1 + " || " + ">=" + x2, Semver.NewSemver)
            == Ok(Constraints([[Constraint("<" + x1, x1, Less, Release(1, 0, 0, x1))],
                               [Constraint(">=" + x2, x2, GreaterEq, Release(2, 0, 0, x2))]]))
  {
    Parses100(x1);
    Parses200(x2);
    OutsideBodies(x1, x2);
    OutsideOfBodies(x1, x2, Semver.NewSemver);
  }

  /** The two groups of `<1.0.0 || >=2.0.0` admit exactly the versions
      outside [1.0.0, 2.0.0). */
  lemma OutsideHolds(cs: Constraints, x1: string, x2: string, v: Version)
    requires cs == Constraints([[Constraint("<" + x1, x1, Less, Release(1, 0, 0, x1))],
                                [Constraint(">=" + x2, x2, GreaterEq, Release(2, 0, 0, x2))]])
    ensures (exists i :: 0 <= i < |cs.groups| && GroupHolds(v, cs.groups[i])) <==>
              Compare(v, Release(1, 0, 0, x1)) < 0 || Compare(v, Release(2, 0, 0, x2)) >= 0
  {
    var g0, g1 := cs.groups[0], cs.groups[1];
    assert GroupHolds(v, g0) <==> Satisfies(v, g0[0]);
    assert GroupHolds(v, g1) <==> Satisfies(v, g1[0]);
  }

  lemma OutsideExample(x1: string, x2: string, v: Version)
    requires x1 == "1.0.0" && x2 == "2.0.0"
    ensures NewConstraint("<" + x1 + " || " + ">=" + x2, Semver.NewSemver).Ok?
    ensures var groups := NewConstraint("<" + x1 + " || " + ">=" + x2, Semver.NewSemver).value.groups;
            (exists i :: 0 <= i < |groups| && GroupHolds(v, groups[i])) <==>
              Compare(v, Release(1, 0, 0, x1)) < 0 || Compare(v, Release(2, 0, 0, x2)) >= 0
  {
    OutsideParse(x1, x2);
    OutsideHolds(NewConstraint("<" + x1 + " || " + ">=" + x2, Semver.NewSemver).value, x1, x2, v);
  }

  method CheckOutside(v: Version) returns (ok: bool)
    ensures ok <==> Compare(v, Release(1, 0, 0, "1.0.0")) < 0 || Compare(v, Release(2, 0, 0, "2.0.0")) >= 0
  {
    var x1, x2 := "1.0.0", "2.0.0";
    OutsideExample(x1, x2, v);
    var cs := NewConstraint("<" + x1 + " || " + ">=" + x2, Semver.NewSemver).value;
    ok := Check(cs, v);
  }
}
