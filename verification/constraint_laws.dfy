/** What the constraint engine's parts mean: the token language, the
    ranges the expansions describe, and how groups are assembled. */
module ConstraintLaws {
  import opened Errors
  import opened Decimal
  import opened Text
  import opened Versions
  import opened Precedence
  import opened Comparable
  import opened Constraints

  // ---------------------------------------------------------------------
  // Tokens.

  /** A run of operator characters that is not one of the operators, or
      that is not followed by a non-empty body, is not a token. */
  lemma Unmatched(o: string, b: string)
    requires forall i :: 0 <= i < |o| ==> IsOpChar(o[i])
    requires |b| > 0 ==> !IsOpChar(b[0])
    requires !IsOpText(o) || b == "" || !AllBodyChars(b)
    ensures MatchToken(o + b).None?
  {
    OpRunOfPrefix(o, b);
    var c := o + b;
    assert c[..|o|] == o && c[|o|..] == b;
  }

  /** An operator alone is not a token. */
  lemma OperatorWithoutBody(fn: Parser)
    ensures ParseConstraint(">=", fn) == Err(InvalidConstraint)
    ensures ParseConstraint("=", fn) == Err(InvalidConstraint)
  {
    Unmatched(">=", "");
    assert ">=" + "" == ">=";
    Unmatched("=", "");
    assert "=" + "" == "=";
  }

  /** A token does not hold a space: the group splitter separates the
      pieces before tokens are matched. */
  lemma SpaceInToken(fn: Parser)
    ensures ParseConstraint(">= 1.0.0", fn) == Err(InvalidConstraint)
    ensures ParseConstraint("1.0.0 >=", fn) == Err(InvalidConstraint)
  {
    Unmatched(">=", " 1.0.0");
    assert !IsBodyChar("1.0.0 >="[5]);
    Unmatched("", "1.0.0 >=");
    assert "" + "1.0.0 >=" == "1.0.0 >=";
  }

  /** Operator runs outside the list, such as `=<`, `=>` and `~>`, are
      rejected. */
  lemma UnknownOperator(fn: Parser)
    ensures ParseConstraint("=<1.2", fn) == Err(InvalidConstraint)
    ensures ParseConstraint("=>1.2", fn) == Err(InvalidConstraint)
    ensures ParseConstraint("~>1.5", fn) == Err(InvalidConstraint)
  {
    assert !IsOpText("=<") && !IsOpText("=>") && !IsOpText("~>");
    Unmatched("=<", "1.2");
    assert "=<" + "1.2" == "=<1.2";
    Unmatched("=>", "1.2");
    assert "=>" + "1.2" == "=>1.2";
    Unmatched("~>", "1.5");
    assert "~>" + "1.5" == "~>1.5";
  }

  /** A body without wildcard characters. */
  predicate SimpleBody(b: string) {
    b != "" && AllBodyChars(b) && '*' !in b && 'x' !in b
  }

  /** A plain comparison token parses its body once. */
  lemma PlainToken(o: string, b: string, fn: Parser)
    requires IsOpText(o) && o != "^" && o != "~" && SimpleBody(b)
    ensures ParseConstraint(o + b, fn)
            == if fn(b).Err? then Err(fn(b).error) else Ok([Constraint(o + b, b, OpOf(o), fn(b).value)])
  {
    MatchTokenComplete(o, b);
    assert OpOf(o) != Caret && OpOf(o) != Tilde;
    assert !('*' in b || 'x' in b);
  }

  /** A token has no space in it and does not start with `*` unless its
      body does. */
  lemma TokenShape(o: string, b: string)
    requires IsOpText(o) && b != "" && AllBodyChars(b) && (o != "" || b[0] != '*')
    ensures o + b != "" && ' ' !in o + b
    ensures !IsSpace((o + b)[0]) && !IsSpace((o + b)[|o + b| - 1]) && (o + b)[0] != '*'
  {
    var g := o + b;
    assert forall i :: 0 <= i < |o| ==> IsOpChar(o[i]);
    assert forall i :: 0 <= i < |g| ==> g[i] == if i < |o| then o[i] else b[i - |o|];
    assert forall i :: 0 <= i < |g| ==> !IsSpace(g[i]);
  }

  /** A trimmed group without spaces is read as one token. */
  lemma GroupOfToken(g: string, fn: Parser)
    requires g != "" && ' ' !in g && !IsSpace(g[0]) && !IsSpace(g[|g| - 1]) && g[0] != '*'
    ensures ParseGroup(g, fn) == ParseConstraint(g, fn)
  {
    TokenText(g);
    TrimmedGroup(g, fn);
    TrimmedToken(g, fn);
  }

  /** The text facts that make such a group one token. */
  lemma TokenText(g: string)
    requires g != "" && ' ' !in g && !IsSpace(g[0]) && !IsSpace(g[|g| - 1]) && g[0] != '*'
    ensures TrimSpace(g) == g && !Contains(g, " - ") && !Contains(g, " ")
    ensures g != VersionAll && !HasPrefix(g, VersionAll)
  {
    NotContains(g, " - ");
    NotContains(g, " ");
    assert !HasPrefix(g, "*") by {
      assert |g| >= 1 ==> g[..1] == [g[0]];
    }
  }

  /** Without a hyphen, a space or a leading star, the trimmed text is one
      token. */
  lemma TrimmedToken(g: string, fn: Parser)
    requires !Contains(g, " - ") && !Contains(g, " ") && g != VersionAll && !HasPrefix(g, VersionAll)
    ensures ParseTrimmed(g, fn) == ParseConstraint(g, fn)
  {
  }

  /** A token written with a comparison operator and a body without
      wildcard characters is a group of one comparison against the parse
      of its body. */
  lemma SimpleToken(o: string, b: string, fn: Parser)
    requires IsOpText(o) && o != "^" && o != "~" && SimpleBody(b)
    ensures ParseGroup(o + b, fn)
            == if fn(b).Err? then Err(fn(b).error) else Ok([Constraint(o + b, b, OpOf(o), fn(b).value)])
  {
    assert b[0] in b;
    TokenShape(o, b);
    GroupOfToken(o + b, fn);
    PlainToken(o, b, fn);
  }

  lemma CaretToken(b: string, fn: Parser)
    requires b != "" && AllBodyChars(b)
    ensures ParseConstraint("^" + b, fn) == ParseCaret("^" + b, b, fn)
  {
    MatchTokenComplete("^", b);
    assert OpOf("^") == Caret;
  }

  /** A caret token is the caret expansion of its body. */
  lemma CaretGroup(b: string, fn: Parser)
    requires b != "" && AllBodyChars(b)
    ensures ParseGroup("^" + b, fn) == ParseCaret("^" + b, b, fn)
  {
    TokenShape("^", b);
    GroupOfToken("^" + b, fn);
    CaretToken(b, fn);
  }

  lemma TildeToken(b: string, fn: Parser)
    requires b != "" && AllBodyChars(b)
    ensures ParseConstraint("~" + b, fn) == ParseTilde("~" + b, b, fn)
  {
    MatchTokenComplete("~", b);
    assert OpOf("~") == Tilde;
  }

  /** A tilde token is the tilde expansion of its body. */
  lemma TildeGroup(b: string, fn: Parser)
    requires b != "" && AllBodyChars(b)
    ensures ParseGroup("~" + b, fn) == ParseTilde("~" + b, b, fn)
  {
    TokenShape("~", b);
    GroupOfToken("~" + b, fn);
    TildeToken(b, fn);
  }

  /** When the body has a wildcard character and the operator is neither
      caret nor tilde, the operator plays no part. */
  lemma StarIgnoresOperator(o: string, b: string, fn: Parser)
    requires IsOpText(o) && o != "^" && o != "~"
    requires b != "" && AllBodyChars(b) && ('*' in b || 'x' in b)
    ensures ParseConstraint(o + b, fn) == ParseStar(o + b, b, fn)
  {
    MatchTokenComplete(o, b);
    var op := OpOf(o);
    assert op != Caret && op != Tilde;
  }

  /** A one-token group whose body has a wildcard character and no
      operator is the wildcard expansion of itself. */
  lemma WildcardGroup(g: string, fn: Parser)
    requires g != "" && AllBodyChars(g) && g[0] != '*' && ('*' in g || 'x' in g)
    ensures ParseGroup(g, fn) == ParseStar(g, g, fn)
  {
    TokenShape("", g);
    assert "" + g == g;
    GroupOfToken(g, fn);
    StarIgnoresOperator("", g, fn);
  }

  // ---------------------------------------------------------------------
  // Caret and tilde ranges.

  /** `^M.m.p` with M > 0 admits the versions at or above it with the same
      major, and the prereleases of the next major. */
  lemma CaretMajor(original: string, ver: string, fn: Parser, v: Version)
    requires fn(ReplaceChar(ver, 'x', '0')).Ok?
    requires var ori := fn(ReplaceChar(ver, 'x', '0')).value; 0 < ori.major < U64 - 1
    ensures ParseCaret(original, ver, fn).Ok?
    ensures var ori := fn(ReplaceChar(ver, 'x', '0')).value;
            GroupHolds(v, ParseCaret(original, ver, fn).value) <==>
              Compare(v, ori) >= 0
              && (v.major == ori.major || (v.major == ori.major + 1 && v.minor == 0 && v.patch == 0 && v.pre != ""))
  {
    BelowIncMajor(fn(ReplaceChar(ver, 'x', '0')).value, v);
  }

  /** `^0.m.p` with m > 0 stays within major 0 and minor m. */
  lemma CaretMinor(original: string, ver: string, fn: Parser, v: Version)
    requires fn(ReplaceChar(ver, 'x', '0')).Ok?
    requires var ori := fn(ReplaceChar(ver, 'x', '0')).value; ori.major == 0 && 0 < ori.minor < U64 - 1
    ensures ParseCaret(original, ver, fn).Ok?
    ensures var ori := fn(ReplaceChar(ver, 'x', '0')).value;
            GroupHolds(v, ParseCaret(original, ver, fn).value) <==>
              Compare(v, ori) >= 0 && v.major == 0
              && (v.minor == ori.minor || (v.minor == ori.minor + 1 && v.patch == 0 && v.pre != ""))
  {
    BelowIncMinor(fn(ReplaceChar(ver, 'x', '0')).value, v);
  }

  /** `^0.0.p` with p > 0 and no prerelease stays within 0.0.p. */
  lemma CaretPatch(original: string, ver: string, fn: Parser, v: Version)
    requires fn(ReplaceChar(ver, 'x', '0')).Ok?
    requires var ori := fn(ReplaceChar(ver, 'x', '0')).value;
             ori.major == 0 && ori.minor == 0 && 0 < ori.patch < U64 - 1 && ori.pre == ""
    ensures ParseCaret(original, ver, fn).Ok?
    ensures var ori := fn(ReplaceChar(ver, 'x', '0')).value;
            GroupHolds(v, ParseCaret(original, ver, fn).value) <==>
              Compare(v, ori) >= 0 && v.major == 0 && v.minor == 0
              && (v.patch == ori.patch || (v.patch == ori.patch + 1 && v.pre != ""))
  {
    BelowIncPatch(fn(ReplaceChar(ver, 'x', '0')).value, v);
  }

  /** `^0.0.p-pre` of a semantic version admits nothing: its upper end is
      `IncPatch`, which for a prerelease is 0.0.0, below the lower end. */
  lemma CaretPatchPrereleaseEmpty(original: string, ver: string, fn: Parser, v: Version)
    requires fn(ReplaceChar(ver, 'x', '0')).Ok?
    requires var ori := fn(ReplaceChar(ver, 'x', '0')).value;
             ori.scheme == Semver && ori.major == 0 && ori.minor == 0 && ori.patch > 0 && ori.pre != ""
    ensures ParseCaret(original, ver, fn).Ok?
    ensures !GroupHolds(v, ParseCaret(original, ver, fn).value)
  {
  }

  /** `^0.0.p-pre` of a calendar version admits the prereleases of 0.0.p
      from the lower end on: its upper end is the release 0.0.p. */
  lemma CaretPatchCalVerPrerelease(original: string, ver: string, fn: Parser, v: Version)
    requires fn(ReplaceChar(ver, 'x', '0')).Ok?
    requires var ori := fn(ReplaceChar(ver, 'x', '0')).value;
             ori.scheme == CalVer && ori.major == 0 && ori.minor == 0 && ori.patch > 0 && ori.pre != ""
    ensures ParseCaret(original, ver, fn).Ok?
    ensures var ori := fn(ReplaceChar(ver, 'x', '0')).value;
            GroupHolds(v, ParseCaret(original, ver, fn).value) <==>
              Compare(v, ori) >= 0 && v.major == 0 && v.minor == 0 && v.patch == ori.patch && v.pre != ""
  {
    BelowIncPatchPrerelease(fn(ReplaceChar(ver, 'x', '0')).value, v);
  }

  /** For a body that parses to 0.0.0, the number of pieces it was written
      with picks the upper end: `^0` stops below 1.0.0, `^0.0` below 0.1.0,
      and three or more pieces below 0.0.1. When the body carries a
      prerelease the increment of the patch is the release 0.0.0, so only
      the prereleases of 0.0.0 from the lower end on are admitted. */
  lemma CaretZero(original: string, ver: string, fn: Parser, v: Version)
    requires fn(ReplaceChar(ver, 'x', '0')).Ok?
    requires var ori := fn(ReplaceChar(ver, 'x', '0')).value; ori.major == 0 && ori.minor == 0 && ori.patch == 0
    ensures ParseCaret(original, ver, fn).Ok?
    ensures var ori := fn(ReplaceChar(ver, 'x', '0')).value;
            var pieces := |SplitOn(ReplaceChar(ver, 'x', '0'), ".")|;
            && (pieces == 1 ==>
                  (GroupHolds(v, ParseCaret(original, ver, fn).value) <==>
                     Compare(v, ori) >= 0 && (v.major == 0 || (v.major == 1 && v.minor == 0 && v.patch == 0 && v.pre != ""))))
            && (pieces == 2 ==>
                  (GroupHolds(v, ParseCaret(original, ver, fn).value) <==>
                     Compare(v, ori) >= 0 && v.major == 0 && (v.minor == 0 || (v.minor == 1 && v.patch == 0 && v.pre != ""))))
            && (pieces >= 3 && ori.pre == "" ==>
                  (GroupHolds(v, ParseCaret(original, ver, fn).value) <==>
                     Compare(v, ori) >= 0 && v.major == 0 && v.minor == 0 && (v.patch == 0 || (v.patch == 1 && v.pre != ""))))
            && (pieces >= 3 && ori.pre != "" ==>
                  (GroupHolds(v, ParseCaret(original, ver, fn).value) <==>
                     Compare(v, ori) >= 0 && v.major == 0 && v.minor == 0 && v.patch == 0 && v.pre != ""))
  {
    var ori := fn(ReplaceChar(ver, 'x', '0')).value;
    var pieces := |SplitOn(ReplaceChar(ver, 'x', '0'), ".")|;
    if pieces == 1 {
      BelowIncMajor(ori, v);
    } else if pieces == 2 {
      BelowIncMinor(ori, v);
    } else if ori.pre == "" {
      BelowIncPatch(ori, v);
    } else {
      BelowIncPatchPrerelease(ori, v);
    }
  }

  /** `~M`, `~M.0` and `~M.0.0` stop below the next major. */
  lemma TildeMajor(original: string, ver: string, fn: Parser, v: Version)
    requires fn(ReplaceChar(ver, 'x', '0')).Ok?
    requires var ori := fn(ReplaceChar(ver, 'x', '0')).value; ori.minor == 0 && ori.patch == 0 && ori.major < U64 - 1
    ensures ParseTilde(original, ver, fn).Ok?
    ensures var ori := fn(ReplaceChar(ver, 'x', '0')).value;
            GroupHolds(v, ParseTilde(original, ver, fn).value) <==>
              Compare(v, ori) >= 0
              && (v.major == ori.major || (v.major == ori.major + 1 && v.minor == 0 && v.patch == 0 && v.pre != ""))
  {
    BelowIncMajor(fn(ReplaceChar(ver, 'x', '0')).value, v);
  }

  /** Any other tilde stays within its major.minor. */
  lemma TildeMinor(original: string, ver: string, fn: Parser, v: Version)
    requires fn(ReplaceChar(ver, 'x', '0')).Ok?
    requires var ori := fn(ReplaceChar(ver, 'x', '0')).value; (ori.minor != 0 || ori.patch != 0) && ori.minor < U64 - 1
    ensures ParseTilde(original, ver, fn).Ok?
    ensures var ori := fn(ReplaceChar(ver, 'x', '0')).value;
            GroupHolds(v, ParseTilde(original, ver, fn).value) <==>
              Compare(v, ori) >= 0 && v.major == ori.major
              && (v.minor == ori.minor || (v.minor == ori.minor + 1 && v.patch == 0 && v.pre != ""))
  {
    BelowIncMinor(fn(ReplaceChar(ver, 'x', '0')).value, v);
  }

  // ---------------------------------------------------------------------
  // Wildcards.

  /** `M.*` and `M.x` parse `M.0` and stop below the next major. */
  lemma StarMinor(original: string, a: string, w: string, fn: Parser)
    requires '.' !in a && IsWild(w)
    ensures ParseStar(original, a + "." + w, fn)
            == if fn(a + ".0").Err? then Err(fn(a + ".0").error)
               else Ok(Interval(original, fn(a + ".0").value, IncMajor(fn(a + ".0").value)))
  {
    assert a + "." + w == a + ['.'] + w;
    SplitOnAfter(a, '.', w);
    SplitOnAbsent(w, '.');
    assert [a, w][1 := "0"] == [a, "0"];
    assert Join([a, "0"], ".") == a + ".0";
  }

  /** Three dot-free pieces joined by dots split back into themselves. */
  lemma SplitThree(a: string, b: string, c: string)
    requires '.' !in a && '.' !in b && '.' !in c
    ensures SplitOn(a + "." + b + "." + c, ".") == [a, b, c]
    ensures Join([a, b, c], ".") == a + "." + b + "." + c
  {
    ConcatAssociative(a + "." + b, ".", c);
    ConcatAssociative(a + ".", b, "." + c);
    ConcatAssociative(b, ".", c);
    SplitOnAfter(a, '.', b + ['.'] + c);
    SplitOnAfter(b, '.', c);
    SplitOnAbsent(c, '.');
    assert [a, b, c][1..] == [b, c];
    assert [b, c][1..] == [c];
    assert Join([b, c], ".") == b + "." + c;
  }

  /** `M.m.*` and `M.m.x` parse `M.m.0` and stop below the next minor. */
  lemma StarPatch(original: string, a: string, b: string, w: string, fn: Parser)
    requires '.' !in a && '.' !in b && !IsWild(b) && IsWild(w)
    ensures ParseStar(original, a + "." + b + "." + w, fn)
            == if fn(a + "." + b + ".0").Err? then Err(fn(a + "." + b + ".0").error)
               else Ok(Interval(original, fn(a + "." + b + ".0").value, IncMinor(fn(a + "." + b + ".0").value)))
  {
    PatchPlan(a, b, w);
  }

  /** The plan for `a.b.w`: replace the patch by 0 and bound by the next
      minor. */
  lemma PatchPlan(a: string, b: string, w: string)
    requires '.' !in a && '.' !in b && !IsWild(b) && IsWild(w)
    ensures PlanStar(SplitOn(a + "." + b + "." + w, ".")) == StarPlan([a, b, "0"], false, true)
    ensures Join([a, b, "0"], ".") == a + "." + b + ".0"
  {
    SplitThree(a, b, w);
    assert [a, b, w][2 := "0"] == [a, b, "0"];
    PatchJoin(a, b);
  }

  lemma PatchJoin(a: string, b: string)
    requires '.' !in a && '.' !in b
    ensures Join([a, b, "0"], ".") == a + "." + b + ".0"
  {
    SplitThree(a, b, "0");
    ConcatAssociative(a + "." + b, ".", "0");
  }

  /** A wildcard that is neither the minor nor the patch piece leaves the
      range without an upper end once the parse succeeded. */
  lemma StarWithoutBound(original: string, a: string, b: string, c: string, fn: Parser)
    requires '.' !in a && '.' !in b && '.' !in c && !IsWild(b) && !IsWild(c)
    requires fn(a + "." + b + "." + c).Ok?
    ensures ParseStar(original, a + "." + b + "." + c, fn) == Err(NoUpperBound)
  {
    SplitThree(a, b, c);
  }

  // ---------------------------------------------------------------------
  // Groups.

  /** A group holding one ` - ` separator is a hyphen range. */
  lemma HyphenGroup(g: string, a: string, b: string, fn: Parser)
    requires TrimSpace(g) == g && SplitOn(g, " - ") == [a, b]
    ensures ParseGroup(g, fn) == Then(ParseGroup(">=" + a, fn), ParseGroup("<=" + b, fn))
  {
    TrimmedGroup(g, fn);
    HyphenTrimmed(g, a, b, fn);
  }

  /** A group that is already trimmed is read as it stands. */
  lemma TrimmedGroup(g: string, fn: Parser)
    requires TrimSpace(g) == g
    ensures ParseGroup(g, fn) == ParseTrimmed(g, fn)
  {
  }

  lemma HyphenTrimmed(g: string, a: string, b: string, fn: Parser)
    requires SplitOn(g, " - ") == [a, b]
    ensures ParseTrimmed(g, fn) == Then(ParseGroup(">=" + a, fn), ParseGroup("<=" + b, fn))
  {
    var gs := SplitOn(g, " - ");
    assert Contains(g, " - ");
    assert ">=" + gs[0] == ">=" + a && "<=" + gs[1] == "<=" + b;
    var lo, hi := ParseGroup(">=" + a, fn), ParseGroup("<=" + b, fn);
    if lo.Err? {
      assert ParseTrimmed(g, fn) == Err(lo.error);
    } else if hi.Err? {
      assert ParseTrimmed(g, fn) == Err(hi.error);
    } else {
      assert ParseTrimmed(g, fn) == Ok(lo.value + hi.value);
    }
  }

  /** The text of a hyphen range is already trimmed and splits into its
      two ends. */
  lemma HyphenText(a: string, b: string)
    requires SimpleBody(a) && SimpleBody(b)
    ensures TrimSpace(a + " - " + b) == a + " - " + b
    ensures SplitOn(a + " - " + b, " - ") == [a, b]
  {
    var g := a + " - " + b;
    assert a[0] in a && b[0] in b;
    TokenShape("", a);
    TokenShape("", b);
    assert "" + a == a && "" + b == b;
    assert g[0] == a[0] && g[|g| - 1] == b[|b| - 1];
    SplitOnAfterSep(a, " - ", b);
    NotContains(b, " - ");
  }

  /** A hyphen range `A - B` is `>=A` followed by `<=B`. */
  lemma HyphenRange(a: string, b: string, fn: Parser)
    requires SimpleBody(a) && SimpleBody(b)
    ensures ParseGroup(a + " - " + b, fn)
            == if fn(a).Err? then Err(fn(a).error)
               else if fn(b).Err? then Err(fn(b).error)
               else Ok([Constraint(">=" + a, a, GreaterEq, fn(a).value), Constraint("<=" + b, b, LessEq, fn(b).value)])
  {
    HyphenText(a, b);
    HyphenGroup(a + " - " + b, a, b, fn);
    HyphenEnds(a, b, fn);
  }

  /** The two ends of a hyphen range, each read as one plain token. */
  lemma HyphenEnds(a: string, b: string, fn: Parser)
    requires SimpleBody(a) && SimpleBody(b)
    ensures Then(ParseGroup(">=" + a, fn), ParseGroup("<=" + b, fn))
            == if fn(a).Err? then Err(fn(a).error)
               else if fn(b).Err? then Err(fn(b).error)
               else Ok([Constraint(">=" + a, a, GreaterEq, fn(a).value), Constraint("<=" + b, b, LessEq, fn(b).value)])
  {
    LowEnd(a, fn);
    HighEnd(b, fn);
    ThenSingles(ParseGroup(">=" + a, fn), ParseGroup("<=" + b, fn));
  }

  lemma LowEnd(a: string, fn: Parser)
    requires SimpleBody(a)
    ensures ParseGroup(">=" + a, fn)
            == if fn(a).Err? then Err(fn(a).error) else Ok([Constraint(">=" + a, a, GreaterEq, fn(a).value)])
  {
    SimpleToken(">=", a, fn);
    assert OpOf(">=") == GreaterEq;
  }

  lemma HighEnd(b: string, fn: Parser)
    requires SimpleBody(b)
    ensures ParseGroup("<=" + b, fn)
            == if fn(b).Err? then Err(fn(b).error) else Ok([Constraint("<=" + b, b, LessEq, fn(b).value)])
  {
    SimpleToken("<=", b, fn);
    assert OpOf("<=") == LessEq;
  }

  /** Two single-constraint parses in sequence make a pair. */
  lemma ThenSingles(x: Result<seq<Constraint>>, y: Result<seq<Constraint>>)
    requires x.Ok? ==> |x.value| == 1
    requires y.Ok? ==> |y.value| == 1
    ensures Then(x, y) == if x.Err? then Err(x.error) else if y.Err? then Err(y.error) else Ok([x.value[0], y.value[0]])
  {
    if x.Ok? && y.Ok? {
      assert x.value + y.value == [x.value[0], y.value[0]];
    }
  }

  lemma HyphenRangeHolds(a: string, b: string, fn: Parser, v: Version)
    requires SimpleBody(a) && SimpleBody(b) && fn(a).Ok? && fn(b).Ok?
    ensures ParseGroup(a + " - " + b, fn).Ok?
    ensures GroupHolds(v, ParseGroup(a + " - " + b, fn).value) <==>
              Compare(v, fn(a).value) >= 0 && Compare(v, fn(b).value) <= 0
  {
    var g := [Constraint(">=" + a, a, GreaterEq, fn(a).value), Constraint("<=" + b, b, LessEq, fn(b).value)];
    HyphenRange(a, b, fn);
    RangeOfPair(g, v);
  }

  lemma RangeOfPair(g: seq<Constraint>, v: Version)
    requires |g| == 2 && g[0].op == GreaterEq && g[1].op == LessEq
    ensures GroupHolds(v, g) <==> Compare(v, g[0].bound) >= 0 && Compare(v, g[1].bound) <= 0
  {
    assert GroupHolds(v, g) <==> Satisfies(v, g[0]) && Satisfies(v, g[1]);
  }

  /** Text joined by two ` - ` separators, with no space in the pieces, is
      its own trim. */
  lemma DoubleHyphenTrimmed(a: string, b: string, c: string)
    requires SimpleBody(a) && SimpleBody(c)
    ensures TrimSpace(a + " - " + b + " - " + c) == a + " - " + b + " - " + c
  {
    var g := a + " - " + b + " - " + c;
    assert a[0] in a && c[0] in c;
    TokenShape("", a);
    TokenShape("", c);
    assert "" + a == a && "" + c == c;
    assert g[0] == a[0] && g[|g| - 1] == c[|c| - 1];
  }

  /** A group whose trimmed text holds ` - ` more than once is an error,
      whatever its pieces are. */
  lemma MultipleHyphens(g: string, fn: Parser)
    requires Contains(TrimSpace(g), " - ") && |SplitOn(TrimSpace(g), " - ")| > 2
    ensures ParseGroup(g, fn) == Err(InvalidConstraint)
  {
  }

  /** Two ` - ` separators make three pieces. */
  lemma DoubleHyphenSplit(a: string, b: string, c: string)
    requires ' ' !in a && ' ' !in b && ' ' !in c
    ensures |SplitOn(a + " - " + b + " - " + c, " - ")| == 3
  {
    assert a + " - " + b + " - " + c == a + " - " + (b + " - " + c);
    SplitOnAfterSep(a, " - ", b + " - " + c);
    SplitOnAfterSep(b, " - ", c);
    NotContains(c, " - ");
  }

  /** An instance of `MultipleHyphens`: `a - b - c` with plain pieces. */
  lemma DoubleHyphen(a: string, b: string, c: string, fn: Parser)
    requires SimpleBody(a) && SimpleBody(b) && SimpleBody(c)
    ensures ParseGroup(a + " - " + b + " - " + c, fn) == Err(InvalidConstraint)
  {
    DoubleHyphenTrimmed(a, b, c);
    TokenShape("", b);
    assert "" + b == b;
    DoubleHyphenSplit(a, b, c);
    var g := a + " - " + b + " - " + c;
    assert Contains(g, " - ");
  }

  /** Two parses in sequence: the first error, or both lists in order. */
  function Then(x: Result<seq<Constraint>>, y: Result<seq<Constraint>>): Result<seq<Constraint>> {
    if x.Err? then Err(x.error) else if y.Err? then Err(y.error) else Ok(x.value + y.value)
  }

  lemma ThenAssociative(x: Result<seq<Constraint>>, y: Result<seq<Constraint>>, z: Result<seq<Constraint>>)
    ensures Then(x, Then(y, z)) == Then(Then(x, y), z)
  {
    if x.Ok? && y.Ok? && z.Ok? {
      assert x.value + (y.value + z.value) == (x.value + y.value) + z.value;
    }
  }

  /** One step of the conjunction loop. */
  lemma ParseTokensStep(parts: seq<string>, bound: nat, fn: Parser)
    requires |parts| > 0 && forall k :: 0 <= k < |parts| ==> |parts[k]| < bound
    ensures ParseTokens(parts, bound, fn)
            == Then(if parts[0] != "" then ParseGroup(parts[0], fn) else Ok([]), ParseTokens(parts[1..], bound, fn))
  {
  }

  /** A conjunction succeeds exactly when every non-empty piece parses. */
  lemma {:induction false} ParseTokensOk(parts: seq<string>, bound: nat, fn: Parser)
    requires forall k :: 0 <= k < |parts| ==> |parts[k]| < bound
    ensures ParseTokens(parts, bound, fn).Ok?
            <==> forall k :: 0 <= k < |parts| && parts[k] != "" ==> ParseGroup(parts[k], fn).Ok?
  {
    ParseTokensPieces(parts, bound, fn);
    PiecesParseAll(parts, fn);
  }

  /** Every non-empty piece parses, piece by piece. */
  predicate PiecesParse(parts: seq<string>, fn: Parser)
    decreases |parts|
  {
    |parts| == 0 || ((parts[0] == "" || ParseGroup(parts[0], fn).Ok?) && PiecesParse(parts[1..], fn))
  }

  lemma {:induction false} ParseTokensPieces(parts: seq<string>, bound: nat, fn: Parser)
    requires forall k :: 0 <= k < |parts| ==> |parts[k]| < bound
    ensures ParseTokens(parts, bound, fn).Ok? <==> PiecesParse(parts, fn)
    decreases |parts|
  {
    if |parts| > 0 {
      ParseTokensStep(parts, bound, fn);
      ParseTokensPieces(parts[1..], bound, fn);
    }
  }

  lemma {:induction false} PiecesParseAll(parts: seq<string>, fn: Parser)
    ensures PiecesParse(parts, fn)
            <==> forall k :: 0 <= k < |parts| && parts[k] != "" ==> ParseGroup(parts[k], fn).Ok?
    decreases |parts|
  {
    if |parts| > 0 {
      PiecesParseAll(parts[1..], fn);
      assert forall k :: 1 <= k < |parts| ==> parts[k] == parts[1..][k - 1];
    }
  }

  /** Parsing the pieces of a conjunction distributes over concatenation:
      the constraints come out in the order of the pieces, and the first
      failing piece decides the error. */
  lemma {:induction false} ParseTokensAppend(p: seq<string>, q: seq<string>, bound: nat, fn: Parser)
    requires forall k :: 0 <= k < |p| ==> |p[k]| < bound
    requires forall k :: 0 <= k < |q| ==> |q[k]| < bound
    ensures ParseTokens(p + q, bound, fn) == Then(ParseTokens(p, bound, fn), ParseTokens(q, bound, fn))
    decreases |p|
  {
    if |p| == 0 {
      assert p + q == q;
      assert ParseTokens(p, bound, fn) == Ok([]);
      var none: seq<Constraint> := [];
      if ParseTokens(q, bound, fn).Ok? {
        assert none + ParseTokens(q, bound, fn).value == ParseTokens(q, bound, fn).value;
      }
    } else {
      var pq := p + q;
      assert pq[0] == p[0];
      assert pq[1..] == p[1..] + q;
      var head := if p[0] != "" then ParseGroup(p[0], fn) else Ok([]);
      ParseTokensStep(pq, bound, fn);
      ParseTokensStep(p, bound, fn);
      ParseTokensAppend(p[1..], q, bound, fn);
      ThenAssociative(head, ParseTokens(p[1..], bound, fn), ParseTokens(q, bound, fn));
    }
  }

  /** Empty pieces, left by repeated spaces, contribute nothing. */
  lemma {:induction false} EmptyPiecesIgnored(n: nat, bound: nat, fn: Parser)
    requires bound > 0
    ensures ParseTokens(Empties(n), bound, fn) == Ok([])
    decreases n
  {
    var e := Empties(n);
    if n > 0 {
      assert e[0] == "";
      assert e[1..] == Empties(n - 1);
      ParseTokensStep(e, bound, fn);
      EmptyPiecesIgnored(n - 1, bound, fn);
      var none: seq<Constraint> := [];
      assert none + none == none;
    } else {
      assert e == [];
    }
  }

  /** `k` empty pieces, as splitting at a run of spaces leaves them. */
  function Empties(k: nat): (r: seq<string>)
    ensures |r| == k && forall i :: 0 <= i < k ==> r[i] == ""
  {
    seq(k, _ => "")
  }

  /** A run of `k` spaces. */
  function Spaces(k: nat): (r: string)
    ensures |r| == k && forall i :: 0 <= i < k ==> r[i] == ' '
  {
    seq(k, _ => ' ')
  }

  /** Splitting a run of spaces followed by a space-free token gives one
      empty piece per space, then the token. */
  lemma {:induction false} SplitSpaces(k: nat, t: string)
    requires ' ' !in t
    ensures SplitOn(Spaces(k) + t, " ") == Empties(k) + [t]
    decreases k
  {
    if k == 0 {
      assert Spaces(0) + t == t;
      NotContains(t, " ");
    } else {
      var rest := Spaces(k - 1) + t;
      assert Spaces(k) == " " + Spaces(k - 1);
      ConcatAssociative(" ", Spaces(k - 1), t);
      assert "" + " " + rest == " " + rest;
      SplitOnAfterSep("", " ", rest);
      SplitSpaces(k - 1, t);
      assert Empties(k) == [""] + Empties(k - 1);
      ConcatAssociative([""], Empties(k - 1), [t]);
    }
  }

  /** Two space-free tokens around a run of spaces hold no ` - `. */
  lemma NoHyphenBetweenTokens(t1: string, k: nat, t2: string)
    requires ' ' !in t1 && ' ' !in t2
    ensures !Contains(t1 + Spaces(k) + t2, " - ")
  {
    var g := t1 + Spaces(k) + t2;
    assert forall i :: 0 <= i < |g| ==> (g[i] == ' ' <==> |t1| <= i < |t1| + k) by {
      forall i | 0 <= i < |g|
        ensures g[i] == ' ' <==> |t1| <= i < |t1| + k
      {
        if i < |t1| {
          assert g[i] == t1[i];
        } else if i >= |t1| + k {
          assert g[i] == t2[i - |t1| - k];
        }
      }
    }
    forall j: nat
      ensures !MatchesAt(g, " - ", j)
    {
      if j + 3 <= |g| {
        var w := g[j..j + 3];
        assert w[0] == g[j] && w[1] == g[j + 1] && w[2] == g[j + 2];
      }
    }
  }

  /** The text of a conjunction of two tokens is already trimmed. */
  lemma ConjunctionTrimmed(t1: string, k: nat, t2: string)
    requires t1 != "" && t2 != "" && !IsSpace(t1[0]) && !IsSpace(t2[|t2| - 1])
    ensures TrimSpace(t1 + Spaces(k) + t2) == t1 + Spaces(k) + t2
  {
    var g := t1 + Spaces(k) + t2;
    assert g[0] == t1[0] && g[|g| - 1] == t2[|t2| - 1];
  }

  /** It splits at spaces into the tokens with one empty piece per extra
      space. */
  lemma ConjunctionSplit(t1: string, k: nat, t2: string)
    requires ' ' !in t1 && ' ' !in t2 && k > 0
    ensures SplitOn(t1 + Spaces(k) + t2, " ") == [t1] + Empties(k - 1) + [t2]
  {
    assert t1 + Spaces(k) + t2 == t1 + " " + (Spaces(k - 1) + t2);
    SplitOnAfterSep(t1, " ", Spaces(k - 1) + t2);
    SplitSpaces(k - 1, t2);
  }

  lemma ConjunctionText(t1: string, k: nat, t2: string)
    requires t1 != "" && t2 != "" && ' ' !in t1 && ' ' !in t2 && k > 0
    requires !IsSpace(t1[0]) && !IsSpace(t2[|t2| - 1])
    ensures TrimSpace(t1 + Spaces(k) + t2) == t1 + Spaces(k) + t2
    ensures !Contains(t1 + Spaces(k) + t2, " - ") && Contains(t1 + Spaces(k) + t2, " ")
    ensures SplitOn(t1 + Spaces(k) + t2, " ") == [t1] + Empties(k - 1) + [t2]
  {
    ConjunctionTrimmed(t1, k, t2);
    NoHyphenBetweenTokens(t1, k, t2);
    ConjunctionSplit(t1, k, t2);
  }

  /** A conjunction of two tokens, however many spaces separate them, is
      the constraints of the first followed by those of the second; the
      first failure is the error. */
  lemma Conjunction(t1: string, k: nat, t2: string, fn: Parser)
    requires t1 != "" && t2 != "" && ' ' !in t1 && ' ' !in t2 && k > 0
    requires !IsSpace(t1[0]) && !IsSpace(t2[|t2| - 1])
    ensures ParseGroup(t1 + Spaces(k) + t2, fn) == Then(ParseGroup(t1, fn), ParseGroup(t2, fn))
  {
    var g := t1 + Spaces(k) + t2;
    ConjunctionText(t1, k, t2);
    var empties := Empties(k - 1);
    var parts := [t1] + empties + [t2];
    ConjunctionPieces(t1, empties, t2, |g|, fn);
  }

  /** The loop over `[t1] + empties + [t2]`. */
  lemma ConjunctionPieces(t1: string, empties: seq<string>, t2: string, bound: nat, fn: Parser)
    requires t1 != "" && t2 != "" && |t1| < bound && |t2| < bound
    requires empties == Empties(|empties|)
    ensures ParseTokens([t1] + empties + [t2], bound, fn) == Then(ParseGroup(t1, fn), ParseGroup(t2, fn))
  {
    ParseTokensAppend([t1] + empties, [t2], bound, fn);
    ParseTokensAppend([t1], empties, bound, fn);
    EmptyPiecesIgnored(|empties|, bound, fn);
    Single(t1, bound, fn);
    Single(t2, bound, fn);
    ThenUnit(ParseGroup(t1, fn));
  }

  lemma Single(t: string, bound: nat, fn: Parser)
    requires t != "" && |t| < bound
    ensures ParseTokens([t], bound, fn) == ParseGroup(t, fn)
  {
    ParseTokensStep([t], bound, fn);
    var none: seq<Constraint> := [];
    assert [t][1..] == [];
    assert ParseTokens([], bound, fn) == Ok(none);
    if ParseGroup(t, fn).Ok? {
      assert ParseGroup(t, fn).value + none == ParseGroup(t, fn).value;
    }
  }

  lemma ThenUnit(x: Result<seq<Constraint>>)
    ensures Then(x, Ok([])) == x
  {
    if x.Ok? {
      assert x.value + [] == x.value;
    }
  }

  lemma StarText(g: string)
    requires g != "" && g[0] == '*' && ' ' !in g && !IsSpace(g[|g| - 1])
    ensures TrimSpace(g) == g && !Contains(g, " - ") && !Contains(g, " ") && HasPrefix(g, "*")
  {
    NotContains(g, " - ");
    NotContains(g, " ");
    assert g[..1] == "*";
  }

  /** A group that is one token starting with `*` is `>=0.0.0`, whatever
      follows the star. */
  lemma StarGroup(g: string, fn: Parser)
    requires g != "" && g[0] == '*' && ' ' !in g && !IsSpace(g[|g| - 1])
    ensures ParseGroup(g, fn) == ParseConstraint(VersionAllAlias, fn)
  {
    StarText(g);
  }

  /** White space around a group does not matter. */
  lemma GroupIgnoresSpace(g: string, fn: Parser)
    ensures ParseGroup(g, fn) == ParseGroup(TrimSpace(g), fn)
  {
    TrimSpaceIdempotent(g);
  }

  lemma DisjunctionSplit(g1: string, g2: string)
    requires '|' !in g1 && '|' !in g2
    ensures g1 + "||" + g2 != "" && SplitOn(g1 + "||" + g2, "||") == [g1, g2]
  {
    SplitOnAfterSep(g1, "||", g2);
    NotContains(g2, "||");
  }

  /** The loop over two groups. */
  lemma ParseTwoGroups(g1: string, g2: string, fn: Parser)
    ensures var r1 := ParseGroup(g1, fn);
            var r2 := ParseGroup(g2, fn);
            ParseGroups([g1, g2], fn)
            == if r1.Err? then Err(r1.error)
               else if r2.Err? then Err(r2.error)
               else Ok([r1.value, r2.value])
  {
    ParseEachTwo(g1, g2, g => ParseGroup(g, fn));
  }

  /** The fail-fast loop over two texts. */
  lemma ParseEachTwo<T>(x: string, y: string, parse: string -> Result<T>)
    ensures ParseEach([x, y], parse)
            == if parse(x).Err? then Err(parse(x).error)
               else if parse(y).Err? then Err(parse(y).error)
               else Ok([parse(x).value, parse(y).value])
  {
    assert [y][1..] == [] && [x, y][1..] == [y];
    if parse(y).Ok? {
      var none: seq<T> := [];
      assert [parse(y).value] + none == [parse(y).value];
      assert ParseEach([y], parse) == Ok([parse(y).value]);
      if parse(x).Ok? {
        assert [parse(x).value] + [parse(y).value] == [parse(x).value, parse(y).value];
      }
    }
  }

  /** Two groups joined by `||` parse to the two groups in order; the
      first one that fails decides the error. */
  lemma Disjunction(g1: string, g2: string, fn: Parser)
    requires '|' !in g1 && '|' !in g2
    ensures var r1 := ParseGroup(g1, fn);
            var r2 := ParseGroup(g2, fn);
            NewConstraint(g1 + "||" + g2, fn)
            == if r1.Err? then Err(r1.error)
               else if r2.Err? then Err(r2.error)
               else Ok(Constraints([r1.value, r2.value]))
  {
    DisjunctionSplit(g1, g2);
    ParseTwoGroups(g1, g2, fn);
  }

  lemma TokenTrims(o: string, b: string)
    requires IsOpText(o) && SimpleBody(b)
    ensures TrimSpace(o + b + " ") == o + b && TrimSpace(" " + o + b) == o + b
  {
    assert b[0] in b;
    TokenShape(o, b);
    var t := o + b;
    TrimOneSpace(t);
    ConcatAssociative(" ", o, b);
  }

  /** A plain token with one space after it. */
  lemma TokenThenSpace(o: string, b: string, fn: Parser)
    requires IsOpText(o) && SimpleBody(b)
    ensures ParseGroup(o + b + " ", fn) == ParseGroup(o + b, fn)
  {
    TokenTrims(o, b);
    GroupIgnoresSpace(o + b + " ", fn);
  }

  /** A plain token with one space before it. */
  lemma SpaceThenToken(o: string, b: string, fn: Parser)
    requires IsOpText(o) && SimpleBody(b)
    ensures ParseGroup(" " + o + b, fn) == ParseGroup(o + b, fn)
  {
    TokenTrims(o, b);
    GroupIgnoresSpace(" " + o + b, fn);
  }

  /** `A || B` for two plain comparisons: two groups of one constraint. */
  lemma PlainDisjunction(o1: string, b1: string, o2: string, b2: string, fn: Parser)
    requires IsOpText(o1) && o1 != "^" && o1 != "~" && SimpleBody(b1) && '|' !in b1
    requires IsOpText(o2) && o2 != "^" && o2 != "~" && SimpleBody(b2) && '|' !in b2
    requires fn(b1).Ok? && fn(b2).Ok?
    ensures NewConstraint(o1 + b1 + " || " + o2 + b2, fn)
            == Ok(Constraints([[Constraint(o1 + b1, b1, OpOf(o1), fn(b1).value)],
                               [Constraint(o2 + b2, b2, OpOf(o2), fn(b2).value)]]))
  {
    var g1 := o1 + b1 + " ";
    var g2 := " " + o2 + b2;
    assert o1 + b1 + " || " + o2 + b2 == g1 + "||" + g2;
    assert '|' !in g1 && '|' !in g2 by {
      assert forall i :: 0 <= i < |o1| ==> IsOpChar(o1[i]);
      assert forall i :: 0 <= i < |o2| ==> IsOpChar(o2[i]);
    }
    TokenThenSpace(o1, b1, fn);
    SpaceThenToken(o2, b2, fn);
    SimpleToken(o1, b1, fn);
    SimpleToken(o2, b2, fn);
    Disjunction(g1, g2, fn);
  }
}
