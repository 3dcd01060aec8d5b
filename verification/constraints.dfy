/** Range expressions (constraints.go): parsing an expression such as
    `>=1.1 <2 !=1.2.3 || ^3.4` into OR-groups of AND-ed comparisons, and
    checking a version against them. The version parser is a parameter,
    as the Go code's `New` function is. */
module Constraints {
  import opened Errors
  import opened Decimal
  import opened Text
  import opened Versions
  import opened Precedence
  import opened Comparable

  /** The operators of `findConstraintRegex`. `NotEq` is `!=` and `Bang`
      is `!`; both mean "not equal". A token with no operator is `Equal`. */
  datatype Op = Caret | GreaterEq | LessEq | NotEq | Bang | Greater | Less | Tilde | Equal

  /** The operators `operatorsMap` has an entry for: caret and tilde tokens
      are always expanded into a pair of these. */
  type Relation = o: Op | !o.Caret? && !o.Tilde? witness Equal

  /** `constraint`: the token it came from, the version text it names, its
      operator and the parsed bound. */
  datatype Constraint = Constraint(original: string, version: string, op: Relation, bound: Version)

  /** `Constraints`: OR over groups, AND within a group. */
  datatype Constraints = Constraints(groups: seq<seq<Constraint>>)

  /** `VersionAll` and the token it stands for. */
  const VersionAll := "*"
  const VersionAllAlias := ">=0.0.0"

  /** `New`: a version parser, failing with an error of its own. */
  type Parser = string -> Result<Version>

  // ---------------------------------------------------------------------
  // Checking.

  /** `operatorsMap[c.operator](v, c)`: the six sign tests of `Compare`. */
  predicate Satisfies(v: Version, c: Constraint) {
    var d := Compare(v, c.bound);
    match c.op
    case Equal => d == 0
    case NotEq => d != 0
    case Bang => d != 0
    case Greater => d > 0
    case Less => d < 0
    case GreaterEq => d >= 0
    case LessEq => d <= 0
  }

  /** Every constraint of one group holds. */
  predicate GroupHolds(v: Version, g: seq<Constraint>) {
    forall j :: 0 <= j < |g| ==> Satisfies(v, g[j])
  }

  /** `check`: the groups in order, each scanned until its first failing
      constraint; the first group that survives makes the answer true. */
  method Check(cs: Constraints, v: Version) returns (ok: bool)
    ensures ok <==> exists i :: 0 <= i < |cs.groups| && GroupHolds(v, cs.groups[i])
  {
    var i := 0;
    while i < |cs.groups|
      invariant 0 <= i <= |cs.groups|
      invariant forall k :: 0 <= k < i ==> !GroupHolds(v, cs.groups[k])
    {
      var g := cs.groups[i];
      var joy := true;
      var j := 0;
      while j < |g|
        invariant 0 <= j <= |g|
        invariant joy
        invariant forall k :: 0 <= k < j ==> Satisfies(v, g[k])
      {
        if !Satisfies(v, g[j]) {
          joy := false;
          break;
        }
        j := j + 1;
      }
      if joy {
        return true;
      }
      i := i + 1;
    }
    return false;
  }

  /** A lower bound (`>` or `>=`) admits every version above one it
      admits: the satisfying versions are closed upwards. */
  lemma LowerBoundUpward(v: Version, w: Version, c: Constraint)
    requires c.op == Greater || c.op == GreaterEq
    requires CanonicalVersion(v) && CanonicalVersion(w) && CanonicalVersion(c.bound)
    requires Satisfies(v, c) && Compare(v, w) <= 0
    ensures Satisfies(w, c)
  {
    CompareAntisymmetric(v, c.bound);
    CompareTransitive(c.bound, v, w);
    CompareAntisymmetric(w, c.bound);
  }

  /** An upper bound (`<` or `<=`) admits every version below one it
      admits: the satisfying versions are closed downwards. */
  lemma UpperBoundDownward(v: Version, w: Version, c: Constraint)
    requires c.op == Less || c.op == LessEq
    requires CanonicalVersion(v) && CanonicalVersion(w) && CanonicalVersion(c.bound)
    requires Satisfies(v, c) && Compare(w, v) <= 0
    ensures Satisfies(w, c)
  {
    CompareTransitive(w, v, c.bound);
  }

  /** `v > b` holds exactly when `b < v` does, and `v >= b` exactly when
      `b <= v`: a bound reads the same from either side. */
  lemma BoundConverse(v: Version, b: Version, original: string, version: string)
    requires CanonicalVersion(v) && CanonicalVersion(b)
    ensures Satisfies(v, Constraint(original, version, Greater, b))
            <==> Satisfies(b, Constraint(original, version, Less, v))
    ensures Satisfies(v, Constraint(original, version, GreaterEq, b))
            <==> Satisfies(b, Constraint(original, version, LessEq, v))
  {
    CompareAntisymmetric(v, b);
  }

  /** `=` admits exactly the versions with the bound's major, minor, patch
      and prerelease; `!=` and `!` admit the rest. Metadata plays no part. */
  lemma EqualMeansSame(v: Version, c: Constraint)
    requires NoEmptyIdentifier(v.pre) && NoEmptyIdentifier(c.bound.pre)
    ensures c.op == Equal ==>
              (Satisfies(v, c) <==>
                 v.major == c.bound.major && v.minor == c.bound.minor
                 && v.patch == c.bound.patch && v.pre == c.bound.pre)
    ensures c.op == NotEq || c.op == Bang ==>
              (Satisfies(v, c) <==>
                 !(v.major == c.bound.major && v.minor == c.bound.minor
                   && v.patch == c.bound.patch && v.pre == c.bound.pre))
  {
    CompareZeroIff(v, c.bound);
  }

  // ---------------------------------------------------------------------
  // The token grammar `^(\^|>=|<=|!=|!|>|<|~|=)?([\w\.\+\*-]+)$`.

  predicate IsOpChar(c: char) {
    c == '^' || c == '>' || c == '<' || c == '!' || c == '~' || c == '='
  }

  /** `[\w.+*-]`: ASCII letters and digits, `_`, `.`, `+`, `*` and `-`. */
  predicate IsBodyChar(c: char) {
    ('a' <= c <= 'z') || ('A' <= c <= 'Z') || ('0' <= c <= '9')
    || c == '_' || c == '.' || c == '+' || c == '*' || c == '-'
  }

  predicate AllBodyChars(s: string) {
    forall i :: 0 <= i < |s| ==> IsBodyChar(s[i])
  }

  /** The texts of the optional operator group, the empty one included. */
  predicate IsOpText(t: string) {
    t in {"", "^", ">=", "<=", "!=", "!", ">", "<", "~", "="}
  }

  /** The length of the longest prefix of operator characters. */
  function OpRun(s: string): (k: nat)
    ensures k <= |s|
    ensures forall i :: 0 <= i < k ==> IsOpChar(s[i])
    ensures k < |s| ==> !IsOpChar(s[k])
  {
    if |s| > 0 && IsOpChar(s[0]) then 1 + OpRun(s[1..]) else 0
  }

  /** The two capture groups of a token. */
  datatype Token = Token(opText: string, body: string)

  /** `findConstraintRegex.FindStringSubmatch`. No body character is an
      operator character, so the operator group is the whole run of
      operator characters at the front; the token matches when that run is
      one of the operators and the rest is a non-empty body. */
  function MatchToken(c: string): (r: Option<Token>)
    ensures r.Some? ==> IsOpText(r.value.opText) && c == r.value.opText + r.value.body
    ensures r.Some? ==> r.value.body != "" && AllBodyChars(r.value.body)
  {
    var k := OpRun(c);
    if IsOpText(c[..k]) && k < |c| && AllBodyChars(c[k..]) then
      assert c == c[..k] + c[k..];
      Some(Token(c[..k], c[k..]))
    else None
  }

  lemma {:induction false} OpRunOfPrefix(o: string, b: string)
    requires forall i :: 0 <= i < |o| ==> IsOpChar(o[i])
    requires |b| > 0 ==> !IsOpChar(b[0])
    ensures OpRun(o + b) == |o|
    decreases |o|
  {
    if |o| > 0 {
      assert (o + b)[1..] == o[1..] + b;
      OpRunOfPrefix(o[1..], b);
    } else {
      assert o + b == b;
    }
  }

  /** Every operator text followed by a non-empty body is recognised, with
      those two groups: with the contract of `MatchToken`, the recogniser
      accepts exactly the language of the regular expression. */
  lemma MatchTokenComplete(o: string, b: string)
    requires IsOpText(o) && b != "" && AllBodyChars(b)
    ensures MatchToken(o + b) == Some(Token(o, b))
  {
    assert forall i :: 0 <= i < |o| ==> IsOpChar(o[i]);
    OpRunOfPrefix(o, b);
    var c := o + b;
    assert c[..|o|] == o && c[|o|..] == b;
  }

  /** The operator a matched token stands for: `op = found[1]`, with the
      empty operator read as `=`. */
  function OpOf(t: string): (op: Op)
    requires IsOpText(t)
    ensures op == Caret <==> t == "^"
    ensures op == Tilde <==> t == "~"
    ensures op == Equal <==> t == "" || t == "="
    ensures op == NotEq || op == Bang <==> t == "!=" || t == "!"
  {
    if t == "^" then Caret
    else if t == ">=" then GreaterEq
    else if t == "<=" then LessEq
    else if t == "!=" then NotEq
    else if t == "!" then Bang
    else if t == ">" then Greater
    else if t == "<" then Less
    else if t == "~" then Tilde
    else Equal
  }

  // ---------------------------------------------------------------------
  // The expansions of caret, tilde and wildcard tokens.

  /** The `>=` / `<` pair every expansion yields. The first ensures
      spells out the two constraints, which the range lemmas about caret,
      tilde and wildcard tokens start from; the second says what the pair
      admits. */
  function Interval(original: string, lo: Version, hi: Version): (r: seq<Constraint>)
    ensures |r| == 2 && r[0].op == GreaterEq && r[0].bound == lo && r[1].op == Less && r[1].bound == hi
    ensures forall v :: GroupHolds(v, r) <==> Compare(v, lo) >= 0 && Lt(v, hi)
  {
    [Constraint(original, VersionString(lo), GreaterEq, lo), Constraint(original, VersionString(hi), Less, hi)]
  }

  /** The upper end of a caret range: bump the first non-zero part; for
      0.0.0, the number of dot-separated pieces the body was written with
      decides. */
  function CaretMax(ori: Version, body: string): Version {
    if ori.major > 0 then IncMajor(ori)
    else if ori.minor > 0 then IncMinor(ori)
    else if ori.patch > 0 then IncPatch(ori)
    else
      var n := |SplitOn(body, ".")|;
      if n == 1 then IncMajor(ori)
      else if n == 2 then IncMinor(ori)
      else IncPatch(ori)
  }

  /** `parseCaretConstraint`: every lower-case `x` becomes `0`, the body is
      parsed, and the range runs from it to `CaretMax`. */
  function ParseCaret(original: string, ver: string, fn: Parser): (r: Result<seq<Constraint>>)
    ensures fn(ReplaceChar(ver, 'x', '0')).Err? ==> r == Err(fn(ReplaceChar(ver, 'x', '0')).error)
  {
    var body := ReplaceChar(ver, 'x', '0');
    var ori :- fn(body);
    Ok(Interval(original, ori, CaretMax(ori, body)))
  }

  /** The upper end of a tilde range: the next major when minor and patch
      are both zero, the next minor otherwise. */
  function TildeMax(ori: Version): Version {
    if ori.minor == 0 && ori.patch == 0 then IncMajor(ori) else IncMinor(ori)
  }

  /** `parseTildeConstraint`. */
  function ParseTilde(original: string, ver: string, fn: Parser): (r: Result<seq<Constraint>>)
    ensures fn(ReplaceChar(ver, 'x', '0')).Err? ==> r == Err(fn(ReplaceChar(ver, 'x', '0')).error)
  {
    var body := ReplaceChar(ver, 'x', '0');
    var ori :- fn(body);
    Ok(Interval(original, ori, TildeMax(ori)))
  }

  /** A wildcard segment: `*` or `x`. */
  predicate IsWild(s: string) {
    s == "*" || s == "x"
  }

  /** What `parseStarConstraint` makes of the dot-separated pieces: the
      pieces to parse and which wildcard it found. */
  datatype StarPlan = StarPlan(parts: seq<string>, minorAll: bool, patchAll: bool)

  function PlanStar(vs: seq<string>): (p: StarPlan)
    requires |vs| >= 1
    ensures |p.parts| >= 1 && !(p.minorAll && p.patchAll)
  {
    if |vs| == 1 then StarPlan(vs + ["0", "0"], false, false)
    else if |vs| == 2 then
      if IsWild(vs[1]) then StarPlan(vs[1 := "0"], true, false) else StarPlan(vs, false, false)
    else if IsWild(vs[1]) then StarPlan(vs[1 := "0"], true, false)
    else if IsWild(vs[2]) then StarPlan(vs[2 := "0"], false, true)
    else StarPlan(vs, false, false)
  }

  /** `parseStarConstraint`. A wildcard minor gives the range up to the next
      major, a wildcard patch the range up to the next minor. When neither
      is found the Go code dereferences a nil upper bound and panics; here
      that outcome is the error `NoUpperBound`, reached only after the
      parse succeeded. */
  function ParseStar(original: string, ver: string, fn: Parser): (r: Result<seq<Constraint>>)
    ensures r.Ok? ==> |r.value| == 2 && r.value[0].op == GreaterEq && r.value[1].op == Less
    ensures r.Ok? ==> fn(Join(PlanStar(SplitOn(ver, ".")).parts, ".")) == Ok(r.value[0].bound)
    ensures r.Ok? ==> r.value[1].bound == IncMajor(r.value[0].bound) || r.value[1].bound == IncMinor(r.value[0].bound)
    ensures r.Err? ==> r.error == NoUpperBound || fn(Join(PlanStar(SplitOn(ver, ".")).parts, ".")).Err?
  {
    var plan := PlanStar(SplitOn(ver, "."));
    var ori :- fn(Join(plan.parts, "."));
    if plan.minorAll then Ok(Interval(original, ori, IncMajor(ori)))
    else if plan.patchAll then Ok(Interval(original, ori, IncMinor(ori)))
    else Err(NoUpperBound)
  }

  /** `parseConstraint`: recognise the token, then expand a caret, a tilde
      or a body with a wildcard character, or parse a plain comparison. The
      wildcard expansion does not look at the operator. */
  function ParseConstraint(c: string, fn: Parser): (r: Result<seq<Constraint>>)
    ensures MatchToken(c).None? ==> r == Err(InvalidConstraint)
  {
    match MatchToken(c)
    case None => Err(InvalidConstraint)
    case Some(t) =>
      var op := OpOf(t.opText);
      if op == Caret then ParseCaret(c, t.body, fn)
      else if op == Tilde then ParseTilde(c, t.body, fn)
      else if '*' in t.body || 'x' in t.body then ParseStar(c, t.body, fn)
      else
        var v :- fn(t.body);
        Ok([Constraint(c, t.body, op, v)])
  }

  // ---------------------------------------------------------------------
  // Groups and expressions.

  /** `parseConstraintGroup`: the group is trimmed first. */
  function ParseGroup(group: string, fn: Parser): (r: Result<seq<Constraint>>)
    decreases |group|, 2
  {
    var g := TrimSpace(group);
    ParseTrimmed(g, fn)
  }

  /** The trimmed group is a hyphen range when it contains " - " (more than
      one is an error), a conjunction when it contains a space, and
      otherwise one token, where any token starting with `*` stands for
      `VersionAllAlias`. */
  function ParseTrimmed(g: string, fn: Parser): (r: Result<seq<Constraint>>)
    decreases |g|, 1
  {
    if Contains(g, " - ") then
      var gs := SplitOn(g, " - ");
      if |gs| > 2 then Err(InvalidConstraint)
      else if |gs| > 1 then
        var lo :- ParseGroup(">=" + gs[0], fn);
        var hi :- ParseGroup("<=" + gs[1], fn);
        Ok(lo + hi)
      else Ok([])
    else if Contains(g, " ") then ParseTokens(SplitOn(g, " "), |g|, fn)
    else
      var token := if g == VersionAll || HasPrefix(g, VersionAll) then VersionAllAlias else g;
      ParseConstraint(token, fn)
  }

  /** The loop over the space-separated pieces of a conjunction: empty
      pieces (from repeated spaces) are skipped, the others parsed as
      groups in order, and the first failure ends the loop. `bound` is
      above the length of every piece. */
  function ParseTokens(parts: seq<string>, bound: nat, fn: Parser): (r: Result<seq<Constraint>>)
    requires forall k :: 0 <= k < |parts| ==> |parts[k]| < bound
    decreases bound, 0, |parts|
  {
    if |parts| == 0 then Ok([])
    else
      var first :- if parts[0] != "" then ParseGroup(parts[0], fn) else Ok([]);
      var rest :- ParseTokens(parts[1..], bound, fn);
      Ok(first + rest)
  }

  /** A fail-fast loop: `parse` applied to each text in order, the first
      failure deciding the error. */
  function ParseEach<T>(xs: seq<string>, parse: string -> Result<T>): (r: Result<seq<T>>)
    ensures r.Ok? <==> forall k :: 0 <= k < |xs| ==> parse(xs[k]).Ok?
    ensures r.Ok? ==> |r.value| == |xs| && forall k :: 0 <= k < |xs| ==> r.value[k] == parse(xs[k]).value
    ensures r.Err? ==> exists k :: 0 <= k < |xs| && parse(xs[k]) == Err(r.error)
                                   && forall j :: 0 <= j < k ==> parse(xs[j]).Ok?
  {
    if |xs| == 0 then Ok([])
    else
      var first :- parse(xs[0]);
      var rest :- ParseEach(xs[1..], parse);
      assert forall k :: 1 <= k < |xs| ==> xs[k] == xs[1..][k - 1];
      Ok([first] + rest)
  }

  /** The loop of `NewConstraint` over the `||`-separated groups. */
  function ParseGroups(groups: seq<string>, fn: Parser): (r: Result<seq<seq<Constraint>>>)
    ensures r.Ok? <==> forall k :: 0 <= k < |groups| ==> ParseGroup(groups[k], fn).Ok?
    ensures r.Ok? ==> |r.value| == |groups|
    ensures r.Ok? ==> forall k :: 0 <= k < |groups| ==> r.value[k] == ParseGroup(groups[k], fn).value
    ensures r.Err? ==> exists k :: 0 <= k < |groups| && ParseGroup(groups[k], fn) == Err(r.error)
                                   && forall j :: 0 <= j < k ==> ParseGroup(groups[j], fn).Ok?
  {
    ParseEach(groups, g => ParseGroup(g, fn))
  }

  /** `NewConstraint`: an empty expression is an error; otherwise the
      groups between `||` are parsed in order. */
  function NewConstraint(c: string, fn: Parser): (r: Result<Constraints>)
    ensures c == "" ==> r == Err(InvalidConstraint)
    ensures r.Ok? <==> c != "" && ParseGroups(SplitOn(c, "||"), fn).Ok?
    ensures r.Ok? ==> r.value.groups == ParseGroups(SplitOn(c, "||"), fn).value
  {
    if |c| == 0 then Err(InvalidConstraint)
    else
      var gcs :- ParseGroups(SplitOn(c, "||"), fn);
      Ok(Constraints(gcs))
  }
}
