/** Semantic versions (semver.go): the lenient recogniser `NewSemver`, the
    identifier validations, rendering, and the three increments. */
module Semver {
  import opened Errors
  import opened Decimal
  import opened Text
  import opened Versions
  import opened Precedence

  // ---------------------------------------------------------------------
  // Character classes and identifier lists.

  /** `[0-9A-Za-z-]`, the `allowedChars` of the identifier checks. */
  predicate IsIdentChar(c: char) {
    ('0' <= c <= '9') || ('a' <= c <= 'z') || ('A' <= c <= 'Z') || c == '-'
  }

  /** `strutil.ContainsOnly(s, allowedChars)`: every character is allowed,
      so the empty string passes. */
  predicate AllIdentChars(s: string) {
    forall i :: 0 <= i < |s| ==> IsIdentChar(s[i])
  }

  /** The language `[0-9A-Za-z-]+(\.[0-9A-Za-z-]+)*` of the prerelease and
      metadata groups: dot-separated, non-empty identifiers. */
  predicate IsIdentList(p: string) {
    forall i :: 0 <= i < |Identifiers(p)| ==>
      Identifiers(p)[i] != "" && AllIdentChars(Identifiers(p)[i])
  }

  /** `[0-9]+`. */
  predicate IsDigitRun(s: string) {
    |s| > 0 && AllDigits(s)
  }

  /** An identifier list is made of identifier characters and dots only. */
  lemma {:induction false} IdentListChars(p: string)
    requires IsIdentList(p)
    ensures forall i :: 0 <= i < |p| ==> IsIdentChar(p[i]) || p[i] == '.'
    decreases |p|
  {
    var c := CutAt(p, '.');
    if !c.found {
      SplitOnAbsent(p, '.');
      assert Identifiers(p)[0] == p;
    } else {
      SplitOnAfter(c.before, '.', c.after);
      assert Identifiers(p) == [c.before] + Identifiers(c.after);
      assert Identifiers(p)[0] == c.before;
      assert IsIdentList(c.after) by {
        forall i | 0 <= i < |Identifiers(c.after)|
          ensures Identifiers(c.after)[i] != "" && AllIdentChars(Identifiers(c.after)[i])
        {
          assert Identifiers(c.after)[i] == Identifiers(p)[i + 1];
        }
      }
      IdentListChars(c.after);
      forall i | 0 <= i < |p|
        ensures IsIdentChar(p[i]) || p[i] == '.'
      {
        if i > |c.before| {
          assert p[i] == c.after[i - |c.before| - 1];
        }
      }
    }
  }

  // ---------------------------------------------------------------------
  // Identifier validation.

  /** What `validatePrerelease` demands of one identifier: an all-digit one
      has no leading zero unless it is "0"; any other consists of
      `allowedChars`. */
  predicate PrereleaseIdentOk(id: string) {
    (AllDigits(id) ==> !(|id| > 1 && id[0] == '0')) && AllIdentChars(id)
  }

  /** The loop of `validatePrerelease`: the first bad identifier decides. */
  function ValidatePrereleaseIds(ids: seq<string>): (r: Outcome)
    ensures r.Pass? <==> forall i :: 0 <= i < |ids| ==> PrereleaseIdentOk(ids[i])
    ensures r.Fail? ==> r.error == SegmentStartsZero || r.error == InvalidPrerelease
    ensures r.Fail? ==>
              exists k :: FirstBadIdent(ids, k)
                          && r.error == (if AllDigits(ids[k]) then SegmentStartsZero else InvalidPrerelease)
  {
    if |ids| == 0 then Pass
    else
      var id := ids[0];
      if AllDigits(id) && |id| > 1 && id[0] == '0' then
        assert FirstBadIdent(ids, 0);
        Fail(SegmentStartsZero)
      else if !AllDigits(id) && !AllIdentChars(id) then
        assert FirstBadIdent(ids, 0);
        Fail(InvalidPrerelease)
      else
        assert PrereleaseIdentOk(id);
        var rest := ValidatePrereleaseIds(ids[1..]);
        assert forall i :: 1 <= i < |ids| ==> ids[i] == ids[1..][i - 1];
        if rest.Fail? then
          var k :| FirstBadIdent(ids[1..], k)
                   && rest.error == (if AllDigits(ids[1..][k]) then SegmentStartsZero else InvalidPrerelease);
          assert FirstBadIdent(ids, k + 1);
          rest
        else rest
  }

  /** `ids[k]` is the first identifier `validatePrerelease` rejects. */
  predicate FirstBadIdent(ids: seq<string>, k: int) {
    0 <= k < |ids| && !PrereleaseIdentOk(ids[k])
    && forall j :: 0 <= j < k ==> PrereleaseIdentOk(ids[j])
  }

  /** `validatePrerelease`. */
  function ValidatePrerelease(p: string): (r: Outcome)
    ensures r.Pass? <==> forall i :: 0 <= i < |Identifiers(p)| ==> PrereleaseIdentOk(Identifiers(p)[i])
    ensures r.Fail? ==> r.error == SegmentStartsZero || r.error == InvalidPrerelease
    ensures r.Fail? ==>
              exists k :: FirstBadIdent(Identifiers(p), k)
                          && r.error == (if AllDigits(Identifiers(p)[k]) then SegmentStartsZero else InvalidPrerelease)
  {
    ValidatePrereleaseIds(Identifiers(p))
  }

  function ValidateMetadataIds(ids: seq<string>): (r: Outcome)
    ensures r.Pass? <==> forall i :: 0 <= i < |ids| ==> AllIdentChars(ids[i])
    ensures r.Fail? ==> r.error == InvalidMetadata
  {
    if |ids| == 0 then Pass
    else if !AllIdentChars(ids[0]) then Fail(InvalidMetadata)
    else
      var rest := ValidateMetadataIds(ids[1..]);
      assert forall i :: 1 <= i < |ids| ==> ids[i] == ids[1..][i - 1];
      rest
  }

  /** `validateMetadata`: only the character set is checked. */
  function ValidateMetadata(m: string): (r: Outcome)
    ensures r.Pass? <==> forall i :: 0 <= i < |Identifiers(m)| ==> AllIdentChars(Identifiers(m)[i])
    ensures r.Fail? ==> r.error == InvalidMetadata
  {
    ValidateMetadataIds(Identifiers(m))
  }

  // ---------------------------------------------------------------------
  // The recogniser of `semverReg`.

  /** The capture groups of `semverReg` that `NewSemver` reads: the digit
      runs of major, minor and patch (minor and patch empty when absent),
      the prerelease and the metadata (empty when absent). */
  datatype Groups = Groups(major: string, minor: string, patch: string, pre: string, metadata: string)

  /** The shape the regular expression imposes on the groups. */
  predicate WellShaped(m: Groups) {
    && IsDigitRun(m.major)
    && (m.minor == "" || IsDigitRun(m.minor))
    && (m.patch == "" || IsDigitRun(m.patch))
    && (m.minor == "" ==> m.patch == "")
    && (m.pre == "" || IsIdentList(m.pre))
    && (m.metadata == "" || IsIdentList(m.metadata))
  }

  /** `M[.m[.p]]`. */
  function CoreText(m: Groups): string {
    m.major
    + (if m.minor != "" then "." + m.minor else "")
    + (if m.patch != "" then "." + m.patch else "")
  }

  /** `M[.m[.p]][-pre]`. */
  function CoreAndPre(m: Groups): string {
    CoreText(m) + (if m.pre != "" then "-" + m.pre else "")
  }

  /** The text the groups stand for, without the optional `v`. */
  function Assemble(m: Groups): string {
    CoreAndPre(m) + (if m.metadata != "" then "+" + m.metadata else "")
  }

  /** The text after the optional leading `v`. */
  function StripV(s: string): string {
    if |s| > 0 && s[0] == 'v' then s[1..] else s
  }

  /** The i-th element of a list of digit runs, or "" past its end. */
  function Nth(nums: seq<string>, i: nat): string {
    if i < |nums| then nums[i] else ""
  }

  /** `[0-9]+(\.[0-9]+)?(\.[0-9]+)?` after splitting on dots. */
  predicate CoreOk(nums: seq<string>) {
    1 <= |nums| <= 3 && forall i :: 0 <= i < |nums| ==> IsDigitRun(nums[i])
  }

  /** `versionRegex.FindStringSubmatch`. Neither digits nor dots can be
      `+` or `-`, and identifiers cannot contain `+`, so the first `+`
      starts the metadata and the first `-` before it starts the
      prerelease. */
  function MatchSemver(s: string): Option<Groups> {
    var m := CutAt(StripV(s), '+');
    var p := CutAt(m.before, '-');
    var nums := SplitOn(p.before, ".");
    if !CoreOk(nums) then None
    else if p.found && !IsIdentList(p.after) then None
    else if m.found && !IsIdentList(m.after) then None
    else Some(Groups(nums[0], Nth(nums, 1), Nth(nums, 2), p.after, m.after))
  }

  lemma IdentListNonEmpty(p: string)
    requires IsIdentList(p)
    ensures p != ""
  {
    assert Identifiers(p)[0] != "";
    if p == "" {
      SplitOnAbsent(p, '.');
    }
  }

  /** The groups read off a dotted core rebuild it. */
  lemma CoreTextOfSplit(core: string)
    requires CoreOk(SplitOn(core, "."))
    ensures var nums := SplitOn(core, ".");
      CoreText(Groups(nums[0], Nth(nums, 1), Nth(nums, 2), "", "")) == core
  {
    var nums := SplitOn(core, ".");
    JoinSplitOn(core, ".");
    if |nums| == 3 {
      assert nums[1..][1..] == [nums[2]];
    }
  }

  /** A cut with a non-empty remainder is undone by putting the separator
      back. */
  lemma CutRejoin(s: string, c: char)
    requires CutAt(s, c).found ==> CutAt(s, c).after != ""
    ensures s == CutAt(s, c).before + (if CutAt(s, c).after != "" then [c] + CutAt(s, c).after else "")
  {
  }

  lemma StripVRejoin(s: string)
    ensures s == StripV(s) || s == "v" + StripV(s)
  {
    if |s| > 0 && s[0] == 'v' {
      assert s == [s[0]] + s[1..];
    }
  }

  /** What the recogniser accepts is in the `semverReg` language, and its
      groups rebuild the input. */
  lemma MatchSemverSound(s: string)
    requires MatchSemver(s).Some?
    ensures WellShaped(MatchSemver(s).value)
    ensures s == Assemble(MatchSemver(s).value) || s == "v" + Assemble(MatchSemver(s).value)
  {
    var body := StripV(s);
    var m := CutAt(body, '+');
    var p := CutAt(m.before, '-');
    var nums := SplitOn(p.before, ".");
    var t := MatchSemver(s).value;
    assert t == Groups(nums[0], Nth(nums, 1), Nth(nums, 2), p.after, m.after);
    CoreTextOfSplit(p.before);
    assert CoreText(t) == p.before;
    if p.found {
      IdentListNonEmpty(p.after);
    }
    CutRejoin(m.before, '-');
    assert CoreAndPre(t) == m.before;
    if m.found {
      IdentListNonEmpty(m.after);
    }
    CutRejoin(body, '+');
    assert Assemble(t) == body;
    StripVRejoin(s);
  }

  lemma DigitRunHasNo(s: string, c: char)
    requires AllDigits(s) && !IsDigit(c)
    ensures c !in s
  {
  }

  /** The dotted core `M[.m[.p]]` splits back into its digit runs. */
  lemma SplitCore(m: Groups)
    requires WellShaped(m)
    ensures SplitOn(CoreText(m), ".")
            == [m.major] + (if m.minor != "" then [m.minor] else []) + (if m.patch != "" then [m.patch] else [])
  {
    DigitRunHasNo(m.major, '.');
    if m.minor == "" {
      assert CoreText(m) == m.major;
      SplitOnAbsent(m.major, '.');
    } else {
      DigitRunHasNo(m.minor, '.');
      if m.patch == "" {
        assert CoreText(m) == m.major + ['.'] + m.minor;
        SplitOnAfter(m.major, '.', m.minor);
        SplitOnAbsent(m.minor, '.');
      } else {
        DigitRunHasNo(m.patch, '.');
        assert CoreText(m) == m.major + ['.'] + (m.minor + ['.'] + m.patch);
        SplitOnAfter(m.major, '.', m.minor + ['.'] + m.patch);
        SplitOnAfter(m.minor, '.', m.patch);
        SplitOnAbsent(m.patch, '.');
      }
    }
  }

  /** The same in the terms the recogniser reads the pieces in. */
  lemma SplitCoreGroups(m: Groups)
    requires WellShaped(m)
    ensures var nums := SplitOn(CoreText(m), ".");
      CoreOk(nums) && nums[0] == m.major && Nth(nums, 1) == m.minor && Nth(nums, 2) == m.patch
  {
    SplitCore(m);
  }

  lemma CoreHasNo(m: Groups, c: char)
    requires WellShaped(m) && !IsDigit(c) && c != '.'
    ensures c !in CoreText(m)
  {
    DigitRunHasNo(m.major, c);
    if m.minor != "" {
      DigitRunHasNo(m.minor, c);
    }
    if m.patch != "" {
      DigitRunHasNo(m.patch, c);
    }
  }

  /** Cutting `M[.m[.p]][-pre]` at its first `-` gives back the core and
      the prerelease. */
  lemma CutPre(m: Groups)
    requires WellShaped(m)
    ensures CutAt(CoreAndPre(m), '-') == Cut(CoreText(m), m.pre, m.pre != "")
  {
    var core := CoreText(m);
    CoreHasNo(m, '-');
    if m.pre != "" {
      assert CoreAndPre(m) == core + ['-'] + m.pre;
      CutAtAfter(core, '-', m.pre);
    } else {
      assert CoreAndPre(m) == core;
    }
  }

  lemma PreHasNoPlus(m: Groups)
    requires WellShaped(m)
    ensures '+' !in CoreAndPre(m)
  {
    CoreHasNo(m, '+');
    if m.pre != "" {
      IdentListChars(m.pre);
      assert forall i :: 0 <= i < |m.pre| ==> m.pre[i] != '+';
    }
  }

  /** Cutting the assembled text at its first `+` gives back the core with
      its prerelease, and the metadata. */
  lemma CutMeta(m: Groups)
    requires WellShaped(m)
    ensures CutAt(Assemble(m), '+') == Cut(CoreAndPre(m), m.metadata, m.metadata != "")
  {
    var body := CoreAndPre(m);
    PreHasNoPlus(m);
    if m.metadata != "" {
      assert Assemble(m) == body + ['+'] + m.metadata;
      CutAtAfter(body, '+', m.metadata);
    } else {
      assert Assemble(m) == body;
    }
  }

  /** Every text of the `semverReg` language is recognised, with the groups
      it was built from: together with `MatchSemverSound`, the recogniser
      accepts exactly that language. */
  lemma MatchAssembled(m: Groups, v: bool)
    requires WellShaped(m)
    ensures MatchSemver((if v then "v" else "") + Assemble(m)) == Some(m)
  {
    var s := (if v then "v" else "") + Assemble(m);
    assert StripV(s) == Assemble(m) by {
      assert Assemble(m)[0] == m.major[0];
      if v {
        assert s[1..] == Assemble(m);
      }
    }
    CutMeta(m);
    CutPre(m);
    SplitCoreGroups(m);
  }

  // ---------------------------------------------------------------------
  // NewSemver.

  /** `strconv.ParseUint` of one captured digit run, with its error wrapped
      as "parsing version segment". */
  function ParseDigits(d: string): (r: Result<u64>)
    ensures r.Ok? <==> ParseUint(d).Some?
    ensures r.Ok? ==> r.value == ParseUint(d).value
    ensures r.Err? ==> r.error == ParseSegment
  {
    match ParseUint(d)
    case None => Err(ParseSegment)
    case Some(n) => Ok(n)
  }

  /** What `NewSemver` guarantees of the values it returns. */
  predicate WellFormedSemver(v: Version) {
    && v.scheme == Semver
    && (v.pre == "" || (IsIdentList(v.pre) && ValidatePrerelease(v.pre).Pass?))
    && (v.metadata == "" || IsIdentList(v.metadata))
  }

  /** `NewSemver`: recognise, convert the digit runs, then validate the
      prerelease and the metadata, failing on the first problem. */
  function NewSemver(s: string): (r: Result<Version>)
    ensures MatchSemver(s).None? ==> r == Err(InvalidSemVer)
    ensures r.Ok? ==> WellFormedSemver(r.value) && r.value.original == s
    ensures r.Ok? ==> var m := MatchSemver(s).value;
              && r.value.major == Value(m.major)
              && r.value.minor == (if m.minor == "" then 0 else Value(m.minor))
              && r.value.patch == (if m.patch == "" then 0 else Value(m.patch))
              && r.value.pre == m.pre && r.value.metadata == m.metadata
    ensures r.Err? ==> r.error in {InvalidSemVer, ParseSegment, SegmentStartsZero, InvalidPrerelease, InvalidMetadata}
  {
    match MatchSemver(s)
    case None => Err(InvalidSemVer)
    case Some(m) => FromGroups(m, s)
  }

  /** The steps of `NewSemver` after recognition: the digit runs in order,
      then the prerelease, then the metadata. */
  function FromGroups(m: Groups, s: string): (r: Result<Version>)
    requires WellShaped(m)
    ensures r.Ok? ==> WellFormedSemver(r.value) && r.value.original == s
    ensures r.Ok? ==> && r.value.major == Value(m.major)
                      && r.value.minor == (if m.minor == "" then 0 else Value(m.minor))
                      && r.value.patch == (if m.patch == "" then 0 else Value(m.patch))
                      && r.value.pre == m.pre && r.value.metadata == m.metadata
    ensures r.Err? ==> r.error in {ParseSegment, SegmentStartsZero, InvalidPrerelease, InvalidMetadata}
  {
    var major :- ParseDigits(m.major);
    var minor :- if m.minor != "" then ParseDigits(m.minor) else Ok(0);
    var patch :- if m.patch != "" then ParseDigits(m.patch) else Ok(0);
    if m.pre != "" && ValidatePrerelease(m.pre).Fail? then Err(ValidatePrerelease(m.pre).error)
    else if m.metadata != "" && ValidateMetadata(m.metadata).Fail? then Err(ValidateMetadata(m.metadata).error)
    else Ok(Version(Semver, major, minor, patch, m.pre, m.metadata, s))
  }

  // ---------------------------------------------------------------------
  // Rendering.

  /** `Version()`: `M.m.p`. */
  function VersionString(v: Version): string {
    Dec(v.major) + "." + Dec(v.minor) + "." + Dec(v.patch)
  }

  /** `String()`: `M.m.p`, then `-pre` and `+metadata` when present; never
      the `v` prefix. */
  function ToString(v: Version): string {
    VersionString(v)
    + (if v.pre != "" then "-" + v.pre else "")
    + (if v.metadata != "" then "+" + v.metadata else "")
  }

  /** `%d` renders a number that `strconv.ParseUint` reads back. */
  lemma ParseDigitsDec(n: u64)
    ensures ParseDigits(Dec(n)) == Ok(n)
  {
  }

  /** When every step of `NewSemver` succeeds on the groups, the value it
      returns is made of them; an absent minor or patch reads as 0. */
  lemma NewSemverOk(s: string, m: Groups, major: u64, minor: u64, patch: u64)
    requires MatchSemver(s) == Some(m)
    requires ParseDigits(m.major) == Ok(major)
    requires if m.minor != "" then ParseDigits(m.minor) == Ok(minor) else minor == 0
    requires if m.patch != "" then ParseDigits(m.patch) == Ok(patch) else patch == 0
    requires m.pre != "" ==> ValidatePrerelease(m.pre).Pass?
    requires m.metadata != "" ==> ValidateMetadata(m.metadata).Pass?
    ensures NewSemver(s) == Ok(Version(Semver, major, minor, patch, m.pre, m.metadata, s))
  {
  }

  /** The groups a well-formed value renders to. */
  function RenderGroups(v: Version): Groups {
    Groups(Dec(v.major), Dec(v.minor), Dec(v.patch), v.pre, v.metadata)
  }

  /** The rendering of a well-formed value is recognised with the groups
      it was rendered from. */
  lemma MatchRendered(v: Version, withV: bool)
    requires WellFormedSemver(v)
    ensures MatchSemver((if withV then "v" else "") + ToString(v)) == Some(RenderGroups(v))
  {
    RenderShaped(v);
    MatchAssembled(RenderGroups(v), withV);
  }

  /** The rendered groups have the `semverReg` shape and assemble to the
      rendering. */
  lemma RenderShaped(v: Version)
    requires WellFormedSemver(v)
    ensures WellShaped(RenderGroups(v)) && ToString(v) == Assemble(RenderGroups(v))
  {
    var m := RenderGroups(v);
    assert VersionString(v) == CoreText(m);
  }

  /** Parsing the rendering of a well-formed value gives the value back,
      with or without a leading `v`; only `original` changes. */
  lemma RoundTrip(v: Version, withV: bool)
    requires WellFormedSemver(v)
    ensures var text := (if withV then "v" else "") + ToString(v);
            NewSemver(text) == Ok(v.(original := text))
  {
    var m := RenderGroups(v);
    var text := (if withV then "v" else "") + ToString(v);
    MatchRendered(v, withV);
    ParseDigitsDec(v.major);
    ParseDigitsDec(v.minor);
    ParseDigitsDec(v.patch);
    if v.metadata != "" {
      assert ValidateMetadata(v.metadata).Pass? by {
        forall i | 0 <= i < |Identifiers(v.metadata)|
          ensures AllIdentChars(Identifiers(v.metadata)[i])
        {
        }
      }
    }
    NewSemverOk(text, m, v.major, v.minor, v.patch);
  }

  /** Every value `NewSemver` returns renders to a text it parses back to
      the same fields. */
  lemma ParseRenderParse(s: string)
    requires NewSemver(s).Ok?
    ensures var v := NewSemver(s).value;
            NewSemver(ToString(v)) == Ok(v.(original := ToString(v)))
  {
    var v := NewSemver(s).value;
    assert WellFormedSemver(v);
    RoundTrip(v, false);
    assert (if false then "v" else "") + ToString(v) == ToString(v);
  }

  /** Values from `NewSemver` meet the preconditions of the ordering laws. */
  lemma WellFormedIsCanonical(v: Version)
    requires WellFormedSemver(v)
    ensures CanonicalVersion(v) && NoEmptyIdentifier(v.pre)
  {
    var ids := Identifiers(v.pre);
    if v.pre != "" {
      forall i | 0 <= i < |ids|
        ensures Canonical(ids[i])
      {
        assert PrereleaseIdentOk(ids[i]);
      }
    } else {
      assert ids == [""] by {
        SplitOnAbsent("", '.');
      }
    }
  }

  // ---------------------------------------------------------------------
  // Increments.

  /** `originalVPrefix`: "v" when the original text starts with a lower-case
      `v`. */
  function OriginalVPrefix(v: Version): (r: string)
    ensures r == "v" <==> |v.original| > 0 && v.original[0] == 'v'
    ensures r == "" || r == "v"
  {
    if v.original != "" && v.original[..1] == "v" then "v" else ""
  }

  /** A fresh value whose `original` is its rendering, behind the prefix
      of the value it was derived from. */
  function Derived(v: Version, major: u64, minor: u64, patch: u64): (r: Version)
    ensures r.scheme == Semver && r.pre == "" && r.metadata == ""
    ensures r.major == major && r.minor == minor && r.patch == patch
    ensures r.original == OriginalVPrefix(v) + ToString(r)
  {
    var next := Version(Semver, major, minor, patch, "", "", "");
    next.(original := OriginalVPrefix(v) + ToString(next))
  }

  /** `IncMajor`: (major+1).0.0, prerelease and metadata cleared. */
  function IncMajor(v: Version): (r: Version)
    ensures r.scheme == Semver && r.pre == "" && r.metadata == ""
    ensures r.major == Inc64(v.major) && r.minor == 0 && r.patch == 0
    ensures r.original == OriginalVPrefix(v) + ToString(r)
  {
    Derived(v, Inc64(v.major), 0, 0)
  }

  /** `IncMinor`: major.(minor+1).0, prerelease and metadata cleared. */
  function IncMinor(v: Version): (r: Version)
    ensures r.scheme == Semver && r.pre == "" && r.metadata == ""
    ensures r.major == v.major && r.minor == Inc64(v.minor) && r.patch == 0
    ensures r.original == OriginalVPrefix(v) + ToString(r)
  {
    Derived(v, v.major, Inc64(v.minor), 0)
  }

  /** `IncPatch`. Without a prerelease: major.minor.(patch+1). With one,
      the code never assigns the patch of the new value, so it keeps Go's
      zero value: major.minor.0. */
  function IncPatch(v: Version): (r: Version)
    ensures r.scheme == Semver && r.pre == "" && r.metadata == ""
    ensures r.major == v.major && r.minor == v.minor
    ensures v.pre == "" ==> r.patch == Inc64(v.patch)
    ensures v.pre != "" ==> r.patch == 0
    ensures r.original == OriginalVPrefix(v) + ToString(r)
  {
    if v.pre != "" then Derived(v, v.major, v.minor, 0)
    else Derived(v, v.major, v.minor, Inc64(v.patch))
  }

  /** The text every increment records as its original parses back to the
      increment itself. */
  lemma IncrementsReparse(v: Version)
    ensures NewSemver(IncMajor(v).original) == Ok(IncMajor(v))
    ensures NewSemver(IncMinor(v).original) == Ok(IncMinor(v))
    ensures NewSemver(IncPatch(v).original) == Ok(IncPatch(v))
  {
    RoundTrip(IncMajor(v), OriginalVPrefix(v) == "v");
    RoundTrip(IncMinor(v), OriginalVPrefix(v) == "v");
    RoundTrip(IncPatch(v), OriginalVPrefix(v) == "v");
  }
}
