/** Calendar versions (calver.go): the recogniser `NewCalVerStr`, the
    constructor `NewCalVer`, the `%d.%02d.%02d` rendering and the three
    increments. A CalVer has no build metadata and no `v` prefix. */
module Calver {
  import opened Errors
  import opened Decimal
  import opened Text
  import opened Versions
  import opened Semver

  // ---------------------------------------------------------------------
  // The recogniser of `calVerReg`.

  /** `[0-9]{4}|[0-9]{2}`: the year is exactly two or four digits, since
      what follows it must be a dot, a dash or the end. */
  predicate IsYear(s: string) {
    IsDigitRun(s) && (|s| == 2 || |s| == 4)
  }

  /** `[0-9]{1,2}`. */
  predicate IsShort(s: string) {
    IsDigitRun(s) && |s| <= 2
  }

  /** `([0-9]{4}|[0-9]{2})(\.[0-9]{1,2})?(\.[0-9]{1,2})?` after splitting
      on dots. */
  predicate CalCoreOk(nums: seq<string>) {
    1 <= |nums| <= 3 && IsYear(nums[0]) && forall i :: 1 <= i < |nums| ==> IsShort(nums[i])
  }

  /** The shape `calVerReg` imposes on its groups. */
  predicate CalShaped(m: Groups) {
    && IsYear(m.major)
    && (m.minor == "" || IsShort(m.minor))
    && (m.patch == "" || IsShort(m.patch))
    && (m.minor == "" ==> m.patch == "")
    && (m.pre == "" || IsIdentList(m.pre))
    && m.metadata == ""
  }

  /** `calVersionRegex.FindStringSubmatch`: the first `-` starts the
      prerelease (the core holds only digits and dots), and the core splits
      on dots into a year and up to two short numbers. */
  function MatchCalVer(s: string): Option<Groups> {
    var p := CutAt(s, '-');
    var nums := SplitOn(p.before, ".");
    if !CalCoreOk(nums) then None
    else if p.found && !IsIdentList(p.after) then None
    else Some(Groups(nums[0], Nth(nums, 1), Nth(nums, 2), p.after, ""))
  }

  /** What the recogniser accepts is in the `calVerReg` language, and its
      groups rebuild the input. */
  lemma MatchCalVerSound(s: string)
    requires MatchCalVer(s).Some?
    ensures CalShaped(MatchCalVer(s).value)
    ensures s == CoreAndPre(MatchCalVer(s).value)
  {
    var p := CutAt(s, '-');
    var nums := SplitOn(p.before, ".");
    var t := MatchCalVer(s).value;
    assert t == Groups(nums[0], Nth(nums, 1), Nth(nums, 2), p.after, "");
    assert CoreOk(nums);
    CoreTextOfSplit(p.before);
    assert CoreText(t) == p.before;
    if p.found {
      IdentListNonEmpty(p.after);
    }
    CutRejoin(s, '-');
  }

  lemma CalShapedIsWellShaped(m: Groups)
    requires CalShaped(m)
    ensures WellShaped(m)
  {
  }

  /** Every text of the `calVerReg` language is recognised, with the groups
      it was built from. */
  lemma MatchCalVerComplete(m: Groups)
    requires CalShaped(m)
    ensures MatchCalVer(CoreAndPre(m)) == Some(m)
  {
    CalShapedIsWellShaped(m);
    CutPre(m);
    CalSplit(m);
  }

  /** The core of calendar-shaped groups splits back into them. */
  lemma CalSplit(m: Groups)
    requires CalShaped(m)
    ensures var nums := SplitOn(CoreText(m), ".");
      CalCoreOk(nums) && nums[0] == m.major && Nth(nums, 1) == m.minor && Nth(nums, 2) == m.patch
  {
    CalShapedIsWellShaped(m);
    SplitCoreGroups(m);
    var nums := SplitOn(CoreText(m), ".");
    if |nums| >= 2 {
      assert nums[1] == Nth(nums, 1);
    }
    if |nums| == 3 {
      assert nums[2] == Nth(nums, 2);
    }
  }

  // ---------------------------------------------------------------------
  // NewCalVerStr and NewCalVer.

  /** What `NewCalVerStr` and `NewCalVer` guarantee of the values they make. */
  predicate WellFormedCalVer(v: Version) {
    && v.scheme == CalVer
    && v.metadata == ""
    && (v.pre == "" || (IsIdentList(v.pre) && ValidatePrerelease(v.pre).Pass?))
  }

  /** `NewCalVerStr`: recognise, convert the digit runs, then validate the
      prerelease. */
  function NewCalVerStr(s: string): (r: Result<Version>)
    ensures MatchCalVer(s).None? ==> r == Err(InvalidCalVer)
    ensures r.Ok? ==> WellFormedCalVer(r.value) && r.value.original == s
    ensures r.Ok? ==> var m := MatchCalVer(s).value;
              && r.value.major == Value(m.major)
              && r.value.minor == (if m.minor == "" then 0 else Value(m.minor))
              && r.value.patch == (if m.patch == "" then 0 else Value(m.patch))
              && r.value.pre == m.pre
    ensures r.Err? ==> r.error in {InvalidCalVer, ParseSegment, SegmentStartsZero, InvalidPrerelease}
  {
    match MatchCalVer(s)
    case None => Err(InvalidCalVer)
    case Some(m) =>
      MatchCalVerSound(s);
      FromCalGroups(m, s)
  }

  /** The steps of `NewCalVerStr` after recognition: the digit runs in
      order, then the prerelease. */
  function FromCalGroups(m: Groups, s: string): (r: Result<Version>)
    requires CalShaped(m)
    ensures r.Ok? ==> WellFormedCalVer(r.value) && r.value.original == s
    ensures r.Ok? ==> && r.value.major == Value(m.major)
                      && r.value.minor == (if m.minor == "" then 0 else Value(m.minor))
                      && r.value.patch == (if m.patch == "" then 0 else Value(m.patch))
                      && r.value.pre == m.pre
    ensures r.Err? ==> r.error in {ParseSegment, SegmentStartsZero, InvalidPrerelease}
  {
    var major :- ParseDigits(m.major);
    var minor :- if m.minor != "" then ParseDigits(m.minor) else Ok(0);
    var patch :- if m.patch != "" then ParseDigits(m.patch) else Ok(0);
    if m.pre != "" && ValidatePrerelease(m.pre).Fail? then Err(ValidatePrerelease(m.pre).error)
    else Ok(Version(CalVer, major, minor, patch, m.pre, "", s))
  }

  /** A year of at most four digits and two short numbers always fit in
      64 bits, so `NewCalVerStr` never reports a segment parse error. */
  lemma NoSegmentError(s: string)
    ensures NewCalVerStr(s) != Err(ParseSegment)
  {
    if MatchCalVer(s).Some? {
      var m := MatchCalVer(s).value;
      MatchCalVerSound(s);
      ShortRunParses(m.major);
      var minor := if m.minor != "" then Value(m.minor) else 0;
      var patch := if m.patch != "" then Value(m.patch) else 0;
      if m.minor != "" {
        ShortRunParses(m.minor);
      }
      if m.patch != "" {
        ShortRunParses(m.patch);
      }
      NewCalVerStrSteps(s, m, Value(m.major), minor, patch);
    }
  }

  /** `Version()`: `%d.%02d.%02d`. */
  function VersionString(v: Version): string {
    Dec(v.major) + "." + Pad2(v.minor) + "." + Pad2(v.patch)
  }

  /** `String()`: the version string, then `-pre` when present. */
  function ToString(v: Version): string {
    VersionString(v) + (if v.pre != "" then "-" + v.pre else "")
  }

  /** `NewCalVer`: a value from its parts, remembering its rendering as the
      original text. */
  function NewCalVer(major: u64, minor: u64, patch: u64, pre: string): (r: Version)
    ensures r.scheme == CalVer && r.metadata == ""
    ensures r.major == major && r.minor == minor && r.patch == patch && r.pre == pre
    ensures r.original == ToString(r)
  {
    var v := Version(CalVer, major, minor, patch, pre, "", "");
    v.(original := ToString(v))
  }

  /** The values whose rendering `calVerReg` accepts: a two- or four-digit
      year and a month and day below 100. */
  predicate Renderable(v: Version) {
    WellFormedCalVer(v) && |Dec(v.major)| in {2, 4} && v.minor < 100 && v.patch < 100
  }

  lemma ParseDigitsPad2(n: u64)
    ensures ParseDigits(Pad2(n)) == Ok(n)
  {
  }

  /** Once the groups are recognised and their digit runs convert, only
      the prerelease check is left to decide. */
  lemma NewCalVerStrSteps(s: string, m: Groups, major: u64, minor: u64, patch: u64)
    requires MatchCalVer(s) == Some(m)
    requires ParseDigits(m.major) == Ok(major)
    requires if m.minor != "" then ParseDigits(m.minor) == Ok(minor) else minor == 0
    requires if m.patch != "" then ParseDigits(m.patch) == Ok(patch) else patch == 0
    ensures NewCalVerStr(s)
            == if m.pre != "" && ValidatePrerelease(m.pre).Fail? then Err(ValidatePrerelease(m.pre).error)
               else Ok(Version(CalVer, major, minor, patch, m.pre, "", s))
  {
  }

  /** Digit runs of at most four digits always convert. */
  lemma ShortRunParses(d: string)
    requires IsDigitRun(d) && |d| <= 4
    ensures ParseDigits(d) == Ok(Value(d))
  {
    ValueBelowPow10(d);
    assert Pow10(1) == 10 && Pow10(2) == 100 && Pow10(3) == 1000 && Pow10(4) == 10000;
  }

  /** The rendering of a renderable value is recognised with its own
      digit runs and prerelease as groups. */
  lemma RenderedGroups(v: Version)
    requires Renderable(v)
    ensures MatchCalVer(ToString(v)) == Some(Groups(Dec(v.major), Pad2(v.minor), Pad2(v.patch), v.pre, ""))
  {
    var m := Groups(Dec(v.major), Pad2(v.minor), Pad2(v.patch), v.pre, "");
    assert CalShaped(m);
    assert ToString(v) == CoreAndPre(m) by {
      assert VersionString(v) == CoreText(m);
    }
    MatchCalVerComplete(m);
  }

  /** Parsing the rendering of a renderable value gives the value back;
      only `original` changes. */
  lemma RoundTrip(v: Version)
    requires Renderable(v)
    ensures NewCalVerStr(ToString(v)) == Ok(v.(original := ToString(v)))
  {
    var m := Groups(Dec(v.major), Pad2(v.minor), Pad2(v.patch), v.pre, "");
    RenderedGroups(v);
    ParseDigitsDec(v.major);
    ParseDigitsPad2(v.minor);
    ParseDigitsPad2(v.patch);
    NewCalVerStrSteps(ToString(v), m, v.major, v.minor, v.patch);
    assert m.pre == "" || ValidatePrerelease(m.pre).Pass?;
    assert Version(CalVer, v.major, v.minor, v.patch, m.pre, "", ToString(v)) == v.(original := ToString(v));
  }

  /** The original text `NewCalVer` records parses back to the same value. */
  lemma NewCalVerReparses(major: u64, minor: u64, patch: u64, pre: string)
    requires Renderable(Version(CalVer, major, minor, patch, pre, "", ""))
    ensures NewCalVerStr(NewCalVer(major, minor, patch, pre).original) == Ok(NewCalVer(major, minor, patch, pre))
  {
    RoundTrip(NewCalVer(major, minor, patch, pre));
  }

  lemma Value0100()
    ensures Value("0100") == 100
  {
    assert "01"[..1] == "0";
    assert Value("01") == 1;
    assert "010"[..2] == "01";
    assert Value("010") == 10;
    assert "0100"[..3] == "010";
  }

  lemma Parse0100()
    ensures NewCalVerStr("0100") == Ok(Version(CalVer, 100, 0, 0, "", "", "0100"))
  {
    var m := Groups("0100", "", "", "", "");
    assert CoreAndPre(m) == "0100";
    MatchCalVerComplete(m);
    Value0100();
    ShortRunParses("0100");
    NewCalVerStrSteps("0100", m, 100, 0, 0);
  }

  lemma Render100()
    ensures ToString(Version(CalVer, 100, 0, 0, "", "", "0100")) == "100.00.00"
  {
    assert Dec(10) == Dec(1) + ['0'];
    assert Dec(100) == Dec(10) + ['0'];
    assert Pad2(0) == ['0'] + Dec(0);
  }

  /** A first dot-separated piece of three characters is not a year, so
      the text is not a calendar version. */
  lemma ThreeCharYear(y: string, rest: string)
    requires |y| == 3 && '.' !in y && '-' !in y && '-' !in rest
    ensures MatchCalVer(y + "." + rest) == None
  {
    var s := y + "." + rest;
    assert '-' !in s by {
      assert forall i :: 0 <= i < |s| ==> s[i] == if i < |y| then y[i] else if i == |y| then '.' else rest[i - |y| - 1];
    }
    assert CutAt(s, '-').before == s;
    SplitOnAfter(y, '.', rest);
  }

  /** A three-digit year is not a calendar version. */
  lemma Reject100(s: string)
    requires s == "100.00.00"
    ensures MatchCalVer(s) == None
  {
    var y, rest := "100", "00.00";
    assert s == y + "." + rest;
    ThreeCharYear(y, rest);
  }

  /** A four-digit year with leading zeros parses, but its rendering drops
      them and is no longer a calendar version: "0100" reads as year 100,
      which renders as "100.00.00". */
  lemma LeadingZeroYearDoesNotReparse()
    ensures NewCalVerStr("0100").Ok?
    ensures NewCalVerStr(ToString(NewCalVerStr("0100").value)).Err?
  {
    Parse0100();
    Render100();
    Reject100(ToString(NewCalVerStr("0100").value));
  }

  // ---------------------------------------------------------------------
  // Increments.

  /** `IncMajor`: (major+1).00.00, prerelease cleared. */
  function IncMajor(v: Version): (r: Version)
    ensures r.scheme == CalVer && r.pre == "" && r.metadata == ""
    ensures r.major == Inc64(v.major) && r.minor == 0 && r.patch == 0
    ensures r.original == ToString(r)
  {
    NewCalVer(Inc64(v.major), 0, 0, "")
  }

  /** `IncMinor`: major.(minor+1).00, prerelease cleared. */
  function IncMinor(v: Version): (r: Version)
    ensures r.scheme == CalVer && r.pre == "" && r.metadata == ""
    ensures r.major == v.major && r.minor == Inc64(v.minor) && r.patch == 0
    ensures r.original == ToString(r)
  {
    NewCalVer(v.major, Inc64(v.minor), 0, "")
  }

  /** `IncPatch`: without a prerelease, major.minor.(patch+1); with one,
      the prerelease is dropped and the patch kept, which is the release
      the prerelease led up to. */
  function IncPatch(v: Version): (r: Version)
    ensures r.scheme == CalVer && r.pre == "" && r.metadata == ""
    ensures r.major == v.major && r.minor == v.minor
    ensures v.pre == "" ==> r.patch == Inc64(v.patch)
    ensures v.pre != "" ==> r.patch == v.patch
    ensures r.original == ToString(r)
  {
    if v.pre != "" then NewCalVer(v.major, v.minor, v.patch, "")
    else NewCalVer(v.major, v.minor, Inc64(v.patch), "")
  }
}
