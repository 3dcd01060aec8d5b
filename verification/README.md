# vc — version comparison and range constraints, modelled in Dafny

The Go library `vc` parses two kinds of version text: semantic versions
(`v1.2.3-beta.1+build`) and calendar versions (`2024.01.05-rc1`). It
orders them with one comparison shared through the `Comparable` interface.
It also parses range expressions such as `>=1.1 <2 || ^3.4`: OR-groups
of AND-ed comparisons, with caret, tilde, wildcard and hyphen shorthands.
A version is then checked against such an expression.

This project models that core as pure Dafny functions over one
`Version` datatype, and proves what the code promises.

**Order.** `Compare` is reflexive. It is antisymmetric and transitive
on values whose numeric prerelease identifiers are canonical, which both
parsers guarantee. When neither prerelease has an empty identifier, it
ties exactly when major, minor, patch and prerelease agree. `NewCalVer`
does not validate its prerelease, so `rc.` and `rc` can both occur, and
they tie, because a missing identifier is read as `""`. It never looks at
metadata. Two prereleases of the same release are ordered by their first
differing identifier, and a proper prefix is lower (`alpha` below
`alpha.1`).

**Parsers.** The recognisers stand in for the regular expressions and
are proved to accept their language. Parsing a rendering gives the value
back, and the text an increment records as its `original` reparses to
the increment.

**Constraints.**
- `Check` is the OR of the groups' ANDs.
- A token is recognised exactly by the grammar of `findConstraintRegex`.
- Each shorthand denotes a proved interval, which agrees with its comment
  in the source except for `^0.x` (see below):
  - `^`: `CaretMajor`, `CaretMinor`, `CaretPatch`, `CaretZero`,
    `CaretPatchCalVerPrerelease`;
  - `~`: `TildeMajor`, `TildeMinor`;
  - wildcards: `StarMinor`, `StarPatch`;
  - `A - B`: `HyphenRangeHolds`.
- `>` and `>=` bounds are closed upwards, `<` and `<=` bounds downwards,
  and `=` admits exactly the versions with the bound's numbers and
  prerelease.
- Conjunctions and disjunctions put their pieces together in order, and
  the first failing piece decides the error.

The modules follow the Go files:

| module | file | contents |
|---|---|---|
| `Errors` | errors.go | sentinel errors, `Result`, `Option` |
| `Decimal`, `Text` | (standard library) | `strconv.ParseUint`, `%d` and `%02d`, `strings.Split`, `Join`, `TrimSpace` |
| `Versions` | compare.go | the `Version` value |
| `Precedence` | compare.go | `Compare` and its order laws |
| `Semver` | semver.go | the `semverReg` recogniser, `NewSemver`, rendering, increments |
| `Calver` | calver.go | the `calVerReg` recogniser, `NewCalVerStr`, `NewCalVer`, rendering, increments |
| `Comparable` | compare.go | dispatch of the interface methods on the scheme |
| `Constraints` | constraints.go | the token grammar, the expansions, group and expression parsing, `Check` |
| `ConstraintLaws` | constraints.go | what each kind of group means |
| `Examples` | constraints.go | the documented expansions with `NewSemver` plugged in |

Integer fields are `uint64` in Go. Here they are a `u64` subtype, and
`+ 1` in an increment wraps modulo 2^64, as Go's unsigned arithmetic does.
The constraint engine takes the version parser as a parameter
(`Parser = string -> Result<Version>`), as the Go `New` argument does.

### Behaviour of the code worth knowing

These are consequences of the code as written, each proved:
- **Semantic `IncPatch` on a prerelease.** The new value's patch is never
  assigned, so it stays 0: `1.2.3-beta` becomes `1.2.0`, which is lower
  (`Semver.IncPatch`, `Comparable.IncPatchOrder`). The calendar
  `IncPatch` keeps the patch, as its comment says.
- **Carets over `0.0.p-pre`.** `^0.0.1-alpha` admits no version at all:
  its upper end is that `IncPatch`, 0.0.0
  (`ConstraintLaws.CaretPatchPrereleaseEmpty`,
  `Examples.EmptyCaretExample`). For a calendar version the upper end is
  the release 0.0.p, so only prereleases of 0.0.p qualify
  (`ConstraintLaws.CaretPatchCalVerPrerelease`).
- **`^0.x` is narrower than its comment.** The comment above
  `parseCaretConstraint` (constraints.go:253) gives `^0.x` as
  `>=0.0.0 <1.0.0`. The code first turns `0.x` into `0.0`, which has two
  pieces, so the upper end is `IncMinor`, 0.1.0. The range admits 0.0.5
  but not 0.5.0 (`ConstraintLaws.CaretZero`,
  `Examples.CaretZeroXExample`, `Examples.CaretZeroXCases`).
- **The `x` of a prerelease.** A body containing `x` anywhere goes down
  the wildcard path. For `1.0.0-x` no wildcard piece is found and the
  upper bound stays nil, which panics in Go. Here that outcome is the
  error `NoUpperBound` (`Examples.NoUpperBoundExample`).
- **The wildcard path ignores the operator.** `<1.2.x` and `>=1.2.x`
  both become `>=1.2.0 <1.3.0` (`ConstraintLaws.StarIgnoresOperator`).
- **Numeric prerelease identifiers.** Two identifiers with equal values
  but different spellings (`1` and `01`) compare as -1 both ways
  (`Precedence.ComparePrePart`). `NewSemver` rejects the leading zero,
  so the order laws carry a canonical-identifier precondition.
- **CalVer years with leading zeros.** `NewCalVerStr("0100")` gives year
  100. That renders as `100.00.00`, which is not a calendar version
  (`Calver.LeadingZeroYearDoesNotReparse`).

## Model

| member | source | states |
|---|---|---|
| Precedence.CompareSegment | compare.go:82-90 | -1, 0, 1 exactly when the first number is below, equal to, above the second |
| Precedence.ComparePrePart | compare.go:134-184 | 0 iff equal; a missing identifier is lowest; numeric below alphanumeric; alphanumerics by byte order, numerics by value, ties of different spelling -1 |
| Precedence.PrePartBelow | compare.go:134-184 | on canonical identifiers, -1 exactly when the independent precedence rule (missing < numeric by value < alphanumeric by bytes) puts the first below |
| Precedence.PrePartAntisymmetric | compare.go:134-184 | on canonical identifiers, swapping the arguments negates the result |
| Precedence.PrePartTransitive | compare.go:134-184 | on canonical identifiers, below-below gives below |
| Precedence.PartsAntisymmetric | compare.go:92-132 | the padded identifier-list loop is antisymmetric on canonical lists |
| Precedence.PartsTransitive | compare.go:92-132 | the list loop is transitive, strictly so when either step is strict |
| Precedence.PartsZeroIffEqual | compare.go:92-132 | without empty identifiers the loop ties exactly on equal lists |
| Precedence.Compare | compare.go:52-80 | the first differing of major, minor, patch decides by magnitude; with equal numbers a release is above a prerelease, two releases tie, and two prereleases are ordered by their identifier lists |
| Precedence.CompareParts | compare.go:92-132 | the padded loop over two identifier lists; its meaning is carried by `PartsPrefixBelow`, `PartsFirstDifference` and the order laws below |
| Precedence.ComparePrerelease | compare.go:92-132 | the list loop over the dot-separated identifiers of two prereleases |
| Precedence.PartsPrefixBelow | compare.go:103-125 | a proper prefix of an identifier list, followed by a non-empty identifier, is below the list |
| Precedence.PartsFirstDifference | compare.go:103-125 | past a common prefix, the first pair of differing identifiers decides |
| Precedence.PrereleaseExtendBelow | compare.go:92-132 | one identifier is below itself followed by more identifiers: `alpha` below `alpha.1` |
| Precedence.CompareReflexive | compare.go:52-80 | every version ties with itself |
| Precedence.CompareAntisymmetric | compare.go:52-80 | on canonical versions, swapping the arguments negates the result |
| Precedence.CompareTransitive | compare.go:52-80 | on canonical versions, at-most is transitive, strictly when either step is strict |
| Precedence.CompareZeroIff | compare.go:52-80 | for prereleases without empty identifiers, a tie exactly when major, minor, patch and prerelease agree |
| Precedence.CompareIgnoresMetadata | compare.go:52-80 | changing metadata or original text on either side leaves the result unchanged |
| Precedence.Lt | compare.go:29-32 | `Compare` below 0; its laws are `LtGtConverse` and `CompareTransitive` |
| Precedence.Gt | compare.go:34-39 | `Compare` above 0 |
| Precedence.Eq | compare.go:41-43 | `Compare` equal to 0; when it holds is `CompareZeroIff` |
| Precedence.LtGtConverse | compare.go:29-43 | `Lt(a, b)` iff `Gt(b, a)`, and `Eq` is symmetric |
| Semver.ValidatePrerelease | semver.go:322-335 | passes iff every dot-separated identifier is in `allowedChars` and no all-digit one has a leading zero; on failure the first bad identifier gives `ErrSegmentStartsZero` if it is all digits and `ErrInvalidPrerelease` otherwise |
| Semver.ValidateMetadata | semver.go:341-349 | passes iff every identifier is in `allowedChars`; fails with `ErrInvalidMetadata` |
| Semver.MatchSemverSound | semver.go:15-17 | an accepted text has the shape of `semverReg` and its groups rebuild it, after an optional `v` |
| Semver.MatchAssembled | semver.go:15-17 | every text of the `semverReg` language, with or without `v`, is accepted with the groups it was built from |
| Semver.NewSemver | semver.go:109-165 | an unrecognised text is `ErrInvalidSemVer`; a result carries the group values (absent minor or patch 0), is well-formed and remembers the text; errors are among the documented ones |
| Semver.RoundTrip | semver.go:109-184 | parsing the rendering of a well-formed value, with or without `v`, gives the value back with that text as original |
| Semver.ParseRenderParse | semver.go:109-184 | every parsed value renders to a text that parses to the same fields |
| Semver.WellFormedIsCanonical | semver.go:322-335 | parsed values have canonical numeric prerelease identifiers and no empty ones |
| Semver.VersionString | semver.go:187-191 | `%d.%d.%d`; what rendering means is `Semver.RoundTrip` |
| Semver.ToString | semver.go:172-184 | the version string, then `-pre` and `+metadata` when present; parsing it back is `Semver.RoundTrip` |
| Semver.OriginalVPrefix | semver.go:310-316 | "v" exactly when the original text starts with `v`, "" otherwise |
| Semver.IncMajor | semver.go:229-238 | major+1 (wrapping), minor and patch 0, prerelease and metadata cleared, original is the prefixed rendering |
| Semver.IncMinor | semver.go:245-254 | minor+1, patch 0, major kept, prerelease and metadata cleared |
| Semver.IncPatch | semver.go:261-279 | patch+1 for a release, patch 0 for a prerelease; major and minor kept |
| Semver.IncrementsReparse | semver.go:229-279 | the original text each increment records parses back to the increment |
| Calver.MatchCalVerSound | calver.go:11-12 | an accepted text has the shape of `calVerReg` and its groups rebuild it |
| Calver.MatchCalVerComplete | calver.go:11-12 | every text of the `calVerReg` language is accepted with the groups it was built from |
| Calver.NewCalVerStr | calver.go:33-75 | an unrecognised text is `ErrInvalidCalVer`; a result carries the group values, no metadata, a validated prerelease and the text |
| Calver.FromCalGroups | calver.go:44-74 | from recognised groups: a well-formed CalVer holding the decimal values of the groups and the text, or a segment or prerelease error |
| Calver.NoSegmentError | calver.go:33-75 | the segment-parse error can never occur, because the groups have at most four digits |
| Calver.NewCalVer | calver.go:79-90 | the value has the given parts and its rendering as original |
| Calver.RoundTrip | calver.go:33-105 | parsing the rendering of a value with a 2- or 4-digit year and month and day below 100 gives it back |
| Calver.NewCalVerReparses | calver.go:79-90 | the original `NewCalVer` records parses back to the same value |
| Calver.LeadingZeroYearDoesNotReparse | calver.go:33-105 | "0100" parses, but its rendering "100.00.00" does not |
| Calver.VersionString | calver.go:108-113 | `%d.%02d.%02d`; which values it renders parseably is `Calver.RoundTrip` |
| Calver.ToString | calver.go:97-105 | the version string, then `-pre` when present; parsing it back is `Calver.RoundTrip` |
| Calver.IncMajor | calver.go:149-157 | major+1, minor and patch 0, prerelease cleared, original is the rendering |
| Calver.IncMinor | calver.go:163-171 | minor+1, patch 0, major kept, prerelease cleared |
| Calver.IncPatch | calver.go:178-191 | patch+1 for a release; a prerelease keeps its patch and loses the prerelease |
| Comparable.IncMajor | compare.go:8-26 | for either scheme, major+1 with minor, patch, prerelease and metadata cleared |
| Comparable.IncMinor | compare.go:8-26 | for either scheme, minor+1 with patch, prerelease and metadata cleared |
| Comparable.IncPatch | compare.go:8-26 | patch+1 on a release; on a prerelease the CalVer keeps the patch, the Semver sets it to 0 |
| Comparable.IncMajorOrder | semver.go:229-238 | the increment is above the value, except at the top of the 64-bit range where it wraps below |
| Comparable.IncMinorOrder | semver.go:245-254 | the same for the minor |
| Comparable.IncPatchOrder | semver.go:261-279 | above on a release or a CalVer prerelease; on a Semver prerelease above iff the patch was 0 |
| Comparable.BelowIncMajor | constraints.go:264-265 | the versions below `IncMajor(v)` are those of major at most v's, plus the prereleases of (major+1).0.0 |
| Comparable.BelowIncMinor | constraints.go:266-267 | the versions below `IncMinor(v)` are those up to v's major.minor, plus the prereleases of the next minor's .0 |
| Comparable.BelowIncPatch | constraints.go:268-269 | the versions below `IncPatch(v)` of a release are those up to its major.minor.patch, plus the next patch's prereleases |
| Comparable.BelowIncPatchPrerelease | constraints.go:268-269 | the versions below `IncPatch(v)` of a prerelease are those below its major.minor.p', plus the prereleases of p', where p' is v's patch for a CalVer and 0 for a Semver |
| Constraints.Check | constraints.go:75-90 | true iff some group has every constraint satisfied |
| Constraints.Satisfies | constraints.go:221-243 | the operator's sign test of `Compare`; what it admits is stated by the four laws below |
| Constraints.LowerBoundUpward | constraints.go:229-240 | on canonical versions, `>` and `>=` admit every version above one they admit |
| Constraints.UpperBoundDownward | constraints.go:233-243 | on canonical versions, `<` and `<=` admit every version below one they admit |
| Constraints.BoundConverse | constraints.go:229-243 | on canonical versions, `v > b` iff `b < v`, and `v >= b` iff `b <= v` |
| Constraints.EqualMeansSame | constraints.go:221-227 | without empty identifiers, `=` admits exactly the versions with the bound's major, minor, patch and prerelease, and `!=`, `!` the rest |
| Constraints.MatchTokenComplete | constraints.go:136-151 | an operator from the list followed by a non-empty body is recognised with exactly those two groups |
| Constraints.MatchToken | constraints.go:136-151 | a recognised token is an operator text followed by a non-empty body of `[\w.+*-]` |
| Constraints.ParseConstraint | constraints.go:164-171 | a text outside the token grammar is `ErrInvalidConstraint` |
| Constraints.ParseCaret | constraints.go:255-286 | a parse failure of the body is passed on; the range is stated by the caret laws |
| Constraints.ParseTilde | constraints.go:293-311 | a parse failure of the body is passed on; the range is stated by the tilde laws |
| Constraints.ParseStar | constraints.go:315-351 | a `>=` / `<` pair from the parsed filled-in body to its next major or minor, or the parse failure, or the nil-bound failure |
| Constraints.ParseGroup | constraints.go:92-93 | a group is read after trimming; see `GroupIgnoresSpace` |
| Constraints.ParseTrimmed | constraints.go:94-131 | the hyphen, conjunction and single-token paths; see `HyphenGroup`, `MultipleHyphens`, `ParseTokensOk`, `SimpleToken` |
| Constraints.ParseTokens | constraints.go:110-119 | the conjunction loop; see `ParseTokensOk`, `ParseTokensAppend` |
| Constraints.ParseEach | constraints.go:52-60 | succeeds iff every text parses, keeping the results in order; otherwise the error of the first text that fails |
| Constraints.ParseGroups | constraints.go:45-61 | succeeds iff every group parses, each in its place; otherwise the error of the first failing group |
| Constraints.NewConstraint | constraints.go:45-61 | the empty expression is `ErrInvalidConstraint`; otherwise the result is the `||`-groups parsed in order |
| ConstraintLaws.Unmatched | constraints.go:136-151 | an operator run not in the list, an empty body or a bad body character is not a token |
| ConstraintLaws.UnknownOperator | constraints.go:164-171 | `=<`, `=>` and `~>` tokens are rejected |
| ConstraintLaws.PlainToken | constraints.go:207-217 | a comparison with a wildcard-free body is one constraint with that operator and the parsed body |
| ConstraintLaws.SimpleToken | constraints.go:120-129 | a trimmed one-token group of that kind is that one constraint |
| ConstraintLaws.CaretGroup | constraints.go:192-196 | a `^` group is the caret expansion of its body |
| ConstraintLaws.TildeGroup | constraints.go:197-201 | a `~` group is the tilde expansion of its body |
| ConstraintLaws.StarIgnoresOperator | constraints.go:202-206 | any non-caret, non-tilde operator with a `*` or `x` body gives the wildcard expansion |
| ConstraintLaws.CaretMajor | constraints.go:255-286 | `^M.m.p`, M > 0: at or above the bound with the same major, or a prerelease of the next major |
| ConstraintLaws.CaretMinor | constraints.go:255-286 | `^0.m.p`, m > 0: at or above the bound within 0.m, or a prerelease of 0.(m+1).0 |
| ConstraintLaws.CaretPatch | constraints.go:255-286 | `^0.0.p`, p > 0, a release: at or above the bound within 0.0.p, or a prerelease of 0.0.(p+1) |
| ConstraintLaws.CaretPatchPrereleaseEmpty | constraints.go:255-286 | `^0.0.p-pre` of a Semver admits no version |
| ConstraintLaws.CaretPatchCalVerPrerelease | constraints.go:255-286 | `^0.0.p-pre` of a CalVer: at or above the bound and a prerelease of 0.0.p |
| ConstraintLaws.CaretZero | constraints.go:270-280 | for a 0.0.0 body, one piece bounds below 1.0.0, two below 0.1.0, three or more below 0.0.1; with a prerelease and three or more pieces only prereleases of 0.0.0 from the bound on |
| ConstraintLaws.TildeMajor | constraints.go:293-311 | `~M.0.0`: at or above the bound with the same major, or a prerelease of the next |
| ConstraintLaws.TildeMinor | constraints.go:293-311 | any other tilde: at or above the bound within its major.minor, or a prerelease of the next minor |
| ConstraintLaws.StarMinor | constraints.go:315-351 | `M.*` and `M.x` parse `M.0` and stop below the next major |
| ConstraintLaws.StarPatch | constraints.go:315-351 | `M.m.*` and `M.m.x` parse `M.m.0` and stop below the next minor |
| ConstraintLaws.StarWithoutBound | constraints.go:340-349 | with no wildcard minor or patch, a successful parse ends in the nil-bound failure |
| ConstraintLaws.WildcardGroup | constraints.go:120-129 | a one-token group with a wildcard character is the wildcard expansion |
| ConstraintLaws.StarGroup | constraints.go:121-124 | a one-token group starting with `*` is `>=0.0.0`, whatever follows |
| ConstraintLaws.HyphenGroup | constraints.go:94-109 | a trimmed group with one ` - ` is `>=A` followed by `<=B` |
| ConstraintLaws.HyphenRangeHolds | constraints.go:94-109 | `A - B` holds exactly from A to B inclusive |
| ConstraintLaws.MultipleHyphens | constraints.go:94-99 | a group whose trimmed text holds ` - ` more than once is `ErrInvalidConstraint`, whatever its pieces |
| ConstraintLaws.DoubleHyphen | constraints.go:96-99 | the instance `a - b - c` with plain pieces is `ErrInvalidConstraint` |
| ConstraintLaws.ParseTokensOk | constraints.go:110-119 | a conjunction parses iff every non-empty piece does |
| ConstraintLaws.ParseTokensPieces | constraints.go:110-119 | the conjunction loop succeeds exactly when each piece, taken in turn, is empty or parses |
| ConstraintLaws.ParseTokensAppend | constraints.go:110-119 | the conjunction loop distributes over concatenation of pieces, the first error winning |
| ConstraintLaws.EmptyPiecesIgnored | constraints.go:113 | empty pieces from repeated spaces contribute nothing |
| ConstraintLaws.Conjunction | constraints.go:110-119 | two tokens separated by any run of spaces parse to the first's constraints then the second's |
| ConstraintLaws.GroupIgnoresSpace | constraints.go:93 | surrounding white space does not change a group's parse |
| ConstraintLaws.Disjunction | constraints.go:45-61 | two groups joined by the OR separator parse to the two groups in order, the first failure deciding the error |
| ConstraintLaws.PlainDisjunction | constraints.go:45-61 | two plain comparisons joined by a spaced OR separator parse to two groups of one constraint each |
| Examples.CaretExampleCases | constraints.go:245-286 | `^1.2.3` admits 1.8.9 but not 2.8.9 or 1.2.2 |
| Examples.CaretExample | constraints.go:245-286 | `^1.2.3` admits exactly the versions from 1.2.3 below 2.0.0 |
| Examples.TildeExample | constraints.go:291-311 | `~1.2.3` admits exactly the versions from 1.2.3 below 1.3.0 |
| Examples.TildeExampleCases | constraints.go:291-311 | `~1.2.3` admits 1.2.9 but not 1.3.0 |
| Examples.HyphenExample | constraints.go:94-109 | `1.1 - 2` admits exactly the versions from 1.1.0 to 2.0.0 inclusive |
| Examples.HyphenExampleCases | constraints.go:94-109 | `1.1 - 2` admits 1.1.1 and 2.0.0 but not 2.0.1 or 1.0.9 |
| Examples.StarExample | constraints.go:313-351 | `1.2.x` admits exactly the versions from 1.2.0 below 1.3.0 |
| Examples.NoUpperBoundExample | constraints.go:340-349 | `1.0.0-x` parses as a version yet fails as a constraint for want of an upper bound |
| Examples.CaretZeroXExample | constraints.go:253-280 | `^0.x` admits exactly the versions from 0.0.0 below 0.1.0, not below 1.0.0 as the comment says |
| Examples.CaretZeroXCases | constraints.go:253-280 | `^0.x` admits 0.0.5 but not 0.5.0 |
| Examples.EmptyCaretExample | constraints.go:255-286 | `^0.0.1-alpha` admits nothing |
| Examples.OutsideExample | constraints.go:45-90 | `<1.0.0` OR `>=2.0.0` parses, and admits exactly the versions outside [1.0.0, 2.0.0) |
| Examples.CheckOutside | constraints.go:63-90 | the parse-then-check of that expression answers iff the version is below 1.0.0 or at least 2.0.0 |

## Left out

- `StrictNewVersion` (semver.go:48-107) is a second, stricter parser that no other part of the core uses.
- Compiling the regular expressions in `init` is left out. Each regular expression is replaced by a hand-written recogniser, with soundness and completeness proved against the pattern.
- `CheckString` and the stored `newfn` are one call of the parser followed by `Check`, so they are not modelled separately.
- The `Original()`, `Major()` … `Metadata()` getters are field reads.
- The `Lt`, `Gt`, `Eq` and `Compare` methods of the two concrete types delegate to the package functions.
- Errors wrapped by `fmt.Errorf("parsing version segment: %s", …)` become one `ParseSegment` error. The message text is not modelled.
- The nil-pointer panic of `parseStarConstraint` becomes the error `NoUpperBound`. Go's panic unwinds the caller instead.
- `ErrInvalidCalVer` is returned by calver.go but is not defined in errors.go. The model gives it a constructor of its own.
- The `ver == VersionAll` branch of `parseConstraint` (constraints.go:208-211) cannot be reached: a body equal to `*` contains `*` and has already taken the wildcard branch. The model omits that branch.
- `strutil.IsEmpty` is read as "length 0", and `strutil.ContainsOnly` as "every character is in the set".
- Go strings are bytes, and the model works on characters. Every character the grammars accept is ASCII, and the byte order of UTF-8 text is the order of its code points, so nothing observable changes.
- Calver.RoundTrip: requires a two- or four-digit year and month and day below 100. Other values render to text that `calVerReg` rejects (`Calver.LeadingZeroYearDoesNotReparse` shows one).
