/** The `Comparable` interface (compare.go): the version string and the
    three increments, dispatched on the concrete scheme, and how each
    increment sits in the order `Compare` defines. The constraint engine
    builds its upper bounds from these increments. */
module Comparable {
  import opened Decimal
  import opened Versions
  import opened Precedence
  import Semver
  import Calver

  /** `Version()`: `M.m.p` for a semantic version, `M.mm.pp` for a
      calendar one. */
  function VersionString(v: Version): string {
    match v.scheme
    case Semver => Semver.VersionString(v)
    case CalVer => Calver.VersionString(v)
  }

  /** `String()`. */
  function ToString(v: Version): string {
    match v.scheme
    case Semver => Semver.ToString(v)
    case CalVer => Calver.ToString(v)
  }

  function IncMajor(v: Version): (r: Version)
    ensures r.scheme == v.scheme && r.pre == "" && r.metadata == ""
    ensures r.major == Inc64(v.major) && r.minor == 0 && r.patch == 0
  {
    match v.scheme
    case Semver => Semver.IncMajor(v)
    case CalVer => Calver.IncMajor(v)
  }

  function IncMinor(v: Version): (r: Version)
    ensures r.scheme == v.scheme && r.pre == "" && r.metadata == ""
    ensures r.major == v.major && r.minor == Inc64(v.minor) && r.patch == 0
  {
    match v.scheme
    case Semver => Semver.IncMinor(v)
    case CalVer => Calver.IncMinor(v)
  }

  /** The two schemes part ways on a prerelease: a CalVer keeps its patch,
      a Semver ends up with patch 0. */
  function IncPatch(v: Version): (r: Version)
    ensures r.scheme == v.scheme && r.pre == "" && r.metadata == ""
    ensures r.major == v.major && r.minor == v.minor
    ensures v.pre == "" ==> r.patch == Inc64(v.patch)
    ensures v.pre != "" && v.scheme == CalVer ==> r.patch == v.patch
    ensures v.pre != "" && v.scheme == Semver ==> r.patch == 0
  {
    match v.scheme
    case Semver => Semver.IncPatch(v)
    case CalVer => Calver.IncPatch(v)
  }

  // ---------------------------------------------------------------------
  // The increments in the order.

  /** Below the top of the 64-bit range, `IncMajor` moves up. At the top
      the addition wraps to 0 and the result falls below. */
  lemma IncMajorOrder(v: Version)
    ensures v.major < U64 - 1 ==> Gt(IncMajor(v), v)
    ensures v.major == U64 - 1 ==> Lt(IncMajor(v), v)
  {
  }

  lemma IncMinorOrder(v: Version)
    ensures v.minor < U64 - 1 ==> Gt(IncMinor(v), v)
    ensures v.minor == U64 - 1 ==> Lt(IncMinor(v), v)
  {
  }

  /** `IncPatch` moves up, except on a semantic prerelease with a non-zero
      patch: 1.2.3-beta becomes 1.2.0, which is lower. */
  lemma IncPatchOrder(v: Version)
    ensures v.pre == "" && v.patch < U64 - 1 ==> Gt(IncPatch(v), v)
    ensures v.pre == "" && v.patch == U64 - 1 ==> Lt(IncPatch(v), v)
    ensures v.pre != "" && v.scheme == CalVer ==> Gt(IncPatch(v), v)
    ensures v.pre != "" && v.scheme == Semver ==> (Gt(IncPatch(v), v) <==> v.patch == 0)
  {
  }

  /** Below `IncMajor(v)` lie exactly the versions of a major no higher
      than `v`'s and the prereleases of (major+1).0.0: the reading that
      makes `< IncMajor(v)` the upper end of a caret range. */
  lemma BelowIncMajor(v: Version, w: Version)
    requires v.major < U64 - 1
    ensures Lt(w, IncMajor(v)) <==>
              w.major <= v.major
              || (w.major == v.major + 1 && w.minor == 0 && w.patch == 0 && w.pre != "")
  {
  }

  /** Below `IncMinor(v)` lie exactly the versions up to `v`'s major.minor
      and the prereleases of major.(minor+1).0: the upper end of a tilde
      range. */
  lemma BelowIncMinor(v: Version, w: Version)
    requires v.minor < U64 - 1
    ensures Lt(w, IncMinor(v)) <==>
              w.major < v.major
              || (w.major == v.major && w.minor <= v.minor)
              || (w.major == v.major && w.minor == v.minor + 1 && w.patch == 0 && w.pre != "")
  {
  }

  /** Below `IncPatch(v)` of a release lie exactly the versions up to
      `v`'s major.minor.patch and the prereleases of the next patch. */
  lemma BelowIncPatch(v: Version, w: Version)
    requires v.pre == "" && v.patch < U64 - 1
    ensures Lt(w, IncPatch(v)) <==>
              w.major < v.major
              || (w.major == v.major && w.minor < v.minor)
              || (w.major == v.major && w.minor == v.minor && w.patch <= v.patch)
              || (w.major == v.major && w.minor == v.minor && w.patch == v.patch + 1 && w.pre != "")
  {
  }

  /** Below `IncPatch(v)` of a prerelease lie exactly the versions up to
      `v`'s major.minor below the increment's patch, and the prereleases
      of that patch. The increment's patch is `v`'s own for a CalVer and
      0 for a Semver. */
  lemma BelowIncPatchPrerelease(v: Version, w: Version)
    requires v.pre != ""
    ensures var p := IncPatch(v).patch;
            Lt(w, IncPatch(v)) <==>
              w.major < v.major
              || (w.major == v.major && w.minor < v.minor)
              || (w.major == v.major && w.minor == v.minor && w.patch < p)
              || (w.major == v.major && w.minor == v.minor && w.patch == p && w.pre != "")
  {
  }
}
