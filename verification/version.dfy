/** The version value the comparison and constraint engine works on: the
    capability set of the `Comparable` interface (major, minor, patch,
    prerelease) plus what the two concrete types carry besides. */
module Versions {
  import opened Decimal
  import opened Text

  /** Which concrete Go type a value stands for: `*Semver` or `*CalVer`. */
  datatype Scheme = Semver | CalVer

  /** One version. `pre` and `metadata` are the dot-separated strings
      without their `-` / `+` markers, empty when absent; a CalVer never
      carries metadata. `original` is the text the value was made from and
      plays no part in ordering. */
  datatype Version = Version(
    scheme: Scheme,
    major: u64,
    minor: u64,
    patch: u64,
    pre: string,
    metadata: string,
    original: string)

  /** The dot-separated identifiers of a prerelease or metadata string, as
      `strings.Split(p, ".")` yields them. */
  function Identifiers(p: string): seq<string> {
    SplitOn(p, ".")
  }
}
