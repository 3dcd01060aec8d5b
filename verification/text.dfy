/** The handful of Go `strings` operations the library relies on, as pure
    functions over `seq<char>`: `Index`, `Contains`, `Split`, `Join`,
    `TrimSpace` and `ReplaceAll` of one character. */
module Text {
  import opened Errors

  /** `sep` occurs in `s` starting at index `i`. */
  predicate MatchesAt(s: string, sep: string, i: nat) {
    i + |sep| <= |s| && s[i..i + |sep|] == sep
  }

  /** The first occurrence of `sep` in `s` at or after `i`. */
  function IndexFrom(s: string, sep: string, i: nat): (r: Option<nat>)
    requires |sep| > 0 && i <= |s|
    ensures r.Some? ==> i <= r.value && MatchesAt(s, sep, r.value)
    ensures r.Some? ==> forall j: nat :: i <= j < r.value ==> !MatchesAt(s, sep, j)
    ensures r.None? ==> forall j: nat :: i <= j ==> !MatchesAt(s, sep, j)
    decreases |s| - i
  {
    if i + |sep| > |s| then None
    else if s[i..i + |sep|] == sep then Some(i)
    else IndexFrom(s, sep, i + 1)
  }

  /** Go's `strings.Index`: the first occurrence of a non-empty `sep`. */
  function IndexOf(s: string, sep: string): (r: Option<nat>)
    requires |sep| > 0
    ensures r.Some? ==> MatchesAt(s, sep, r.value)
    ensures r.Some? ==> forall j: nat :: j < r.value ==> !MatchesAt(s, sep, j)
    ensures r.None? ==> forall j: nat :: !MatchesAt(s, sep, j)
  {
    IndexFrom(s, sep, 0)
  }

  /** Go's `strings.Contains` for a non-empty `sep`. */
  predicate Contains(s: string, sep: string)
    requires |sep| > 0
  {
    IndexOf(s, sep).Some?
  }

  /** Go's `strings.Split` for a non-empty separator: the pieces between
      successive non-overlapping occurrences of `sep`, left to right. */
  function SplitOn(s: string, sep: string): (parts: seq<string>)
    requires |sep| > 0
    ensures |parts| >= 1
    ensures forall k :: 0 <= k < |parts| ==> |parts[k]| <= |s|
    ensures Contains(s, sep) ==> |parts| >= 2
    ensures Contains(s, sep) ==> forall k :: 0 <= k < |parts| ==> |parts[k]| + |sep| <= |s|
    ensures !Contains(s, sep) ==> parts == [s]
    decreases |s|
  {
    match IndexOf(s, sep)
    case None => [s]
    case Some(i) => [s[..i]] + SplitOn(s[i + |sep|..], sep)
  }

  /** Go's `strings.HasPrefix`. */
  predicate HasPrefix(s: string, prefix: string) {
    |prefix| <= |s| && s[..|prefix|] == prefix
  }

  /** Go's `strings.Join`, the inverse of `SplitOn`. */
  function Join(parts: seq<string>, sep: string): string
    requires |parts| >= 1
    decreases |parts|
  {
    if |parts| == 1 then parts[0] else parts[0] + sep + Join(parts[1..], sep)
  }

  /** Splitting and joining again gives back the input, so `SplitOn` loses
      nothing and is injective. */
  lemma {:induction false} JoinSplitOn(s: string, sep: string)
    requires |sep| > 0
    ensures Join(SplitOn(s, sep), sep) == s
    decreases |s|
  {
    match IndexOf(s, sep)
    case None =>
    case Some(i) =>
      var rest := SplitOn(s[i + |sep|..], sep);
      JoinSplitOn(s[i + |sep|..], sep);
      assert SplitOn(s, sep) == [s[..i]] + rest;
      assert Join([s[..i]] + rest, sep) == s[..i] + sep + Join(rest, sep);
      assert s == s[..i] + s[i..i + |sep|] + s[i + |sep|..];
  }

  lemma SplitOnInjective(a: string, b: string, sep: string)
    requires |sep| > 0
    requires SplitOn(a, sep) == SplitOn(b, sep)
    ensures a == b
  {
    JoinSplitOn(a, sep);
    JoinSplitOn(b, sep);
  }

  /** A single-character separator that does not occur in `a` is found
      right after `a`. */
  lemma IndexOfAfter(a: string, c: char, b: string)
    requires c !in a
    ensures IndexOf(a + [c] + b, [c]) == Some(|a|)
  {
    var s := a + [c] + b;
    assert s[|a|..|a| + 1] == [c];
    assert MatchesAt(s, [c], |a|);
    forall j: nat | j < |a|
      ensures !MatchesAt(s, [c], j)
    {
      assert s[j..j + 1] == [a[j]];
    }
  }

  lemma IndexOfAbsent(a: string, c: char)
    requires c !in a
    ensures IndexOf(a, [c]) == None
  {
    forall j: nat | j + 1 <= |a|
      ensures !MatchesAt(a, [c], j)
    {
      assert a[j..j + 1] == [a[j]];
    }
  }

  /** Splitting `a c b` on `c`, where `c` is not in `a`, yields `a` and
      then the pieces of `b`. */
  lemma SplitOnAfter(a: string, c: char, b: string)
    requires c !in a
    ensures SplitOn(a + [c] + b, [c]) == [a] + SplitOn(b, [c])
  {
    IndexOfAfter(a, c, b);
    var s := a + [c] + b;
    assert s[..|a|] == a;
    assert s[|a| + 1..] == b;
  }

  lemma SplitOnAbsent(a: string, c: char)
    requires c !in a
    ensures SplitOn(a, [c]) == [a]
  {
    IndexOfAbsent(a, c);
  }

  /** A separator whose first character does not occur in `a` is found
      right after `a`. */
  lemma IndexOfAfterSep(a: string, sep: string, b: string)
    requires |sep| > 0 && sep[0] !in a
    ensures IndexOf(a + sep + b, sep) == Some(|a|)
  {
    var s := a + sep + b;
    assert s[|a|..|a| + |sep|] == sep;
    assert MatchesAt(s, sep, |a|);
    forall j: nat | j < |a|
      ensures !MatchesAt(s, sep, j)
    {
      assert s[j] == a[j];
    }
  }

  /** A separator whose first character does not occur in `s` does not
      occur in it. */
  lemma NotContains(s: string, sep: string)
    requires |sep| > 0 && sep[0] !in s
    ensures !Contains(s, sep)
    ensures SplitOn(s, sep) == [s]
  {
  }

  lemma SplitOnAfterSep(a: string, sep: string, b: string)
    requires |sep| > 0 && sep[0] !in a
    ensures SplitOn(a + sep + b, sep) == [a] + SplitOn(b, sep)
  {
    IndexOfAfterSep(a, sep, b);
    var s := a + sep + b;
    assert s[..|a|] == a;
    assert s[|a| + |sep|..] == b;
  }

  /** `s` cut around the first occurrence of `c`, as Go's `strings.Cut`. */
  datatype Cut = Cut(before: string, after: string, found: bool)

  function CutAt(s: string, c: char): (r: Cut)
    ensures r.found <==> c in s
    ensures r.found ==> s == r.before + [c] + r.after && c !in r.before
    ensures !r.found ==> r.before == s && r.after == ""
  {
    match IndexOf(s, [c])
    case None =>
      assert forall i :: 0 <= i < |s| ==> s[i] != c by {
        forall i | 0 <= i < |s|
          ensures s[i] != c
        {
          assert !MatchesAt(s, [c], i);
          assert s[i..i + 1] == [s[i]];
        }
      }
      Cut(s, "", false)
    case Some(i) =>
      assert s[i..i + 1] == [c];
      assert forall j :: 0 <= j < i ==> s[j] != c by {
        forall j | 0 <= j < i
          ensures s[j] != c
        {
          assert !MatchesAt(s, [c], j);
          assert s[j..j + 1] == [s[j]];
        }
      }
      assert s == s[..i] + [c] + s[i + 1..];
      Cut(s[..i], s[i + 1..], true)
  }

  /** A character that does not occur in `a` is first found right after
      `a`. */
  lemma CutAtAfter(a: string, c: char, b: string)
    requires c !in a
    ensures CutAt(a + [c] + b, c) == Cut(a, b, true)
  {
    var s := a + [c] + b;
    var r := CutAt(s, c);
    assert s[|a|] == c && s[|r.before|] == c;
    if |r.before| < |a| {
      assert false;
    } else if |a| < |r.before| {
      assert false;
    }
    assert r.before == s[..|a|] == a;
    assert r.after == s[|a| + 1..] == b;
  }

  /** Go's `unicode.IsSpace`, which `strings.TrimSpace` uses. */
  predicate IsSpace(c: char) {
    var n := c as int;
    n == 0x09 || n == 0x0A || n == 0x0B || n == 0x0C || n == 0x0D || n == 0x20
    || n == 0x85 || n == 0xA0 || n == 0x1680 || (0x2000 <= n <= 0x200A)
    || n == 0x2028 || n == 0x2029 || n == 0x202F || n == 0x205F || n == 0x3000
  }

  function TrimLeft(s: string): (r: string)
    ensures |r| <= |s| && r == s[|s| - |r|..]
    ensures |r| > 0 ==> !IsSpace(r[0])
    ensures forall i :: 0 <= i < |s| - |r| ==> IsSpace(s[i])
  {
    if |s| > 0 && IsSpace(s[0]) then TrimLeft(s[1..]) else s
  }

  function TrimRight(s: string): (r: string)
    ensures |r| <= |s| && r == s[..|r|]
    ensures |r| > 0 ==> !IsSpace(r[|r| - 1])
    ensures forall i :: |r| <= i < |s| ==> IsSpace(s[i])
  {
    if |s| > 0 && IsSpace(s[|s| - 1]) then TrimRight(s[..|s| - 1]) else s
  }

  /** Go's `strings.TrimSpace`: `s` without its leading and trailing white
      space. */
  function TrimSpace(s: string): (r: string)
    ensures |r| <= |s|
    ensures |r| > 0 ==> !IsSpace(r[0]) && !IsSpace(r[|r| - 1])
    ensures |s| > 0 && !IsSpace(s[0]) && !IsSpace(s[|s| - 1]) ==> r == s
  {
    assert |s| > 0 && !IsSpace(s[0]) ==> TrimLeft(s) == s;
    TrimRight(TrimLeft(s))
  }

  /** Go's `strings.ReplaceAll(s, [from], [to])`. */
  function ReplaceChar(s: string, from: char, to: char): (r: string)
    ensures |r| == |s|
    ensures forall i :: 0 <= i < |s| ==> r[i] == if s[i] == from then to else s[i]
  {
    if |s| == 0 then [] else [if s[0] == from then to else s[0]] + ReplaceChar(s[1..], from, to)
  }

  /** Replacing a character that does not occur changes nothing. */
  lemma ReplaceAbsent(s: string, from: char, to: char)
    requires from !in s
    ensures ReplaceChar(s, from, to) == s
  {
    assert forall i :: 0 <= i < |s| ==> ReplaceChar(s, from, to)[i] == s[i];
  }

  predicate AllSpace(s: string) {
    forall i :: 0 <= i < |s| ==> IsSpace(s[i])
  }

  lemma {:induction false} TrimLeftSpaces(pre: string, s: string)
    requires AllSpace(pre) && (|s| > 0 ==> !IsSpace(s[0]))
    ensures TrimLeft(pre + s) == s
    decreases |pre|
  {
    if |pre| == 0 {
      assert pre + s == s;
    } else {
      assert (pre + s)[0] == pre[0];
      assert (pre + s)[1..] == pre[1..] + s;
      TrimLeftSpaces(pre[1..], s);
    }
  }

  lemma {:induction false} TrimRightSpaces(s: string, post: string)
    requires AllSpace(post) && (|s| > 0 ==> !IsSpace(s[|s| - 1]))
    ensures TrimRight(s + post) == s
    decreases |post|
  {
    if |post| == 0 {
      assert s + post == s;
    } else {
      var t := s + post;
      assert t[|t| - 1] == post[|post| - 1];
      assert t[..|t| - 1] == s + post[..|post| - 1];
      TrimRightSpaces(s, post[..|post| - 1]);
    }
  }

  /** `TrimSpace` removes exactly the white space around a text that
      neither starts nor ends with white space. */
  lemma TrimAround(pre: string, s: string, post: string)
    requires AllSpace(pre) && AllSpace(post)
    requires |s| > 0 && !IsSpace(s[0]) && !IsSpace(s[|s| - 1])
    ensures TrimSpace(pre + s + post) == s
  {
    assert pre + s + post == pre + (s + post);
    assert (s + post)[0] == s[0];
    TrimLeftSpaces(pre, s + post);
    TrimRightSpaces(s, post);
  }

  /** Trimming twice is trimming once. */
  lemma TrimSpaceIdempotent(s: string)
    ensures TrimSpace(TrimSpace(s)) == TrimSpace(s)
  {
  }

  lemma ConcatAssociative<T>(x: seq<T>, y: seq<T>, z: seq<T>)
    ensures x + y + z == x + (y + z)
  {
  }

  lemma TrimOneSpace(t: string)
    requires |t| > 0 && !IsSpace(t[0]) && !IsSpace(t[|t| - 1])
    ensures TrimSpace(t + " ") == t && TrimSpace(" " + t) == t
  {
    assert AllSpace(" ") && AllSpace("");
    assert t + " " == "" + t + " ";
    TrimAround("", t, " ");
    assert " " + t == " " + t + "";
    TrimAround(" ", t, "");
  }
}
