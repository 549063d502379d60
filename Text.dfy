/** The .NET string operations the parser relies on: Trim, IndexOf, Contains, the
    student-ID regular expression, and an order for sorting. */
module Text {
  import opened Wrappers

  /** Char.IsWhiteSpace, which is also the class \s of .NET regular expressions. */
  predicate IsWhiteSpace(c: char) {
    c == ' ' || ('\t' <= c <= '\r') || c == '\U{85}' || c == '\U{A0}' || c == '\U{1680}'
    || ('\U{2000}' <= c <= '\U{200A}') || c == '\U{2028}' || c == '\U{2029}'
    || c == '\U{202F}' || c == '\U{205F}' || c == '\U{3000}'
  }

  /** The class \w, restricted to ASCII: letters, digits and the underscore. */
  predicate IsWordChar(c: char) {
    ('a' <= c <= 'z') || ('A' <= c <= 'Z') || ('0' <= c <= '9') || c == '_'
  }

  /** The class [\w|\.|\s] of the student-ID pattern. */
  predicate IsIdChar(c: char) {
    IsWordChar(c) || c == '|' || c == '.' || IsWhiteSpace(c)
  }

  predicate Distinct(s: seq<string>) {
    forall i, j :: 0 <= i < j < |s| ==> s[i] != s[j]
  }

  function TrimStart(s: string): (r: string)
    ensures |r| <= |s| && r == s[|s| - |r|..]
    ensures forall i :: 0 <= i < |s| - |r| ==> IsWhiteSpace(s[i])
    ensures r == [] || !IsWhiteSpace(r[0])
  {
    if |s| > 0 && IsWhiteSpace(s[0]) then TrimStart(s[1..]) else s
  }

  function TrimEnd(s: string): (r: string)
    ensures |r| <= |s| && r == s[..|r|]
    ensures forall i :: |r| <= i < |s| ==> IsWhiteSpace(s[i])
    ensures r == [] || !IsWhiteSpace(r[|r| - 1])
  {
    if |s| > 0 && IsWhiteSpace(s[|s| - 1]) then TrimEnd(s[..|s| - 1]) else s
  }

  /** String.Trim: white space removed from both ends. */
  function Trim(s: string): (r: string)
    ensures r == [] || (!IsWhiteSpace(r[0]) && !IsWhiteSpace(r[|r| - 1]))
    ensures s != [] && !IsWhiteSpace(s[0]) && !IsWhiteSpace(s[|s| - 1]) ==> r == s
  {
    TrimEnd(TrimStart(s))
  }

  /** Trim keeps a slice of s and drops only white space before and after it. With the
      ensures of Trim, which says the slice neither starts nor ends with white space, this
      determines the result. */
  lemma TrimDropsOnlyWhiteSpace(s: string)
    ensures exists i, j :: 0 <= i <= j <= |s| && Trim(s) == s[i..j]
                           && (forall k :: 0 <= k < i ==> IsWhiteSpace(s[k]))
                           && (forall k :: j <= k < |s| ==> IsWhiteSpace(s[k]))
  {
    var t, r := TrimStart(s), Trim(s);
    var i := |s| - |t|;
    PrefixOfSuffix(s, i, t, r);
    TailOfSuffix(s, i, t, |r|, IsWhiteSpace);
    assert r == s[i..i + |r|];
  }

  /** A prefix of a suffix of s is a slice of s. */
  lemma PrefixOfSuffix<T>(s: seq<T>, i: nat, t: seq<T>, r: seq<T>)
    requires i <= |s| && t == s[i..] && |r| <= |t| && r == t[..|r|]
    ensures i + |r| <= |s| && r == s[i..i + |r|]
  {
  }

  /** What a property says of the tail of a suffix of s, it says of the tail of s. */
  lemma TailOfSuffix<T>(s: seq<T>, i: nat, t: seq<T>, m: nat, p: T -> bool)
    requires i <= |s| && t == s[i..] && m <= |t|
    requires forall k :: m <= k < |t| ==> p(t[k])
    ensures forall k :: i + m <= k < |s| ==> p(s[k])
  {
    forall k | i + m <= k < |s| ensures p(s[k]) {
      assert s[k] == t[k - i];
    }
  }

  /** pat occurs in s at position k. */
  predicate OccursAt(s: string, pat: string, k: int) {
    0 <= k && k + |pat| <= |s| && s[k..k + |pat|] == pat
  }

  /** The first position at or after i where pat occurs in s, or -1. */
  function IndexFrom(s: string, pat: string, i: nat): (r: int)
    decreases |s| - i
    ensures r == -1 || (i <= r && OccursAt(s, pat, r))
    ensures forall k :: i <= k && (r == -1 || k < r) ==> !OccursAt(s, pat, k)
  {
    if i + |pat| > |s| then -1
    else if s[i..i + |pat|] == pat then i
    else IndexFrom(s, pat, i + 1)
  }

  /** String.IndexOf(pat), modelled as an ordinal search: the first position where pat
      occurs character for character. */
  function IndexOf(s: string, pat: string): (r: int)
    ensures r == -1 || OccursAt(s, pat, r)
    ensures forall k :: 0 <= k && (r == -1 || k < r) ==> !OccursAt(s, pat, k)
  {
    IndexFrom(s, pat, 0)
  }

  /** String.Contains(pat). */
  function Contains(s: string, pat: string): (b: bool)
    ensures b <==> exists k :: OccursAt(s, pat, k)
  {
    IndexOf(s, pat) >= 0
  }

  /** The end of the run of IsIdChar characters that starts at j. */
  function RunEnd(s: string, j: nat): (e: nat)
    requires j <= |s|
    decreases |s| - j
    ensures j <= e <= |s|
    ensures forall k :: j <= k < e ==> IsIdChar(s[k])
    ensures e < |s| ==> !IsIdChar(s[e])
  {
    if j < |s| && IsIdChar(s[j]) then RunEnd(s, j + 1) else j
  }

  /** The pattern \(([\w|\.|\s]*)\) matches at position i. The class excludes both
      parentheses, so backtracking cannot help: the character right after the longest
      run of class characters must be the closing parenthesis. */
  predicate MatchesAt(s: string, i: int) {
    0 <= i < |s| && s[i] == '(' && RunEnd(s, i + 1) < |s| && s[RunEnd(s, i + 1)] == ')'
  }

  /** The group of the leftmost match at or after position i. */
  function MatchFrom(s: string, i: nat): (g: Option<string>)
    decreases |s| - i
    ensures g.None? ==> forall k :: i <= k ==> !MatchesAt(s, k)
    ensures g.Some? ==> exists k :: i <= k && MatchesAt(s, k) && g.value == s[k + 1..RunEnd(s, k + 1)]
                                    && forall k' :: i <= k' < k ==> !MatchesAt(s, k')
  {
    if i >= |s| then None
    else if MatchesAt(s, i) then Some(s[i + 1..RunEnd(s, i + 1)])
    else MatchFrom(s, i + 1)
  }

  /** Regex.Matches(s, @"\(([\w|\.|\s]*)\)")[0].Groups[1].Value; None when there is no match. */
  function FirstIdGroup(s: string): Option<string> {
    MatchFrom(s, 0)
  }

  /** Ordinal order on strings: lexicographic by character code. */
  predicate Le(a: string, b: string)
    decreases |a|
  {
    a == [] || (b != [] && (a[0] < b[0] || (a[0] == b[0] && Le(a[1..], b[1..]))))
  }

  lemma {:induction false} LeTotal(a: string, b: string)
    ensures Le(a, b) || Le(b, a)
  {
    if a != [] && b != [] && a[0] == b[0] {
      LeTotal(a[1..], b[1..]);
    }
  }

  lemma {:induction false} LeAntisymmetric(a: string, b: string)
    requires Le(a, b) && Le(b, a)
    ensures a == b
  {
    if a != [] && b != [] {
      LeAntisymmetric(a[1..], b[1..]);
      assert a == [a[0]] + a[1..] && b == [b[0]] + b[1..];
    }
  }

  lemma {:induction false} LeTransitive(a: string, b: string, c: string)
    requires Le(a, b) && Le(b, c)
    ensures Le(a, c)
  {
    if a != [] && a[0] == b[0] && b[0] == c[0] {
      LeTransitive(a[1..], b[1..], c[1..]);
    }
  }

  lemma {:induction false} LeReflexive(a: string)
    ensures Le(a, a)
  {
    if a != [] {
      LeReflexive(a[1..]);
    }
  }
}
