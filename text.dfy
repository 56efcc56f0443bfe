/** The few `java.lang.String` operations the core relies on, with their Java
    semantics: `indexOf`, `startsWith`, `endsWith`, `trim`, `isBlank`,
    `replace` and joining with a delimiter. A string is a sequence of code
    points, so indices and lengths count code points where Java counts UTF-16
    units; the two differ only for text outside the Basic Multilingual Plane. */
module Text {

  /** `t` occurs in `s` starting at index `k`. */
  predicate MatchAt(s: string, t: string, k: int)
  {
    0 <= k && k + |t| <= |s| && s[k..k + |t|] == t
  }

  /** `s.indexOf(t, from)`: the first occurrence of `t` at or after `from`, or -1.
      As in Java, an empty `t` searched from beyond the end is found at `|s|`. */
  function IndexOfFrom(s: string, t: string, from: nat): (r: int)
    ensures -1 <= r
    ensures from <= |s| ==> (r == -1 <==> forall k :: from <= k ==> !MatchAt(s, t, k))
    ensures from <= |s| && r != -1 ==>
      from <= r && MatchAt(s, t, r) && forall k :: from <= k < r ==> !MatchAt(s, t, k)
    ensures from > |s| ==> r == (if t == [] then |s| else -1)
    decreases |s| - from
  {
    if from > |s| then (if t == [] then |s| else -1)
    else if from + |t| > |s| then -1
    else if s[from..from + |t|] == t then assert MatchAt(s, t, from); from
    else IndexOfFrom(s, t, from + 1)
  }

  /** `s.indexOf(t)`. */
  function IndexOf(s: string, t: string): int
  {
    IndexOfFrom(s, t, 0)
  }

  /** The first occurrence of `t` at or after `from` is at `k`. */
  lemma {:induction false} FirstMatch(s: string, t: string, from: nat, k: int)
    requires from <= k && MatchAt(s, t, k)
    requires forall j :: from <= j < k ==> !MatchAt(s, t, j)
    ensures IndexOfFrom(s, t, from) == k
  {
    assert MatchAt(s, t, k);
  }

  /** A one-character pattern occurs exactly where that character stands. */
  lemma MatchAtChar(s: string, c: char, k: int)
    ensures MatchAt(s, [c], k) <==> 0 <= k < |s| && s[k] == c
  {
    if 0 <= k < |s| {
      assert s[k..k + 1] == [s[k]];
    }
  }

  /** An occurrence inside a prefix is an occurrence in the whole string. */
  lemma MatchInPrefix(s: string, t: string, n: nat, k: int)
    requires n <= |s| && MatchAt(s[..n], t, k)
    ensures MatchAt(s, t, k) && k + |t| <= n
  {
    assert s[..n][k..k + |t|] == s[k..k + |t|];
  }

  /** An occurrence inside a suffix is an occurrence in the whole string. */
  lemma MatchInSuffix(s: string, t: string, n: nat, k: int)
    requires n <= |s| && MatchAt(s[n..], t, k)
    ensures MatchAt(s, t, n + k)
  {
    assert s[n..][k..k + |t|] == s[n + k..n + k + |t|];
  }

  /** The first character of `c` in `s`. */
  lemma {:induction false} FirstChar(s: string, c: char, k: nat)
    requires k < |s| && s[k] == c && c !in s[..k]
    ensures IndexOf(s, [c]) == k
  {
    MatchAtChar(s, c, k);
    forall j | 0 <= j < k ensures !MatchAt(s, [c], j) {
      MatchAtChar(s, c, j);
      assert s[j] == s[..k][j];
    }
    FirstMatch(s, [c], 0, k);
  }

  /** A character that never occurs is never found. */
  lemma CharAbsent(s: string, c: char)
    requires c !in s
    ensures forall k :: !MatchAt(s, [c], k)
    ensures IndexOf(s, [c]) == -1
  {
    forall k ensures !MatchAt(s, [c], k) {
      MatchAtChar(s, c, k);
    }
  }

  predicate StartsWith(s: string, t: string)
  {
    |t| <= |s| && s[..|t|] == t
  }

  predicate EndsWith(s: string, t: string)
  {
    |t| <= |s| && s[|s| - |t|..] == t
  }

  /** The characters `String.trim` removes: every code point up to U+0020. */
  predicate IsTrimmable(c: char)
  {
    c <= ' '
  }

  function TrimStart(s: string): (r: string)
    ensures |r| <= |s| && r == s[|s| - |r|..]
    ensures r == [] || !IsTrimmable(r[0])
    ensures forall i :: 0 <= i < |s| - |r| ==> IsTrimmable(s[i])
  {
    if s != [] && IsTrimmable(s[0]) then TrimStart(s[1..]) else s
  }

  function TrimEnd(s: string): (r: string)
    ensures |r| <= |s| && r == s[..|r|]
    ensures r == [] || !IsTrimmable(r[|r| - 1])
    ensures forall i :: |r| <= i < |s| ==> IsTrimmable(s[i])
  {
    if s != [] && IsTrimmable(s[|s| - 1]) then TrimEnd(s[..|s| - 1]) else s
  }

  /** `r` is `s` without its first `i` and its last `|s| - i - |r|` characters,
      all of which `trim` removes. */
  predicate TrimmedAt(s: string, r: string, i: int)
  {
    && 0 <= i <= |s| - |r|
    && r == s[i..i + |r|]
    && (forall j :: 0 <= j < i ==> IsTrimmable(s[j]))
    && (forall j :: i + |r| <= j < |s| ==> IsTrimmable(s[j]))
  }

  /** `s.trim()`: the middle part of `s` that neither starts nor ends with a
      character up to U+0020; all that was removed is such characters. */
  function Trim(s: string): (r: string)
    ensures r == [] || (!IsTrimmable(r[0]) && !IsTrimmable(r[|r| - 1]))
    ensures exists i :: TrimmedAt(s, r, i)
    ensures (s == [] || (!IsTrimmable(s[0]) && !IsTrimmable(s[|s| - 1]))) ==> r == s
  {
    var a := TrimStart(s);
    var r := TrimEnd(a);
    TrimmedParts(s, a, r);
    r
  }

  /** Trimming the end of what was trimmed at the start leaves a middle part
      of `s` with only trimmable characters around it. */
  lemma TrimmedParts(s: string, a: string, r: string)
    requires |a| <= |s| && a == s[|s| - |a|..]
    requires forall i :: 0 <= i < |s| - |a| ==> IsTrimmable(s[i])
    requires |r| <= |a| && r == a[..|r|]
    requires forall i :: |r| <= i < |a| ==> IsTrimmable(a[i])
    ensures TrimmedAt(s, r, |s| - |a|)
  {
    var i := |s| - |a|;
    assert r == s[i..i + |r|];
    forall j | i + |r| <= j < |s| ensures IsTrimmable(s[j]) {
      assert s[j] == a[j - i];
    }
  }

  /** `Character.isWhitespace`: the Unicode space, line and paragraph separators
      other than the three no-break spaces, and the ASCII controls U+0009-U+000D
      and U+001C-U+001F. */
  predicate IsWhitespace(c: char)
  {
    || ('\t' <= c <= '\r')
    || ('\U{1C}' <= c <= ' ')
    || c == '\U{1680}'
    || ('\U{2000}' <= c <= '\U{200A}' && c != '\U{2007}')
    || c == '\U{2028}' || c == '\U{2029}' || c == '\U{205F}' || c == '\U{3000}'
  }

  /** `s.isBlank()`: empty or made only of whitespace. Blankness is not
      `trim().isEmpty()`, but on text up to U+0020 a blank string trims to
      nothing. */
  function IsBlank(s: string): (b: bool)
    ensures s == [] ==> b
    ensures b && (forall i :: 0 <= i < |s| ==> IsTrimmable(s[i])) ==> Trim(s) == []
  {
    forall i :: 0 <= i < |s| ==> IsWhitespace(s[i])
  }

  /** `String.join(d, xs)`. */
  function Join(xs: seq<string>, d: string): string
  {
    if xs == [] then "" else if |xs| == 1 then xs[0] else xs[0] + d + Join(xs[1..], d)
  }

  /** Joining one more element onto the end. */
  lemma {:induction false} JoinSnoc(xs: seq<string>, y: string, d: string)
    requires xs != []
    ensures Join(xs + [y], d) == Join(xs, d) + d + y
  {
    if |xs| > 1 {
      assert (xs + [y])[1..] == xs[1..] + [y];
      JoinSnoc(xs[1..], y, d);
    }
  }

  /** `s.replace(target, replacement)` for a non-empty target: every
      occurrence, found left to right without overlap, is replaced. */
  function ReplaceAll(s: string, target: string, replacement: string): (r: string)
    requires target != []
    ensures IndexOf(s, target) == -1 ==> r == s
    ensures replacement == target ==> r == s
    decreases |s|
  {
    var k := IndexOf(s, target);
    if k == -1 then s
    else
      assert MatchAt(s, target, k);
      assert s == s[..k] + target + s[k + |target|..];
      s[..k] + replacement + ReplaceAll(s[k + |target|..], target, replacement)
  }

  /** Without an occurrence of the target the string is unchanged. */
  lemma ReplaceAbsent(s: string, target: string, replacement: string)
    requires target != []
    requires forall k :: 0 <= k <= |s| - |target| ==> !MatchAt(s, target, k)
    ensures ReplaceAll(s, target, replacement) == s
  {
  }

  /** The first occurrence is replaced and the scan resumes after it. */
  lemma ReplaceFirst(pre: string, target: string, post: string, replacement: string)
    requires target != []
    requires forall k :: 0 <= k < |pre| ==> !MatchAt(pre + target + post, target, k)
    ensures ReplaceAll(pre + target + post, target, replacement)
         == pre + replacement + ReplaceAll(post, target, replacement)
  {
    var s := pre + target + post;
    assert s[|pre|..|pre| + |target|] == target;
    FirstMatch(s, target, 0, |pre|);
    assert s[..|pre|] == pre;
    assert s[|pre| + |target|..] == post;
  }
}
