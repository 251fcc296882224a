/**
 The few `java.lang.String` operations the resource manager relies on, over
 `seq<char>`: prefix and suffix tests, `indexOf`, `lastIndexOf`, `trim` and
 an ASCII `toLowerCase`.
 */
module Strings {

  predicate StartsWith(s: string, prefix: string) {
    |prefix| <= |s| && s[..|prefix|] == prefix
  }

  predicate EndsWith(s: string, suffix: string) {
    |suffix| <= |s| && s[|s| - |suffix|..] == suffix
  }

  /** `sub` occurs in `s` starting at index `i`. */
  predicate OccursAt(s: string, sub: string, i: int) {
    0 <= i && i + |sub| <= |s| && s[i..i + |sub|] == sub
  }

  /** Java's `s.indexOf(sub)`: the first index where `sub` occurs, or -1. */
  function IndexOf(s: string, sub: string): (r: int)
    ensures -1 <= r <= |s|
    ensures r == -1 <==> forall j :: !OccursAt(s, sub, j)
    ensures r >= 0 ==> OccursAt(s, sub, r)
    ensures forall j :: 0 <= j < r ==> !OccursAt(s, sub, j)
  {
    IndexFrom(s, sub, 0)
  }

  function IndexFrom(s: string, sub: string, from: nat): (r: int)
    requires from <= |s| + 1
    requires forall j :: 0 <= j < from ==> !OccursAt(s, sub, j)
    ensures -1 <= r <= |s|
    ensures r == -1 <==> forall j :: !OccursAt(s, sub, j)
    ensures r >= 0 ==> from <= r && OccursAt(s, sub, r)
    ensures forall j :: 0 <= j < r ==> !OccursAt(s, sub, j)
    decreases |s| + 1 - from
  {
    if from + |sub| > |s| then
      assert forall j :: from <= j ==> !OccursAt(s, sub, j);
      -1
    else if s[from..from + |sub|] == sub then
      assert OccursAt(s, sub, from);
      from
    else IndexFrom(s, sub, from + 1)
  }

  predicate Contains(s: string, sub: string) {
    IndexOf(s, sub) >= 0
  }

  /** Java's `s.lastIndexOf(c)`: the last index holding `c`, or -1. */
  function LastIndexOf(s: string, c: char): (r: int)
    ensures -1 <= r < |s|
    ensures r == -1 <==> c !in s
    ensures r >= 0 ==> s[r] == c
    ensures forall j :: r < j < |s| ==> s[j] != c
    decreases |s|
  {
    if |s| == 0 then -1
    else if s[|s| - 1] == c then |s| - 1
    else
      assert s == s[..|s| - 1] + [s[|s| - 1]];
      LastIndexOf(s[..|s| - 1], c)
  }

  /** The characters `String.trim` removes: every code unit up to U+0020. */
  predicate IsTrimmed(c: char) {
    c <= ' '
  }

  predicate AllTrimmed(s: string) {
    forall i :: 0 <= i < |s| ==> IsTrimmed(s[i])
  }

  /**
   The first index at or after `i` that holds no trimmable character: the
   forward loop of `String.trim`.
   */
  function TrimStartIndex(s: string, i: nat): (r: nat)
    requires i <= |s|
    ensures i <= r <= |s|
    ensures forall j :: i <= j < r ==> IsTrimmed(s[j])
    ensures r < |s| ==> !IsTrimmed(s[r])
    decreases |s| - i
  {
    if i < |s| && IsTrimmed(s[i]) then TrimStartIndex(s, i + 1) else i
  }

  /**
   The end of `s[lo..e]` once its trailing trimmable characters are dropped:
   the backward loop of `String.trim`, which never passes `lo`.
   */
  function TrimEndIndex(s: string, lo: nat, e: nat): (r: nat)
    requires lo <= e <= |s|
    ensures lo <= r <= e
    ensures forall j :: r <= j < e ==> IsTrimmed(s[j])
    ensures r > lo ==> !IsTrimmed(s[r - 1])
    decreases e
  {
    if e > lo && IsTrimmed(s[e - 1]) then TrimEndIndex(s, lo, e - 1) else e
  }

  /** Java's `s.trim()`: the part between the two loops' stopping points. */
  function Trim(s: string): (r: string)
    ensures TrimStartIndex(s, 0) + |r| <= |s|
    ensures r == s[TrimStartIndex(s, 0)..TrimStartIndex(s, 0) + |r|]
    ensures AllTrimmed(s[..TrimStartIndex(s, 0)])
    ensures AllTrimmed(s[TrimStartIndex(s, 0) + |r|..])
    ensures |r| > 0 ==> !IsTrimmed(r[0]) && !IsTrimmed(r[|r| - 1])
  {
    var start := TrimStartIndex(s, 0);
    var end := TrimEndIndex(s, start, |s|);
    assert forall j :: 0 <= j < |s| - end ==> s[end..][j] == s[end + j];
    s[start..end]
  }

  function ToLowerChar(c: char): char {
    if 'A' <= c <= 'Z' then (c as int - 'A' as int + 'a' as int) as char else c
  }

  /** Java's `s.toLowerCase()` restricted to ASCII letters. */
  function ToLower(s: string): (r: string)
    ensures |r| == |s|
    ensures forall i :: 0 <= i < |s| ==> r[i] == ToLowerChar(s[i])
  {
    seq(|s|, i requires 0 <= i < |s| => ToLowerChar(s[i]))
  }
}
