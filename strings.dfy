/**
 * The string primitives the core relies on: Java's `String.startsWith`,
 * `String.endsWith`, `String.replace(CharSequence, CharSequence)`, SQL's
 * `LIKE '%t%'` (substring test) and commons-lang's `isBlank`,
 * `startsWithAny` and `endsWithAny`.
 */
module Strings {

  /** `Character.isWhitespace`: the ASCII controls it lists and the Unicode
      space, line and paragraph separators other than the non-breaking ones. */
  predicate IsWhitespace(c: char) {
    || c == ' ' || c == '\t' || c == '\n' || c == '\U{000B}' || c == '\U{000C}' || c == '\r'
    || ('\U{001C}' <= c <= '\U{001F}')
    || c == '\U{1680}'
    || ('\U{2000}' <= c <= '\U{2006}') || ('\U{2008}' <= c <= '\U{200A}')
    || c == '\U{2028}' || c == '\U{2029}' || c == '\U{205F}' || c == '\U{3000}'
  }

  /** commons-lang `StringUtils.isBlank` on a non-null string: empty or only whitespace. */
  predicate IsBlank(s: string) {
    forall k :: 0 <= k < |s| ==> IsWhitespace(s[k])
  }

  predicate StartsWith(s: string, prefix: string) {
    |prefix| <= |s| && s[..|prefix|] == prefix
  }

  predicate EndsWith(s: string, suffix: string) {
    |suffix| <= |s| && s[|s| - |suffix|..] == suffix
  }

  /** commons-lang `StringUtils.startsWithAny`: false on an empty string or an
      empty list, otherwise true when one of the candidates is a prefix. */
  predicate StartsWithAny(s: string, prefixes: seq<string>) {
    |s| > 0 && exists k :: 0 <= k < |prefixes| && StartsWith(s, prefixes[k])
  }

  /** commons-lang `StringUtils.endsWithAny`, symmetric to StartsWithAny. */
  predicate EndsWithAny(s: string, suffixes: seq<string>) {
    |s| > 0 && exists k :: 0 <= k < |suffixes| && EndsWith(s, suffixes[k])
  }

  /** `t` occurs in `s` at some position (SQL `s LIKE '%t%'` for a `t`
      without wildcard characters). */
  predicate Contains(s: string, t: string)
    decreases |s|
  {
    if |s| < |t| then false else s[..|t|] == t || Contains(s[1..], t)
  }

  /**
   * Java's `String.replace(target, replacement)`: scans left to right and
   * replaces every non-overlapping occurrence of `target`. An empty target
   * matches before every character and at the end, so the replacement is
   * inserted |s| + 1 times. commons-lang `StringUtils.replace` agrees with
   * it whenever the target is not empty.
   */
  function Replace(s: string, target: string, replacement: string): string
    decreases |s|
  {
    if |target| == 0 then
      if |s| == 0 then replacement else replacement + [s[0]] + Replace(s[1..], target, replacement)
    else if |s| < |target| then s
    else if s[..|target|] == target then replacement + Replace(s[|target|..], target, replacement)
    else [s[0]] + Replace(s[1..], target, replacement)
  }

  /** Replacing a string by itself changes nothing, whatever the target. */
  lemma {:induction false} ReplaceBySelf(s: string, target: string)
    ensures Replace(s, target, target) == s
    decreases |s|
  {
    if |target| == 0 {
      if |s| > 0 {
        ReplaceBySelf(s[1..], target);
        assert s == [s[0]] + s[1..];
      }
    } else if |s| >= |target| {
      if s[..|target|] == target {
        ReplaceBySelf(s[|target|..], target);
        assert s == s[..|target|] + s[|target|..];
      } else {
        ReplaceBySelf(s[1..], target);
        assert s == [s[0]] + s[1..];
      }
    }
  }

  /** A string that starts with a non-empty target has that occurrence replaced. */
  lemma ReplaceAtStart(target: string, rest: string, replacement: string)
    requires |target| > 0
    ensures Replace(target + rest, target, replacement) == replacement + Replace(rest, target, replacement)
  {
    var s := target + rest;
    assert s[..|target|] == target;
    assert s[|target|..] == rest;
  }

  /** A string without an occurrence of a non-empty target is left as it is. */
  lemma {:induction false} ReplaceWhenAbsent(s: string, target: string, replacement: string)
    requires |target| > 0 && !Contains(s, target)
    ensures Replace(s, target, replacement) == s
    decreases |s|
  {
    if |s| >= |target| {
      ReplaceWhenAbsent(s[1..], target, replacement);
      assert s == [s[0]] + s[1..];
    }
  }

  /** Replacing a single character by a single character maps the string
      character by character and keeps its length. */
  lemma {:induction false} ReplaceCharPointwise(s: string, c: char, d: char)
    ensures |Replace(s, [c], [d])| == |s|
    ensures forall k :: 0 <= k < |s| ==> Replace(s, [c], [d])[k] == (if s[k] == c then d else s[k])
    decreases |s|
  {
    if |s| > 0 {
      ReplaceCharPointwise(s[1..], c, d);
      assert (s[..1] == [c]) == (s[0] == c);
      var r := Replace(s, [c], [d]);
      var tail := Replace(s[1..], [c], [d]);
      assert r == [if s[0] == c then d else s[0]] + tail;
      forall k | 0 <= k < |s|
        ensures r[k] == (if s[k] == c then d else s[k])
      {
        if k > 0 {
          assert r[k] == tail[k - 1];
          assert s[k] == s[1..][k - 1];
        }
      }
    }
  }
}
