/**
 * `FileUtils.path`: normalises a file path written with `\` or `/`
 * separators into one written with single `/` separators, then puts back a
 * leading and a trailing `/` by three rules that look only at the first and
 * last characters of the original string.
 */
module FileUtils {
  import opened Strings

  /** The two characters `path` treats as separators. */
  const Separators: set<char> := {'/', '\\'}

  /** A segment produced by commons-lang `split`: non-empty, no separator in it. */
  predicate IsToken(t: string, seps: set<char>) {
    |t| > 0 && forall k :: 0 <= k < |t| ==> t[k] !in seps
  }

  /** Length of the run of non-separator characters at the front of `s`. */
  function TokenLength(s: string, seps: set<char>): (n: nat)
    ensures n <= |s|
    ensures forall k :: 0 <= k < n ==> s[k] !in seps
    ensures n < |s| ==> s[n] in seps
    decreases |s|
  {
    if |s| == 0 || s[0] in seps then 0 else 1 + TokenLength(s[1..], seps)
  }

  /**
   * commons-lang `StringUtils.split(s, separatorChars)`: the maximal runs of
   * characters outside the separator set, in order; adjacent separators
   * give no empty segment.
   */
  function Split(s: string, seps: set<char>): (segments: seq<string>)
    ensures forall i :: 0 <= i < |segments| ==> IsToken(segments[i], seps)
    decreases |s|
  {
    if |s| == 0 then []
    else if s[0] in seps then Split(s[1..], seps)
    else
      var n := TokenLength(s, seps);
      [s[..n]] + Split(s[n..], seps)
  }

  /** commons-lang `StringUtils.join(array, sep)`. */
  function Join(parts: seq<string>, sep: string): string {
    if |parts| == 0 then ""
    else if |parts| == 1 then parts[0]
    else parts[0] + sep + Join(parts[1..], sep)
  }

  /** The non-empty segments of `s`, split on either separator. */
  function Segments(s: string): seq<string> {
    Split(s, Separators)
  }

  /** `s` holds at least one character that is not a separator. */
  predicate HasName(s: string) {
    exists k :: 0 <= k < |s| && s[k] !in Separators
  }

  predicate StartsWithSeparator(s: string) {
    |s| > 0 && s[0] in Separators
  }

  predicate EndsWithSeparator(s: string) {
    |s| > 0 && s[|s| - 1] in Separators
  }

  /** `FileUtils.path(String)` on a non-null argument, step by step. */
  function Path(path: string): string {
    var replaced := Replace(path, "\\", "/");
    var joined := Join(Split(replaced, {'/'}), "/");
    var withLead :=
      if !StartsWithAny(joined, ["/"]) && StartsWithAny(path, ["\\", "/"]) then joined + "/" else joined;
    var withTrail :=
      if !EndsWithAny(withLead, ["/"]) && EndsWithAny(path, ["\\", "/"]) then withLead + "/" else withLead;
    if StartsWith(path, "/") then "/" + withTrail else withTrail
  }

  /** The `/` that `path` puts in front: only for an input starting with `/`. */
  function Lead(path: string): string {
    if StartsWith(path, "/") then "/" else ""
  }

  /** The `/` that `path` puts at the end: for an input starting or ending
      with either separator. */
  function Trail(path: string): string {
    if StartsWithSeparator(path) || EndsWithSeparator(path) then "/" else ""
  }

  // ---------------------------------------------------------------------
  // Facts about Split and Join
  // ---------------------------------------------------------------------

  /** A token followed by a separator (or nothing) is read back as one run. */
  lemma {:induction false} TokenLengthOfToken(t: string, rest: string, seps: set<char>)
    requires IsToken(t, seps)
    requires |rest| == 0 || rest[0] in seps
    ensures TokenLength(t + rest, seps) == |t|
    decreases |t|
  {
    var s := t + rest;
    assert s[0] == t[0];
    if |t| > 1 {
      assert s[1..] == t[1..] + rest;
      TokenLengthOfToken(t[1..], rest, seps);
    } else {
      assert s[1..] == rest;
    }
  }

  /** Splitting a token followed by a separated remainder yields the token first. */
  lemma SplitToken(t: string, rest: string, seps: set<char>)
    requires IsToken(t, seps)
    requires |rest| == 0 || rest[0] in seps
    ensures Split(t + rest, seps) == [t] + Split(rest, seps)
  {
    var s := t + rest;
    TokenLengthOfToken(t, rest, seps);
    assert s[0] == t[0];
    assert s[..|t|] == t;
    assert s[|t|..] == rest;
  }

  /**
   * Splitting a joined list of tokens, followed by a suffix that starts
   * with a separator, gives back the tokens and then the suffix's segments.
   */
  lemma {:induction false} SplitJoin(parts: seq<string>, sep: string, seps: set<char>, suffix: string)
    requires |sep| == 1 && sep[0] in seps
    requires forall i :: 0 <= i < |parts| ==> IsToken(parts[i], seps)
    requires |suffix| == 0 || suffix[0] in seps
    ensures Split(Join(parts, sep) + suffix, seps) == parts + Split(suffix, seps)
    decreases |parts|
  {
    if |parts| == 0 {
      assert Join(parts, sep) + suffix == suffix;
    } else if |parts| == 1 {
      SplitToken(parts[0], suffix, seps);
    } else {
      var rest := Join(parts[1..], sep) + suffix;
      SplitJoin(parts[1..], sep, seps, suffix);
      SplitJoinStep(parts, sep, seps, suffix, rest);
    }
  }

  lemma SplitJoinStep(parts: seq<string>, sep: string, seps: set<char>, suffix: string, rest: string)
    requires |sep| == 1 && sep[0] in seps
    requires |parts| > 1 && IsToken(parts[0], seps)
    requires rest == Join(parts[1..], sep) + suffix
    requires Split(rest, seps) == parts[1..] + Split(suffix, seps)
    ensures Split(Join(parts, sep) + suffix, seps) == parts + Split(suffix, seps)
  {
    var head, tail := parts[0], sep + rest;
    assert Split(tail, seps) == Split(rest, seps) by {
      assert tail[1..] == rest;
    }
    assert Split(head + tail, seps) == [head] + Split(tail, seps) by {
      SplitToken(head, tail, seps);
    }
    JoinUnfold(parts, sep, suffix);
    calc {
      Split(Join(parts, sep) + suffix, seps);
      Split(head + tail, seps);
      [head] + Split(tail, seps);
      [head] + (parts[1..] + Split(suffix, seps));
      { assert [head] + (parts[1..] + Split(suffix, seps)) == ([head] + parts[1..]) + Split(suffix, seps); }
      ([head] + parts[1..]) + Split(suffix, seps);
      { assert parts == [head] + parts[1..]; }
      parts + Split(suffix, seps);
    }
  }

  /** A joined list of two or more parts, followed by a suffix, is its first
      part, the separator, and the rest joined and followed by the suffix. */
  lemma JoinUnfold(parts: seq<string>, sep: string, suffix: string)
    requires |parts| > 1
    ensures Join(parts, sep) + suffix == parts[0] + (sep + (Join(parts[1..], sep) + suffix))
  {
    var j := Join(parts[1..], sep);
    assert Join(parts, sep) == parts[0] + sep + j;
    assert parts[0] + sep + j + suffix == (parts[0] + sep) + (j + suffix);
  }

  /**
   * Split only sees which characters are separators: two strings of the same
   * length that agree on where the separators stand and on every other
   * character split into the same segments.
   */
  lemma {:induction false} SplitSameShape(a: string, sa: set<char>, b: string, sb: set<char>)
    requires |a| == |b|
    requires forall k :: 0 <= k < |a| ==> (a[k] in sa <==> b[k] in sb)
    requires forall k :: 0 <= k < |a| && a[k] !in sa ==> a[k] == b[k]
    ensures Split(a, sa) == Split(b, sb)
    decreases |a|
  {
    if |a| > 0 {
      if a[0] in sa {
        SplitSameShape(a[1..], sa, b[1..], sb);
      } else {
        var n := TokenLength(a, sa);
        SameTokenLength(a, sa, b, sb);
        assert a[..n] == b[..n];
        SplitSameShape(a[n..], sa, b[n..], sb);
      }
    }
  }

  lemma {:induction false} SameTokenLength(a: string, sa: set<char>, b: string, sb: set<char>)
    requires |a| == |b|
    requires forall k :: 0 <= k < |a| ==> (a[k] in sa <==> b[k] in sb)
    ensures TokenLength(a, sa) == TokenLength(b, sb)
    decreases |a|
  {
    if |a| > 0 && a[0] !in sa {
      SameTokenLength(a[1..], sa, b[1..], sb);
    }
  }

  /** Split gives no segment exactly when every character is a separator. */
  lemma {:induction false} SplitEmpty(s: string, seps: set<char>)
    ensures Split(s, seps) == [] <==> forall k :: 0 <= k < |s| ==> s[k] in seps
    decreases |s|
  {
    if |s| > 0 && s[0] in seps {
      SplitEmpty(s[1..], seps);
      assert forall k :: 1 <= k < |s| ==> s[k] == s[1..][k - 1];
    }
  }

  /** Every character of a joined list of tokens is the separator or a token
      character, and its first and last characters are token characters. */
  lemma {:induction false} JoinShape(parts: seq<string>, sep: string, seps: set<char>)
    requires |sep| == 1
    requires forall i :: 0 <= i < |parts| ==> IsToken(parts[i], seps)
    ensures |parts| == 0 <==> Join(parts, sep) == ""
    ensures forall k :: 0 <= k < |Join(parts, sep)| ==>
              Join(parts, sep)[k] == sep[0] || Join(parts, sep)[k] !in seps
    ensures |parts| > 0 ==> Join(parts, sep)[0] !in seps && Join(parts, sep)[|Join(parts, sep)| - 1] !in seps
    decreases |parts|
  {
    if |parts| > 1 {
      JoinShape(parts[1..], sep, seps);
      var head, tail := parts[0], Join(parts[1..], sep);
      var j := Join(parts, sep);
      assert j == head + sep + tail;
      forall k | 0 <= k < |j|
        ensures j[k] == sep[0] || j[k] !in seps
      {
        if k < |head| {
          assert j[k] == head[k];
        } else if k == |head| {
          assert j[k] == sep[0];
        } else {
          assert j[k] == tail[k - |head| - 1];
        }
      }
      assert j[|j| - 1] == tail[|tail| - 1];
    }
  }

  /** After the first two steps of `path`, the separators are exactly `/`
      and the segments are those of the original string. */
  lemma SegmentsOfReplaced(path: string)
    ensures Split(Replace(path, "\\", "/"), {'/'}) == Segments(path)
  {
    var r := Replace(path, "\\", "/");
    ReplaceCharPointwise(path, '\\', '/');
    SplitSameShape(path, Separators, r, {'/'});
  }

  /** A string without `\` has the same segments whether split on `/` or on both. */
  lemma SegmentsWithoutBackslash(s: string)
    requires forall k :: 0 <= k < |s| ==> s[k] != '\\'
    ensures Segments(s) == Split(s, {'/'})
  {
    SplitSameShape(s, Separators, s, {'/'});
  }

  lemma StartsWithAnySeparator(s: string)
    ensures StartsWithAny(s, ["\\", "/"]) <==> StartsWithSeparator(s)
  {
    if StartsWithSeparator(s) {
      if s[0] == '\\' {
        assert StartsWith(s, ["\\", "/"][0]);
      } else {
        assert StartsWith(s, ["\\", "/"][1]);
      }
    }
  }

  lemma EndsWithAnySeparator(s: string)
    ensures EndsWithAny(s, ["\\", "/"]) <==> EndsWithSeparator(s)
  {
    if EndsWithSeparator(s) {
      if s[|s| - 1] == '\\' {
        assert EndsWith(s, ["\\", "/"][0]);
      } else {
        assert EndsWith(s, ["\\", "/"][1]);
      }
    }
  }

  // ---------------------------------------------------------------------
  // What `path` computes
  // ---------------------------------------------------------------------

  /**
   * The shape of every result: an optional leading `/` (only when the input
   * starts with `/`), the segments joined by single `/`, and an optional
   * trailing `/` (when the input starts or ends with either separator).
   */
  lemma PathShape(path: string)
    ensures Path(path) == Lead(path) + Join(Segments(path), "/") + Trail(path)
  {
    SegmentsOfReplaced(path);
    StartsWithAnySeparator(path);
    EndsWithAnySeparator(path);
    JoinedHasNoEdgeSlash(path);
  }

  /** The joined segments neither start with `/`, nor end with it unless
      `path` appends one after them. */
  lemma JoinedHasNoEdgeSlash(path: string)
    ensures !StartsWithAny(Join(Segments(path), "/"), ["/"])
    ensures var joined := Join(Segments(path), "/");
            var withLead := if StartsWithSeparator(path) then joined + "/" else joined;
            EndsWithAny(withLead, ["/"]) <==> StartsWithSeparator(path)
  {
    var joined := Join(Segments(path), "/");
    JoinShape(Segments(path), "/", Separators);
    if |joined| > 0 {
      assert joined[0] !in Separators;
      assert !StartsWith(joined, ["/"][0]);
    }
    var withLead := if StartsWithSeparator(path) then joined + "/" else joined;
    if StartsWithSeparator(path) {
      assert EndsWith(withLead, ["/"][0]);
    } else if |withLead| > 0 {
      assert withLead[|withLead| - 1] !in Separators;
      assert !EndsWith(withLead, ["/"][0]);
    }
  }

  /** The result never holds a backslash. */
  lemma PathHasNoBackslash(path: string)
    ensures forall k :: 0 <= k < |Path(path)| ==> Path(path)[k] != '\\'
  {
    PathShape(path);
    var joined := Join(Segments(path), "/");
    JoinShape(Segments(path), "/", Separators);
    var p := Path(path);
    forall k | 0 <= k < |p|
      ensures p[k] != '\\'
    {
      var lead := Lead(path);
      if |lead| <= k < |lead| + |joined| {
        assert p[k] == joined[k - |lead|];
      }
    }
  }

  /** Split on `/`, the result has exactly the non-empty segments of the
      input split on either separator, in the same order. */
  lemma PathKeepsSegments(path: string)
    ensures Split(Path(path), {'/'}) == Segments(path)
  {
    var lead, trail := Lead(path), Trail(path);
    var rest := Join(Segments(path), "/") + trail;
    assert Split(rest, {'/'}) == Segments(path) by {
      forall i | 0 <= i < |Segments(path)|
        ensures IsToken(Segments(path)[i], {'/'})
      {
        assert IsToken(Segments(path)[i], Separators);
      }
      SplitJoin(Segments(path), "/", {'/'}, trail);
      assert Split(trail, {'/'}) == [] by {
        if trail == "/" {
          assert trail[1..] == "";
        }
      }
    }
    assert Path(path) == lead + rest by {
      PathShape(path);
    }
    if lead == "/" {
      var s := "/" + rest;
      assert s[0] == '/' && s[1..] == rest;
      assert Split(s, {'/'}) == Split(rest, {'/'});
    } else {
      assert lead + rest == rest;
    }
  }

  /** A leading `/` is kept; a leading `\` gives no leading `/` as soon as the
      input names something. */
  lemma PathLeadingSlash(path: string)
    ensures StartsWith(path, "/") ==> StartsWith(Path(path), "/")
    ensures |path| > 0 && path[0] == '\\' && HasName(path) ==> !StartsWith(Path(path), "/")
  {
    PathShape(path);
    JoinShape(Segments(path), "/", Separators);
    SplitEmpty(path, Separators);
    if |path| > 0 && path[0] == '\\' && HasName(path) {
      assert Path(path) == Join(Segments(path), "/") + Trail(path);
      assert Path(path)[0] == Join(Segments(path), "/")[0];
    }
  }

  /** The result ends with `/` exactly when the input starts or ends with a
      separator (the leading-separator rule appends rather than prepends). */
  lemma PathTrailingSlash(path: string)
    ensures EndsWith(Path(path), "/") <==> StartsWithSeparator(path) || EndsWithSeparator(path)
  {
    PathShape(path);
    var p := Path(path);
    var joined := Join(Segments(path), "/");
    JoinShape(Segments(path), "/", Separators);
    if Trail(path) == "" {
      SplitEmpty(path, Separators);
      if |path| > 0 {
        assert p == joined && |joined| > 0;
        assert p[|p| - 1] !in Separators;
      }
    }
  }

  /** An input that neither starts nor ends with a separator becomes its
      segments joined by single `/`, with no `/` at either end. */
  lemma PathWithoutEdgeSeparators(path: string)
    requires !StartsWithSeparator(path) && !EndsWithSeparator(path)
    ensures Path(path) == Join(Segments(path), "/")
    ensures !StartsWith(Path(path), "/") && !EndsWith(Path(path), "/")
  {
    PathShape(path);
    PathTrailingSlash(path);
    JoinShape(Segments(path), "/", Separators);
  }

  /** Normalising twice is normalising once, for any input that names
      something. */
  lemma PathIdempotent(path: string)
    requires HasName(path)
    ensures Path(Path(path)) == Path(path)
  {
    var p := Path(path);
    var segs := Segments(path);
    var joined := Join(segs, "/");
    PathShape(path);
    PathHasNoBackslash(path);
    PathKeepsSegments(path);
    SegmentsWithoutBackslash(p);
    assert Segments(p) == segs;
    SplitEmpty(path, Separators);
    JoinShape(segs, "/", Separators);
    PathShape(p);
    assert p == Lead(path) + joined + Trail(path);
    // p starts with `/` exactly when path does, and it never starts with `\`.
    assert StartsWith(p, "/") <==> StartsWith(path, "/") by {
      if !StartsWith(path, "/") {
        assert p[0] == joined[0];
      }
    }
    assert StartsWithSeparator(p) <==> StartsWith(path, "/");
    // p ends with a separator exactly when path starts or ends with one.
    assert EndsWithSeparator(p) <==> Trail(path) == "/" by {
      if Trail(path) == "" {
        assert p[|p| - 1] == joined[|joined| - 1];
      }
    }
    assert Lead(p) == Lead(path);
    assert Trail(p) == Trail(path);
  }

  /** A non-empty input made only of separators has no segments: it becomes
      a single `/`, with a second one in front when it starts with `/`. */
  lemma PathOfSeparatorsOnly(path: string)
    requires |path| > 0 && !HasName(path)
    ensures Path(path) == Lead(path) + "/"
  {
    PathShape(path);
    SplitEmpty(path, Separators);
    assert Join(Segments(path), "/") == "";
    assert Trail(path) == "/";
  }

  /** Inputs made only of separators are not normalised idempotently unless
      they start with `/`: a second pass always gives `//`, so `\` becomes
      `/` and then `//`, while `/` becomes `//` and stays there. */
  lemma PathTwiceOnSeparatorsOnly(path: string)
    requires |path| > 0 && !HasName(path)
    ensures Path(Path(path)) == "//"
    ensures Path(Path(path)) == Path(path) <==> StartsWith(path, "/")
  {
    PathOfSeparatorsOnly(path);
    var once := Path(path);
    assert forall k :: 0 <= k < |once| ==> once[k] == '/';
    assert StartsWith(once, "/");
    PathOfSeparatorsOnly(once);
  }
}
