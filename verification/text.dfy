/**
 * The few Python `str` operations the core relies on: `isspace`, `strip`,
 * `startswith`, the `in` substring test, `find` and `" ".join`.
 */
module Text {
  import opened Wrappers

  /** The characters for which Python's `str.isspace()` holds; `strip()` removes exactly these. */
  predicate IsSpace(c: char) {
    || c == ' '
    || ('\t' <= c <= '\r')
    || ('\U{1c}' <= c <= '\U{1f}')
    || c == '\U{85}'
    || c == '\U{a0}'
    || c == '\U{1680}'
    || ('\U{2000}' <= c <= '\U{200a}')
    || c == '\U{2028}'
    || c == '\U{2029}'
    || c == '\U{202f}'
    || c == '\U{205f}'
    || c == '\U{3000}'
  }

  /** True when `s.strip()` is empty: every character is whitespace (so also for ""). */
  predicate IsBlank(s: string) {
    forall i :: 0 <= i < |s| ==> IsSpace(s[i])
  }

  /** The first index at or after `i` whose character is not whitespace, or `|s|`. */
  function SkipSpaces(s: string, i: nat): (n: nat)
    requires i <= |s|
    ensures i <= n <= |s|
    ensures forall j :: i <= j < n ==> IsSpace(s[j])
    ensures n < |s| ==> !IsSpace(s[n])
    decreases |s| - i
  {
    if i == |s| || !IsSpace(s[i]) then i else SkipSpaces(s, i + 1)
  }

  /** The end of `s[..i]` once its trailing whitespace is removed. */
  function TrimmedEnd(s: string, i: nat): (n: nat)
    requires i <= |s|
    ensures n <= i
    ensures forall j :: n <= j < i ==> IsSpace(s[j])
    ensures n > 0 ==> !IsSpace(s[n - 1])
    decreases i
  {
    if i == 0 || !IsSpace(s[i - 1]) then i else TrimmedEnd(s, i - 1)
  }

  /** The number of leading whitespace characters of `s`. */
  function LeadingSpaces(s: string): nat {
    SkipSpaces(s, 0)
  }

  /** Python's `s.strip()`: the slice of `s` left when whitespace is removed from both ends. */
  function Strip(s: string): (r: string)
    ensures r == [] <==> IsBlank(s)
    ensures r != [] ==> !IsSpace(r[0]) && !IsSpace(r[|r| - 1])
    ensures LeadingSpaces(s) + |r| <= |s| && r == s[LeadingSpaces(s)..LeadingSpaces(s) + |r|]
  {
    var a := SkipSpaces(s, 0);
    BlankSkipsAll(s);
    if a == |s| then []
    else
      StripBounds(s);
      s[a..TrimmedEnd(s, |s|)]
  }

  /** A string is blank exactly when skipping whitespace reaches its end. */
  lemma {:induction false} BlankSkipsAll(s: string)
    ensures IsBlank(s) <==> SkipSpaces(s, 0) == |s|
  {
  }

  /** A non-space character bounds the trailing whitespace: the stripped slice is not empty. */
  lemma {:induction false} StripBounds(s: string)
    requires SkipSpaces(s, 0) < |s|
    ensures SkipSpaces(s, 0) < TrimmedEnd(s, |s|)
    ensures !IsSpace(s[SkipSpaces(s, 0)]) && !IsSpace(s[TrimmedEnd(s, |s|) - 1])
  {
    var a := SkipSpaces(s, 0);
    assert !IsSpace(s[a]);
  }

  /** `SkipSpaces` stops exactly at the first non-space character. */
  lemma {:induction false} SkipSpacesAt(s: string, k: nat)
    requires k < |s| && !IsSpace(s[k]) && forall j :: 0 <= j < k ==> IsSpace(s[j])
    ensures SkipSpaces(s, 0) == k
  {
  }

  /** `TrimmedEnd` stops exactly after the last non-space character. */
  lemma {:induction false} TrimmedEndAt(s: string, k: nat)
    requires 0 < k <= |s| && !IsSpace(s[k - 1]) && forall j :: k <= j < |s| ==> IsSpace(s[j])
    ensures TrimmedEnd(s, |s|) == k
  {
  }

  /** Stripping undoes padding: whitespace around a body with non-space ends is all that `strip()` removes. */
  lemma {:induction false} StripPadded(pre: string, body: string, post: string)
    requires IsBlank(pre) && IsBlank(post)
    requires body != [] && !IsSpace(body[0]) && !IsSpace(body[|body| - 1])
    ensures Strip(pre + body + post) == body
  {
    var s := pre + body + post;
    assert forall j :: 0 <= j < |pre| ==> s[j] == pre[j];
    assert forall j :: |pre| + |body| <= j < |s| ==> s[j] == post[j - |pre| - |body|];
    assert s[|pre|] == body[0] && s[|pre| + |body| - 1] == body[|body| - 1];
    SkipSpacesAt(s, |pre|);
    TrimmedEndAt(s, |pre| + |body|);
    assert s[|pre|..|pre| + |body|] == body;
  }

  /** `strip()` is idempotent. */
  lemma {:induction false} StripIdempotent(s: string)
    ensures Strip(Strip(s)) == Strip(s)
  {
    var r := Strip(s);
    if r != [] {
      SkipSpacesAt(r, 0);
      TrimmedEndAt(r, |r|);
      assert r[0..|r|] == r;
    }
  }

  /** Python's `s.startswith(p)`. */
  predicate StartsWith(s: string, p: string) {
    |p| <= |s| && s[..|p|] == p
  }

  /** `p` occurs in `s` at index `i`. */
  predicate OccursAt(s: string, p: string, i: int) {
    0 <= i && i + |p| <= |s| && s[i..i + |p|] == p
  }

  /** Python's `s.find(p)` from index `from`, with -1 rendered as None: the first occurrence at or after `from`. */
  function FindFrom(s: string, p: string, from: nat): (r: Option<nat>)
    requires from <= |s|
    ensures r.Some? ==> from <= r.value && OccursAt(s, p, r.value)
    ensures forall j :: from <= j && (r.None? || j < r.value) ==> !OccursAt(s, p, j)
    decreases |s| - from
  {
    if from + |p| > |s| then None
    else if s[from..from + |p|] == p then Some(from)
    else FindFrom(s, p, from + 1)
  }

  /** Python's `s.find(p)`: the first occurrence of `p` in `s`. */
  function Find(s: string, p: string): (r: Option<nat>)
    ensures r.Some? ==> OccursAt(s, p, r.value)
    ensures forall j :: (r.None? || j < r.value) ==> !OccursAt(s, p, j)
  {
    FindFrom(s, p, 0)
  }

  /** Python's `p in s` on strings. */
  predicate Contains(s: string, p: string) {
    Find(s, p).Some?
  }

  /** Python's `" ".join(xs)`. */
  function JoinSpace(xs: seq<string>): (r: string)
  {
    if |xs| == 0 then ""
    else if |xs| == 1 then xs[0]
    else xs[0] + " " + JoinSpace(xs[1..])
  }

  /** The joined text is as long as its parts together plus one space between each two neighbours. */
  lemma {:induction false} JoinSpaceLength(xs: seq<string>)
    ensures |xs| > 0 ==> |JoinSpace(xs)| == SumLengths(xs) + |xs| - 1
    ensures |xs| == 0 ==> JoinSpace(xs) == ""
  {
    if |xs| > 1 {
      JoinSpaceLength(xs[1..]);
    }
  }

  function SumLengths(xs: seq<string>): nat {
    if xs == [] then 0 else |xs[0]| + SumLengths(xs[1..])
  }

  /** A joined text is blank exactly when every part is blank (the separator is whitespace). */
  lemma {:induction false} JoinSpaceBlank(xs: seq<string>)
    ensures IsBlank(JoinSpace(xs)) <==> forall i :: 0 <= i < |xs| ==> IsBlank(xs[i])
  {
    if |xs| > 1 {
      JoinSpaceBlank(xs[1..]);
      var rest := JoinSpace(xs[1..]);
      var r := xs[0] + " " + rest;
      assert r == JoinSpace(xs);
      if IsBlank(r) {
        assert IsBlank(xs[0]) by {
          forall i | 0 <= i < |xs[0]| ensures IsSpace(xs[0][i]) { assert r[i] == xs[0][i]; }
        }
        assert IsBlank(rest) by {
          forall i | 0 <= i < |rest| ensures IsSpace(rest[i]) { assert r[|xs[0]| + 1 + i] == rest[i]; }
        }
        forall i | 0 <= i < |xs| ensures IsBlank(xs[i]) {
          if i > 0 { assert xs[i] == xs[1..][i - 1]; }
        }
      } else {
        var k :| 0 <= k < |r| && !IsSpace(r[k]);
        if k < |xs[0]| {
          assert r[k] == xs[0][k];
        } else {
          assert k > |xs[0]|;
          assert r[k] == rest[k - |xs[0]| - 1];
          var j :| 0 <= j < |xs[1..]| && !IsBlank(xs[1..][j]);
          assert xs[j + 1] == xs[1..][j];
        }
      }
    }
  }
}
