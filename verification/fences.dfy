/**
 * The markdown clean-up `process_text_into_protocols` applies to each model
 * reply (rag_preparation/data_pipeline.py): the JSON inside a "```json" fence,
 * or else inside a bare "```" fence, with surrounding whitespace stripped; a
 * reply without fences is used as it is.
 */
module Fences {
  import opened Wrappers
  import opened Text

  const JsonFence: string := "```json"
  const Fence: string := "```"

  /** Python's `s.split(sep)[0]`: the text before the first `sep`, or all of `s`. */
  function SplitFirst(s: string, sep: string): (r: string)
    ensures Find(s, sep).None? ==> r == s
    ensures Find(s, sep).Some? ==> r == s[..Find(s, sep).value]
  {
    match Find(s, sep)
    case None => s
    case Some(i) => s[..i]
  }

  /**
   * Python's `s.split(sep)[1]` when `sep` occurs: the text between the first `sep` and
   * the next one, or the end of `s` when there is no next one.
   */
  function SplitSecond(s: string, sep: string): (r: string)
    requires sep != [] && Contains(s, sep)
    ensures OccursAt(s, r, Find(s, sep).value + |sep|) && !Contains(r, sep)
    ensures var e := Find(s, sep).value + |sep| + |r|; e == |s| || OccursAt(s, sep, e)
  {
    var j := Find(s, sep).value + |sep|;
    SplitFirstOfSuffix(s, sep, j);
    SplitFirst(s[j..], sep)
  }

  /**
   * What `SplitFirst` keeps of the suffix of `s` from `j` occurs at `j`, holds no `sep`,
   * and ends at the end of `s` or at a `sep`.
   */
  lemma {:induction false} SplitFirstOfSuffix(s: string, sep: string, j: nat)
    requires sep != [] && j <= |s|
    ensures var r := SplitFirst(s[j..], sep);
      && OccursAt(s, r, j) && !Contains(r, sep)
      && (j + |r| == |s| || OccursAt(s, sep, j + |r|))
  {
    var rest := s[j..];
    CutIsFree(rest, sep);
    var r := SplitFirst(rest, sep);
    assert s[j..j + |r|] == r;
    if Find(rest, sep).Some? {
      var f := Find(rest, sep).value;
      assert rest[f..f + |sep|] == s[j + f..j + f + |sep|];
    }
  }

  /** The reply text that is handed to `json.loads`; a fenced reply loses at least its opening fence. */
  function StripFences(content: string): (r: string)
    ensures Contains(content, Fence) ==> |r| + |Fence| <= |content|
  {
    if Contains(content, JsonFence) then
      Strip(SplitFirst(SplitSecond(content, JsonFence), Fence))
    else if Contains(content, Fence) then
      Strip(SplitFirst(SplitSecond(content, Fence), Fence))
    else content
  }

  /** A reply without fences is used as it is; after cleaning, no fence is left in a reply that had one. */
  lemma {:induction false} StripFencesRemovesFences(content: string)
    ensures !Contains(content, Fence) ==> StripFences(content) == content
    ensures Contains(content, Fence) ==> !Contains(StripFences(content), Fence)
  {
    if Contains(content, JsonFence) {
      JsonFenceIsFence(content);
      FenceFree(SplitSecond(content, JsonFence));
    } else if Contains(content, Fence) {
      FenceFree(SplitSecond(content, Fence));
    }
  }

  /** A "```json" fence is also a bare fence. */
  lemma JsonFenceIsFence(s: string)
    requires Contains(s, JsonFence)
    ensures Contains(s, Fence)
  {
    JsonFenceStartsFence(s, Find(s, JsonFence).value);
  }

  /** What is left after cutting at the first fence and stripping contains no fence. */
  lemma {:induction false} FenceFree(s: string)
    ensures !Contains(Strip(SplitFirst(s, Fence)), Fence)
  {
    CutIsFree(s, Fence);
    StripKeepsAbsent(SplitFirst(s, Fence), Fence);
  }

  /** The text before the first occurrence of `p` does not contain `p`. */
  lemma {:induction false} CutIsFree(s: string, p: string)
    requires p != []
    ensures !Contains(SplitFirst(s, p), p)
  {
    var m := if Find(s, p).Some? then Find(s, p).value else |s|;
    assert SplitFirst(s, p) == s[0..m];
    forall j | 0 <= j ensures !OccursAt(s[0..m], p, j) {
      OccursInSlice(s, p, 0, m, j);
    }
  }

  /** Stripping whitespace cannot create an occurrence of `p`. */
  lemma {:induction false} StripKeepsAbsent(x: string, p: string)
    requires !Contains(x, p)
    ensures !Contains(Strip(x), p)
  {
    var r := Strip(x);
    var a := LeadingSpaces(x);
    assert r == x[a..a + |r|];
    forall j | 0 <= j ensures !OccursAt(r, p, j) {
      OccursInSlice(x, p, a, a + |r|, j);
    }
  }

  /** An occurrence inside a slice is an occurrence in the whole string. */
  lemma {:induction false} OccursInSlice(s: string, p: string, lo: nat, hi: nat, j: nat)
    requires lo <= hi <= |s|
    ensures OccursAt(s[lo..hi], p, j) ==> OccursAt(s, p, lo + j)
  {
    if OccursAt(s[lo..hi], p, j) {
      forall t | 0 <= t < |p| ensures s[lo + j + t] == p[t] {
        assert s[lo..hi][j..j + |p|][t] == s[lo + j + t];
      }
      assert s[lo + j..lo + j + |p|] == p;
    }
  }

  /** If `p` occurs in `s` at `k` and no earlier character starts `p`, `find` reports `k`. */
  lemma {:induction false} FoundAt(s: string, p: string, k: nat)
    requires p != [] && OccursAt(s, p, k)
    requires forall j :: 0 <= j < k ==> s[j] != p[0]
    ensures Find(s, p) == Some(k)
  {
    var r := Find(s, p);
    assert r.Some?;
    assert s[r.value..r.value + |p|] == p;
    assert s[r.value] == p[0];
  }

  /** A pattern whose first character does not appear in `s` is not found. */
  lemma {:induction false} NotFound(s: string, p: string)
    requires p != [] && p[0] !in s
    ensures Find(s, p).None?
  {
    assert forall j :: 0 <= j < |s| ==> s[j] != p[0];
  }

  /** The first occurrence of `p` is the one at `k` when `p` occurs there and nowhere earlier. */
  lemma {:induction false} FindIs(s: string, p: string, k: nat)
    requires OccursAt(s, p, k)
    requires forall j :: 0 <= j < k ==> !OccursAt(s, p, j)
    ensures Find(s, p) == Some(k)
  {
  }

  /** Searching a prefix finds the first occurrence of `p` only when it ends inside the prefix. */
  lemma {:induction false} FindInPrefix(s: string, p: string, m: nat)
    requires m <= |s|
    ensures var r := Find(s, p);
      Find(s[..m], p) == if r.Some? && r.value + |p| <= m then r else None
  {
    var r := Find(s, p);
    forall j | 0 <= j && OccursAt(s[..m], p, j) ensures OccursAt(s, p, j) {
      OccursInSlice(s, p, 0, m, j);
      assert s[..m] == s[0..m];
    }
    if r.Some? && r.value + |p| <= m {
      assert s[..m][r.value..r.value + |p|] == s[r.value..r.value + |p|];
      FindIs(s[..m], p, r.value);
    } else {
      assert forall j :: !OccursAt(s[..m], p, j);
    }
  }

  /** Every "```json" fence starts with a bare fence. */
  lemma JsonFenceStartsFence(s: string, k: nat)
    requires OccursAt(s, JsonFence, k)
    ensures OccursAt(s, Fence, k)
  {
    assert s[k..k + 3] == s[k..k + 7][..3];
  }

  /** Two "```json" fences cannot start one or two characters apart. */
  lemma JsonFencesApart(s: string, a: nat, b: nat)
    requires a < b <= a + 2
    ensures !(OccursAt(s, JsonFence, a) && OccursAt(s, JsonFence, b))
  {
    if OccursAt(s, JsonFence, a) && b + 7 <= |s| {
      assert s[a + 3] == s[a..a + 7][3] == 'j';
      assert s[b..b + 7][a + 3 - b] == s[a + 3];
    }
  }

  /**
   * A reply with a "```json" fence, in general: let `rest` be the text after
   * its first "```json" and `f` the first fence in `rest`. Without such a
   * fence the whole of `rest` is kept; otherwise the text before `f` is kept,
   * unless another "```json" starts one or two characters into that fence (a
   * run of four or five backticks), where the second split cuts there instead.
   */
  lemma {:induction false} JsonFenceContent(content: string)
    requires Contains(content, JsonFence)
    ensures var rest := content[Find(content, JsonFence).value + 7..];
      var f := Find(rest, Fence);
      && (f.None? ==> StripFences(content) == Strip(rest))
      && (f.Some? && !OccursAt(rest, JsonFence, f.value + 1) && !OccursAt(rest, JsonFence, f.value + 2)
          ==> StripFences(content) == Strip(rest[..f.value]))
      && (f.Some? && OccursAt(rest, JsonFence, f.value + 1) ==> StripFences(content) == Strip(rest[..f.value + 1]))
      && (f.Some? && OccursAt(rest, JsonFence, f.value + 2) ==> StripFences(content) == Strip(rest[..f.value + 2]))
  {
    var rest := content[Find(content, JsonFence).value + 7..];
    assert SplitSecond(content, JsonFence) == SplitFirst(rest, JsonFence);
    CutAfterJsonFence(rest);
  }

  /**
   * `x` is what the two splits keep of `rest`: all of it without a fence, else the text
   * before the first fence, or before a "```json" starting one or two characters into it.
   */
  predicate KeptBeforeFence(rest: string, x: string) {
    var f := Find(rest, Fence);
    && (f.None? ==> x == rest)
    && (f.Some? && !OccursAt(rest, JsonFence, f.value + 1) && !OccursAt(rest, JsonFence, f.value + 2)
        ==> x == rest[..f.value])
    && (f.Some? && OccursAt(rest, JsonFence, f.value + 1) ==> x == rest[..f.value + 1])
    && (f.Some? && OccursAt(rest, JsonFence, f.value + 2) ==> x == rest[..f.value + 2])
  }

  /** The text after the first "```json", split at the next "```json" and then at the next fence. */
  lemma {:induction false} CutAfterJsonFence(rest: string)
    ensures KeptBeforeFence(rest, SplitFirst(SplitFirst(rest, JsonFence), Fence))
  {
    var j := Find(rest, JsonFence);
    if j.Some? {
      CutAtJsonFence(rest, j.value);
    } else {
      assert SplitFirst(rest, JsonFence) == rest;
    }
  }

  /** The same when `rest` holds another "```json", first at `j`. */
  lemma {:induction false} CutAtJsonFence(rest: string, j: nat)
    requires Find(rest, JsonFence) == Some(j)
    ensures KeptBeforeFence(rest, SplitFirst(rest[..j], Fence))
  {
    JsonFenceStartsFence(rest, j);
    var v := Find(rest, Fence).value;
    FindInPrefix(rest, Fence, j);
    if j == v {
      JsonFencesApart(rest, v, v + 1);
      JsonFencesApart(rest, v, v + 2);
    } else if j == v + 1 {
      JsonFencesApart(rest, v + 1, v + 2);
    } else if j >= v + 3 {
      assert rest[..j][..v] == rest[..v];
    }
  }

  /**
   * A reply with a bare fence and no "```json" fence, in general: the text
   * after its first fence is kept up to the next fence, or to the end when
   * the fence is not closed.
   */
  lemma {:induction false} BareFenceContent(content: string)
    requires Contains(content, Fence) && !Contains(content, JsonFence)
    ensures var rest := content[Find(content, Fence).value + 3..];
      var f := Find(rest, Fence);
      && (f.None? ==> StripFences(content) == Strip(rest))
      && (f.Some? ==> StripFences(content) == Strip(rest[..f.value]))
  {
    var i := Find(content, Fence).value;
    var rest := content[i + 3..];
    var x := SplitFirst(rest, Fence);
    assert SplitSecond(content, Fence) == x;
    CutIsFree(rest, Fence);
    assert SplitFirst(x, Fence) == x;
  }

  /** A pattern whose first character is absent from `pre` is found right after `pre`. */
  lemma {:induction false} FoundAfter(pre: string, p: string, tail: string)
    requires p != [] && p[0] !in pre
    ensures Find(pre + p + tail, p) == Some(|pre|)
    ensures (pre + p + tail)[|pre| + |p|..] == tail
  {
    var c := pre + p + tail;
    assert c[|pre|..|pre| + |p|] == p;
    assert forall j :: 0 <= j < |pre| ==> c[j] == pre[j];
    FoundAt(c, p, |pre|);
  }

  /** A backtick-free body closed by a fence that is not followed by a backtick. */
  lemma {:induction false} ClosedBody(body: string, post: string)
    requires '`' !in body && (post == [] || post[0] != '`')
    ensures var rest := body + Fence + post;
      && Find(rest, Fence) == Some(|body|) && rest[..|body|] == body
      && !OccursAt(rest, JsonFence, |body| + 1) && !OccursAt(rest, JsonFence, |body| + 2)
  {
    var rest := body + Fence + post;
    FoundAfter(body, Fence, post);
    var v := |body|;
    assert rest[..v] == body;
    if v + 8 <= |rest| {
      assert rest[v + 1..v + 8][2] == rest[v + 3] == post[0];
    }
    if v + 9 <= |rest| {
      assert rest[v + 2..v + 9][1] == rest[v + 3] == post[0];
    }
  }

  /** A reply with a "```json" fence yields the stripped text inside it. */
  lemma {:induction false} JsonFenceUnwrapped(pre: string, body: string, post: string)
    requires '`' !in pre && '`' !in body
    requires post == [] || post[0] != '`'
    ensures StripFences(pre + JsonFence + body + Fence + post) == Strip(body)
  {
    var rest := body + Fence + post;
    var c := pre + JsonFence + rest;
    assert pre + JsonFence + body + Fence + post == c;
    FoundAfter(pre, JsonFence, rest);
    ClosedBody(body, post);
    JsonFenceContent(c);
  }

  /** A reply with a bare fence (and no "```json" anywhere) yields the stripped text inside it. */
  lemma {:induction false} BareFenceUnwrapped(pre: string, body: string, post: string)
    requires '`' !in pre && '`' !in body
    requires !Contains(pre + Fence + body + Fence + post, JsonFence)
    ensures StripFences(pre + Fence + body + Fence + post) == Strip(body)
  {
    var rest := body + Fence + post;
    assert pre + Fence + body + Fence + post == pre + Fence + rest;
    FoundAfter(pre, Fence, rest);
    FoundAfter(body, Fence, post);
    BareFenceContent(pre + Fence + rest);
    assert rest[..|body|] == body;
  }

  /** An unterminated "```json" fence yields everything after it, stripped. */
  lemma {:induction false} UnterminatedJsonFence(pre: string, body: string)
    requires '`' !in pre && '`' !in body
    ensures StripFences(pre + JsonFence + body) == Strip(body)
  {
    FoundAfter(pre, JsonFence, body);
    NotFound(body, Fence);
    JsonFenceContent(pre + JsonFence + body);
  }
}
