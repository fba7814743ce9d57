/**
 * Cutting a string at a list of spans and putting it back together.  Both the table placeholders
 * and the thread splitter cut the text this way: the placeholder codec keeps the text between
 * tables and puts an id where each table was; `re.split` keeps the text between header blocks.
 */
module Spans {
  import opened Strings

  /** A half-open range `[lo, hi)` of positions of a string. */
  datatype Span = Span(lo: int, hi: int)

  /** Where gap `k` starts: 0, or the end of span `k - 1`. */
  function GapLo(spans: seq<Span>, k: nat): int
    requires k <= |spans|
  {
    if k == 0 then 0 else spans[k - 1].hi
  }

  /** Where gap `k` stops: the start of span `k`, or the end of the string. */
  function GapHi(s: string, spans: seq<Span>, k: nat): int
    requires k <= |spans|
  {
    if k == |spans| then |s| else spans[k].lo
  }

  /** The text before, between and after the spans, taken as Python slices. */
  function Gaps(s: string, spans: seq<Span>): (g: seq<string>)
    ensures |g| == |spans| + 1
  {
    seq(|spans| + 1, k requires 0 <= k <= |spans| => Slice(s, GapLo(spans, k), GapHi(s, spans, k)))
  }

  /** The text inside each span. */
  function Pieces(s: string, spans: seq<Span>): (m: seq<string>)
    ensures |m| == |spans|
  {
    seq(|spans|, k requires 0 <= k < |spans| => Slice(s, spans[k].lo, spans[k].hi))
  }

  /** `g[0] + sep + m[0] + sep + g[1] + ... + sep + m[n-1] + sep + g[n]`. */
  function Weave(g: seq<string>, m: seq<string>, sep: string): string
    requires |g| == |m| + 1
    decreases |m|
  {
    if m == [] then g[0]
    else Weave(g[..|m|], m[..|m| - 1], sep) + sep + m[|m| - 1] + sep + g[|m|]
  }

  /** The spans lie inside `s`, in order, without overlapping. */
  predicate Ordered(s: string, spans: seq<Span>) {
    && (forall k :: 0 <= k < |spans| ==> 0 <= spans[k].lo <= spans[k].hi <= |s|)
    && (forall k :: 0 < k < |spans| ==> spans[k - 1].hi <= spans[k].lo)
  }

  /** Interleaving the gaps with the spanned pieces rebuilds the string. */
  lemma Rebuild(s: string, spans: seq<Span>)
    requires Ordered(s, spans)
    ensures Weave(Gaps(s, spans), Pieces(s, spans), []) == s
  {
    RebuildPrefix(s, spans, |spans|);
    assert Gaps(s, spans)[..|spans| + 1] == Gaps(s, spans);
    assert Pieces(s, spans)[..|spans|] == Pieces(s, spans);
  }

  lemma WeaveLast(g: seq<string>, m: seq<string>, sep: string)
    requires |g| == |m| + 1 && m != []
    ensures Weave(g, m, sep) == Weave(g[..|m|], m[..|m| - 1], sep) + sep + m[|m| - 1] + sep + g[|m|]
  {
  }

  /** Around span `i - 1`: the piece and the gap after it, as plain slices. */
  lemma SpanNeighbours(s: string, spans: seq<Span>, i: nat)
    requires Ordered(s, spans) && 0 < i <= |spans|
    ensures 0 <= spans[i - 1].lo <= spans[i - 1].hi <= GapHi(s, spans, i) <= |s|
    ensures GapHi(s, spans, i - 1) == spans[i - 1].lo
    ensures Pieces(s, spans)[i - 1] == s[spans[i - 1].lo..spans[i - 1].hi]
    ensures Gaps(s, spans)[i] == s[spans[i - 1].hi..GapHi(s, spans, i)]
  {
  }

  lemma {:induction false} RebuildPrefix(s: string, spans: seq<Span>, i: nat)
    requires Ordered(s, spans) && i <= |spans|
    ensures Weave(Gaps(s, spans)[..i + 1], Pieces(s, spans)[..i], []) == s[..GapHi(s, spans, i)]
  {
    var g, m := Gaps(s, spans), Pieces(s, spans);
    if i == 0 {
      assert g[..1] == [g[0]];
    } else {
      RebuildPrefix(s, spans, i - 1);
      SpanNeighbours(s, spans, i);
      var lo, hi, top := spans[i - 1].lo, spans[i - 1].hi, GapHi(s, spans, i);
      WeaveLast(g[..i + 1], m[..i], []);
      assert g[..i + 1][..i] == g[..i];
      assert m[..i][..i - 1] == m[..i - 1];
      var w := Weave(g[..i], m[..i - 1], []);
      assert w == s[..lo];
      JoinEmpty(w, m[i - 1], g[i]);
      SliceThree(s, lo, hi, top);
    }
  }

  lemma JoinEmpty(a: string, b: string, c: string)
    ensures a + [] + b + [] + c == a + b + c
  {
  }

  lemma SliceThree(s: string, lo: int, hi: int, top: int)
    requires 0 <= lo <= hi <= top <= |s|
    ensures s[..lo] + s[lo..hi] + s[hi..top] == s[..top]
  {
    assert s[..lo] + s[lo..hi] == s[..hi];
    assert s[..hi] + s[hi..top] == s[..top];
  }
}
