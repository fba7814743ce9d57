/**
 * `split_html` (src/utils.py): `re.split` with a pattern that recognises the header block of a
 * quoted reply, under `re.IGNORECASE | re.MULTILINE`.  The pattern is a line matcher: a line
 * containing `sent:`, the next containing `to:`, optionally one containing `cc:`, then one
 * containing `subject:`; or the same with `отправлено:`, `кому:`, `копия:`, `тема:`.  `.` never
 * crosses a newline and `$\s` eats exactly the newline that ends a line, so a block covers whole
 * lines, from the start of its first line to the end of its subject line, that line's newline
 * excluded.  A match can only begin at the start of a line: where one could begin inside a line,
 * one also begins at that line's start, which the scan reaches first.
 */
module ThreadSplit {
  import opened Common
  import opened Strings
  import opened Spans

  /** The two marker sets, each as sent / to / cc / subject. */
  const English: seq<string> := ["sent:", "to:", "cc:", "subject:"]
  const Russian: seq<string> := ["отправлено:", "кому:", "копия:", "тема:"]

  /** `p` is where a line starts. */
  predicate IsLineStart(s: string, p: int) {
    0 <= p <= |s| && (p == 0 || s[p - 1] == '\n')
  }

  /** Where the line starting at `p` ends: at the next newline, or at the end of the text. */
  function LineEnd(s: string, p: nat): (e: nat)
    requires p <= |s|
    ensures p <= e <= |s|
    ensures e == |s| || s[e] == '\n'
    ensures forall k :: p <= k < e ==> s[k] != '\n'
    decreases |s| - p
  {
    if p == |s| || s[p] == '\n' then p else LineEnd(s, p + 1)
  }

  /** The line contains the marker, case ignored. */
  predicate Has(line: string, marker: string) {
    Occurs(marker, Lower(line))
  }

  /** The lines from `p` on contain the markers, one per line and in order; the result is where
      the last of those lines ends. */
  function MatchLines(s: string, p: nat, markers: seq<string>): (r: Option<nat>)
    requires p <= |s| && markers != []
    ensures r.Some? ==> p <= r.value <= |s| && (r.value == |s| || s[r.value] == '\n')
    decreases |markers|
  {
    var e := LineEnd(s, p);
    if !Has(s[p..e], markers[0]) then None
    else if |markers| == 1 then Some(e)
    else if e == |s| then None
    else MatchLines(s, e + 1, markers[1..])
  }

  /** The alternatives of the pattern in the order the regex engine tries them: each language's
      block with its optional cc line first, then without it; English before Russian.  A block
      never mixes the two languages. */
  const Alternatives: seq<seq<string>> := [
    English, [English[0], English[1], English[3]],
    Russian, [Russian[0], Russian[1], Russian[3]]
  ]

  /** The end of the block of the first alternative, from the `i`-th on, that matches at `p`. */
  function FirstMatch(s: string, p: nat, alts: seq<seq<string>>): (r: Option<nat>)
    requires p <= |s| && forall k :: 0 <= k < |alts| ==> alts[k] != []
    ensures r.Some? ==> p <= r.value <= |s| && (r.value == |s| || s[r.value] == '\n')
    decreases |alts|
  {
    if alts == [] then None
    else
      var m := MatchLines(s, p, alts[0]);
      if m.Some? then m else FirstMatch(s, p, alts[1..])
  }

  /** The end of the header block that starts at `p`, if one does. */
  function BlockEnd(s: string, p: nat): (r: Option<nat>)
    requires p <= |s|
    ensures r.Some? ==> p <= r.value <= |s| && (r.value == |s| || s[r.value] == '\n')
  {
    FirstMatch(s, p, Alternatives)
  }

  /** The end of the header block starting at each position of the text, if one does. */
  function BlockEnds(s: string): (ends: seq<Option<nat>>)
    ensures EndsFit(s, ends)
  {
    seq(|s| + 1, q requires 0 <= q <= |s| => BlockEnd(s, q))
  }

  /** One entry per position, each block ending at or after its start, at the end of a line. */
  predicate EndsFit(s: string, ends: seq<Option<nat>>) {
    && |ends| == |s| + 1
    && forall q :: 0 <= q <= |s| && ends[q].Some? ==>
         q <= ends[q].value <= |s| && (ends[q].value == |s| || s[ends[q].value] == '\n')
  }

  /** The scan `re.split` makes, from the line start `p` on: a block found at a line start is cut
      out and the scan goes on after it; otherwise it goes on at the next line. */
  function Scan(s: string, ends: seq<Option<nat>>, p: nat): (spans: seq<Span>)
    requires EndsFit(s, ends) && p <= |s|
    decreases |s| - p
  {
    match ends[p]
    case Some(e) => [Span(p, e)] + (if e < |s| then Scan(s, ends, e + 1) else [])
    case None =>
      var le := LineEnd(s, p);
      if le < |s| then Scan(s, ends, le + 1) else []
  }

  /** The header blocks `re.split` cuts out of the text. */
  function Blocks(s: string): (spans: seq<Span>)
  {
    Scan(s, BlockEnds(s), 0)
  }

  /** `split_html(html_content)`: the text before, between and after the header blocks. */
  function SplitHtml(s: string): (parts: seq<string>)
    ensures |parts| == |Blocks(s)| + 1
  {
    Gaps(s, Blocks(s))
  }

  /** The spans start at line starts at or after `p` and each is the block the table gives there. */
  predicate BlocksFrom(s: string, ends: seq<Option<nat>>, p: nat, spans: seq<Span>)
    requires EndsFit(s, ends)
  {
    forall k :: 0 <= k < |spans| ==>
      p <= spans[k].lo && IsLineStart(s, spans[k].lo) && ends[spans[k].lo] == Some(spans[k].hi)
  }

  /** Putting a span before ordered spans that start at or after its end keeps them ordered. */
  lemma ConsOrdered(s: string, x: Span, rest: seq<Span>, bound: int)
    requires 0 <= x.lo <= x.hi <= bound && x.hi <= |s|
    requires Ordered(s, rest) && forall k :: 0 <= k < |rest| ==> bound <= rest[k].lo
    ensures Ordered(s, [x] + rest)
  {
    var all := [x] + rest;
    forall k | 0 < k < |all| ensures all[k - 1].hi <= all[k].lo {
      if k > 1 {
        assert all[k - 1] == rest[k - 2] && all[k] == rest[k - 1];
      }
    }
  }

  lemma {:induction false} ScanOrdered(s: string, ends: seq<Option<nat>>, p: nat)
    requires EndsFit(s, ends) && IsLineStart(s, p)
    ensures Ordered(s, Scan(s, ends, p)) && BlocksFrom(s, ends, p, Scan(s, ends, p))
    decreases |s| - p
  {
    if ends[p].Some? {
      var e := ends[p].value;
      var rest: seq<Span> := [];
      if e < |s| {
        rest := Scan(s, ends, e + 1);
        ScanOrdered(s, ends, e + 1);
      }
      assert Scan(s, ends, p) == [Span(p, e)] + rest;
      ConsBlock(s, ends, p, e, rest);
    } else {
      var le := LineEnd(s, p);
      if le < |s| {
        ScanOrdered(s, ends, le + 1);
        BlocksFromEarlier(s, ends, p, le + 1, Scan(s, ends, le + 1));
      }
    }
  }

  /** A block found at `p`, put before the blocks found after its end, keeps the list ordered. */
  lemma ConsBlock(s: string, ends: seq<Option<nat>>, p: nat, e: nat, rest: seq<Span>)
    requires EndsFit(s, ends) && IsLineStart(s, p) && p <= |s| && ends[p] == Some(e)
    requires Ordered(s, rest) && BlocksFrom(s, ends, e + 1, rest)
    ensures Ordered(s, [Span(p, e)] + rest) && BlocksFrom(s, ends, p, [Span(p, e)] + rest)
  {
    ConsOrdered(s, Span(p, e), rest, e + 1);
    var all := [Span(p, e)] + rest;
    forall k | 0 < k < |all|
      ensures p <= all[k].lo && IsLineStart(s, all[k].lo) && ends[all[k].lo] == Some(all[k].hi)
    {
      assert all[k] == rest[k - 1];
    }
  }

  /** Blocks found from `q` on are found from any earlier `p`. */
  lemma BlocksFromEarlier(s: string, ends: seq<Option<nat>>, p: nat, q: nat, spans: seq<Span>)
    requires EndsFit(s, ends) && p <= q && BlocksFrom(s, ends, q, spans)
    ensures BlocksFrom(s, ends, p, spans)
  {
  }

  /** Every block cut out starts at a line start and is a header block there, and the blocks come
      in order without overlapping. */
  lemma BlocksAreHeaderBlocks(s: string)
    ensures Ordered(s, Blocks(s))
    ensures forall k :: 0 <= k < |Blocks(s)| ==>
      IsLineStart(s, Blocks(s)[k].lo) && BlockEnd(s, Blocks(s)[k].lo) == Some(Blocks(s)[k].hi)
  {
    ScanOrdered(s, BlockEnds(s), 0);
  }

  /** The parts and the blocks, interleaved, give back the text, and there is one part more than
      there are blocks. */
  lemma SplitRebuilds(s: string)
    ensures |SplitHtml(s)| == |Blocks(s)| + 1
    ensures Weave(SplitHtml(s), Pieces(s, Blocks(s)), []) == s
  {
    BlocksAreHeaderBlocks(s);
    Rebuild(s, Blocks(s));
  }

  lemma {:induction false} ScanFirst(s: string, ends: seq<Option<nat>>, p: nat, q: nat)
    requires EndsFit(s, ends) && IsLineStart(s, p) && IsLineStart(s, q) && p <= q && ends[q].Some?
    requires forall r :: p <= r < q && IsLineStart(s, r) ==> ends[r].None?
    ensures Scan(s, ends, p) != [] && Scan(s, ends, p)[0] == Span(q, ends[q].value)
    decreases q - p
  {
    if p < q {
      var le := LineEnd(s, p);
      assert s[q - 1] == '\n';
      assert le <= q - 1;
      ScanFirst(s, ends, le + 1, q);
    }
  }

  /** With a header block at the line start `q` and none at an earlier line start, the newest
      message, `parts[0]`, is the text before `q`, and there are at least two parts. */
  lemma FirstPart(s: string, q: nat)
    requires IsLineStart(s, q) && BlockEnd(s, q).Some?
    requires forall r :: 0 <= r < q && IsLineStart(s, r) ==> BlockEnd(s, r).None?
    ensures |SplitHtml(s)| >= 2
    ensures SplitHtml(s)[0] == s[..q]
  {
    var ends := BlockEnds(s);
    assert ends[q] == BlockEnd(s, q);
    forall r | 0 <= r < q && IsLineStart(s, r) ensures ends[r].None? {
      assert ends[r] == BlockEnd(s, r);
    }
    ScanFirst(s, ends, 0, q);
  }

  lemma {:induction false} ScanNone(s: string, ends: seq<Option<nat>>, p: nat)
    requires EndsFit(s, ends) && IsLineStart(s, p)
    requires forall r :: p <= r && IsLineStart(s, r) ==> ends[r].None?
    ensures Scan(s, ends, p) == []
    decreases |s| - p
  {
    var le := LineEnd(s, p);
    if le < |s| {
      ScanNone(s, ends, le + 1);
    }
  }

  /** Without any header block the whole text is the only part. */
  lemma NoBlockNoSplit(s: string)
    requires forall r :: IsLineStart(s, r) ==> BlockEnd(s, r).None?
    ensures SplitHtml(s) == [s]
  {
    var ends := BlockEnds(s);
    forall r | 0 <= r && IsLineStart(s, r) ensures ends[r].None? {
      assert ends[r] == BlockEnd(s, r);
    }
    ScanNone(s, ends, 0);
    assert SplitHtml(s) == [Slice(s, 0, |s|)];
    assert s[0..|s|] == s;
  }

  /** Case does not matter: lower-casing the text changes neither its lines nor what they contain. */
  lemma {:induction false} LineEndLower(s: string, p: nat)
    requires p <= |s|
    ensures LineEnd(Lower(s), p) == LineEnd(s, p)
    decreases |s| - p
  {
    if p < |s| {
      assert Lower(s)[p] == LowerChar(s[p]);
      if s[p] != '\n' {
        LineEndLower(s, p + 1);
      }
    }
  }

  lemma HasLower(s: string, a: nat, b: nat, m: string)
    requires a <= b <= |s|
    ensures Has(Lower(s)[a..b], m) == Has(s[a..b], m)
  {
    LowerSlice(s, a, b);
    LowerIdempotent(s[a..b]);
  }

  lemma {:induction false} MatchLinesLower(s: string, p: nat, markers: seq<string>)
    requires p <= |s| && markers != []
    ensures MatchLines(Lower(s), p, markers) == MatchLines(s, p, markers)
    decreases |markers|
  {
    var t := Lower(s);
    LineEndLower(s, p);
    var e := LineEnd(s, p);
    assert LineEnd(t, p) == e && |t| == |s|;
    HasLower(s, p, e, markers[0]);
    if |markers| > 1 && e < |s| {
      MatchLinesLower(s, e + 1, markers[1..]);
    }
    MatchLinesStep(t, s, p, e, markers);
  }

  /** Two texts of one length whose line from `p` ends at the same place and has the first
      marker alike, and whose later lines match alike, match alike from `p`. */
  lemma MatchLinesStep(t: string, s: string, p: nat, e: nat, markers: seq<string>)
    requires p <= |s| == |t| && markers != []
    requires LineEnd(t, p) == e && LineEnd(s, p) == e
    requires Has(t[p..e], markers[0]) == Has(s[p..e], markers[0])
    requires |markers| > 1 && e < |s| ==> MatchLines(t, e + 1, markers[1..]) == MatchLines(s, e + 1, markers[1..])
    ensures MatchLines(t, p, markers) == MatchLines(s, p, markers)
  {
  }

  lemma {:induction false} FirstMatchLower(s: string, p: nat, alts: seq<seq<string>>)
    requires p <= |s| && forall k :: 0 <= k < |alts| ==> alts[k] != []
    ensures FirstMatch(Lower(s), p, alts) == FirstMatch(s, p, alts)
    decreases |alts|
  {
    if alts != [] {
      MatchLinesLower(s, p, alts[0]);
      FirstMatchLower(s, p, alts[1..]);
    }
  }

  lemma BlockEndLower(s: string, p: nat)
    requires p <= |s|
    ensures BlockEnd(Lower(s), p) == BlockEnd(s, p)
  {
    FirstMatchLower(s, p, Alternatives);
  }

  /** At `q` the two texts have the same line end. */
  predicate SameLineAt(s: string, t: string, q: nat)
    requires |t| == |s| && q <= |s|
  {
    LineEnd(t, q) == LineEnd(s, q)
  }

  /** Two texts of the same lines, with the same blocks, split at the same places. */
  lemma {:induction false} ScanAgree(s: string, t: string, ends: seq<Option<nat>>, p: nat)
    requires |t| == |s| && EndsFit(s, ends) && EndsFit(t, ends) && p <= |s|
    requires forall q :: p <= q <= |s| ==> SameLineAt(s, t, q)
    ensures Scan(t, ends, p) == Scan(s, ends, p)
    decreases |s| - p
  {
    assert SameLineAt(s, t, p);
    if ends[p].Some? {
      var e := ends[p].value;
      if e < |s| {
        ScanAgree(s, t, ends, e + 1);
      }
    } else {
      var le := LineEnd(s, p);
      if le < |s| {
        ScanAgree(s, t, ends, le + 1);
      }
    }
  }

  /** Case does not matter: the blocks are cut at the same places in the lower-cased text. */
  lemma BlocksIgnoreCase(s: string)
    ensures Blocks(Lower(s)) == Blocks(s)
  {
    var ends := BlockEnds(s);
    forall q | 0 <= q <= |s| ensures BlockEnds(Lower(s))[q] == ends[q] {
      BlockEndLower(s, q);
    }
    assert BlockEnds(Lower(s)) == ends;
    forall q | 0 <= q <= |s| ensures SameLineAt(s, Lower(s), q) {
      LineEndLower(s, q);
    }
    ScanAgree(s, Lower(s), ends, 0);
  }

  /** Every marker ends with its colon: a text without a colon is never split. */
  lemma NoColonNoLine(s: string, p: nat, markers: seq<string>)
    requires p <= |s| && markers != [] && ':' !in s
    requires forall k :: 0 <= k < |markers| ==> ':' in markers[k]
    ensures MatchLines(s, p, markers).None?
  {
    var e := LineEnd(s, p);
    var low := Lower(s[p..e]);
    OccursHasChar(markers[0], low, ':');
    assert ':' !in low by {
      forall k | 0 <= k < |low| ensures low[k] != ':' {
        assert s[p..e][k] in s;
      }
    }
  }

  lemma {:induction false} NoColonNoMatch(s: string, p: nat, alts: seq<seq<string>>)
    requires p <= |s| && ':' !in s
    requires forall k :: 0 <= k < |alts| ==> alts[k] != []
    requires forall k, j :: 0 <= k < |alts| && 0 <= j < |alts[k]| ==> ':' in alts[k][j]
    ensures FirstMatch(s, p, alts).None?
    decreases |alts|
  {
    if alts != [] {
      NoColonNoLine(s, p, alts[0]);
      NoColonNoMatch(s, p, alts[1..]);
    }
  }

  lemma NoColonNoSplit(s: string)
    requires ':' !in s
    ensures SplitHtml(s) == [s]
  {
    forall r | IsLineStart(s, r) ensures BlockEnd(s, r).None? {
      NoColonNoMatch(s, r, Alternatives);
    }
    NoBlockNoSplit(s);
  }
}
