/**
 * `replace_tables_with_uuid` and `replace_uuid_with_tables` (src/utils.py): every recorded table
 * span of the serialised document is swapped for `"\n" + id + "\n"`, and later every id is
 * swapped back for its table with `str.replace`.  The ids are `uuid4()` strings in the source;
 * here the caller supplies them.
 */
module Placeholders {
  import opened Strings
  import opened Spans
  import opened TableLocator

  /** A recorded table once `replace_tables_with_uuid` has given it its `_id`. */
  datatype Placeholder = Placeholder(pos: TablePos, id: string)

  /** The recorded tables as half-open spans (`end` is inclusive). */
  function SpansOf(info: seq<TablePos>): (spans: seq<Span>)
    ensures |spans| == |info|
  {
    seq(|info|, k requires 0 <= k < |info| => Span(info[k].start, info[k].end + 1))
  }

  function Tables(info: seq<TablePos>): (ts: seq<string>)
    ensures |ts| == |info|
  {
    seq(|info|, k requires 0 <= k < |info| => info[k].table)
  }

  function Tag(info: seq<TablePos>, ids: seq<string>): (tagged: seq<Placeholder>)
    requires |ids| == |info|
    ensures |tagged| == |info|
  {
    seq(|info|, k requires 0 <= k < |info| => Placeholder(info[k], ids[k]))
  }

  /** The text `replace_tables_with_uuid` builds: the text around the tables kept as it is, each
      table replaced by `"\n" + id + "\n"`; with no table at all the loop never runs and the
      result is the empty string. */
  function Encode(doc: string, info: seq<TablePos>, ids: seq<string>): string
    requires |ids| == |info|
  {
    if info == [] then [] else Weave(Gaps(doc, SpansOf(info)), ids, "\n")
  }

  /** `replace_tables_with_uuid(soup, tables_info)` with `doc = str(soup)` and the generated ids
      given as `ids`. */
  method ReplaceTablesWithIds(doc: string, info: seq<TablePos>, ids: seq<string>)
    returns (tagged: seq<Placeholder>, replacement: string)
    requires |ids| == |info|
    ensures tagged == Tag(info, ids)
    ensures replacement == Encode(doc, info, ids)
    ensures info == [] ==> replacement == []
  {
    ghost var g := Gaps(doc, SpansOf(info));
    var lastEnd := 0;
    replacement := "";
    tagged := [];
    for i := 0 to |info|
      invariant tagged == Tag(info[..i], ids[..i])
      invariant lastEnd == GapLo(SpansOf(info), i)
      invariant i == 0 ==> replacement == []
      invariant i < |info| ==> replacement + g[i] == Weave(g[..i + 1], ids[..i], "\n")
      invariant 0 < i == |info| ==> replacement == Weave(g, ids, "\n")
    {
      var entry := info[i];
      TagSnoc(info, ids, i);
      WeaveStep(g, ids, i, replacement);
      tagged := tagged + [Placeholder(entry, ids[i])];
      assert Slice(doc, lastEnd, entry.start) == g[i];
      replacement := replacement + Slice(doc, lastEnd, entry.start) + "\n" + ids[i] + "\n";
      lastEnd := entry.end + 1;
      if i == |info| - 1 {
        assert Slice(doc, entry.end + 1, |doc|) == g[i + 1];
        replacement := replacement + Slice(doc, entry.end + 1, |doc|);
        assert g[..i + 2] == g && ids[..i + 1] == ids;
      }
    }
    assert info[..|info|] == info && ids[..|ids|] == ids;
  }

  lemma TagSnoc(info: seq<TablePos>, ids: seq<string>, i: nat)
    requires |ids| == |info| && i < |info|
    ensures Tag(info[..i + 1], ids[..i + 1]) == Tag(info[..i], ids[..i]) + [Placeholder(info[i], ids[i])]
  {
  }

  /** One more table: the text so far, its gap, the id on a line of its own, the next gap. */
  lemma WeaveStep(g: seq<string>, ids: seq<string>, i: nat, acc: string)
    requires |g| == |ids| + 1 && i < |ids|
    requires acc + g[i] == Weave(g[..i + 1], ids[..i], "\n")
    ensures acc + g[i] + "\n" + ids[i] + "\n" + g[i + 1] == Weave(g[..i + 2], ids[..i + 1], "\n")
  {
    WeaveLast(g[..i + 2], ids[..i + 1], "\n");
    assert g[..i + 2][..i + 1] == g[..i + 1];
    assert ids[..i + 1][..i] == ids[..i];
  }

  /** What `replace_uuid_with_tables` computes: each id, in order, replaced everywhere by its table. */
  function Restore(text: string, tagged: seq<Placeholder>): string
    decreases |tagged|
  {
    if tagged == [] then text
    else
      var last := tagged[|tagged| - 1];
      ReplaceAll(Restore(text, tagged[..|tagged| - 1]), last.id, last.pos.table)
  }

  /** `replace_uuid_with_tables(replacement, tables_info)`. */
  method ReplaceIdsWithTables(replacement: string, tagged: seq<Placeholder>) returns (restored: string)
    ensures restored == Restore(replacement, tagged)
  {
    restored := replacement;
    for i := 0 to |tagged|
      invariant restored == Restore(replacement, tagged[..i])
    {
      restored := ReplaceAll(restored, tagged[i].id, tagged[i].pos.table);
      assert tagged[..i + 1][..i] == tagged[..i];
    }
    assert tagged[..|tagged|] == tagged;
  }

  /** Ids fit to stand for tables: non-empty, without a newline (true of `uuid4()` strings), found
      nowhere in the document or in any table, and none found inside another. */
  predicate FreshIds(doc: string, info: seq<TablePos>, ids: seq<string>) {
    && (forall k :: 0 <= k < |ids| ==> ids[k] != [] && '\n' !in ids[k] && !Occurs(ids[k], doc))
    && (forall k, j :: 0 <= k < |ids| && 0 <= j < |info| ==> !Occurs(ids[k], info[j].table))
    && (forall k, j :: 0 <= k < |ids| && 0 <= j < |ids| && k != j ==> !Occurs(ids[k], ids[j]))
  }

  /** `str.replace` applied to every string of a list. */
  function ReplaceEach(xs: seq<string>, p: string, r: string): (ys: seq<string>)
    ensures |ys| == |xs|
  {
    seq(|xs|, k requires 0 <= k < |xs| => ReplaceAll(xs[k], p, r))
  }

  /** Replacing a newline-free pattern in newline-separated text replaces it in each part. */
  lemma {:induction false} ReplaceInWeave(g: seq<string>, m: seq<string>, p: string, r: string)
    requires |g| == |m| + 1 && p != [] && '\n' !in p
    ensures ReplaceAll(Weave(g, m, "\n"), p, r) == Weave(ReplaceEach(g, p, r), ReplaceEach(m, p, r), "\n")
    decreases |m|
  {
    if m != [] {
      var n := |m|;
      var w := Weave(g[..n], m[..n - 1], "\n");
      var ml, gl := m[n - 1], g[n];
      var tail := ml + "\n" + gl;
      var g', m' := ReplaceEach(g, p, r), ReplaceEach(m, p, r);
      WeaveLast(g, m, "\n");
      assert Weave(g, m, "\n") == w + "\n" + tail;
      ReplaceAcrossNewline(w, tail, p, r);
      ReplaceAcrossNewline(ml, gl, p, r);
      assert ReplaceAll(w, p, r) == Weave(g'[..n], m'[..n - 1], "\n") by {
        ReplaceInWeave(g[..n], m[..n - 1], p, r);
        assert ReplaceEach(g[..n], p, r) == g'[..n];
        assert ReplaceEach(m[..n - 1], p, r) == m'[..n - 1];
      }
      WeaveLast(g', m', "\n");
      NewlineAssoc(Weave(g'[..n], m'[..n - 1], "\n"), m'[n - 1], g'[n]);
    }
  }

  lemma NewlineAssoc(a: string, b: string, c: string)
    ensures a + "\n" + (b + "\n" + c) == a + "\n" + b + "\n" + c
  {
  }

  /** An id found nowhere in the document is found in no gap of it. */
  lemma GapsUntouched(doc: string, info: seq<TablePos>, p: string, r: string)
    requires p != [] && !Occurs(p, doc)
    ensures ReplaceEach(Gaps(doc, SpansOf(info)), p, r) == Gaps(doc, SpansOf(info))
  {
    var g := Gaps(doc, SpansOf(info));
    forall i | 0 <= i < |g| ensures ReplaceAll(g[i], p, r) == g[i] {
      AbsentFromSlice(p, doc, GapLo(SpansOf(info), i), GapHi(doc, SpansOf(info), i));
      ReplaceAbsent(g[i], p, r);
    }
  }

  /** Restoring id `j` turns placeholder `j` back into its table and leaves the others alone. */
  lemma RestoreOne(doc: string, info: seq<TablePos>, ids: seq<string>, j: nat)
    requires |ids| == |info| && FreshIds(doc, info, ids) && j < |info|
    ensures ReplaceEach(Tables(info)[..j] + ids[j..], ids[j], info[j].table) == Tables(info)[..j + 1] + ids[j + 1..]
  {
    var before := Tables(info)[..j] + ids[j..];
    var after := Tables(info)[..j + 1] + ids[j + 1..];
    var p, r := ids[j], info[j].table;
    forall i | 0 <= i < |before| ensures ReplaceAll(before[i], p, r) == after[i] {
      if i < j {
        ReplaceAbsent(info[i].table, p, r);
      } else if i == j {
        ReplaceWhole(p, r);
      } else {
        ReplaceAbsent(ids[i], p, r);
      }
    }
  }

  lemma RestoreLast(text: string, tagged: seq<Placeholder>, k: nat)
    requires 0 < k <= |tagged|
    ensures Restore(text, tagged[..k]) == ReplaceAll(Restore(text, tagged[..k - 1]), tagged[k - 1].id, tagged[k - 1].pos.table)
  {
    assert tagged[..k][..k - 1] == tagged[..k - 1];
  }

  /** After the first `k` ids are restored, the first `k` placeholders hold their tables again and
      the others still hold their ids. */
  lemma {:induction false} RestorePrefix(doc: string, info: seq<TablePos>, ids: seq<string>, k: nat)
    requires |ids| == |info| > 0 && FreshIds(doc, info, ids) && k <= |info|
    ensures Restore(Encode(doc, info, ids), Tag(info, ids)[..k])
         == Weave(Gaps(doc, SpansOf(info)), Tables(info)[..k] + ids[k..], "\n")
  {
    var g, tagged, e := Gaps(doc, SpansOf(info)), Tag(info, ids), Encode(doc, info, ids);
    if k == 0 {
      assert Tables(info)[..0] + ids[0..] == ids;
    } else {
      var j := k - 1;
      var p, r := ids[j], info[j].table;
      var before, after := Tables(info)[..j] + ids[j..], Tables(info)[..k] + ids[k..];
      calc {
        Restore(e, tagged[..k]);
        { RestoreLast(e, tagged, k); }
        ReplaceAll(Restore(e, tagged[..j]), p, r);
        { RestorePrefix(doc, info, ids, j); }
        ReplaceAll(Weave(g, before, "\n"), p, r);
        { ReplaceInWeave(g, before, p, r); }
        Weave(ReplaceEach(g, p, r), ReplaceEach(before, p, r), "\n");
        { GapsUntouched(doc, info, p, r); RestoreOne(doc, info, ids, j); }
        Weave(g, after, "\n");
      }
    }
  }

  /** Restoring the encoded text gives the document back with every recorded table wrapped in the
      newlines the encoding added: restoring does not remove them. */
  lemma RestoreEncoded(doc: string, info: seq<TablePos>, ids: seq<string>)
    requires |ids| == |info| > 0 && FreshIds(doc, info, ids)
    ensures Restore(Encode(doc, info, ids), Tag(info, ids))
         == Weave(Gaps(doc, SpansOf(info)), Tables(info), "\n")
  {
    RestorePrefix(doc, info, ids, |info|);
    assert Tag(info, ids)[..|info|] == Tag(info, ids);
    assert Tables(info)[..|info|] + ids[|info|..] == Tables(info);
  }

  /** Without the added newlines, the gaps and the tables of a recorded list whose spans do not
      touch are the document itself. */
  lemma UnwrappedIsDocument(doc: string, info: seq<TablePos>)
    requires Recorded(doc, info)
    requires forall k :: 0 < k < |info| ==> info[k - 1].end < info[k].start
    ensures Weave(Gaps(doc, SpansOf(info)), Tables(info), []) == doc
  {
    var spans := SpansOf(info);
    assert Ordered(doc, spans);
    assert Pieces(doc, spans) == Tables(info);
    Rebuild(doc, spans);
  }

  /** The round trip for the tables the locator records: restoring the encoded document yields the
      document with each recorded table on lines of its own, and dropping those newlines yields
      the document itself. */
  lemma LocatedRoundTrip(doc: string, tables: seq<string>, ids: seq<string>)
    requires forall k :: 0 <= k < |tables| ==> Delimited(tables[k])
    requires var info := Locate(doc, tables).info; |ids| == |info| > 0 && FreshIds(doc, info, ids)
    ensures var info := Locate(doc, tables).info;
      && Restore(Encode(doc, info, ids), Tag(info, ids)) == Weave(Gaps(doc, SpansOf(info)), Tables(info), "\n")
      && Weave(Gaps(doc, SpansOf(info)), Tables(info), []) == doc
  {
    var info := Locate(doc, tables).info;
    LocateRecorded(doc, tables);
    DelimitedSpansDisjoint(doc, tables);
    RestoreEncoded(doc, info, ids);
    UnwrappedIsDocument(doc, info);
  }
}
