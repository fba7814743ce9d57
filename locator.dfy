/**
 * `find_tables_positions` (src/utils.py): where each `<table>` of the parsed message stands in the
 * serialised document.  Tables come in document order (`soup.find_all('table')`), outer tables
 * before the tables nested in them; a table is searched for from the last position found, and it
 * is recorded only when it starts at or after the inclusive end of the last recorded table.
 */
module TableLocator {
  import opened Strings

  /** One recorded table: its serialisation and its inclusive span `[start, end]` in the document. */
  datatype TablePos = TablePos(table: string, start: int, end: int)

  /** The loop state: where the next search starts, and the tables recorded so far. */
  datatype Scan = Scan(start: nat, info: seq<TablePos>)

  /** `end_of_last_table`: the end of the last recorded table, 0 before the first. */
  function LastEnd(info: seq<TablePos>): int {
    if info == [] then 0 else info[|info| - 1].end
  }

  /** One iteration of the loop, for the table serialised as `t`. */
  function Step(doc: string, st: Scan, t: string): Scan {
    var found := Find(doc, t, st.start);
    if found == -1 then st
    else if LastEnd(st.info) <= found then Scan(found, st.info + [TablePos(t, found, found + |t| - 1)])
    else Scan(found, st.info)
  }

  /** The loop state after the tables `tables`, in order. */
  function Locate(doc: string, tables: seq<string>): Scan
    decreases |tables|
  {
    if tables == [] then Scan(0, [])
    else Step(doc, Locate(doc, tables[..|tables| - 1]), tables[|tables| - 1])
  }

  /** Every entry is where it says it is, with an inclusive end, and no entry starts before the
      end of the entry before it. */
  predicate Recorded(doc: string, info: seq<TablePos>) {
    && (forall k :: 0 <= k < |info| ==>
          0 <= info[k].start && info[k].end == info[k].start + |info[k].table| - 1
          && info[k].end < |doc| && doc[info[k].start..info[k].end + 1] == info[k].table)
    && (forall k :: 0 < k < |info| ==> info[k - 1].end <= info[k].start)
  }

  /** `find_tables_positions(soup)`, with `doc = str(soup)` and `tables` the serialisations of
      `soup.find_all('table')`. */
  method FindTablesPositions(doc: string, tables: seq<string>) returns (info: seq<TablePos>)
    ensures info == Locate(doc, tables).info
    ensures Recorded(doc, info)
  {
    var start: nat := 0;
    info := [];
    for i := 0 to |tables|
      invariant Scan(start, info) == Locate(doc, tables[..i])
    {
      assert tables[..i + 1][..i] == tables[..i];
      assert Locate(doc, tables[..i + 1]) == Step(doc, Scan(start, info), tables[i]);
      var tableHtml := tables[i];
      var found := Find(doc, tableHtml, start);
      if found != -1 {
        start := found;
        var end := found + |tableHtml| - 1;
        var endOfLastTable := if info != [] then info[|info| - 1].end else 0;
        if endOfLastTable <= start {
          info := info + [TablePos(tableHtml, start, end)];
        }
      }
    }
    assert tables[..|tables|] == tables;
    LocateRecorded(doc, tables);
  }

  /** Every table the loop records is found at its recorded place, in order. */
  lemma {:induction false} LocateRecorded(doc: string, tables: seq<string>)
    ensures Recorded(doc, Locate(doc, tables).info)
    ensures Locate(doc, tables).info != [] ==> LastStart(Locate(doc, tables).info) <= Locate(doc, tables).start
    decreases |tables|
  {
    if tables != [] {
      var prev, t := tables[..|tables| - 1], tables[|tables| - 1];
      LocateRecorded(doc, prev);
      StepRecorded(doc, Locate(doc, prev), t);
    }
  }

  /** One iteration keeps the recorded list recorded, and the search start at or after the last
      recorded table. */
  lemma StepRecorded(doc: string, st: Scan, t: string)
    requires Recorded(doc, st.info) && (st.info != [] ==> LastStart(st.info) <= st.start)
    ensures Recorded(doc, Step(doc, st, t).info)
    ensures Step(doc, st, t).info != [] ==> LastStart(Step(doc, st, t).info) <= Step(doc, st, t).start
  {
    var found := Find(doc, t, st.start);
    if found == -1 {
      assert Step(doc, st, t) == st;
    } else if LastEnd(st.info) <= found {
      var e := TablePos(t, found, found + |t| - 1);
      assert Step(doc, st, t) == Scan(found, st.info + [e]);
      RecordedAppend(doc, st.info, t, found);
      assert LastStart(st.info + [e]) == found;
    } else {
      assert Step(doc, st, t) == Scan(found, st.info);
      assert st.start <= found;
    }
  }

  /** Recording a table found at or after the end of the last recorded one keeps the list
      recorded. */
  lemma RecordedAppend(doc: string, info: seq<TablePos>, t: string, found: int)
    requires Recorded(doc, info)
    requires 0 <= found && OccursAt(t, doc, found) && LastEnd(info) <= found
    ensures Recorded(doc, info + [TablePos(t, found, found + |t| - 1)])
  {
    var info' := info + [TablePos(t, found, found + |t| - 1)];
    assert forall k :: 0 <= k < |info| ==> info'[k] == info[k];
  }

  function LastStart(info: seq<TablePos>): int
    requires info != []
  {
    info[|info| - 1].start
  }

  /** Every recorded table is one of the tables searched for, and at most all of them are recorded. */
  lemma {:induction false} LocateFromInput(doc: string, tables: seq<string>)
    ensures |Locate(doc, tables).info| <= |tables|
    ensures forall k :: 0 <= k < |Locate(doc, tables).info| ==> Locate(doc, tables).info[k].table in tables
    decreases |tables|
  {
    if tables != [] {
      var prev := tables[..|tables| - 1];
      LocateFromInput(doc, prev);
      forall t | t in prev ensures t in tables { }
    }
  }

  /** A table that is not found, or found before the end of the last recorded table (nested in it),
      is skipped; the search start still moves to where it was found. */
  lemma SkipOrRecord(doc: string, tables: seq<string>, t: string)
    ensures var before, after := Locate(doc, tables), Locate(doc, tables + [t]);
      var found := Find(doc, t, before.start);
      && (found == -1 ==> after == before)
      && (found != -1 ==> after.start == found)
      && (found != -1 && found < LastEnd(before.info) ==> after.info == before.info)
      && (found != -1 && LastEnd(before.info) <= found ==>
            after.info == before.info + [TablePos(t, found, found + |t| - 1)])
  {
    assert (tables + [t])[..|tables|] == tables;
  }

  /** A serialisation that starts with `<` and ends with `>`, as every table's does. */
  predicate Delimited(t: string) {
    |t| > 0 && t[0] == '<' && t[|t| - 1] == '>'
  }

  /** Each entry starts strictly after the end of the entry before it. */
  predicate Disjoint(info: seq<TablePos>) {
    forall k :: 0 < k < |info| ==> info[k - 1].end < info[k].start
  }

  /** When every table starts with `<` and ends with `>`, recorded spans do not even share their
      boundary character: each table starts strictly after the previous one's end. */
  lemma {:induction false} DelimitedSpansDisjoint(doc: string, tables: seq<string>)
    requires forall k :: 0 <= k < |tables| ==> Delimited(tables[k])
    ensures Disjoint(Locate(doc, tables).info)
    decreases |tables|
  {
    if tables != [] {
      var prev, t := tables[..|tables| - 1], tables[|tables| - 1];
      assert forall k :: 0 <= k < |prev| ==> prev[k] == tables[k];
      DelimitedSpansDisjoint(doc, prev);
      LocateRecorded(doc, prev);
      LocateFromInput(doc, prev);
      var info := Locate(doc, prev).info;
      if info != [] {
        assert info[|info| - 1].table in prev;
      }
      StepDisjoint(doc, Locate(doc, prev), t);
    }
  }

  /** One iteration keeps the recorded spans apart when the tables are delimited. */
  lemma StepDisjoint(doc: string, st: Scan, t: string)
    requires Recorded(doc, st.info) && Disjoint(st.info) && Delimited(t)
    requires st.info != [] ==> Delimited(st.info[|st.info| - 1].table)
    ensures Disjoint(Step(doc, st, t).info)
  {
    var found := Find(doc, t, st.start);
    if found != -1 && LastEnd(st.info) <= found {
      var info := st.info + [TablePos(t, found, found + |t| - 1)];
      assert forall k :: 0 <= k < |st.info| ==> info[k] == st.info[k];
      if st.info != [] {
        var last := st.info[|st.info| - 1];
        assert doc[last.end] == '>' by {
          assert doc[last.start..last.end + 1][|last.table| - 1] == last.table[|last.table| - 1];
        }
        assert doc[found] == '<' by {
          assert doc[found..found + |t|][0] == t[0];
        }
      }
    }
  }

  /** A table whose serialisation repeats the one just recorded is found again at the same place
      (the search restarts at the last position found, not after it), so it is never recorded. */
  lemma RepeatedTableNotRecorded(doc: string, t: string)
    requires |t| >= 2 && Find(doc, t, 0) != -1
    ensures Locate(doc, [t, t]).info == Locate(doc, [t]).info
    ensures |Locate(doc, [t, t]).info| == 1
  {
    assert [t, t][..1] == [t];
    assert [t][..0] == [];
  }
}
