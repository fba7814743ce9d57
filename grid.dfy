/**
 * Reading the tables of a message into data frames: `extract_outer_html_tables` and
 * `html_table_to_df` (src/utils.py).  Parsing HTML is BeautifulSoup's work; here it is a
 * parameter, a function from text to the parts of the parse tree these operations look at.
 * A data frame is what pandas builds from a list of rows of strings: as many columns as the
 * widest row, shorter rows padded with `None`, and the first row turned into the column labels.
 */
module Grid {
  import opened Common
  import opened Strings

  /** A `<td>` cell as the parser sees it: the text of each `<p>` inside it, in document order,
      and its whole text with white space stripped. */
  datatype Cell = Cell(paragraphs: seq<string>, text: string)

  /** A `<table>` element: its HTML, whether it lies inside another table, and its rows, each
      the `<td>` cells below one `<tr>`, as `find_all('tr')` and `find_all('td')` list them. */
  datatype TableNode = TableNode(html: string, nested: bool, rows: seq<seq<Cell>>)

  /** A parsed document: its serialisation `str(soup)` and its tables in document order. */
  datatype Parsed = Parsed(text: string, tables: seq<TableNode>)

  /** A data frame of strings: its column labels and its data rows. */
  datatype Frame = Frame(columns: seq<Option<string>>, data: seq<seq<Option<string>>>)

  /** The text of a cell: its paragraphs one per line when it has several, its one paragraph,
      or else its stripped text. */
  function CellText(c: Cell): (r: string)
    ensures |c.paragraphs| == 0 ==> r == c.text
  {
    if |c.paragraphs| > 1 then Join(c.paragraphs, "\n")
    else if |c.paragraphs| == 1 then c.paragraphs[0]
    else c.text
  }

  /** A cell's paragraphs are its text's lines again, as long as none of them spans lines. */
  lemma CellTextParagraphs(c: Cell)
    requires |c.paragraphs| >= 1
    requires forall k :: 0 <= k < |c.paragraphs| ==> '\n' !in c.paragraphs[k]
    ensures Split(CellText(c), '\n') == c.paragraphs
  {
    SplitJoin(c.paragraphs, '\n');
  }

  /** The texts of a table's cells, row by row. */
  function TextRows(t: TableNode): (rows: seq<seq<string>>)
    ensures |rows| == |t.rows|
    ensures forall i :: 0 <= i < |rows| ==> |rows[i]| == |t.rows[i]|
    ensures forall i, j :: 0 <= i < |rows| && 0 <= j < |rows[i]| ==> rows[i][j] == CellText(t.rows[i][j])
  {
    seq(|t.rows|, i requires 0 <= i < |t.rows| => seq(|t.rows[i]|, j requires 0 <= j < |t.rows[i]| => CellText(t.rows[i][j])))
  }

  /** The length of the longest row. */
  function Width(rows: seq<seq<string>>): (w: nat)
    ensures forall i :: 0 <= i < |rows| ==> |rows[i]| <= w
    ensures rows == [] ==> w == 0
    ensures rows != [] ==> exists i :: 0 <= i < |rows| && |rows[i]| == w
  {
    if rows == [] then 0
    else
      var rest := Width(rows[1..]);
      assert forall i :: 1 <= i < |rows| ==> rows[i] == rows[1..][i - 1];
      if |rows[0]| >= rest then |rows[0]| else rest
  }

  /** A row widened to `w` cells, `None` after its own. */
  function Pad(row: seq<string>, w: nat): (cells: seq<Option<string>>)
    requires |row| <= w
    ensures |cells| == w
  {
    seq(w, j requires 0 <= j < w => if j < |row| then Some(row[j]) else None)
  }

  /** The strings at the front of a padded row, up to its first `None`. */
  function Unpad(cells: seq<Option<string>>): (row: seq<string>)
    ensures |row| <= |cells|
  {
    if cells == [] || cells[0].None? then [] else [cells[0].value] + Unpad(cells[1..])
  }

  lemma {:induction false} UnpadPad(row: seq<string>, w: nat)
    requires |row| <= w
    ensures Unpad(Pad(row, w)) == row
    decreases w
  {
    if row != [] {
      assert Pad(row, w)[1..] == Pad(row[1..], w - 1);
      UnpadPad(row[1..], w - 1);
    }
  }

  /** `pd.DataFrame(rows)`, then the first row as column labels and the rest as data;
      without any row `df.iloc[0]` raises. */
  function ToFrame(rows: seq<seq<string>>): (r: Try<Frame>)
    ensures r.Raised? <==> rows == []
    ensures r.Ok? ==> |r.value.data| == |rows| - 1
  {
    if rows == [] then Raised
    else
      var w := Width(rows);
      Ok(Frame(Pad(rows[0], w), seq(|rows| - 1, i requires 0 <= i < |rows| - 1 => Pad(rows[i + 1], w))))
  }

  /** The rows a frame holds, its labels first, each cut at its first missing cell. */
  function RowsOf(f: Frame): (rows: seq<seq<string>>)
    ensures |rows| == |f.data| + 1
  {
    [Unpad(f.columns)] + seq(|f.data|, i requires 0 <= i < |f.data| => Unpad(f.data[i]))
  }

  /** A frame is rectangular, as wide as the widest row, and gives the rows back: padding adds
      only missing cells at the end of a row. */
  lemma FrameRoundTrip(rows: seq<seq<string>>)
    requires rows != []
    ensures ToFrame(rows).Ok?
    ensures |ToFrame(rows).value.columns| == Width(rows)
    ensures forall i :: 0 <= i < |ToFrame(rows).value.data| ==> |ToFrame(rows).value.data[i]| == Width(rows)
    ensures RowsOf(ToFrame(rows).value) == rows
  {
    var w := Width(rows);
    var data := seq(|rows| - 1, i requires 0 <= i < |rows| - 1 => Pad(rows[i + 1], w));
    var f := Frame(Pad(rows[0], w), data);
    assert ToFrame(rows) == Ok(f);
    assert forall i :: 0 <= i < |data| ==> |data[i]| == w;
    PaddedRowsBack(rows, w, f);
  }

  lemma PaddedRowsBack(rows: seq<seq<string>>, w: nat, f: Frame)
    requires rows != [] && forall i :: 0 <= i < |rows| ==> |rows[i]| <= w
    requires f.columns == Pad(rows[0], w) && |f.data| == |rows| - 1
    requires forall i :: 0 <= i < |f.data| ==> f.data[i] == Pad(rows[i + 1], w)
    ensures RowsOf(f) == rows
  {
    var back := RowsOf(f);
    UnpadPad(rows[0], w);
    assert back[0] == rows[0];
    forall i | 1 <= i < |rows| ensures back[i] == rows[i] {
      assert back[i] == Unpad(f.data[i - 1]);
      UnpadPad(rows[i], w);
    }
  }

  /** `html_table_to_df(html_table)`: the text of every cell, row by row, made into a frame. */
  method HtmlTableToDf(table: TableNode) returns (df: Try<Frame>)
    ensures df == ToFrame(TextRows(table))
  {
    var rows: seq<seq<string>> := [];
    for i := 0 to |table.rows|
      invariant |rows| == i
      invariant forall k :: 0 <= k < i ==> rows[k] == TextRows(table)[k]
    {
      var tr := table.rows[i];
      var cells: seq<string> := [];
      for j := 0 to |tr|
        invariant |cells| == j
        invariant forall m :: 0 <= m < j ==> cells[m] == CellText(tr[m])
      {
        cells := cells + [CellText(tr[j])];
      }
      rows := rows + [cells];
    }
    assert rows == TextRows(table);
    df := ToFrame(rows);
  }

  /** The tables not inside another table, in document order. */
  function OuterTables(ts: seq<TableNode>): (outer: seq<TableNode>)
    ensures |outer| <= |ts|
    ensures |ts| == 1 ==> outer == if ts[0].nested then [] else ts
  {
    if ts == [] then []
    else
      var last := ts[|ts| - 1];
      var rest := OuterTables(ts[..|ts| - 1]);
      if last.nested then rest else rest + [last]
  }

  /** Exactly the tables without a table around them are kept. */
  lemma {:induction false} OuterTablesMembers(ts: seq<TableNode>)
    ensures forall t :: t in OuterTables(ts) <==> t in ts && !t.nested
    decreases |ts|
  {
    if ts != [] {
      var last := ts[|ts| - 1];
      OuterTablesMembers(ts[..|ts| - 1]);
      assert forall t :: t in ts <==> t == last || t in ts[..|ts| - 1];
    }
  }

  /** Keeping the outer tables works block by block, so their document order is kept, and so is
      a table that occurs twice. */
  lemma {:induction false} OuterTablesAppend(a: seq<TableNode>, b: seq<TableNode>)
    ensures OuterTables(a + b) == OuterTables(a) + OuterTables(b)
    decreases |b|
  {
    if b == [] {
      assert a + b == a;
    } else {
      var n := |b| - 1;
      var last := b[n];
      var tail := if last.nested then [] else [last];
      OuterTablesAppend(a, b[..n]);
      var ab := a + b;
      assert ab[..|ab| - 1] == a + b[..n];
      assert ab[|ab| - 1] == last;
      assert OuterTables(ab) == OuterTables(a + b[..n]) + tail;
      assert OuterTables(b) == OuterTables(b[..n]) + tail;
    }
  }

  /** The frames of the tables, or `Raised` when one of them has no row. */
  function FramesOf(ts: seq<TableNode>): (r: Try<seq<Frame>>)
    ensures r.Raised? <==> exists k :: 0 <= k < |ts| && ts[k].rows == []
    ensures r.Ok? ==> |r.value| == |ts| && forall k :: 0 <= k < |ts| ==> Ok(r.value[k]) == ToFrame(TextRows(ts[k]))
  {
    if ts == [] then Ok([])
    else
      var init := ts[..|ts| - 1];
      assert forall k :: 0 <= k < |init| ==> init[k] == ts[k];
      match FramesOf(init)
      case Raised => Raised
      case Ok(fs) =>
        match ToFrame(TextRows(ts[|ts| - 1]))
        case Raised => Raised
        case Ok(f) => Ok(fs + [f])
  }

  /** What `extract_outer_html_tables` returns: nothing for empty content; otherwise the frames
      of the outer tables, or nothing at all when one of them fails. */
  function ExtractOuter(content: string, parse: string -> Parsed): (frames: seq<Frame>)
  {
    if content == [] then []
    else
      match FramesOf(OuterTables(parse(content).tables))
      case Ok(fs) => fs
      case Raised => []
  }

  /** The frames come one per outer table, in order, unless an outer table has no row, and then
      there are none: one failure loses every table of the message. */
  lemma OuterFrames(content: string, parse: string -> Parsed)
    requires content != []
    ensures var outer := OuterTables(parse(content).tables);
      var frames := ExtractOuter(content, parse);
      && ((exists k :: 0 <= k < |outer| && outer[k].rows == []) ==> frames == [])
      && ((forall k :: 0 <= k < |outer| ==> outer[k].rows != []) ==>
            |frames| == |outer| && forall k :: 0 <= k < |outer| ==> Ok(frames[k]) == ToFrame(TextRows(outer[k])))
  {
  }

  /** The loop of `extract_outer_html_tables` that keeps the tables without a table parent. */
  method KeepOuterTables(tables: seq<TableNode>) returns (outer: seq<TableNode>)
    ensures outer == OuterTables(tables)
  {
    outer := [];
    for i := 0 to |tables|
      invariant outer == OuterTables(tables[..i])
    {
      assert tables[..i + 1][..i] == tables[..i];
      if !tables[i].nested {
        outer := outer + [tables[i]];
      }
    }
    assert tables[..|tables|] == tables;
  }

  /** `extract_outer_html_tables(html_content)`. */
  method ExtractOuterHtmlTables(content: string, parse: string -> Parsed) returns (frames: seq<Frame>)
    ensures frames == ExtractOuter(content, parse)
  {
    if content == [] {
      return [];
    }
    var outer := KeepOuterTables(parse(content).tables);
    frames := [];
    for k := 0 to |outer|
      invariant FramesOf(outer[..k]) == Ok(frames)
    {
      var df := HtmlTableToDf(outer[k]);
      assert outer[..k + 1][..k] == outer[..k];
      if df.Raised? {
        assert outer[k].rows == [];
        return [];
      }
      frames := frames + [df.value];
    }
    assert outer[..|outer|] == outer;
  }
}
