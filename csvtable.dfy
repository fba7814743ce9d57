/**
 * `format_csv_to_table` (src/utils.py): naive comma-separated text turned into the lines of an
 * HTML table, the first row as header cells.  The partner is a reader for exactly the lines the
 * formatter writes: reading the output back gives the stripped cells of every row.
 */
module CsvTable {
  import opened Common
  import opened Strings

  /** `<table border="1" style="border-collapse: collapse; padding: 5px;">`, in three pieces. */
  const TableOpen := "<table border=\"1\" " + "style=\"border-collapse: " + "collapse; padding: 5px;\">"
  const TableClose := "</table>"
  const RowOpen := "<tr>"
  const RowClose := "</tr>"

  /** The stripped input cut into lines, and every line cut at its commas. */
  function Rows(csv: string): (rows: seq<seq<string>>)
    ensures |rows| >= 1 && forall i :: 0 <= i < |rows| ==> |rows[i]| >= 1
  {
    var lines := Split(Strip(csv), '\n');
    seq(|lines|, i requires 0 <= i < |lines| => Split(lines[i], ','))
  }

  /** Row 0 is the header. */
  function Tag(i: nat): string {
    if i == 0 then "th" else "td"
  }

  function OpenTag(tag: string): string {
    "  <" + tag + ">"
  }

  function CloseTag(tag: string): string {
    "</" + tag + ">"
  }

  /** The line of one cell. */
  function CellLine(tag: string, text: string): string {
    OpenTag(tag) + text + CloseTag(tag)
  }

  function CellLines(texts: seq<string>, tag: string): (lines: seq<string>)
    ensures |lines| == |texts|
  {
    seq(|texts|, j requires 0 <= j < |texts| => CellLine(tag, texts[j]))
  }

  function StripAll(cells: seq<string>): (r: seq<string>)
    ensures |r| == |cells|
  {
    seq(|cells|, j requires 0 <= j < |cells| => Strip(cells[j]))
  }

  function StripRows(rows: seq<seq<string>>): (r: seq<seq<string>>)
    ensures |r| == |rows|
  {
    seq(|rows|, i requires 0 <= i < |rows| => StripAll(rows[i]))
  }

  /** The lines of row `i`: its opening, one line per stripped cell, its closing. */
  function RowLines(row: seq<string>, i: nat): seq<string> {
    [RowOpen] + CellLines(StripAll(row), Tag(i)) + [RowClose]
  }

  /** The lines of the rows, the first of them being row `k`. */
  function Body(rows: seq<seq<string>>, k: nat): seq<string>
    decreases |rows|
  {
    if rows == [] then [] else RowLines(rows[0], k) + Body(rows[1..], k + 1)
  }

  /** The text `format_csv_to_table(csv)` returns. */
  function TableHtml(csv: string): string {
    Join([TableOpen] + Body(Rows(csv), 0) + [TableClose], "\n")
  }

  lemma {:induction false} BodySnoc(rows: seq<seq<string>>, row: seq<string>, k: nat)
    ensures Body(rows + [row], k) == Body(rows, k) + RowLines(row, k + |rows|)
    decreases |rows|
  {
    if rows == [] {
      assert Body([row], k) == RowLines(row, k) + Body([], k + 1);
    } else {
      assert (rows + [row])[1..] == rows[1..] + [row];
      BodySnoc(rows[1..], row, k + 1);
    }
  }

  lemma CellLinesSnoc(texts: seq<string>, tag: string, j: nat)
    requires j < |texts|
    ensures CellLines(texts[..j + 1], tag) == CellLines(texts[..j], tag) + [CellLine(tag, texts[j])]
  {
  }

  /** The body of the outer loop of `format_csv_to_table`: the lines of row `i`. */
  method AppendRow(html: seq<string>, row: seq<string>, i: nat) returns (out: seq<string>)
    ensures out == html + RowLines(row, i)
  {
    ghost var texts := StripAll(row);
    ghost var start := html + [RowOpen];
    var tag := if i == 0 then "th" else "td";
    out := html + [RowOpen];
    for j := 0 to |row|
      invariant out == start + CellLines(texts[..j], tag)
    {
      CellLinesSnoc(texts, tag, j);
      Associative(start, CellLines(texts[..j], tag), [CellLine(tag, texts[j])]);
      out := out + [CellLine(tag, Strip(row[j]))];
    }
    assert texts[..|row|] == texts;
    out := out + [RowClose];
    RowLinesAfter(html, row, i);
  }

  lemma Associative<T>(a: seq<T>, b: seq<T>, c: seq<T>)
    ensures a + b + c == a + (b + c)
  {
  }

  lemma RowLinesAfter(html: seq<string>, row: seq<string>, i: nat)
    ensures html + RowLines(row, i) == html + [RowOpen] + CellLines(StripAll(row), Tag(i)) + [RowClose]
  {
  }

  /** `format_csv_to_table(csv_text)`. */
  method FormatCsvToTable(csv: string) returns (html: string)
    ensures html == TableHtml(csv)
  {
    var rows := Rows(csv);
    var lines := TableLines(rows);
    html := Join(lines, "\n");
  }

  /** The list of lines `format_csv_to_table` builds before joining them: the table's opening,
      the lines of every row, the table's closing. */
  method TableLines(rows: seq<seq<string>>) returns (out: seq<string>)
    ensures out == [TableOpen] + Body(rows, 0) + [TableClose]
  {
    out := [TableOpen];
    for i := 0 to |rows|
      invariant out == [TableOpen] + Body(rows[..i], 0)
    {
      ghost var done, next := Body(rows[..i], 0), RowLines(rows[i], i);
      assert rows[..i + 1] == rows[..i] + [rows[i]];
      BodySnoc(rows[..i], rows[i], 0);
      assert Body(rows[..i + 1], 0) == done + next;
      out := AppendRow(out, rows[i], i);
      Associative([TableOpen], done, next);
    }
    assert rows[..|rows|] == rows;
    out := out + [TableClose];
  }

  /** The text of a cell line for `tag`, if the line is one. */
  function CellOf(line: string, tag: string): (r: Option<string>)
    ensures r.Some? ==> line == CellLine(tag, r.value)
  {
    var o, c := OpenTag(tag), CloseTag(tag);
    if |o| + |c| <= |line| && line[..|o|] == o && line[|line| - |c|..] == c then
      var text := line[|o|..|line| - |c|];
      assert line == line[..|o|] + text + line[|line| - |c|..];
      Some(text)
    else None
  }

  /** The cell lines at the front, and the lines after them. */
  function ReadCells(lines: seq<string>, tag: string): (r: (seq<string>, seq<string>))
    ensures |r.1| <= |lines|
    decreases |lines|
  {
    if lines != [] && CellOf(lines[0], tag).Some? then
      var next := ReadCells(lines[1..], tag);
      ([CellOf(lines[0], tag).value] + next.0, next.1)
    else ([], lines)
  }

  /** The rows written in `lines`, the first of them being row `k`. */
  function ReadRows(lines: seq<string>, k: nat): (r: Option<seq<seq<string>>>)
    decreases |lines|
  {
    if lines == [] then Some([])
    else if lines[0] != RowOpen then None
    else
      var cells := ReadCells(lines[1..], Tag(k));
      if cells.1 == [] || cells.1[0] != RowClose then None
      else
        match ReadRows(cells.1[1..], k + 1)
        case None => None
        case Some(more) => Some([cells.0] + more)
  }

  /** The rows of a table written as the formatter writes it. */
  function ReadTable(lines: seq<string>): (r: Option<seq<seq<string>>>) {
    if |lines| >= 2 && lines[0] == TableOpen && lines[|lines| - 1] == TableClose
    then ReadRows(lines[1..|lines| - 1], 0)
    else None
  }

  /** A cell line is read back as its text, whatever the text. */
  lemma CellOfLine(tag: string, text: string)
    ensures CellOf(CellLine(tag, text), tag) == Some(text)
  {
    var line := CellLine(tag, text);
    var o, c := OpenTag(tag), CloseTag(tag);
    assert line[..|o|] == o;
    assert line[|line| - |c|..] == c;
    assert line[|o|..|line| - |c|] == text;
  }

  lemma {:induction false} ReadCellsLines(texts: seq<string>, tag: string, more: seq<string>)
    requires more != [] && more[0] == RowClose
    ensures ReadCells(CellLines(texts, tag) + more, tag) == (texts, more)
    decreases |texts|
  {
    var lines := CellLines(texts, tag) + more;
    if texts == [] {
      assert lines == more;
      assert CellOf(RowClose, tag).None?;
    } else {
      CellOfLine(tag, texts[0]);
      assert lines[0] == CellLine(tag, texts[0]);
      assert lines[1..] == CellLines(texts[1..], tag) + more;
      ReadCellsLines(texts[1..], tag, more);
      assert ReadCells(lines, tag) == ([texts[0]] + texts[1..], more);
      assert [texts[0]] + texts[1..] == texts;
    }
  }

  /** One row's lines in front of more lines are read as that row's texts, then the rest. */
  lemma ReadRowLines(texts: seq<string>, k: nat, rest: seq<string>)
    ensures ReadRows([RowOpen] + CellLines(texts, Tag(k)) + [RowClose] + rest, k) ==
      match ReadRows(rest, k + 1)
      case None => None
      case Some(more) => Some([texts] + more)
  {
    var lines := [RowOpen] + CellLines(texts, Tag(k)) + [RowClose] + rest;
    var after := [RowClose] + rest;
    assert lines[1..] == CellLines(texts, Tag(k)) + after;
    ReadCellsLines(texts, Tag(k), after);
    assert after[1..] == rest;
  }

  lemma StripRowsCons(rows: seq<seq<string>>)
    requires rows != []
    ensures StripRows(rows) == [StripAll(rows[0])] + StripRows(rows[1..])
  {
  }

  lemma {:induction false} ReadBody(rows: seq<seq<string>>, k: nat)
    ensures ReadRows(Body(rows, k), k) == Some(StripRows(rows))
    decreases |rows|
  {
    if rows != [] {
      var rest := Body(rows[1..], k + 1);
      assert Body(rows, k) == [RowOpen] + CellLines(StripAll(rows[0]), Tag(k)) + [RowClose] + rest;
      ReadRowLines(StripAll(rows[0]), k, rest);
      ReadBody(rows[1..], k + 1);
      StripRowsCons(rows);
    }
  }

  /** A character of a piece of a split is a character of the whole. */
  lemma {:induction false} SplitChars(s: string, c: char, d: char)
    requires d !in s
    ensures forall k :: 0 <= k < |Split(s, c)| ==> d !in Split(s, c)[k]
    decreases |s|
  {
    if s != [] {
      assert d !in s[1..] by { assert forall x :: x in s[1..] ==> x in s; }
      SplitChars(s[1..], c, d);
    }
  }

  /** None of the strings holds a newline. */
  predicate NoNewline(xs: seq<string>) {
    forall k :: 0 <= k < |xs| ==> '\n' !in xs[k]
  }

  lemma StripAllNoNewline(cells: seq<string>)
    requires NoNewline(cells)
    ensures NoNewline(StripAll(cells))
  {
    forall j | 0 <= j < |cells| ensures '\n' !in StripAll(cells)[j] {
      assert '\n' !in cells[j];
    }
  }

  lemma CellLinesNoNewline(texts: seq<string>, tag: string)
    requires NoNewline(texts) && '\n' !in tag
    ensures NoNewline(CellLines(texts, tag))
  {
    forall j | 0 <= j < |texts| ensures '\n' !in CellLines(texts, tag)[j] {
      assert CellLines(texts, tag)[j] == "  <" + tag + ">" + texts[j] + "</" + tag + ">";
    }
  }

  lemma NoNewlineAppend(xs: seq<string>, ys: seq<string>)
    requires NoNewline(xs) && NoNewline(ys)
    ensures NoNewline(xs + ys)
  {
    forall k | 0 <= k < |xs + ys| ensures '\n' !in (xs + ys)[k] {
      if k >= |xs| {
        assert (xs + ys)[k] == ys[k - |xs|];
      }
    }
  }

  lemma {:induction false} BodyHasNoNewline(rows: seq<seq<string>>, k: nat)
    requires forall i :: 0 <= i < |rows| ==> NoNewline(rows[i])
    ensures NoNewline(Body(rows, k))
    decreases |rows|
  {
    if rows != [] {
      BodyHasNoNewline(rows[1..], k + 1);
      StripAllNoNewline(rows[0]);
      var cells := CellLines(StripAll(rows[0]), Tag(k));
      CellLinesNoNewline(StripAll(rows[0]), Tag(k));
      NoNewlineAppend([RowOpen], cells);
      NoNewlineAppend([RowOpen] + cells, [RowClose]);
      NoNewlineAppend(RowLines(rows[0], k), Body(rows[1..], k + 1));
    }
  }

  lemma TableTagsNoNewline()
    ensures '\n' !in TableOpen && '\n' !in TableClose
  {
    assert '\n' !in "<table border=\"1\" ";
    assert '\n' !in "style=\"border-collapse: ";
    assert '\n' !in "collapse; padding: 5px;\">";
  }

  /** No cell of the input holds a newline: lines are cut at newlines, cells inside lines. */
  lemma RowsHaveNoNewline(csv: string)
    ensures forall i :: 0 <= i < |Rows(csv)| ==> NoNewline(Rows(csv)[i])
  {
    var rows := Rows(csv);
    var lines := Split(Strip(csv), '\n');
    forall i | 0 <= i < |rows| ensures NoNewline(rows[i]) {
      assert rows[i] == Split(lines[i], ',');
      assert '\n' !in lines[i];
      SplitChars(lines[i], ',', '\n');
    }
  }

  /** The table's lines hold no newline when its body and its outer tags hold none. */
  lemma FramedNoNewline(open: string, body: seq<string>, close: string)
    requires '\n' !in open && '\n' !in close && NoNewline(body)
    ensures NoNewline([open] + body + [close])
  {
    NoNewlineAppend([open], body);
    NoNewlineAppend([open] + body, [close]);
  }

  /** No line the formatter writes holds a newline. */
  lemma LinesHaveNoNewline(csv: string)
    ensures NoNewline([TableOpen] + Body(Rows(csv), 0) + [TableClose])
  {
    RowsHaveNoNewline(csv);
    BodyHasNoNewline(Rows(csv), 0);
    TableTagsNoNewline();
    FramedNoNewline(TableOpen, Body(Rows(csv), 0), TableClose);
  }

  /** Reading the formatted table back gives every row of the input, each cell stripped. */
  lemma TableRoundTrip(csv: string)
    ensures ReadTable(Split(TableHtml(csv), '\n')) == Some(StripRows(Rows(csv)))
  {
    var body := Body(Rows(csv), 0);
    var lines := [TableOpen] + body + [TableClose];
    LinesHaveNoNewline(csv);
    SplitJoin(lines, '\n');
    assert lines[1..|lines| - 1] == body;
    ReadBody(Rows(csv), 0);
  }

  /** Empty input gives one row holding one empty header cell. */
  lemma EmptyCsv()
    ensures TableHtml("") == Join([TableOpen, RowOpen, "  <th></th>", RowClose, TableClose], "\n")
  {
    EmptyRows();
    EmptyHeader();
    var body := Body([[""]], 0);
    assert body == RowLines([""], 0) + Body([], 1);
    assert Body(Rows(""), 0) == body;
    assert [TableOpen] + body + [TableClose] == [TableOpen, RowOpen, "  <th></th>", RowClose, TableClose];
  }

  lemma EmptyRows()
    ensures Rows("") == [[""]]
  {
    assert Strip("") == "";
  }

  lemma EmptyHeader()
    ensures RowLines([""], 0) == [RowOpen, "  <th></th>", RowClose]
  {
    assert StripAll([""]) == [""];
    assert CellLine("th", "") == "  <th></th>";
    assert CellLines([""], "th") == ["  <th></th>"];
  }
}
