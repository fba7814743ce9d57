/**
 * `EmailData.rate_tables_processor` (src/models.py): the steps that take a message's HTML to its
 * cleaned rate tables, kept on the message object.  The document is parsed once; its tables are
 * located and swapped for placeholder ids; the text is cut into the quoted messages of the thread;
 * only the newest message, its tables put back, is searched for tables; the tables whose headers
 * make them rate tables are cleaned; and if any of them cannot be cleaned, the message gives none.
 */
module Email {
  import opened Common
  import opened Grid
  import opened Schema
  import opened Cleaners
  import TableLocator
  import Placeholders
  import ThreadSplit

  /** The serialisations of the tables, in document order (`soup.find_all('table')`). */
  function Serialisations(ts: seq<TableNode>): (htmls: seq<string>)
    ensures |htmls| == |ts|
  {
    seq(|ts|, k requires 0 <= k < |ts| => ts[k].html)
  }

  /** The ids `uuid4()` gives the recorded tables, one per table in order. */
  function Ids(newId: nat -> string, n: nat): (ids: seq<string>)
    ensures |ids| == n
  {
    seq(n, k requires 0 <= k < n => newId(k))
  }

  /** The recorded tables of a message, each with its id. */
  function TablesInfo(doc: Parsed, newId: nat -> string): (tagged: seq<Placeholders.Placeholder>) {
    var info := TableLocator.Locate(doc.text, Serialisations(doc.tables)).info;
    Placeholders.Tag(info, Ids(newId, |info|))
  }

  /** The message with every recorded table replaced by its id on a line of its own. */
  function Replacement(doc: Parsed, newId: nat -> string): string {
    var info := TableLocator.Locate(doc.text, Serialisations(doc.tables)).info;
    Placeholders.Encode(doc.text, info, Ids(newId, |info|))
  }

  /** The frames of the outer tables of the newest message, its tables put back. */
  function NewestFrames(parse: string -> Parsed, newest: string, tagged: seq<Placeholders.Placeholder>): seq<Frame> {
    ExtractOuter(Placeholders.Restore(newest, tagged), parse)
  }

  /** `[df for df in frames if dataframe_is_table_rates(df)]`: the rate tables in order, or
      `Raised` when the test raises for one of the frames. */
  function Selected(fields: seq<(string, seq<string>)>, frames: seq<Frame>): (r: Try<seq<Frame>>)
    ensures r.Ok? ==> |r.value| <= |frames|
    decreases |frames|
  {
    if frames == [] then Ok([])
    else
      match Selected(fields, frames[..|frames| - 1])
      case Raised => Raised
      case Ok(kept) =>
        match IsRateTable(fields, frames[|frames| - 1])
        case Raised => Raised
        case Ok(isRate) => Ok(if isRate then kept + [frames[|frames| - 1]] else kept)
  }

  /** The selection raises exactly when the test raises for one of the frames, and otherwise
      keeps exactly the frames the test accepts. */
  lemma {:induction false} SelectedMeaning(fields: seq<(string, seq<string>)>, frames: seq<Frame>)
    ensures Selected(fields, frames).Raised? <==>
      exists k :: 0 <= k < |frames| && IsRateTable(fields, frames[k]).Raised?
    ensures Selected(fields, frames).Ok? ==>
      forall df :: df in Selected(fields, frames).value <==> df in frames && IsRateTable(fields, df) == Ok(true)
    decreases |frames|
  {
    if frames != [] {
      var init, last := frames[..|frames| - 1], frames[|frames| - 1];
      SelectedMeaning(fields, init);
      assert forall k :: 0 <= k < |init| ==> init[k] == frames[k];
      assert frames == init + [last];
    }
  }

  /** The selection keeps the order of the frames: selecting from two runs of frames one after
      the other is selecting from each. */
  lemma {:induction false} SelectedAppend(fields: seq<(string, seq<string>)>, xs: seq<Frame>, ys: seq<Frame>)
    requires Selected(fields, xs).Ok? && Selected(fields, ys).Ok?
    ensures Selected(fields, xs + ys) == Ok(Selected(fields, xs).value + Selected(fields, ys).value)
    decreases |ys|
  {
    if ys == [] {
      assert xs + ys == xs;
      assert Selected(fields, ys) == Ok([]);
      assert Selected(fields, xs).value + [] == Selected(fields, xs).value;
    } else {
      var init, last := ys[..|ys| - 1], ys[|ys| - 1];
      var whole := xs + ys;
      assert whole[..|whole| - 1] == xs + init;
      assert whole[|whole| - 1] == last;
      assert Selected(fields, init).Ok?;
      SelectedAppend(fields, xs, init);
      var a, b := Selected(fields, xs).value, Selected(fields, init).value;
      assert IsRateTable(fields, last).Ok?;
      if IsRateTable(fields, last).value {
        assert Selected(fields, ys) == Ok(b + [last]);
        assert Selected(fields, whole) == Ok((a + b) + [last]);
        assert (a + b) + [last] == a + (b + [last]);
      } else {
        assert Selected(fields, ys) == Ok(b);
        assert Selected(fields, whole) == Ok(a + b);
      }
    }
  }

  /** `[postprocess_df(df) for df in raw]`: one entry per table, in order. */
  function PostprocessAll(raw: seq<Frame>, rev: map<string, string>, kw: seq<(string, string)>): (r: seq<Option<seq<RateRow>>>)
    requires forall k :: 0 <= k < |raw| ==> Rectangular(raw[k])
    ensures |r| == |raw|
  {
    seq(|raw|, k requires 0 <= k < |raw| => PostprocessDf(raw[k], rev, kw))
  }

  /** `any(x is None for x in rs)`. */
  predicate AnyFailed(rs: seq<Option<seq<RateRow>>>) {
    exists k :: 0 <= k < |rs| && rs[k].None?
  }

  /** The check after cleaning: nothing when one table could not be cleaned, every table
      otherwise. */
  function FailClosed(rs: seq<Option<seq<RateRow>>>): (r: seq<Option<seq<RateRow>>>)
    ensures (exists k :: 0 <= k < |rs| && rs[k].None?) ==> r == []
    ensures (forall k :: 0 <= k < |rs| ==> rs[k].Some?) ==> r == rs
  {
    if AnyFailed(rs) then [] else rs
  }

  /** Every frame a message yields is a rectangle, so every frame can be cleaned. */
  lemma FramesRectangular(content: string, parse: string -> Parsed)
    ensures forall df :: df in ExtractOuter(content, parse) ==> Rectangular(df)
  {
    if content != [] {
      var outer := OuterTables(parse(content).tables);
      var frames := ExtractOuter(content, parse);
      OuterFrames(content, parse);
      forall df | df in frames ensures Rectangular(df) {
        var k :| 0 <= k < |frames| && frames[k] == df;
        assert outer[k].rows != [];
        FrameRoundTrip(TextRows(outer[k]));
      }
    }
  }

  /** Every rate table selected from a message's frames is a rectangle. */
  lemma SelectedRectangular(fields: seq<(string, seq<string>)>, content: string, parse: string -> Parsed)
    requires Selected(fields, ExtractOuter(content, parse)).Ok?
    ensures var raw := Selected(fields, ExtractOuter(content, parse)).value;
      forall k :: 0 <= k < |raw| ==> Rectangular(raw[k])
  {
    var frames := ExtractOuter(content, parse);
    var raw := Selected(fields, frames).value;
    FramesRectangular(content, parse);
    SelectedMeaning(fields, frames);
    assert forall k :: 0 <= k < |raw| ==> raw[k] in frames;
  }

  /** The kept rate tables are all cleaned, one per selected table and in the same order, or
      there are none at all. */
  lemma RateTablesOutcome(raw: seq<Frame>, rev: map<string, string>, kw: seq<(string, string)>)
    requires forall k :: 0 <= k < |raw| ==> Rectangular(raw[k])
    ensures var r := FailClosed(PostprocessAll(raw, rev, kw));
      && (r == [] || |r| == |raw|)
      && (r == [] <==> raw == [] || exists k :: 0 <= k < |raw| && PostprocessDf(raw[k], rev, kw).None?)
      && forall k :: 0 <= k < |r| ==> r[k].Some? && r[k] == PostprocessDf(raw[k], rev, kw)
  {
    var all := PostprocessAll(raw, rev, kw);
    assert forall k :: 0 <= k < |raw| ==> all[k] == PostprocessDf(raw[k], rev, kw);
  }

  /** A message as the mail client reads it, and what the rate-table processing keeps on it. */
  class EmailData {
    var text: Option<string>
    var html: string
    var subject: Option<string>
    var sender: Option<string>
    var senderAddress: Option<string>
    var date: Option<string>

    var tablesInfo: seq<Placeholders.Placeholder>
    var replacement: string
    var restored: string
    var parts: seq<string>
    var rawRateTables: seq<Worked>
    var rateTables: seq<Option<seq<RateRow>>>

    /** `EmailData()`: nothing read yet. */
    constructor ()
      ensures text == None && html == [] && subject == None
      ensures sender == None && senderAddress == None && date == None
      ensures tablesInfo == [] && replacement == [] && restored == [] && parts == []
      ensures rawRateTables == [] && rateTables == []
    {
      text := None;
      html := [];
      subject := None;
      sender := None;
      senderAddress := None;
      date := None;
      tablesInfo := [];
      replacement := [];
      restored := [];
      parts := [];
      rawRateTables := [];
      rateTables := [];
    }

    /** `rate_tables_processor()`.  `parse` is BeautifulSoup, `newId(k)` the `uuid4()` of the
        `k`-th recorded table, `fields` the alias table, `rev` its reverse and `kw` the keyword
        table.  `raised` says that the rate-table test raised, which the source lets propagate. */
    method RateTablesProcessor(parse: string -> Parsed, newId: nat -> string,
                               fields: seq<(string, seq<string>)>, rev: map<string, string>,
                               kw: seq<(string, string)>)
      returns (raised: bool)
      modifies `tablesInfo, `replacement, `restored, `parts, `rawRateTables, `rateTables
      ensures tablesInfo == TablesInfo(parse(html), newId)
      ensures replacement == Replacement(parse(html), newId)
      ensures restored == Placeholders.Restore(replacement, tablesInfo)
      ensures parts == ThreadSplit.SplitHtml(replacement) && |parts| >= 1
      ensures raised <==> Selected(fields, NewestFrames(parse, parts[0], tablesInfo)).Raised?
      ensures raised ==> rawRateTables == old(rawRateTables) && rateTables == old(rateTables)
      ensures !raised ==> var selected := Selected(fields, NewestFrames(parse, parts[0], tablesInfo)).value;
        && (forall k :: 0 <= k < |selected| ==> Rectangular(selected[k]))
        && |rawRateTables| == |selected|
        && (forall k :: 0 <= k < |selected| ==> rawRateTables[k] == PostprocessInPlace(selected[k], rev, kw))
        && rateTables == FailClosed(PostprocessAll(selected, rev, kw))
    {
      SeparateTables(parse, newId);
      raised := ProcessNewest(parse, fields, rev, kw);
    }

    /** Lines 34-42 of `rate_tables_processor`: the tables located and swapped for their ids,
        the text put back together, and the thread cut into messages. */
    method SeparateTables(parse: string -> Parsed, newId: nat -> string)
      modifies `tablesInfo, `replacement, `restored, `parts
      ensures tablesInfo == TablesInfo(parse(html), newId)
      ensures replacement == Replacement(parse(html), newId)
      ensures restored == Placeholders.Restore(replacement, tablesInfo)
      ensures parts == ThreadSplit.SplitHtml(replacement) && |parts| >= 1
    {
      var soup := parse(html);
      var info := TableLocator.FindTablesPositions(soup.text, Serialisations(soup.tables));
      var tagged, encoded := Placeholders.ReplaceTablesWithIds(soup.text, info, Ids(newId, |info|));
      tablesInfo := tagged;
      replacement := encoded;
      restored := Placeholders.ReplaceIdsWithTables(replacement, tablesInfo);
      parts := ThreadSplit.SplitHtml(replacement);
    }

    /** `[postprocess_df(df) for df in self.raw_rate_tables]`: each raw table cleaned in turn,
        and, since `postprocess_df` works on the frame it is given, left as it leaves it. */
    method PostprocessRawTables(raw: seq<Frame>, rev: map<string, string>, kw: seq<(string, string)>)
      returns (cleaned: seq<Option<seq<RateRow>>>)
      requires forall k :: 0 <= k < |raw| ==> Rectangular(raw[k])
      requires |rawRateTables| == |raw| && forall k :: 0 <= k < |raw| ==> rawRateTables[k] == AsWorked(raw[k])
      modifies `rawRateTables
      ensures |rawRateTables| == |raw|
      ensures forall k :: 0 <= k < |raw| ==> rawRateTables[k] == PostprocessInPlace(raw[k], rev, kw)
      ensures cleaned == PostprocessAll(raw, rev, kw)
    {
      cleaned := [];
      for k := 0 to |raw|
        invariant |rawRateTables| == |raw| && |cleaned| == k
        invariant forall m :: 0 <= m < k ==> rawRateTables[m] == PostprocessInPlace(raw[m], rev, kw)
        invariant forall m :: 0 <= m < k ==> cleaned[m] == PostprocessDf(raw[m], rev, kw)
      {
        cleaned := cleaned + [PostprocessDf(raw[k], rev, kw)];
        rawRateTables := rawRateTables[k := PostprocessInPlace(raw[k], rev, kw)];
      }
    }

    /** Lines 44-53 of `rate_tables_processor`: the newest message's outer tables, those that are
        rate tables, and their cleaned rows, or none when one of them cannot be cleaned. */
    method ProcessNewest(parse: string -> Parsed, fields: seq<(string, seq<string>)>,
                         rev: map<string, string>, kw: seq<(string, string)>)
      returns (raised: bool)
      requires |parts| >= 1
      modifies `rawRateTables, `rateTables
      ensures raised <==> Selected(fields, NewestFrames(parse, parts[0], tablesInfo)).Raised?
      ensures raised ==> rawRateTables == old(rawRateTables) && rateTables == old(rateTables)
      ensures !raised ==> var selected := Selected(fields, NewestFrames(parse, parts[0], tablesInfo)).value;
        && (forall k :: 0 <= k < |selected| ==> Rectangular(selected[k]))
        && |rawRateTables| == |selected|
        && (forall k :: 0 <= k < |selected| ==> rawRateTables[k] == PostprocessInPlace(selected[k], rev, kw))
        && rateTables == FailClosed(PostprocessAll(selected, rev, kw))
    {
      var newest := Placeholders.ReplaceIdsWithTables(parts[0], tablesInfo);
      var frames := ExtractOuterHtmlTables(newest, parse);
      var selected := Selected(fields, frames);
      if selected.Raised? {
        return true;
      }
      raised := false;
      SelectedRectangular(fields, newest, parse);
      KeepRateTables(selected.value, rev, kw);
    }

    /** Lines 47-53 of `rate_tables_processor`: the rate tables kept as the raw tables, each
        cleaned, and the cleaned tables kept unless one of them could not be cleaned. */
    method KeepRateTables(raw: seq<Frame>, rev: map<string, string>, kw: seq<(string, string)>)
      requires forall k :: 0 <= k < |raw| ==> Rectangular(raw[k])
      modifies `rawRateTables, `rateTables
      ensures |rawRateTables| == |raw|
      ensures forall k :: 0 <= k < |raw| ==> rawRateTables[k] == PostprocessInPlace(raw[k], rev, kw)
      ensures rateTables == FailClosed(PostprocessAll(raw, rev, kw))
    {
      rawRateTables := seq(|raw|, k requires 0 <= k < |raw| => AsWorked(raw[k]));
      var cleaned := PostprocessRawTables(raw, rev, kw);
      if AnyFailed(cleaned) {
        rateTables := [];
      } else {
        rateTables := cleaned;
      }
    }
  }
}
