/**
 * Cleaning a rate table: `postprocess_df` and the cell cleaners it applies (src/utils.py).
 * The deployment's reversed alias table, from a normalised header to its canonical field name,
 * and the keyword dictionary are parameters.  `float()` is not modelled: a number is the decimal
 * text the regular expression captures.
 */
module Cleaners {
  import opened Common
  import opened Strings
  import opened Grid
  import opened Schema

  /** The text `\d+(?:\.\d+)?` captures: its integer digits, and its fraction digits or "". */
  datatype Decimal = Decimal(whole: string, frac: string)

  predicate AllDigits(s: string) {
    forall k :: 0 <= k < |s| ==> IsDigit(s[k])
  }

  /** A decimal as it is written. */
  function Render(d: Decimal): (s: string)
    ensures |s| >= |d.whole|
  {
    if d.frac == [] then d.whole else d.whole + "." + d.frac
  }

  /** What `float()` can read: at least one integer digit, and digits only. */
  predicate WellFormed(d: Decimal) {
    d.whole != [] && AllDigits(d.whole) && AllDigits(d.frac)
  }

  /** The characters `[^\S\n]` matches: white space other than the newline. */
  predicate IsBlank(c: char) {
    IsSpace(c) && c != '\n'
  }

  /** `re.sub(r'[^\S\n]', '', text)`. */
  function RemoveBlanks(s: string): (r: string)
    ensures forall c :: c in r <==> c in s && !IsBlank(c)
    ensures |r| <= |s|
  {
    if s == [] then []
    else
      assert forall c :: c in s <==> c == s[0] || c in s[1..];
      (if IsBlank(s[0]) then [] else [s[0]]) + RemoveBlanks(s[1..])
  }

  lemma {:induction false} RemoveBlanksAppend(a: string, b: string)
    ensures RemoveBlanks(a + b) == RemoveBlanks(a) + RemoveBlanks(b)
    decreases |a|
  {
    if a != [] {
      assert (a + b)[1..] == a[1..] + b;
      RemoveBlanksAppend(a[1..], b);
    } else {
      assert a + b == b;
    }
  }

  /** The index of the first digit. */
  function FirstDigit(s: string): (r: Option<nat>)
    ensures r.None? <==> forall k :: 0 <= k < |s| ==> !IsDigit(s[k])
    ensures r.Some? ==> r.value < |s| && IsDigit(s[r.value]) && forall k :: 0 <= k < r.value ==> !IsDigit(s[k])
  {
    if s == [] then None
    else if IsDigit(s[0]) then Some(0)
    else
      var r := FirstDigit(s[1..]);
      assert forall k :: 1 <= k < |s| ==> s[k] == s[1..][k - 1];
      if r.Some? then Some(r.value + 1) else None
  }

  /** Where the run of digits starting at `i` stops. */
  function DigitsEnd(s: string, i: nat): (j: nat)
    requires i <= |s|
    ensures i <= j <= |s|
    decreases |s| - i
  {
    if i < |s| && IsDigit(s[i]) then DigitsEnd(s, i + 1) else i
  }

  /** Everything from `i` up to where the run stops is a digit, and what stops it is not. */
  lemma {:induction false} DigitsRun(s: string, i: nat)
    requires i <= |s|
    ensures var j := DigitsEnd(s, i);
      (forall k :: i <= k < j ==> IsDigit(s[k])) && (j == |s| || !IsDigit(s[j]))
    decreases |s| - i
  {
    if i < |s| && IsDigit(s[i]) {
      DigitsRun(s, i + 1);
    }
  }

  /** `\d+(?:\.\d+)?` at the digit `i`: the longest run of digits, then a fraction if a dot and
      a digit follow. */
  function NumberAt(s: string, i: nat): (d: Decimal)
    requires i < |s|
  {
    var j := DigitsEnd(s, i);
    if FractionFollows(s, j) then Decimal(s[i..j], s[j + 1..DigitsEnd(s, j + 1)])
    else Decimal(s[i..j], [])
  }

  /** `^.*?(\d+(?:\.\d+)?).*$` searched line by line, first match, on a text without blanks: the
      lazy prefix stops at the first digit of the first line that has one, which is the first
      digit of the text. */
  function ReadNumber(s: string): (r: Option<Decimal>)
  {
    match FirstDigit(s)
    case None => None
    case Some(i) => Some(NumberAt(s, i))
  }

  /** `extract_first_number(text)`. */
  function ExtractFirstNumber(text: string): (r: Option<Decimal>)
  {
    ReadNumber(RemoveBlanks(text))
  }

  /** A number is found exactly when the text has a digit. */
  lemma ReadNumberNone(s: string)
    ensures ReadNumber(s).None? <==> forall k :: 0 <= k < |s| ==> !IsDigit(s[k])
  {
  }

  /** The number at a digit is well formed, written there, and the longest number there. */
  lemma NumberAtFound(s: string, i: nat)
    requires i < |s| && IsDigit(s[i])
    ensures WellFormed(NumberAt(s, i))
    ensures WrittenAt(s, i, NumberAt(s, i))
    ensures NumberAt(s, i).frac == [] ==> !FractionFollows(s, i + |NumberAt(s, i).whole|)
  {
    var j := DigitsEnd(s, i);
    DigitsRun(s, i);
    DigitsSlice(s, i, j);
    if FractionFollows(s, j) {
      var k := DigitsEnd(s, j + 1);
      DigitsRun(s, j + 1);
      DigitsSlice(s, j + 1, k);
      WholeAndFraction(s, i, j, k);
    } else {
      var d := Decimal(s[i..j], []);
      assert NumberAt(s, i) == d;
      assert Render(d) == s[i..j];
    }
  }

  /** A dot and a digit at `j`: a fraction follows. */
  predicate FractionFollows(s: string, j: nat) {
    j + 1 < |s| && s[j] == '.' && IsDigit(s[j + 1])
  }

  /** `d` is written at `i` and no digit follows it. */
  predicate WrittenAt(s: string, i: nat, d: Decimal) {
    && i + |Render(d)| <= |s| && s[i..i + |Render(d)|] == Render(d)
    && (i + |Render(d)| == |s| || !IsDigit(s[i + |Render(d)|]))
  }

  lemma WholeAndFraction(s: string, i: nat, j: nat, k: nat)
    requires i < j && FractionFollows(s, j) && DigitsEnd(s, i) == j && DigitsEnd(s, j + 1) == k
    ensures NumberAt(s, i) == Decimal(s[i..j], s[j + 1..k])
    ensures WrittenAt(s, i, Decimal(s[i..j], s[j + 1..k]))
  {
    var w, f := s[i..j], s[j + 1..k];
    DigitsRun(s, j + 1);
    assert Render(Decimal(w, f)) == w + "." + f;
    assert s[i..k] == w + [s[j]] + f;
  }

  /** What is found is well formed, written in the blank-free text at its first digit, and the
      longest such number there. */
  lemma ReadNumberFound(s: string)
    requires ReadNumber(s).Some?
    ensures ReadNumber(s) == Some(NumberAt(s, FirstDigit(s).value))
    ensures var i := FirstDigit(s).value;
      && IsDigit(s[i]) && (forall k :: 0 <= k < i ==> !IsDigit(s[k]))
      && WellFormed(NumberAt(s, i))
  {
    NumberAtFound(s, FirstDigit(s).value);
  }

  lemma ExtractFirstNumberNone(text: string)
    ensures ExtractFirstNumber(text).None? <==> forall c :: c in text ==> !IsDigit(c)
  {
    var s := RemoveBlanks(text);
    ReadNumberNone(s);
    assert (forall k :: 0 <= k < |s| ==> !IsDigit(s[k])) <==> (forall c :: c in s ==> !IsDigit(c));
  }

  /** The run of digits from `i` stops at `j` when the digits reach `j` and `j` is not one. */
  lemma {:induction false} DigitsEndAt(s: string, i: nat, j: nat)
    requires i <= j <= |s| && (forall k :: i <= k < j ==> IsDigit(s[k])) && (j == |s| || !IsDigit(s[j]))
    ensures DigitsEnd(s, i) == j
    decreases j - i
  {
    if i < j {
      DigitsEndAt(s, i + 1, j);
    }
  }

  lemma DigitsSlice(s: string, i: nat, j: nat)
    requires i <= j <= |s| && forall k :: i <= k < j ==> IsDigit(s[k])
    ensures AllDigits(s[i..j])
  {
    forall k | 0 <= k < j - i ensures IsDigit(s[i..j][k]) {
      assert s[i..j][k] == s[i + k];
    }
  }

  /** Writing a well-formed number and reading it back gives the number. */
  lemma RenderRead(d: Decimal)
    requires WellFormed(d)
    ensures ExtractFirstNumber(Render(d)) == Some(d)
  {
    RenderNoBlank(d);
    RemoveBlanksNone(Render(d));
    if d.frac == [] {
      ReadWhole(d.whole);
    } else {
      ReadWholeAndFraction(d.whole, d.frac);
    }
  }

  lemma ReadWhole(w: string)
    requires w != [] && AllDigits(w)
    ensures ReadNumber(w) == Some(Decimal(w, []))
  {
    assert FirstDigit(w) == Some(0);
    DigitsEndAt(w, 0, |w|);
    WholeOnly(w, 0, |w|);
    assert w[0..|w|] == w;
  }

  lemma ReadWholeAndFraction(w: string, f: string)
    requires w != [] && AllDigits(w) && f != [] && AllDigits(f)
    ensures ReadNumber(w + "." + f) == Some(Decimal(w, f))
  {
    var s, n := w + "." + f, |w|;
    assert forall k :: 0 <= k < n ==> s[k] == w[k];
    assert s[n] == '.';
    assert forall k :: n + 1 <= k < |s| ==> s[k] == f[k - n - 1];
    assert FirstDigit(s) == Some(0);
    DigitsEndAt(s, 0, n);
    DigitsEndAt(s, n + 1, |s|);
    WholeAndFraction(s, 0, n, |s|);
    assert s[0..n] == w;
    assert s[n + 1..|s|] == f;
  }

  lemma WholeOnly(s: string, i: nat, j: nat)
    requires i < |s| && DigitsEnd(s, i) == j && !FractionFollows(s, j)
    ensures NumberAt(s, i) == Decimal(s[i..j], [])
  {
  }

  /** A written number has no blank: its digits, and its dot before a fraction. */
  lemma RenderNoBlank(d: Decimal)
    requires WellFormed(d)
    ensures forall c :: c in Render(d) ==> !IsBlank(c)
  {
    var s, w := Render(d), |d.whole|;
    if d.frac != [] {
      assert s == d.whole + "." + d.frac;
    }
    forall c | c in s ensures !IsBlank(c) {
      var k :| 0 <= k < |s| && s[k] == c;
      if k < w {
        assert s[k] == d.whole[k];
      } else if k > w {
        assert s[k] == d.frac[k - w - 1];
      }
    }
  }

  lemma {:induction false} RemoveBlanksNone(s: string)
    requires forall c :: c in s ==> !IsBlank(c)
    ensures RemoveBlanks(s) == s
    decreases |s|
  {
    if s != [] {
      assert s[0] in s;
      assert forall c :: c in s[1..] ==> c in s;
      RemoveBlanksNone(s[1..]);
      assert s == [s[0]] + s[1..];
    }
  }

  /** The first digit of a text behind a digit-free prefix is found behind that prefix. */
  lemma {:induction false} FirstDigitSkips(x: string, y: string)
    requires forall k :: 0 <= k < |x| ==> !IsDigit(x[k])
    ensures FirstDigit(x + y).None? <==> FirstDigit(y).None?
    ensures FirstDigit(y).Some? ==> FirstDigit(x + y) == Some(|x| + FirstDigit(y).value)
  {
    var s := x + y;
    assert forall k :: 0 <= k < |x| ==> s[k] == x[k];
    assert forall k :: 0 <= k < |y| ==> s[|x| + k] == y[k];
    if FirstDigit(y).Some? {
      var j := FirstDigit(y).value;
      assert IsDigit(s[|x| + j]);
      var r := FirstDigit(s).value;
      assert IsDigit(y[r - |x|]);
    } else {
      forall k | 0 <= k < |s| ensures !IsDigit(s[k]) {
        if k >= |x| {
          assert s[k] == y[k - |x|];
        }
      }
    }
  }

  /** A run of digits ends at the same place behind a prefix. */
  lemma {:induction false} DigitsEndShift(x: string, y: string, i: nat)
    requires i <= |y|
    ensures DigitsEnd(x + y, |x| + i) == |x| + DigitsEnd(y, i)
    decreases |y| - i
  {
    if i < |y| {
      assert (x + y)[|x| + i] == y[i];
      if IsDigit(y[i]) {
        DigitsEndShift(x, y, i + 1);
      }
    }
  }

  lemma SliceShift(x: string, y: string, a: nat, b: nat)
    requires a <= b <= |y|
    ensures (x + y)[|x| + a..|x| + b] == y[a..b]
  {
  }

  /** The number at a digit is the same behind a prefix. */
  lemma NumberAtShift(x: string, y: string, i: nat)
    requires i < |y|
    ensures NumberAt(x + y, |x| + i) == NumberAt(y, i)
  {
    var j := DigitsEnd(y, i);
    DigitsEndShift(x, y, i);
    FractionShift(x, y, j);
    if FractionFollows(y, j) {
      var k := DigitsEnd(y, j + 1);
      DigitsEndShift(x, y, j + 1);
      FractionAtShift(x, y, i, j, k);
    } else {
      WholeAtShift(x, y, i, j);
    }
  }

  lemma WholeAtShift(x: string, y: string, i: nat, j: nat)
    requires i < |y| && DigitsEnd(y, i) == j && !FractionFollows(y, j)
    requires DigitsEnd(x + y, |x| + i) == |x| + j && !FractionFollows(x + y, |x| + j)
    ensures NumberAt(x + y, |x| + i) == NumberAt(y, i)
  {
    SliceShift(x, y, i, j);
    WholeOnly(x + y, |x| + i, |x| + j);
    WholeOnly(y, i, j);
  }

  lemma FractionAtShift(x: string, y: string, i: nat, j: nat, k: nat)
    requires i < |y| && DigitsEnd(y, i) == j && FractionFollows(y, j) && DigitsEnd(y, j + 1) == k
    requires DigitsEnd(x + y, |x| + i) == |x| + j && FractionFollows(x + y, |x| + j)
    requires DigitsEnd(x + y, |x| + j + 1) == |x| + k
    ensures NumberAt(x + y, |x| + i) == NumberAt(y, i)
  {
    SliceShift(x, y, i, j);
    SliceShift(x, y, j + 1, k);
    SameFraction(x + y, |x| + i, |x| + j, |x| + k, y, i, j, k);
  }

  /** Equal digits and equal fractions read as the same number. */
  lemma SameFraction(s: string, a: nat, ja: nat, ka: nat, t: string, b: nat, jb: nat, kb: nat)
    requires a < |s| && DigitsEnd(s, a) == ja && FractionFollows(s, ja) && DigitsEnd(s, ja + 1) == ka
    requires b < |t| && DigitsEnd(t, b) == jb && FractionFollows(t, jb) && DigitsEnd(t, jb + 1) == kb
    requires s[a..ja] == t[b..jb] && s[ja + 1..ka] == t[jb + 1..kb]
    ensures NumberAt(s, a) == NumberAt(t, b)
  {
    WithFraction(s, a, ja, ka);
    WithFraction(t, b, jb, kb);
  }

  lemma WithFraction(s: string, i: nat, j: nat, k: nat)
    requires i < |s| && DigitsEnd(s, i) == j && FractionFollows(s, j) && DigitsEnd(s, j + 1) == k
    ensures NumberAt(s, i) == Decimal(s[i..j], s[j + 1..k])
  {
  }

  lemma FractionShift(x: string, y: string, j: nat)
    requires j <= |y|
    ensures FractionFollows(x + y, |x| + j) == FractionFollows(y, j)
  {
    if j + 1 < |y| {
      assert (x + y)[|x| + j] == y[j] && (x + y)[|x| + j + 1] == y[j + 1];
    }
  }

  /** Text without digits in front of a number does not change what is read. */
  lemma ReadNumberSkips(x: string, y: string)
    requires forall k :: 0 <= k < |x| ==> !IsDigit(x[k])
    ensures ReadNumber(x + y) == ReadNumber(y)
  {
    FirstDigitSkips(x, y);
    var f := FirstDigit(y);
    if f.Some? {
      NumberAtShift(x, y, f.value);
      assert ReadNumber(x + y) == Some(NumberAt(x + y, |x| + f.value));
    } else {
      assert FirstDigit(x + y).None?;
    }
  }

  /** `cut_text_before_last_equal(text)`: the text from its last `=` on.  Without any `=` the
      source raises (`[-1]` of an empty list); its one caller checks first. */
  function CutTextBeforeLastEqual(text: string): (r: string)
    requires '=' in text
    ensures |r| >= 1 && r[0] == '=' && '=' !in r[1..]
    ensures |r| <= |text| && r == text[|text| - |r|..]
  {
    var last := text[|text| - 1];
    if last == '=' then "="
    else
      var init := text[..|text| - 1];
      assert text == init + [last];
      assert '=' in init;
      CutTextBeforeLastEqual(init) + [last]
  }

  /** `extract_number_from_entry(text)`: the first number after the last `=`, if there is one. */
  function ExtractNumberFromEntry(text: string): (r: Option<Decimal>)
  {
    ExtractFirstNumber(if '=' in text then CutTextBeforeLastEqual(text) else text)
  }

  /** The cut of a text ending in `=` and then text without one is that `=` and that text. */
  lemma CutIsUnique(a: string, b: string)
    requires '=' !in b
    ensures CutTextBeforeLastEqual(a + "=" + b) == "=" + b
  {
    var text := a + "=" + b;
    assert text[|a|] == '=';
    var r := CutTextBeforeLastEqual(text);
    var n := |text| - |r|;
    assert forall k :: |a| < k < |text| ==> text[k] == b[k - |a| - 1];
    assert text[n] == r[0] == '=';
    assert n <= |a|;
    assert r[|a| - n] == text[|a|] == '=';
    assert forall j :: 1 <= j < |r| ==> r[j] == r[1..][j - 1];
    assert n == |a|;
    assert text[|a|..] == "=" + b;
  }

  /** In an entry like `100+50=150`, only what follows the last `=` counts. */
  lemma EntryAfterLastEqual(a: string, b: string)
    requires '=' !in b
    ensures ExtractNumberFromEntry(a + "=" + b) == ExtractFirstNumber(b)
  {
    var text := a + "=" + b;
    assert text[|a|] == '=';
    CutIsUnique(a, b);
    RemoveBlanksAppend("=", b);
    assert RemoveBlanks("=") == "=";
    ReadNumberSkips("=", RemoveBlanks(b));
  }

  /** The service name of the first keyword, in the dictionary's order, inside the text. */
  function FirstKeyword(low: string, kw: seq<(string, string)>): (r: string)
    ensures (forall i :: 0 <= i < |kw| ==> !Occurs(kw[i].0, low)) ==> r == []
    ensures (exists i :: 0 <= i < |kw| && Occurs(kw[i].0, low)) ==>
      exists i :: 0 <= i < |kw| && Occurs(kw[i].0, low) && r == kw[i].1 && (forall j :: 0 <= j < i ==> !Occurs(kw[j].0, low))
  {
    if kw == [] then []
    else if Occurs(kw[0].0, low) then kw[0].1
    else
      var r := FirstKeyword(low, kw[1..]);
      assert forall i :: 1 <= i < |kw| ==> kw[i] == kw[1..][i - 1];
      r
  }

  /** `service_replace_by_service1C(service, keyword_dict)`. */
  function ServiceReplace(service: string, kw: seq<(string, string)>): (r: string)
  {
    FirstKeyword(Lower(service), kw)
  }

  /** The replacement ignores case. */
  lemma ServiceIgnoresCase(service: string, kw: seq<(string, string)>)
    ensures ServiceReplace(Lower(service), kw) == ServiceReplace(service, kw)
  {
    LowerIdempotent(service);
  }

  /** A row of a cleaned rate table. */
  datatype RateRow = RateRow(service: string, entry: Option<Decimal>, rate: Option<Decimal>)

  /** `remove_false_name_rows(df)`: the rows whose service is not empty, in their order. */
  function RemoveFalseNameRows(rows: seq<RateRow>): (kept: seq<RateRow>)
    ensures forall r :: r in kept <==> r in rows && r.service != []
    ensures |kept| <= |rows|
  {
    if rows == [] then []
    else
      var rest := RemoveFalseNameRows(rows[1..]);
      assert forall r :: r in rows <==> r == rows[0] || r in rows[1..];
      if rows[0].service != [] then [rows[0]] + rest else rest
  }

  /** Filtering keeps the order: filtering two blocks of rows is filtering each. */
  lemma {:induction false} RemoveFalseNameRowsAppend(xs: seq<RateRow>, ys: seq<RateRow>)
    ensures RemoveFalseNameRows(xs + ys) == RemoveFalseNameRows(xs) + RemoveFalseNameRows(ys)
    decreases |xs|
  {
    if xs != [] {
      assert (xs + ys)[1..] == xs[1..] + ys;
      RemoveFalseNameRowsAppend(xs[1..], ys);
    } else {
      assert xs + ys == ys;
    }
  }

  /** The index of the first `x`. */
  function IndexOf(xs: seq<string>, x: string): (i: nat)
    requires x in xs
    ensures i < |xs| && xs[i] == x && forall k :: 0 <= k < i ==> xs[k] != x
  {
    if xs[0] == x then 0
    else
      assert x in xs[1..];
      var i := IndexOf(xs[1..], x);
      assert forall k :: 1 <= k < |xs| ==> xs[k] == xs[1..][k - 1];
      i + 1
  }

  /** The column named `name`, when exactly one column is. */
  function ColumnOf(names: seq<string>, name: string): (r: Option<nat>)
    ensures r.Some? ==> r.value < |names| && names[r.value] == name
    ensures r.Some? <==> multiset(names)[name] == 1
  {
    if name !in names then None
    else
      var i := IndexOf(names, name);
      assert names == names[..i] + [name] + names[i + 1..];
      assert name !in names[..i];
      if name in names[i + 1..] then None else Some(i)
  }

  /** A frame is a rectangle: every data row has a cell for every column. */
  predicate Rectangular(df: Frame) {
    forall i :: 0 <= i < |df.data| ==> |df.data[i]| == |df.columns|
  }

  /** Every column has a label. */
  predicate LabelsPresent(df: Frame) {
    forall k :: 0 <= k < |df.columns| ==> df.columns[k].Some?
  }

  /** Every name is a key of the reversed alias table. */
  predicate AllKnown(names: seq<string>, rev: map<string, string>) {
    forall k :: 0 <= k < |names| ==> names[k] in rev
  }

  /** The canonical field name of every column, once every label is present and known. */
  function CanonicalNames(df: Frame, rev: map<string, string>): (r: Option<seq<string>>)
    ensures r.Some? ==> |r.value| == |df.columns|
  {
    if !LabelsPresent(df) then None
    else
      var names := NormalizeAll(Labels(df.columns));
      if AllKnown(names, rev)
      then Some(seq(|names|, k requires 0 <= k < |names| => rev[names[k]]))
      else None
  }

  /** Renaming fails exactly when a label is missing (`None.lower()`) or a normalised label is not
      in the reversed alias table (a `KeyError`); otherwise each column gets its label's field. */
  lemma CanonicalNamesOutcome(df: Frame, rev: map<string, string>)
    ensures CanonicalNames(df, rev).None? <==>
      exists k :: 0 <= k < |df.columns| && (df.columns[k].None? || Normalize(df.columns[k].value) !in rev)
    ensures CanonicalNames(df, rev).Some? ==>
      forall k :: 0 <= k < |df.columns| ==> CanonicalNames(df, rev).value[k] == rev[Normalize(df.columns[k].value)]
  {
    if !LabelsPresent(df) {
      var k :| 0 <= k < |df.columns| && df.columns[k].None?;
    } else {
      var names := NormalizeAll(Labels(df.columns));
      assert forall k :: 0 <= k < |names| ==> names[k] == Normalize(df.columns[k].value);
      if !AllKnown(names, rev) {
        var k :| 0 <= k < |names| && names[k] !in rev;
        assert Normalize(df.columns[k].value) !in rev;
      }
    }
  }

  /** The three columns `postprocess_df` reads, as (service, entry, rate). */
  function UsedColumns(canon: seq<string>): (r: Option<(nat, nat, nat)>)
    ensures r.Some? ==> r.value.0 < |canon| && r.value.1 < |canon| && r.value.2 < |canon|
    ensures r.Some? ==> canon[r.value.0] == Service && canon[r.value.1] == Entry && canon[r.value.2] == Rate
    ensures r.Some? <==>
      multiset(canon)[Service] == 1 && multiset(canon)[Entry] == 1 && multiset(canon)[Rate] == 1
  {
    match (ColumnOf(canon, Service), ColumnOf(canon, Entry), ColumnOf(canon, Rate))
    case (Some(s), Some(e), Some(t)) => Some((s, e, t))
    case _ => None
  }

  /** The three columns are inside the frame. */
  predicate InFrame(df: Frame, cols: (nat, nat, nat)) {
    cols.0 < |df.columns| && cols.1 < |df.columns| && cols.2 < |df.columns|
  }

  /** Every cell of the three columns is there. */
  predicate CellsPresent(df: Frame, cols: (nat, nat, nat))
    requires Rectangular(df) && InFrame(df, cols)
  {
    forall i :: 0 <= i < |df.data| ==>
      df.data[i][cols.0].Some? && df.data[i][cols.1].Some? && df.data[i][cols.2].Some?
  }

  /** The cleaned row made from data row `i`: the service replaced by its keyword's name, the
      number after the last `=` of the entry, and the first number of the rate. */
  function CleanRow(df: Frame, cols: (nat, nat, nat), kw: seq<(string, string)>, i: nat): (r: RateRow)
    requires Rectangular(df) && InFrame(df, cols) && CellsPresent(df, cols) && i < |df.data|
  {
    RateRow(ServiceReplace(df.data[i][cols.0].value, kw),
            ExtractNumberFromEntry(df.data[i][cols.1].value),
            ExtractFirstNumber(df.data[i][cols.2].value))
  }

  /** Every data row cleaned, in order. */
  function CleanRows(df: Frame, cols: (nat, nat, nat), kw: seq<(string, string)>): (rows: seq<RateRow>)
    requires Rectangular(df) && InFrame(df, cols) && CellsPresent(df, cols)
    ensures |rows| == |df.data|
  {
    seq(|df.data|, i requires 0 <= i < |df.data| => CleanRow(df, cols, kw, i))
  }

  /** `postprocess_df(df)`: every label normalised and renamed to its canonical field; the rate,
      entry and service columns cleaned; rows without a service dropped.  Any exception, that is
      a missing or unknown label, a canonical field named by no column or by two, or a missing
      cell in one of the three columns, makes it return `None`. */
  function PostprocessDf(df: Frame, rev: map<string, string>, kw: seq<(string, string)>): (r: Option<seq<RateRow>>)
    requires Rectangular(df)
    ensures r.Some? ==> |r.value| <= |df.data| && forall row :: row in r.value ==> row.service != []
  {
    match CanonicalNames(df, rev)
    case None => None
    case Some(canon) =>
      match UsedColumns(canon)
      case None => None
      case Some(cols) =>
        if !CellsPresent(df, cols) then None
        else Some(RemoveFalseNameRows(CleanRows(df, cols, kw)))
  }

  /** `postprocess_df` fails exactly when renaming fails, when one of the three fields is named
      by no column or by two, or when a cell of those columns is missing. */
  lemma PostprocessFails(df: Frame, rev: map<string, string>, kw: seq<(string, string)>)
    requires Rectangular(df)
    ensures PostprocessDf(df, rev, kw).None? <==>
      || CanonicalNames(df, rev).None?
      || multiset(CanonicalNames(df, rev).value)[Service] != 1
      || multiset(CanonicalNames(df, rev).value)[Entry] != 1
      || multiset(CanonicalNames(df, rev).value)[Rate] != 1
      || !CellsPresent(df, UsedColumns(CanonicalNames(df, rev).value).value)
  {
  }

  /** The positions of the rows whose service is not empty, in increasing order. */
  function ServiceRows(rows: seq<RateRow>): (idx: seq<nat>)
    ensures forall j :: 0 <= j < |idx| ==> idx[j] < |rows|
    decreases |rows|
  {
    if rows == [] then []
    else
      var n := |rows| - 1;
      var idx := ServiceRows(rows[..n]);
      if rows[n].service != [] then idx + [n] else idx
  }

  /** `ServiceRows` lists, in increasing order, exactly the positions of the rows with a service. */
  lemma {:induction false} ServiceRowsMeaning(rows: seq<RateRow>)
    ensures var idx := ServiceRows(rows);
      && (forall j, k :: 0 <= j < k < |idx| ==> idx[j] < idx[k])
      && (forall i :: 0 <= i < |rows| ==> (i in idx <==> rows[i].service != []))
    decreases |rows|
  {
    if rows != [] {
      var n := |rows| - 1;
      ServiceRowsMeaning(rows[..n]);
      var idx0 := ServiceRows(rows[..n]);
      assert forall i :: 0 <= i < n ==> rows[..n][i] == rows[i];
      assert n !in idx0;
    }
  }

  /** Filtering picks exactly the rows `ServiceRows` lists, in order. */
  lemma {:induction false} FilterPicksServiceRows(rows: seq<RateRow>)
    ensures var kept := RemoveFalseNameRows(rows); var idx := ServiceRows(rows);
      |kept| == |idx| && forall j :: 0 <= j < |idx| ==> kept[j] == rows[idx[j]]
    decreases |rows|
  {
    if rows != [] {
      var n := |rows| - 1;
      var front := rows[..n];
      FilterPicksServiceRows(front);
      assert rows == front + [rows[n]];
      RemoveFalseNameRowsAppend(front, [rows[n]]);
      var kept0, idx0 := RemoveFalseNameRows(front), ServiceRows(front);
      if rows[n].service != [] {
        assert RemoveFalseNameRows([rows[n]]) == [rows[n]];
        assert RemoveFalseNameRows(rows) == kept0 + [rows[n]];
        assert ServiceRows(rows) == idx0 + [n];
        PicksExtend(rows, n, kept0, idx0);
      } else {
        assert RemoveFalseNameRows([rows[n]]) == [];
        assert RemoveFalseNameRows(rows) == kept0;
        assert ServiceRows(rows) == idx0;
        PicksSame(rows, n, kept0, idx0);
      }
    }
  }

  /** A row picked from the front is picked from the whole. */
  lemma PicksSame(rows: seq<RateRow>, n: nat, kept: seq<RateRow>, idx: seq<nat>)
    requires n < |rows| && |kept| == |idx|
    requires forall j :: 0 <= j < |idx| ==> idx[j] < n && kept[j] == rows[..n][idx[j]]
    ensures forall j :: 0 <= j < |idx| ==> kept[j] == rows[idx[j]]
  {
  }

  /** Picking row `n` after the rows picked from the front. */
  lemma PicksExtend(rows: seq<RateRow>, n: nat, kept: seq<RateRow>, idx: seq<nat>)
    requires n < |rows| && |kept| == |idx|
    requires forall j :: 0 <= j < |idx| ==> idx[j] < n && kept[j] == rows[..n][idx[j]]
    ensures forall j :: 0 <= j < |idx| + 1 ==> (kept + [rows[n]])[j] == rows[(idx + [n])[j]]
  {
    PicksSame(rows, n, kept, idx);
  }

  /** What `postprocess_df` returns: the three columns it reads are the columns renamed to the
      service, the entry and the rate; and the result is, in data-row order, the cleaned row of
      exactly the data rows whose cleaned service is not empty. */
  lemma PostprocessRows(df: Frame, rev: map<string, string>, kw: seq<(string, string)>)
    requires Rectangular(df) && PostprocessDf(df, rev, kw).Some?
    ensures var cols := UsedColumns(CanonicalNames(df, rev).value).value;
      && InFrame(df, cols) && CellsPresent(df, cols) && LabelsPresent(df)
      && rev[Normalize(df.columns[cols.0].value)] == Service
      && rev[Normalize(df.columns[cols.1].value)] == Entry
      && rev[Normalize(df.columns[cols.2].value)] == Rate
      && var idx := ServiceRows(CleanRows(df, cols, kw));
         var out := PostprocessDf(df, rev, kw).value;
         && (forall j, k :: 0 <= j < k < |idx| ==> idx[j] < idx[k])
         && (forall i :: 0 <= i < |df.data| ==> (i in idx <==> CleanRow(df, cols, kw, i).service != []))
         && |out| == |idx|
         && forall j :: 0 <= j < |idx| ==> idx[j] < |df.data| && out[j] == CleanRow(df, cols, kw, idx[j])
  {
    var canon := CanonicalNames(df, rev).value;
    var cols := UsedColumns(canon).value;
    CanonicalNamesOutcome(df, rev);
    assert PostprocessDf(df, rev, kw).value == RemoveFalseNameRows(CleanRows(df, cols, kw));
    CleanedInOrder(df, cols, kw);
  }

  /** The rows kept from the cleaned data rows are, in order, exactly those with a service. */
  lemma CleanedInOrder(df: Frame, cols: (nat, nat, nat), kw: seq<(string, string)>)
    requires Rectangular(df) && InFrame(df, cols) && CellsPresent(df, cols)
    ensures var idx := ServiceRows(CleanRows(df, cols, kw));
      var out := RemoveFalseNameRows(CleanRows(df, cols, kw));
      && (forall j, k :: 0 <= j < k < |idx| ==> idx[j] < idx[k])
      && (forall i :: 0 <= i < |df.data| ==> (i in idx <==> CleanRow(df, cols, kw, i).service != []))
      && |out| == |idx|
      && forall j :: 0 <= j < |idx| ==> idx[j] < |df.data| && out[j] == CleanRow(df, cols, kw, idx[j])
  {
    var rows := CleanRows(df, cols, kw);
    FilterPicksServiceRows(rows);
    ServiceRowsMeaning(rows);
    assert forall i :: 0 <= i < |df.data| ==> rows[i] == CleanRow(df, cols, kw, i);
  }

  /** The rows kept are cleaned data rows, and every cleaned data row with a service is kept. */
  lemma CleanRowsKept(df: Frame, cols: (nat, nat, nat), kw: seq<(string, string)>)
    requires Rectangular(df) && InFrame(df, cols) && CellsPresent(df, cols)
    ensures var kept := RemoveFalseNameRows(CleanRows(df, cols, kw));
      && (forall row :: row in kept ==> exists i :: 0 <= i < |df.data| && row == CleanRow(df, cols, kw, i))
      && (forall i :: 0 <= i < |df.data| && CleanRow(df, cols, kw, i).service != [] ==> CleanRow(df, cols, kw, i) in kept)
  {
    var all := CleanRows(df, cols, kw);
    forall i | 0 <= i < |df.data| ensures CleanRow(df, cols, kw, i) in all {
      assert all[i] == CleanRow(df, cols, kw, i);
    }
  }

  /** A column of a frame: its cells as read from the table, or the numbers an `apply` put in
      their place. */
  datatype Column = Texts(cells: seq<Option<string>>) | Numbers(values: seq<Option<Decimal>>)

  /** A frame as the object `postprocess_df` is given is left by it: labels and columns. */
  datatype Worked = Worked(labels: seq<Option<string>>, columns: seq<Column>)

  /** The cells of column `k`, top to bottom. */
  function ColumnCells(df: Frame, k: nat): (cells: seq<Option<string>>)
    requires Rectangular(df) && k < |df.columns|
    ensures |cells| == |df.data|
    ensures forall i :: 0 <= i < |df.data| ==> cells[i] == df.data[i][k]
  {
    seq(|df.data|, i requires 0 <= i < |df.data| => df.data[i][k])
  }

  /** A frame before anything is done to it, column by column. */
  function AsWorked(df: Frame): (w: Worked)
    requires Rectangular(df)
    ensures w.labels == df.columns && |w.columns| == |df.columns|
    ensures forall k :: 0 <= k < |df.columns| ==> w.columns[k] == Texts(ColumnCells(df, k))
  {
    Worked(df.columns, seq(|df.columns|, k requires 0 <= k < |df.columns| => Texts(ColumnCells(df, k))))
  }

  /** No cell is missing. */
  predicate Present(cells: seq<Option<string>>) {
    forall i :: 0 <= i < |cells| ==> cells[i].Some?
  }

  /** Labels for every name. */
  function Somes(names: seq<string>): (labels: seq<Option<string>>)
    ensures |labels| == |names| && forall k :: 0 <= k < |names| ==> labels[k] == Some(names[k])
  {
    seq(|names|, k requires 0 <= k < |names| => Some(names[k]))
  }

  /** The column `df[name].apply(...)` computes for field `name` from that column's cells. */
  function Applied(name: string, cells: seq<Option<string>>, kw: seq<(string, string)>): (c: Column)
    requires Present(cells)
  {
    if name == Rate then Numbers(seq(|cells|, i requires 0 <= i < |cells| => ExtractFirstNumber(cells[i].value)))
    else if name == Entry then Numbers(seq(|cells|, i requires 0 <= i < |cells| => ExtractNumberFromEntry(cells[i].value)))
    else Texts(seq(|cells|, i requires 0 <= i < |cells| => Some(ServiceReplace(cells[i].value, kw))))
  }

  /** `df[name] = df[name].apply(...)`: the one column named `name` replaced, or `None` when the
      statement raises because no column or two are named so or a cell is missing. */
  function ApplyField(df: Frame, canon: seq<string>, cs: seq<Column>, name: string, kw: seq<(string, string)>): (r: Option<seq<Column>>)
    requires Rectangular(df) && |canon| == |df.columns| == |cs|
    ensures r.Some? ==> |r.value| == |cs|
    ensures r.Some? ==> forall k :: 0 <= k < |cs| && canon[k] != name ==> r.value[k] == cs[k]
    ensures r.Some? <==> ColumnOf(canon, name).Some? && Present(ColumnCells(df, ColumnOf(canon, name).value))
    ensures r.Some? ==> r.value[ColumnOf(canon, name).value] == Applied(name, ColumnCells(df, ColumnOf(canon, name).value), kw)
  {
    match ColumnOf(canon, name)
    case None => None
    case Some(t) =>
      var cells := ColumnCells(df, t);
      if !Present(cells) then None else Some(cs[t := Applied(name, cells, kw)])
  }

  /** The state `postprocess_df(df)` leaves `df` in, since it assigns to the frame it is given
      until a statement raises: the labels normalised, then renamed to their fields; then the
      rate column replaced by its first numbers, the entry column by the numbers after the last
      `=`, and the service column by the names of the services.  A statement that raises (a
      missing label, an unknown one, a field named by no column or by two, a missing cell)
      changes nothing, and nothing after it runs. */
  function PostprocessInPlace(df: Frame, rev: map<string, string>, kw: seq<(string, string)>): (w: Worked)
    requires Rectangular(df)
    ensures |w.labels| == |df.columns| && |w.columns| == |df.columns|
  {
    var start := AsWorked(df);
    if !LabelsPresent(df) then start
    else
      var names := NormalizeAll(Labels(df.columns));
      if !AllKnown(names, rev) then Worked(Somes(names), start.columns)
      else
        var canon := CanonicalNames(df, rev).value;
        var labels := Somes(canon);
        match ApplyField(df, canon, start.columns, Rate, kw)
        case None => Worked(labels, start.columns)
        case Some(c1) =>
          match ApplyField(df, canon, c1, Entry, kw)
          case None => Worked(labels, c1)
          case Some(c2) =>
            match ApplyField(df, canon, c2, Service, kw)
            case None => Worked(labels, c2)
            case Some(c3) => Worked(labels, c3)
  }

  /** The labels `postprocess_df` leaves: untouched, with the whole frame, when one is missing;
      each label normalised when one is not a known alias; otherwise each renamed to its field,
      that is `rev[Normalize(label)]` by `CanonicalNamesOutcome`. */
  lemma InPlaceLabels(df: Frame, rev: map<string, string>, kw: seq<(string, string)>)
    requires Rectangular(df)
    ensures !LabelsPresent(df) ==> PostprocessInPlace(df, rev, kw) == AsWorked(df)
    ensures LabelsPresent(df) && CanonicalNames(df, rev).None? ==>
      forall k :: 0 <= k < |df.columns| ==> PostprocessInPlace(df, rev, kw).labels[k] == Some(Normalize(df.columns[k].value))
    ensures CanonicalNames(df, rev).Some? ==> PostprocessInPlace(df, rev, kw).labels == Somes(CanonicalNames(df, rev).value)
  {
    if LabelsPresent(df) {
      var names := NormalizeAll(Labels(df.columns));
      if AllKnown(names, rev) {
        InPlaceRenamed(df, rev, kw);
      } else {
        var w := PostprocessInPlace(df, rev, kw);
        assert forall k :: 0 <= k < |names| ==> names[k] == Normalize(df.columns[k].value);
        assert w.labels == Somes(names);
      }
    }
  }

  /** Once every label is present and known, the labels are renamed whatever happens next. */
  lemma InPlaceRenamed(df: Frame, rev: map<string, string>, kw: seq<(string, string)>)
    requires Rectangular(df) && CanonicalNames(df, rev).Some?
    ensures PostprocessInPlace(df, rev, kw).labels == Somes(CanonicalNames(df, rev).value)
  {
    var canon := CanonicalNames(df, rev).value;
    var start := AsWorked(df);
    match ApplyField(df, canon, start.columns, Rate, kw)
    case None =>
    case Some(c1) =>
      match ApplyField(df, canon, c1, Entry, kw)
      case None =>
      case Some(c2) =>
  }

  /** `postprocess_df` changes no column but those it leaves labelled with one of the three
      fields. */
  lemma InPlaceOthersKept(df: Frame, rev: map<string, string>, kw: seq<(string, string)>)
    requires Rectangular(df)
    ensures var w := PostprocessInPlace(df, rev, kw);
      forall k :: 0 <= k < |df.columns| && w.labels[k] != Some(Rate) && w.labels[k] != Some(Entry) && w.labels[k] != Some(Service) ==>
        w.columns[k] == Texts(ColumnCells(df, k))
  {
    var w := PostprocessInPlace(df, rev, kw);
    var start := AsWorked(df).columns;
    if LabelsPresent(df) && AllKnown(NormalizeAll(Labels(df.columns)), rev) {
      var canon := CanonicalNames(df, rev).value;
      InPlaceRenamed(df, rev, kw);
      InPlaceChain(df, rev, kw);
      forall k | 0 <= k < |df.columns| && canon[k] != Rate && canon[k] != Entry && canon[k] != Service
        ensures w.columns[k] == start[k]
      {
        ChainKeeps(df, canon, start, kw, k);
      }
    }
  }

  /** Whatever the three `apply` statements do, a column named by none of the three fields stays. */
  lemma ChainKeeps(df: Frame, canon: seq<string>, cs: seq<Column>, kw: seq<(string, string)>, k: nat)
    requires Rectangular(df) && |canon| == |df.columns| == |cs| && k < |cs|
    requires canon[k] != Rate && canon[k] != Entry && canon[k] != Service
    ensures var c1 := ApplyField(df, canon, cs, Rate, kw);
      c1.Some? ==> (c1.value[k] == cs[k] &&
        var c2 := ApplyField(df, canon, c1.value, Entry, kw);
        (c2.Some? ==> (c2.value[k] == cs[k] &&
          var c3 := ApplyField(df, canon, c2.value, Service, kw);
          (c3.Some? ==> c3.value[k] == cs[k]))))
  {
  }

  /** When `postprocess_df` succeeds, the frame it was given ends up labelled with the fields,
      and its service, entry and rate columns hold, row by row, exactly the cleaned rows its
      result is filtered from. */
  lemma InPlaceAgrees(df: Frame, rev: map<string, string>, kw: seq<(string, string)>)
    requires Rectangular(df) && PostprocessDf(df, rev, kw).Some?
    ensures var canon := CanonicalNames(df, rev).value;
      var cols := UsedColumns(canon).value;
      var w := PostprocessInPlace(df, rev, kw);
      && InFrame(df, cols) && CellsPresent(df, cols)
      && w.labels == Somes(canon)
      && w.columns[cols.0].Texts? && w.columns[cols.1].Numbers? && w.columns[cols.2].Numbers?
      && |w.columns[cols.0].cells| == |w.columns[cols.1].values| == |w.columns[cols.2].values| == |df.data|
      && forall i :: 0 <= i < |df.data| ==>
           w.columns[cols.0].cells[i] == Some(CleanRow(df, cols, kw, i).service)
           && w.columns[cols.1].values[i] == CleanRow(df, cols, kw, i).entry
           && w.columns[cols.2].values[i] == CleanRow(df, cols, kw, i).rate
  {
    var canon := CanonicalNames(df, rev).value;
    var cols := UsedColumns(canon).value;
    InPlaceRenamed(df, rev, kw);
    SucceededColumns(df, rev, kw);
    InPlaceColumns(df, rev, kw);
    AppliedRows(df, cols, kw);
  }

  /** After a successful `postprocess_df` each of the three columns holds what its `apply`
      computed from the column as read. */
  lemma InPlaceColumns(df: Frame, rev: map<string, string>, kw: seq<(string, string)>)
    requires Rectangular(df) && CanonicalNames(df, rev).Some? && UsedColumns(CanonicalNames(df, rev).value).Some?
    requires var cols := UsedColumns(CanonicalNames(df, rev).value).value;
      InFrame(df, cols) && CellsPresent(df, cols)
    ensures var cols := UsedColumns(CanonicalNames(df, rev).value).value;
      var w := PostprocessInPlace(df, rev, kw);
      && Present(ColumnCells(df, cols.0)) && Present(ColumnCells(df, cols.1)) && Present(ColumnCells(df, cols.2))
      && w.columns[cols.0] == Applied(Service, ColumnCells(df, cols.0), kw)
      && w.columns[cols.1] == Applied(Entry, ColumnCells(df, cols.1), kw)
      && w.columns[cols.2] == Applied(Rate, ColumnCells(df, cols.2), kw)
  {
    var canon := CanonicalNames(df, rev).value;
    var cols := UsedColumns(canon).value;
    PresentColumns(df, cols);
    FieldsApplied(df, canon, AsWorked(df).columns, kw);
    InPlaceChain(df, rev, kw);
  }

  /** The three columns have all their cells. */
  lemma PresentColumns(df: Frame, cols: (nat, nat, nat))
    requires Rectangular(df) && InFrame(df, cols) && CellsPresent(df, cols)
    ensures Present(ColumnCells(df, cols.0)) && Present(ColumnCells(df, cols.1)) && Present(ColumnCells(df, cols.2))
  {
  }

  /** A successful `postprocess_df` reads three columns of the frame, all of whose cells are there. */
  lemma SucceededColumns(df: Frame, rev: map<string, string>, kw: seq<(string, string)>)
    requires Rectangular(df) && PostprocessDf(df, rev, kw).Some?
    ensures CanonicalNames(df, rev).Some? && UsedColumns(CanonicalNames(df, rev).value).Some?
    ensures var cols := UsedColumns(CanonicalNames(df, rev).value).value;
      InFrame(df, cols) && CellsPresent(df, cols)
  {
  }

  /** Once the labels are renamed, the columns are those the three `apply` statements leave. */
  lemma InPlaceChain(df: Frame, rev: map<string, string>, kw: seq<(string, string)>)
    requires Rectangular(df) && CanonicalNames(df, rev).Some?
    ensures var canon := CanonicalNames(df, rev).value;
      var c1 := ApplyField(df, canon, AsWorked(df).columns, Rate, kw);
      c1.Some? ==> var c2 := ApplyField(df, canon, c1.value, Entry, kw);
      c2.Some? ==> ApplyField(df, canon, c2.value, Service, kw).Some? ==>
      PostprocessInPlace(df, rev, kw).columns == ApplyField(df, canon, c2.value, Service, kw).value
  {
  }

  /** The three `apply` statements all succeed when each field names one column whose cells are
      all there, and each leaves its result in its own column. */
  lemma FieldsApplied(df: Frame, canon: seq<string>, cs: seq<Column>, kw: seq<(string, string)>)
    requires Rectangular(df) && |canon| == |df.columns| == |cs| && UsedColumns(canon).Some?
    requires var cols := UsedColumns(canon).value;
      Present(ColumnCells(df, cols.0)) && Present(ColumnCells(df, cols.1)) && Present(ColumnCells(df, cols.2))
    ensures var cols := UsedColumns(canon).value;
      && ApplyField(df, canon, cs, Rate, kw).Some?
      && var c1 := ApplyField(df, canon, cs, Rate, kw).value;
         && ApplyField(df, canon, c1, Entry, kw).Some?
         && var c2 := ApplyField(df, canon, c1, Entry, kw).value;
            && ApplyField(df, canon, c2, Service, kw).Some?
            && var c3 := ApplyField(df, canon, c2, Service, kw).value;
               && c3[cols.0] == Applied(Service, ColumnCells(df, cols.0), kw)
               && c3[cols.1] == Applied(Entry, ColumnCells(df, cols.1), kw)
               && c3[cols.2] == Applied(Rate, ColumnCells(df, cols.2), kw)
  {
    var cols := UsedColumns(canon).value;
    assert ColumnOf(canon, Rate) == Some(cols.2) && ColumnOf(canon, Entry) == Some(cols.1) && ColumnOf(canon, Service) == Some(cols.0);
    var c1 := ApplyField(df, canon, cs, Rate, kw).value;
    var c2 := ApplyField(df, canon, c1, Entry, kw).value;
    var c3 := ApplyField(df, canon, c2, Service, kw).value;
    assert c2[cols.2] == c1[cols.2];
    assert c3[cols.2] == c2[cols.2];
    assert c3[cols.1] == c2[cols.1];
  }

  /** Row by row, the three applied columns are the parts of the cleaned rows. */
  lemma AppliedRows(df: Frame, cols: (nat, nat, nat), kw: seq<(string, string)>)
    requires Rectangular(df) && InFrame(df, cols) && CellsPresent(df, cols)
    ensures var services := Applied(Service, ColumnCells(df, cols.0), kw);
      var entries := Applied(Entry, ColumnCells(df, cols.1), kw);
      var rates := Applied(Rate, ColumnCells(df, cols.2), kw);
      && services.Texts? && entries.Numbers? && rates.Numbers?
      && |services.cells| == |entries.values| == |rates.values| == |df.data|
      && forall i :: 0 <= i < |df.data| ==>
           services.cells[i] == Some(CleanRow(df, cols, kw, i).service)
           && entries.values[i] == CleanRow(df, cols, kw, i).entry
           && rates.values[i] == CleanRow(df, cols, kw, i).rate
  {
  }
}
