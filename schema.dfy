/**
 * Recognising a rate table by its header: `compare_fields_names` and `dataframe_is_table_rates`
 * (src/utils.py).  The alias table of the deployment, a dictionary from each field to the
 * spellings a header may use for it, is a parameter: a sequence of (field, aliases) pairs in
 * the dictionary's order.
 */
module Schema {
  import opened Common
  import opened Strings
  import opened Grid

  /** A header as compared: lower-cased and stripped. */
  function Normalize(h: string): (r: string)
    ensures r == [] || (!IsSpace(r[0]) && !IsSpace(r[|r| - 1]))
    ensures Lower(r) == r
  {
    LowerHasNoUpper(h);
    var r := Strip(Lower(h));
    LowerFixed(r);
    r
  }

  /** Headers that differ only in case normalise alike: "Ставка" is compared as "ставка". */
  lemma NormalizeIgnoresCase(h: string)
    ensures Normalize(Lower(h)) == Normalize(h)
  {
    LowerIdempotent(h);
  }

  function NormalizeAll(hs: seq<string>): (ns: seq<string>)
    ensures |ns| == |hs|
  {
    seq(|hs|, i requires 0 <= i < |hs| => Normalize(hs[i]))
  }

  /** `list.remove(x)`: the list without its first `x`. */
  function RemoveFirst(hs: seq<string>, x: string): (r: seq<string>)
    requires x in hs
    ensures |r| == |hs| - 1
    ensures multiset(r) == multiset(hs) - multiset{x}
  {
    assert hs == [hs[0]] + hs[1..];
    if hs[0] == x then hs[1..] else [hs[0]] + RemoveFirst(hs[1..], x)
  }

  /** The first of the candidates that is among the headers. */
  function FirstIn(candidates: seq<string>, hs: seq<string>): (r: Option<string>)
    ensures r.None? <==> forall m :: 0 <= m < |candidates| ==> candidates[m] !in hs
    ensures r.Some? ==> r.value in hs
    ensures r.Some? ==> exists m :: 0 <= m < |candidates| && r.value == candidates[m] && (forall n :: 0 <= n < m ==> candidates[n] !in hs)
  {
    if candidates == [] then None
    else if candidates[0] in hs then Some(candidates[0])
    else
      var r := FirstIn(candidates[1..], hs);
      assert forall m :: 1 <= m < |candidates| ==> candidates[m] == candidates[1..][m - 1];
      r
  }

  /** The candidate at `j` is the first among the headers when none before it is. */
  lemma {:induction false} FirstInAt(candidates: seq<string>, hs: seq<string>, j: nat)
    requires j < |candidates| && candidates[j] in hs
    requires forall m :: 0 <= m < j ==> candidates[m] !in hs
    ensures FirstIn(candidates, hs) == Some(candidates[j])
    decreases j
  {
    if j > 0 {
      FirstInAt(candidates[1..], hs, j - 1);
    }
  }

  /** What one field does to the headers: takes away the first header matching one of its
      aliases, normalised, trying the aliases in order. */
  function FieldStep(aliases: seq<string>, hs: seq<string>): (r: seq<string>)
  {
    match FirstIn(NormalizeAll(aliases), hs)
    case Some(a) => RemoveFirst(hs, a)
    case None => hs
  }

  /** The headers no field has claimed once every field, in order, has taken its own. */
  function Remaining(fields: seq<(string, seq<string>)>, hs: seq<string>): (r: seq<string>)
    ensures |hs| - |fields| <= |r| <= |hs|
    decreases |fields|
  {
    if fields == [] then hs else Remaining(fields[1..], FieldStep(fields[0].1, hs))
  }

  /** The headers the fields claim, in the fields' order. */
  function Claims(fields: seq<(string, seq<string>)>, hs: seq<string>): (cs: seq<string>)
    decreases |fields|
  {
    if fields == [] then []
    else
      var rest := Claims(fields[1..], FieldStep(fields[0].1, hs));
      match FirstIn(NormalizeAll(fields[0].1), hs)
      case Some(a) => [a] + rest
      case None => rest
  }

  /** `compare_fields_names` as a value: every header is claimed by a field. */
  predicate Accepts(fields: seq<(string, seq<string>)>, headers: seq<string>) {
    Remaining(fields, NormalizeAll(headers)) == []
  }

  /** The inner loop of `compare_fields_names`: the first alias among the headers is removed from
      them, and the search stops there. */
  method TakeFirstAlias(aliases: seq<string>, hs0: seq<string>) returns (hs: seq<string>)
    ensures FirstIn(aliases, hs0).None? ==> hs == hs0
    ensures FirstIn(aliases, hs0).Some? ==> hs == RemoveFirst(hs0, FirstIn(aliases, hs0).value)
  {
    hs := hs0;
    for j := 0 to |aliases|
      invariant hs == hs0
      invariant forall m :: 0 <= m < j ==> aliases[m] !in hs
    {
      var alias := aliases[j];
      if alias in hs {
        FirstInAt(aliases, hs, j);
        hs := RemoveFirst(hs, alias);
        return;
      }
    }
  }

  /** `compare_fields_names(fields_alias, extracted_fields)`. */
  method CompareFieldsNames(fields: seq<(string, seq<string>)>, extracted: seq<string>) returns (ok: bool)
    ensures ok <==> Accepts(fields, extracted)
  {
    var hs := NormalizeAll(extracted);
    for i := 0 to |fields|
      invariant Remaining(fields[i..], hs) == Remaining(fields, NormalizeAll(extracted))
    {
      var aliases := fields[i].1;
      ghost var before := hs;
      hs := TakeFirstAlias(NormalizeAll(aliases), hs);
      assert hs == FieldStep(aliases, before);
      assert fields[i..][1..] == fields[i + 1..];
    }
    ok := |hs| == 0;
  }

  /** Every alias of every field, normalised. */
  function Aliases(fields: seq<(string, seq<string>)>): (all: set<string>)
    decreases |fields|
  {
    if fields == [] then {}
    else (set m | 0 <= m < |fields[0].1| :: Normalize(fields[0].1[m])) + Aliases(fields[1..])
  }

  /** Every header is either left over or claimed, and no field claims more than one. */
  lemma {:induction false} ClaimsAccount(fields: seq<(string, seq<string>)>, hs: seq<string>)
    ensures multiset(Remaining(fields, hs)) + multiset(Claims(fields, hs)) == multiset(hs)
    ensures |Claims(fields, hs)| <= |fields|
    decreases |fields|
  {
    if fields != [] {
      var next := FieldStep(fields[0].1, hs);
      ClaimsAccount(fields[1..], next);
      var rest := Claims(fields[1..], next);
      assert Remaining(fields, hs) == Remaining(fields[1..], next);
      match FirstIn(NormalizeAll(fields[0].1), hs) {
        case Some(a) =>
          assert Claims(fields, hs) == [a] + rest;
          assert multiset(next) + multiset{a} == multiset(hs);
        case None =>
          assert Claims(fields, hs) == rest;
      }
    }
  }

  /** Every claim is one of the fields' aliases. */
  lemma {:induction false} ClaimsAreAliases(fields: seq<(string, seq<string>)>, hs: seq<string>)
    ensures forall c :: c in Claims(fields, hs) ==> c in Aliases(fields)
    decreases |fields|
  {
    if fields != [] {
      ClaimsAreAliases(fields[1..], FieldStep(fields[0].1, hs));
      var ns := NormalizeAll(fields[0].1);
      match FirstIn(ns, hs) {
        case Some(a) =>
          var m :| 0 <= m < |ns| && a == ns[m];
          assert a == Normalize(fields[0].1[m]);
        case None =>
      }
    }
  }

  /** The headers are accepted exactly when they are, up to order, the headers the fields claim. */
  lemma AcceptsIffAllClaimed(fields: seq<(string, seq<string>)>, headers: seq<string>)
    ensures Accepts(fields, headers) <==>
      multiset(NormalizeAll(headers)) == multiset(Claims(fields, NormalizeAll(headers)))
  {
    var hs := NormalizeAll(headers);
    ClaimsAccount(fields, hs);
    if multiset(hs) == multiset(Claims(fields, hs)) {
      assert |multiset(Remaining(fields, hs))| == 0;
    }
  }

  /** More headers than fields are never accepted: each field claims one header at most. */
  lemma TooManyHeaders(fields: seq<(string, seq<string>)>, headers: seq<string>)
    requires |headers| > |fields|
    ensures !Accepts(fields, headers)
  {
  }

  /** `dataframe_is_table_rates(df)`: three columns whose headers the fields accept.  A missing
      header label (a header row shorter than another row) makes `x.lower()` raise. */
  function IsRateTable(fields: seq<(string, seq<string>)>, df: Frame): (r: Try<bool>)
    ensures |df.columns| != 3 ==> r == Ok(false)
    ensures r == Ok(true) ==> |df.columns| == 3 && forall k :: 0 <= k < 3 ==> df.columns[k].Some?
    ensures r.Raised? <==> |df.columns| == 3 && exists k :: 0 <= k < 3 && df.columns[k].None?
    ensures |df.columns| == 3 && (forall k :: 0 <= k < 3 ==> df.columns[k].Some?) ==>
      r == Ok(Accepts(fields, Labels(df.columns)))
  {
    if |df.columns| != 3 then Ok(false)
    else if exists k :: 0 <= k < 3 && df.columns[k].None? then Raised
    else Ok(Accepts(fields, Labels(df.columns)))
  }

  /** The labels of a frame none of whose labels is missing. */
  function Labels(columns: seq<Option<string>>): (ls: seq<string>)
    requires forall k :: 0 <= k < |columns| ==> columns[k].Some?
    ensures |ls| == |columns| && forall k :: 0 <= k < |columns| ==> columns[k] == Some(ls[k])
  {
    seq(|columns|, k requires 0 <= k < |columns| => columns[k].value)
  }

  /** A frame is a rate table exactly when it has three labelled columns whose normalised headers
      are, up to order, the headers the fields claim; and then there are three fields at least. */
  lemma RateTableHeaders(fields: seq<(string, seq<string>)>, df: Frame)
    ensures IsRateTable(fields, df) == Ok(true) <==>
      && |df.columns| == 3
      && (forall k :: 0 <= k < 3 ==> df.columns[k].Some?)
      && var hs := NormalizeAll(Labels(df.columns));
         multiset(hs) == multiset(Claims(fields, hs))
    ensures IsRateTable(fields, df) == Ok(true) ==> |fields| >= 3
  {
    if |df.columns| == 3 && forall k :: 0 <= k < 3 ==> df.columns[k].Some? {
      var ls := Labels(df.columns);
      AcceptsIffAllClaimed(fields, ls);
      if |fields| < 3 {
        TooManyHeaders(fields, ls);
      }
    }
  }
}
