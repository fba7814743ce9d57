/**
 * The service keyword table of src/parameters.py: the 1C service names, the keywords listed
 * under each, and the loop that flattens the listing into a dictionary from lower-cased keyword
 * to service name.  A Python dictionary keeps its keys in the order they were first inserted and
 * an assignment to a present key replaces its value in place; it is modelled as a sequence of
 * (key, value) pairs with distinct keys.
 */
module Parameters {
  import opened Common
  import opened Strings

  /** `SERVICES1C`. */
  const Services1C: seq<string> := ["Фрахт", "Транспортно-Экспедиторское обслуживание", "Организация ЖД перевозки", "Организация автовывоза"]

  /** `_SERVICES_KEYWORDS`, in its order. */
  const Listing: seq<(string, seq<string>)> := [
    ("Фрахт", ["фрахт", "организация морской перевозки"]),
    ("Транспортно-Экспедиторское обслуживание", ["транспортно-экспедиторское обслуживание"]),
    ("Организация ЖД перевозки", ["организация жд перевозки", "жд", "ржд"]),
    ("Организация автовывоза", ["организация автовывоза", "автовывоз", "организация автоперевозки", "автоперевозка", "организация автомобильной перевозки"])
  ]

  type Dict = seq<(string, string)>

  predicate DistinctKeys(d: Dict) {
    forall i, j :: 0 <= i < j < |d| ==> d[i].0 != d[j].0
  }

  /** The keys, in order. */
  function Keys(d: Dict): (ks: seq<string>)
    ensures |ks| == |d| && forall i :: 0 <= i < |d| ==> ks[i] == d[i].0
  {
    seq(|d|, i requires 0 <= i < |d| => d[i].0)
  }

  /** Where key `k` is. */
  function Position(d: Dict, k: string): (r: Option<nat>)
    ensures r.None? <==> k !in Keys(d)
    ensures r.Some? ==> r.value < |d| && d[r.value].0 == k
  {
    if d == [] then None
    else if d[0].0 == k then Some(0)
    else
      var r := Position(d[1..], k);
      assert forall i :: 1 <= i < |d| ==> d[i] == d[1..][i - 1];
      assert Keys(d) == [d[0].0] + Keys(d[1..]);
      if r.Some? then Some(r.value + 1) else None
  }

  /** `d[k] = v`: a present key keeps its place and takes the new value; a new key goes last. */
  function Store(d: Dict, k: string, v: string): (r: Dict)
    requires DistinctKeys(d)
    ensures DistinctKeys(r)
    ensures k in Keys(d) ==> Keys(r) == Keys(d)
    ensures k !in Keys(d) ==> Keys(r) == Keys(d) + [k]
  {
    match Position(d, k)
    case Some(i) =>
      var r := d[i := (k, v)];
      assert Keys(r) == Keys(d);
      r
    case None =>
      assert forall i :: 0 <= i < |d| ==> d[i].0 != k;
      var r := d + [(k, v)];
      assert Keys(r) == Keys(d) + [k];
      r
  }

  /** After `d[k] = v` the entries are `(k, v)` and the entries of the other keys. */
  lemma StoreEntries(d: Dict, k: string, v: string, p: (string, string))
    requires DistinctKeys(d)
    ensures p in Store(d, k, v) <==> p == (k, v) || (p in d && p.0 != k)
  {
    match Position(d, k)
    case Some(i) =>
      var r := d[i := (k, v)];
      assert r[i] == (k, v);
      if p in d && p.0 != k {
        var j :| 0 <= j < |d| && d[j] == p;
        assert r[j] == p;
      }
    case None =>
  }

  /** The dictionary made by the assignments `d[k] = v`, in order, from an empty one. */
  function Assign(ps: seq<(string, string)>): (d: Dict)
    ensures DistinctKeys(d) && |d| <= |ps|
    decreases |ps|
  {
    if ps == [] then [] else Store(Assign(ps[..|ps| - 1]), ps[|ps| - 1].0, ps[|ps| - 1].1)
  }

  /** The assignments made for one service: each keyword, lower-cased, to its name. */
  function PairsOf(name: string, words: seq<string>): (ps: seq<(string, string)>)
    ensures |ps| == |words|
  {
    seq(|words|, j requires 0 <= j < |words| => (Lower(words[j]), name))
  }

  /** Every assignment of the flattening loop, in the order it makes them. */
  function Pairs(listing: seq<(string, seq<string>)>): (ps: seq<(string, string)>)
    decreases |listing|
  {
    if listing == [] then []
    else Pairs(listing[..|listing| - 1]) + PairsOf(listing[|listing| - 1].0, listing[|listing| - 1].1)
  }

  lemma AssignSnoc(ps: seq<(string, string)>, p: (string, string))
    ensures Assign(ps + [p]) == Store(Assign(ps), p.0, p.1)
  {
    assert (ps + [p])[..|ps|] == ps;
  }

  lemma PairsOfSnoc(name: string, words: seq<string>, j: nat)
    requires j < |words|
    ensures PairsOf(name, words[..j + 1]) == PairsOf(name, words[..j]) + [(Lower(words[j]), name)]
  {
  }

  lemma PairsSnoc(listing: seq<(string, seq<string>)>, i: nat)
    requires i < |listing|
    ensures Pairs(listing[..i + 1]) == Pairs(listing[..i]) + PairsOf(listing[i].0, listing[i].1)
  {
    assert listing[..i + 1][..i] == listing[..i];
  }

  /** The inner loop: every keyword of one service, lower-cased, assigned its name. */
  method StoreKeywords(d0: Dict, done: seq<(string, string)>, name: string, words: seq<string>) returns (d: Dict)
    requires d0 == Assign(done)
    ensures d == Assign(done + PairsOf(name, words))
  {
    d := d0;
    assert done + PairsOf(name, words[..0]) == done;
    for j := 0 to |words|
      invariant d == Assign(done + PairsOf(name, words[..j]))
    {
      PairsOfSnoc(name, words, j);
      assert done + PairsOf(name, words[..j + 1]) == (done + PairsOf(name, words[..j])) + [(Lower(words[j]), name)];
      AssignSnoc(done + PairsOf(name, words[..j]), (Lower(words[j]), name));
      d := Store(d, Lower(words[j]), name);
    }
    assert words[..|words|] == words;
  }

  /** The loop that builds `SERVICES_KEYWORDS` from the listing. */
  method FlattenKeywords(listing: seq<(string, seq<string>)>) returns (d: Dict)
    ensures d == Assign(Pairs(listing))
  {
    d := [];
    for i := 0 to |listing|
      invariant d == Assign(Pairs(listing[..i]))
    {
      var name, words := listing[i].0, listing[i].1;
      PairsSnoc(listing, i);
      d := StoreKeywords(d, Pairs(listing[..i]), name, words);
    }
    assert listing[..|listing|] == listing;
  }

  /** The keys are exactly the keys assigned. */
  lemma {:induction false} AssignKeys(ps: seq<(string, string)>)
    ensures forall k :: k in Keys(Assign(ps)) <==> exists m :: 0 <= m < |ps| && ps[m].0 == k
    decreases |ps|
  {
    if ps != [] {
      var init := ps[..|ps| - 1];
      AssignKeys(init);
      assert forall m :: 0 <= m < |init| ==> init[m] == ps[m];
    }
  }

  /** Each entry is the last assignment to its key: made at some point, and not overwritten. */
  lemma {:induction false} AssignLast(ps: seq<(string, string)>)
    ensures forall p :: p in Assign(ps) ==> LastAssigned(ps, p)
    decreases |ps|
  {
    if ps != [] {
      var init := ps[..|ps| - 1];
      AssignLast(init);
      forall p | p in Assign(ps) ensures LastAssigned(ps, p) {
        LastStep(init, ps[|ps| - 1], p);
        assert init + [ps[|ps| - 1]] == ps;
      }
    }
  }

  /** `p` was assigned, and its key was not assigned again. */
  predicate LastAssigned(ps: seq<(string, string)>, p: (string, string)) {
    exists m :: 0 <= m < |ps| && ps[m] == p && forall n :: m < n < |ps| ==> ps[n].0 != p.0
  }

  lemma LastStep(init: seq<(string, string)>, last: (string, string), p: (string, string))
    requires forall q :: q in Assign(init) ==> LastAssigned(init, q)
    requires p in Assign(init + [last])
    ensures LastAssigned(init + [last], p)
  {
    var ps := init + [last];
    AssignSnoc(init, last);
    StoreEntries(Assign(init), last.0, last.1, p);
    if p == last {
      assert ps[|init|] == p;
    } else {
      assert LastAssigned(init, p);
      var m :| 0 <= m < |init| && init[m] == p && forall n :: m < n < |init| ==> init[n].0 != p.0;
      assert ps[m] == p;
      assert forall n :: m < n < |ps| ==> ps[n].0 != p.0;
    }
  }

  /** Key `x` is assigned before assignment `m`. */
  predicate AssignedBefore(ps: seq<(string, string)>, x: string, m: int) {
    exists n :: 0 <= n < m && n < |ps| && ps[n].0 == x
  }

  /** Keys stand in the order they were first assigned: every assignment to a later key comes
      after an assignment to an earlier one. */
  lemma {:induction false} AssignOrder(ps: seq<(string, string)>)
    ensures var d := Assign(ps);
      forall a, b, m :: 0 <= a < b < |d| && 0 <= m < |ps| && ps[m].0 == d[b].0 ==> AssignedBefore(ps, d[a].0, m)
    decreases |ps|
  {
    if ps != [] {
      var init := ps[..|ps| - 1];
      var last := ps[|ps| - 1];
      AssignOrder(init);
      assert init + [last] == ps;
      var d := Assign(ps);
      forall a, b, m | 0 <= a < b < |d| && 0 <= m < |ps| && ps[m].0 == d[b].0
        ensures AssignedBefore(ps, d[a].0, m)
      {
        OrderStep(init, last, a, b, m);
      }
    }
  }

  lemma OrderStep(init: seq<(string, string)>, last: (string, string), a: nat, b: nat, m: nat)
    requires var d0 := Assign(init);
      forall a, b, m :: 0 <= a < b < |d0| && 0 <= m < |init| && init[m].0 == d0[b].0 ==> AssignedBefore(init, d0[a].0, m)
    requires var ps, d := init + [last], Assign(init + [last]);
      a < b < |d| && m < |ps| && ps[m].0 == d[b].0
    ensures AssignedBefore(init + [last], Assign(init + [last])[a].0, m)
  {
    var d0, d := Assign(init), Assign(init + [last]);
    AssignSnoc(init, last);
    assert Keys(d)[a] == d[a].0 && Keys(d)[b] == d[b].0;
    assert Keys(d0)[a] == d0[a].0;
    if b < |d0| {
      assert Keys(d0)[b] == d0[b].0;
      var m2 := m;
      if m == |init| {
        AssignKeys(init);
        assert d0[b].0 in Keys(d0);
        m2 :| 0 <= m2 < |init| && init[m2].0 == d0[b].0;
      } else {
        assert init[m] == (init + [last])[m];
      }
      assert AssignedBefore(init, d0[a].0, m2);
      AssignedEarlier(init, last, d0[a].0, m2, m);
    } else {
      OrderNew(init, last, a, m);
    }
  }

  lemma AssignedEarlier(init: seq<(string, string)>, last: (string, string), x: string, m2: nat, m: nat)
    requires AssignedBefore(init, x, m2) && m2 <= m
    ensures AssignedBefore(init + [last], x, m)
  {
    var n :| 0 <= n < m2 && n < |init| && init[n].0 == x;
    assert (init + [last])[n] == init[n];
  }

  /** The later key is the one the last assignment added. */
  lemma OrderNew(init: seq<(string, string)>, last: (string, string), a: nat, m: nat)
    requires last.0 !in Keys(Assign(init))
    requires a < |Assign(init)| && m <= |init| && (init + [last])[m].0 == last.0
    ensures AssignedBefore(init + [last], Assign(init)[a].0, m)
  {
    var d0, ps := Assign(init), init + [last];
    AssignKeys(init);
    assert Keys(d0)[a] == d0[a].0;
    assert d0[a].0 in Keys(d0);
    assert forall x :: 0 <= x < |init| ==> init[x].0 != last.0;
    var n :| 0 <= n < |init| && init[n].0 == d0[a].0;
    assert ps[n] == init[n];
  }

  /** An assignment of the loop is a listed keyword, lower-cased, with the name it is listed under. */
  predicate Listed(listing: seq<(string, seq<string>)>, p: (string, string)) {
    exists i, j :: 0 <= i < |listing| && 0 <= j < |listing[i].1| && p == (Lower(listing[i].1[j]), listing[i].0)
  }

  /** The loop makes exactly the listed assignments. */
  lemma {:induction false} PairsListed(listing: seq<(string, seq<string>)>)
    ensures forall p :: p in Pairs(listing) <==> Listed(listing, p)
    decreases |listing|
  {
    if listing != [] {
      var n := |listing| - 1;
      var init := listing[..n];
      PairsListed(init);
      var own := PairsOf(listing[n].0, listing[n].1);
      forall p ensures p in Pairs(listing) <==> Listed(listing, p) {
        if p in own {
          var j :| 0 <= j < |own| && own[j] == p;
          assert p == (Lower(listing[n].1[j]), listing[n].0);
        }
        if p in Pairs(init) {
          var i, j :| 0 <= i < |init| && 0 <= j < |init[i].1| && p == (Lower(init[i].1[j]), init[i].0);
          assert listing[i] == init[i];
        }
        if Listed(listing, p) {
          var i, j :| 0 <= i < |listing| && 0 <= j < |listing[i].1| && p == (Lower(listing[i].1[j]), listing[i].0);
          if i == n {
            assert own[j] == p;
          } else {
            assert init[i] == listing[i];
            assert Listed(init, p);
          }
        }
      }
    }
  }

  /** `SERVICES_KEYWORDS`: every listed keyword, lower-cased, is a key and every key is one; each
      key maps to the name of its last listing; keys stand in the order of first listing; there
      are no more keys than listed keywords. */
  lemma KeywordTable(listing: seq<(string, seq<string>)>)
    ensures var ps, d := Pairs(listing), Assign(Pairs(listing));
      && |d| <= |ps|
      && (forall i, j :: 0 <= i < |listing| && 0 <= j < |listing[i].1| ==> Lower(listing[i].1[j]) in Keys(d))
      && (forall p :: p in d ==> Listed(listing, p) && LastAssigned(ps, p))
      && (forall a, b, m :: 0 <= a < b < |d| && 0 <= m < |ps| && ps[m].0 == d[b].0 ==> AssignedBefore(ps, d[a].0, m))
  {
    var ps, d := Pairs(listing), Assign(Pairs(listing));
    PairsListed(listing);
    AssignKeys(ps);
    AssignLast(ps);
    AssignOrder(ps);
    forall i, j | 0 <= i < |listing| && 0 <= j < |listing[i].1| ensures Lower(listing[i].1[j]) in Keys(d) {
      var p := (Lower(listing[i].1[j]), listing[i].0);
      assert Listed(listing, p);
      var m :| 0 <= m < |ps| && ps[m] == p;
    }
    forall p | p in d ensures Listed(listing, p) {
      assert LastAssigned(ps, p);
      var m :| 0 <= m < |ps| && ps[m] == p && forall n :: m < n < |ps| ==> ps[n].0 != p.0;
      assert p in ps;
    }
  }

  /** The names `_SERVICES_KEYWORDS` lists are `SERVICES1C`, in order. */
  lemma ListingNames()
    ensures |Listing| == |Services1C| && forall i :: 0 <= i < |Listing| ==> Listing[i].0 == Services1C[i]
  {
  }

  /** Every value of `SERVICES_KEYWORDS` is a name of `SERVICES1C`. */
  lemma ValuesAreServices(d: Dict)
    requires d == Assign(Pairs(Listing))
    ensures forall p :: p in d ==> p.1 in Services1C
  {
    KeywordTable(Listing);
    ListingNames();
    forall p | p in d ensures p.1 in Services1C {
      var i, j :| 0 <= i < |Listing| && 0 <= j < |Listing[i].1| && p == (Lower(Listing[i].1[j]), Listing[i].0);
      assert Services1C[i] == p.1;
    }
  }
}
