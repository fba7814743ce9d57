/**
 * The Python `str` operations the pipeline relies on, with the semantics CPython gives them:
 * slicing with clamped indices, `find`, `in`, `replace`, `split` on one character, `join`,
 * `strip`, `lower`.  Strings are sequences of code points.
 */
module Strings {

  /** `str.isspace()`: what `strip()`, the regex class `\s` and `[^\S\n]` treat as white space. */
  predicate IsSpace(c: char) {
    || c == ' ' || ('\t' <= c <= '\r') || ('\U{1c}' <= c <= '\U{1f}') || c == '\U{85}' || c == '\U{a0}'
    || c == '\U{1680}' || ('\U{2000}' <= c <= '\U{200a}') || c == '\U{2028}' || c == '\U{2029}'
    || c == '\U{202f}' || c == '\U{205f}' || c == '\U{3000}'
  }

  /** The regex class `\d`, restricted to ASCII digits. */
  predicate IsDigit(c: char) {
    '0' <= c <= '9'
  }

  /** The capital letters `LowerChar` maps: ASCII, Latin-1 and Cyrillic. */
  predicate IsUpper(c: char) {
    || ('A' <= c <= 'Z')
    || ('\U{c0}' <= c <= '\U{de}' && c != '\U{d7}')
    || ('\U{400}' <= c <= '\U{42f}')
  }

  /** `str.lower()` on one character. */
  function LowerChar(c: char): (d: char)
    ensures !IsUpper(c) ==> d == c
    ensures IsUpper(c) ==> 'a' <= d
    ensures !IsUpper(d)
  {
    if 'A' <= c <= 'Z' then (c as int + 32) as char
    else if '\U{c0}' <= c <= '\U{de}' && c != '\U{d7}' then (c as int + 32) as char
    else if '\U{410}' <= c <= '\U{42f}' then (c as int + 32) as char
    else if '\U{400}' <= c <= '\U{40f}' then (c as int + 80) as char
    else c
  }

  /** `str.lower()`. */
  function Lower(s: string): (r: string)
    ensures |r| == |s|
  {
    seq(|s|, i requires 0 <= i < |s| => LowerChar(s[i]))
  }

  lemma LowerCharIdempotent(c: char)
    ensures LowerChar(LowerChar(c)) == LowerChar(c)
  {
  }

  lemma LowerIdempotent(s: string)
    ensures Lower(Lower(s)) == Lower(s)
  {
  }

  /** A lower-cased text has no capital letter. */
  lemma LowerHasNoUpper(s: string)
    ensures forall c :: c in Lower(s) ==> !IsUpper(c)
  {
    forall c | c in Lower(s) ensures !IsUpper(c) {
      var i :| 0 <= i < |s| && Lower(s)[i] == c;
    }
  }

  /** A text without capital letters is its own lower-casing. */
  lemma LowerFixed(s: string)
    requires forall c :: c in s ==> !IsUpper(c)
    ensures Lower(s) == s
  {
    assert forall i :: 0 <= i < |s| ==> !IsUpper(s[i]);
  }

  lemma LowerSlice(s: string, a: nat, b: nat)
    requires a <= b <= |s|
    ensures Lower(s)[a..b] == Lower(s[a..b])
  {
  }

  /** Python's slice `s[a:b]`: negative indices count from the end, then both are clamped to the string. */
  function Clamp(i: int, n: nat): (k: nat)
    ensures k <= n
    ensures 0 <= i <= n ==> k == i
  {
    if i < 0 then (if i + n < 0 then 0 else i + n) else if i > n then n else i
  }

  function Slice(s: string, a: int, b: int): (r: string)
    ensures 0 <= a <= b <= |s| ==> r == s[a..b]
  {
    var i, j := Clamp(a, |s|), Clamp(b, |s|);
    if i < j then s[i..j] else []
  }

  /** `p` is found in `s` at index `i`. */
  predicate OccursAt(p: string, s: string, i: int) {
    0 <= i && i + |p| <= |s| && s[i..i + |p|] == p
  }

  /** Python's `p in s`. */
  predicate Occurs(p: string, s: string)
    decreases |s|
  {
    (|p| <= |s| && s[..|p|] == p) || (s != [] && Occurs(p, s[1..]))
  }

  /** `s.find(p, start)` for a non-negative start: the least index at or after `start` where `p` occurs, or -1. */
  function Find(s: string, p: string, start: nat): (r: int)
    ensures r == -1 || (start <= r && OccursAt(p, s, r))
    ensures r == -1 ==> forall i :: start <= i ==> !OccursAt(p, s, i)
    ensures r != -1 ==> forall i :: start <= i < r ==> !OccursAt(p, s, i)
    decreases |s| - start
  {
    if start + |p| > |s| then -1
    else if s[start..start + |p|] == p then start
    else Find(s, p, start + 1)
  }

  lemma {:induction false} OccursBefore(p: string, w: string, u: string)
    requires Occurs(p, u)
    ensures Occurs(p, w + u)
    decreases |w|
  {
    if w == [] {
      assert w + u == u;
    } else {
      OccursBefore(p, w[1..], u);
      assert (w + u)[1..] == w[1..] + u;
    }
  }

  lemma {:induction false} OccursAfter(p: string, t: string, u: string)
    requires Occurs(p, t)
    ensures Occurs(p, t + u)
    decreases |t|
  {
    if |p| <= |t| && t[..|p|] == p {
      assert (t + u)[..|p|] == p;
    } else {
      OccursAfter(p, t[1..], u);
      assert (t + u)[1..] == t[1..] + u;
    }
  }

  /** What does not occur in a string does not occur in any slice of it. */
  lemma AbsentFromSlice(p: string, s: string, a: int, b: int)
    ensures !Occurs(p, s) ==> !Occurs(p, Slice(s, a, b))
  {
    var i, j := Clamp(a, |s|), Clamp(b, |s|);
    if i < j && Occurs(p, s[i..j]) {
      OccursAfter(p, s[i..j], s[j..]);
      OccursBefore(p, s[..i], s[i..j] + s[j..]);
      assert s[..i] + (s[i..j] + s[j..]) == s;
    }
  }

  /** A character of an occurring pattern is a character of the string. */
  lemma {:induction false} OccursHasChar(p: string, s: string, c: char)
    ensures Occurs(p, s) && c in p ==> c in s
    decreases |s|
  {
    if Occurs(p, s) && c in p {
      if |p| <= |s| && s[..|p|] == p {
        var k :| 0 <= k < |p| && p[k] == c;
        assert s[k] == c;
      } else {
        OccursHasChar(p, s[1..], c);
      }
    }
  }

  /** Python's `s.replace(p, r)`: every non-overlapping occurrence, left to right; an empty `p`
      puts `r` before every character and at the end. */
  function ReplaceAll(s: string, p: string, r: string): string
    decreases |s|
  {
    if p == [] then
      (if s == [] then r else r + [s[0]] + ReplaceAll(s[1..], p, r))
    else if |p| <= |s| && s[..|p|] == p then r + ReplaceAll(s[|p|..], p, r)
    else if s == [] then []
    else [s[0]] + ReplaceAll(s[1..], p, r)
  }

  /** Replacing a pattern that does not occur changes nothing. */
  lemma {:induction false} ReplaceAbsent(s: string, p: string, r: string)
    requires p != [] && !Occurs(p, s)
    ensures ReplaceAll(s, p, r) == s
    decreases |s|
  {
    if s != [] {
      ReplaceAbsent(s[1..], p, r);
    }
  }

  lemma ReplaceWhole(p: string, r: string)
    requires p != []
    ensures ReplaceAll(p, p, r) == r
  {
    assert p[|p|..] == [];
  }

  lemma ReplaceNoMatchHere(s: string, p: string, r: string)
    requires p != [] && s != [] && !(|p| <= |s| && s[..|p|] == p)
    ensures ReplaceAll(s, p, r) == [s[0]] + ReplaceAll(s[1..], p, r)
  {
  }

  lemma ReplaceMatchHere(s: string, p: string, r: string)
    requires p != [] && |p| <= |s| && s[..|p|] == p
    ensures ReplaceAll(s, p, r) == r + ReplaceAll(s[|p|..], p, r)
  {
  }

  /** A pattern without a newline never straddles one: replacing works on each side separately. */
  lemma {:induction false} ReplaceAcrossNewline(a: string, b: string, p: string, r: string)
    requires p != [] && '\n' !in p
    ensures ReplaceAll(a + "\n" + b, p, r) == ReplaceAll(a, p, r) + "\n" + ReplaceAll(b, p, r)
    decreases |a|, 1
  {
    var s := a + "\n" + b;
    if a == [] {
      NoMatchAtNewline(a, b, p);
      ReplaceNoMatchHere(s, p, r);
      assert s[1..] == b;
    } else if |p| <= |s| && s[..|p|] == p {
      ReplaceAcrossNewlineMatch(a, b, p, r);
    } else {
      ReplaceAcrossNewlineSkip(a, b, p, r);
    }
  }

  /** A pattern without a newline cannot match across the newline. */
  lemma NoMatchAtNewline(a: string, b: string, p: string)
    requires '\n' !in p
    ensures var s := a + "\n" + b; |a| < |p| ==> !(|p| <= |s| && s[..|p|] == p)
  {
    var s := a + "\n" + b;
    if |a| < |p| && |p| <= |s| {
      assert s[..|p|][|a|] == '\n';
      assert p[|a|] in p;
    }
  }

  lemma {:induction false} ReplaceAcrossNewlineMatch(a: string, b: string, p: string, r: string)
    requires p != [] && '\n' !in p && a != []
    requires var s := a + "\n" + b; |p| <= |s| && s[..|p|] == p
    ensures ReplaceAll(a + "\n" + b, p, r) == ReplaceAll(a, p, r) + "\n" + ReplaceAll(b, p, r)
    decreases |a|, 0
  {
    var s := a + "\n" + b;
    NoMatchAtNewline(a, b, p);
    assert a[..|p|] == p;
    assert s[|p|..] == a[|p|..] + "\n" + b;
    ReplaceMatchHere(s, p, r);
    ReplaceMatchHere(a, p, r);
    ReplaceAcrossNewline(a[|p|..], b, p, r);
  }

  lemma {:induction false} ReplaceAcrossNewlineSkip(a: string, b: string, p: string, r: string)
    requires p != [] && '\n' !in p && a != []
    requires var s := a + "\n" + b; !(|p| <= |s| && s[..|p|] == p)
    ensures ReplaceAll(a + "\n" + b, p, r) == ReplaceAll(a, p, r) + "\n" + ReplaceAll(b, p, r)
    decreases |a|, 0
  {
    var s := a + "\n" + b;
    assert s[0] == a[0];
    assert s[1..] == a[1..] + "\n" + b;
    assert |p| <= |a| ==> a[..|p|] == s[..|p|];
    ReplaceNoMatchHere(s, p, r);
    ReplaceNoMatchHere(a, p, r);
    ReplaceAcrossNewline(a[1..], b, p, r);
    ConsAcrossNewline(a[0], ReplaceAll(a[1..], p, r), ReplaceAll(b, p, r));
  }

  lemma ConsAcrossNewline(c: char, x: string, y: string)
    ensures [c] + (x + "\n" + y) == ([c] + x) + "\n" + y
  {
  }

  /** Python's `s.split(c)` for a one-character separator. */
  function Split(s: string, c: char): (parts: seq<string>)
    ensures |parts| >= 1
    ensures forall k :: 0 <= k < |parts| ==> c !in parts[k]
    decreases |s|
  {
    if s == [] then [[]]
    else
      var rest := Split(s[1..], c);
      if s[0] == c then [[]] + rest else [[s[0]] + rest[0]] + rest[1..]
  }

  /** Python's `sep.join(parts)`. */
  function Join(parts: seq<string>, sep: string): string
    decreases |parts|
  {
    if parts == [] then [] else if |parts| == 1 then parts[0] else parts[0] + sep + Join(parts[1..], sep)
  }

  /** Joining the pieces of a split gives back the string. */
  lemma {:induction false} JoinSplit(s: string, c: char)
    ensures Join(Split(s, c), [c]) == s
    decreases |s|
  {
    if s != [] {
      JoinSplit(s[1..], c);
      var rest := Split(s[1..], c);
      if s[0] != c && |rest| > 1 {
        assert Join(rest, [c]) == rest[0] + [c] + Join(rest[1..], [c]);
      }
    }
  }

  lemma {:induction false} SplitNoSeparator(x: string, c: char)
    requires c !in x
    ensures Split(x, c) == [x]
    decreases |x|
  {
    if x != [] {
      SplitNoSeparator(x[1..], c);
      assert x == [x[0]] + x[1..];
    }
  }

  lemma {:induction false} SplitAtSeparator(x: string, y: string, c: char)
    requires c !in x
    ensures Split(x + [c] + y, c) == [x] + Split(y, c)
    decreases |x|
  {
    var s := x + [c] + y;
    if x == [] {
      assert s[1..] == y;
    } else {
      assert s[1..] == x[1..] + [c] + y;
      SplitAtSeparator(x[1..], y, c);
      assert x == [x[0]] + x[1..];
    }
  }

  /** Splitting a join gives back the pieces when none contains the separator. */
  lemma {:induction false} SplitJoin(parts: seq<string>, c: char)
    requires |parts| >= 1
    requires forall k :: 0 <= k < |parts| ==> c !in parts[k]
    ensures Split(Join(parts, [c]), c) == parts
    decreases |parts|
  {
    if |parts| == 1 {
      SplitNoSeparator(parts[0], c);
    } else {
      SplitJoin(parts[1..], c);
      SplitAtSeparator(parts[0], Join(parts[1..], [c]), c);
    }
  }

  /** `s.lstrip()`. */
  function TrimStart(s: string): (r: string)
    ensures |r| <= |s| && r == s[|s| - |r|..]
    ensures forall k :: 0 <= k < |s| - |r| ==> IsSpace(s[k])
    ensures r == [] || !IsSpace(r[0])
    decreases |s|
  {
    if s != [] && IsSpace(s[0]) then TrimStart(s[1..]) else s
  }

  /** `s.rstrip()`. */
  function TrimEnd(s: string): (r: string)
    ensures |r| <= |s| && r == s[..|r|]
    ensures forall k :: |r| <= k < |s| ==> IsSpace(s[k])
    ensures r == [] || !IsSpace(r[|r| - 1])
    decreases |s|
  {
    if s != [] && IsSpace(s[|s| - 1]) then TrimEnd(s[..|s| - 1]) else s
  }

  /** `s.strip()`: the longest slice of `s` that neither starts nor ends with white space. */
  function Strip(s: string): (r: string)
    ensures r == [] || (!IsSpace(r[0]) && !IsSpace(r[|r| - 1]))
    ensures forall c :: c in r ==> c in s
  {
    var t := TrimStart(s);
    var r := TrimEnd(t);
    assert forall c :: c in r ==> c in t;
    r
  }
}
