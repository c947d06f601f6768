/** The wildcard matcher of the directory search. */
module Wildcard {
  import opened Bytes

  predicate AllDots(s: seq<Byte>) {
    forall i | 0 <= i < |s| :: s[i] == DOT
  }

  /** nameMatches: the recursion of the source, on strings without their terminators. */
  predicate NameMatches(exp: seq<Byte>, name: seq<Byte>)
    decreases |exp| + |name|
  {
    if exp == [] then AllDots(name)
    else if exp[0] == STAR then
      (name != [] && NameMatches(exp, name[1..])) || NameMatches(exp[1..], name)
    else if exp[0] == QUESTION then
      || name == []
      || (name[0] == DOT && NameMatches(exp[1..], name))
      || (name[0] != DOT && NameMatches(exp[1..], name[1..]))
    else if exp[0] == DOT then
      || (name == [] && NameMatches(exp[1..], name))
      || (name != [] && name[0] == DOT && NameMatches(exp[1..], name[1..]))
    else
      name != [] && ToLower(exp[0]) == ToLower(name[0]) && NameMatches(exp[1..], name[1..])
  }

  // ----- what the patterns mean: ways of cutting the name into pieces

  /** The pattern character c may stand for the piece `part` when `rest` follows it: a star
      for anything, a question mark for one character that is not a dot or for nothing
      before a dot, a dot for a dot or for nothing at the end, any other character for
      itself in either case. */
  predicate Fits(c: Byte, part: seq<Byte>, rest: seq<Byte>) {
    if c == STAR then true
    else if c == QUESTION then
      (part == [] && rest != [] && rest[0] == DOT) || (|part| == 1 && part[0] != DOT)
    else if c == DOT then
      (part == [] && rest == []) || part == [DOT]
    else
      |part| == 1 && ToLower(c) == ToLower(part[0])
  }

  /** The i-th pattern character gets the piece between the cuts i and i + 1. */
  predicate Piece(exp: seq<Byte>, name: seq<Byte>, cuts: seq<nat>, i: nat)
    requires i < |exp| && i + 1 < |cuts|
  {
    cuts[i] <= cuts[i + 1] <= |name| &&
    Fits(exp[i], name[cuts[i]..cuts[i + 1]], name[cuts[i + 1]..])
  }

  /** The cuts divide the beginning of the name among the first |cuts| - 1 characters of the
      pattern. */
  predicate Divides(exp: seq<Byte>, name: seq<Byte>, cuts: seq<nat>) {
    && 0 < |cuts| <= |exp| + 1 && cuts[0] == 0
    && (forall i | 0 <= i < |cuts| :: cuts[i] <= |name|)
    && (forall i: nat | i < |cuts| - 1 :: Piece(exp, name, cuts, i))
  }

  /** The division is a match: either the whole pattern is used and only dots are left, or
      the whole name is used and the next character of the pattern is a question mark. */
  predicate Completes(exp: seq<Byte>, name: seq<Byte>, cuts: seq<nat>)
    requires Divides(exp, name, cuts)
  {
    var used := |cuts| - 1;
    || (used == |exp| && AllDots(name[cuts[used]..]))
    || (used < |exp| && exp[used] == QUESTION && cuts[used] == |name|)
  }

  ghost predicate Matches(exp: seq<Byte>, name: seq<Byte>) {
    exists cuts :: Divides(exp, name, cuts) && Completes(exp, name, cuts)
  }

  lemma Shift(name: seq<Byte>, n: nat, a: nat, b: nat)
    requires a <= b && n + b <= |name|
    ensures name[n..][a..b] == name[a + n..b + n]
    ensures name[n..][a..] == name[a + n..] && name[n..][b..] == name[b + n..]
  {
  }

  /** Gives the first pattern character a piece of length n in front of a match of the rest. */
  lemma ConsCut(exp: seq<Byte>, name: seq<Byte>, n: nat)
    requires exp != [] && n <= |name| && Fits(exp[0], name[..n], name[n..])
    requires Matches(exp[1..], name[n..])
    ensures Matches(exp, name)
  {
    hide Fits, AllDots;
    var tail: seq<nat> :| Divides(exp[1..], name[n..], tail) && Completes(exp[1..], name[n..], tail);
    var cuts: seq<nat> := [0] + seq(|tail|, i requires 0 <= i < |tail| => tail[i] + n);
    forall i: nat | i < |cuts| - 1
      ensures Piece(exp, name, cuts, i)
    {
      if i == 0 {
        assert name[cuts[0]..cuts[1]] == name[..n];
      } else {
        assert Piece(exp[1..], name[n..], tail, i - 1);
        Shift(name, n, tail[i - 1], tail[i]);
      }
    }
    assert Divides(exp, name, cuts);
    Shift(name, n, tail[|tail| - 1], |name| - n);
    assert Completes(exp, name, cuts);
  }

  /** Takes the piece of the first pattern character off a match. */
  lemma UnconsCut(exp: seq<Byte>, name: seq<Byte>, cuts: seq<nat>)
    requires Divides(exp, name, cuts) && Completes(exp, name, cuts) && |cuts| > 1
    ensures cuts[1] <= |name|
    ensures Fits(exp[0], name[..cuts[1]], name[cuts[1]..])
    ensures Matches(exp[1..], name[cuts[1]..])
  {
    hide Fits, AllDots;
    var n := cuts[1];
    assert Piece(exp, name, cuts, 0);
    assert name[cuts[0]..cuts[1]] == name[..n];
    Ascending(exp, name, cuts);
    var tail: seq<nat> := seq(|cuts| - 1, i requires 0 <= i < |cuts| - 1 => cuts[i + 1] - n);
    forall i: nat | i < |tail| - 1
      ensures Piece(exp[1..], name[n..], tail, i)
    {
      assert Piece(exp, name, cuts, i + 1);
      Shift(name, n, tail[i], tail[i + 1]);
    }
    assert Divides(exp[1..], name[n..], tail);
    Shift(name, n, tail[|tail| - 1], |name| - n);
    assert Completes(exp[1..], name[n..], tail);
  }

  lemma Ascending(exp: seq<Byte>, name: seq<Byte>, cuts: seq<nat>)
    requires Divides(exp, name, cuts) && |cuts| > 1
    ensures forall i | 1 <= i < |cuts| :: cuts[1] <= cuts[i]
  {
    assert Piece(exp, name, cuts, 0);
    for i := 1 to |cuts| - 1
      invariant forall j | 1 <= j <= i :: cuts[1] <= cuts[j]
    {
      assert Piece(exp, name, cuts, i);
    }
  }

  /** The matcher accepts exactly the names that can be divided among the characters of the
      pattern. */
  lemma {:induction false} MatcherCorrect(exp: seq<Byte>, name: seq<Byte>)
    ensures NameMatches(exp, name) <==> Matches(exp, name)
    decreases |exp| + |name|
  {
    if NameMatches(exp, name) {
      MatcherSound(exp, name);
    }
    if Matches(exp, name) {
      var cuts: seq<nat> :| Divides(exp, name, cuts) && Completes(exp, name, cuts);
      MatcherComplete(exp, name, cuts);
    }
  }

  lemma {:induction false} MatcherSound(exp: seq<Byte>, name: seq<Byte>)
    requires NameMatches(exp, name)
    ensures Matches(exp, name)
    decreases |exp| + |name|, 0
  {
    if exp == [] || (exp[0] == QUESTION && name == []) {
      assert name[0..] == name;
      assert Divides(exp, name, [0]) && Completes(exp, name, [0]);
    } else if exp[0] == STAR && name != [] && NameMatches(exp, name[1..]) {
      MatcherSound(exp, name[1..]);
      StarGrows(exp, name);
    } else {
      var n := if exp[0] == STAR || name == [] || (exp[0] == QUESTION && name[0] == DOT) then 0 else 1;
      assert name[0..] == name;
      MatcherSound(exp[1..], name[n..]);
      ConsCut(exp, name, n);
    }
  }

  /** A star that takes a piece of the tail can take the first character as well. */
  lemma StarGrows(exp: seq<Byte>, name: seq<Byte>)
    requires exp != [] && exp[0] == STAR && name != [] && Matches(exp, name[1..])
    ensures Matches(exp, name)
  {
    var cuts: seq<nat> :| Divides(exp, name[1..], cuts) && Completes(exp, name[1..], cuts);
    assert |cuts| > 1;
    UnconsCut(exp, name[1..], cuts);
    assert name[1..][cuts[1]..] == name[cuts[1] + 1..];
    ConsCut(exp, name, cuts[1] + 1);
  }

  lemma {:induction false} MatcherComplete(exp: seq<Byte>, name: seq<Byte>, cuts: seq<nat>)
    requires Divides(exp, name, cuts) && Completes(exp, name, cuts)
    ensures NameMatches(exp, name)
    decreases |exp|
  {
    if |cuts| == 1 {
      assert name[0..] == name;
    } else {
      UnconsCut(exp, name, cuts);
      var n := cuts[1];
      var tail: seq<nat> :| Divides(exp[1..], name[n..], tail) && Completes(exp[1..], name[n..], tail);
      MatcherComplete(exp[1..], name[n..], tail);
      if exp[0] == STAR {
        StarTakes(exp, name, n);
      } else if n == 0 {
        assert name[0..] == name;
      } else {
        assert name[..n][0] == name[0];
      }
    }
  }

  /** The matcher lets a star take any number of characters. */
  lemma {:induction false} StarTakes(exp: seq<Byte>, name: seq<Byte>, n: nat)
    requires exp != [] && exp[0] == STAR && n <= |name| && NameMatches(exp[1..], name[n..])
    ensures NameMatches(exp, name)
    decreases n
  {
    if n == 0 {
      assert name[0..] == name;
    } else {
      assert name[1..][n - 1..] == name[n..];
      StarTakes(exp, name[1..], n - 1);
    }
  }

  // ----- consequences

  /** "*.*" matches every name. */
  lemma StarDotStar(name: seq<Byte>)
    ensures NameMatches([STAR, DOT, STAR], name)
  {
    var exp: seq<Byte> := [STAR, DOT, STAR];
    assert exp[1..] == [DOT, STAR] && [DOT, STAR][1..] == [STAR] && [STAR][1..] == [];
    assert name[|name|..] == [];
    assert NameMatches([STAR], []);
    assert NameMatches([DOT, STAR], []);
    StarTakes(exp, name, |name|);
  }

  /** The case of letters never matters, in the pattern or in the name. */
  lemma {:induction false} CaseNeverMatters(exp: seq<Byte>, exp': seq<Byte>, name: seq<Byte>, name': seq<Byte>)
    requires SameName(exp, exp') && SameName(name, name')
    ensures NameMatches(exp, name) == NameMatches(exp', name')
    decreases |exp| + |name|
  {
    if exp == [] {
      assert forall i | 0 <= i < |name| :: name[i] == DOT <==> name'[i] == DOT;
    } else {
      CaseNeverMatters(exp[1..], exp'[1..], name, name');
      if name != [] {
        CaseNeverMatters(exp, exp', name[1..], name'[1..]);
        CaseNeverMatters(exp[1..], exp'[1..], name[1..], name'[1..]);
      }
    }
  }

  // ----- the table of partial matches

  /** One row of the table: entry j says whether the pattern `exp` matches the name from
      position j on, computed from the row `below` for the pattern without its first
      character. */
  function Row(exp: seq<Byte>, name: seq<Byte>, below: seq<bool>, j: nat): (row: seq<bool>)
    requires exp != [] && |below| == |name| + 1 && j <= |name|
    ensures |row| == |name| + 1 - j
    decreases |name| - j
  {
    var later := if j == |name| then [] else Row(exp, name, below, j + 1);
    var atEnd := j == |name|;
    var cell :=
      if exp[0] == STAR then (!atEnd && later[0]) || below[j]
      else if exp[0] == QUESTION then atEnd || (if name[j] == DOT then below[j] else below[j + 1])
      else if exp[0] == DOT then (if atEnd then below[j] else name[j] == DOT && below[j + 1])
      else !atEnd && ToLower(exp[0]) == ToLower(name[j]) && below[j + 1];
    [cell] + later
  }

  /** The first row of the table of (|exp| + 1) * (|name| + 1) cells. */
  function Table(exp: seq<Byte>, name: seq<Byte>): (row: seq<bool>)
    ensures |row| == |name| + 1
  {
    if exp == [] then seq(|name| + 1, j requires 0 <= j <= |name| => AllDots(name[j..]))
    else Row(exp, name, Table(exp[1..], name), 0)
  }

  lemma RowFirst(exp: seq<Byte>, name: seq<Byte>, below: seq<bool>, j: nat)
    requires exp != [] && |below| == |name| + 1 && j <= |name|
    requires forall i | 0 <= i <= |name| :: below[i] == NameMatches(exp[1..], name[i..])
    requires j < |name| ==> Row(exp, name, below, j + 1)[0] == NameMatches(exp, name[j + 1..])
    ensures Row(exp, name, below, j)[0] == NameMatches(exp, name[j..])
  {
    var rest := name[j..];
    if j < |name| {
      assert rest[0] == name[j] && rest[1..] == name[j + 1..];
      assert below[j + 1] == NameMatches(exp[1..], rest[1..]);
    }
    assert below[j] == NameMatches(exp[1..], rest);
  }

  lemma RowRest(exp: seq<Byte>, name: seq<Byte>, below: seq<bool>, j: nat, k: nat)
    requires exp != [] && |below| == |name| + 1 && j < k <= |name|
    ensures Row(exp, name, below, j)[k - j] == Row(exp, name, below, j + 1)[k - (j + 1)]
  {
    assert Row(exp, name, below, j)[1..] == Row(exp, name, below, j + 1);
  }

  lemma {:induction false} RowCorrect(exp: seq<Byte>, name: seq<Byte>, below: seq<bool>, j: nat, k: nat)
    requires exp != [] && |below| == |name| + 1 && j <= k <= |name|
    requires forall i | 0 <= i <= |name| :: below[i] == NameMatches(exp[1..], name[i..])
    ensures Row(exp, name, below, j)[k - j] == NameMatches(exp, name[k..])
    decreases |name| - j
  {
    hide NameMatches, Row;
    if j < k {
      RowCorrect(exp, name, below, j + 1, k);
      RowRest(exp, name, below, j, k);
    } else {
      if j < |name| {
        RowCorrect(exp, name, below, j + 1, j + 1);
      }
      RowFirst(exp, name, below, j);
    }
  }

  /** Filling the table, which takes one visit per cell, gives the answers of the recursion,
      which may visit a pair of positions again and again. */
  lemma {:induction false} TableCorrect(exp: seq<Byte>, name: seq<Byte>, k: nat)
    requires k <= |name|
    ensures Table(exp, name)[k] == NameMatches(exp, name[k..])
    decreases |exp|
  {
    if exp != [] {
      forall i | 0 <= i <= |name|
        ensures Table(exp[1..], name)[i] == NameMatches(exp[1..], name[i..])
      {
        TableCorrect(exp[1..], name, i);
      }
      RowCorrect(exp, name, Table(exp[1..], name), 0, k);
    }
  }
}
