/** File names and path names: the 8.3 test, splitting off the last component, and the
    components of a path. Strings are without their terminating zero byte. */
module Names {
  import opened Bytes

  /** The characters that may not occur in a DOS name. */
  predicate IsBad(b: Byte) {
    b in {60, 62, 124, 43, 61, 58, 59, 44, DOT, 34, SLASH, BACKSLASH, 91, 93}
  }

  /** Those the comment in the source lists, from the documentation of FAT. */
  lemma BadCharacters(b: Byte)
    ensures IsBad(b) <==> b as char in "<>|+=:;,.\"/\\[]"
  {
  }

  predicate NoneBad(s: seq<Byte>) {
    forall i | 0 <= i < |s| :: !IsBad(s[i])
  }

  function FirstDot(s: seq<Byte>): (k: nat)
    ensures k <= |s| && DOT !in s[..k] && (k < |s| ==> s[k] == DOT)
  {
    if s == [] || s[0] == DOT then 0 else
      var k := FirstDot(s[1..]);
      assert s[..k + 1] == [s[0]] + s[1..][..k];
      k + 1
  }

  /** A name of at most eight good characters, optionally followed by a dot and at most three
      good characters, or one of the two directory links. */
  predicate Is83(name: seq<Byte>) {
    name == [DOT] || name == [DOT, DOT] ||
    var k := FirstDot(name);
    k <= 8 && NoneBad(name[..k]) && (k < |name| ==> |name| - k - 1 <= 3 && NoneBad(name[k + 1..]))
  }

  /** hasNon83Name: one pass over the name with a counter that restarts at the first dot. */
  method HasNon83Name(name: seq<Byte>) returns (non83: bool)
    ensures non83 == !Is83(name)
  {
    if name == [DOT] || name == [DOT, DOT] {
      return false;
    }
    ghost var k := FirstDot(name);
    var ext, i, p := false, 0, 0;
    while p < |name|
      invariant 0 <= p <= |name|
      invariant ext <==> p > k
      invariant !ext ==> i == p && i <= 8 && NoneBad(name[..p])
      invariant ext ==> k <= 8 && NoneBad(name[..k])
      invariant ext ==> i == p - k - 1 && i <= 3 && NoneBad(name[k + 1..p])
    {
      i := i + 1;
      if ext {
        if name[p] == DOT || i > 3 || IsBad(name[p]) {
          assert IsBad(name[p]) ==> name[k + 1..][p - k - 1] == name[p];
          return true;
        }
        assert name[k + 1..p + 1] == name[k + 1..p] + [name[p]];
      } else if name[p] == DOT {
        assert forall i | 0 <= i < k :: name[i] in name[..k];
        assert p == k;
        ext, i := true, 0;
        assert name[k + 1..p + 1] == [];
      } else {
        if i > 8 || IsBad(name[p]) {
          assert IsBad(name[p]) ==> name[..k][p] == name[p];
          return true;
        }
        assert name[..p + 1] == name[..p] + [name[p]];
      }
      p := p + 1;
    }
    if ext {
      assert name[k + 1..] == name[k + 1..p];
    } else {
      assert name[..k] == name[..p];
    }
    return false;
  }

  lemma UpperKeepsBad(s: seq<Byte>)
    ensures NoneBad(Upper(s)) <==> NoneBad(s)
  {
    assert forall i | 0 <= i < |s| :: IsBad(Upper(s)[i]) <==> IsBad(s[i]);
  }

  lemma UpperOfParts(s: seq<Byte>, k: nat)
    requires k <= |s|
    ensures Upper(s)[..k] == Upper(s[..k]) && Upper(s)[k..] == Upper(s[k..])
  {
  }

  /** Upper-casing a name in place does not change whether it is an 8.3 name. */
  lemma UpperKeeps83(name: seq<Byte>)
    ensures Is83(Upper(name)) <==> Is83(name)
  {
    hide NoneBad;
    var k, u := FirstDot(name), Upper(name);
    FirstDotUnique(u, k);
    UpperOfParts(name, k);
    UpperKeepsBad(name[..k]);
    if k < |name| {
      UpperOfParts(name, k + 1);
      UpperKeepsBad(name[k + 1..]);
    }
    assert name == [DOT] <==> |name| == 1 && name[0] == DOT;
    assert u == [DOT] <==> |u| == 1 && u[0] == DOT;
    assert name == [DOT, DOT] <==> |name| == 2 && name[0] == DOT && name[1] == DOT;
    assert u == [DOT, DOT] <==> |u| == 2 && u[0] == DOT && u[1] == DOT;
  }

  lemma {:induction false} FirstDotUnique(s: seq<Byte>, k: nat)
    requires k <= |s| && (forall i | 0 <= i < k :: s[i] != DOT) && (k < |s| ==> s[k] == DOT)
    ensures FirstDot(s) == k
  {
    if k > 0 {
      FirstDotUnique(s[1..], k - 1);
    }
  }

  /** verifyString: whether a buffer of cbMaxLen bytes holds no terminated string. */
  method VerifyString(str: seq<Byte>, cbMaxLen: nat) returns (tooLong: bool)
    requires cbMaxLen == |str|
    ensures tooLong <==> NoNul(str)
  {
    var left, p := cbMaxLen, 0;
    while left > 0
      invariant p + left == |str| && NoNul(str[..p])
    {
      if str[p] == 0 {
        return false;
      }
      assert str[..p + 1] == str[..p] + [str[p]];
      left, p := left - 1, p + 1;
    }
    assert str[..p] == str;
    return true;
  }

  // ----- paths

  predicate IsSeparator(b: Byte) {
    b == SLASH || b == BACKSLASH
  }

  lemma Separators(b: Byte)
    ensures IsSeparator(b) <==> b as char in "/\\"
  {
  }

  /** verifyPathName: a drive and a path that begins with a separator. */
  predicate IsFullPath(name: seq<Byte>) {
    |name| >= 3 && name[1] == COLON && IsSeparator(name[2])
  }

  /** full is the prefix, which does not end in a separator, then separators, then the last
      part, which contains none. */
  predicate IsSplit(full: seq<Byte>, prefix: seq<Byte>, last: seq<Byte>) {
    && |prefix| < |full| - |last|
    && full[..|prefix|] == prefix
    && full[|full| - |last|..] == last
    && (prefix != [] ==> !IsSeparator(prefix[|prefix| - 1]))
    && (forall i | |prefix| <= i < |full| - |last| :: IsSeparator(full[i]))
    && (forall i | 0 <= i < |last| :: !IsSeparator(last[i]))
  }

  /** splitPath, on the paths it is meant for: those that begin with a separator. */
  method SplitPath(full: seq<Byte>) returns (prefix: seq<Byte>, last: seq<Byte>)
    requires full != [] && IsSeparator(full[0])
    ensures IsSplit(full, prefix, last)
  {
    var p, p2 := 0, 0;
    while p < |full|
      invariant 0 <= p <= |full| && 0 <= p2 < |full| && (p2 < p || p2 == 0)
      invariant IsSeparator(full[p2])
      invariant forall i | p2 < i < p :: !IsSeparator(full[i])
    {
      if IsSeparator(full[p]) {
        p2 := p;
      }
      p := p + 1;
    }
    last := full[p2 + 1..];
    ghost var cut := p2;
    while p2 > 0 && IsSeparator(full[p2])
      invariant 0 <= p2 <= cut
      invariant forall i | p2 <= i <= cut :: p2 < i ==> IsSeparator(full[i])
      invariant p2 == cut ==> IsSeparator(full[p2])
    {
      p2 := p2 - 1;
    }
    if p2 == 0 {
      prefix := [];
    } else {
      prefix := full[..p2 + 1];
    }
  }

  /** A path has only one such split, so it determines what splitPath computes. */
  lemma SplitUnique(full: seq<Byte>, prefix: seq<Byte>, last: seq<Byte>, prefix': seq<Byte>, last': seq<Byte>)
    requires IsSplit(full, prefix, last) && IsSplit(full, prefix', last')
    ensures prefix == prefix' && last == last'
  {
    var n, n' := |full| - |last|, |full| - |last'|;
    assert IsSeparator(full[n - 1]) && IsSeparator(full[n' - 1]);
    assert forall i | n <= i < |full| :: full[i] == last[i - n];
    assert forall i | n' <= i < |full| :: full[i] == last'[i - n'];
    assert n == n';
    assert prefix != [] ==> prefix[|prefix| - 1] == full[|prefix| - 1];
    assert prefix' != [] ==> prefix'[|prefix'| - 1] == full[|prefix'| - 1];
  }

  /** The length of the text in front of the first separator. */
  function WordLength(path: seq<Byte>): (n: nat)
    ensures n <= |path| && (forall i | 0 <= i < n :: !IsSeparator(path[i]))
    ensures n < |path| ==> IsSeparator(path[n])
  {
    if path == [] || IsSeparator(path[0]) then 0 else WordLength(path[1..]) + 1
  }

  /** The names between the separators of a path. */
  function Components(path: seq<Byte>): (names: seq<seq<Byte>>)
    decreases |path|
  {
    if path == [] then []
    else if IsSeparator(path[0]) then Components(path[1..])
    else
      var n := WordLength(path);
      [path[..n]] + Components(path[n..])
  }

  lemma {:induction false} WordLengthIs(path: seq<Byte>, n: nat)
    requires n <= |path| && (forall i | 0 <= i < n :: !IsSeparator(path[i]))
    requires n < |path| ==> IsSeparator(path[n])
    ensures WordLength(path) == n
  {
    if n > 0 {
      WordLengthIs(path[1..], n - 1);
    }
  }

  /** Where two paths meet at a separator, the components of the whole are those of the
      parts. */
  lemma {:induction false} ComponentsConcat(a: seq<Byte>, b: seq<Byte>)
    requires b != [] ==> IsSeparator(b[0])
    ensures Components(a + b) == Components(a) + Components(b)
    decreases |a|
  {
    if a == [] {
      assert a + b == b;
    } else if IsSeparator(a[0]) {
      assert (a + b)[1..] == a[1..] + b;
      ComponentsConcat(a[1..], b);
    } else {
      var n := WordLength(a);
      WordConcat(a, b);
      ComponentsConcat(a[n..], b);
      assert [a[..n]] + (Components(a[n..]) + Components(b)) == Components(a) + Components(b);
    }
  }

  lemma WordConcat(a: seq<Byte>, b: seq<Byte>)
    requires a != [] && !IsSeparator(a[0]) && (b != [] ==> IsSeparator(b[0]))
    ensures var n := WordLength(a); Components(a + b) == [a[..n]] + Components(a[n..] + b)
  {
    hide WordLength, Components;
    var n := WordLength(a);
    assert forall i | 0 <= i < n :: (a + b)[i] == a[i];
    assert n < |a| ==> (a + b)[n] == a[n];
    assert n == |a| && b != [] ==> (a + b)[n] == b[0];
    WordLengthIs(a + b, n);
    assert (a + b)[..n] == a[..n];
    assert (a + b)[n..] == a[n..] + b;
    FirstComponent(a + b);
  }

  lemma FirstComponent(path: seq<Byte>)
    requires path != [] && !IsSeparator(path[0])
    ensures var n := WordLength(path); Components(path) == [path[..n]] + Components(path[n..])
  {
  }

  lemma ComponentsOfWord(word: seq<Byte>)
    requires word != [] && forall i | 0 <= i < |word| :: !IsSeparator(word[i])
    ensures Components(word) == [word]
  {
    WordLengthIs(word, |word|);
    assert word[..|word|] == word && word[|word|..] == [];
  }

  /** Separators carry no meaning beyond separating: repeating them in front of a path,
      between two of its parts, or at its end changes nothing. */
  lemma SeparatorsDoNotMatter(a: seq<Byte>, seps: seq<Byte>, b: seq<Byte>)
    requires forall i | 0 <= i < |seps| :: IsSeparator(seps[i])
    requires b != [] ==> IsSeparator(b[0])
    ensures Components(a + (seps + b)) == Components(a + b)
    ensures Components(seps + a) == Components(a)
  {
    ComponentsConcat(a, seps + b);
    ComponentsConcat(a, b);
    LeadingSeparators(seps, b);
    LeadingSeparators(seps, a);
  }

  lemma {:induction false} LeadingSeparators(seps: seq<Byte>, path: seq<Byte>)
    requires forall i | 0 <= i < |seps| :: IsSeparator(seps[i])
    ensures Components(seps + path) == Components(path)
  {
    if seps == [] {
      assert seps + path == path;
    } else {
      assert (seps + path)[1..] == seps[1..] + path;
      LeadingSeparators(seps[1..], path);
    }
  }

  /** Splitting a path splits off its last component. */
  lemma SplitComponents(full: seq<Byte>, prefix: seq<Byte>, last: seq<Byte>)
    requires IsSplit(full, prefix, last)
    ensures Components(full) == Components(prefix) + if last == [] then [] else [last]
  {
    var seps := full[|prefix|..|full| - |last|];
    assert full == prefix + (seps + last);
    ComponentsConcat(prefix, seps + last);
    LeadingSeparators(seps, last);
    if last != [] {
      ComponentsOfWord(last);
    }
  }

  /** A component of a path: not empty, and without separators. */
  predicate IsWord(name: seq<Byte>) {
    name != [] && forall i | 0 <= i < |name| :: !IsSeparator(name[i])
  }

  lemma {:induction false} ComponentsAreWords(path: seq<Byte>)
    ensures forall name <- Components(path) :: IsWord(name)
    decreases |path|
  {
    if path != [] {
      if IsSeparator(path[0]) {
        ComponentsAreWords(path[1..]);
      } else {
        ComponentsAreWords(path[WordLength(path)..]);
      }
    }
  }

  /** The path with the given components. */
  function Join(names: seq<seq<Byte>>): seq<Byte> {
    if names == [] then [] else Join(names[..|names| - 1]) + ([SLASH] + names[|names| - 1])
  }

  lemma {:induction false} ComponentsJoin(names: seq<seq<Byte>>)
    requires forall name <- names :: IsWord(name)
    ensures Components(Join(names)) == names
  {
    if names != [] {
      var last := names[|names| - 1];
      ComponentsJoin(names[..|names| - 1]);
      ComponentsConcat(Join(names[..|names| - 1]), [SLASH] + last);
      LeadingSeparators([SLASH], last);
      assert IsWord(last);
      ComponentsOfWord(last);
    }
  }
}
