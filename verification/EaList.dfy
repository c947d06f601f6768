/** Extended attributes: a list of requested names (GEA list) comes in, a list of attributes
    (FEA list) goes out. The file system has no attributes, so every value is empty. */
module EaList {
  import opened Bytes
  import opened Os2

  /** A GEA list: the count it begins with, and the bytes behind the count. A GEA is a length
      byte, a name of that length and a zero byte. */
  datatype GeaFields = GeaFields(cbList: int, list: seq<Byte>)
  type Geas = g: GeaFields | g.cbList - 4 <= |g.list| witness GeaFields(4, [])

  /** The outcome of writing a list: its bytes, or why it could not be written. */
  datatype Result = Stored(bytes: seq<Byte>) | Overflow | Inconsistent

  type EaName = s: seq<Byte> | |s| <= 255

  /** An FEA without value: no flags, the length of the name, no value, the name. */
  function EncodeFea(name: EaName): (r: seq<Byte>)
    ensures |r| == 5 + |name|
  {
    [0, |name|, 0, 0] + name + [0]
  }

  /** The name of the first GEA in the list, up to its first zero byte. */
  function FirstName(list: seq<Byte>): (name: EaName)
    requires list != [] && list[0] + 2 <= |list|
  {
    CString(list[1..1 + list[0]])
  }

  predicate FirstIsConsistent(list: seq<Byte>)
    requires list != []
  {
    list[0] + 2 <= |list| && list[1 + list[0]] == 0
  }

  /** The GEA loop: the FEAs for the remaining list, with `left` bytes of buffer remaining. */
  function StoreEas(list: seq<Byte>, left: int): Result
    decreases |list|
  {
    if list == [] then Stored([])
    else if !FirstIsConsistent(list) then Inconsistent
    else
      var fea := EncodeFea(FirstName(list));
      if left < |fea| then Overflow
      else
        match StoreEas(list[list[0] + 2..], left - |fea|)
        case Stored(more) => Stored(fea + more)
        case error => error
  }

  /** storeEAsInFEAList: the whole FEA list, its count first. Without a GEA list, all
      attributes are asked for, and there are none. */
  function FeaList(geas: Option<Geas>, cbData: nat): Result {
    if cbData < 4 then Overflow
    else if geas.None? then Stored(LE32(4))
    else if geas.value.cbList < 4 then Inconsistent
    else
      match StoreEas(geas.value.list[..geas.value.cbList - 4], cbData - 4)
      case Stored(bytes) => Stored(LE32(4 + |bytes|) + bytes)
      case error => error
  }

  function RcOf(r: Result): ApiRet {
    match r
    case Stored(_) => NoError
    case Overflow => BufferOverflow
    case Inconsistent => EaListInconsistent
  }

  lemma {:induction false} StoredFits(list: seq<Byte>, left: int)
    requires left >= 0
    ensures StoreEas(list, left).Stored? ==> |StoreEas(list, left).bytes| <= left
    decreases |list|
  {
    if list != [] && FirstIsConsistent(list) && left >= |EncodeFea(FirstName(list))| {
      StoredFits(list[list[0] + 2..], left - |EncodeFea(FirstName(list))|);
    }
  }

  lemma FeaListFits(geas: Option<Geas>, cbData: nat)
    ensures FeaList(geas, cbData).Stored? ==> 4 <= |FeaList(geas, cbData).bytes| <= cbData
  {
    if cbData >= 4 && geas.Some? && geas.value.cbList >= 4 {
      StoredFits(geas.value.list[..geas.value.cbList - 4], cbData - 4);
    }
  }

  /** storeEA: one FEA at position `at`, if it fits. */
  method StoreEA(name: EaName, buf: array<Byte>, at: nat, left: nat) returns (rc: ApiRet, size: nat)
    requires at + left <= buf.Length
    modifies buf
    ensures rc == if left < 5 + |name| then BufferOverflow else NoError
    ensures rc == BufferOverflow ==> size == 0 && buf[..] == old(buf[..])
    ensures rc == NoError ==> size == 5 + |name| && buf[..] == Splice(old(buf[..]), at, EncodeFea(name))
  {
    if left < 4 + |name| + 1 {
      return BufferOverflow, 0;
    }
    Store(buf, at, EncodeFea(name));
    return NoError, 5 + |name|;
  }

  /** Everything outside the n bytes from position `at` is as it was. */
  predicate OnlyWithin(now: seq<Byte>, before: seq<Byte>, at: nat, n: nat) {
    |now| == |before| && at + n <= |now| &&
    now[..at] == before[..at] && now[at + n..] == before[at + n..]
  }

  /** The loop over the GEA list in storeEAsInFEAList2. */
  method StoreListedEAs(list: seq<Byte>, buf: array<Byte>, at: nat, cbData: nat)
    returns (rc: ApiRet, size: nat)
    requires at + cbData <= buf.Length
    modifies buf
    ensures rc == RcOf(StoreEas(list, cbData))
    ensures rc == NoError ==>
              size == |StoreEas(list, cbData).bytes| <= cbData &&
              buf[..] == Splice(old(buf[..]), at, StoreEas(list, cbData).bytes)
    ensures OnlyWithin(buf[..], old(buf[..]), at, cbData)
  {
    hide Splice, EncodeFea;
    ghost var before := buf[..];
    ghost var written: seq<Byte> := [];
    var rest, left: int := list, cbData;
    size := 0;
    SpliceNothing(before, at);
    while rest != []
      invariant size == |written| && size + left == cbData && left >= 0
      invariant buf[..] == Splice(before, at, written)
      invariant StoreEas(list, cbData) == Prepend(written, StoreEas(rest, left))
      decreases |rest|
    {
      Within(before, at, written, cbData);
      if !FirstIsConsistent(rest) {
        return EaListInconsistent, size;
      }
      var stored, n := StoreEA(FirstName(rest), buf, at + size, left);
      if stored != NoError {
        return stored, size;
      }
      ghost var fea := EncodeFea(FirstName(rest));
      SpliceSplice(before, at, written, fea);
      PrependTwice(written, fea, StoreEas(rest[rest[0] + 2..], left - n));
      written := written + fea;
      size, left := size + n, left - n;
      rest := rest[rest[0] + 2..];
    }
    Within(before, at, written, cbData);
    assert written + [] == written;
    return NoError, size;
  }

  /** storeEAsInFEAList2. */
  method StoreEAsInFEAList(geas: Option<Geas>, buf: array<Byte>, at: nat, cbData: nat) returns (rc: ApiRet)
    requires at + cbData <= buf.Length
    modifies buf
    ensures rc == RcOf(FeaList(geas, cbData))
    ensures rc == NoError ==>
              at + |FeaList(geas, cbData).bytes| <= buf.Length &&
              buf[..] == Splice(old(buf[..]), at, FeaList(geas, cbData).bytes)
    ensures OnlyWithin(buf[..], old(buf[..]), at, cbData)
  {
    hide StoreEas, Splice, OnlyWithin, LE32;
    ghost var before := buf[..];
    Within(before, at, [], cbData);
    SpliceNothing(before, at);
    if cbData < 4 {
      return BufferOverflow;
    }
    Store(buf, at, LE32(0));
    ghost var begun := buf[..];
    Within(before, at, LE32(0), cbData);
    ghost var bytes: seq<Byte> := [];
    var size := 0;
    if geas.Some? {
      if geas.value.cbList < 4 {
        return EaListInconsistent;
      }
      var list := geas.value.list[..geas.value.cbList - 4];
      rc, size := StoreListedEAs(list, buf, at + 4, cbData - 4);
      WithinBoth(buf[..], begun, before, at, 4, cbData);
      if rc != NoError {
        return;
      }
      bytes := StoreEas(list, cbData - 4).bytes;
    } else {
      SpliceNothing(begun, at + 4);
    }
    Store(buf, at, LE32(4 + size));
    CountLast(before, at, bytes);
    Within(before, at, LE32(4 + size) + bytes, cbData);
    assert geas.None? ==> LE32(4) + [] == LE32(4);
    return NoError;
  }

  /** A change within n bytes followed by one within the last n - k of them. */
  lemma WithinBoth(c: seq<Byte>, b: seq<Byte>, a: seq<Byte>, at: nat, k: nat, n: nat)
    requires k <= n && OnlyWithin(b, a, at, n) && OnlyWithin(c, b, at + k, n - k)
    ensures OnlyWithin(c, a, at, n)
  {
    assert c[..at] == c[..at + k][..at] == b[..at];
  }

  function Prepend(front: seq<Byte>, r: Result): Result {
    match r
    case Stored(bytes) => Stored(front + bytes)
    case error => error
  }

  lemma PrependTwice(a: seq<Byte>, b: seq<Byte>, r: Result)
    ensures Prepend(a, Prepend(b, r)) == Prepend(a + b, r)
  {
    if r.Stored? {
      assert a + (b + r.bytes) == (a + b) + r.bytes;
    }
  }

  lemma Within(s: seq<Byte>, at: nat, data: seq<Byte>, n: nat)
    requires |data| <= n && at + n <= |s|
    ensures OnlyWithin(Splice(s, at, data), s, at, n)
  {
  }

  lemma SpliceNothing(s: seq<Byte>, at: nat)
    requires at <= |s|
    ensures Splice(s, at, []) == s
  {
  }

  /** Writing the count last gives the same bytes as writing it first. */
  lemma CountLast(s: seq<Byte>, at: nat, data: seq<Byte>)
    requires at + 4 + |data| <= |s|
    ensures Splice(Splice(Splice(s, at, LE32(0)), at + 4, data), at, LE32(4 + |data|)) ==
            Splice(s, at, LE32(4 + |data|) + data)
  {
    Overwrite(s, at, LE32(0), LE32(4 + |data|), data);
  }

  lemma Overwrite(s: seq<Byte>, at: nat, head: seq<Byte>, head': seq<Byte>, data: seq<Byte>)
    requires at + |head| + |data| <= |s| && |head| == |head'|
    ensures Splice(Splice(Splice(s, at, head), at + |head|, data), at, head') == Splice(s, at, head' + data)
  {
    SpliceSplice(s, at, head, data);
    var both := Splice(s, at, head + data);
    assert both[..at] == s[..at];
    assert both[at + |head|..] == data + s[at + |head| + |data|..];
    assert s[..at] + head' + (data + s[at + |head| + |data|..]) ==
           s[..at] + (head' + data) + s[at + |head| + |data|..];
  }

  // ----- what the lists mean

  /** The names in a GEA list, or None if the list is not a sequence of GEAs. */
  function ParseGeas(list: seq<Byte>): Option<seq<seq<Byte>>>
    decreases |list|
  {
    if list == [] then Some([])
    else if !FirstIsConsistent(list) then None
    else
      match ParseGeas(list[list[0] + 2..])
      case None => None
      case Some(more) => Some([list[1..1 + list[0]]] + more)
  }

  function EncodeGeas(names: seq<EaName>): seq<Byte> {
    if names == [] then [] else [|names[0]|] + names[0] + [0] + EncodeGeas(names[1..])
  }

  lemma {:induction false} GeasRoundTrip(names: seq<EaName>)
    ensures ParseGeas(EncodeGeas(names)) == Some(names)
  {
    if names != [] {
      var list, n := EncodeGeas(names), |names[0]|;
      assert list[1..1 + n] == names[0] && list[1 + n] == 0;
      assert list[n + 2..] == EncodeGeas(names[1..]);
      GeasRoundTrip(names[1..]);
      assert [names[0]] + names[1..] == names;
    }
  }

  /** An attribute as a reader of an FEA list sees it. */
  datatype Ea = Ea(flags: Byte, name: seq<Byte>, value: seq<Byte>)

  /** The attributes in a list of FEAs, or None if it is not one. */
  function DecodeFeas(s: seq<Byte>): Option<seq<Ea>>
    decreases |s|
  {
    if s == [] then Some([])
    else if |s| < 4 then None
    else
      var n: nat := s[1];
      var nameEnd := 4 + n;
      var end := nameEnd + 1 + Num16([s[2], s[3]]);
      if |s| < end || s[nameEnd] != 0 then None
      else
        match DecodeFeas(s[end..])
        case None => None
        case Some(more) => Some([Ea(s[0], s[4..nameEnd], s[nameEnd + 1..end])] + more)
  }

  function EncodeFeas(names: seq<EaName>): seq<Byte> {
    if names == [] then [] else EncodeFea(names[0]) + EncodeFeas(names[1..])
  }

  /** One attribute with an empty value for every name. */
  function EmptyEas(names: seq<EaName>): (eas: seq<Ea>)
    ensures |eas| == |names| && forall i | 0 <= i < |names| :: eas[i] == Ea(0, names[i], [])
  {
    seq(|names|, i requires 0 <= i < |names| => Ea(0, names[i], []))
  }

  lemma {:induction false} FeasRoundTrip(names: seq<EaName>)
    ensures DecodeFeas(EncodeFeas(names)) == Some(EmptyEas(names))
  {
    if names != [] {
      FirstFea(names);
      FeasRoundTrip(names[1..]);
      assert EmptyEas(names) == [Ea(0, names[0], [])] + EmptyEas(names[1..]);
    }
  }

  lemma FirstFea(names: seq<EaName>)
    requires names != []
    ensures var s, n := EncodeFeas(names), |names[0]|;
            && |s| >= 5 + n && s[0] == 0 && s[1] == n && s[2] == 0 && s[3] == 0
            && s[4..4 + n] == names[0] && s[4 + n] == 0 && s[5 + n..5 + n] == []
            && s[5 + n..] == EncodeFeas(names[1..])
  {
  }

  /** The names as the daemon copies them: a name ends at its first zero byte. */
  function CNames(names: seq<seq<Byte>>): (r: seq<EaName>)
    requires forall i | 0 <= i < |names| :: |names[i]| <= 255
    ensures |r| == |names| && forall i | 0 <= i < |names| :: r[i] == CString(names[i])
  {
    seq(|names|, i requires 0 <= i < |names| => CString(names[i]))
  }

  lemma {:induction false} ParsedNamesShort(list: seq<Byte>)
    ensures ParseGeas(list).Some? ==>
              forall i | 0 <= i < |ParseGeas(list).value| :: |ParseGeas(list).value[i]| <= 255
    decreases |list|
  {
    if list != [] && FirstIsConsistent(list) {
      ParsedNamesShort(list[list[0] + 2..]);
    }
  }

  /** Exactly what the loop does on any list of bytes: a list that is no sequence of GEAs is
      never answered; on one that is, the answer is the FEAs of its names in order if they
      fit, and an overflow otherwise. */
  lemma {:induction false} StoreEasExact(list: seq<Byte>, left: nat)
    ensures ParseGeas(list).None? ==> !StoreEas(list, left).Stored?
    ensures ParseGeas(list).Some? ==>
              && (forall i | 0 <= i < |ParseGeas(list).value| :: |ParseGeas(list).value[i]| <= 255)
              && var feas := EncodeFeas(CNames(ParseGeas(list).value));
                 StoreEas(list, left) == if |feas| <= left then Stored(feas) else Overflow
    decreases |list|
  {
    ParsedNamesShort(list);
    if list != [] && FirstIsConsistent(list) {
      var fea, tail := EncodeFea(FirstName(list)), list[list[0] + 2..];
      if ParseGeas(tail).Some? {
        ParsedNamesShort(tail);
        var names, more := ParseGeas(list).value, ParseGeas(tail).value;
        assert names == [list[1..1 + list[0]]] + more;
        assert CNames(names)[1..] == CNames(more);
        assert CNames(names)[0] == FirstName(list);
        assert EncodeFeas(CNames(names)) == fea + EncodeFeas(CNames(more));
      }
      if left >= |fea| {
        StoreEasExact(tail, left - |fea|);
      }
    }
  }

  /** The attributes a caller asks for, all of them empty. */
  function WantedEas(geas: Option<Geas>): seq<Ea> {
    if geas.None? || geas.value.cbList < 4 then []
    else
      var list := geas.value.list[..geas.value.cbList - 4];
      ParsedNamesShort(list);
      if ParseGeas(list).None? then [] else EmptyEas(CNames(ParseGeas(list).value))
  }

  predicate EasConsistent(geas: Option<Geas>) {
    geas.None? || (geas.value.cbList >= 4 && ParseGeas(geas.value.list[..geas.value.cbList - 4]).Some?)
  }

  /** The length of the FEA list for a consistent request. */
  function EasLength(geas: Option<Geas>): nat
    requires EasConsistent(geas)
  {
    if geas.None? then 4
    else
      var list := geas.value.list[..geas.value.cbList - 4];
      ParsedNamesShort(list);
      4 + NamesLength(CNames(ParseGeas(list).value))
  }

  /** What a reader makes of an FEA list: its count says how long it is, and it holds the
      attributes asked for. */
  lemma FeaListMeaning(geas: Option<Geas>, cbData: nat)
    requires FeaList(geas, cbData).Stored? && cbData < 0x1_0000_0000
    ensures var bytes := FeaList(geas, cbData).bytes;
            && 4 <= |bytes| && Num32(bytes[..4]) == |bytes|
            && DecodeFeas(bytes[4..]) == Some(WantedEas(geas))
  {
    hide LE32, Num32, DecodeFeas, EncodeFeas, StoreEas, ParseGeas;
    FeaListFits(geas, cbData);
    var bytes := FeaList(geas, cbData).bytes;
    Num32LE32(|bytes|);
    assert bytes[..4] == LE32(|bytes|);
    if geas.None? {
      FeasRoundTrip([]);
      assert EncodeFeas([]) == [] by { NamesLengthIs([]); }
      assert bytes[4..] == [];
    } else {
      var list := geas.value.list[..geas.value.cbList - 4];
      StoreEasExact(list, cbData - 4);
      var names := CNames(ParseGeas(list).value);
      FeasRoundTrip(names);
      assert bytes[4..] == EncodeFeas(names);
    }
  }

  /** A consistent request is answered exactly if the answer fits. */
  lemma FeaListExact(geas: Option<Geas>, cbData: nat)
    requires EasConsistent(geas)
    ensures FeaList(geas, cbData) == Overflow <==> cbData < EasLength(geas)
    ensures cbData >= EasLength(geas) ==>
              FeaList(geas, cbData).Stored? && |FeaList(geas, cbData).bytes| == EasLength(geas)
  {
    hide StoreEas, ParseGeas, NamesLength;
    if geas.Some? {
      var list := geas.value.list[..geas.value.cbList - 4];
      ParsedNamesShort(list);
      NamesLengthIs(CNames(ParseGeas(list).value));
      if cbData >= 4 {
        StoreEasExact(list, cbData - 4);
      }
    }
  }

  /** Whether a GEA list is consistent does not depend on the room: once it was answered, it
      is answered the same way or overflows. */
  lemma ConsistencyIsStable(geas: Option<Geas>, cbData: nat, cbData': nat)
    requires FeaList(geas, cbData).Stored?
    ensures FeaList(geas, cbData').Overflow? || FeaList(geas, cbData') == FeaList(geas, cbData)
  {
    if geas.Some? && cbData' >= 4 {
      var list := geas.value.list[..geas.value.cbList - 4];
      StoreEasExact(list, cbData - 4);
      StoreEasExact(list, cbData' - 4);
    }
  }

  /** The EA list round trip: for every list of names, the GEA list of which is passed in, the
      FEA list holds one attribute with an empty value for each name, in order; its count is
      the number of bytes used, 4 and 5 more than the length of each name; and it overflows
      exactly when these do not fit. */
  lemma EaRoundTrip(names: seq<EaName>, cbData: nat)
    requires forall i | 0 <= i < |names| :: NoNul(names[i])
    ensures var list := EncodeGeas(names);
            var r := FeaList(Some(GeaFields(4 + |list|, list)), cbData);
            if 4 + NamesLength(names) <= cbData then
              && r.Stored? && |r.bytes| == 4 + NamesLength(names)
              && Num32(r.bytes[..4]) == |r.bytes| % 0x1_0000_0000
              && DecodeFeas(r.bytes[4..]) == Some(EmptyEas(names))
            else r == Overflow
  {
    hide EncodeGeas, EncodeFeas, DecodeFeas, StoreEas, ParseGeas, LE32, NamesLength;
    var list := EncodeGeas(names);
    assert list[..|list|] == list;
    GeasRoundTrip(names);
    NamesLengthIs(names);
    if cbData >= 4 {
      StoreEasExact(list, cbData - 4);
      forall i | 0 <= i < |names|
        ensures CString(names[i]) == names[i]
      {
        CStringWhole(names[i]);
      }
      assert CNames(names) == names;
      FeasRoundTrip(names);
      var r := FeaList(Some(GeaFields(4 + |list|, list)), cbData);
      if r.Stored? {
        var feas := EncodeFeas(names);
        assert r.bytes[..4] == LE32(4 + |feas|) && r.bytes[4..] == feas;
        Num32LE32(4 + |feas|);
      }
    }
  }

  function NamesLength(names: seq<EaName>): nat {
    if names == [] then 0 else 5 + |names[0]| + NamesLength(names[1..])
  }

  lemma {:induction false} NamesLengthIs(names: seq<EaName>)
    ensures |EncodeFeas(names)| == NamesLength(names)
  {
    if names != [] {
      NamesLengthIs(names[1..]);
    }
  }

  /** The lists that are taken for sequences of GEAs are those and no others. */
  lemma GeasExact(list: seq<Byte>, names: seq<EaName>)
    ensures ParseGeas(list) == Some(names) <==> list == EncodeGeas(names)
  {
    GeasRoundTrip(names);
    if ParseGeas(list) == Some(names) {
      ParsedBack(list, names);
    }
  }

  lemma {:induction false} ParsedBack(list: seq<Byte>, names: seq<EaName>)
    requires ParseGeas(list) == Some(names)
    ensures list == EncodeGeas(names)
    decreases |list|
  {
    if list != [] {
      var n: nat := list[0];
      var tail := list[n + 2..];
      FirstGea(list);
      assert names == [list[1..1 + n]] + ParseGeas(tail).value;
      assert names[1..] == ParseGeas(tail).value;
      hide ParseGeas;
      ParsedBack(tail, names[1..]);
    }
  }

  lemma FirstGea(list: seq<Byte>)
    requires list != [] && FirstIsConsistent(list)
    ensures var n: nat := list[0]; list == [list[0]] + list[1..1 + n] + [0] + list[n + 2..]
  {
  }

  /** The names of the GEAs in front of the first place where the list is inconsistent. */
  function ConsistentPart(list: seq<Byte>): (names: seq<seq<Byte>>)
    ensures forall i | 0 <= i < |names| :: |names[i]| <= 255
    decreases |list|
  {
    if list == [] || !FirstIsConsistent(list) then []
    else [list[1..1 + list[0]]] + ConsistentPart(list[list[0] + 2..])
  }

  /** A list that is inconsistent somewhere is reported so exactly if the room lasts until
      there. */
  lemma {:induction false} StoreEasInconsistent(list: seq<Byte>, left: nat)
    requires ParseGeas(list).None?
    ensures StoreEas(list, left) ==
            if |EncodeFeas(CNames(ConsistentPart(list)))| <= left then Inconsistent else Overflow
    decreases |list|
  {
    if FirstIsConsistent(list) {
      var fea, tail := EncodeFea(FirstName(list)), list[list[0] + 2..];
      var names, more := ConsistentPart(list), ConsistentPart(tail);
      assert names == [list[1..1 + list[0]]] + more;
      assert CNames(names)[1..] == CNames(more) && CNames(names)[0] == FirstName(list);
      assert EncodeFeas(CNames(names)) == fea + EncodeFeas(CNames(more));
      if left >= |fea| {
        StoreEasInconsistent(tail, left - |fea|);
      }
    }
  }

  /** The return code for every request, consistent or not, and every room. */
  lemma FeaListRc(geas: Option<Geas>, cbData: nat)
    ensures RcOf(FeaList(geas, cbData)) ==
            if cbData < 4 then BufferOverflow
            else if EasConsistent(geas) then
              if cbData < EasLength(geas) then BufferOverflow else NoError
            else if geas.value.cbList < 4 then EaListInconsistent
            else
              var part := ConsistentPart(geas.value.list[..geas.value.cbList - 4]);
              if 4 + NamesLength(CNames(part)) <= cbData then EaListInconsistent else BufferOverflow
  {
    hide StoreEas, ParseGeas, NamesLength, ConsistentPart;
    if EasConsistent(geas) {
      FeaListExact(geas, cbData);
    } else if cbData >= 4 && geas.value.cbList >= 4 {
      var list := geas.value.list[..geas.value.cbList - 4];
      StoreEasInconsistent(list, cbData - 4);
      NamesLengthIs(CNames(ConsistentPart(list)));
    }
  }
}
