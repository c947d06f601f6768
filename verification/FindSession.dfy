/** What a program receives from a whole directory search: every wanted entry once, in order,
    for any sequence of buffer sizes and counts. */
module FindSession {
  import opened Bytes
  import opened Os2
  import opened Wildcard
  import opened EaList
  import opened IsoDir
  import opened FileRecord
  import opened Find

  /** Reads n records, one behind the other. */
  function ReadRecords(getPos: bool, level: nat, n: nat, s: seq<Byte>): Option<Item<seq<Info>>> {
    if n == 0 then Some(Item([], s))
    else
      match DecodeRecord(getPos, level, s)
      case None => None
      case Some(item) =>
        match ReadRecords(getPos, level, n - 1, item.rest)
        case None => None
        case Some(more) => Some(Item([item.value] + more.value, more.rest))
  }

  /** What the records for the entries at the given positions have to say. */
  function Infos(s: Search, es: seq<DirEntry>, first: int, p: Params, found: seq<nat>): (infos: seq<Info>)
    requires AllParsed(es) && forall k | 0 <= k < |found| :: found[k] < |es|
    ensures |infos| == |found|
    ensures forall k | 0 <= k < |found| :: infos[k] == InfoOf(Shown(s, es[found[k]]), p, first + found[k])
  {
    seq(|found|, k requires 0 <= k < |found| => InfoOf(Shown(s, es[found[k]]), p, first + found[k]))
  }

  /** As the positions of the wanted entries from i to j. */
  function WantedInfos(s: Search, es: seq<DirEntry>, first: int, p: Params, i: nat, j: nat): seq<Info>
    requires i <= j <= |es| && AllParsed(es)
  {
    WantedInExact(s, es, i, j);
    Infos(s, es, first, p, WantedIn(s, es, i, j))
  }

  /** The request is one whose attribute list, if it has any, is well-formed. */
  predicate Proper(p: Params) {
    p.level == 3 ==> EasConsistent(p.geas)
  }

  /** The level of the records of a reply. */
  function AtLevel(p: Params, rc: ApiRet): Params {
    if rc == EasDidntFit then p.(level := 2) else p
  }

  /** The return codes that a proper request can meet. */
  predicate Regular(rc: ApiRet) {
    rc.NoError? || rc.EasDidntFit? || rc.NoMoreFiles? || rc.BufferOverflow?
  }

  /** Where one step leaves the cursor, and the only errors that a proper request can meet. */
  lemma NextRecordOutcome(s: Search, es: seq<DirEntry>, first: int, p: Params, k: nat, left: nat)
    requires k <= |es| && AllParsed(es)
    ensures var r, j := NextRecord(s, es, first, p, k, left), NextWanted(s, es, k);
            && (r.rc == NoError ==> j < |es| && r.next == j + 1 && Proper(p))
            && (r.rc == EasDidntFit ==> j < |es|)
            && (r.rc != NoError ==> r.next == j)
            && (r.rc !in {NoError, EasDidntFit} ==> r.bytes == [])
            && (r.rc == NoMoreFiles <==> j == |es|)
            && (Proper(p) ==> Regular(r.rc))
  {
    hide EntryRecord, NextWanted, Parsed;
    var j := NextWanted(s, es, k);
    if j < |es| {
      var e := Shown(s, es[j]);
      ShownProper(s, es[j]);
      RecordRc(e, p, first + j, left);
      DoneIsProper(e, p, first + j, left);
      if Proper(p) {
        OutcomeExact(e, p, first + j, left);
      }
      NeverNoMoreFiles(e, p, first + j, left);
    }
  }

  /** The record of one step, read back, says what there is to say of the entry. */
  lemma NextRecordMeans(s: Search, es: seq<DirEntry>, first: int, p: Params, k: nat, left: nat, rest: seq<Byte>)
    requires k <= |es| && AllParsed(es) && left < 0x1_0000_0000
    requires NextRecord(s, es, first, p, k, left).rc in {NoError, EasDidntFit}
    ensures var r, j := NextRecord(s, es, first, p, k, left), NextWanted(s, es, k);
            && j < |es|
            && DecodeRecord(p.getPos, AtLevel(p, r.rc).level, r.bytes + rest) ==
               Some(Item(InfoOf(Shown(s, es[j]), AtLevel(p, r.rc), first + j), rest))
  {
    hide EntryRecord, DecodeRecord, InfoOf, NextWanted, Parsed;
    var j := NextWanted(s, es, k);
    var e := Shown(s, es[j]);
    ShownProper(s, es[j]);
    RecordRc(e, p, first + j, left);
    EntryRoundTrip(e, p, first + j, left, rest);
  }

  lemma ShownProper(s: Search, e: DirEntry)
    requires Parsed(e)
    ensures |Shown(s, e).date| == 9 && |Shown(s, e).name| <= 255
  {
  }

  lemma NeverNoMoreFiles(e: DirEntry, p: Params, iNext: int, left: nat)
    requires |e.date| == 9
    ensures Rc(EntryRecord(e, p, iNext, left)) != NoMoreFiles
  {
  }

  /** A request whose attributes were stored once was proper. */
  lemma DoneIsProper(e: DirEntry, p: Params, iNext: int, left: nat)
    requires |e.date| == 9
    ensures EntryRecord(e, p, iNext, left).Done? ==> Proper(p)
  {
    hide StoreEas, ParseGeas;
    if p.level == 3 && p.geas.Some? && left >= HeadSize(p) + 4 && p.geas.value.cbList >= 4 {
      StoreEasExact(p.geas.value.list[..p.geas.value.cbList - 4], left - HeadSize(p) - 4);
    }
  }

  /** The outcome of one call: once a record is in the buffer, the call succeeds; a successful
      call delivers something; ERROR_NO_MORE_FILES means that the list is through; a proper
      request meets no other error than that and an overflow. */
  lemma {:induction false} BatchOutcome(
    s: Search, es: seq<DirEntry>, first: int, p: Params, k: nat, left: nat, n: nat, any: bool)
    requires k <= |es| && AllParsed(es)
    requires any ==> Proper(p)
    ensures var r := Batch(s, es, first, p, k, left, n, any);
            (any ==> r.rc == NoError)
            && (r.rc == NoError && n > 0 && !any ==> r.cMatch > 0)
            && (r.rc != NoError ==> r.rc == NextRecord(s, es, first, p, k, left).rc)
            && (r.rc == EasDidntFit ==> r.cMatch == 1)
            && (r.rc != NoError && r.rc != EasDidntFit ==> r.cMatch == 0)
            && (r.rc == NoMoreFiles ==> r.next == |es|)
            && (Proper(p) ==> Regular(r.rc))
    decreases n
  {
    hide AllParsed, Proper, NextRecord, NextWanted, InFront;
    if n > 0 {
      var r := NextRecord(s, es, first, p, k, left);
      NextRecordOutcome(s, es, first, p, k, left);
      if r.rc == NoError {
        var tail := Batch(s, es, first, p, r.next, left - |r.bytes|, n - 1, true);
        BatchOutcome(s, es, first, p, r.next, left - |r.bytes|, n - 1, true);
        InFrontOf(r.bytes, tail);
      }
    }
  }

  lemma LevelsKept(p: Params)
    ensures AtLevel(p, NoError) == p && AtLevel(p, EasDidntFit) == p.(level := 2)
    ensures forall rc :: rc != EasDidntFit ==> AtLevel(p, rc) == p
  {
  }

  lemma InFrontOf(bytes: seq<Byte>, r: Reply)
    requires r.rc == NoError
    ensures InFront(bytes, 1, r) == Reply(NoError, 1 + r.cMatch, bytes + r.bytes, r.next)
  {
  }

  /** One call delivers the wanted entries it passes, in order and each once: the reply begins
      with as many records as its count says, whatever the buffer holds behind them; they say
      what there is to say of these entries, and the cursor stops behind the last of them. */
  lemma {:induction false} BatchDelivers(
    s: Search, es: seq<DirEntry>, first: int, p: Params, k: nat, left: nat, n: nat, any: bool, rest: seq<Byte>)
    requires k <= |es| && AllParsed(es) && left < 0x1_0000_0000
    requires any ==> Proper(p)
    ensures var r := Batch(s, es, first, p, k, left, n, any);
            && r.cMatch == |WantedIn(s, es, k, r.next)|
            && ReadRecords(p.getPos, AtLevel(p, r.rc).level, r.cMatch, r.bytes + rest) ==
               Some(Item(WantedInfos(s, es, first, AtLevel(p, r.rc), k, r.next), rest))
    decreases n
  {
    hide DecodeRecord, InfoOf, AllParsed, Proper, NextRecord, WantedIn, WantedInfos, NextWanted, Shown;
    hide InFront, AtLevel, ReadRecords, Batch;
    BatchFirst(s, es, first, p, k, left, n, any);
    LevelsKept(p);
    ReadNothing(p, rest);
    NoneWanted(s, es, first, p, k);
    assert [] + rest == rest;
    if n > 0 {
      var r, j := NextRecord(s, es, first, p, k, left), NextWanted(s, es, k);
      NextRecordOutcome(s, es, first, p, k, left);
      if r.rc == NoError {
        var tail := Batch(s, es, first, p, r.next, left - |r.bytes|, n - 1, true);
        NextRecordMeans(s, es, first, p, k, left, tail.bytes + rest);
        BatchOutcome(s, es, first, p, j + 1, left - |r.bytes|, n - 1, true);
        InFrontOf(r.bytes, tail);
        BatchDelivers(s, es, first, p, j + 1, left - |r.bytes|, n - 1, true, rest);
        FirstWanted(s, es, first, p, k, tail.next);
        Regroup(r.bytes, tail.bytes, rest);
        ReadOneMore(p.getPos, p.level, 1 + tail.cMatch, r.bytes + (tail.bytes + rest));
      } else if r.rc == EasDidntFit && !any {
        NextRecordMeans(s, es, first, p, k, left, rest);
        FirstWanted(s, es, first, p.(level := 2), k, j + 1);
        NoneWanted(s, es, first, p.(level := 2), j + 1);
        ReadOneMore(p.getPos, 2, 1, r.bytes + rest);
      }
    }
  }

  lemma ReadNothing(p: Params, s: seq<Byte>)
    ensures forall level :: ReadRecords(p.getPos, level, 0, s) == Some(Item([], s))
  {
  }

  lemma ReadOneMore(getPos: bool, level: nat, n: nat, s: seq<Byte>)
    requires n > 0 && DecodeRecord(getPos, level, s).Some?
    ensures var item := DecodeRecord(getPos, level, s).value;
            ReadRecords(getPos, level, n, s) ==
            match ReadRecords(getPos, level, n - 1, item.rest)
            case None => None
            case Some(more) => Some(Item([item.value] + more.value, more.rest))
  {
  }

  lemma Regroup(a: seq<Byte>, b: seq<Byte>, c: seq<Byte>)
    ensures (a + b) + c == a + (b + c)
  {
  }

  lemma NoneWanted(s: Search, es: seq<DirEntry>, first: int, p: Params, k: nat)
    requires k <= |es| && AllParsed(es)
    ensures WantedIn(s, es, k, k) == [] && WantedInfos(s, es, first, p, k, k) == []
    ensures WantedInfos(s, es, first, p, k, NextWanted(s, es, k)) == []
  {
  }

  /** The infos up to somewhere behind the next wanted entry begin with its own. */
  lemma FirstWanted(s: Search, es: seq<DirEntry>, first: int, p: Params, k: nat, m: nat)
    requires k <= |es| && AllParsed(es) && NextWanted(s, es, k) < m <= |es|
    ensures var j := NextWanted(s, es, k);
            && WantedIn(s, es, k, m) == [j] + WantedIn(s, es, j + 1, m)
            && WantedInfos(s, es, first, p, k, m) ==
               [InfoOf(Shown(s, es[j]), p, first + j)] + WantedInfos(s, es, first, p, j + 1, m)
  {
    hide Wanted, InfoOf, AllParsed, Infos, WantedIn, NextWanted, Shown;
    var j := NextWanted(s, es, k);
    FirstOfWanted(s, es, k, m);
    WantedInExact(s, es, k, m);
    WantedInExact(s, es, j + 1, m);
    InfosCons(s, es, first, p, j, WantedIn(s, es, j + 1, m));
  }

  lemma FirstOfWanted(s: Search, es: seq<DirEntry>, k: nat, m: nat)
    requires k <= |es| && NextWanted(s, es, k) < m <= |es|
    ensures var j := NextWanted(s, es, k); WantedIn(s, es, k, m) == [j] + WantedIn(s, es, j + 1, m)
  {
    hide Wanted;
    WantedInSplit(s, es, k, NextWanted(s, es, k), m);
  }

  lemma InfosCons(s: Search, es: seq<DirEntry>, first: int, p: Params, j: nat, found: seq<nat>)
    requires AllParsed(es) && j < |es| && forall k | 0 <= k < |found| :: found[k] < |es|
    ensures forall k | 0 <= k < |[j] + found| :: ([j] + found)[k] < |es|
    ensures Infos(s, es, first, p, [j] + found) ==
            [InfoOf(Shown(s, es[j]), p, first + j)] + Infos(s, es, first, p, found)
  {
    hide InfoOf, Parsed;
  }

  /** A call stops before the count is reached only where the list is through or the next
      wanted entry does not fit in full behind what is stored. An overflow is reported only if
      the first wanted entry does not fit, and leaves it under the cursor. */
  lemma {:induction false} BatchStops(
    s: Search, es: seq<DirEntry>, first: int, p: Params, k: nat, left: nat, n: nat, any: bool)
    requires k <= |es| && AllParsed(es)
    requires Proper(p)
    ensures var r := Batch(s, es, first, p, k, left, n, any);
            && (r.rc == NoError && r.cMatch < n ==>
                  r.next == |es| ||
                  (Wanted(s, es[r.next]) &&
                   NextRecord(s, es, first, p, r.next, left - |r.bytes|).rc in {BufferOverflow, EasDidntFit}))
            && (r.rc == BufferOverflow ==>
                  && r.next < |es| && Wanted(s, es[r.next])
                  && NextRecord(s, es, first, p, r.next, left).rc == BufferOverflow)
    decreases n
  {
    hide AllParsed, Proper, NextRecord, NextWanted, InFront, Wanted, Batch;
    BatchFirst(s, es, first, p, k, left, n, any);
    BatchOutcome(s, es, first, p, k, left, n, any);
    if n > 0 {
      var r := NextRecord(s, es, first, p, k, left);
      NextRecordOutcome(s, es, first, p, k, left);
      if r.rc == NoError {
        var tail := Batch(s, es, first, p, r.next, left - |r.bytes|, n - 1, true);
        BatchOutcome(s, es, first, p, r.next, left - |r.bytes|, n - 1, true);
        BatchStops(s, es, first, p, r.next, left - |r.bytes|, n - 1, true);
        InFrontOf(r.bytes, tail);
        assert left - |r.bytes| - |tail.bytes| == left - |r.bytes + tail.bytes|;
      } else if r.next < |es| {
        SameStep(s, es, first, p, k, left);
      }
    }
  }

  /** A step repeated from where it failed fails again. */
  lemma SameStep(s: Search, es: seq<DirEntry>, first: int, p: Params, k: nat, left: nat)
    requires k <= |es| && AllParsed(es)
    requires NextRecord(s, es, first, p, k, left).rc != NoError
    ensures var r := NextRecord(s, es, first, p, k, left);
            && (r.next < |es| ==> Wanted(s, es[r.next]))
            && NextRecord(s, es, first, p, r.next, left) == r
  {
    hide EntryRecord, Wanted, Parsed;
  }

  /** A call for no entry at all is refused and moves nothing; any other is a batch. */
  lemma ZeroIsRefused(s: Search, es: seq<DirEntry>, first: int, p: Params, k: nat, cbData: nat, cMatch: nat)
    requires k <= |es| && AllParsed(es)
    ensures var r := DirContents(s, es, first, p, k, cbData, cMatch);
            && (cMatch == 0 <==> r.rc == InvalidParameter && r.cMatch == 0 && r.bytes == [] && r.next == k)
            && (cMatch > 0 ==> r == Batch(s, es, first, p, k, cbData, cMatch, false))
  {
    hide EntryRecord, Wanted, Parsed;
    if cMatch > 0 {
      NeverInvalid(s, es, first, p, k, cbData);
      BatchOutcome(s, es, first, p, k, cbData, cMatch, false);
    }
  }

  lemma NeverInvalid(s: Search, es: seq<DirEntry>, first: int, p: Params, k: nat, left: nat)
    requires k <= |es| && AllParsed(es)
    ensures NextRecord(s, es, first, p, k, left).rc != InvalidParameter
  {
  }

  // ----- a whole search

  /** A call of the program: what it asks for, the size of its buffer and its count. */
  datatype Request = Request(p: Params, cbData: Word32, cMatch: nat)

  /** The cursor after the calls, the first of which begins the search. */
  function Cursor(s: Search, es: seq<DirEntry>, first: int, rs: seq<Request>): (k: nat)
    requires AllParsed(es)
    ensures k <= |es|
    decreases |rs|, 0
  {
    if rs == [] then 0 else LastReply(s, es, first, rs).next
  }

  /** The reply to the last of the calls. */
  function LastReply(s: Search, es: seq<DirEntry>, first: int, rs: seq<Request>): (r: Reply)
    requires rs != [] && AllParsed(es)
    ensures Cursor(s, es, first, rs[..|rs| - 1]) <= r.next <= |es|
    decreases |rs| - 1, 1
  {
    var n := |rs| - 1;
    DirContents(s, es, first, rs[n].p, Cursor(s, es, first, rs[..n]), rs[n].cbData, rs[n].cMatch)
  }

  lemma LastReplyIs(s: Search, es: seq<DirEntry>, first: int, rs: seq<Request>)
    requires rs != [] && AllParsed(es)
    ensures var n := |rs| - 1;
            LastReply(s, es, first, rs) ==
            DirContents(s, es, first, rs[n].p, Cursor(s, es, first, rs[..n]), rs[n].cbData, rs[n].cMatch)
  {
  }

  /** What a program reads from its buffer after a call with this return code and count. */
  function ReadReply(p: Params, rc: ApiRet, cMatch: nat, buf: seq<Byte>): seq<Info> {
    if rc != NoError && rc != EasDidntFit then []
    else
      match ReadRecords(p.getPos, AtLevel(p, rc).level, cMatch, buf)
      case None => []
      case Some(infos) => infos.value
  }

  /** What it reads after all of them. */
  function Received(s: Search, es: seq<DirEntry>, first: int, rs: seq<Request>): seq<Info>
    requires AllParsed(es)
  {
    if rs == [] then []
    else
      var r := LastReply(s, es, first, rs);
      Received(s, es, first, rs[..|rs| - 1]) + ReadReply(rs[|rs| - 1].p, r.rc, r.cMatch, r.bytes)
  }

  /** All there is to say of the wanted entries the calls have passed, each at the level and
      with the position and attributes that its call asked for. */
  function Delivered(s: Search, es: seq<DirEntry>, first: int, rs: seq<Request>): seq<Info>
    requires AllParsed(es)
  {
    if rs == [] then []
    else
      var n, r := |rs| - 1, LastReply(s, es, first, rs);
      Delivered(s, es, first, rs[..n]) +
      WantedInfos(s, es, first, AtLevel(rs[n].p, r.rc), Cursor(s, es, first, rs[..n]), r.next)
  }

  /** The info tells of the i-th entry. */
  predicate Tells(info: Info, s: Search, es: seq<DirEntry>, first: int, i: nat)
    requires AllParsed(es)
  {
    && i < |es| && ShownAs(s, es[i].name, info.name) && info.status == StatusOf(es[i])
    && (info.position.Some? ==> info.position.value == (first + i) % 0x1_0000_0000)
  }

  predicate AllTell(infos: seq<Info>, s: Search, es: seq<DirEntry>, first: int, found: seq<nat>)
    requires AllParsed(es)
  {
    |infos| == |found| && forall k | 0 <= k < |infos| :: Tells(infos[k], s, es, first, found[k])
  }

  lemma InfosTell(s: Search, es: seq<DirEntry>, first: int, p: Params, i: nat, j: nat)
    requires i <= j <= |es| && AllParsed(es)
    ensures AllTell(WantedInfos(s, es, first, p, i, j), s, es, first, WantedIn(s, es, i, j))
  {
    hide WantedIn, Parsed, ShownAs, Shown;
    WantedInExact(s, es, i, j);
    var found := WantedIn(s, es, i, j);
    forall k | 0 <= k < |found|
      ensures Tells(WantedInfos(s, es, first, p, i, j)[k], s, es, first, found[k])
    {
      ShownExact(s, es[found[k]]);
    }
  }

  /** What a program reads after one call, whatever its buffer holds behind the reply. */
  lemma ReplyTells(s: Search, es: seq<DirEntry>, first: int, q: Request, k: nat, rest: seq<Byte>)
    requires k <= |es| && AllParsed(es)
    ensures var r := DirContents(s, es, first, q.p, k, q.cbData, q.cMatch);
            && ReadReply(q.p, r.rc, r.cMatch, r.bytes) ==
               WantedInfos(s, es, first, AtLevel(q.p, r.rc), k, r.next)
            && AllTell(ReadReply(q.p, r.rc, r.cMatch, r.bytes), s, es, first, WantedIn(s, es, k, r.next))
            && ReadReply(q.p, r.rc, r.cMatch, r.bytes + rest) == ReadReply(q.p, r.rc, r.cMatch, r.bytes)
  {
    hide WantedInfos, ReadRecords, Batch, WantedIn, Tells, AllParsed;
    NoneWanted(s, es, first, q.p, k);
    if q.cMatch > 0 {
      BatchOutcome(s, es, first, q.p, k, q.cbData, q.cMatch, false);
      BatchDelivers(s, es, first, q.p, k, q.cbData, q.cMatch, false, rest);
      BatchDelivers(s, es, first, q.p, k, q.cbData, q.cMatch, false, []);
      var r := DirContents(s, es, first, q.p, k, q.cbData, q.cMatch);
      assert r.bytes + [] == r.bytes;
      InfosTell(s, es, first, AtLevel(q.p, r.rc), k, r.next);
    }
  }

  /** A whole search, of any number of calls with any levels, buffer sizes and counts,
      whatever position it begins with: the program receives, in order and each once, all there
      is to say of the wanted entries up to the cursor, positions and attributes included.
      After ERROR_NO_MORE_FILES these are all of them. */
  lemma {:induction false} SearchDelivers(s: Search, es: seq<DirEntry>, first: int, rs: seq<Request>)
    requires AllParsed(es)
    ensures var k := Cursor(s, es, first, rs);
            && Received(s, es, first, rs) == Delivered(s, es, first, rs)
            && AllTell(Received(s, es, first, rs), s, es, first, WantedIn(s, es, 0, k))
            && WantedIn(s, es, 0, k) <= WantedIn(s, es, 0, |es|)
            && (rs != [] && LastReply(s, es, first, rs).rc == NoMoreFiles ==> k == |es|)
  {
    hide WantedIn, WantedInfos, Tells, ReadReply, DirContents, AllParsed;
    var k := Cursor(s, es, first, rs);
    WantedInSplit(s, es, 0, k, |es|);
    if rs == [] {
      NoneWanted(s, es, first, Params(1, false, None), 0);
    } else {
      var n := |rs| - 1;
      var before := Cursor(s, es, first, rs[..n]);
      SearchDelivers(s, es, first, rs[..n]);
      LastReplyIs(s, es, first, rs);
      CursorAdvances(s, es, first, rs[n], before);
      ReplyTells(s, es, first, rs[n], before, []);
      WantedInSplit(s, es, 0, before, k);
    }
  }

  lemma CursorAdvances(s: Search, es: seq<DirEntry>, first: int, q: Request, k: nat)
    requires k <= |es| && AllParsed(es)
    ensures var r := DirContents(s, es, first, q.p, k, q.cbData, q.cMatch);
            k <= r.next <= |es| && (r.rc == NoMoreFiles ==> r.next == |es|)
  {
    hide Batch;
    if q.cMatch > 0 {
      BatchOutcome(s, es, first, q.p, k, q.cbData, q.cMatch, false);
    }
  }

  /** The positions a program receives strictly increase, whatever value the counter begins
      with, exactly until its 32 bits wrap around: of two that are received, the later one is
      greater if and only if the counter did not wrap between them (or not so far as to pass
      the earlier one again, which takes 2^32 entries). */
  lemma PositionsIncrease(s: Search, es: seq<DirEntry>, first: int, rs: seq<Request>, k: nat, m: nat)
    requires AllParsed(es) && k < m < |Received(s, es, first, rs)|
    requires var got := Received(s, es, first, rs); got[k].position.Some? && got[m].position.Some?
    ensures var got, found := Received(s, es, first, rs), WantedIn(s, es, 0, Cursor(s, es, first, rs));
            && |found| == |got| && found[k] < found[m] < |es|
            && var before, after := got[k].position.value, got[m].position.value;
               var wraps := Wraps(first + found[k], first + found[m]);
               && (!wraps ==> before < after)
               && (wraps && found[m] - found[k] <= 0x1_0000_0000 ==> after <= before)
               && (first % 0x1_0000_0000 + |es| <= 0x1_0000_0000 ==> !wraps)
  {
    hide WantedIn, Received, Delivered, LastReply, AllParsed, Wanted, StatusOf, Shown, Cursor, Wraps;
    SearchDelivers(s, es, first, rs);
    var got, found := Received(s, es, first, rs), WantedIn(s, es, 0, Cursor(s, es, first, rs));
    WantedInExact(s, es, 0, Cursor(s, es, first, rs));
    assert Tells(got[k], s, es, first, found[k]) && Tells(got[m], s, es, first, found[m]);
    WrapsExactly(first + found[k], first + found[m]);
    StaysBelow(first, found[k], found[m], |es|);
  }

  /** The 32 bits of a counter wrap around on its way from a to b. */
  predicate Wraps(a: int, b: int) {
    a / 0x1_0000_0000 != b / 0x1_0000_0000
  }

  lemma WrapsExactly(a: int, b: int)
    requires a < b
    ensures !Wraps(a, b) ==> a % 0x1_0000_0000 < b % 0x1_0000_0000
    ensures Wraps(a, b) && b - a <= 0x1_0000_0000 ==> b % 0x1_0000_0000 <= a % 0x1_0000_0000
  {
  }

  lemma StaysBelow(first: int, i: nat, j: nat, n: nat)
    requires i < n && j < n
    ensures first % 0x1_0000_0000 + n <= 0x1_0000_0000 ==> !Wraps(first + i, first + j)
  {
  }

  /** Whoever asks for positions gets them. */
  lemma {:induction false} PositionsPresent(s: Search, es: seq<DirEntry>, first: int, rs: seq<Request>)
    requires AllParsed(es) && forall i | 0 <= i < |rs| :: rs[i].p.getPos
    ensures forall i | 0 <= i < |Delivered(s, es, first, rs)| :: Delivered(s, es, first, rs)[i].position.Some?
  {
    hide WantedIn, LastReply, Cursor, AllParsed, Shown;
    if rs != [] {
      PositionsPresent(s, es, first, rs[..|rs| - 1]);
    }
  }

  // ----- reaching the end

  /** A call with room for at least one record of any entry. */
  predicate Roomy(q: Request) {
    && q.cMatch > 0 && Proper(q.p)
    && q.cbData >= 283 + (if q.p.level == 3 then EasLength(q.p.geas) else if q.p.level == 2 then 4 else 0)
  }

  lemma RoomyStep(s: Search, es: seq<DirEntry>, first: int, q: Request, k: nat)
    requires k <= |es| && AllParsed(es) && Roomy(q) && NextWanted(s, es, k) < |es|
    ensures NextRecord(s, es, first, q.p, k, q.cbData).rc in {NoError, EasDidntFit}
  {
    hide EntryRecord, Parsed;
    var j := NextWanted(s, es, k);
    ShownProper(s, es[j]);
    OutcomeExact(Shown(s, es[j]), q.p, first + j, q.cbData);
    RecordRc(Shown(s, es[j]), q.p, first + j, q.cbData);
  }

  lemma RoomyCall(s: Search, es: seq<DirEntry>, first: int, q: Request, k: nat)
    requires k <= |es| && AllParsed(es) && Roomy(q)
    ensures var r := DirContents(s, es, first, q.p, k, q.cbData, q.cMatch);
            if NextWanted(s, es, k) == |es| then r.rc == NoMoreFiles
            else k <= r.next <= |es| && WantedIn(s, es, k, r.next) != []
  {
    hide WantedIn, NextRecord, AllParsed, NextWanted;
    NextRecordOutcome(s, es, first, q.p, k, q.cbData);
    if NextWanted(s, es, k) < |es| {
      RoomyStep(s, es, first, q, k);
      BatchOutcome(s, es, first, q.p, k, q.cbData, q.cMatch, false);
      BatchDelivers(s, es, first, q.p, k, q.cbData, q.cMatch, false, []);
    }
  }

  /** A program that always leaves room for one record has everything after as many calls as
      there are wanted entries, and learns so by one call more. */
  lemma {:induction false} SearchEnds(s: Search, es: seq<DirEntry>, first: int, rs: seq<Request>)
    requires AllParsed(es) && forall i | 0 <= i < |rs| :: Roomy(rs[i])
    ensures var all := |WantedIn(s, es, 0, |es|)|;
            && |WantedIn(s, es, 0, Cursor(s, es, first, rs))| >= (if |rs| <= all then |rs| else all)
            && (|rs| > all ==> LastReply(s, es, first, rs).rc == NoMoreFiles)
  {
    hide WantedIn, NextWanted, Roomy, DirContents, AllParsed;
    if rs != [] {
      var n := |rs| - 1;
      var before, k := Cursor(s, es, first, rs[..n]), Cursor(s, es, first, rs);
      SearchEnds(s, es, first, rs[..n]);
      LastReplyIs(s, es, first, rs);
      CursorAdvances(s, es, first, rs[n], before);
      RoomyCall(s, es, first, rs[n], before);
      WantedInSplit(s, es, 0, before, k);
      WantedInSplit(s, es, 0, before, |es|);
      WantedInSplit(s, es, 0, k, |es|);
      NoMoreWanted(s, es, before);
    }
  }

  lemma NoMoreWanted(s: Search, es: seq<DirEntry>, k: nat)
    requires k <= |es|
    ensures NextWanted(s, es, k) == |es| <==> WantedIn(s, es, k, |es|) == []
  {
    hide Wanted;
    WantedInExact(s, es, k, |es|);
  }

  // ----- a directory, from the image to the program

  /** The search for everything: the pattern "*.*", directories and long names included. */
  function Everything(): Search {
    Search([STAR, DOT, STAR], 0x50)
  }

  lemma {:induction false} AllWanted(es: seq<DirEntry>, i: nat)
    requires i <= |es| && AllParsed(es)
    ensures |WantedIn(Everything(), es, i, |es|)| == |es| - i
    ensures forall k | 0 <= k < |es| - i :: WantedIn(Everything(), es, i, |es|)[k] == i + k
    decreases |es| - i
  {
    hide Wanted;
    if i < |es| {
      WantedMeans(Everything(), es[i]);
      AttributesOfEverything();
      StarDotStar(es[i].name);
      AllWanted(es, i + 1);
    }
  }

  lemma AttributesOfEverything()
    ensures var f := Everything().flAttr; f & 0x2600 == 0 && f & 0x10 != 0 && f & 0x1000 == 0 && f & 0x40 != 0
    ensures Has(Everything().flAttr, NON83)
  {
  }

  /** A search that begins with the counter at its greatest value: the second position received
      is smaller than the first. */
  lemma PositionsCanWrap() returns (es: seq<DirEntry>, first: int, rs: seq<Request>)
    ensures AllParsed(es)
    ensures var got := Received(Everything(), es, first, rs);
            && |got| == 2 && got[0].position == Some(0xFFFF_FFFF) && got[1].position == Some(0)
  {
    hide Received, Delivered, WantedIn, Cursor, LastReply, Wraps;
    var s, date := Everything(), Zeros(9);
    es := [
      DirEntry([65], 20, 5, false, date, 18, AttrOf(false)),
      DirEntry([66], 21, 5, false, date, 18, AttrOf(false))];
    first := 0xFFFF_FFFF;
    var q := Request(Params(1, true, None), 1000, 1);
    rs := [q, q];
    assert forall i | 0 <= i < |es| :: Parsed(es[i]);
    AllWanted(es, 0);
    SearchDelivers(s, es, first, rs);
    SearchEnds(s, es, first, rs);
    PositionsPresent(s, es, first, rs);
    var got, found := Received(s, es, first, rs), WantedIn(s, es, 0, Cursor(s, es, first, rs));
    assert found == WantedIn(s, es, 0, |es|);
    assert Tells(got[0], s, es, first, found[0]) && Tells(got[1], s, es, first, found[1]);
  }

  /** The entries of a directory, which are parsed ones. */
  function Entries(vol: Volume, extent: int, len: int): (es: seq<DirEntry>)
    ensures es == DirEntries(vol, extent, len) && AllParsed(es)
  {
    EntriesParsed(vol, extent, len);
    var es := DirEntries(vol, extent, len);
    assert forall i | 0 <= i < |es| :: es[i] in es;
    es
  }

  /** From the image to the program. For every directory laid out by the standard with every
      record in reach, a search for everything, in whatever portions, that ends with
      ERROR_NO_MORE_FILES has given the program the names, sizes and kinds of all entries that
      were laid out, in order. */
  lemma WholeDirectory(vol: Volume, extent: int, len: int, sectors: seq<seq<Record>>, first: int, rs: seq<Request>)
    requires LaidOut(vol.image, extent, sectors) && AllInReach(sectors) && rs != []
    requires len <= 2048 * |sectors| && (sectors != [] ==> 2048 * (|sectors| - 1) < len)
    requires LastReply(Everything(), Entries(vol, extent, len), first, rs).rc == NoMoreFiles
    ensures var got, all :=
              Received(Everything(), Entries(vol, extent, len), first, rs), Expected(vol, extent, sectors);
            && |got| == |all|
            && forall k | 0 <= k < |all| ::
                 && got[k].name == all[k].name
                 && got[k].status.size == (if all[k].isDir then 0 else all[k].size % 0x1_0000_0000)
                 && got[k].status.attributes == (if all[k].isDir then 17 else 1)
  {
    hide WantedIn, Received, LastReply, Cursor, DirEntries, Expected, AllInReach, LaidOut, DateWord, TimeWord;
    var es := Entries(vol, extent, len);
    ReadsExactly(vol, extent, len, sectors);
    SearchDelivers(Everything(), es, first, rs);
    AllWanted(es, 0);
    AttributesOfEverything();
    var got := Received(Everything(), es, first, rs);
    forall k | 0 <= k < |es|
      ensures got[k].name == es[k].name && got[k].status == StatusOf(es[k])
    {
      assert Tells(got[k], Everything(), es, first, k);
    }
  }
}
