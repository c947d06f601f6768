/** The record a directory search stores for one entry: optionally a position, then status,
    attributes and name. */
module FileRecord {
  import opened Bytes
  import opened Os2
  import opened EaList
  import opened IsoDir

  /** What a caller asks for: the info level, positions, and the list of wanted attributes,
      which level 3 looks at. */
  datatype Params = Params(level: nat, getPos: bool, geas: Option<Geas>)

  /** The bytes of a finished record, or those of one finished at level 2 because the
      attributes did not fit, or the reason why there is no record. */
  datatype Outcome = Done(bytes: seq<Byte>) | DoneWithoutEas(bytes: seq<Byte>) | Failed(error: ApiRet)

  // ----- dates

  /** The field twosecs: half the seconds of a signed character, kept in five bits. */
  function TwoSecs(b: Byte): (n: nat)
    ensures n < 32
  {
    if b < 128 then (b / 2) % 32 else (-((256 - b) / 2)) % 32
  }

  /** The second is a signed character, halved towards zero, of which five bits are kept. */
  lemma TwoSecsExact(b: Byte) returns (half: int)
    ensures IsHalf(half, if b < 128 then b else b - 256) && (half - TwoSecs(b)) % 32 == 0
  {
    half := if b < 128 then b / 2 else -((256 - b) / 2);
  }

  /** The number is twice its half but for a remainder of at most one, away from zero. */
  predicate IsHalf(half: int, number: int) {
    -1 <= number - 2 * half <= 1 && (0 <= 2 * half <= number || number <= 2 * half <= 0)
  }

  function DateWord(date: seq<Byte>): int
    requires |date| == 9
  {
    var y: int, m: int, d: int := date[0], date[1], date[2];
    d % 32 + 32 * (m % 16) + 512 * ((y - 80) % 128)
  }

  function TimeWord(date: seq<Byte>): int
    requires |date| == 9
  {
    var h: int, min: int := date[3], date[4];
    TwoSecs(date[5]) + 32 * (min % 64) + 2048 * (h % 32)
  }

  /** A moment as a program reads it from a date and a time word. */
  datatype Moment = Moment(year: int, month: int, day: int, hour: int, minute: int, second: int)

  function MomentOf(date: int, time: int): Moment {
    Moment(1980 + date / 512, date / 32 % 16, date % 32, time / 2048, time / 32 % 64, 2 * (time % 32))
  }

  /** A recording date (section 9.1.5 of ECMA-119) from 1980 to 2107 is reported as it is, to
      an even number of seconds. */
  lemma DateIsKept(date: seq<Byte>)
    requires |date| == 9 && 80 <= date[0] < 208 && 1 <= date[1] <= 12 && 1 <= date[2] <= 31
    requires date[3] < 24 && date[4] < 60 && date[5] < 60
    ensures var y: int, s: int := date[0], date[5];
            MomentOf(DateWord(date), TimeWord(date)) ==
            Moment(1900 + y, date[1], date[2], date[3], date[4], s - s % 2)
    ensures 0 <= DateWord(date) < 0x1_0000 && 0 <= TimeWord(date) < 0x1_0000
  {
    var y: int, m: int, d: int := date[0] - 80, date[1], date[2];
    Digits(d, m, y, 16);
    var h: int, min: int, s: int := date[3], date[4], date[5];
    Digits(s / 2, min, h, 64);
    assert TwoSecs(date[5]) == s / 2;
    assert h % 32 == h && min % 64 == min && d % 32 == d && m % 16 == m && y % 128 == y;
  }

  lemma Digits(a: int, b: int, c: int, n: int)
    requires 0 <= a < 32 && 0 <= b < n
    ensures var w := a + 32 * b + 32 * n * c;
            w % 32 == a && w / 32 % n == b && w / (32 * n) == c
  {
    var w := a + 32 * b + 32 * n * c;
    assert w == a + 32 * (b + n * c);
    assert w / 32 == b + n * c;
    Quotient(b, n, c);
    Quotient(a + 32 * b, 32 * n, c);
  }

  lemma Quotient(r: int, n: int, q: int)
    requires 0 <= r < n
    ensures (r + n * q) / n == q && (r + n * q) % n == r
  {
    var w := r + n * q;
    var k := w / n - q;
    assert n * k == r - w % n;
    assert k >= 1 ==> n * k >= n;
    assert k <= -1 ==> n * k <= -n;
  }

  // ----- the record

  /** The 22 bytes of level 1: three dates, all of them the recording date, two sizes and the
      attributes. */
  function StatusBytes(e: DirEntry): (s: seq<Byte>)
    requires |e.date| == 9
    ensures |s| == 22
  {
    var moment := LE16(DateWord(e.date)) + LE16(TimeWord(e.date));
    var size := LE32(if e.isDir then 0 else e.size);
    moment + moment + moment + size + size + LE16(if e.isDir then 17 else 1)
  }

  function Head(e: DirEntry, p: Params, iNext: int): (s: seq<Byte>)
    requires |e.date| == 9
    ensures |s| == HeadSize(p)
  {
    (if p.getPos then LE32(iNext) else []) + StatusBytes(e)
  }

  function HeadSize(p: Params): nat {
    if p.getPos then 26 else 22
  }

  /** The part between status and name: at level 3 the attributes, if they fit, at level 2
      the size of the attributes, which is zero. */
  function EaPart(p: Params, left: nat): Outcome {
    if p.level == 3 then
      match FeaList(p.geas, left)
      case Stored(bytes) => Done(bytes)
      case Overflow => if left < 4 then Failed(BufferOverflow) else DoneWithoutEas(LE32(0))
      case Inconsistent => Failed(EaListInconsistent)
    else if p.level == 2 then
      if left < 4 then Failed(BufferOverflow) else Done(LE32(0))
    else Done([])
  }

  function NamePart(name: seq<Byte>, left: nat): Outcome {
    if |name| > 255 then Failed(FilenameExcedRange)
    else if left < |name| + 2 then Failed(BufferOverflow)
    else Done([|name|] + name + [0])
  }

  /** The record of an entry with `left` bytes of buffer remaining. */
  function EntryRecord(e: DirEntry, p: Params, iNext: int, left: nat): Outcome
    requires |e.date| == 9
  {
    if left < HeadSize(p) then Failed(BufferOverflow)
    else
      var eas := EaPart(p, left - HeadSize(p));
      if eas.Failed? then eas
      else
        EaPartFits(p, left - HeadSize(p));
        var name := NamePart(e.name, left - HeadSize(p) - |eas.bytes|);
        if name.Failed? then name
        else if eas.Done? then Done(Head(e, p, iNext) + eas.bytes + name.bytes)
        else DoneWithoutEas(Head(e, p, iNext) + eas.bytes + name.bytes)
  }

  function Rc(r: Outcome): ApiRet {
    match r
    case Done(_) => NoError
    case DoneWithoutEas(_) => EasDidntFit
    case Failed(error) => error
  }

  lemma EaPartFits(p: Params, left: nat)
    ensures !EaPart(p, left).Failed? ==> |EaPart(p, left).bytes| <= left
  {
    FeaListFits(p.geas, left);
  }

  lemma RecordFits(e: DirEntry, p: Params, iNext: int, left: nat)
    requires |e.date| == 9
    ensures !EntryRecord(e, p, iNext, left).Failed? ==> 0 < |EntryRecord(e, p, iNext, left).bytes| <= left
  {
    hide EaPart, Head;
    if left >= HeadSize(p) {
      EaPartFits(p, left - HeadSize(p));
    }
  }

  lemma RecordRc(e: DirEntry, p: Params, iNext: int, left: nat)
    requires |e.date| == 9
    ensures EntryRecord(e, p, iNext, left).Done? <==> Rc(EntryRecord(e, p, iNext, left)) == NoError
    ensures EntryRecord(e, p, iNext, left).DoneWithoutEas? <==>
            Rc(EntryRecord(e, p, iNext, left)) == EasDidntFit
  {
  }

  /** The buffer holds the data from position `at` on. */
  predicate Holds(buf: seq<Byte>, at: nat, data: seq<Byte>) {
    at + |data| <= |buf| && buf[at..at + |data|] == data
  }

  /** Data stored behind other data. */
  lemma HoldsBoth(now: seq<Byte>, mid: seq<Byte>, at: nat, a: seq<Byte>, b: seq<Byte>, n: nat)
    requires Holds(mid, at, a) && Holds(now, at + |a|, b) && OnlyWithin(now, mid, at + |a|, n)
    ensures Holds(now, at, a + b)
  {
    assert now[at..at + |a|] == now[..at + |a|][at..] == mid[..at + |a|][at..] == a;
    assert now[at..at + |a + b|] == now[at..at + |a|] + now[at + |a|..at + |a| + |b|];
  }

  /** Stores one piece of a record. */
  method Put(buf: array<Byte>, at: nat, data: seq<Byte>, ghost left: nat)
    requires |data| <= left && at + left <= buf.Length
    modifies buf
    ensures Holds(buf[..], at, data) && OnlyWithin(buf[..], old(buf[..]), at, left)
  {
    SpliceParts(buf[..], at, data);
    Within(buf[..], at, data, left);
    Store(buf, at, data);
  }

  /** What every part of storeFileInfo keeps, whatever it returns: the write pointer and the
      room move together, and nothing outside the room is written. */
  predicate InStep(now: seq<Byte>, before: seq<Byte>, at: nat, left: nat, at': nat, left': nat) {
    at <= at' && at' + left' == at + left && OnlyWithin(now, before, at, left)
  }

  /** One part after the other. */
  lemma InStepBoth(
    c: seq<Byte>, b: seq<Byte>, a: seq<Byte>, at: nat, left: nat, at1: nat, left1: nat, at2: nat, left2: nat)
    requires InStep(b, a, at, left, at1, left1) && InStep(c, b, at1, left1, at2, left2)
    ensures InStep(c, a, at, left, at2, left2)
  {
    WithinBoth(c, b, a, at, at1 - at, left);
  }

  /** The part of storeFileInfo in front of the attributes. */
  method StoreHead(e: DirEntry, p: Params, iNext: int, buf: array<Byte>, pData: nat, cbData: Word32)
    returns (rc: ApiRet, pData': nat, cbData': Word32)
    requires |e.date| == 9 && pData + cbData <= buf.Length
    modifies buf
    ensures rc == if cbData < HeadSize(p) then BufferOverflow else NoError
    ensures rc == NoError ==> pData' == pData + HeadSize(p) && Holds(buf[..], pData, Head(e, p, iNext))
    ensures InStep(buf[..], old(buf[..]), pData, cbData, pData', cbData')
  {
    hide StatusBytes, LE32, OnlyWithin, Holds;
    ghost var before := buf[..];
    Unchanged(before, pData, cbData);
    pData', cbData' := pData, cbData;
    ghost var position: seq<Byte> := [];
    if p.getPos {
      if cbData' < 4 {
        return BufferOverflow, pData', cbData';
      }
      position := LE32(iNext);
      Put(buf, pData', LE32(iNext), cbData');
      pData' := pData' + 4;
      cbData' := cbData' - 4;
    }
    if cbData' < 22 {
      return BufferOverflow, pData', cbData';
    }
    ghost var mid := buf[..];
    Put(buf, pData', StatusBytes(e), cbData');
    WithinBoth(buf[..], mid, before, pData, |position|, cbData);
    HoldsBoth(buf[..], mid, pData, position, StatusBytes(e), cbData');
    pData' := pData' + 22;
    cbData' := cbData' - 22;
    return NoError, pData', cbData';
  }

  lemma Unchanged(s: seq<Byte>, at: nat, n: nat)
    requires at + n <= |s|
    ensures OnlyWithin(s, s, at, n) && Holds(s, at, [])
  {
  }

  /** The part of storeFileInfo for the attributes, with the fall-back to level 2. The length
      of the list is read back from the count it begins with. */
  method StoreEaPart(p: Params, buf: array<Byte>, pData: nat, cbData: Word32)
    returns (rc: ApiRet, pData': nat, cbData': Word32)
    requires pData + cbData <= buf.Length
    modifies buf
    ensures rc == Rc(EaPart(p, cbData))
    ensures !EaPart(p, cbData).Failed? ==>
              pData' == pData + |EaPart(p, cbData).bytes| && Holds(buf[..], pData, EaPart(p, cbData).bytes)
    ensures InStep(buf[..], old(buf[..]), pData, cbData, pData', cbData')
  {
    hide FeaList, LE32, OnlyWithin;
    ghost var before := buf[..];
    Unchanged(before, pData, cbData);
    var level := p.level;
    var final := NoError;
    pData', cbData' := pData, cbData;
    if level == 3 {
      rc := StoreEAsInFEAList(p.geas, buf, pData', cbData');
      if rc == BufferOverflow {
        level, final := 2, EasDidntFit;
      } else if rc != NoError {
        return rc, pData', cbData';
      } else {
        FeaListFits(p.geas, cbData);
        CountInBuffer(p.geas, before, pData, cbData);
        cbData' := cbData' - Num32(buf[pData'..pData' + 4]);
        pData' := pData' + Num32(buf[pData'..pData' + 4]);
      }
    }
    if level == 2 {
      if cbData' < 4 {
        return BufferOverflow, pData', cbData';
      }
      ghost var half := buf[..];
      Put(buf, pData', LE32(0), cbData');
      WithinBoth(buf[..], half, before, pData, 0, cbData);
      pData' := pData' + 4;
      cbData' := cbData' - 4;
    }
    return final, pData', cbData';
  }

  /** The count of a list that was stored is its length. */
  lemma CountInBuffer(geas: Option<Geas>, before: seq<Byte>, at: nat, left: nat)
    requires FeaList(geas, left).Stored? && left < 0x1_0000_0000
    requires at + left <= |before| && |FeaList(geas, left).bytes| <= left
    ensures var bytes := FeaList(geas, left).bytes;
            var now := Splice(before, at, bytes);
            && 4 <= |bytes| <= left && Num32(now[at..at + 4]) == |bytes| && Holds(now, at, bytes)
  {
    hide FeaList;
    var bytes := FeaList(geas, left).bytes;
    var now := Splice(before, at, bytes);
    FeaListMeaning(geas, left);
    SpliceParts(before, at, bytes);
    assert now[at..at + 4] == now[at..at + |bytes|][..4] == bytes[..4];
  }

  lemma EaPartRc(p: Params, left: nat)
    ensures EaPart(p, left).Failed? <==> Rc(EaPart(p, left)) !in {NoError, EasDidntFit}
  {
  }

  /** The part of storeFileInfo for the name. */
  method StoreName(name: seq<Byte>, buf: array<Byte>, pData: nat, cbData: Word32)
    returns (rc: ApiRet, pData': nat, cbData': Word32)
    requires pData + cbData <= buf.Length
    modifies buf
    ensures rc == Rc(NamePart(name, cbData))
    ensures rc == NoError ==>
              && pData' == pData + |NamePart(name, cbData).bytes|
              && Holds(buf[..], pData, NamePart(name, cbData).bytes)
    ensures InStep(buf[..], old(buf[..]), pData, cbData, pData', cbData')
  {
    hide OnlyWithin, Holds;
    Unchanged(buf[..], pData, cbData);
    pData', cbData' := pData, cbData;
    var c := |name|;
    if c > 255 {
      return FilenameExcedRange, pData', cbData';
    }
    if cbData' < c + 2 {
      return BufferOverflow, pData', cbData';
    }
    Put(buf, pData', [c] + name + [0], cbData');
    pData' := pData' + (c + 2);
    cbData' := cbData' - (c + 2);
    return NoError, pData', cbData';
  }

  /** storeFileInfo: the record of an entry at pData, with cbData bytes of room, and the entry
      with its attributes rewritten. Pointer and room move together, whatever is returned. */
  method StoreFileInfo(e: DirEntry, p: Params, iNext: int, buf: array<Byte>, pData: nat, cbData: Word32)
    returns (rc: ApiRet, pData': nat, cbData': Word32, entry: DirEntry)
    requires |e.date| == 9 && pData + cbData <= buf.Length
    modifies buf
    ensures rc == Rc(EntryRecord(e, p, iNext, cbData))
    ensures !EntryRecord(e, p, iNext, cbData).Failed? ==>
              && pData' == pData + |EntryRecord(e, p, iNext, cbData).bytes|
              && Holds(buf[..], pData, EntryRecord(e, p, iNext, cbData).bytes)
    ensures InStep(buf[..], old(buf[..]), pData, cbData, pData', cbData')
    ensures entry == if cbData < HeadSize(p) then e else e.(flags := AttrOf(e.isDir))
  {
    hide EaPart, NamePart, Head, OnlyWithin, Holds, HeadSize, AttrOf;
    ghost var before := buf[..];
    entry := e;
    rc, pData', cbData' := StoreHead(e, p, iNext, buf, pData, cbData);
    if rc != NoError {
      return;
    }
    entry := e.(flags := AttrOf(e.isDir));
    ghost var head, eas := Head(e, p, iNext), EaPart(p, cbData');
    ghost var mid, at1, left1 := buf[..], pData', cbData';
    EaPartRc(p, cbData');
    var final;
    final, pData', cbData' := StoreEaPart(p, buf, pData', cbData');
    InStepBoth(buf[..], mid, before, pData, cbData, at1, left1, pData', cbData');
    if final != NoError && final != EasDidntFit {
      return final, pData', cbData', entry;
    }
    HoldsBoth(buf[..], mid, pData, head, eas.bytes, left1);
    mid, at1, left1 := buf[..], pData', cbData';
    ghost var name := NamePart(e.name, cbData');
    NamePartRc(e.name, cbData');
    rc, pData', cbData' := StoreName(e.name, buf, pData', cbData');
    InStepBoth(buf[..], mid, before, pData, cbData, at1, left1, pData', cbData');
    if rc != NoError {
      return;
    }
    HoldsBoth(buf[..], mid, pData, head + eas.bytes, name.bytes, left1);
    return final, pData', cbData', entry;
  }

  lemma NamePartRc(name: seq<Byte>, left: nat)
    ensures !NamePart(name, left).DoneWithoutEas?
    ensures NamePart(name, left).Failed? <==> Rc(NamePart(name, left)) != NoError
  {
  }

  // ----- reading records back

  datatype Stamp = Stamp(date: int, time: int)
  datatype Status = Status(created: Stamp, accessed: Stamp, written: Stamp, size: int, allocation: int, attributes: int)
  datatype EaInfo = NoEas | EaSize(size: int) | Eas(eas: seq<Ea>)
  datatype Info = Info(position: Option<int>, status: Status, eas: EaInfo, name: seq<Byte>)

  /** What was read, and the bytes behind it. */
  datatype Item<T> = Item(value: T, rest: seq<Byte>)

  function ReadStamp(s: seq<Byte>): Stamp
    requires |s| >= 4
  {
    Stamp(Num16(s), Num16(s[2..]))
  }

  function ReadStatus(s: seq<Byte>): Status
    requires |s| >= 22
  {
    Status(ReadStamp(s), ReadStamp(s[4..]), ReadStamp(s[8..]), Num32(s[12..]), Num32(s[16..]), Num16(s[20..]))
  }

  function ReadEas(level: nat, s: seq<Byte>): Option<Item<EaInfo>> {
    if level == 3 then
      if |s| < 4 || !(4 <= Num32(s) <= |s|) then None
      else
        match DecodeFeas(s[4..Num32(s)])
        case None => None
        case Some(eas) => Some(Item(Eas(eas), s[Num32(s)..]))
    else if level == 2 then
      if |s| < 4 then None else Some(Item(EaSize(Num32(s)), s[4..]))
    else Some(Item(NoEas, s))
  }

  function ReadName(s: seq<Byte>): Option<Item<seq<Byte>>> {
    if s == [] then None
    else
      var n: nat := s[0];
      if |s| < n + 2 || s[1 + n] != 0 then None else Some(Item(s[1..1 + n], s[n + 2..]))
  }

  /** Reads one record of the level. */
  function DecodeRecord(getPos: bool, level: nat, s: seq<Byte>): Option<Item<Info>> {
    var n := if getPos then 4 else 0;
    if |s| < n + 22 then None
    else
      var position := if getPos then Some(Num32(s)) else None;
      match ReadEas(level, s[n + 22..])
      case None => None
      case Some(eas) =>
        match ReadName(eas.rest)
        case None => None
        case Some(name) => Some(Item(Info(position, ReadStatus(s[n..]), eas.value, name.value), name.rest))
  }

  /** What a record of an entry has to say. */
  function StatusOf(e: DirEntry): Status
    requires |e.date| == 9
  {
    var moment := Stamp(DateWord(e.date) % 0x1_0000, TimeWord(e.date) % 0x1_0000);
    var size := if e.isDir then 0 else e.size % 0x1_0000_0000;
    Status(moment, moment, moment, size, size, if e.isDir then 17 else 1)
  }

  function InfoOf(e: DirEntry, p: Params, iNext: int): Info
    requires |e.date| == 9
  {
    Info(
      if p.getPos then Some(iNext % 0x1_0000_0000) else None,
      StatusOf(e),
      if p.level == 3 then Eas(WantedEas(p.geas)) else if p.level == 2 then EaSize(0) else NoEas,
      e.name)
  }

  /** What a record says of an entry: three times its recording date, which is reported as it is
      from 1980 to 2107; twice its size, which is zero for a directory; and that it is read-only
      and, if it is one, a directory. */
  lemma StatusExact(e: DirEntry)
    requires |e.date| == 9
    ensures var s := StatusOf(e);
            && s.created == s.written && s.accessed == s.written && s.allocation == s.size
            && s.size == (if e.isDir then 0 else e.size % 0x1_0000_0000)
            && s.attributes == (if e.isDir then 0x11 else 0x01)
    ensures 80 <= e.date[0] < 208 && 1 <= e.date[1] <= 12 && 1 <= e.date[2] <= 31 ==>
              e.date[3] < 24 && e.date[4] < 60 && e.date[5] < 60 ==>
                var year: int, second: int := e.date[0], e.date[5];
                var written := StatusOf(e).written;
                MomentOf(written.date, written.time) ==
                Moment(1900 + year, e.date[1], e.date[2], e.date[3], e.date[4], second - second % 2)
  {
    hide DateWord, TimeWord, MomentOf;
    if 80 <= e.date[0] < 208 && 1 <= e.date[1] <= 12 && 1 <= e.date[2] <= 31 &&
       e.date[3] < 24 && e.date[4] < 60 && e.date[5] < 60 {
      DateIsKept(e.date);
    }
  }

  lemma StatusRoundTrip(e: DirEntry, rest: seq<Byte>)
    requires |e.date| == 9
    ensures ReadStatus(StatusBytes(e) + rest) == StatusOf(e)
  {
    hide LE16, LE32, Num16, Num32, DateWord, TimeWord;
    var d, t := LE16(DateWord(e.date)), LE16(TimeWord(e.date));
    var size := LE32(if e.isDir then 0 else e.size);
    var attr := LE16(if e.isDir then 17 else 1);
    var s := StatusBytes(e) + rest;
    assert s[..2] == d && s[2..4] == t && s[4..6] == d && s[6..8] == t && s[8..10] == d && s[10..12] == t;
    assert s[12..16] == size && s[16..20] == size && s[20..22] == attr;
    Num16At(s, 0, DateWord(e.date));
    Num16At(s, 2, TimeWord(e.date));
    Num16At(s, 4, DateWord(e.date));
    Num16At(s, 6, TimeWord(e.date));
    Num16At(s, 8, DateWord(e.date));
    Num16At(s, 10, TimeWord(e.date));
    Num32At(s, 12, if e.isDir then 0 else e.size);
    Num32At(s, 16, if e.isDir then 0 else e.size);
    Num16At(s, 20, if e.isDir then 17 else 1);
    assert s[0..] == s;
    assert forall i | 0 <= i <= 8 :: s[i..][2..] == s[i + 2..];
  }

  lemma Num16At(s: seq<Byte>, i: nat, v: int)
    requires i + 2 <= |s| && s[i..i + 2] == LE16(v)
    ensures Num16(s[i..]) == v % 0x1_0000
  {
    assert s[i..][0] == s[i..i + 2][0] && s[i..][1] == s[i..i + 2][1];
    Num16LE16(v);
  }

  lemma Num32At(s: seq<Byte>, i: nat, v: int)
    requires i + 4 <= |s| && s[i..i + 4] == LE32(v)
    ensures Num32(s[i..]) == v % 0x1_0000_0000
  {
    assert forall k | 0 <= k < 4 :: s[i..][k] == s[i..i + 4][k];
    Num32LE32(v);
  }

  /** The part for the attributes is read back at level 2 if it was finished there. */
  lemma EaPartRoundTrip(p: Params, left: nat, rest: seq<Byte>)
    requires left < 0x1_0000_0000
    ensures var r := EaPart(p, left);
            && (r.Done? && p.level == 3 ==>
                  ReadEas(3, r.bytes + rest) == Some(Item(Eas(WantedEas(p.geas)), rest)))
            && (r.Done? && p.level == 2 ==> ReadEas(2, r.bytes + rest) == Some(Item(EaSize(0), rest)))
            && (r.DoneWithoutEas? ==> ReadEas(2, r.bytes + rest) == Some(Item(EaSize(0), rest)))
  {
    var r := EaPart(p, left);
    if r.Done? && p.level == 3 {
      FeaListFits(p.geas, left);
      FeaListMeaning(p.geas, left);
      var s := r.bytes + rest;
      assert Num32(s) == Num32(r.bytes[..4]) == |r.bytes|;
      assert s[4..|r.bytes|] == r.bytes[4..];
      assert s[|r.bytes|..] == rest;
    } else if !r.Failed? && p.level != 1 {
      assert LE32(0) == [0, 0, 0, 0];
    }
  }

  /** The record round trip: a reader that knows the level, or level 2 after
      ERROR_EAS_DIDNT_FIT, gets back position, status, attributes and name. */
  lemma EntryRoundTrip(e: DirEntry, p: Params, iNext: int, left: nat, rest: seq<Byte>)
    requires |e.date| == 9 && left < 0x1_0000_0000
    ensures var r := EntryRecord(e, p, iNext, left);
            && (r.Done? ==>
                  DecodeRecord(p.getPos, p.level, r.bytes + rest) == Some(Item(InfoOf(e, p, iNext), rest)))
            && (r.DoneWithoutEas? ==>
                  DecodeRecord(p.getPos, 2, r.bytes + rest) == Some(Item(InfoOf(e, p.(level := 2), iNext), rest)))
  {
    hide StatusBytes, StatusOf, ReadStatus, ReadEas, ReadName, EaPart, LE32, Num32, WantedEas;
    var r := EntryRecord(e, p, iNext, left);
    if !r.Failed? {
      var eas, room := EaPart(p, left - HeadSize(p)), left - HeadSize(p);
      EaPartFits(p, room);
      var name := [|e.name|] + e.name + [0];
      var s := r.bytes + rest;
      Pieces(e, p, iNext, eas.bytes, name, rest);
      assert s == Head(e, p, iNext) + eas.bytes + name + rest;
      EaPartRoundTrip(p, room, name + rest);
      PlainEas(p, room, name + rest);
      NameRoundTrip(e.name, rest);
    }
  }

  /** Where the pieces of a record are. */
  lemma Pieces(e: DirEntry, p: Params, iNext: int, eas: seq<Byte>, name: seq<Byte>, rest: seq<Byte>)
    requires |e.date| == 9
    ensures var s, n := Head(e, p, iNext) + eas + name + rest, HeadSize(p) - 22;
            && |s| >= n + 22 && ReadStatus(s[n..]) == StatusOf(e)
            && s[n + 22..] == eas + (name + rest)
            && (p.getPos ==> Num32(s) == iNext % 0x1_0000_0000)
  {
    hide StatusBytes, StatusOf, ReadStatus, LE32, Num32;
    var s, n := Head(e, p, iNext) + eas + name + rest, HeadSize(p) - 22;
    assert s[n..] == StatusBytes(e) + (eas + name + rest);
    StatusRoundTrip(e, eas + name + rest);
    if p.getPos {
      assert s[0..4] == LE32(iNext) && s[0..] == s;
      Num32At(s, 0, iNext);
    }
  }

  lemma PlainEas(p: Params, left: nat, rest: seq<Byte>)
    ensures p.level != 2 && p.level != 3 ==>
              EaPart(p, left) == Done([]) && ReadEas(p.level, [] + rest) == Some(Item(NoEas, rest))
  {
    assert [] + rest == rest;
  }

  lemma NameRoundTrip(name: seq<Byte>, rest: seq<Byte>)
    requires |name| <= 255
    ensures ReadName([|name|] + name + [0] + rest) == Some(Item(name, rest))
    ensures [|name|] + name + [0] + rest == ([|name|] + name + [0]) + rest
  {
    var s := [|name|] + name + [0] + rest;
    assert s[1..1 + |name|] == name && s[|name| + 2..] == rest;
  }

  // ----- which outcome

  /** The outcome, from the sizes alone. Without attributes a record is stored exactly if
      there is room for it. With them, it is stored in full if everything fits, and at level 2
      if the attributes do not fit but the shorter record does; if the attributes fit and the
      name does not fit behind them, there is an overflow even where the shorter record would
      fit. */
  lemma OutcomeExact(e: DirEntry, p: Params, iNext: int, left: nat)
    requires |e.date| == 9 && |e.name| <= 255
    requires p.level == 3 ==> EasConsistent(p.geas)
    ensures var base := HeadSize(p) + |e.name| + 2;
            Rc(EntryRecord(e, p, iNext, left)) ==
            if p.level == 3 then
              if left >= HeadSize(p) + EasLength(p.geas) then
                if left >= base + EasLength(p.geas) then NoError else BufferOverflow
              else if left >= base + 4 then EasDidntFit
              else BufferOverflow
            else if left >= base + (if p.level == 2 then 4 else 0) then NoError
            else BufferOverflow
  {
    hide FeaList;
    if p.level == 3 && left >= HeadSize(p) {
      FeaListExact(p.geas, left - HeadSize(p));
    }
  }

  /** The other errors: a name of more than 255 characters, which no parsed entry has, where
      there is room for what comes before it, and an inconsistent request. */
  lemma OtherErrors(e: DirEntry, p: Params, iNext: int, left: nat)
    requires |e.date| == 9
    ensures |e.name| > 255 && p.level != 2 && p.level != 3 ==>
              Rc(EntryRecord(e, p, iNext, left)) ==
              if left < HeadSize(p) then BufferOverflow else FilenameExcedRange
    ensures p.level == 3 && left >= HeadSize(p) &&
            RcOf(FeaList(p.geas, left - HeadSize(p))) == EaListInconsistent ==>
              Rc(EntryRecord(e, p, iNext, left)) == EaListInconsistent
  {
    hide FeaList;
  }

  /** Once a record was stored in full, a record for another entry with a proper name can fail
      only for lack of room, whatever room there is. */
  lemma NoOtherError(e: DirEntry, e': DirEntry, p: Params, iNext: int, iNext': int, left: nat, left': nat)
    requires |e.date| == 9 && |e'.date| == 9 && |e'.name| <= 255
    requires EntryRecord(e, p, iNext, left).Done?
    ensures Rc(EntryRecord(e', p, iNext', left')) in {NoError, EasDidntFit, BufferOverflow}
  {
    hide FeaList;
    if p.level == 3 && left' >= HeadSize(p) {
      ConsistencyIsStable(p.geas, left - HeadSize(p), left' - HeadSize(p));
    }
  }
}
