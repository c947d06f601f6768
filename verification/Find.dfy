/** The resumable directory search: a cursor over a list of entries, filtered by name pattern
    and attributes, that fills one bounded buffer after the other. */
module Find {
  import opened Bytes
  import opened Os2
  import opened Wildcard
  import opened Names
  import opened EaList
  import opened IsoDir
  import opened FileRecord

  /** What is searched for: a name pattern and attribute bits; the bits of the second byte
      say which attributes an entry must have. */
  datatype Search = Search(pattern: seq<Byte>, flAttr: bv32)

  const HIDDEN: bv32 := 0x02
  const SYSTEM: bv32 := 0x04
  const ARCHIVED: bv32 := 0x20
  const NON83: bv32 := 0x40
  const CFF_IWUSR: bv32 := 0x80
  const CFF_OS2A: bv32 := 0x80000

  predicate Has(flags: bv32, mask: bv32) {
    flags & mask != 0
  }

  predicate EntryMatches(s: Search, e: DirEntry) {
    && !(Has(e.flags, HIDDEN) && !Has(s.flAttr, HIDDEN))
    && !(!Has(e.flags, HIDDEN) && Has(s.flAttr, HIDDEN << 8))
    && !(!Has(s.flAttr, NON83) && !Is83(e.name))
    && NameMatches(s.pattern, e.name)
  }

  predicate FileMatches2(s: Search, e: DirEntry) {
    var dir, system := Has(e.flags, FILE_DIRECTORY), Has(e.flags, SYSTEM);
    && !(dir && !Has(s.flAttr, FILE_DIRECTORY))
    && !(!dir && Has(s.flAttr, FILE_DIRECTORY << 8))
    && !(system && !Has(s.flAttr, SYSTEM))
    && !(!system && Has(s.flAttr, SYSTEM << 8))
    && !(Has(e.flags, CFF_IWUSR) && Has(s.flAttr, FILE_READONLY << 8))
    && !(!Has(e.flags, CFF_OS2A) && Has(s.flAttr, ARCHIVED << 8))
  }

  predicate Wanted(s: Search, e: DirEntry) {
    EntryMatches(s, e) && FileMatches2(s, e)
  }

  /** What the filter comes to for entries of an image, which are read-only files and
      directories, neither hidden nor system nor archived. */
  lemma WantedMeans(s: Search, e: DirEntry)
    requires Parsed(e)
    ensures Wanted(s, e) <==>
            && s.flAttr & 0x2600 == 0
            && (if e.isDir then s.flAttr & 0x10 != 0 else s.flAttr & 0x1000 == 0)
            && (s.flAttr & 0x40 != 0 || Is83(e.name))
            && NameMatches(s.pattern, e.name)
  {
    FlagBits(s.flAttr);
  }

  lemma FlagBits(f: bv32)
    ensures f & 0x2600 == 0 <==> f & 0x200 == 0 && f & 0x400 == 0 && f & 0x2000 == 0
  {
  }

  /** An entry as it is reported: a search for 8.3 names reports them in upper case. */
  function Shown(s: Search, e: DirEntry): DirEntry {
    if Has(s.flAttr, NON83) then e else e.(name := Upper(e.name))
  }

  /** How a program may see a name: in upper case, if it asks for 8.3 names, which are those
      without bit 0x40, and as it is otherwise. */
  predicate ShownAs(s: Search, name: seq<Byte>, shown: seq<Byte>) {
    if s.flAttr & 0x40 == 0 then IsUpperCaseOf(shown, name) else shown == name
  }

  lemma ShownExact(s: Search, e: DirEntry)
    ensures ShownAs(s, e.name, Shown(s, e).name) && Shown(s, e) == e.(name := Shown(s, e).name)
  {
    UpperExact(e.name);
  }

  /** The edits the search makes in its list, the name in upper case and the attributes
      written again, do not change what the filter says of an entry, nor how it is shown. */
  lemma EditsAreHarmless(s: Search, e: DirEntry)
    requires Parsed(e)
    ensures EntryMatches(s, Shown(s, e)) == EntryMatches(s, e)
    ensures FileMatches2(s, Shown(s, e)) == FileMatches2(s, e)
    ensures Is83(Shown(s, e).name) == Is83(e.name)
    ensures Shown(s, Shown(s, e)) == Shown(s, e)
    ensures e.(flags := AttrOf(e.isDir)) == e && Parsed(Shown(s, e))
  {
    hide Has, Is83, NameMatches;
    UpperSameName(e.name);
    CaseNeverMatters(s.pattern, s.pattern, e.name, Upper(e.name));
    UpperKeeps83(e.name);
    UpperTwice(e.name);
  }

  lemma UpperTwice(name: seq<Byte>)
    ensures Upper(Upper(name)) == Upper(name)
    ensures NoNul(name) ==> NoNul(Upper(name))
  {
  }

  // ----- which entries are wanted

  /** The positions from i to j of the wanted entries. */
  function WantedIn(s: Search, es: seq<DirEntry>, i: nat, j: nat): seq<nat>
    requires i <= j <= |es|
    decreases j - i
  {
    if i == j then []
    else if Wanted(s, es[i]) then [i] + WantedIn(s, es, i + 1, j)
    else WantedIn(s, es, i + 1, j)
  }

  lemma WantedInExact(s: Search, es: seq<DirEntry>, i: nat, j: nat)
    requires i <= j <= |es|
    ensures var found := WantedIn(s, es, i, j);
            && (forall k | 0 <= k < |found| :: i <= found[k] < j && Wanted(s, es[found[k]]))
            && Increasing(found)
            && (forall k | i <= k < j && Wanted(s, es[k]) :: k in found)
  {
    hide Wanted, WantedIn;
    var found := WantedIn(s, es, i, j);
    WantedInMembers(s, es, i, j);
    WantedInIncreases(s, es, i, j);
    forall k | 0 <= k < |found|
      ensures i <= found[k] < j && Wanted(s, es[found[k]])
    {
      assert found[k] in found;
    }
  }

  lemma {:induction false} WantedInMembers(s: Search, es: seq<DirEntry>, i: nat, j: nat)
    requires i <= j <= |es|
    ensures forall k <- WantedIn(s, es, i, j) :: i <= k < j && Wanted(s, es[k])
    ensures forall k | i <= k < j && Wanted(s, es[k]) :: k in WantedIn(s, es, i, j)
    decreases j - i
  {
    hide Wanted;
    if i < j {
      WantedInMembers(s, es, i + 1, j);
    }
  }

  predicate Increasing(found: seq<nat>) {
    forall k, m | 0 <= k < m < |found| :: found[k] < found[m]
  }

  lemma IncreasingCons(first: nat, rest: seq<nat>)
    requires Increasing(rest) && forall k <- rest :: first < k
    ensures Increasing([first] + rest)
  {
    assert forall m | 0 <= m < |rest| :: rest[m] in rest;
  }

  lemma {:induction false} WantedInIncreases(s: Search, es: seq<DirEntry>, i: nat, j: nat)
    requires i <= j <= |es|
    ensures Increasing(WantedIn(s, es, i, j))
    decreases j - i
  {
    hide Wanted;
    if i < j {
      WantedInIncreases(s, es, i + 1, j);
      WantedInMembers(s, es, i + 1, j);
      IncreasingCons(i, WantedIn(s, es, i + 1, j));
    }
  }

  lemma {:induction false} WantedInSplit(s: Search, es: seq<DirEntry>, i: nat, m: nat, j: nat)
    requires i <= m <= j <= |es|
    ensures WantedIn(s, es, i, j) == WantedIn(s, es, i, m) + WantedIn(s, es, m, j)
    decreases m - i
  {
    hide Wanted;
    if i < m {
      WantedInSplit(s, es, i + 1, m, j);
    }
  }

  /** The first wanted entry at or behind the cursor. */
  function NextWanted(s: Search, es: seq<DirEntry>, k: nat): (j: nat)
    requires k <= |es|
    ensures k <= j <= |es| && WantedIn(s, es, k, j) == []
    ensures j < |es| ==> Wanted(s, es[j])
    decreases |es| - k
  {
    if k == |es| || Wanted(s, es[k]) then k else NextWanted(s, es, k + 1)
  }

  // ----- one reply

  /** The reply to one call: its return code, its count, the bytes in the buffer, and where it
      leaves the cursor. */
  datatype Reply = Reply(rc: ApiRet, cMatch: nat, bytes: seq<Byte>, next: nat)

  function InFront(bytes: seq<Byte>, count: nat, r: Reply): Reply {
    if r.rc == NoError then Reply(NoError, count + r.cMatch, bytes + r.bytes, r.next) else r
  }

  predicate AllParsed(es: seq<DirEntry>) {
    forall i | 0 <= i < |es| :: Parsed(es[i])
  }

  /** storeNextFileInfo with the cursor at k and `left` bytes of room: its return code, the
      bytes of the record, and where it leaves the cursor, which stays at the wanted entry
      unless the return code is NoError. The position stored with entry i is first + i. */
  datatype Next = Next(rc: ApiRet, bytes: seq<Byte>, next: nat)

  function NextRecord(s: Search, es: seq<DirEntry>, first: int, p: Params, k: nat, left: nat): (r: Next)
    requires k <= |es| && AllParsed(es)
    ensures k <= r.next <= |es| && |r.bytes| <= left
    ensures r.rc == NoError ==> k < r.next
    ensures r.rc == EasDidntFit ==> r.next < |es|
  {
    var j := NextWanted(s, es, k);
    if j == |es| then Next(NoMoreFiles, [], j)
    else
      var e := Shown(s, es[j]);
      RecordFits(e, p, first + j, left);
      match EntryRecord(e, p, first + j, left)
      case Done(bytes) => Next(NoError, bytes, j + 1)
      case DoneWithoutEas(bytes) => Next(EasDidntFit, bytes, j)
      case Failed(error) => Next(error, [], j)
  }

  /** The errors that only end a batch once it holds something. */
  predicate EndsBatch(rc: ApiRet) {
    rc == BufferOverflow || rc == EasDidntFit || rc == NoMoreFiles
  }

  /** The loop of storeDirContents: up to n more records; `any` says whether there are records
      in the buffer already. */
  function Batch(s: Search, es: seq<DirEntry>, first: int, p: Params, k: nat, left: nat, n: nat, any: bool): (r: Reply)
    requires k <= |es| && AllParsed(es)
    ensures k <= r.next <= |es| && |r.bytes| <= left && r.cMatch <= n
    decreases n
  {
    if n == 0 then Reply(NoError, 0, [], k)
    else
      var r := NextRecord(s, es, first, p, k, left);
      if r.rc == NoError then
        InFront(r.bytes, 1, Batch(s, es, first, p, r.next, left - |r.bytes|, n - 1, true))
      else if any && EndsBatch(r.rc) then Reply(NoError, 0, [], r.next)
      else if r.rc == EasDidntFit then Reply(EasDidntFit, 1, r.bytes, r.next + 1)
      else Reply(r.rc, 0, [], r.next)
  }

  /** storeDirContents: the reply to a call with room for cbData bytes and cMatch entries. */
  function DirContents(s: Search, es: seq<DirEntry>, first: int, p: Params, k: nat, cbData: nat, cMatch: nat)
    : (r: Reply)
    requires k <= |es| && AllParsed(es)
    ensures k <= r.next <= |es|
  {
    if cMatch == 0 then Reply(InvalidParameter, 0, [], k)
    else Batch(s, es, first, p, k, cbData, cMatch, false)
  }

  // ----- the search data, updated in place

  class SearchData {
    const search: Search
    /** The entries as they were read. */
    ghost const listing: seq<DirEntry>
    /** The position that belongs to the first entry; the program never sets it. */
    ghost const first: int
    var entries: seq<DirEntry>
    var next: nat
    var iNext: int

    constructor (search: Search, listing: seq<DirEntry>, iNext: int)
      requires AllParsed(listing)
      ensures Valid() && this.search == search && this.listing == listing && first == iNext && next == 0
    {
      this.search, this.listing, this.first := search, listing, iNext;
      entries, next, this.iNext := listing, 0, iNext;
    }

    ghost predicate Valid(): (valid: bool)
      reads this
      ensures valid ==> next <= |listing| == |entries| && AllParsed(listing)
    {
      && |entries| == |listing| && next <= |entries| && iNext == first + next && AllParsed(listing)
      && forall i | 0 <= i < |entries| :: entries[i] in {listing[i], Shown(search, listing[i])}
    }

    method AdvanceSearch()
      requires Valid() && next < |entries|
      modifies this`next, this`iNext
      ensures Valid() && next == old(next) + 1
    {
      next := next + 1;
      iNext := iNext + 1;
    }

    /** storeNextFileInfo: skips to the next wanted entry and stores it. */
    method StoreNextFileInfo(p: Params, buf: array<Byte>, pData: nat, cbData: Word32)
      returns (rc: ApiRet, pData': nat, cbData': Word32)
      requires Valid() && pData + cbData <= buf.Length
      modifies this, buf
      ensures Valid()
      ensures var r := NextRecord(search, listing, first, p, old(next), cbData);
              && rc == r.rc && next == r.next
              && (rc == NoError || rc == EasDidntFit ==>
                    pData' == pData + |r.bytes| && Holds(buf[..], pData, r.bytes))
      ensures InStep(buf[..], old(buf[..]), pData, cbData, pData', cbData')
    {
      hide EntryMatches, FileMatches2, Shown, EntryRecord, OnlyWithin, Holds, Parsed, AttrOf;
      Unchanged(buf[..], pData, cbData);
      pData', cbData' := pData, cbData;
      ghost var j := NextWanted(search, listing, next);
      while next < |entries|
        invariant Valid() && next <= j && j == NextWanted(search, listing, next)
        invariant buf[..] == old(buf[..])
        decreases |entries| - next
      {
        var e := entries[next];
        SameFilter(search, listing[next], e);
        if EntryMatches(search, e) && FileMatches2(search, e) {
          e := Shown(search, e);
          entries := entries[next := e];
          RecordRc(e, p, iNext, cbData);
          rc, pData', cbData', e := StoreFileInfo(e, p, iNext, buf, pData', cbData');
          entries := entries[next := e];
          if rc != NoError {
            return;
          }
          AdvanceSearch();
          return;
        }
        AdvanceSearch();
      }
      return NoMoreFiles, pData', cbData';
    }

    /** storeDirContents: fills the buffer with records. */
    method StoreDirContents(p: Params, buf: array<Byte>, cbData: Word32, cMatch: nat)
      returns (rc: ApiRet, added: nat)
      requires Valid() && cbData <= buf.Length
      modifies this, buf
      ensures Valid()
      ensures var r := DirContents(search, listing, first, p, old(next), cbData, cMatch);
              rc == r.rc && added == r.cMatch && next == r.next && Holds(buf[..], 0, r.bytes)
      ensures OnlyWithin(buf[..], old(buf[..]), 0, cbData)
    {
      hide NextRecord, OnlyWithin, Holds, AllParsed, Valid, Batch;
      ghost var before := buf[..];
      Unchanged(before, 0, cbData);
      added := 0;
      if cMatch == 0 {
        return InvalidParameter, added;
      }
      var pData: nat, left := 0, cbData;
      ghost var written: seq<Byte> := [];
      ghost var reply := DirContents(search, listing, first, p, next, cbData, cMatch);
      while added < cMatch
        invariant Valid()
        invariant pData == |written| && pData + left == cbData
        invariant added <= cMatch && (added == 0 ==> written == [])
        invariant Holds(buf[..], 0, written) && OnlyWithin(buf[..], before, 0, cbData)
        invariant reply == InFront(written, added,
                    Batch(search, listing, first, p, next, left, cMatch - added, added > 0))
        decreases cMatch - added
      {
        BatchFirst(search, listing, first, p, next, left, cMatch - added, added > 0);
        ghost var bytes := NextRecord(search, listing, first, p, next, left).bytes;
        ghost var mid := buf[..];
        rc, pData, left := StoreNextFileInfo(p, buf, pData, left);
        Extend(buf[..], mid, before, written, bytes, cbData);
        if rc != NoError {
          if added > 0 && EndsBatch(rc) {
            break;
          }
          if rc == EasDidntFit {
            AdvanceSearch();
            added := 1;
            return;
          }
          added := 0;
          return;
        }
        InFrontTwice(written, added, bytes, 1,
          Batch(search, listing, first, p, next, left, cMatch - added - 1, true));
        written := written + bytes;
        added := added + 1;
      }
      assert written + [] == written;
      BatchFirst(search, listing, first, p, next, left, cMatch - added, added > 0);
      return NoError, added;
    }
  }

  lemma BatchFirst(s: Search, es: seq<DirEntry>, first: int, p: Params, k: nat, left: nat, n: nat, any: bool)
    requires k <= |es| && AllParsed(es)
    ensures var r, b := NextRecord(s, es, first, p, k, left), Batch(s, es, first, p, k, left, n, any);
            if n == 0 then b == Reply(NoError, 0, [], k)
            else if r.rc == NoError then
              b == InFront(r.bytes, 1, Batch(s, es, first, p, r.next, left - |r.bytes|, n - 1, true))
            else if any && EndsBatch(r.rc) then b == Reply(NoError, 0, [], r.next)
            else if r.rc == EasDidntFit then b == Reply(EasDidntFit, 1, r.bytes, r.next + 1)
            else b == Reply(r.rc, 0, [], r.next)
  {
    hide NextRecord, AllParsed, InFront;
  }

  /** A record stored, or only begun, behind those that are in the buffer. */
  lemma Extend(now: seq<Byte>, mid: seq<Byte>, before: seq<Byte>, written: seq<Byte>, bytes: seq<Byte>, n: nat)
    requires |written| <= n && Holds(mid, 0, written) && OnlyWithin(mid, before, 0, n)
    requires OnlyWithin(now, mid, |written|, n - |written|)
    ensures OnlyWithin(now, before, 0, n) && Holds(now, 0, []) && Holds(now, 0, written)
    ensures Holds(now, |written|, bytes) ==> Holds(now, 0, written + bytes)
  {
    WithinBoth(now, mid, before, 0, |written|, n);
    assert now[0..|written|] == mid[0..|written|];
    if Holds(now, |written|, bytes) {
      HoldsBoth(now, mid, 0, written, bytes, n - |written|);
    }
  }

  lemma InFrontTwice(a: seq<Byte>, m: nat, b: seq<Byte>, n: nat, r: Reply)
    ensures InFront(a, m, InFront(b, n, r)) == InFront(a + b, m + n, r)
  {
    assert a + (b + r.bytes) == (a + b) + r.bytes;
  }

  /** An entry that was edited is filtered and shown as it was before. */
  lemma SameFilter(s: Search, was: DirEntry, e: DirEntry)
    requires Parsed(was) && e in {was, Shown(s, was)}
    ensures Wanted(s, e) == Wanted(s, was) && Shown(s, e) == Shown(s, was)
    ensures |e.date| == 9 && Shown(s, e).(flags := AttrOf(Shown(s, e).isDir)) == Shown(s, e)
    ensures |Shown(s, e).date| == 9
  {
    hide EntryMatches, FileMatches2, Has;
    EditsAreHarmless(s, was);
    EditsAreHarmless(s, Shown(s, was));
  }
}
