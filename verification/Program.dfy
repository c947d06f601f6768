/** A program that reads a directory through the calls of the daemon. */
module Program {
  import opened Bytes
  import opened Os2
  import opened Names
  import opened IsoDir
  import opened IsoPath
  import opened FileRecord
  import opened Find
  import opened FindSession
  import opened Books
  import opened Volumes
  import opened Calls

  /** The program reads its buffer, and the bytes behind the reply do not matter. */
  lemma BufferTells(s: Search, es: seq<DirEntry>, first: int, q: Request, k: nat, buf: seq<Byte>)
    requires k <= |es| && AllParsed(es)
    requires Holds(buf, 0, DirContents(s, es, first, q.p, k, q.cbData, q.cMatch).bytes)
    ensures var r := DirContents(s, es, first, q.p, k, q.cbData, q.cMatch);
            ReadReply(q.p, r.rc, r.cMatch, buf) == ReadReply(q.p, r.rc, r.cMatch, r.bytes)
  {
    hide DirContents, ReadReply, AllParsed;
    var r := DirContents(s, es, first, q.p, k, q.cbData, q.cMatch);
    ReplyTells(s, es, first, q, k, buf[|r.bytes|..]);
    assert buf[0..|r.bytes|] + buf[|r.bytes|..] == buf;
  }

  /** One request more. */
  lemma OneMore(s: Search, es: seq<DirEntry>, first: int, rs: seq<Request>, q: Request)
    requires AllParsed(es)
    ensures var r := DirContents(s, es, first, q.p, Cursor(s, es, first, rs), q.cbData, q.cMatch);
            && LastReply(s, es, first, rs + [q]) == r
            && Cursor(s, es, first, rs + [q]) == r.next
            && Received(s, es, first, rs + [q]) ==
               Received(s, es, first, rs) + ReadReply(q.p, r.rc, r.cMatch, r.bytes)
  {
    hide DirContents, ReadReply, AllParsed;
    assert (rs + [q])[..|rs|] == rs;
    LastReplyIs(s, es, first, rs + [q]);
  }

  /** Goes on with a search that was begun by one request. */
  method ReadOn(
    search: SearchData, ghost q: Request, got0: seq<Info>, rc0: ApiRet, rest: seq<Request>, buf: array<Byte>)
    returns (rc: ApiRet, got: seq<Info>)
    requires search.Valid() && forall i | 0 <= i < |rest| :: rest[i].cbData <= buf.Length
    requires search.next == Cursor(search.search, search.listing, search.first, [q])
    requires rc0 == LastReply(search.search, search.listing, search.first, [q]).rc
    requires got0 == Received(search.search, search.listing, search.first, [q])
    modifies search, buf
    ensures search.Valid()
    ensures rc == LastReply(search.search, search.listing, search.first, [q] + rest).rc
    ensures got == Received(search.search, search.listing, search.first, [q] + rest)
  {
    hide LastReply, Received, Cursor, DirContents, ReadReply, SearchData.Valid, Holds, AllParsed;
    rc, got := rc0, got0;
    ghost var s, es, first := search.search, search.listing, search.first;
    ghost var done := [q];
    for i := 0 to |rest|
      invariant search.Valid() && done == [q] + rest[..i]
      invariant search.next == Cursor(s, es, first, done)
      invariant rc == LastReply(s, es, first, done).rc && got == Received(s, es, first, done)
    {
      OneMore(s, es, first, done, rest[i]);
      ghost var k := search.next;
      var count;
      rc, count := FindNext(search, rest[i].p, buf, rest[i].cbData, rest[i].cMatch);
      BufferTells(s, es, first, rest[i], k, buf[..]);
      got := got + ReadReply(rest[i].p, rc, count, buf[..]);
      assert [q] + rest[..i + 1] == done + [rest[i]];
      done := done + [rest[i]];
    }
    assert rest[..|rest|] == rest;
  }

  predicate Succeeds(rc: ApiRet) {
    rc == NoError || rc == EasDidntFit
  }

  /** Finds first, finds next as often as there are further requests, and closes the search. If
      there is a directory to search, what the program has read from its buffer is, in order
      and each once, the wanted entries up to where the search got, and all of them if the last
      call answered ERROR_NO_MORE_FILES; `made` is the requests that were made, all of them
      unless the first one failed. prefix and last are directory and pattern of the name asked for.
      No search is left open. */
  method ListDirectory(
    server: ServerData, vol: VolData, q: FindRequest, rest: seq<Request>, buf: array<Byte>, iNext: int)
    returns (rc: ApiRet, got: seq<Info>, ghost made: seq<Request>, ghost prefix: seq<Byte>, ghost last: seq<Byte>)
    requires server.Valid() && vol in server.volumes
    requires q.cbData <= buf.Length && forall i | 0 <= i < |rest| :: rest[i].cbData <= buf.Length
    modifies server`log, vol`cSearches, buf
    ensures server.Valid() && vol.cSearches == old(vol.cSearches)
    ensures !NoNul(q.name) && IsFullPath(CString(q.name)) ==> IsSplit(CString(q.name)[2..], prefix, last)
    ensures var early := EarlyError(vol.disc, q, prefix, last);
            if early.Some? then rc == early.value && got == []
            else
              var s, es := Search(last, q.flAttr), Listing(vol.disc, prefix).value;
              && AllParsed(es) && made != []
              && made == [Request(q.p, q.cbData, q.cMatch)] +
                   (if Succeeds(LastReply(s, es, iNext, [made[0]]).rc) then rest else [])
              && rc == LastReply(s, es, iNext, made).rc
              && got == Delivered(s, es, iNext, made)
              && AllTell(got, s, es, iNext, WantedIn(s, es, 0, Cursor(s, es, iNext, made)))
              && (rc == NoMoreFiles ==> Cursor(s, es, iNext, made) == |es|)
  {
    hide LastReply, Received, Delivered, Cursor, DirContents, ReadReply, Holds, Listing, AllTell, WantedIn, AllParsed;
    hide Replay, Books.Proper, Linked, Distinct, SearchesOut, SearchData.Valid;
    var search, count;
    rc, search, count, prefix, last := Calls.FindFirst(server, vol, q, buf, iNext);
    ghost var first := Request(q.p, q.cbData, q.cMatch);
    got, made := [], [first];
    ghost var early, s := EarlyError(vol.disc, q, prefix, last), Search(last, q.flAttr);
    if early.None? {
      FirstReply(s, Listing(vol.disc, prefix).value, iNext, first, buf[..]);
    }
    if search != null {
      SearchIsOut(server.log, vol, search);
      got := ReadReply(q.p, rc, count, buf[..]);
      rc, got := ReadOn(search, first, got, rc, rest, buf);
      made := [first] + rest;
      var closed := Calls.FindClose(server, vol, search);
    }
    if early.None? {
      SearchDelivers(s, Listing(vol.disc, prefix).value, iNext, made);
    }
  }

  lemma FirstReply(s: Search, es: seq<DirEntry>, first: int, q: Request, buf: seq<Byte>)
    requires AllParsed(es)
    ensures var r := DirContents(s, es, first, q.p, 0, q.cbData, q.cMatch);
            && LastReply(s, es, first, [q]) == r && Cursor(s, es, first, [q]) == r.next
            && (r.rc != NoError && r.rc != EasDidntFit ==> Received(s, es, first, [q]) == [])
            && (Holds(buf, 0, r.bytes) ==> ReadReply(q.p, r.rc, r.cMatch, buf) == Received(s, es, first, [q]))
  {
    var r := DirContents(s, es, first, q.p, 0, q.cbData, q.cMatch);
    assert [] + [q] == [q];
    OneMore(s, es, first, [], q);
    if Holds(buf, 0, r.bytes) {
      BufferTells(s, es, first, q, 0, buf);
    }
    hide DirContents, ReadRecords;
  }

  lemma SearchIsOut(log: seq<Event>, vol: VolData, search: SearchData)
    requires log != [] && log[|log| - 1] == Op.FindFirst(vol, search)
    ensures search in SearchesOut(log, vol)
  {
  }

  /** From the image to the program: for a path to a directory laid out by the standard with
      every record in reach, what a program that searches for everything is delivered, once it
      has ERROR_NO_MORE_FILES, is the names, sizes and kinds of all its entries, in order. */
  lemma ListsLaidOut(
    disc: Volume, path: seq<Byte>, e: DirEntry, sectors: seq<seq<Record>>, first: int, made: seq<Request>)
    requires Walk(ReaderOf(disc), RootEntry(disc), Components(path)) == Some(e) && e.isDir
    requires LaidOut(disc.image, e.extent, sectors) && AllInReach(sectors) && made != []
    requires e.size <= 2048 * |sectors| && (sectors != [] ==> 2048 * (|sectors| - 1) < e.size)
    ensures Listing(disc, path).Some? && AllParsed(Listing(disc, path).value)
    ensures var es, all := Listing(disc, path).value, Expected(disc, e.extent, sectors);
            LastReply(Everything(), es, first, made).rc == NoMoreFiles ==>
              var got := Delivered(Everything(), es, first, made);
              && |got| == |all|
              && forall k | 0 <= k < |all| ::
                   && got[k].name == all[k].name
                   && got[k].status.size == (if all[k].isDir then 0 else all[k].size % 0x1_0000_0000)
                   && got[k].status.attributes == (if all[k].isDir then 17 else 1)
  {
    hide Walk, DirEntries, Expected, LaidOut, AllInReach, Components, LastReply, Delivered, Received, Cursor, WantedIn;
    ListingLaidOut(disc, path, e, sectors);
    ListingParsed(disc, path);
    var es := Listing(disc, path).value;
    assert es == Entries(disc, e.extent, e.size);
    if LastReply(Everything(), es, first, made).rc == NoMoreFiles {
      SearchDelivers(Everything(), es, first, made);
      WholeDirectory(disc, e.extent, e.size, sectors, first, made);
    }
  }
}
