/** The calls of the daemon that keep the books: attach, open, close and the searches. */
module Calls {
  import opened Bytes
  import opened Os2
  import opened Names
  import opened IsoDir
  import opened IsoPath
  import opened Descriptors
  import opened EaList
  import opened FileRecord
  import opened Find
  import opened FileIo
  import opened Books
  import opened Volumes

  // ----- attaching

  /** The parameters of an attach: whether the block has the right size, the path of the image
      in a buffer of fixed size, and the number of sectors in front of the image. */
  datatype AttachParms = AttachParms(sizeFits: bool, basePath: seq<Byte>, offset: int)

  /** The letters, and the paths that are taken for absolute: "\\\\" or "//" and anything, or a
      drive letter, a colon and a separator. */
  lemma BasePaths(path: seq<Byte>)
    ensures IsBasePath(path) <==>
            || path[..Two(path)] == [92, 92] || path[..Two(path)] == [47, 47]
            || (|path| >= 3
                && ('A' <= path[0] as char <= 'Z' || 'a' <= path[0] as char <= 'z')
                && path[1] as char == ':' && (path[2] as char == '/' || path[2] as char == '\\'))
  {
  }

  function Two(path: seq<Byte>): nat {
    if |path| < 2 then |path| else 2
  }

  predicate IsLetter(b: Byte) {
    65 <= b <= 90 || 97 <= b <= 122
  }

  /** An absolute path, or one in the network. */
  predicate IsBasePath(path: seq<Byte>) {
    || (|path| >= 2 && path[0] == path[1] && IsSeparator(path[0]))
    || (IsFullPath(path) && IsLetter(path[0]))
  }

  /** attachVolume; `file` is the image if it can be opened. The answer is None if the scan of
      the descriptors has not ended after `steps` rounds. */
  method AttachVolume(
    server: ServerData, parms: AttachParms, file: Option<seq<Byte>>, nls: Option<PageTable>, steps: nat)
    returns (rc: Option<ApiRet>, result: VolData?)
    requires server.Valid()
    modifies server, server.volumes`pPrev
    ensures server.Valid()
    ensures rc == Some(NoError) <==> result != null
    ensures result == null ==> server.log == old(server.log) && server.volumes == old(server.volumes)
    ensures result != null ==>
              && fresh(result) && server.log == old(server.log) + [Op.Attach(result)]
              && server.volumes == [result] + old(server.volumes)
    ensures !parms.sizeFits || NoNul(parms.basePath) || !IsBasePath(CString(parms.basePath)) ==>
              rc == Some(InvalidParameter)
    ensures parms.sizeFits && !NoNul(parms.basePath) && IsBasePath(CString(parms.basePath)) ==>
              if parms.offset < 0 then rc == Some(InvalidOffset)
              else if file.None? then rc == Some(FileOpenFailed)
              else
                && (rc.None? <==> forall k: nat | k <= steps :: !Stops(file.value, parms.offset, k))
                && (rc.Some? ==>
                      && (rc.value == NoError || rc.value == NoJolietDescriptor)
                      && (rc.value == NoError <==> exists k: nat :: FirstJoliet(file.value, parms.offset, k)))
                && (rc == Some(NoError) ==>
                      result.disc.image == file.value && result.disc.nls == nls && result.disc.ucsLevel > 0)
                && (rc == Some(NoError) ==>
                      exists k: nat :: FirstJoliet(file.value, parms.offset, k) &&
                        result.disc == VolumeOf(file.value, Descriptor(file.value, parms.offset, k), nls))
  {
    result := null;
    var tooLong := VerifyString(parms.basePath, |parms.basePath|);
    if !parms.sizeFits || tooLong || !IsBasePath(CString(parms.basePath)) {
      return Some(InvalidParameter), result;
    }
    if parms.offset < 0 {
      return Some(InvalidOffset), result;
    }
    if file.None? {
      return Some(FileOpenFailed), result;
    }
    var stopped, d, block := ScanDescriptors(file.value, parms.offset, steps);
    if !stopped {
      return None, result;
    }
    forall k: nat | FirstJoliet(file.value, parms.offset, k)
      ensures k == block
    {
      OneJoliet(file.value, parms.offset, k, block);
    }
    if IsEnd(d) {
      return Some(NoJolietDescriptor), result;
    }
    assert FirstJoliet(file.value, parms.offset, block);
    result := new VolData(VolumeOf(file.value, d, nls));
    server.Enlist(result);
    return Some(NoError), result;
  }

  /** On a volume attached by a descriptor with a given root record, a path of separators only
      leads to the directory of that record, and with its date. */
  lemma RootResolves(image: seq<Byte>, d: seq<Byte>, nls: Option<PageTable>, r: Record, path: seq<Byte>)
    requires |d| == 2048 && Length(r) == 34 && d[156..190] == EncodeRecord(r)
    requires forall i | 0 <= i < |path| :: IsSeparator(path[i])
    ensures var vol := VolumeOf(image, d, nls);
            var e := Walk(ReaderOf(vol), RootEntry(vol), Components(path));
            && e.Some? && e.value.isDir && e.value.date == r.date + [r.flags, r.unit]
            && e.value.extent == Signed32(r.extent) && e.value.size == Signed32(r.size)
  {
    hide DirEntries, VolumeOf, EncodeRecord;
    RootRoundTrip(image, d, nls, r);
    LeadingSeparators(path, []);
    assert path + [] == path && Components([]) == [];
  }

  // ----- opening and closing files

  /** What an open asks for: the name in a buffer of fixed size, direct access, and the two
      fields that say what to do with the file. */
  datatype OpenRequest = OpenRequest(name: seq<Byte>, dasd: bool, openFlag: nat, openMode: nat)

  /** The entry at the end of a full path, which begins with a drive. */
  function Resolve(disc: Volume, name: seq<Byte>): Option<DirEntry>
    requires IsFullPath(name)
  {
    Walk(ReaderOf(disc), RootEntry(disc), Components(name[2..]))
  }

  /** The return code of fsOpenCreate. */
  function OpenRc(disc: Volume, q: OpenRequest): ApiRet {
    if NoNul(q.name) || !IsFullPath(CString(q.name)) then InvalidParameter
    else if q.dasd then NotSupported
    else
      match Resolve(disc, CString(q.name))
      case None => OpenFailed
      case Some(e) =>
        if q.openFlag % 16 == 0 then OpenFailed
        else if |e.name| >= 260 then FilenameExcedRange
        else if Has(e.flags, FILE_DIRECTORY) then AccessDenied
        else if q.openFlag % 16 == 1 then
          if q.openMode % 4 == 3 then NoError
          else if q.openMode % 2 == 1 || q.openMode / 2 % 2 == 1 then AccessDenied
          else NoError
        else if q.openFlag % 16 == 2 then AccessDenied
        else NotSupported
  }

  /** An open succeeds exactly for what the resolver finds and is no directory, and only for
      reading or execution. */
  lemma OpenExact(disc: Volume, q: OpenRequest)
    ensures OpenRc(disc, q) == NoError <==>
            && !NoNul(q.name) && IsFullPath(CString(q.name)) && !q.dasd
            && Resolve(disc, CString(q.name)).Some? && !Resolve(disc, CString(q.name)).value.isDir
            && q.openFlag % 16 == 1 && q.openMode % 4 in {0, 3}
    ensures OpenRc(disc, q) != FilenameExcedRange
  {
    hide Resolve, AttrOf, Has, CString, NoNul, IsFullPath;
    if !NoNul(q.name) && IsFullPath(CString(q.name)) {
      var name := CString(q.name);
      ResolveParsed(disc, name);
      DirectoryBit();
    }
  }

  /** Which error an open ends with. What is not there, or must not be there, cannot be opened; a
      directory, a file to be replaced or to be written to is denied; direct access and other
      actions are not supported. */
  lemma OpenErrors(disc: Volume, q: OpenRequest)
    ensures var named := !NoNul(q.name) && IsFullPath(CString(q.name));
            && (OpenRc(disc, q) == InvalidParameter <==> !named)
            && (named && !q.dasd ==>
                  var found, action := Resolve(disc, CString(q.name)), q.openFlag % 16;
                  && (OpenRc(disc, q) == OpenFailed <==> found.None? || action == 0)
                  && (found.Some? && action > 0 ==>
                        && (OpenRc(disc, q) == AccessDenied <==>
                            found.value.isDir || action == 2 || (action == 1 && q.openMode % 4 in {1, 2}))
                        && (OpenRc(disc, q) == NotSupported <==> !found.value.isDir && action > 2)))
            && (named && q.dasd ==> OpenRc(disc, q) == NotSupported)
  {
    hide Resolve, AttrOf, Has, CString, NoNul, IsFullPath;
    OpenExact(disc, q);
    if !NoNul(q.name) && IsFullPath(CString(q.name)) {
      var name := CString(q.name);
      ResolveParsed(disc, name);
      DirectoryBit();
    }
  }

  /** On a disc none of whose files looks like a directory that holds names, an open succeeds
      exactly for the files in its tree of directories. */
  lemma OpenInTree(disc: Volume, q: OpenRequest)
    requires NoEntryInFiles(ReaderOf(disc), RootEntry(disc))
    ensures OpenRc(disc, q) == NoError <==>
            && !NoNul(q.name) && IsFullPath(CString(q.name)) && !q.dasd
            && NamesFile(ReaderOf(disc), RootEntry(disc), CString(q.name)[2..])
            && q.openFlag % 16 == 1 && q.openMode % 4 in {0, 3}
  {
    hide OpenRc, CString, NoNul, Walk, Tree, NoEntryInFiles;
    OpenExact(disc, q);
    var rd, root := ReaderOf(disc), RootEntry(disc);
    WalkIsTreeExactly(rd, root);
    if IsFullPath(CString(q.name)) {
      var path := CString(q.name)[2..];
      assert Walk(rd, root, Components(path)) == Tree(rd, root, Components(path));
    }
  }

  /** On another disc, "C:/F/G" is opened where F is a file and G is in its data. */
  lemma OpensThroughFile() returns (disc: Volume, q: OpenRequest)
    ensures OpenRc(disc, q) == NoError && CString(q.name)[2..] == TrapPath()
    ensures !NamesFile(ReaderOf(disc), RootEntry(disc), CString(q.name)[2..])
  {
    hide OpenRc, Walk, Tree, Components, NoEntryInFiles, TrapVolume;
    var name: seq<Byte> := [67, COLON] + TrapPath();
    disc, q := TrapVolume(), OpenRequest(name + [0], false, 1, 0);
    CStringOf(name);
    assert q.name[|name|] == 0;
    assert name[2..] == TrapPath();
    FileMisleads();
    OpenExact(disc, q);
  }

  lemma {:induction false} CStringOf(s: seq<Byte>)
    requires NoNul(s)
    ensures CString(s + [0]) == s
  {
    if s != [] {
      CStringOf(s[1..]);
      assert (s + [0])[1..] == s[1..] + [0];
    }
  }

  lemma ResolveParsed(disc: Volume, name: seq<Byte>)
    requires IsFullPath(name)
    ensures var r := Resolve(disc, name); r.Some? ==> |r.value.name| <= 255 && r.value.flags == AttrOf(r.value.isDir)
  {
    WalkParsed(disc, Components(name[2..]));
  }

  lemma DirectoryBit()
    ensures forall d :: Has(AttrOf(d), FILE_DIRECTORY) <==> d
  {
    assert Has(AttrOf(true), FILE_DIRECTORY);
    assert !Has(AttrOf(false), FILE_DIRECTORY);
  }

  /** Whatever a path resolves to has a short name and the attributes of its kind. */
  lemma WalkParsed(disc: Volume, names: seq<seq<Byte>>)
    ensures var r := Walk(ReaderOf(disc), RootEntry(disc), names);
            r.Some? ==> |r.value.name| <= 255 && r.value.flags == AttrOf(r.value.isDir)
  {
    hide AttrOf, DirEntries;
    if names != [] {
      var last := |names| - 1;
      var dir := Walk(ReaderOf(disc), RootEntry(disc), names[..last]);
      if dir.Some? {
        EntriesParsed(disc, dir.value.extent, dir.value.size);
        FindMember(DirEntries(disc, dir.value.extent, dir.value.size), names[last]);
      }
    }
  }

  lemma {:induction false} FindMember(entries: seq<DirEntry>, name: seq<Byte>)
    ensures var r := IsoPath.Find(entries, name);
            r.Some? ==> r.value in entries && SameName(r.value.name, name)
  {
    if entries != [] {
      FindMember(entries[1..], name);
    }
  }

  /** fsOpenCreate, with the counting of finalizeOpen. */
  method OpenCreate(server: ServerData, vol: VolData, q: OpenRequest) returns (rc: ApiRet, file: OpenFile?)
    requires server.Valid() && vol in server.volumes
    modifies server`log, vol`cOpenFiles
    ensures server.Valid()
    ensures rc == OpenRc(vol.disc, q)
    ensures rc == NoError <==> file != null
    ensures file == null ==> server.log == old(server.log) && vol.cOpenFiles == old(vol.cOpenFiles)
    ensures file != null ==>
              && fresh(file) && server.log == old(server.log) + [Op.Open(vol, file)]
              && var e := Resolve(vol.disc, CString(q.name)).value;
                 file.extent == e.extent && file.size == e.size % 0x1_0000_0000 && file.position == 0
  {
    hide Walk, Components, CString, Has, Replay, Proper, Linked, Distinct, FilesOut;
    file := null;
    var tooLong := VerifyString(q.name, |q.name|);
    if tooLong || !IsFullPath(CString(q.name)) {
      return InvalidParameter, file;
    }
    var name := CString(q.name);
    if q.dasd {
      return NotSupported, file;
    }
    var found := QueryIsoEntryFromPath(vol.disc, name[2..]);
    if found.None? {
      return OpenFailed, file;
    }
    var e := found.value;
    if q.openFlag % 16 == 0 {
      return OpenFailed, file;
    }
    if |e.name| >= 260 {
      return FilenameExcedRange, file;
    }
    if Has(e.flags, FILE_DIRECTORY) {
      return AccessDenied, file;
    }
    if q.openFlag % 16 == 1 {
      if q.openMode % 4 != 3 && (q.openMode % 2 == 1 || q.openMode / 2 % 2 == 1) {
        return AccessDenied, file;
      }
      file := FinalizeOpen(server, vol, e);
      return NoError, file;
    }
    if q.openFlag % 16 == 2 {
      return AccessDenied, file;
    }
    return NotSupported, file;
  }

  method FinalizeOpen(server: ServerData, vol: VolData, e: DirEntry) returns (file: OpenFile)
    requires server.Valid() && vol in server.volumes
    modifies server`log, vol`cOpenFiles
    ensures server.Valid() && fresh(file) && server.log == old(server.log) + [Op.Open(vol, file)]
    ensures file.extent == e.extent && file.size == e.size % 0x1_0000_0000 && file.position == 0
  {
    hide Replay, Proper, Linked, Distinct, FilesOut;
    file := new OpenFile(e.extent, e.size % 0x1_0000_0000);
    FilesFromLog(server.log, vol, file);
    vol.cOpenFiles := vol.cOpenFiles + 1;
    Appended(server.log, Op.Open(vol, file));
    server.log := server.log + [Op.Open(vol, file)];
  }

  lemma {:induction false} FilesFromLog(log: seq<Event>, vol: VolData, file: OpenFile)
    requires forall i | 0 <= i < |log| :: log[i].Open? ==> log[i].file != file
    ensures file !in FilesOut(log, vol)
  {
    if log != [] {
      FilesFromLog(log[..|log| - 1], vol, file);
    }
  }

  const FS_CL_FORSYS := 2

  /** fsClose: only the last close in the system counts. The volume may have been detached, in
      which case the counter is one in memory that was freed; here it lives on unused. */
  method Close(server: ServerData, vol: VolData, file: OpenFile, usType: nat) returns (rc: ApiRet)
    requires server.Valid() && file in FilesOut(server.log, vol)
    modifies server`log, vol`cOpenFiles
    ensures server.Valid() && rc == NoError
    ensures server.log == old(server.log) + [Op.Close(vol, file, usType == 2)]
    ensures vol.cOpenFiles == old(vol.cOpenFiles) - (if usType == 2 then 1 else 0)
  {
    hide Replay, Proper, Linked, Distinct, FilesOut;
    Appended(server.log, Op.Close(vol, file, usType == FS_CL_FORSYS));
    if usType == FS_CL_FORSYS {
      vol.cOpenFiles := vol.cOpenFiles - 1;
    }
    server.log := server.log + [Op.Close(vol, file, usType == FS_CL_FORSYS)];
    return NoError;
  }

  // ----- searches

  /** What a search asks for: directory and pattern as one name in a buffer of fixed size, the
      attributes, the kind of record, and the room for the reply. */
  datatype FindRequest = FindRequest(name: seq<Byte>, flAttr: bv32, p: Params, cbData: Word32, cMatch: nat)

  /** The entries of the directory a path names, if it names one. */
  function Listing(disc: Volume, path: seq<Byte>): Option<seq<DirEntry>> {
    match Walk(ReaderOf(disc), RootEntry(disc), Components(path))
    case None => None
    case Some(e) => if e.isDir then Some(DirEntries(disc, e.extent, e.size)) else None
  }

  lemma ListingParsed(disc: Volume, path: seq<Byte>)
    ensures Listing(disc, path).Some? ==> AllParsed(Listing(disc, path).value)
  {
    hide Walk, DirEntries, Components, Parsed;
    var e := Walk(ReaderOf(disc), RootEntry(disc), Components(path));
    if e.Some? {
      EntriesParsed(disc, e.value.extent, e.value.size);
      var es := DirEntries(disc, e.value.extent, e.value.size);
      assert forall i | 0 <= i < |es| :: es[i] in es;
    }
  }

  /** What is listed for the directory part of a path is where the last part is looked up; and
      if nothing is, the tree of directories has nothing at the path. */
  lemma ListingIsLookedUp(disc: Volume, full: seq<Byte>, prefix: seq<Byte>, last: seq<Byte>)
    requires IsSplit(full, prefix, last) && last != []
    ensures var rd, root, es := ReaderOf(disc), RootEntry(disc), Listing(disc, prefix);
            && (es.Some? ==> Walk(rd, root, Components(full)) == IsoPath.Find(es.value, last))
            && (es.None? ==> Tree(rd, root, Components(full)).None?)
  {
    hide DirEntries, Components, IsoPath.Find, IsSplit;
    var rd, root := ReaderOf(disc), RootEntry(disc);
    ResolveSplit(rd, root, full, prefix, last);
    SplitComponents(full, prefix, last);
    DirWalkExact(rd, root, Components(prefix));
    assert (Components(prefix) + [last])[..|Components(prefix)|] == Components(prefix);
  }

  /** A path to a directory laid out by the standard lists what was laid out. */
  lemma ListingLaidOut(disc: Volume, path: seq<Byte>, e: DirEntry, sectors: seq<seq<Record>>)
    requires Walk(ReaderOf(disc), RootEntry(disc), Components(path)) == Some(e) && e.isDir
    requires LaidOut(disc.image, e.extent, sectors) && AllInReach(sectors)
    requires e.size <= 2048 * |sectors| && (sectors != [] ==> 2048 * (|sectors| - 1) < e.size)
    ensures Listing(disc, path) == Some(Expected(disc, e.extent, sectors))
  {
    hide Walk, DirEntries, Expected, LaidOut, AllInReach, Components;
    ReadsExactly(disc, e.extent, e.size, sectors);
  }

  lemma RootListing(disc: Volume)
    ensures Listing(disc, []) == Some(DirEntries(disc, disc.rootExtent, disc.rootSize))
  {
    assert Components([]) == [];
  }

  /** The part of fsFindFirst that reads the directory. */
  method ReadListing(disc: Volume, prefix: seq<Byte>) returns (entries: Option<seq<DirEntry>>)
    ensures entries == Listing(disc, prefix)
  {
    if prefix != [] {
      var dir := QueryIsoEntryFromPath(disc, prefix);
      if dir.None? || !dir.value.isDir {
        return None;
      }
      var es := GetDirEntries(disc, dir.value.extent, dir.value.size);
      return Some(es);
    }
    RootListing(disc);
    var es := GetDirEntries(disc, disc.rootExtent, disc.rootSize);
    return Some(es);
  }

  /** What fsFindFirst answers if it does not come to filling the buffer. */
  function EarlyError(disc: Volume, q: FindRequest, prefix: seq<Byte>, last: seq<Byte>): Option<ApiRet> {
    if NoNul(q.name) || !IsFullPath(CString(q.name)) then Some(InvalidParameter)
    else if q.p.level !in {1, 2, 3} then Some(NotSupported)
    else if last == [] then Some(InvalidParameter)
    else
      match Listing(disc, prefix)
      case None => Some(PathNotFound)
      case Some(es) => if es == [] then Some(FileNotFound) else None
  }

  /** Which requests are refused, and that no other is: one without a proper name, without a
      pattern, of a level other than 1, 2 and 3, for a directory that is not there, or for an
      empty one. */
  lemma EarlyErrors(disc: Volume, q: FindRequest, prefix: seq<Byte>, last: seq<Byte>)
    ensures var named := !NoNul(q.name) && IsFullPath(CString(q.name));
            var early, es := EarlyError(disc, q, prefix, last), Listing(disc, prefix);
            && (q.p.level < 1 || q.p.level > 3 ==>
                  early == Some(if named then NotSupported else InvalidParameter))
            && (q.p.level == 1 || q.p.level == 2 || q.p.level == 3 ==>
                  && (early == Some(InvalidParameter) <==> !named || last == [])
                  && (early == Some(PathNotFound) <==> named && last != [] && es.None?)
                  && (early == Some(FileNotFound) <==> named && last != [] && es == Some([]))
                  && (early == None <==> named && last != [] && es.Some? && es.value != []))
  {
    hide Listing, CString, NoNul, IsFullPath;
  }

  /** fsFindFirst: begins a search and fills the first buffer. prefix and last are the parts
      splitPath finds. iNext is what happens to be in the new search data. */
  method FindFirst(server: ServerData, vol: VolData, q: FindRequest, buf: array<Byte>, iNext: int)
    returns (rc: ApiRet, search: SearchData?, cMatch: nat, ghost prefix: seq<Byte>, ghost last: seq<Byte>)
    requires server.Valid() && vol in server.volumes && q.cbData <= buf.Length
    modifies server`log, vol`cSearches, buf
    ensures server.Valid()
    ensures !NoNul(q.name) && IsFullPath(CString(q.name)) ==> IsSplit(CString(q.name)[2..], prefix, last)
    ensures var early := EarlyError(vol.disc, q, prefix, last);
            if early.Some? then rc == early.value && search == null
            else
              var es := Listing(vol.disc, prefix).value;
              && AllParsed(es)
              && var r := DirContents(Search(last, q.flAttr), es, iNext, q.p, 0, q.cbData, q.cMatch);
                 && rc == r.rc && cMatch == r.cMatch && Holds(buf[..], 0, r.bytes)
                 && (search != null <==> rc == NoError || rc == EasDidntFit)
                 && (search != null ==>
                       && search.Valid() && search.search == Search(last, q.flAttr) && search.listing == es
                       && search.first == iNext && search.next == r.next)
    ensures OnlyWithin(buf[..], old(buf[..]), 0, q.cbData)
    ensures search == null ==> server.log == old(server.log) && vol.cSearches == old(vol.cSearches)
    ensures search != null ==>
              && fresh(search) && server.log == old(server.log) + [Op.FindFirst(vol, search)]
              && vol.cSearches == old(vol.cSearches) + 1
  {
    hide Listing, DirContents, Holds, OnlyWithin, CString, Replay, Books.Proper, Linked, Distinct, Counted, AllParsed;
    Unchanged(buf[..], 0, q.cbData);
    search, cMatch, prefix, last := null, q.cMatch, [], [];
    var tooLong := VerifyString(q.name, |q.name|);
    if tooLong || !IsFullPath(CString(q.name)) {
      return InvalidParameter, search, cMatch, prefix, last;
    }
    var dirName, pattern := SplitPath(CString(q.name)[2..]);
    prefix, last := dirName, pattern;
    if q.p.level != 1 && q.p.level != 2 && q.p.level != 3 {
      return NotSupported, search, cMatch, prefix, last;
    }
    if pattern == [] {
      return InvalidParameter, search, cMatch, prefix, last;
    }
    var entries := ReadListing(vol.disc, dirName);
    if entries.None? {
      return PathNotFound, search, cMatch, prefix, last;
    }
    if entries.value == [] {
      return FileNotFound, search, cMatch, prefix, last;
    }
    ListingParsed(vol.disc, dirName);
    rc, search, cMatch := BeginSearch(server, vol, q, pattern, entries.value, buf, iNext);
  }

  /** The end of fsFindFirst, when there is a directory to search. */
  method BeginSearch(
    server: ServerData, vol: VolData, q: FindRequest, pattern: seq<Byte>, es: seq<DirEntry>,
    buf: array<Byte>, iNext: int)
    returns (rc: ApiRet, search: SearchData?, cMatch: nat)
    requires server.Valid() && vol in server.volumes && q.cbData <= buf.Length && AllParsed(es)
    modifies server`log, vol`cSearches, buf
    ensures server.Valid()
    ensures var r := DirContents(Search(pattern, q.flAttr), es, iNext, q.p, 0, q.cbData, q.cMatch);
            && rc == r.rc && cMatch == r.cMatch && Holds(buf[..], 0, r.bytes)
            && (search != null <==> rc == NoError || rc == EasDidntFit)
            && (search != null ==>
                  && search.Valid() && search.search == Search(pattern, q.flAttr) && search.listing == es
                  && search.first == iNext && search.next == r.next)
    ensures OnlyWithin(buf[..], old(buf[..]), 0, q.cbData)
    ensures search == null ==> server.log == old(server.log) && vol.cSearches == old(vol.cSearches)
    ensures search != null ==>
              && fresh(search) && server.log == old(server.log) + [Op.FindFirst(vol, search)]
              && vol.cSearches == old(vol.cSearches) + 1
  {
    hide DirContents, Holds, OnlyWithin, Replay, Books.Proper, Linked, Distinct, SearchesOut, AllParsed;
    search := null;
    var data := new SearchData(Search(pattern, q.flAttr), es, iNext);
    rc, cMatch := data.StoreDirContents(q.p, buf, q.cbData, q.cMatch);
    if rc != NoError && rc != EasDidntFit {
      return;
    }
    search := data;
    vol.cSearches := vol.cSearches + 1;
    SearchesFromLog(server.log, vol, data);
    Appended(server.log, Op.FindFirst(vol, data));
    server.log := server.log + [Op.FindFirst(vol, data)];
  }

  lemma {:induction false} SearchesFromLog(log: seq<Event>, vol: VolData, search: SearchData)
    requires forall i | 0 <= i < |log| :: log[i].FindFirst? ==> log[i].search != search
    ensures search !in SearchesOut(log, vol)
  {
    if log != [] {
      SearchesFromLog(log[..|log| - 1], vol, search);
    }
  }

  /** fsFindNext: fills the next buffer. */
  method FindNext(search: SearchData, p: Params, buf: array<Byte>, cbData: Word32, cMatch: nat)
    returns (rc: ApiRet, added: nat)
    requires search.Valid() && cbData <= buf.Length
    modifies search, buf
    ensures search.Valid()
    ensures var r := DirContents(search.search, search.listing, search.first, p, old(search.next), cbData, cMatch);
            rc == r.rc && added == r.cMatch && search.next == r.next && Holds(buf[..], 0, r.bytes)
    ensures OnlyWithin(buf[..], old(buf[..]), 0, cbData)
  {
    rc, added := search.StoreDirContents(p, buf, cbData, cMatch);
  }

  /** fsFindFromName: as fsFindNext; name and position, which say where to go on, are not
      looked at. */
  method FindFromName(search: SearchData, name: seq<Byte>, p: Params, buf: array<Byte>, cbData: Word32, cMatch: nat)
    returns (rc: ApiRet, added: nat)
    requires search.Valid() && cbData <= buf.Length
    modifies search, buf
    ensures search.Valid()
    ensures NoNul(name) ==> rc == InvalidParameter && search.next == old(search.next) && buf[..] == old(buf[..])
    ensures !NoNul(name) ==>
              var r := DirContents(search.search, search.listing, search.first, p, old(search.next), cbData, cMatch);
              rc == r.rc && added == r.cMatch && search.next == r.next && Holds(buf[..], 0, r.bytes)
    ensures OnlyWithin(buf[..], old(buf[..]), 0, cbData)
  {
    var tooLong := VerifyString(name, |name|);
    if tooLong {
      return InvalidParameter, cMatch;
    }
    rc, added := search.StoreDirContents(p, buf, cbData, cMatch);
  }

  /** fsFindClose; the volume may have been detached, as in Close. */
  method FindClose(server: ServerData, vol: VolData, search: SearchData) returns (rc: ApiRet)
    requires server.Valid() && search in SearchesOut(server.log, vol)
    modifies server`log, vol`cSearches
    ensures server.Valid() && rc == NoError && vol.cSearches == old(vol.cSearches) - 1
    ensures server.log == old(server.log) + [Op.FindClose(vol, search)]
  {
    hide Replay, Books.Proper, Linked, Distinct, SearchesOut;
    Appended(server.log, Op.FindClose(vol, search));
    vol.cSearches := vol.cSearches - 1;
    server.log := server.log + [Op.FindClose(vol, search)];
    return NoError;
  }
}
