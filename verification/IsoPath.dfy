/** Resolving path names in an ISO 9660 image: the two resolvers of the source and their
    relation to looking up one component after the other. */
module IsoPath {
  import opened Bytes
  import opened Os2
  import opened Names
  import opened IsoDir

  /** A reader of directories: the entries at an extent of a size. */
  type Reader = (int, int) -> seq<DirEntry>

  function ReaderOf(vol: Volume): Reader {
    (extent: int, size: int) => DirEntries(vol, extent, size)
  }

  /** The first entry whose name is the given one in either case. */
  function Find(entries: seq<DirEntry>, name: seq<Byte>): Option<DirEntry> {
    if entries == [] then None
    else if SameName(entries[0].name, name) then Some(entries[0])
    else Find(entries[1..], name)
  }

  /** The k-th entry is the first of this name, in either case. */
  predicate FirstNamed(entries: seq<DirEntry>, name: seq<Byte>, k: nat) {
    && k < |entries| && SameName(entries[k].name, name)
    && forall j | 0 <= j < k :: !SameName(entries[j].name, name)
  }

  /** Every entry is looked at: nothing is found exactly if there is none of the name, and
      otherwise the first that has it. */
  lemma {:induction false} FindExact(entries: seq<DirEntry>, name: seq<Byte>)
    ensures Find(entries, name).None? <==> forall k | 0 <= k < |entries| :: !SameName(entries[k].name, name)
    ensures forall k: nat | FirstNamed(entries, name, k) :: Find(entries, name) == Some(entries[k])
    ensures Find(entries, name).Some? ==> exists k: nat :: FirstNamed(entries, name, k)
  {
    hide SameName;
    if entries != [] {
      var rest := entries[1..];
      FindExact(rest, name);
      assert forall k | 0 < k < |entries| :: entries[k] == rest[k - 1];
      if SameName(entries[0].name, name) {
        assert FirstNamed(entries, name, 0);
      } else {
        forall k: nat | FirstNamed(entries, name, k)
          ensures k > 0 && FirstNamed(rest, name, k - 1)
        {
          assert forall j | 0 <= j < k - 1 :: rest[j] == entries[j + 1];
        }
        if Find(rest, name).Some? {
          var k: nat :| FirstNamed(rest, name, k);
          assert FirstNamed(entries, name, k + 1);
        } else {
          assert forall k | 0 <= k < |rest| :: rest[k] == entries[k + 1];
        }
      }
    }
  }

  /** The entry made up for the root directory. */
  function RootEntry(vol: Volume): DirEntry {
    DirEntry([], vol.rootExtent, vol.rootSize, true, vol.rootDate, 0, AttrOf(true))
  }

  /** The entry one component further: the lookup of the component in the directory. */
  function Step(rd: Reader, dir: DirEntry, name: seq<Byte>): Option<DirEntry> {
    Find(rd(dir.extent, dir.size), name)
  }

  /** The lookup of one component after the other, beginning in `start`. */
  function Walk(rd: Reader, start: DirEntry, names: seq<seq<Byte>>): Option<DirEntry> {
    if names == [] then Some(start)
    else
      match Walk(rd, start, names[..|names| - 1])
      case None => None
      case Some(dir) => Step(rd, dir, names[|names| - 1])
  }

  /** As Walk, but every component has to be a directory. */
  function DirWalk(rd: Reader, start: DirEntry, names: seq<seq<Byte>>): Option<DirEntry> {
    if names == [] then Some(start)
    else
      match DirWalk(rd, start, names[..|names| - 1])
      case None => None
      case Some(dir) =>
        match Step(rd, dir, names[|names| - 1])
        case None => None
        case Some(e) => if e.isDir then Some(e) else None
  }

  /** Walking along a longer path is walking on from where the shorter one ends. */
  lemma {:induction false} WalkConcat(rd: Reader, start: DirEntry, a: seq<seq<Byte>>, b: seq<seq<Byte>>)
    ensures Walk(rd, start, a + b) ==
            match Walk(rd, start, a) case None => None case Some(dir) => Walk(rd, dir, b)
  {
    if b == [] {
      assert a + b == a;
    } else {
      WalkConcat(rd, start, a, b[..|b| - 1]);
      assert (a + b)[..|a + b| - 1] == a + b[..|b| - 1];
    }
  }

  /** One component more. */
  lemma WalkOne(rd: Reader, start: DirEntry, names: seq<seq<Byte>>, name: seq<Byte>)
    ensures Walk(rd, start, names + [name]) ==
            match Walk(rd, start, names) case None => None case Some(dir) => Step(rd, dir, name)
  {
    assert (names + [name])[..|names|] == names;
  }

  lemma ThreeParts<T>(all: seq<T>, a: seq<T>, x: T, b: seq<T>)
    requires all == a + ([x] + b)
    ensures all == (a + [x]) + b
  {
  }

  // ----- the scanning of path names

  method SkipSeparators(path: seq<Byte>, from: nat) returns (pos: nat)
    requires from <= |path|
    ensures from <= pos <= |path| && (pos < |path| ==> !IsSeparator(path[pos]))
    ensures Components(path[pos..]) == Components(path[from..])
  {
    pos := from;
    while pos < |path| && IsSeparator(path[pos])
      invariant from <= pos <= |path|
      invariant Components(path[pos..]) == Components(path[from..])
    {
      assert path[pos..][1..] == path[pos + 1..];
      pos := pos + 1;
    }
  }

  method NextSeparator(path: seq<Byte>, from: nat) returns (pos: nat)
    requires from < |path| && !IsSeparator(path[from])
    ensures from < pos <= |path|
    ensures Components(path[from..]) == [path[from..pos]] + Components(path[pos..])
  {
    hide WordLength, Components;
    pos := from;
    while pos < |path| && !IsSeparator(path[pos])
      invariant from <= pos <= |path|
      invariant forall i | from <= i < pos :: !IsSeparator(path[i])
    {
      pos := pos + 1;
    }
    WordAt(path, from, pos);
  }

  /** The component that begins at a position of a path and goes to the next separator. */
  lemma WordAt(path: seq<Byte>, from: nat, pos: nat)
    requires from < pos <= |path| && (pos < |path| ==> IsSeparator(path[pos]))
    requires forall i | from <= i < pos :: !IsSeparator(path[i])
    ensures Components(path[from..]) == [path[from..pos]] + Components(path[pos..])
  {
    hide WordLength, Components;
    var rest, n := path[from..], pos - from;
    assert forall i | 0 <= i < |rest| :: rest[i] == path[from + i];
    WordLengthIs(rest, n);
    FirstComponent(rest);
    assert rest[..n] == path[from..pos] && rest[n..] == path[pos..];
  }

  method FindEntry(entries: seq<DirEntry>, name: seq<Byte>) returns (found: Option<DirEntry>)
    ensures found == Find(entries, name)
  {
    var k := 0;
    while k < |entries|
      invariant 0 <= k <= |entries|
      invariant Find(entries, name) == Find(entries[k..], name)
    {
      if SameName(entries[k].name, name) {
        return Some(entries[k]);
      }
      assert entries[k..][1..] == entries[k + 1..];
      k := k + 1;
    }
    return None;
  }

  // ----- the resolvers

  /** isoQueryIsoEntryFromPath: the entry at the end of the path. */
  method QueryIsoEntryFromPath(vol: Volume, path: seq<Byte>) returns (result: Option<DirEntry>)
    ensures result == Walk(ReaderOf(vol), RootEntry(vol), Components(path))
  {
    ghost var rd, root, all := ReaderOf(vol), RootEntry(vol), Components(path);
    ghost var seen: seq<seq<Byte>> := [];
    var pos: nat, firstFound := 0, false;
    var temp := RootEntry(vol);
    assert path[0..] == path;
    assert Walk(rd, root, seen) == Some(temp);
    hide DirEntries, Walk, Components, Find;
    while true
      invariant pos <= |path| && (!firstFound ==> temp == root)
      invariant all == seen + Components(path[pos..])
      invariant Walk(rd, root, seen) == Some(temp)
      decreases |path| - pos
    {
      pos := SkipSeparators(path, pos);
      if pos == |path| {
        ComponentsOfNothing(path[pos..]);
        assert seen == all;
        if firstFound {
          break;
        }
        return Some(RootEntry(vol));
      }
      var end := NextSeparator(path, pos);
      var name := path[pos..end];
      var entries;
      if !firstFound {
        entries := GetDirEntries(vol, vol.rootExtent, vol.rootSize);
      } else {
        entries := GetDirEntries(vol, temp.extent, temp.size);
      }
      var entry := FindEntry(entries, name);
      ThreeParts(all, seen, name, Components(path[end..]));
      WalkOne(rd, root, seen, name);
      if entry.None? {
        WalkFails(rd, root, seen + [name], Components(path[end..]));
        return None;
      }
      temp, pos, firstFound, seen := entry.value, end, true, seen + [name];
    }
    return Some(temp);
  }

  lemma ComponentsOfNothing(path: seq<Byte>)
    requires path == []
    ensures Components(path) == []
  {
  }

  lemma WalkFails(rd: Reader, start: DirEntry, a: seq<seq<Byte>>, b: seq<seq<Byte>>)
    requires Walk(rd, start, a).None?
    ensures Walk(rd, start, a + b).None?
  {
    WalkConcat(rd, start, a, b);
  }

  lemma {:induction false} DirWalkFails(rd: Reader, start: DirEntry, a: seq<seq<Byte>>, b: seq<seq<Byte>>)
    requires DirWalk(rd, start, a).None?
    ensures DirWalk(rd, start, a + b).None?
  {
    if b == [] {
      assert a + b == a;
    } else {
      DirWalkFails(rd, start, a, b[..|b| - 1]);
      assert (a + b)[..|a + b| - 1] == a + b[..|b| - 1];
    }
  }

  /** What isoQueryDirExtentFromPath keeps between components: the extent of the directory it
      has reached, or zero for the root, and the size of that directory. Because zero stands
      for the root, a directory whose own extent is zero is left for the root again. */
  function ExtentWalk(rd: Reader, rootExtent: int, rootSize: int, names: seq<seq<Byte>>): Option<(int, int)> {
    if names == [] then Some((0, 0))
    else
      match ExtentWalk(rd, rootExtent, rootSize, names[..|names| - 1])
      case None => None
      case Some(at) =>
        var entries := if at.0 == 0 then rd(rootExtent, rootSize) else rd(at.0, at.1);
        match Find(entries, names[|names| - 1])
        case None => None
        case Some(e) => if e.isDir then Some((e.extent, e.size)) else None
  }

  lemma {:induction false} ExtentWalkFails(rd: Reader, rootExtent: int, rootSize: int,
                                           a: seq<seq<Byte>>, b: seq<seq<Byte>>)
    requires ExtentWalk(rd, rootExtent, rootSize, a).None?
    ensures ExtentWalk(rd, rootExtent, rootSize, a + b).None?
  {
    if b == [] {
      assert a + b == a;
    } else {
      ExtentWalkFails(rd, rootExtent, rootSize, a, b[..|b| - 1]);
      assert (a + b)[..|a + b| - 1] == a + b[..|b| - 1];
    }
  }

  lemma ExtentWalkOne(rd: Reader, rootExtent: int, rootSize: int, names: seq<seq<Byte>>, name: seq<Byte>)
    requires ExtentWalk(rd, rootExtent, rootSize, names).Some?
    ensures var at := ExtentWalk(rd, rootExtent, rootSize, names).value;
            var entries := if at.0 == 0 then rd(rootExtent, rootSize) else rd(at.0, at.1);
            ExtentWalk(rd, rootExtent, rootSize, names + [name]) ==
            match Find(entries, name)
            case None => None
            case Some(e) => if e.isDir then Some((e.extent, e.size)) else None
  {
    assert (names + [name])[..|names|] == names;
  }

  /** The extent of the directory at the end of the path, or 0; and what the resolver leaves
      in *pSize if the caller asks for a size and the path is resolved. */
  function DirExtent(rd: Reader, rootExtent: int, rootSize: int, path: seq<Byte>): (int, int) {
    match ExtentWalk(rd, rootExtent, rootSize, Components(path))
    case None => (0, 0)
    case Some(at) =>
      (if at.0 == 0 then rootExtent else at.0, if Components(path) == [] then rootSize else at.1)
  }

  /** isoQueryDirExtentFromPath, asked for the size as well. */
  method QueryDirExtentFromPath(vol: Volume, rootExtent: int, path: seq<Byte>)
    returns (extent: int, size: int)
    ensures (extent, size) == DirExtent(ReaderOf(vol), rootExtent, vol.rootSize, path)
  {
    ghost var rd, all := ReaderOf(vol), Components(path);
    ghost var seen: seq<seq<Byte>> := [];
    var pos: nat := 0;
    extent, size := 0, vol.rootSize;
    assert path[0..] == path;
    assert ExtentWalk(rd, rootExtent, vol.rootSize, seen) == Some((0, 0));
    hide DirEntries, ExtentWalk, Components, Find;
    while true
      invariant pos <= |path|
      invariant all == seen + Components(path[pos..])
      invariant ExtentWalk(rd, rootExtent, vol.rootSize, seen) ==
                Some((extent, if seen == [] then 0 else size))
      invariant seen == [] ==> extent == 0 && size == vol.rootSize
      decreases |path| - pos
    {
      pos := SkipSeparators(path, pos);
      if pos == |path| {
        ComponentsOfNothing(path[pos..]);
        assert seen == all;
        if extent == 0 {
          extent := rootExtent;
        }
        break;
      }
      var end := NextSeparator(path, pos);
      var name := path[pos..end];
      var entries;
      if extent == 0 {
        entries := GetDirEntries(vol, rootExtent, vol.rootSize);
      } else {
        entries := GetDirEntries(vol, extent, size);
      }
      var entry := FindEntry(entries, name);
      ThreeParts(all, seen, name, Components(path[end..]));
      ExtentWalkOne(rd, rootExtent, vol.rootSize, seen, name);
      if entry.None? || !entry.value.isDir {
        ExtentWalkFails(rd, rootExtent, vol.rootSize, seen + [name], Components(path[end..]));
        return 0, 0;
      }
      extent, size, pos, seen := entry.value.extent, entry.value.size, end, seen + [name];
    }
  }

  // ----- what the resolvers promise

  /** Repeating separators, in front of a path, between its parts or at its end, changes
      nothing for either resolver. */
  lemma SeparatorsIgnored(rd: Reader, root: DirEntry, a: seq<Byte>, seps: seq<Byte>, b: seq<Byte>)
    requires forall i | 0 <= i < |seps| :: IsSeparator(seps[i])
    requires b != [] ==> IsSeparator(b[0])
    ensures Walk(rd, root, Components(a + (seps + b))) == Walk(rd, root, Components(a + b))
    ensures Walk(rd, root, Components(seps + a)) == Walk(rd, root, Components(a))
    ensures DirExtent(rd, root.extent, root.size, a + (seps + b)) ==
            DirExtent(rd, root.extent, root.size, a + b)
    ensures DirExtent(rd, root.extent, root.size, seps + a) == DirExtent(rd, root.extent, root.size, a)
  {
    SeparatorsDoNotMatter(a, seps, b);
  }

  /** Resolving a path is resolving the prefix that splitPath splits off and looking up the
      last part in the directory found there. */
  lemma ResolveSplit(rd: Reader, root: DirEntry, full: seq<Byte>, prefix: seq<Byte>, last: seq<Byte>)
    requires IsSplit(full, prefix, last)
    ensures Walk(rd, root, Components(full)) ==
            match Walk(rd, root, Components(prefix))
            case None => None
            case Some(dir) => if last == [] then Some(dir) else Find(rd(dir.extent, dir.size), last)
  {
    SplitComponents(full, prefix, last);
    if last == [] {
      assert Components(full) == Components(prefix);
    } else {
      WalkOne(rd, root, Components(prefix), last);
    }
  }

  /** The part of a path up to its k-th component names a directory. */
  predicate NamesDirectory(rd: Reader, root: DirEntry, names: seq<seq<Byte>>, k: nat)
    requires k <= |names|
  {
    var e := Walk(rd, root, names[..k]);
    e.Some? && e.value.isDir
  }

  /** Every part of the path, the root and the whole included, names a directory. */
  predicate AllDirectories(rd: Reader, root: DirEntry, names: seq<seq<Byte>>) {
    forall k: nat | k <= |names| :: NamesDirectory(rd, root, names, k)
  }

  /** No directory reached through directories on the way has extent 0. */
  ghost predicate NoZeroExtent(rd: Reader, root: DirEntry, names: seq<seq<Byte>>) {
    forall k: nat | 1 <= k <= |names| && DirWalk(rd, root, names[..k]).Some? ::
      DirWalk(rd, root, names[..k]).value.extent != 0
  }

  /** Walking through directories only succeeds exactly when every part of the path names a
      directory, and ends where any walk does. */
  lemma {:induction false} DirWalkExact(rd: Reader, root: DirEntry, names: seq<seq<Byte>>)
    requires root.isDir
    ensures DirWalk(rd, root, names).Some? <==> AllDirectories(rd, root, names)
    ensures DirWalk(rd, root, names).Some? ==>
              DirWalk(rd, root, names) == Walk(rd, root, names) && DirWalk(rd, root, names).value.isDir
  {
    assert names[..|names|] == names;
    if names != [] {
      var n := |names| - 1;
      DirWalkExact(rd, root, names[..n]);
      forall k: nat | k <= n
        ensures NamesDirectory(rd, root, names, k) <==> NamesDirectory(rd, root, names[..n], k)
      {
        assert names[..n][..k] == names[..k];
      }
      assert DirWalk(rd, root, names).Some? ==> NamesDirectory(rd, root, names, |names|);
      if AllDirectories(rd, root, names) {
        assert NamesDirectory(rd, root, names, n) && NamesDirectory(rd, root, names, |names|);
      }
    }
  }

  lemma {:induction false} ExtentWalkIsDirWalk(rd: Reader, root: DirEntry, names: seq<seq<Byte>>)
    requires root.isDir && NoZeroExtent(rd, root, names)
    ensures ExtentWalk(rd, root.extent, root.size, names) ==
            match DirWalk(rd, root, names)
            case None => None
            case Some(dir) => Some(if names == [] then (0, 0) else (dir.extent, dir.size))
  {
    if names != [] {
      var n := |names| - 1;
      var front := names[..n];
      NoZeroInFront(rd, root, names);
      ExtentWalkIsDirWalk(rd, root, front);
      if DirWalk(rd, root, front).Some? && front != [] {
        assert front == names[..n];
      }
    }
  }

  lemma NoZeroInFront(rd: Reader, root: DirEntry, names: seq<seq<Byte>>)
    requires names != [] && NoZeroExtent(rd, root, names)
    ensures NoZeroExtent(rd, root, names[..|names| - 1])
  {
    var front := names[..|names| - 1];
    forall k: nat | 1 <= k <= |front| && DirWalk(rd, root, front[..k]).Some?
      ensures DirWalk(rd, root, front[..k]).value.extent != 0
    {
      assert front[..k] == names[..k];
    }
  }

  /** The resolvers agree on the path: isoQueryDirExtentFromPath returns a non-zero extent
      exactly when every part of the path names a directory, and then isoQueryIsoEntryFromPath
      returns a directory with that extent and size. */
  predicate Agree(rd: Reader, root: DirEntry, path: seq<Byte>) {
    var at, e := DirExtent(rd, root.extent, root.size, path), Walk(rd, root, Components(path));
    && (at.0 != 0 <==> AllDirectories(rd, root, Components(path)))
    && (at.0 != 0 ==> e.Some? && e.value.isDir && (e.value.extent, e.value.size) == at)
  }

  /** Resolver agreement on one path: they agree if no directory reached through directories
      on the way has extent 0. */
  lemma ResolversAgree(rd: Reader, root: DirEntry, path: seq<Byte>)
    requires root.isDir && root.extent != 0 && NoZeroExtent(rd, root, Components(path))
    ensures Agree(rd, root, path)
  {
    var names := Components(path);
    ExtentWalkIsDirWalk(rd, root, names);
    DirWalkExact(rd, root, names);
    assert names[..|names|] == names;
    if DirWalk(rd, root, names).Some? {
      var e := DirWalk(rd, root, names).value;
      assert names != [] ==> e.extent != 0;
      assert DirExtent(rd, root.extent, root.size, path) == (e.extent, e.size);
    } else {
      assert DirExtent(rd, root.extent, root.size, path).0 == 0;
    }
  }

  /** They disagree on a path to a directory with extent 0, reached through directories with
      other extents: there, the second resolver answers with the extent of the root. */
  lemma ZeroDisagrees(rd: Reader, root: DirEntry, path: seq<Byte>)
    requires root.isDir && Components(path) != []
    requires var names := Components(path); NoZeroExtent(rd, root, names[..|names| - 1])
    requires var e := DirWalk(rd, root, Components(path)); e.Some? && e.value.extent == 0
    ensures !Agree(rd, root, path)
  {
    var names := Components(path);
    ExtentWalkToZero(rd, root, names);
    DirWalkExact(rd, root, names);
    hide ExtentWalk, DirWalk, Walk, AllDirectories, Components;
    assert DirExtent(rd, root.extent, root.size, path).0 == root.extent;
  }

  lemma ExtentWalkToZero(rd: Reader, root: DirEntry, names: seq<seq<Byte>>)
    requires root.isDir && names != [] && NoZeroExtent(rd, root, names[..|names| - 1])
    requires var e := DirWalk(rd, root, names); e.Some? && e.value.extent == 0
    ensures ExtentWalk(rd, root.extent, root.size, names) == Some((0, DirWalk(rd, root, names).value.size))
  {
    var front := names[..|names| - 1];
    ExtentWalkIsDirWalk(rd, root, front);
    if front != [] {
      assert front[..|front|] == front;
      assert DirWalk(rd, root, front).value.extent != 0;
    }
  }

  /** No path leads to a directory with extent 0 through directories; the empty path, which
      leads to the root, included. */
  ghost predicate NoDirectoryAtZero(rd: Reader, root: DirEntry) {
    forall path: seq<Byte> | DirWalk(rd, root, Components(path)).Some? ::
      DirWalk(rd, root, Components(path)).value.extent != 0
  }

  /** Resolver agreement, exactly: the resolvers agree on every path if and only if no
      directory that a path reaches through directories has extent 0. */
  lemma ResolversAgreeExactly(rd: Reader, root: DirEntry)
    requires root.isDir
    ensures (forall path :: Agree(rd, root, path)) <==> NoDirectoryAtZero(rd, root)
  {
    assert Components([]) == [];
    if NoDirectoryAtZero(rd, root) {
      assert DirWalk(rd, root, Components([])) == Some(root);
      forall path
        ensures Agree(rd, root, path)
      {
        NowhereOnTheWay(rd, root, Components(path), path);
        ResolversAgree(rd, root, path);
      }
    } else {
      var path: seq<Byte> :|
        var e := DirWalk(rd, root, Components(path)); e.Some? && e.value.extent == 0;
      var bad := FirstZero(rd, root, Components(path), path);
      assert !Agree(rd, root, bad);
    }
  }

  lemma NowhereOnTheWay(rd: Reader, root: DirEntry, names: seq<seq<Byte>>, path: seq<Byte>)
    requires names == Components(path) && NoDirectoryAtZero(rd, root)
    ensures NoZeroExtent(rd, root, names)
  {
    ComponentsAreWords(path);
    forall k: nat | 1 <= k <= |names| && DirWalk(rd, root, names[..k]).Some?
      ensures DirWalk(rd, root, names[..k]).value.extent != 0
    {
      ComponentsJoin(names[..k]);
      assert Components(Join(names[..k])) == names[..k];
    }
  }

  /** On the way to a directory with extent 0 there is a path the resolvers disagree on. */
  lemma {:induction false} FirstZero(rd: Reader, root: DirEntry, names: seq<seq<Byte>>, path: seq<Byte>)
    returns (bad: seq<Byte>)
    requires root.isDir && names == Components(path)
    requires var e := DirWalk(rd, root, names); e.Some? && e.value.extent == 0
    ensures !Agree(rd, root, bad)
    decreases |names|
  {
    bad := path;
    if names == [] {
      assert AllDirectories(rd, root, names) by { DirWalkExact(rd, root, names); }
    } else {
      var front := names[..|names| - 1];
      if NoZeroExtent(rd, root, front) {
        ZeroDisagrees(rd, root, path);
      } else {
        var k: nat :| 1 <= k <= |front| && DirWalk(rd, root, front[..k]).Some? &&
                      DirWalk(rd, root, front[..k]).value.extent == 0;
        ComponentsAreWords(path);
        ComponentsJoin(front[..k]);
        bad := FirstZero(rd, root, front[..k], Join(front[..k]));
      }
    }
  }

  // ----- paths through files

  /** The lookup as a tree of directories has it: every component on the way is a directory. */
  function Tree(rd: Reader, root: DirEntry, names: seq<seq<Byte>>): Option<DirEntry> {
    if names == [] then Some(root)
    else
      match DirWalk(rd, root, names[..|names| - 1])
      case None => None
      case Some(dir) => Step(rd, dir, names[|names| - 1])
  }

  /** No regular file that a path reaches through directories has data that, read as a
      directory, holds an entry some path can ask for. */
  ghost predicate NoEntryInFiles(rd: Reader, root: DirEntry) {
    forall path: seq<Byte>, word: seq<Byte> | IsWord(word) && NamesFile(rd, root, path) ::
      Step(rd, Tree(rd, root, Components(path)).value, word).None?
  }

  predicate NamesFile(rd: Reader, root: DirEntry, path: seq<Byte>) {
    var e := Tree(rd, root, Components(path));
    e.Some? && !e.value.isDir
  }

  lemma TreeOne(rd: Reader, root: DirEntry, names: seq<seq<Byte>>)
    requires names == [] ==> root.isDir
    ensures DirWalk(rd, root, names) ==
            match Tree(rd, root, names) case None => None case Some(e) => if e.isDir then Some(e) else None
  {
  }

  /** isoQueryIsoEntryFromPath looks names up in the data of files as well. What it finds is
      what the tree of directories has, on every path, if and only if no regular file reached
      through directories holds such an entry. */
  lemma WalkIsTreeExactly(rd: Reader, root: DirEntry)
    requires root.isDir
    ensures (forall path :: Walk(rd, root, Components(path)) == Tree(rd, root, Components(path))) <==>
            NoEntryInFiles(rd, root)
  {
    if NoEntryInFiles(rd, root) {
      forall path
        ensures Walk(rd, root, Components(path)) == Tree(rd, root, Components(path))
      {
        WalkIsTree(rd, root, Components(path), path);
      }
    } else {
      var path: seq<Byte>, word: seq<Byte> :| IsWord(word) && NamesFile(rd, root, path) &&
                                Step(rd, Tree(rd, root, Components(path)).value, word).Some?;
      var longer := EntryInFile(rd, root, path, word);
      if Walk(rd, root, Components(path)) == Tree(rd, root, Components(path)) {
        assert Walk(rd, root, Components(longer)) != Tree(rd, root, Components(longer));
      }
    }
  }

  lemma {:induction false} WalkIsTree(rd: Reader, root: DirEntry, names: seq<seq<Byte>>, path: seq<Byte>)
    requires root.isDir && NoEntryInFiles(rd, root) && names == Components(path)
    ensures Walk(rd, root, names) == Tree(rd, root, names)
    decreases |names|
  {
    if names != [] {
      var front, last := names[..|names| - 1], names[|names| - 1];
      ComponentsAreWords(path);
      ComponentsJoin(front);
      WalkIsTree(rd, root, front, Join(front));
      TreeOne(rd, root, front);
      assert IsWord(last);
      if NamesFile(rd, root, Join(front)) {
        assert Step(rd, Tree(rd, root, Components(Join(front))).value, last).None?;
      }
    }
  }

  /** An entry found in the data of a file is one component behind the file. */
  lemma EntryInFile(rd: Reader, root: DirEntry, path: seq<Byte>, word: seq<Byte>) returns (longer: seq<Byte>)
    requires root.isDir && IsWord(word) && NamesFile(rd, root, path)
    ensures Components(longer) == Components(path) + [word]
    ensures Tree(rd, root, Components(longer)).None?
    ensures Walk(rd, root, Components(path)) == Tree(rd, root, Components(path)) ==>
              Walk(rd, root, Components(longer)) == Step(rd, Tree(rd, root, Components(path)).value, word)
  {
    var names := Components(path);
    ComponentsAreWords(path);
    ComponentsJoin(names + [word]);
    longer := Join(names + [word]);
    TreeOne(rd, root, names);
    WalkOne(rd, root, names, word);
    assert (names + [word])[..|names|] == names;
  }

  // ----- an image with a path through a file

  /** An image of three sectors: an empty one, the root with a regular file F at 2, and the data
      of F, which are a directory record for G. */
  function TrapImage(): seq<Byte> {
    Zeros(2048) + EncodeSector(OneFile(70)) + EncodeSector(OneFile(71))
  }

  function OneFile(name: Byte): (rs: seq<Record>)
    ensures |EncodeRecords(rs)| == 34
  {
    var rs := [RecordFields(0, 2, 2048, [99, 1, 1, 0, 0, 0, 0], 0, 0, 0, 0, [name], [])];
    assert rs[1..] == [];
    rs
  }

  function TrapVolume(): Volume {
    Volume(TrapImage(), 0, None, 1, 2048, Zeros(9))
  }

  lemma TrapEntries()
    ensures var vol := TrapVolume();
            && DirEntries(vol, 1, 2048) == [Decoded(vol, OneFile(70)[0], 1)]
            && DirEntries(vol, 2, 2048) == [Decoded(vol, OneFile(71)[0], 2)]
  {
    hide EncodeSector, Decoded, OneFile, Sector, DirEntries;
    var vol, image := TrapVolume(), TrapImage();
    assert image[1 * 2048..2 * 2048] == EncodeSector(OneFile(70));
    assert image[2 * 2048..3 * 2048] == EncodeSector(OneFile(71));
    SectorAt(image, 1);
    SectorAt(image, 2);
    OneFileAt(vol, 1, 70);
    OneFileAt(vol, 2, 71);
  }

  lemma OneFileAt(vol: Volume, extent: int, name: Byte)
    requires Sector(vol.image, extent) == EncodeSector(OneFile(name))
    ensures DirEntries(vol, extent, 2048) == [Decoded(vol, OneFile(name)[0], extent)]
  {
    hide EncodeSector, Decoded, Sector;
    OneSector(vol, extent);
    SectorEntriesRoundTrip(vol, extent, OneFile(name));
    KeptOfOne(name);
  }

  lemma SectorAt(image: seq<Byte>, k: nat)
    requires (k + 1) * 2048 <= |image|
    ensures Sector(image, k) == image[k * 2048..(k + 1) * 2048]
  {
  }

  lemma KeptOfOne(name: Byte)
    ensures Kept(OneFile(name), 0) == OneFile(name)
  {
    assert OneFile(name)[1..] == [];
    KeptIsAll(OneFile(name), 0);
  }

  /** The names F and G, and the path "/F/G". */
  function TrapPath(): seq<Byte> {
    [SLASH, 70, SLASH, 71]
  }

  lemma TrapComponents()
    ensures Components(TrapPath()) == [[70], [71]]
  {
    var names: seq<seq<Byte>> := [[70], [71]];
    ComponentsJoin(names);
    assert names[..1] == [[70]] && [[70]][..0] == [];
    assert Join(names) == TrapPath();
  }

  /** On this image the path "/F/G" leads through the regular file F to a file G, which is no
      entry of any directory. */
  lemma FileMisleads()
    ensures var vol := TrapVolume();
            var rd, root, names := ReaderOf(vol), RootEntry(vol), Components(TrapPath());
            && Tree(rd, root, names[..1]).Some? && !Tree(rd, root, names[..1]).value.isDir
            && Tree(rd, root, names).None?
            && Walk(rd, root, names).Some? && !Walk(rd, root, names).value.isDir
            && !NoEntryInFiles(rd, root)
  {
    hide DirEntries, TrapImage, Components, Decoded;
    var vol := TrapVolume();
    var rd, root := ReaderOf(vol), RootEntry(vol);
    var f, g := Decoded(vol, OneFile(70)[0], 1), Decoded(vol, OneFile(71)[0], 2);
    TrapEntries();
    TrapDecoded();
    TrapComponents();
    TwoSteps(rd, root, f, g, [70], [71]);
    WalkIsTreeExactly(rd, root);
  }

  lemma TrapDecoded()
    ensures var f, g := Decoded(TrapVolume(), OneFile(70)[0], 1), Decoded(TrapVolume(), OneFile(71)[0], 2);
            && f.name == [70] && g.name == [71] && !f.isDir && !g.isDir && f.extent == 2 && f.size == 2048
  {
    hide TrapImage;
    CStringWhole([70]);
    CStringWhole([71]);
  }

  lemma TwoSteps(rd: Reader, root: DirEntry, f: DirEntry, g: DirEntry, first: seq<Byte>, second: seq<Byte>)
    requires rd(root.extent, root.size) == [f] && rd(f.extent, f.size) == [g]
    requires f.name == first && g.name == second && !f.isDir
    ensures var names := [first, second];
            && Walk(rd, root, names) == Some(g) && Tree(rd, root, names[..1]) == Some(f)
            && Tree(rd, root, names).None?
  {
    var names := [first, second];
    assert names[..1] == [first] && [first][..0] == [];
    assert SameName(f.name, first) && SameName(g.name, second);
    assert Step(rd, root, first) == Some(f) && Step(rd, f, second) == Some(g);
    assert Walk(rd, root, [first]) == Some(f);
    TreeOne(rd, root, [first]);
  }

  // ----- an image for which they disagree

  /** A record for a directory without padding or system use part. */
  function DirRecord(name: Byte, extent: int): Record
    requires 0 <= extent < 0x1_0000_0000
  {
    RecordFields(0, extent, 2048, [99, 1, 1, 0, 0, 0, 0], 2, 0, 0, 0, [name], [])
  }

  /** An image of three sectors: an empty directory at 0, the root at 1 with a directory A at 0
      and a directory B at 2, and another empty directory at 2. */
  function MisleadingImage(): seq<Byte> {
    Zeros(2048) + EncodeSector(MisleadingRoot()) + Zeros(2048)
  }

  function MisleadingRoot(): (rs: seq<Record>)
    ensures |EncodeRecords(rs)| == 68
  {
    var rs := [DirRecord(65, 0), DirRecord(66, 2)];
    assert rs[1..] == [DirRecord(66, 2)] && rs[1..][1..] == [];
    rs
  }

  function MisleadingVolume(): Volume {
    Volume(MisleadingImage(), 0, None, 1, 2048, Zeros(9))
  }

  lemma OneSector(vol: Volume, extent: int)
    ensures DirEntries(vol, extent, 2048) == SectorEntries(vol, extent)
  {
    hide SectorEntries;
    var parts := Parts(vol, extent, 1);
    assert parts[..0] == [];
    assert Flatten(parts) == [] + parts[0];
  }

  lemma MisleadingEntries()
    ensures var vol := MisleadingVolume();
            && DirEntries(vol, 0, 2048) == []
            && DirEntries(vol, 1, 2048) ==
               [Decoded(vol, DirRecord(65, 0), 1), Decoded(vol, DirRecord(66, 2), 1)]
  {
    hide EncodeSector, Decoded, DirRecord;
    var vol, rs := MisleadingVolume(), MisleadingRoot();
    OneSector(vol, 0);
    OneSector(vol, 1);
    MisleadingSectors();
    assert SectorEntries(vol, 0) == [];
    SectorEntriesRoundTrip(vol, 1, rs);
    assert Kept(rs, 0) == rs by { KeptOfRoot(); }
    assert rs == [DirRecord(65, 0), DirRecord(66, 2)];
  }

  lemma KeptOfRoot()
    ensures Kept(MisleadingRoot(), 0) == MisleadingRoot()
  {
    var rs := MisleadingRoot();
    assert Length(rs[0]) == 34;
    assert StartsInReach(rs[1..], 34);
    KeptIsAll(rs, 0);
  }

  lemma MisleadingSectors()
    ensures var vol := MisleadingVolume();
            && Sector(vol.image, 0)[0] == 0
            && Sector(vol.image, 1) == EncodeSector(MisleadingRoot())
  {
    hide EncodeSector;
    var image := MisleadingImage();
    assert image[2048..4096] == EncodeSector(MisleadingRoot());
    forall j | 0 <= j < 2048
      ensures Sector(image, 1)[j] == EncodeSector(MisleadingRoot())[j]
    {
      assert image[2048..4096][j] == image[2048 + j];
    }
  }

  lemma FindOfTwo(a: DirEntry, b: DirEntry)
    requires a.name == [65] && b.name == [66]
    ensures Find([a, b], [65]) == Some(a) && Find([a, b], [66]) == Some(b)
  {
    var abcA: seq<Byte>, abcB: seq<Byte> := [65], [66];
    assert ToLower(abcA[0]) != ToLower(abcB[0]);
    assert !SameName(a.name, abcB) && SameName(a.name, abcA) && SameName(b.name, abcB);
    assert [a, b][1..] == [b];
  }

  /** A directory with extent 0 misleads the second resolver: below it, it looks names up in
      the root again and finds what is not there. For the image above, "/A/B" is no path, and
      the second resolver finds the root's own B. */
  lemma ZeroExtentMisleads() returns (path: seq<Byte>)
    ensures var vol := MisleadingVolume();
            var rd, root := ReaderOf(vol), RootEntry(vol);
            && root.extent == 1 && Walk(rd, root, Components(path)).None?
            && DirExtent(rd, root.extent, root.size, path) == (2, 2048)
            && !Agree(rd, root, path)
  {
    hide DirEntries, MisleadingImage;
    var vol := MisleadingVolume();
    var rd, root := ReaderOf(vol), RootEntry(vol);
    var a, b := Decoded(vol, DirRecord(65, 0), 1), Decoded(vol, DirRecord(66, 2), 1);
    MisleadingEntries();
    CStringWhole([65]);
    CStringWhole([66]);
    path := [SLASH, 65, SLASH, 66];
    var names: seq<seq<Byte>> := [[65], [66]];
    assert Components(path) == names by {
      ComponentsJoin(names);
      assert names[..1] == [[65]] && [[65]][..0] == [];
      assert Join(names) == path;
    }
    assert names[..1] == [[65]] && [[65]][..0] == [];
    FindOfTwo(a, b);
    assert Walk(rd, root, [[65]]) == Some(a);
    assert ExtentWalk(rd, 1, 2048, [[65]]) == Some((0, 2048));
  }
}
