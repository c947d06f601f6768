/** Reading a directory of an ISO 9660 image: the numbers of section 7.3.3, the directory
    records of section 9.1 and their arrangement in sectors of section 6.8.1 of ECMA-119. */
module IsoDir {
  import opened Bytes
  import opened Os2

  /** A translation table from 16-bit characters to a code page: 256 pages, some missing. */
  type Page = p: seq<Byte> | |p| == 256 witness seq(256, _ => 0)
  type PageTable = t: seq<Option<Page>> | |t| == 256 witness seq(256, _ => None)

  /** An attached image: its bytes, the level of its 16-bit names (0 for 8-bit names), the
      translation table if one is loaded, and the root directory. */
  datatype Volume = Volume(
    image: seq<Byte>, ucsLevel: nat, nls: Option<PageTable>,
    rootExtent: int, rootSize: int, rootDate: seq<Byte>)

  /** A directory entry in memory. */
  datatype DirEntry = DirEntry(
    name: seq<Byte>, extent: int, size: int, isDir: bool, date: seq<Byte>,
    parentExtent: int, flags: bv32)

  // A sector has 2048 bytes; the structure the parser lays over a record has 71.
  const FILE_READONLY: bv32 := 0x01
  const FILE_DIRECTORY: bv32 := 0x10

  function AttrOf(isDir: bool): bv32 {
    if isDir then FILE_READONLY | FILE_DIRECTORY else FILE_READONLY
  }

  // ----- reading

  /** Sector k of the image; bytes outside the image read as zero. */
  function Sector(image: seq<Byte>, k: int): (s: seq<Byte>)
    ensures |s| == 2048
  {
    seq(2048, j requires 0 <= j < 2048 =>
      if 0 <= k * 2048 + j < |image| then image[k * 2048 + j] else 0)
  }

  /** The byte at position i of the buffer; bytes behind the buffer read as zero. */
  function At(buf: seq<Byte>, i: nat): Byte {
    if i < |buf| then buf[i] else 0
  }

  /** The unsigned number in the four bytes from position i, lowest first. */
  function Word(buf: seq<Byte>, i: nat): (v: int)
    ensures 0 <= v < 0x1_0000_0000
  {
    Num32([At(buf, i), At(buf, i + 1), At(buf, i + 2), At(buf, i + 3)])
  }

  /** n bytes of the buffer from position i; bytes behind the buffer read as zero. */
  function Field(buf: seq<Byte>, i: nat, n: nat): (f: seq<Byte>)
    ensures |f| == n
  {
    if i + n <= |buf| then buf[i..i + n]
    else if i < |buf| then buf[i..] + Zeros(i + n - |buf|)
    else Zeros(n)
  }

  function Zeros(n: nat): (z: seq<Byte>)
    ensures |z| == n && forall i | 0 <= i < n :: z[i] == 0
  {
    seq(n, _ => 0)
  }

  /** An identifier in the characters of the code page; a character without translation
      becomes zero. */
  function Translate(vol: Volume, ident: seq<Byte>): (r: seq<Byte>)
    ensures |r| <= |ident|
  {
    if vol.ucsLevel == 0 then ident
    else seq(|ident| / 2, j requires 0 <= j < |ident| / 2 => TranslateChar(vol.nls, ident[2 * j], ident[2 * j + 1]))
  }

  function TranslateChar(nls: Option<PageTable>, hi: Byte, lo: Byte): Byte {
    match nls
    case None => lo
    case Some(table) =>
      (match table[hi]
       case None => 0
       case Some(page) => page[lo])
  }

  /** The name of an entry: the two directory links have identifiers of one byte, any other
      identifier is translated and ends at the first zero. */
  function EntryName(vol: Volume, ident: seq<Byte>): (name: seq<Byte>)
    ensures NoNul(name) && |name| <= |ident| + 1
  {
    if ident == [0] then [DOT]
    else if ident == [1] then [DOT, DOT]
    else CString(Translate(vol, ident))
  }

  function ParseRecord(vol: Volume, buf: seq<Byte>, i: nat, parent: int): DirEntry {
    var isDir := IsDirFlag(At(buf, i + 25));
    DirEntry(
      EntryName(vol, Field(buf, i + 33, At(buf, i + 32))),
      Signed32(Word(buf, i + 2)), Signed32(Word(buf, i + 10)), isDir,
      Field(buf, i + 18, 9), parent, AttrOf(isDir))
  }

  /** Bit 1 of the file flags. */
  predicate IsDirFlag(flags: Byte) {
    (flags / 2) % 2 == 1
  }

  /** The entries the inner loop finds in a sector from position i on. */
  function ParseSector(vol: Volume, buf: seq<Byte>, i: nat, parent: int): seq<DirEntry>
    requires i + 71 <= 2048 == |buf|
    decreases 2048 - i
  {
    if buf[i] == 0 then []
    else if i + buf[i] + 71 > 2048 then [ParseRecord(vol, buf, i, parent)]
    else [ParseRecord(vol, buf, i, parent)] + ParseSector(vol, buf, i + buf[i], parent)
  }

  function SectorEntries(vol: Volume, extent: int): seq<DirEntry> {
    ParseSector(vol, Sector(vol.image, extent), 0, extent)
  }

  /** The number of sectors that len bytes take. */
  function SectorCount(len: int): (n: nat)
    ensures if n == 0 then len <= 0 else 2048 * (n - 1) < len <= 2048 * n
  {
    if len <= 0 then 0 else (len + 2047) / 2048
  }

  /** The parts one after the other. */
  function Flatten<T>(parts: seq<seq<T>>): seq<T> {
    if parts == [] then [] else Flatten(parts[..|parts| - 1]) + parts[|parts| - 1]
  }

  function Parts(vol: Volume, extent: int, count: nat): (parts: seq<seq<DirEntry>>)
    ensures |parts| == count
    ensures forall k | 0 <= k < count :: parts[k] == SectorEntries(vol, extent + k)
  {
    seq(count, k requires 0 <= k < count => SectorEntries(vol, extent + k))
  }

  /** The entries of the directory of len bytes that begins at the given extent. */
  function DirEntries(vol: Volume, extent: int, len: int): seq<DirEntry> {
    Flatten(Parts(vol, extent, SectorCount(len)))
  }

  method ReadSector(image: seq<Byte>, k: int, buffer: array<Byte>)
    requires buffer.Length == 2048
    modifies buffer
    ensures buffer[..] == Sector(image, k)
  {
    forall j | 0 <= j < 2048 {
      buffer[j] := if 0 <= k * 2048 + j < |image| then image[k * 2048 + j] else 0;
    }
  }

  method BuildName(vol: Volume, ident: seq<Byte>) returns (name: seq<Byte>)
    ensures name == EntryName(vol, ident)
  {
    if |ident| == 1 && ident[0] == 0 {
      return [DOT];
    }
    if |ident| == 1 && ident[0] == 1 {
      return [DOT, DOT];
    }
    var chars: seq<Byte> := [];
    if vol.ucsLevel == 0 {
      chars := ident;
    } else {
      for j := 0 to |ident| / 2
        invariant |chars| == j && chars == Translate(vol, ident)[..j]
      {
        var hi, lo := ident[2 * j], ident[2 * j + 1];
        var uc: Byte;
        if vol.nls.None? {
          uc := lo;
        } else if vol.nls.value[hi].None? {
          uc := 0;
        } else {
          uc := vol.nls.value[hi].value[lo];
        }
        chars := chars + [uc];
      }
    }
    name := CString(chars);
  }

  lemma Assoc<T>(a: seq<T>, b: seq<T>, c: seq<T>)
    ensures a + (b + c) == (a + b) + c
  {
  }

  method ReadRecord(vol: Volume, buf: seq<Byte>, i: nat, parent: int) returns (entry: DirEntry)
    ensures entry == ParseRecord(vol, buf, i, parent)
  {
    var name := BuildName(vol, Field(buf, i + 33, At(buf, i + 32)));
    var isDir := IsDirFlag(At(buf, i + 25));
    entry := DirEntry(
      name, Signed32(Word(buf, i + 2)), Signed32(Word(buf, i + 10)), isDir,
      Field(buf, i + 18, 9), parent, AttrOf(isDir));
  }

  /** The inner loop of getDirEntries: record after record of one sector. */
  method ScanSector(vol: Volume, buffer: array<Byte>, parent: int) returns (found: seq<DirEntry>)
    requires buffer.Length == 2048 && buffer[..] == Sector(vol.image, parent)
    ensures found == SectorEntries(vol, parent)
  {
    hide ParseRecord;
    var i: nat, more, buf := 0, true, buffer[..];
    ghost var rest := ParseSector(vol, buf, i, parent);
    found := [];
    while more
      invariant more ==> i + 71 <= 2048 && rest == ParseSector(vol, buf, i, parent)
      invariant !more ==> rest == []
      invariant ParseSector(vol, buf, 0, parent) == found + rest
      decreases more, 2048 - i
    {
      if buf[i] == 0 {
        more := false;
      } else {
        var entry := ReadRecord(vol, buf, i, parent);
        assert rest == [entry] + rest[1..];
        Assoc(found, [entry], rest[1..]);
        found, rest := found + [entry], rest[1..];
        i := i + buf[i];
        more := i + 71 <= 2048;
      }
    }
  }

  /** getDirEntries: sector after sector into one buffer. */
  method GetDirEntries(vol: Volume, extent: int, len: int) returns (entries: seq<DirEntry>)
    ensures entries == DirEntries(vol, extent, len)
  {
    hide SectorEntries;
    var buffer := new Byte[2048];
    var left, sector := len, extent;
    ghost var parts, k := Parts(vol, extent, SectorCount(len)), 0;
    entries := [];
    while left > 0
      invariant 0 <= k <= |parts| && sector == extent + k
      invariant left == len - 2048 * k
      invariant entries == Flatten(parts[..k])
    {
      ReadSector(vol.image, sector, buffer);
      var found := ScanSector(vol, buffer, sector);
      assert found == parts[k];
      assert parts[..k + 1][..k] == parts[..k];
      entries := entries + found;
      sector := sector + 1;
      left := left - 2048;
      k := k + 1;
    }
    assert parts[..k] == parts;
  }

  /** What is true of every entry that was parsed: its name is a string of at most 255
      characters, and its attributes are those of its kind. */
  predicate Parsed(e: DirEntry) {
    NoNul(e.name) && |e.name| <= 255 && |e.date| == 9 && e.flags == AttrOf(e.isDir)
  }

  lemma RecordParsed(vol: Volume, buf: seq<Byte>, i: nat, parent: int)
    ensures Parsed(ParseRecord(vol, buf, i, parent))
  {
    assert |EntryName(vol, Field(buf, i + 33, At(buf, i + 32)))| <= 255;
  }

  lemma {:induction false} SectorParsed(vol: Volume, buf: seq<Byte>, i: nat, parent: int)
    requires i + 71 <= 2048 == |buf|
    ensures forall e | e in ParseSector(vol, buf, i, parent) :: Parsed(e)
    decreases 2048 - i
  {
    if buf[i] != 0 {
      RecordParsed(vol, buf, i, parent);
      if i + buf[i] + 71 <= 2048 {
        SectorParsed(vol, buf, i + buf[i], parent);
      }
    }
  }

  lemma {:induction false} FlattenAll<T>(parts: seq<seq<T>>, p: T -> bool)
    requires forall k, x | 0 <= k < |parts| && x in parts[k] :: p(x)
    ensures forall x | x in Flatten(parts) :: p(x)
  {
    if parts != [] {
      FlattenAll(parts[..|parts| - 1], p);
    }
  }

  lemma SectorEntriesParsed(vol: Volume, extent: int)
    ensures forall e | e in SectorEntries(vol, extent) :: Parsed(e)
  {
    hide ParseRecord;
    SectorParsed(vol, Sector(vol.image, extent), 0, extent);
  }

  /** So it is of every entry of a directory. */
  lemma EntriesParsed(vol: Volume, extent: int, len: int)
    ensures forall e | e in DirEntries(vol, extent, len) :: Parsed(e)
  {
    hide SectorEntries;
    var parts := Parts(vol, extent, SectorCount(len));
    forall k, e | 0 <= k < |parts| && e in parts[k]
      ensures Parsed(e)
    {
      SectorEntriesParsed(vol, extent + k);
    }
    FlattenAll(parts, Parsed);
  }

  // ----- writing a directory as ECMA-119 lays it out

  /** A directory record (section 9.1): tail is the padding and the system use part. */
  datatype RecordFields = RecordFields(
    extAttr: Byte, extent: int, size: int, date: seq<Byte>, flags: Byte, unit: Byte, gap: Byte,
    volume: int, ident: seq<Byte>, tail: seq<Byte>)

  type Record = r: RecordFields |
    && 0 <= r.extent < 0x1_0000_0000 && 0 <= r.size < 0x1_0000_0000
    && |r.date| == 7 && 33 + |r.ident| + |r.tail| <= 255
    witness RecordFields(0, 0, 0, [0, 0, 0, 0, 0, 0, 0], 0, 0, 0, 0, [0], [])

  function Length(r: Record): (n: nat)
    ensures 33 <= n <= 255
  {
    33 + |r.ident| + |r.tail|
  }

  /** A 32-bit number in both byte orders (section 7.3.3). */
  function Both32(v: int): (s: seq<Byte>)
    ensures |s| == 8
  {
    var le := LE32(v);
    le + [le[3], le[2], le[1], le[0]]
  }

  function Both16(v: int): (s: seq<Byte>)
    ensures |s| == 4
  {
    var le := LE16(v);
    le + [le[1], le[0]]
  }

  function Header(r: Record): (s: seq<Byte>)
    ensures |s| == 33
  {
    [Length(r), r.extAttr] + Both32(r.extent) + Both32(r.size) + r.date +
    [r.flags, r.unit, r.gap] + Both16(r.volume) + [|r.ident|]
  }

  function EncodeRecord(r: Record): (s: seq<Byte>)
    ensures |s| == Length(r)
  {
    Header(r) + r.ident + r.tail
  }

  function EncodeRecords(rs: seq<Record>): (s: seq<Byte>) {
    if rs == [] then [] else EncodeRecord(rs[0]) + EncodeRecords(rs[1..])
  }

  /** The records one after the other, then zeros to the end of the sector (section 6.8.1). */
  function EncodeSector(rs: seq<Record>): (s: seq<Byte>)
    requires |EncodeRecords(rs)| <= 2048
    ensures |s| == 2048
  {
    EncodeRecords(rs) + Zeros(2048 - |EncodeRecords(rs)|)
  }

  /** The sectors of the image from `extent` on hold the records, grouped as given. */
  predicate LaidOut(image: seq<Byte>, extent: int, sectors: seq<seq<Record>>) {
    forall k | 0 <= k < |sectors| ::
      |EncodeRecords(sectors[k])| <= 2048 &&
      Sector(image, extent + k) == EncodeSector(sectors[k])
  }

  function Decoded(vol: Volume, r: Record, parent: int): DirEntry {
    var isDir := IsDirFlag(r.flags);
    DirEntry(EntryName(vol, r.ident), Signed32(r.extent), Signed32(r.size),
             isDir, r.date + [r.flags, r.unit], parent, AttrOf(isDir))
  }

  function DecodedAll(vol: Volume, rs: seq<Record>, parent: int): (es: seq<DirEntry>)
    ensures |es| == |rs| && forall i | 0 <= i < |rs| :: es[i] == Decoded(vol, rs[i], parent)
  {
    seq(|rs|, i requires 0 <= i < |rs| => Decoded(vol, rs[i], parent))
  }

  function ExpectedParts(vol: Volume, extent: int, sectors: seq<seq<Record>>): (parts: seq<seq<DirEntry>>)
    ensures |parts| == |sectors|
    ensures forall k | 0 <= k < |sectors| :: parts[k] == DecodedAll(vol, sectors[k], extent + k)
  {
    seq(|sectors|, k requires 0 <= k < |sectors| => DecodedAll(vol, sectors[k], extent + k))
  }

  /** The entries of a whole directory, sector by sector. */
  function Expected(vol: Volume, extent: int, sectors: seq<seq<Record>>): seq<DirEntry> {
    Flatten(ExpectedParts(vol, extent, sectors))
  }

  /** The records of a sector, the first of them at position i, up to the first that begins
      behind position 2048 - 71. */
  function Kept(rs: seq<Record>, i: nat): (kept: seq<Record>)
    ensures kept <= rs
  {
    if rs == [] || i + 71 > 2048 then []
    else
      assert [rs[0]] + rs[1..] == rs;
      [rs[0]] + Kept(rs[1..], i + Length(rs[0]))
  }

  function KeptOfAll(sectors: seq<seq<Record>>): (kept: seq<seq<Record>>)
    ensures |kept| == |sectors| && forall k | 0 <= k < |sectors| :: kept[k] == Kept(sectors[k], 0)
  {
    seq(|sectors|, k requires 0 <= k < |sectors| => Kept(sectors[k], 0))
  }

  /** Every record begins early enough in its sector for the parser to look at it. */
  predicate StartsInReach(rs: seq<Record>, i: nat) {
    rs == [] || (i + 71 <= 2048 && StartsInReach(rs[1..], i + Length(rs[0])))
  }

  predicate AllInReach(sectors: seq<seq<Record>>) {
    forall k | 0 <= k < |sectors| :: StartsInReach(sectors[k], 0)
  }

  lemma {:induction false} KeptIsAll(rs: seq<Record>, i: nat)
    ensures |Kept(rs, i)| == |rs| <==> StartsInReach(rs, i)
  {
    if rs != [] {
      KeptIsAll(rs[1..], i + Length(rs[0]));
    }
  }

  // ----- the round trip

  lemma HeaderFields(r: Record)
    ensures var rec := EncodeRecord(r);
            && rec[0] == Length(r) && rec[25] == r.flags && rec[32] == |r.ident|
            && [rec[2], rec[3], rec[4], rec[5]] == LE32(r.extent)
            && [rec[10], rec[11], rec[12], rec[13]] == LE32(r.size)
            && rec[18..27] == r.date + [r.flags, r.unit]
            && rec[33..33 + |r.ident|] == r.ident
  {
  }

  lemma SliceOfSlice(s: seq<Byte>, i: nat, j: nat, a: nat, b: nat)
    requires a <= b && i + b <= j <= |s|
    ensures s[i..j][a..b] == s[i + a..i + b]
  {
    var inner, outer := s[i..j][a..b], s[i + a..i + b];
    forall k | 0 <= k < b - a
      ensures inner[k] == outer[k]
    {
      assert inner[k] == s[i..j][a + k] == s[i + (a + k)];
    }
  }

  lemma FieldsOf(buf: seq<Byte>, i: nat, r: Record)
    requires i + Length(r) <= |buf| && buf[i..i + Length(r)] == EncodeRecord(r)
    ensures buf[i] == Length(r) && At(buf, i + 25) == r.flags && At(buf, i + 32) == |r.ident|
    ensures Word(buf, i + 2) == r.extent && Word(buf, i + 10) == r.size
    ensures Field(buf, i + 18, 9) == r.date + [r.flags, r.unit]
    ensures Field(buf, i + 33, |r.ident|) == r.ident
  {
    hide EncodeRecord, LE32, Num32;
    var rec := EncodeRecord(r);
    HeaderFields(r);
    assert forall j | 0 <= j < |rec| :: buf[i + j] == rec[j] by {
      assert forall j | 0 <= j < |rec| :: buf[i..i + |rec|][j] == rec[j];
    }
    Num32LE32(r.extent);
    Num32LE32(r.size);
    SliceOfSlice(buf, i, i + |rec|, 18, 27);
    SliceOfSlice(buf, i, i + |rec|, 33, 33 + |r.ident|);
  }

  /** Parsing an encoded record gives back what was encoded. */
  lemma RecordRoundTrip(vol: Volume, buf: seq<Byte>, i: nat, r: Record, parent: int)
    requires i + Length(r) <= |buf| && buf[i..i + Length(r)] == EncodeRecord(r)
    ensures ParseRecord(vol, buf, i, parent) == Decoded(vol, r, parent)
    ensures buf[i] == Length(r)
  {
    FieldsOf(buf, i, r);
  }

  /** A buffer that holds records from position i on holds the first of them there, and the
      others behind it. */
  lemma FirstRecord(buf: seq<Byte>, i: nat, rs: seq<Record>)
    requires rs != [] && i + |EncodeRecords(rs)| <= |buf|
    requires buf[i..i + |EncodeRecords(rs)|] == EncodeRecords(rs)
    ensures var n := Length(rs[0]);
            && i + n + |EncodeRecords(rs[1..])| == i + |EncodeRecords(rs)|
            && buf[i] == n && buf[i..i + n] == EncodeRecord(rs[0])
            && buf[i + n..i + |EncodeRecords(rs)|] == EncodeRecords(rs[1..])
  {
    var n, all := Length(rs[0]), EncodeRecords(rs);
    assert all[..n] == EncodeRecord(rs[0]) && all[n..] == EncodeRecords(rs[1..]);
    CutSlice(buf, i, n, i + |all|);
    assert buf[i] == all[0] == EncodeRecord(rs[0])[0];
  }

  lemma CutSlice(s: seq<Byte>, i: nat, n: nat, j: nat)
    requires i + n <= j <= |s|
    ensures s[i..j][..n] == s[i..i + n] && s[i..j][n..] == s[i + n..j]
  {
  }

  /** Parsing a sector gives the records that begin in reach, in order. */
  lemma {:induction false} SectorRoundTrip(vol: Volume, buf: seq<Byte>, i: nat, rs: seq<Record>, parent: int)
    requires |buf| == 2048 && i + 71 <= 2048
    requires i + |EncodeRecords(rs)| <= 2048
    requires buf[i..i + |EncodeRecords(rs)|] == EncodeRecords(rs)
    requires i + |EncodeRecords(rs)| < 2048 ==> buf[i + |EncodeRecords(rs)|] == 0
    ensures ParseSector(vol, buf, i, parent) == DecodedAll(vol, Kept(rs, i), parent)
    decreases |rs|
  {
    hide ParseRecord, Decoded, EncodeRecord;
    if rs != [] {
      var n := Length(rs[0]);
      FirstRecord(buf, i, rs);
      RecordRoundTrip(vol, buf, i, rs[0], parent);
      if i + n + 71 <= 2048 {
        SectorRoundTrip(vol, buf, i + n, rs[1..], parent);
      }
      DecodedAllCons(vol, rs[0], Kept(rs[1..], i + n), parent);
    }
  }

  lemma DecodedAllCons(vol: Volume, r: Record, rs: seq<Record>, parent: int)
    ensures DecodedAll(vol, [r] + rs, parent) == [Decoded(vol, r, parent)] + DecodedAll(vol, rs, parent)
  {
  }

  lemma SectorEntriesRoundTrip(vol: Volume, extent: int, rs: seq<Record>)
    requires |EncodeRecords(rs)| <= 2048 && Sector(vol.image, extent) == EncodeSector(rs)
    ensures SectorEntries(vol, extent) == DecodedAll(vol, Kept(rs, 0), extent)
  {
    hide ParseRecord, Decoded, EncodeRecord;
    var buf := Sector(vol.image, extent);
    assert buf[0..0 + |EncodeRecords(rs)|] == EncodeRecords(rs);
    SectorRoundTrip(vol, buf, 0, rs, extent);
  }

  lemma SectorsOf(len: int, n: nat)
    requires len <= 2048 * n && (n > 0 ==> 2048 * (n - 1) < len)
    ensures SectorCount(len) == n
  {
  }

  /** What getDirEntries returns for any directory laid out by the standard over any number
      of sectors: of every sector, the records that begin at most 2048 - 71 bytes into it. */
  lemma ReadsLayout(vol: Volume, extent: int, len: int, sectors: seq<seq<Record>>)
    requires LaidOut(vol.image, extent, sectors) && len <= 2048 * |sectors|
    requires sectors != [] ==> 2048 * (|sectors| - 1) < len
    ensures DirEntries(vol, extent, len) == Expected(vol, extent, KeptOfAll(sectors))
  {
    hide SectorEntries, DecodedAll, Kept, EncodeSector, SectorCount;
    SectorsOf(len, |sectors|);
    var parts, expected := Parts(vol, extent, |sectors|), ExpectedParts(vol, extent, KeptOfAll(sectors));
    forall k | 0 <= k < |sectors|
      ensures parts[k] == expected[k]
    {
      assert Sector(vol.image, extent + k) == EncodeSector(sectors[k]);
      SectorEntriesRoundTrip(vol, extent + k, sectors[k]);
    }
    assert parts == expected;
  }

  /** The directory parse round trip. getDirEntries returns exactly the entries that were
      laid out, in order, if and only if every record begins at most 2048 - 71 bytes into its
      sector; the standard allows later ones, which the parser never looks at. */
  lemma ReadsExactly(vol: Volume, extent: int, len: int, sectors: seq<seq<Record>>)
    requires LaidOut(vol.image, extent, sectors) && len <= 2048 * |sectors|
    requires sectors != [] ==> 2048 * (|sectors| - 1) < len
    ensures DirEntries(vol, extent, len) == Expected(vol, extent, sectors) <==> AllInReach(sectors)
  {
    ReadsLayout(vol, extent, len, sectors);
    var kept := KeptOfAll(sectors);
    forall k | 0 <= k < |sectors|
      ensures if StartsInReach(sectors[k], 0) then kept[k] == sectors[k] else |kept[k]| < |sectors[k]|
    {
      KeptIsAll(sectors[k], 0);
    }
    if AllInReach(sectors) {
      assert kept == sectors;
    } else {
      var k :| 0 <= k < |sectors| && !StartsInReach(sectors[k], 0);
      FlattenShorter(ExpectedParts(vol, extent, kept), ExpectedParts(vol, extent, sectors), k);
    }
  }

  /** How many elements there are in the parts together. */
  function Total<T>(parts: seq<seq<T>>): nat {
    if parts == [] then 0 else Total(parts[..|parts| - 1]) + |parts[|parts| - 1]|
  }

  /** The parts follow each other in order. */
  lemma {:induction false} FlattenAt<T>(parts: seq<seq<T>>, k: nat, i: nat)
    requires k < |parts| && i < |parts[k]|
    ensures Total(parts[..k]) + i < |Flatten(parts)| == Total(parts)
    ensures Flatten(parts)[Total(parts[..k]) + i] == parts[k][i]
  {
    var n := |parts| - 1;
    FlattenLength(parts);
    FlattenLength(parts[..n]);
    if k < n {
      FlattenAt(parts[..n], k, i);
      assert parts[..n][..k] == parts[..k];
    }
  }

  lemma {:induction false} FlattenLength<T>(parts: seq<seq<T>>)
    ensures |Flatten(parts)| == Total(parts)
  {
    if parts != [] {
      FlattenLength(parts[..|parts| - 1]);
    }
  }

  /** What is found, entry by entry: with every record in reach there are as many entries as
      records, and the i-th record of the k-th sector is behind those of the sectors before
      and those before it in its own, with the name, extent, size and kind it was given. */
  lemma {:induction false} EntryAt(vol: Volume, extent: int, len: int, sectors: seq<seq<Record>>, k: nat, i: nat)
    requires LaidOut(vol.image, extent, sectors) && AllInReach(sectors) && len <= 2048 * |sectors|
    requires k < |sectors| && i < |sectors[k]| && 2048 * (|sectors| - 1) < len
    ensures var es, r := DirEntries(vol, extent, len), sectors[k][i];
            && Total(sectors[..k]) + i < |es| == Total(sectors)
            && var e := es[Total(sectors[..k]) + i];
               && e.name == EntryName(vol, r.ident) && e.isDir == IsDirFlag(r.flags)
               && e.extent == Signed32(r.extent) && e.size == Signed32(r.size)
  {
    hide LaidOut, AllInReach, DirEntries, EntryName, Flatten;
    ReadsExactly(vol, extent, len, sectors);
    var parts := ExpectedParts(vol, extent, sectors);
    FlattenAt(parts, k, i);
    SameTotal(parts, sectors);
    SameTotal(parts[..k], sectors[..k]);
  }

  lemma {:induction false} SameTotal<S, T>(a: seq<seq<S>>, b: seq<seq<T>>)
    requires |a| == |b| && forall k | 0 <= k < |a| :: |a[k]| == |b[k]|
    ensures Total(a) == Total(b)
  {
    if a != [] {
      SameTotal(a[..|a| - 1], b[..|b| - 1]);
    }
  }

  /** In reach means: the records in front of each take at most 1977 bytes of its sector. */
  lemma {:induction false} InReachExactly(rs: seq<Record>, i: nat)
    ensures StartsInReach(rs, i) <==> forall k | 0 <= k < |rs| :: i + |EncodeRecords(rs[..k])| <= 1977
  {
    hide EncodeRecord;
    if rs != [] {
      var n := Length(rs[0]);
      InReachExactly(rs[1..], i + n);
      assert rs[..0] == [];
      forall k | 0 < k < |rs|
        ensures |EncodeRecords(rs[..k])| == n + |EncodeRecords(rs[1..][..k - 1])|
      {
        assert rs[..k][1..] == rs[1..][..k - 1];
      }
      if forall k | 0 <= k < |rs| :: i + |EncodeRecords(rs[..k])| <= 1977 {
        forall k | 0 <= k < |rs[1..]|
          ensures i + n + |EncodeRecords(rs[1..][..k])| <= 1977
        {
          assert i + |EncodeRecords(rs[..k + 1])| <= 1977;
        }
        assert i + |EncodeRecords(rs[..0])| <= 1977;
      }
    }
  }

  /** A record of 248 bytes, as a long name or a system use part makes it, and a short one. */
  function LongRecord(name: Byte): (r: Record)
    ensures Length(r) == 248
  {
    RecordFields(0, 20, 2048, [99, 1, 1, 0, 0, 0, 0], 0, 0, 0, 0, [name], Zeros(214))
  }

  function ShortRecord(name: Byte): (r: Record)
    ensures Length(r) == 34
  {
    RecordFields(0, 20, 2048, [99, 1, 1, 0, 0, 0, 0], 0, 0, 0, 0, [name], [])
  }

  /** Eight long records and a short one, which begins at byte 1984 of the sector. */
  function CrowdedSector(): (rs: seq<Record>)
    ensures |rs| == 9 && rs[8] == ShortRecord(73) && forall k | 0 <= k < 8 :: rs[k] == LongRecord(65 + k)
  {
    seq(8, k requires 0 <= k < 8 => LongRecord(65 + k)) + [ShortRecord(73)]
  }

  lemma {:induction false} LongRecordsFirst(rs: seq<Record>, n: nat, i: nat)
    requires n < |rs| && forall k | 0 <= k < n :: Length(rs[k]) == 248
    ensures |EncodeRecords(rs)| == 248 * n + |EncodeRecords(rs[n..])|
    ensures StartsInReach(rs, i) ==> i + 248 * n + 71 <= 2048
  {
    if n == 0 {
      assert rs[0..] == rs;
    } else {
      LongRecordsFirst(rs[1..], n - 1, i + 248);
      assert rs[1..][n - 1..] == rs[n..];
    }
  }

  /** A sector of an image, laid out by the standard, the last record of which is not read. */
  lemma LateRecord() returns (vol: Volume, sectors: seq<seq<Record>>)
    ensures LaidOut(vol.image, 0, sectors) && |sectors| == 1
    ensures !AllInReach(sectors) && DirEntries(vol, 0, 2048) != Expected(vol, 0, sectors)
  {
    hide EncodeRecords, EncodeSector, CrowdedSector, StartsInReach, Sector, DirEntries, Expected;
    var rs := CrowdedSector();
    CrowdedTooFar();
    sectors := [rs];
    vol := Volume(EncodeSector(rs), 0, None, 0, 2048, Zeros(9));
    OnlySector(EncodeSector(rs));
    assert !StartsInReach(sectors[0], 0);
    ReadsExactly(vol, 0, 2048, sectors);
  }

  lemma CrowdedTooFar()
    ensures var rs := CrowdedSector(); |EncodeRecords(rs)| == 2018 && !StartsInReach(rs, 0)
  {
    hide EncodeRecord, LongRecord, ShortRecord;
    var rs := CrowdedSector();
    LongRecordsFirst(rs, 8, 0);
    assert rs[8..] == [ShortRecord(73)] && rs[8..][1..] == [];
  }

  lemma OnlySector(image: seq<Byte>)
    requires |image| == 2048
    ensures Sector(image, 0) == image
  {
  }

  lemma {:induction false} FlattenShorter<T>(a: seq<seq<T>>, b: seq<seq<T>>, k: nat)
    requires |a| == |b| && k < |a| && |a[k]| < |b[k]|
    requires forall i | 0 <= i < |a| :: |a[i]| <= |b[i]|
    ensures |Flatten(a)| < |Flatten(b)|
  {
    var n := |a| - 1;
    if k < n {
      FlattenShorter(a[..n], b[..n], k);
    } else {
      FlattenNotLonger(a[..n], b[..n]);
    }
  }

  lemma {:induction false} FlattenNotLonger<T>(a: seq<seq<T>>, b: seq<seq<T>>)
    requires |a| == |b| && forall i | 0 <= i < |a| :: |a[i]| <= |b[i]|
    ensures |Flatten(a)| <= |Flatten(b)|
  {
    if a != [] {
      FlattenNotLonger(a[..|a| - 1], b[..|b| - 1]);
    }
  }

  // ----- names

  /** A name is read in full exactly when none of its characters translates to zero. */
  lemma NameInFull(vol: Volume, ident: seq<Byte>)
    requires ident != [0] && ident != [1]
    ensures EntryName(vol, ident) == Translate(vol, ident) <==> 0 !in Translate(vol, ident)
  {
    if 0 !in Translate(vol, ident) {
      CStringWhole(Translate(vol, ident));
    }
  }

  /** A name of 8-bit characters as a Joliet identifier, two bytes to the character, the high
      one first. */
  function Wide(name: seq<Byte>): (ident: seq<Byte>)
    ensures |ident| == 2 * |name|
  {
    seq(2 * |name|, i requires 0 <= i < 2 * |name| => if i % 2 == 0 then 0 else name[i / 2])
  }

  lemma WideAt(name: seq<Byte>, j: nat)
    requires j < |name|
    ensures Wide(name)[2 * j + 1] == name[j]
  {
    assert (2 * j + 1) / 2 == j && (2 * j + 1) % 2 == 1;
  }

  /** Without a translation table such names are read back unchanged. */
  lemma WideRoundTrip(vol: Volume, name: seq<Byte>)
    requires vol.ucsLevel > 0 && vol.nls.None? && NoNul(name)
    ensures EntryName(vol, Wide(name)) == name
  {
    hide Wide, CString;
    var ident := Wide(name);
    forall j | 0 <= j < |name|
      ensures Translate(vol, ident)[j] == name[j]
    {
      WideAt(name, j);
    }
    assert Translate(vol, ident) == name;
    CStringWhole(name);
  }

  /** The first two entries of a directory are itself and its parent; anything else is named by
      its identifier, if names have 8 bits. */
  lemma NamesOfEntries(vol: Volume, ident: seq<Byte>)
    ensures EntryName(vol, [0]) == [46] && EntryName(vol, [1]) == [46, 46]
    ensures vol.ucsLevel == 0 && NoNul(ident) && ident != [1] ==> EntryName(vol, ident) == ident
  {
    if NoNul(ident) {
      CStringWhole(ident);
    }
  }

  /** The attributes of an entry: read-only, the directory bit exactly for directories, and no
      other. */
  lemma AttributeBits(isDir: bool)
    ensures AttrOf(isDir) == if isDir then 0x11 else 0x01
  {
  }

  /** The flag for directories is the one of value 2 (section 9.1.6 of ECMA-119). */
  lemma DirectoryFlag(flags: Byte)
    ensures IsDirFlag(flags) <==> flags as bv8 & 2 != 0
  {
  }

  /** Each character of the name is where the table has the two bytes of the identifier: on the
      page of the high byte, which comes first, at the low byte. */
  predicate NamedThrough(table: PageTable, ident: seq<Byte>, name: seq<Byte>) {
    && |ident| == 2 * |name|
    && forall j | 0 <= j < |name| ::
         table[ident[2 * j]].Some? && table[ident[2 * j]].value[ident[2 * j + 1]] == name[j]
  }

  /** Names are read back through a translation table. */
  lemma TableRoundTrip(vol: Volume, table: PageTable, ident: seq<Byte>, name: seq<Byte>)
    requires vol.ucsLevel > 0 && vol.nls == Some(table) && NamedThrough(table, ident, name) && NoNul(name)
    ensures EntryName(vol, ident) == name
  {
    hide CString;
    forall j | 0 <= j < |name|
      ensures Translate(vol, ident)[j] == name[j]
    {
    }
    assert Translate(vol, ident) == name;
    CStringWhole(name);
  }

  /** A character on a page that is missing ends the name. */
  lemma MissingPageEndsName(vol: Volume, table: PageTable, ident: seq<Byte>, name: seq<Byte>, hi: Byte, lo: Byte)
    requires vol.ucsLevel > 0 && vol.nls == Some(table) && NamedThrough(table, ident, name) && NoNul(name)
    requires table[hi].None?
    ensures EntryName(vol, ident + [hi, lo]) == name
  {
    hide CString;
    var longer := ident + [hi, lo];
    forall j | 0 <= j < |name|
      ensures Translate(vol, longer)[j] == name[j]
    {
    }
    assert Translate(vol, longer) == name + [0];
    CStringEnds(name);
  }

  lemma {:induction false} CStringEnds(s: seq<Byte>)
    requires NoNul(s)
    ensures CString(s + [0]) == s
  {
    if s != [] {
      CStringEnds(s[1..]);
      assert (s + [0])[1..] == s[1..] + [0];
    }
  }
}
