/** The volume descriptors of an image (section 8 of ECMA-119): finding the one with 16-bit
    names and the root directory it names. */
module Descriptors {
  import opened Bytes
  import opened Os2
  import opened IsoDir

  /** The descriptor `block` sectors behind the first one. */
  function Descriptor(image: seq<Byte>, offset: nat, block: nat): (d: seq<Byte>)
    ensures |d| == 2048
  {
    Sector(image, 16 + block + offset)
  }

  /** The set terminator. */
  predicate IsEnd(d: seq<Byte>)
    requires |d| == 2048
  {
    d[0] == 255
  }

  /** A supplementary descriptor with one of the three escape sequences for 16-bit names. */
  predicate IsJoliet(d: seq<Byte>)
    requires |d| == 2048
  {
    d[0] == 2 && d[88] == 37 && d[89] == 47 && d[91] == 0 && d[90] in {64, 67, 69}
  }

  predicate Stops(image: seq<Byte>, offset: nat, block: nat) {
    IsEnd(Descriptor(image, offset, block)) || IsJoliet(Descriptor(image, offset, block))
  }

  function UcsLevel(d: seq<Byte>): nat
    requires |d| == 2048
  {
    if d[90] == 64 then 1 else if d[90] == 67 then 2 else if d[90] == 69 then 3 else 0
  }

  /** The volume a descriptor describes; the root directory record is at byte 156. */
  function VolumeOf(image: seq<Byte>, d: seq<Byte>, nls: Option<PageTable>): Volume
    requires |d| == 2048
  {
    Volume(image, UcsLevel(d), nls, Signed32(Word(d, 158)), Signed32(Word(d, 166)), Field(d, 174, 9))
  }

  /** The loop of attachVolume over the descriptors, for at most `steps` rounds. The source sets
      no limit: it goes on for ever where this ends for no number of steps. */
  method ScanDescriptors(image: seq<Byte>, offset: nat, steps: nat)
    returns (stopped: bool, d: seq<Byte>, ghost block: nat)
    ensures |d| == 2048 && d == Descriptor(image, offset, block)
    ensures stopped <==> exists k: nat | k <= steps :: Stops(image, offset, k)
    ensures stopped <==> IsEnd(d) || IsJoliet(d)
    ensures stopped ==> Stops(image, offset, block) && forall k: nat | k < block :: !Stops(image, offset, k)
  {
    block := 0;
    var at, left := 16, steps;
    d := Sector(image, at + offset);
    while !IsEnd(d) && !IsJoliet(d) && left > 0
      invariant at == 16 + block && d == Descriptor(image, offset, block) && block + left == steps
      invariant forall k: nat | k < block :: !Stops(image, offset, k)
    {
      at, block, left := at + 1, block + 1, left - 1;
      d := Sector(image, at + offset);
    }
    stopped := IsEnd(d) || IsJoliet(d);
    assert stopped <==> Stops(image, offset, block);
  }

  /** Whether the scan ever ends is decided within the image: no descriptor behind it stops
      the scan. */
  lemma ScanDecides(image: seq<Byte>, offset: nat)
    ensures (exists k: nat :: Stops(image, offset, k)) <==>
            (exists k: nat | k <= |image| / 2048 :: Stops(image, offset, k))
  {
    forall k: nat | k > |image| / 2048
      ensures !Stops(image, offset, k)
    {
      assert (16 + k + offset) * 2048 >= |image|;
      assert Descriptor(image, offset, k)[0] == 0;
    }
  }

  /** On an image of at most 16 sectors, such as an empty file, it never ends. */
  lemma ShortImageNeverStops(image: seq<Byte>, offset: nat)
    requires |image| <= 16 * 2048
    ensures forall k: nat :: !Stops(image, offset, k)
  {
    forall k: nat
      ensures !Stops(image, offset, k)
    {
      assert (16 + k + offset) * 2048 >= |image|;
      assert Descriptor(image, offset, k)[0] == 0;
    }
  }

  /** The first Joliet descriptor, if it comes before the terminator. */
  ghost predicate FirstJoliet(image: seq<Byte>, offset: nat, block: nat) {
    && IsJoliet(Descriptor(image, offset, block))
    && forall k: nat | k < block :: !Stops(image, offset, k)
  }

  /** The descriptors decide for one volume at most. */
  lemma OneJoliet(image: seq<Byte>, offset: nat, a: nat, b: nat)
    requires FirstJoliet(image, offset, a)
    ensures FirstJoliet(image, offset, b) ==> a == b
    ensures Stops(image, offset, b) && (forall k: nat | k < b :: !Stops(image, offset, k)) ==> a == b
  {
    assert Stops(image, offset, a);
    if FirstJoliet(image, offset, b) {
      assert Stops(image, offset, b);
    }
  }

  /** A root directory record written into a descriptor by the standard is what the volume
      begins with. */
  lemma RootRoundTrip(image: seq<Byte>, d: seq<Byte>, nls: Option<PageTable>, r: Record)
    requires |d| == 2048 && Length(r) == 34 && d[156..190] == EncodeRecord(r)
    ensures var vol := VolumeOf(image, d, nls);
            && vol.rootExtent == Signed32(r.extent) && vol.rootSize == Signed32(r.size)
            && vol.rootDate == r.date + [r.flags, r.unit]
  {
    hide EncodeRecord, Word, Field;
    FieldsOf(d, 156, r);
  }

  /** Where the descriptors are: from sector 16 on, behind the given number of sectors. */
  lemma DescriptorAt(image: seq<Byte>, offset: nat, block: nat)
    requires 2048 * (17 + offset + block) <= |image|
    ensures Descriptor(image, offset, block) ==
            image[2048 * (16 + offset + block)..2048 * (17 + offset + block)]
  {
  }

  /** The escape sequences for 16-bit names are "%/@", "%/C" and "%/E", in a descriptor of type
      2; type 255 ends the set. */
  lemma KindsOfDescriptors(d: seq<Byte>)
    requires |d| == 2048
    ensures IsEnd(d) <==> d[0] == 255
    ensures IsJoliet(d) <==>
            && d[0] == 2 && d[88] as char == '%' && d[89] as char == '/' && d[91] == 0
            && (d[90] as char == '@' || d[90] as char == 'C' || d[90] as char == 'E')
  {
  }

  /** A volume is attached with its image and its table, and at the level of its escape
      sequence, the first, second or third. */
  lemma VolumeExact(image: seq<Byte>, d: seq<Byte>, nls: Option<PageTable>)
    requires |d| == 2048 && IsJoliet(d)
    ensures var vol := VolumeOf(image, d, nls);
            && vol.image == image && vol.nls == nls && 1 <= vol.ucsLevel <= 3
            && vol.ucsLevel == if d[90] as char == '@' then 1 else if d[90] as char == 'C' then 2 else 3
  {
  }

  /** So the names of an attached volume are read as 16-bit names: without a table as they
      are, and with one through it. */
  lemma NamesOfAttached(image: seq<Byte>, d: seq<Byte>, table: PageTable, ident: seq<Byte>, name: seq<Byte>)
    requires |d| == 2048 && IsJoliet(d) && NoNul(name)
    ensures EntryName(VolumeOf(image, d, None), Wide(name)) == name
    ensures NamedThrough(table, ident, name) ==> EntryName(VolumeOf(image, d, Some(table)), ident) == name
  {
    WideRoundTrip(VolumeOf(image, d, None), name);
    if NamedThrough(table, ident, name) {
      TableRoundTrip(VolumeOf(image, d, Some(table)), table, ident, name);
    }
  }
}
