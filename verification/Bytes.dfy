/** Bytes, letter case, zero-terminated strings, little-endian numbers and copying into a
    buffer. */
module Bytes {
  type Byte = b: int | 0 <= b < 256
  type Word32 = w: int | 0 <= w < 0x1_0000_0000

  const DOT: Byte := 46
  const STAR: Byte := 42
  const QUESTION: Byte := 63
  const SLASH: Byte := 47
  const COLON: Byte := 58
  const BACKSLASH: Byte := 92

  /** tolower and toupper in the C locale. */
  function ToLower(b: Byte): Byte {
    if 65 <= b <= 90 then b + 32 else b
  }

  function ToUpper(b: Byte): Byte {
    if 97 <= b <= 122 then b - 32 else b
  }

  /** strupr on a string without its terminator. */
  function Upper(s: seq<Byte>): (r: seq<Byte>)
    ensures |r| == |s| && forall i | 0 <= i < |s| :: r[i] == ToUpper(s[i])
  {
    seq(|s|, i requires 0 <= i < |s| => ToUpper(s[i]))
  }

  /** The strings have the same length and differ at most in the case of letters. */
  predicate SameName(s: seq<Byte>, t: seq<Byte>) {
    |s| == |t| && forall i | 0 <= i < |s| :: ToLower(s[i]) == ToLower(t[i])
  }

  lemma UpperSameName(s: seq<Byte>)
    ensures SameName(s, Upper(s))
  {
  }

  /** The characters are the same, or the upper-case and the lower-case form of one letter. */
  predicate SameLetter(a: Byte, b: Byte) {
    a == b || ('A' <= a as char <= 'Z' && b == a + 32) || ('A' <= b as char <= 'Z' && a == b + 32)
  }

  /** Names differ in case exactly if they differ in nothing but the case of their letters. */
  lemma SameNameExact(s: seq<Byte>, t: seq<Byte>)
    ensures SameName(s, t) <==> |s| == |t| && forall i | 0 <= i < |s| :: SameLetter(s[i], t[i])
  {
    forall a: Byte, b: Byte
      ensures ToLower(a) == ToLower(b) <==> SameLetter(a, b)
    {
    }
  }

  /** A name in upper case differs in case only, and has no lower-case letter. */
  predicate IsUpperCaseOf(upper: seq<Byte>, name: seq<Byte>) {
    && |upper| == |name|
    && forall i | 0 <= i < |name| :: SameLetter(name[i], upper[i]) && !('a' <= upper[i] as char <= 'z')
  }

  lemma UpperExact(name: seq<Byte>)
    ensures IsUpperCaseOf(Upper(name), name)
    ensures forall upper: seq<Byte> | IsUpperCaseOf(upper, name) :: upper == Upper(name)
  {
  }

  /** The characters behind the codes. */
  lemma Characters()
    ensures DOT as char == '.' && STAR as char == '*' && QUESTION as char == '?'
    ensures SLASH as char == '/' && COLON as char == ':' && BACKSLASH as char == '\\'
  {
  }

  predicate NoNul(s: seq<Byte>) {
    0 !in s
  }

  /** What a C string function sees of s: everything before the first zero byte. */
  function CString(s: seq<Byte>): (r: seq<Byte>)
    ensures r <= s && NoNul(r) && (|r| < |s| ==> s[|r|] == 0)
  {
    if s == [] || s[0] == 0 then [] else
      var rest := CString(s[1..]);
      assert [s[0]] + s[1..] == s;
      [s[0]] + rest
  }

  lemma {:induction false} CStringWhole(s: seq<Byte>)
    requires NoNul(s)
    ensures CString(s) == s
  {
    if s != [] {
      CStringWhole(s[1..]);
    }
  }

  /** The four bytes of v modulo 2^32, lowest first. */
  function LE32(v: int): (r: seq<Byte>)
    ensures |r| == 4
  {
    var u := v % 0x1_0000_0000;
    [u % 256, (u / 256) % 256, (u / 0x1_0000) % 256, u / 0x100_0000]
  }

  function LE16(v: int): (r: seq<Byte>)
    ensures |r| == 2
  {
    var u := v % 0x1_0000;
    [u % 256, u / 256]
  }

  /** The unsigned number in the first four bytes of s. */
  function Num32(s: seq<Byte>): (v: int)
    requires |s| >= 4
    ensures 0 <= v < 0x1_0000_0000
  {
    var b0: int, b1: int, b2: int, b3: int := s[0], s[1], s[2], s[3];
    b0 + 256 * b1 + 0x1_0000 * b2 + 0x100_0000 * b3
  }

  function Num16(s: seq<Byte>): (v: int)
    requires |s| >= 2
    ensures 0 <= v < 0x1_0000
  {
    var b0: int, b1: int := s[0], s[1];
    b0 + 256 * b1
  }

  lemma Num32LE32(v: int)
    ensures Num32(LE32(v)) == v % 0x1_0000_0000
  {
    var u := v % 0x1_0000_0000;
    assert u / 0x1_0000 == (u / 256) / 256;
    assert u / 0x100_0000 == ((u / 256) / 256) / 256;
  }

  lemma Num16LE16(v: int)
    ensures Num16(LE16(v)) == v % 0x1_0000
  {
  }

  /** The lowest byte comes first. */
  lemma LowestFirst()
    ensures LE32(0x1234_5678) == [0x78, 0x56, 0x34, 0x12] && LE16(0x1234) == [0x34, 0x12]
  {
  }

  /** A 32-bit word as a C int. */
  function Signed32(u: int): (v: int)
    requires 0 <= u < 0x1_0000_0000
    ensures -0x8000_0000 <= v < 0x8000_0000 && (v == u || v == u - 0x1_0000_0000)
  {
    if u < 0x8000_0000 then u else u - 0x1_0000_0000
  }

  /** s with the bytes from position at on replaced by data. */
  function Splice(s: seq<Byte>, at: nat, data: seq<Byte>): (r: seq<Byte>)
    requires at + |data| <= |s|
    ensures |r| == |s|
  {
    s[..at] + data + s[at + |data|..]
  }

  lemma SpliceParts(s: seq<Byte>, at: nat, data: seq<Byte>)
    requires at + |data| <= |s|
    ensures var r := Splice(s, at, data);
            r[..at] == s[..at] && r[at..at + |data|] == data && r[at + |data|..] == s[at + |data|..]
  {
  }

  /** Two adjacent copies are one copy of both pieces. */
  lemma SpliceSplice(s: seq<Byte>, at: nat, data: seq<Byte>, more: seq<Byte>)
    requires at + |data| + |more| <= |s|
    ensures Splice(Splice(s, at, data), at + |data|, more) == Splice(s, at, data + more)
  {
  }

  /** memcpy into a buffer. */
  method Store(buf: array<Byte>, at: nat, data: seq<Byte>)
    requires at + |data| <= buf.Length
    modifies buf
    ensures buf[..] == Splice(old(buf[..]), at, data)
  {
    forall i | 0 <= i < |data| {
      buf[at + i] := data[i];
    }
    assert forall k | 0 <= k < at :: buf[k] == old(buf[k]);
    assert forall k | at + |data| <= k < buf.Length :: buf[k] == old(buf[k]);
  }
}
