/** Reading an open file sector by sector, and moving its position. */
module FileIo {
  import opened Bytes
  import opened Os2

  type Long = w: int | -0x8000_0000 <= w < 0x8000_0000

  /** n bytes of the image from byte `at` on; bytes outside the image read as zero. */
  function ImageBytes(image: seq<Byte>, at: int, n: nat): (s: seq<Byte>)
    ensures |s| == n
    ensures forall i | 0 <= i < n :: s[i] == if 0 <= at + i < |image| then image[at + i] else 0
  {
    seq(n, i requires 0 <= i < n => if 0 <= at + i < |image| then image[at + i] else 0)
  }

  lemma ImageBytesConcat(image: seq<Byte>, at: int, m: nat, n: nat)
    ensures ImageBytes(image, at, m + n) == ImageBytes(image, at, m) + ImageBytes(image, at + m, n)
  {
  }

  lemma ImageBytesPart(image: seq<Byte>, at: int, n: nat, from: nat, count: nat)
    requires from + count <= n
    ensures ImageBytes(image, at, n)[from..from + count] == ImageBytes(image, at + from, count)
  {
  }

  /** The contents of a file. */
  function FileBytes(image: seq<Byte>, extent: int, size: nat): (s: seq<Byte>)
    ensures |s| == size
  {
    ImageBytes(image, 2048 * extent, size)
  }

  /** fread behind fseek. */
  method Fread(image: seq<Byte>, at: int, n: nat, buff: array<Byte>)
    requires n <= buff.Length
    modifies buff
    ensures buff[..][..n] == ImageBytes(image, at, n)
  {
    forall i | 0 <= i < n {
      buff[i] := if 0 <= at + i < |image| then image[at + i] else 0;
    }
  }

  /** The buffer begins with n bytes of the image from byte `at` on, and is otherwise as
      before. */
  predicate Filled(now: seq<Byte>, before: seq<Byte>, image: seq<Byte>, at: int, n: nat) {
    n <= |now| == |before| && now[..n] == ImageBytes(image, at, n) && now[n..] == before[n..]
  }

  /** How many bytes fsRead reads, in 32-bit arithmetic. */
  function ReadCount(size: Word32, position: Word32, cbLen: nat): (n: nat) {
    var wanted := if cbLen > size then size else cbLen;
    var room := (size - position) % 0x1_0000_0000;
    if wanted > room then room else wanted
  }

  /** The position n bytes further, in 32-bit arithmetic. */
  function Advanced(position: Word32, n: nat): Word32 {
    (position + n) % 0x1_0000_0000
  }

  const FILE_BEGIN := 0
  const FILE_CURRENT := 1
  const FILE_END := 2

  /** The sum of a word, taken as a signed number, and an offset, as a signed number. */
  function AddLong(word: Word32, offset: Long): (sum: Long) {
    Signed32((Signed32(word) + offset) % 0x1_0000_0000)
  }

  /** The outcome of moving the position. */
  datatype Move = Move(rc: ApiRet, position: Word32)

  function Moved(size: Word32, position: Word32, usType: nat, offset: Long): Move {
    if usType == FILE_BEGIN then Move(NoError, offset % 0x1_0000_0000)
    else if usType == FILE_CURRENT then MovedTo(position, AddLong(position, offset))
    else if usType == FILE_END then MovedTo(position, AddLong(size, offset))
    else Move(NotSupported, position)
  }

  function MovedTo(position: Word32, target: Long): Move {
    if target < 0 then Move(NegativeSeek, position) else Move(NoError, target)
  }

  /** An open file: where it is in the image, and its size and position as the kernel keeps
      them. */
  class OpenFile {
    const extent: int
    const size: Word32
    var position: Word32

    constructor (extent: int, size: Word32)
      ensures this.extent == extent && this.size == size && position == 0
    {
      this.extent, this.size, position := extent, size, 0;
    }

    /** fsRead: reads up to cbLen bytes to the beginning of the buffer. */
    method Read(image: seq<Byte>, data: array<Byte>, cbLen: nat) returns (bytesRead: nat)
      requires cbLen <= data.Length
      modifies data, this`position
      ensures bytesRead == ReadCount(size, old(position), cbLen) <= cbLen
      ensures Filled(data[..], old(data[..]), image, 2048 * extent + old(position), bytesRead)
      ensures position == Advanced(old(position), bytesRead)
    {
      hide ImageBytes, Splice, Filled;
      ghost var start := 2048 * extent + position;
      var left: nat := cbLen;
      if left > size {
        left := size;
      }
      if left > (size - position) % 0x1_0000_0000 {
        left := (size - position) % 0x1_0000_0000;
      }
      ghost var n := left;
      assert n == ReadCount(size, position, cbLen) <= cbLen;
      hide ReadCount;
      var buff := new Byte[2048];
      var sector := extent + position / 2048;
      Fread(image, 2048 * sector, 2048, buff);
      var offset: nat := position % 2048;
      var toRead := if 2048 - offset > left then left else 2048 - offset;
      FirstSector(image, extent, position, offset, toRead);
      Slice(buff[..], 2048, offset, offset + toRead);
      ghost var before := data[..];
      Copy(buff, offset, data, 0, toRead);
      FirstFilled(image, start, data[..], before, toRead);
      bytesRead := toRead;
      left := left - toRead;
      sector := sector + 1;
      var pData := 0;
      while left > 0
        invariant bytesRead + left == n <= cbLen && bytesRead == pData + toRead
        invariant left > 0 ==> 2048 * sector == start + bytesRead
        invariant Filled(data[..], before, image, start, bytesRead)
        invariant position == old(position)
      {
        pData := pData + toRead;
        toRead := if left > 2048 then 2048 else left;
        Fread(image, 2048 * sector, toRead, buff);
        ghost var had := data[..];
        Copy(buff, 0, data, pData, toRead);
        Slice(buff[..], toRead, 0, toRead);
        NextSector(image, start, had, data[..], before, bytesRead, toRead);
        left := left - toRead;
        sector := sector + 1;
        bytesRead := bytesRead + toRead;
      }
      position := Advanced(position, bytesRead);
    }

    /** fsChgFilePtr: moves the position. */
    method ChgFilePtr(usType: nat, ibOffset: Long) returns (rc: ApiRet)
      modifies this`position
      ensures var r := Moved(size, old(position), usType, ibOffset); rc == r.rc && position == r.position
    {
      if usType == FILE_BEGIN {
        position := ibOffset % 0x1_0000_0000;
        return NoError;
      } else if usType == FILE_CURRENT {
        var lNewPos := AddLong(position, ibOffset);
        if lNewPos < 0 {
          return NegativeSeek;
        }
        position := lNewPos;
        return NoError;
      } else if usType == FILE_END {
        var lNewPos := AddLong(size, ibOffset);
        if lNewPos < 0 {
          return NegativeSeek;
        }
        position := lNewPos;
        return NoError;
      } else {
        return NotSupported;
      }
    }
  }

  /** memcpy from one buffer to another. */
  method Copy(src: array<Byte>, from: nat, dst: array<Byte>, at: nat, n: nat)
    requires from + n <= src.Length && at + n <= dst.Length && src != dst
    modifies dst
    ensures dst[..] == Splice(old(dst[..]), at, src[..][from..from + n])
  {
    forall i | 0 <= i < n {
      dst[at + i] := src[from + i];
    }
  }

  /** The position moves by what was read, and wraps around behind 2^32 - 1. */
  lemma AdvancedExact(position: Word32, n: nat)
    requires n < 0x1_0000_0000
    ensures Advanced(position, n) ==
            if position + n < 0x1_0000_0000 then position + n else position + n - 0x1_0000_0000
  {
  }

  lemma Slice(s: seq<Byte>, n: nat, a: nat, b: nat)
    requires a <= b <= n <= |s|
    ensures s[..n][a..b] == s[a..b]
  {
  }

  /** The part of the first sector that is read. */
  lemma FirstSector(image: seq<Byte>, extent: int, position: nat, offset: nat, n: nat)
    requires offset == position % 2048 && offset + n <= 2048
    ensures ImageBytes(image, 2048 * (extent + position / 2048), 2048)[offset..offset + n] ==
            ImageBytes(image, 2048 * extent + position, n)
    ensures 2048 * (extent + position / 2048 + 1) == 2048 * extent + position + (2048 - offset)
  {
    ImageBytesPart(image, 2048 * (extent + position / 2048), 2048, offset, n);
  }

  lemma FirstFilled(image: seq<Byte>, start: int, now: seq<Byte>, before: seq<Byte>, n: nat)
    requires n <= |before| && now == Splice(before, 0, ImageBytes(image, start, n))
    ensures Filled(now, before, image, start, n)
  {
    SpliceParts(before, 0, ImageBytes(image, start, n));
  }

  lemma NextSector(image: seq<Byte>, start: int, had: seq<Byte>, now: seq<Byte>, before: seq<Byte>, done: nat, n: nat)
    requires done + n <= |had| && Filled(had, before, image, start, done)
    requires now == Splice(had, done, ImageBytes(image, start + done, n))
    ensures Filled(now, before, image, start, done + n)
  {
    ImageBytesConcat(image, start, done, n);
    assert now[..done + n] == had[..done] + ImageBytes(image, start + done, n);
    assert had[done + n..] == had[done..][n..] == before[done..][n..];
  }

  // ----- what the reads return

  function Min(a: nat, b: nat): nat {
    if a < b then a else b
  }

  /** A read from a position in the file returns the bytes of the file from there on, as many
      as are asked for and there. */
  lemma ReadInFile(image: seq<Byte>, extent: int, size: Word32, position: Word32, cbLen: nat)
    requires position <= size
    ensures var n := ReadCount(size, position, cbLen);
            && n == Min(cbLen, size - position)
            && ImageBytes(image, 2048 * extent + position, n) ==
               FileBytes(image, extent, size)[position..position + n]
  {
    ImageBytesPart(image, 2048 * extent, size, position, ReadCount(size, position, cbLen));
  }

  /** A read returns no bytes but those of the file exactly if its position is in the file or
      at its end, or it asks for nothing, or the file is empty. Behind the end the remaining
      length wraps around, and the read returns what follows the file in the image. */
  lemma ReadStaysInFile(size: Word32, position: Word32, cbLen: nat)
    ensures var n := ReadCount(size, position, cbLen);
            (n == 0 || position + n <= size) <==> (position <= size || cbLen == 0 || size == 0)
    ensures position > size ==>
              ReadCount(size, position, cbLen) == Min(Min(cbLen, size), 0x1_0000_0000 + size - position)
  {
  }

  /** What a sequence of reads returns altogether, and where it leaves the position. */
  function Reads(image: seq<Byte>, extent: int, size: Word32, position: Word32, lengths: seq<nat>): seq<Byte>
    decreases |lengths|
  {
    if lengths == [] then []
    else
      var n := ReadCount(size, position, lengths[0]);
      ImageBytes(image, 2048 * extent + position, n) +
      Reads(image, extent, size, Advanced(position, n), lengths[1..])
  }

  function Sum(lengths: seq<nat>): nat {
    if lengths == [] then 0 else lengths[0] + Sum(lengths[1..])
  }

  /** Reads one after the other return the file piece by piece: altogether the bytes from the
      first position on, as many as are asked for and there. */
  lemma {:induction false} ReadsConcatenate(
    image: seq<Byte>, extent: int, size: Word32, position: Word32, lengths: seq<nat>)
    requires position <= size
    ensures position <= Min(position + Sum(lengths), size)
    ensures Reads(image, extent, size, position, lengths) ==
            FileBytes(image, extent, size)[position..Min(position + Sum(lengths), size)]
    decreases |lengths|
  {
    if lengths != [] {
      var next, rest := Min(position + lengths[0], size), lengths[1..];
      var file := FileBytes(image, extent, size);
      ReadsFirst(image, extent, size, position, lengths);
      ReadsConcatenate(image, extent, size, next, rest);
      hide FileBytes, Reads;
      TwoPieces(file, position, next, Min(next + Sum(rest), size));
    }
  }

  lemma ReadsFirst(image: seq<Byte>, extent: int, size: Word32, position: Word32, lengths: seq<nat>)
    requires position <= size && lengths != []
    ensures var next := Min(position + lengths[0], size);
            && position <= next
            && Reads(image, extent, size, position, lengths) ==
               FileBytes(image, extent, size)[position..next] + Reads(image, extent, size, next, lengths[1..])
  {
    hide ImageBytes, FileBytes, ReadCount;
    ReadInFile(image, extent, size, position, lengths[0]);
    var n: nat := ReadCount(size, position, lengths[0]);
    assert position + n == Min(position + lengths[0], size);
    assert Advanced(position, n) == position + n;
    hide Advanced, Min;
    assert Reads(image, extent, size, position, lengths) ==
           ImageBytes(image, 2048 * extent + position, n) + Reads(image, extent, size, position + n, lengths[1..]);
  }

  lemma TwoPieces(s: seq<Byte>, a: nat, b: nat, c: nat)
    requires a <= b <= c <= |s|
    ensures s[a..b] + s[b..c] == s[a..c]
  {
  }

  // ----- what moving the position does

  /** Where the caller wants the position. */
  function Target(size: Word32, position: Word32, usType: nat, offset: Long): int {
    if usType == FILE_BEGIN then offset else if usType == FILE_CURRENT then position + offset else size + offset
  }

  /** A move does what is asked for, or reports that it is in front of the file, exactly if the
      caller avoids two things: a negative offset from the beginning, which is taken for a
      huge one, and a target of 2^31 or more from the current position or the end, which is
      reported as negative or wraps around. */
  lemma MoveExact(size: Word32, position: Word32, usType: nat, offset: Long)
    requires usType in {FILE_BEGIN, FILE_CURRENT, FILE_END}
    ensures var target, m := Target(size, position, usType, offset), Moved(size, position, usType, offset);
            (if target < 0 then m.rc == NegativeSeek && m.position == position
             else m.rc == NoError && m.position == target)
            <==>
            (if usType == FILE_BEGIN then offset >= 0 else target < 0x8000_0000)
  {
    hide Signed32;
    if usType != FILE_BEGIN {
      var word := if usType == FILE_CURRENT then position else size;
      AddLongExact(word, offset);
    }
  }

  /** The kinds of seek are 0, from the beginning, 1, from the current position, and 2, from the
      end; there is no other. From the beginning, a negative offset is taken modulo 2^32. A
      target in front of the file is refused, and so is one from 2^31 to 2^32; a greater one
      wraps around. */
  lemma SeekKinds(size: Word32, position: Word32, usType: nat, offset: Long)
    ensures usType == 0 ==>
              Moved(size, position, usType, offset) ==
              Move(NoError, if offset < 0 then offset + 0x1_0000_0000 else offset)
    ensures usType == 1 || usType == 2 ==>
              var target := offset + if usType == 1 then position else size;
              Moved(size, position, usType, offset) ==
              if 0 <= target < 0x8000_0000 then Move(NoError, target)
              else if target < 0x1_0000_0000 then Move(NegativeSeek, position)
              else Move(NoError, target - 0x1_0000_0000)
    ensures usType > 2 ==> Moved(size, position, usType, offset) == Move(NotSupported, position)
  {
    hide Signed32;
    AddLongExact(if usType == 1 then position else size, offset);
  }

  lemma AddLongExact(word: Word32, offset: Long)
    ensures word + offset < 0 ==> AddLong(word, offset) < 0
    ensures 0 <= word + offset < 0x8000_0000 ==> AddLong(word, offset) == word + offset
    ensures 0x8000_0000 <= word + offset < 0x1_0000_0000 ==> AddLong(word, offset) < 0
    ensures 0x1_0000_0000 <= word + offset ==> AddLong(word, offset) == word + offset - 0x1_0000_0000
  {
    var sum := Signed32(word) + offset;
    assert sum % 0x1_0000_0000 == (word + offset) % 0x1_0000_0000;
  }
}
