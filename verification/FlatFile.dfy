/**
 A file as POSIX describes it: a flat sequence of bytes. `read()`, `write()`, `lseek()` and
 `ftruncate()` (section 3 of the System Interfaces volume of POSIX.1-2017) are given here as
 functions on such sequences; gaps and extensions read as zero bytes.
 */
module FlatFile {

  newtype byte = x: int | 0 <= x < 256

  function Zeros(n: nat): (r: seq<byte>)
    ensures |r| == n
    ensures forall i | 0 <= i < n :: r[i] == 0
  {
    seq(n, _ => 0)
  }

  function Max(a: int, b: int): int { if a < b then b else a }

  function Min(a: int, b: int): int { if a < b then a else b }

  /** The file after `buf` was stored at `offset`, with the gap up to `offset` zero filled. */
  function WriteFlat(file: seq<byte>, offset: nat, buf: seq<byte>): seq<byte> {
    seq(Max(|file|, offset + |buf|), i requires 0 <= i < Max(|file|, offset + |buf|) =>
      if offset <= i < offset + |buf| then buf[i - offset]
      else if i < |file| then file[i]
      else 0)
  }

  /** `write()` of POSIX: an empty write changes nothing, not even the size. */
  function PosixWrite(file: seq<byte>, offset: nat, buf: seq<byte>): seq<byte> {
    if buf == [] then file else WriteFlat(file, offset, buf)
  }

  /** `ftruncate()`: the first `n` bytes, zero extended where the file was shorter. */
  function ResizeFlat(file: seq<byte>, n: nat): seq<byte> {
    seq(n, i requires 0 <= i < n => if i < |file| then file[i] else 0)
  }

  /** `read()`: the bytes from `offset`, at most `len` of them, cut at the end of the file. */
  function ReadFlat(file: seq<byte>, offset: nat, len: nat): seq<byte> {
    if offset >= |file| then [] else file[offset..Min(offset + len, |file|)]
  }

  // ----- the same in terms of slices

  /** Inside the file a write replaces as many bytes as it carries; across the end it appends what is left over. */
  lemma WriteInside(file: seq<byte>, offset: nat, buf: seq<byte>)
    requires offset <= |file|
    ensures offset + |buf| <= |file| ==>
              PosixWrite(file, offset, buf) == file[..offset] + buf + file[offset + |buf|..]
    ensures offset + |buf| >= |file| ==> PosixWrite(file, offset, buf) == file[..offset] + buf
  {
    assert offset + |buf| <= |file| ==> WriteFlat(file, offset, buf) == file[..offset] + buf + file[offset + |buf|..];
    assert offset + |buf| >= |file| ==> WriteFlat(file, offset, buf) == file[..offset] + buf;
    assert buf == [] ==> file[..offset] + file[offset..] == file;
  }

  /** At or beyond the end it appends, after zeros up to the offset, and the file ends where the bytes end. */
  lemma WriteBeyond(file: seq<byte>, offset: nat, buf: seq<byte>)
    requires offset >= |file|
    ensures buf != [] ==> PosixWrite(file, offset, buf) == file + Zeros(offset - |file|) + buf
    ensures WriteFlat(file, offset, buf) == file + Zeros(offset - |file|) + buf
    ensures PosixWrite(file, offset, []) == file
  {
    assert WriteFlat(file, offset, buf) == file + Zeros(offset - |file|) + buf;
  }

  /** `ftruncate()` cuts the tail off or appends zeros. */
  lemma ResizeCutsOrPads(file: seq<byte>, n: nat)
    ensures n <= |file| ==> ResizeFlat(file, n) == file[..n]
    ensures n >= |file| ==> ResizeFlat(file, n) == file + Zeros(n - |file|)
  {
    assert n <= |file| ==> ResizeFlat(file, n) == file[..n];
    assert n >= |file| ==> ResizeFlat(file, n) == file + Zeros(n - |file|);
  }

  /** Reading a range in two parts reads the same bytes, and nothing is read at or beyond the end. */
  lemma ReadInParts(file: seq<byte>, offset: nat, m: nat, n: nat)
    ensures ReadFlat(file, offset, m + n) == ReadFlat(file, offset, m) + ReadFlat(file, offset + m, n)
    ensures ReadFlat(file, |file| + offset, n) == [] && ReadFlat(file, 0, |file|) == file
  {
    assert ReadFlat(file, offset, m + n) == ReadFlat(file, offset, m) + ReadFlat(file, offset + m, n);
    assert ReadFlat(file, 0, |file|) == file;
  }

  /** What was written is read back, to the last byte and no further if it was written at the end. */
  lemma ReadBackWritten(file: seq<byte>, offset: nat, buf: seq<byte>, more: nat)
    ensures ReadFlat(PosixWrite(file, offset, buf), offset, |buf|) == buf
    ensures offset + |buf| >= |file| ==> ReadFlat(PosixWrite(file, offset, buf), offset, |buf| + more) == buf
  {
    if offset <= |file| {
      WriteInside(file, offset, buf);
    } else {
      WriteBeyond(file, offset, buf);
    }
    var after := PosixWrite(file, offset, buf);
    assert ReadFlat(after, offset, |buf|) == buf;
    assert offset + |buf| >= |file| ==> ReadFlat(after, offset, |buf| + more) == buf;
  }
}
