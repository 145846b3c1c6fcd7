/**
 The sparse block store: a file is a size plus a partial map from block numbers to blocks of
 the mount's block size. This module says what the rows mean (`Content`), what a buffer write
 and a truncate do to the rows, and how both look on the flat file.
 */
module BlockStore {
  import opened FlatFile
  import opened Tables
  import opened BlockInfo

  // ----- meaning of the rows

  ghost predicate FullBlocks(data: Data, bs: nat) {
    forall k | k in data :: |data[k]| == bs
  }

  ghost function Block(data: Data, bs: nat, id: Id, no: nat): (r: seq<byte>)
    ensures FullBlocks(data, bs) ==> |r| == bs
  {
    if BlockKey(id, no) in data then data[BlockKey(id, no)] else Zeros(bs)
  }

  /** The byte at position `i` of a file, whatever its recorded size; absent blocks are zero. */
  ghost function ByteAt(data: Data, bs: nat, id: Id, i: nat): byte
    requires bs > 0 && FullBlocks(data, bs)
  {
    Block(data, bs, id, i / bs)[i % bs]
  }

  /** The file the user sees. */
  ghost function Content(t: Tables, bs: nat, id: Id): (r: seq<byte>)
    requires bs > 0 && FullBlocks(t.data, bs) && id in t.dir
    ensures |r| == t.dir[id].size
  {
    seq(t.dir[id].size, i requires 0 <= i < t.dir[id].size => ByteAt(t.data, bs, id, i))
  }

  /** Nothing but zeros is stored at or beyond the end of the file. */
  ghost predicate ZeroTail(data: Data, bs: nat, id: Id, size: nat)
    requires bs > 0 && FullBlocks(data, bs)
  {
    forall i: nat | size <= i :: ByteAt(data, bs, id, i) == 0
  }

  // ----- SQL expressions on bytea values

  /** `substring( s from start for count )`: 1-based and clipped to the value. */
  function Substring(s: seq<byte>, start: nat, count: nat): seq<byte>
    requires start >= 1
  {
    var lo := Min(start - 1, |s|);
    s[lo..Min(lo + count, |s|)]
  }

  /** The new value of `data` in the four UPDATE statements of `psql_write_block`. */
  function UpdatedBlock(block: seq<byte>, bs: nat, offset: nat, buf: seq<byte>): seq<byte>
    requires offset + |buf| <= bs
  {
    var len := |buf|;
    if offset == 0 && len == bs then
      buf
    else if offset == 0 && len < bs then
      buf + Substring(block, len + 1, bs - len)
    else if offset > 0 && offset + len == bs then
      Substring(block, 1, offset) + buf
    else
      Substring(block, 1, offset) + buf + Substring(block, offset + len + 1, bs - (offset + len))
  }

  function SpliceBlock(block: seq<byte>, offset: nat, buf: seq<byte>): seq<byte> {
    seq(|block|, j requires 0 <= j < |block| =>
      if offset <= j < offset + |buf| then buf[j - offset] else block[j])
  }

  /** On a block of full length the four statements are one and the same splice. */
  lemma FourFormsAreOneSplice(block: seq<byte>, bs: nat, offset: nat, buf: seq<byte>)
    requires |block| == bs && offset + |buf| <= bs
    ensures UpdatedBlock(block, bs, offset, buf) == SpliceBlock(block, offset, buf)
  {
    assert UpdatedBlock(block, bs, offset, buf) == block[..offset] + buf + block[offset + |buf|..];
  }

  // ----- writing a buffer

  ghost predicate Touches(bs: nat, offset: nat, len: nat, no: nat)
    requires bs > 0
  {
    len > 0 && offset / bs <= no <= (offset + len - 1) / bs
  }

  ghost predicate Hit(bs: nat, id: Id, offset: nat, len: nat, k: BlockKey)
    requires bs > 0
  {
    k.file == id && Touches(bs, offset, len, k.no)
  }

  ghost function HitKeys(bs: nat, id: Id, offset: nat, len: nat): (r: set<BlockKey>)
    requires bs > 0
    ensures forall k :: k in r <==> Hit(bs, id, offset, len, k)
  {
    var r := set no: nat | no <= (offset + len) / bs && Touches(bs, offset, len, no) :: BlockKey(id, no);
    assert forall k :: Hit(bs, id, offset, len, k) ==> k in r by {
      if len > 0 {
        DivMono(bs, offset + len - 1, offset + len);
      }
      assert forall k: BlockKey :: k.file == id ==> k == BlockKey(id, k.no);
    }
    r
  }

  ghost function SplicedBlock(data: Data, bs: nat, id: Id, no: nat, offset: nat, buf: seq<byte>): (r: seq<byte>)
    requires FullBlocks(data, bs)
    ensures |r| == bs
  {
    seq(bs, j requires 0 <= j < bs =>
      if offset <= no * bs + j < offset + |buf| then buf[no * bs + j - offset]
      else Block(data, bs, id, no)[j])
  }

  /** The rows after `buf` was stored at `offset` of file `id`, block by block. */
  ghost function Spliced(data: Data, bs: nat, id: Id, offset: nat, buf: seq<byte>): (r: Data)
    requires bs > 0 && FullBlocks(data, bs)
  {
    map k | k in data.Keys + HitKeys(bs, id, offset, |buf|) ::
      if Hit(bs, id, offset, |buf|, k)
      then SplicedBlock(data, bs, id, k.no, offset, buf)
      else data[k]
  }

  lemma SplicedFull(data: Data, bs: nat, id: Id, offset: nat, buf: seq<byte>)
    requires bs > 0 && FullBlocks(data, bs)
    ensures FullBlocks(Spliced(data, bs, id, offset, buf), bs)
  {
  }

  /** A byte changes exactly when it lies in the written range of the written file. */
  lemma SplicedByte(data: Data, bs: nat, id: Id, offset: nat, buf: seq<byte>, other: Id, i: nat)
    requires bs > 0 && FullBlocks(data, bs)
    ensures FullBlocks(Spliced(data, bs, id, offset, buf), bs)
    ensures ByteAt(Spliced(data, bs, id, offset, buf), bs, other, i)
            == if other == id && offset <= i < offset + |buf| then buf[i - offset]
               else ByteAt(data, bs, other, i)
  {
    SplicedFull(data, bs, id, offset, buf);
    DivModSplit(bs, i);
    if offset <= i < offset + |buf| {
      DivMono(bs, offset, i);
      DivMono(bs, i, offset + |buf| - 1);
    }
  }

  /** One block write is the splice of its bytes. */
  lemma OneBlockSplice(data: Data, bs: nat, id: Id, no: nat, offset: nat, buf: seq<byte>)
    requires bs > 0 && FullBlocks(data, bs)
    requires buf != [] && offset + |buf| <= bs
    ensures data[BlockKey(id, no) := SpliceBlock(Block(data, bs, id, no), offset, buf)]
            == Spliced(data, bs, id, no * bs + offset, buf)
  {
    var at := no * bs + offset;
    OneBlockTouched(bs, offset, |buf|, no);
    assert forall k :: Hit(bs, id, at, |buf|, k) <==> k == BlockKey(id, no);
    assert SpliceBlock(Block(data, bs, id, no), offset, buf) == SplicedBlock(data, bs, id, no, at, buf);
  }

  lemma OneBlockTouched(bs: nat, offset: nat, len: nat, no: nat)
    requires bs > 0 && len > 0 && offset + len <= bs
    ensures (no * bs + offset) / bs == (no * bs + offset + len - 1) / bs == no
  {
    BlockOf(bs, no, no * bs + offset);
    BlockOf(bs, no, no * bs + offset + len - 1);
  }

  /** No byte of an untouched block lies in the written range. */
  lemma OutsideRange(bs: nat, offset: nat, len: nat, no: nat, j: nat)
    requires bs > 0 && j < bs && !Touches(bs, offset, len, no)
    ensures !(offset <= no * bs + j < offset + len)
  {
    var i := no * bs + j;
    DivModUnique(bs, no, j, i);
    if offset <= i < offset + len {
      DivMono(bs, offset, i);
      DivMono(bs, i, offset + len - 1);
      assert false;
    }
  }

  /** Touched or not, block `no` after the splice is the spliced block. */
  lemma BlockAfterSplice(data: Data, bs: nat, id: Id, offset: nat, buf: seq<byte>, no: nat)
    requires bs > 0 && FullBlocks(data, bs)
    ensures Block(Spliced(data, bs, id, offset, buf), bs, id, no) == SplicedBlock(data, bs, id, no, offset, buf)
  {
    if !Touches(bs, offset, |buf|, no) {
      var block, spliced := Block(data, bs, id, no), SplicedBlock(data, bs, id, no, offset, buf);
      forall j | 0 <= j < bs
        ensures spliced[j] == block[j]
      {
        OutsideRange(bs, offset, |buf|, no, j);
      }
      assert spliced == block;
    }
  }

  lemma TouchesAppend(bs: nat, offset: nat, la: nat, lb: nat, no: nat)
    requires bs > 0 && la > 0 && lb > 0
    ensures Touches(bs, offset, la + lb, no) <==> Touches(bs, offset, la, no) || Touches(bs, offset + la, lb, no)
  {
    DivMono(bs, offset, offset + la - 1);
    DivMono(bs, offset + la, offset + la + lb - 1);
    DivPred(bs, offset + la);
  }

  lemma SplicedBlockAppend(data: Data, bs: nat, id: Id, offset: nat, a: seq<byte>, b: seq<byte>, no: nat)
    requires bs > 0 && FullBlocks(data, bs)
    ensures FullBlocks(Spliced(data, bs, id, offset, a), bs)
    ensures SplicedBlock(Spliced(data, bs, id, offset, a), bs, id, no, offset + |a|, b)
            == SplicedBlock(data, bs, id, no, offset, a + b)
  {
    SplicedFull(data, bs, id, offset, a);
    BlockAfterSplice(data, bs, id, offset, a, no);
  }

  lemma SplicedRow(data: Data, bs: nat, id: Id, offset: nat, buf: seq<byte>, k: BlockKey)
    requires bs > 0 && FullBlocks(data, bs)
    ensures var r := Spliced(data, bs, id, offset, buf);
            && (k in r <==> k in data || Hit(bs, id, offset, |buf|, k))
            && (k.file != id && k in r ==> r[k] == data[k])
            && (k.file == id && k in r ==> r[k] == SplicedBlock(data, bs, id, k.no, offset, buf))
  {
    if k.file == id {
      BlockAfterSplice(data, bs, id, offset, buf, k.no);
      assert k == BlockKey(id, k.no);
    }
  }

  /** Two adjacent splices are one. */
  lemma SpliceAppend(data: Data, bs: nat, id: Id, offset: nat, a: seq<byte>, b: seq<byte>)
    requires bs > 0 && FullBlocks(data, bs) && a != [] && b != []
    ensures FullBlocks(Spliced(data, bs, id, offset, a), bs)
    ensures Spliced(Spliced(data, bs, id, offset, a), bs, id, offset + |a|, b)
            == Spliced(data, bs, id, offset, a + b)
  {
    SplicedFull(data, bs, id, offset, a);
    var mid := Spliced(data, bs, id, offset, a);
    var lhs := Spliced(mid, bs, id, offset + |a|, b);
    var rhs := Spliced(data, bs, id, offset, a + b);
    forall k: BlockKey
      ensures k in lhs <==> k in rhs
      ensures k in lhs && k in rhs ==> lhs[k] == rhs[k]
    {
      SpliceAppendRow(data, bs, id, offset, a, b, k);
    }
    assert lhs.Keys == rhs.Keys;
  }

  /** Writing the next block after `done` stored bytes stores `len` bytes more. */
  lemma AppendOneBlock(data: Data, bs: nat, id: Id, offset: nat, buf: seq<byte>, done: nat, len: nat, no: nat)
    requires bs > 0 && FullBlocks(data, bs)
    requires 0 < done && 0 < len <= bs && done + len <= |buf| && offset + done == no * bs
    ensures var mid := Spliced(data, bs, id, offset, buf[..done]);
            && FullBlocks(mid, bs)
            && mid[BlockKey(id, no) := SpliceBlock(Block(mid, bs, id, no), 0, buf[done..done + len])]
               == Spliced(data, bs, id, offset, buf[..done + len])
  {
    SplicedFull(data, bs, id, offset, buf[..done]);
    OneBlockSplice(Spliced(data, bs, id, offset, buf[..done]), bs, id, no, 0, buf[done..done + len]);
    SpliceAppend(data, bs, id, offset, buf[..done], buf[done..done + len]);
    assert buf[..done] + buf[done..done + len] == buf[..done + len];
  }

  lemma SpliceAppendRow(data: Data, bs: nat, id: Id, offset: nat, a: seq<byte>, b: seq<byte>, k: BlockKey)
    requires bs > 0 && FullBlocks(data, bs) && a != [] && b != []
    ensures FullBlocks(Spliced(data, bs, id, offset, a), bs)
    ensures var lhs := Spliced(Spliced(data, bs, id, offset, a), bs, id, offset + |a|, b);
            var rhs := Spliced(data, bs, id, offset, a + b);
            (k in lhs <==> k in rhs) && (k in lhs && k in rhs ==> lhs[k] == rhs[k])
  {
    SplicedFull(data, bs, id, offset, a);
    TouchesAppend(bs, offset, |a|, |b|, k.no);
    SplicedRow(data, bs, id, offset, a, k);
    SplicedRow(Spliced(data, bs, id, offset, a), bs, id, offset + |a|, b, k);
    SplicedRow(data, bs, id, offset, a + b, k);
    SplicedBlockAppend(data, bs, id, offset, a, b, k.no);
  }

  // ----- truncating

  /** Which text of `psql_truncate` is meant: as written, or with a 64-bit count and every block gone for size 0. */
  datatype Cut = CutAsWritten | CutIntended

  /** The last block that truncating to size `n` leaves, -1 for none. */
  function CutBlock(cut: Cut, bs: nat, n: nat): int
    requires bs > 0
  {
    match cut
    case CutAsWritten => ComputeBlockInfo(bs, 0, n).toBlock
    case CutIntended => if n == 0 then -1 else (n - 1) / bs
  }

  /** How many bytes of that block it leaves. */
  function CutLen(cut: Cut, bs: nat, n: nat): (len: nat)
    requires bs > 0
    ensures 0 < len <= bs
  {
    match cut
    case CutAsWritten => ComputeBlockInfo(bs, 0, n).toLen
    case CutIntended => if n == 0 then bs else (n - 1) % bs + 1
  }

  /** How many leading bytes `psql_truncate` really keeps when asked for size `n`. */
  function KeptBytes(cut: Cut, bs: nat, n: nat): int
    requires bs > 0
  {
    CutBlock(cut, bs, n) * bs + CutLen(cut, bs, n)
  }

  /** The rows after the DELETE and the padding UPDATE of `psql_truncate`. */
  ghost function Truncated(data: Data, bs: nat, id: Id, toBlock: int, toLen: nat): Data
    requires toLen <= bs
  {
    map k | k in data && !(k.file == id && k.no > toBlock) ::
      if k.file == id && k.no == toBlock then Substring(data[k], 1, toLen) + Zeros(bs - toLen) else data[k]
  }

  lemma TruncatedFull(data: Data, bs: nat, id: Id, toBlock: int, toLen: nat)
    requires toLen <= bs && FullBlocks(data, bs)
    ensures FullBlocks(Truncated(data, bs, id, toBlock, toLen), bs)
  {
  }

  /** A byte survives exactly when it lies below the kept length, or in another file. */
  lemma TruncatedByte(data: Data, bs: nat, id: Id, toBlock: int, toLen: nat, other: Id, i: nat)
    requires bs > 0 && 0 < toLen <= bs && FullBlocks(data, bs)
    ensures FullBlocks(Truncated(data, bs, id, toBlock, toLen), bs)
    ensures ByteAt(Truncated(data, bs, id, toBlock, toLen), bs, other, i)
            == if other == id && i >= toBlock * bs + toLen then 0 else ByteAt(data, bs, other, i)
  {
    TruncatedFull(data, bs, id, toBlock, toLen);
    DivModSplit(bs, i);
    MulGap(bs, toBlock, i / bs);
    MulGap(bs, i / bs, toBlock);
  }

  /**
   `psql_truncate` keeps the requested number of bytes exactly for sizes from 1 up to the
   point where the block count overflows its `int`; a request for 0 keeps the whole block 0.
   */
  lemma KeptBytesExact(bs: nat, n: nat)
    requires bs > 0
    ensures KeptBytes(CutAsWritten, bs, n) == n <==> 0 < n && n / bs < INT_LIMIT
    ensures n == 0 ==> KeptBytes(CutAsWritten, bs, n) == bs
  {
    DivModSplit(bs, 0);
    DivModUnique(bs, 0, 0, 0);
    if n > 0 {
      var info := ComputeBlockInfo(bs, 0, n);
      NarrowingExact(bs, 0, n);
      DivModSplit(bs, n - 1);
      DivPred(bs, n);
      MulGap(bs, info.toBlock, (n - 1) / bs);
      MulGap(bs, (n - 1) / bs, info.toBlock);
      if n / bs < INT_LIMIT {
        InfoFacts(bs, 0, n);
      }
    }
  }

  /** The intended truncate keeps exactly what it is asked to keep. */
  lemma KeptBytesIntended(bs: nat, n: nat)
    requires bs > 0
    ensures KeptBytes(CutIntended, bs, n) == n
  {
    if n > 0 {
      DivModSplit(bs, n - 1);
    }
  }
}
