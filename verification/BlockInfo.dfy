/**
 `compute_block_info`: which blocks a byte range touches, and how much of the first and of the
 last one. The block count goes through a C `int`, so it is narrowed to 32 bits.
 */
module BlockInfo {

  const INT_RANGE := 0x1_0000_0000
  const INT_LIMIT := 0x8000_0000
  /** Offsets are signed, lengths unsigned 64-bit integers. */
  const OFF_LIMIT := 0x8000_0000_0000_0000
  const SIZE_RANGE := 0x1_0000_0000_0000_0000

  /** Conversion of a 64-bit value to a 32-bit two's complement `int`. */
  function ToInt32(x: int): (r: int)
    ensures -INT_LIMIT <= r < INT_LIMIT
    ensures r == x <==> -INT_LIMIT <= x < INT_LIMIT
  {
    (x + INT_LIMIT) % INT_RANGE - INT_LIMIT
  }

  /** It differs from the given value by a multiple of 2^32. */
  lemma ToInt32Wraps(x: int) returns (k: int)
    ensures x == ToInt32(x) + k * INT_RANGE
  {
    k := (x + INT_LIMIT) / INT_RANGE;
  }

  datatype Info = Info(fromBlock: nat, fromOffset: nat, fromLen: nat, toBlock: int, toLen: nat)

  function ComputeBlockInfo(bs: nat, offset: nat, len: nat): (info: Info)
    requires bs > 0
    ensures info.fromOffset < bs && 0 < info.toLen <= bs
  {
    var fromBlock := offset / bs;
    var fromOffset := offset % bs;
    InfoFor(bs, fromBlock, fromOffset, len, (fromOffset + len) / bs, (fromOffset + len) % bs)
  }

  /** The cases after the divisions; `count` and `rest` are quotient and remainder of the touched length. */
  function InfoFor(bs: nat, fromBlock: nat, fromOffset: nat, len: nat, count: nat, rest: nat): (info: Info)
    requires fromOffset < bs
    ensures info.fromOffset == fromOffset && (rest < bs ==> 0 < info.toLen <= bs)
  {
    var nofBlocks := ToInt32(count);
    var fromLen := if nofBlocks == 0 then len else bs - fromOffset;
    var toBlock := fromBlock + nofBlocks;
    if rest == 0 then
      Info(fromBlock, fromOffset, fromLen, if toBlock - 1 < 0 then 0 else toBlock - 1, bs)
    else
      Info(fromBlock, fromOffset, fromLen, toBlock, rest)
  }

  /** The block count of the range survives the conversion to `int`. */
  predicate CountFits(bs: nat, offset: nat, len: nat)
    requires bs > 0
  {
    (offset % bs + len) / bs < INT_LIMIT
  }

  // ----- division by the block size

  lemma ProductNonNegative(a: nat, b: nat)
    ensures a * b >= 0
  {
  }

  lemma MulGap(bs: nat, a: int, b: int)
    ensures a < b ==> a * bs + bs <= b * bs
    ensures a <= b ==> a * bs <= b * bs
  {
    if a < b {
      var d: nat := b - a - 1;
      ProductNonNegative(d, bs);
      assert (a + 1 + d) * bs == a * bs + bs + d * bs;
    }
  }

  lemma DivModSplit(bs: nat, i: nat)
    requires bs > 0
    ensures i == (i / bs) * bs + i % bs
    ensures 0 <= i % bs < bs && i / bs >= 0
  {
  }

  lemma DivModUnique(bs: nat, q: nat, r: nat, i: nat)
    requires r < bs && i == q * bs + r
    ensures i / bs == q && i % bs == r
  {
    DivModSplit(bs, i);
    MulGap(bs, i / bs, q);
    MulGap(bs, q, i / bs);
  }

  lemma BlockOf(bs: nat, q: nat, i: nat)
    requires bs > 0 && q * bs <= i < q * bs + bs
    ensures i / bs == q && i % bs == i - q * bs
  {
    DivModUnique(bs, q, i - q * bs, i);
  }

  lemma DivShift(bs: nat, q: nat, i: nat)
    requires bs > 0
    ensures (q * bs + i) / bs == q + i / bs && (q * bs + i) % bs == i % bs
  {
    DivModSplit(bs, i);
    assert (q + i / bs) * bs == q * bs + (i / bs) * bs;
    DivModUnique(bs, q + i / bs, i % bs, q * bs + i);
  }

  /** Quotient and remainder of the position just before `i`. */
  lemma DivPred(bs: nat, i: nat)
    requires bs > 0 && i > 0
    ensures i % bs > 0 ==> (i - 1) / bs == i / bs && (i - 1) % bs == i % bs - 1
    ensures i % bs == 0 ==> i / bs > 0 && (i - 1) / bs == i / bs - 1 && (i - 1) % bs == bs - 1
  {
    DivModSplit(bs, i);
    if i % bs > 0 {
      DivModUnique(bs, i / bs, i % bs - 1, i - 1);
    } else {
      MulGap(bs, i / bs, 0);
      assert (i / bs - 1) * bs == (i / bs) * bs - bs;
      DivModUnique(bs, i / bs - 1, bs - 1, i - 1);
    }
  }

  // ----- the pieces of a range

  /** Where the k-th touched block's piece starts inside its block. */
  function PieceOffset(info: Info, k: nat): nat {
    if k == 0 then info.fromOffset else 0
  }

  /** How many bytes of the k-th touched block belong to the range. */
  function PieceLen(bs: nat, info: Info, k: nat): nat {
    if k == 0 then info.fromLen
    else if info.fromBlock + k == info.toBlock then info.toLen
    else bs
  }

  /** Absolute position of the first byte of the k-th piece. */
  function PieceStart(bs: nat, info: Info, k: nat): int {
    (info.fromBlock + k) * bs + PieceOffset(info, k)
  }

  /** With the divisions given by their remainders: where the range ends, and what its first piece is. */
  lemma InfoForFacts(bs: nat, f: nat, fo: nat, len: nat, count: nat, rest: nat)
    requires fo < bs && len > 0 && fo + len == count * bs + rest && rest < bs && count < INT_LIMIT
    ensures var info := InfoFor(bs, f, fo, len, count, rest);
            && info.fromBlock <= info.toBlock
            && info.toBlock * bs + info.toLen == f * bs + fo + len
            && info.fromLen == (if info.fromBlock == info.toBlock then len else bs - fo)
            && (info.fromBlock == info.toBlock ==> fo + len == info.toLen)
  {
    assert (f + count) * bs == f * bs + count * bs;
    assert count == 0 ==> count * bs == 0;
    assert count == 1 ==> count * bs == bs;
    assert (f + count - 1) * bs == (f + count) * bs - bs;
  }

  /** The facts about a non-empty range from which everything else follows. */
  lemma InfoFacts(bs: nat, offset: nat, len: nat)
    requires bs > 0 && len > 0 && CountFits(bs, offset, len)
    ensures var info := ComputeBlockInfo(bs, offset, len);
            && info.fromBlock == offset / bs && info.fromOffset == offset % bs
            && info.toBlock == (offset + len - 1) / bs
            && info.toLen == (offset + len - 1) % bs + 1
            && info.fromBlock <= info.toBlock
            && info.fromLen == (if info.fromBlock == info.toBlock then len else bs - info.fromOffset)
            && (info.fromBlock == info.toBlock ==> info.fromOffset + len == info.toLen)
            && offset == info.fromBlock * bs + info.fromOffset
            && offset + len == info.toBlock * bs + info.toLen
  {
    var f, fo := offset / bs, offset % bs;
    DivModSplit(bs, offset);
    DivModSplit(bs, fo + len);
    InfoForFacts(bs, f, fo, len, (fo + len) / bs, (fo + len) % bs);
    var info := ComputeBlockInfo(bs, offset, len);
    DivModUnique(bs, info.toBlock, info.toLen - 1, offset + len - 1);
  }

  /**
   The pieces tile [offset, offset + len): the first starts at `offset`, each next one starts
   where the one before ended, the last ends at `offset + len`, and no piece is empty or leaves
   its own block.
   */
  lemma PiecesTile(bs: nat, offset: nat, len: nat, k: nat)
    requires bs > 0 && len > 0 && CountFits(bs, offset, len)
    requires k <= (offset + len - 1) / bs - offset / bs
    ensures var info := ComputeBlockInfo(bs, offset, len);
            && PieceStart(bs, info, 0) == offset
            && 0 < PieceLen(bs, info, k)
            && PieceOffset(info, k) + PieceLen(bs, info, k) <= bs
            && (info.fromBlock + k < info.toBlock ==>
                  PieceStart(bs, info, k + 1) == PieceStart(bs, info, k) + PieceLen(bs, info, k))
            && (info.fromBlock + k == info.toBlock ==>
                  PieceStart(bs, info, k) + PieceLen(bs, info, k) == offset + len)
  {
    InfoFacts(bs, offset, len);
    var info := ComputeBlockInfo(bs, offset, len);
    var b := info.fromBlock + k;
    assert (b + 1) * bs == b * bs + bs;
  }

  /** Hence every byte of the range lies in exactly one piece: the one of its own block. */
  lemma ByteInOnePiece(bs: nat, offset: nat, len: nat, i: nat, k: nat)
    requires bs > 0 && len > 0 && CountFits(bs, offset, len)
    requires offset <= i < offset + len
    requires k <= (offset + len - 1) / bs - offset / bs
    ensures offset / bs <= i / bs <= (offset + len - 1) / bs
    ensures var info := ComputeBlockInfo(bs, offset, len);
            PieceStart(bs, info, k) <= i < PieceStart(bs, info, k) + PieceLen(bs, info, k)
            <==> k == i / bs - offset / bs
  {
    InfoFacts(bs, offset, len);
    PiecesTile(bs, offset, len, k);
    DivMono(bs, offset, i);
    DivMono(bs, i, offset + len - 1);
    DivModSplit(bs, i);
    var b := offset / bs + k;
    MulGap(bs, i / bs, b);
    MulGap(bs, b, i / bs);
  }

  lemma DivMono(bs: nat, i: nat, j: nat)
    requires bs > 0 && i <= j
    ensures i / bs <= j / bs
  {
    DivModSplit(bs, i);
    DivModSplit(bs, j);
    MulGap(bs, j / bs, i / bs);
  }

  /** The `int` block count is harmless exactly when the mathematical count is below 2^31. */
  lemma NarrowingExact(bs: nat, offset: nat, len: nat)
    requires bs > 0 && len > 0
    ensures ComputeBlockInfo(bs, offset, len).toBlock == (offset + len - 1) / bs
            <==> CountFits(bs, offset, len)
  {
    if CountFits(bs, offset, len) {
      InfoFacts(bs, offset, len);
    } else {
      var f, fo := offset / bs, offset % bs;
      DivModSplit(bs, offset);
      DivShift(bs, f, fo + len - 1);
      DivPred(bs, fo + len);
      NarrowedElsewhere(bs, f, fo, len, (fo + len) / bs, (fo + len) % bs);
    }
  }

  lemma NarrowedElsewhere(bs: nat, f: nat, fo: nat, len: nat, count: nat, rest: nat)
    requires fo < bs && count >= INT_LIMIT
    ensures InfoFor(bs, f, fo, len, count, rest).toBlock < f + count - 1
  {
  }

  /** Reads and writes return their byte count as an `int`, which bounds the block count too. */
  lemma IntLengthFits(bs: nat, offset: nat, len: nat)
    requires bs > 0 && len < INT_LIMIT
    ensures CountFits(bs, offset, len)
  {
    var n := offset % bs + len;
    DivModSplit(bs, n);
    MulGap(bs, INT_LIMIT, n / bs);
    MulGap(bs - 1, 1, INT_LIMIT);
  }

  /** What a piecewise write or read needs to know about the range. */
  lemma FirstPiece(bs: nat, offset: nat, len: nat)
    requires bs > 0 && len > 0 && CountFits(bs, offset, len)
    ensures var info := ComputeBlockInfo(bs, offset, len);
            && info.fromBlock <= info.toBlock
            && 0 < info.fromLen <= len && info.fromOffset + info.fromLen <= bs
            && offset == info.fromBlock * bs + info.fromOffset && offset + len == info.toBlock * bs + info.toLen
            && (info.fromBlock == info.toBlock ==> info.fromLen == len)
            && (info.fromBlock < info.toBlock ==>
                  info.fromLen < len && offset + info.fromLen == (info.fromBlock + 1) * bs)
  {
    InfoFacts(bs, offset, len);
    FirstPieceFrom(bs, offset, len, ComputeBlockInfo(bs, offset, len));
  }

  /** One more whole block, as long as the last one is not reached. */
  lemma NextBlock(bs: nat, no: nat, last: nat, pos: nat, end: nat)
    requires no < last && pos == no * bs && last * bs < end
    ensures pos + bs < end && pos + bs == (no + 1) * bs
  {
    MulGap(bs, no, last);
    assert (no + 1) * bs == no * bs + bs;
  }

  lemma FirstPieceFrom(bs: nat, offset: nat, len: nat, info: Info)
    requires info.fromBlock <= info.toBlock && info.fromOffset < bs && 0 < info.toLen <= bs && len > 0
    requires info.fromLen == (if info.fromBlock == info.toBlock then len else bs - info.fromOffset)
    requires info.fromBlock == info.toBlock ==> info.fromOffset + len == info.toLen
    requires offset == info.fromBlock * bs + info.fromOffset && offset + len == info.toBlock * bs + info.toLen
    ensures 0 < info.fromLen <= len && info.fromOffset + info.fromLen <= bs
    ensures info.fromBlock < info.toBlock ==>
              info.fromLen < len && offset + info.fromLen == (info.fromBlock + 1) * bs
  {
    MulGap(bs, info.fromBlock, info.toBlock);
    assert (info.fromBlock + 1) * bs == info.fromBlock * bs + bs;
  }

  // ----- beyond the end of a file

  /** What `psql_read_buf` computes for an offset beyond the end: the remaining size has wrapped around. */
  function InfoBeyond(bs: nat, fileSize: nat, offset: nat): Info
    requires bs > 0 && fileSize < offset < OFF_LIMIT
  {
    InfoWrapped(bs, offset / bs, offset % bs, SIZE_RANGE - (offset - fileSize))
  }

  /** The touched length in `size_t` arithmetic. */
  function InfoWrapped(bs: nat, fromBlock: nat, fromOffset: nat, size: nat): Info
    requires fromOffset < bs
  {
    var touched := (fromOffset + size) % SIZE_RANGE;
    InfoFor(bs, fromBlock, fromOffset, size, Whole(bs, touched), touched % bs)
  }

  /** The number of whole blocks in `len` bytes. */
  function Whole(bs: nat, len: nat): (count: nat)
    requires bs > 0
    ensures count == len / bs
  {
    DivModSplit(bs, len);
    len / bs
  }

  /** The loop over the blocks does not run at all. */
  predicate NothingBeyond(bs: nat, fileSize: nat, offset: nat)
    requires bs > 0 && fileSize < offset < OFF_LIMIT
  {
    InfoBeyond(bs, fileSize, offset).fromBlock > InfoBeyond(bs, fileSize, offset).toBlock
  }

  lemma NarrowedBack(m: nat, q: nat)
    requires m > 0 && q <= INT_LIMIT
    ensures ToInt32(INT_RANGE * m - q) == 0 - q
  {
    DivModUnique(INT_RANGE, m, INT_LIMIT - q, INT_RANGE * m - q + INT_LIMIT);
  }

  /** Quotient and remainder of 2^64 - e, for a block size that divides 2^32. */
  lemma WrappedDivision(bs: nat, m: nat, q: nat, e: nat)
    requires bs > 0 && bs * m == INT_RANGE && 0 < e <= q * bs < e + bs && q <= INT_LIMIT
    ensures q <= INT_RANGE * m && (SIZE_RANGE - e) / bs == INT_RANGE * m - q && (SIZE_RANGE - e) % bs == q * bs - e
  {
    MulGap(INT_RANGE, 1, m);
    assert (INT_RANGE * m - q) * bs == INT_RANGE * (bs * m) - q * bs;
    DivModUnique(bs, INT_RANGE * m - q, q * bs - e, SIZE_RANGE - e);
  }

  lemma BehindLastBlock(bs: nat, fileSize: nat, offset: nat)
    requires bs > 0 && 0 < fileSize < offset
    ensures (fileSize - 1) / bs < offset / bs <==> offset % bs <= offset - fileSize
  {
    DivModSplit(bs, offset);
    DivModSplit(bs, fileSize - 1);
    MulGap(bs, offset / bs, (fileSize - 1) / bs);
    MulGap(bs, (fileSize - 1) / bs, offset / bs);
  }

  /** The end of the file lies in the same block, d bytes before the offset. */
  lemma BeyondInBlock(bs: nat, fo: nat, d: nat)
    requires d <= fo < bs <= INT_RANGE
    ensures var touched := (fo + (SIZE_RANGE - d)) % SIZE_RANGE; touched / bs == 0 && touched % bs == fo - d
  {
    DivModUnique(bs, 0, fo - d, fo - d);
  }

  /** The offset lies e bytes or more behind the block where the file ends. */
  lemma BeyondBlock(bs: nat, f: nat, fo: nat, e: nat, size: nat)
    requires bs > 0 && INT_RANGE % bs == 0 && fo < bs && 0 < e <= f * bs && f <= INT_LIMIT
    ensures var touched := SIZE_RANGE - e;
            touched / bs >= 0 && InfoFor(bs, f, fo, size, touched / bs, touched % bs).toBlock < f
  {
    var m, q := INT_RANGE / bs, (e + bs - 1) / bs;
    DivModSplit(bs, INT_RANGE);
    DivModSplit(bs, e + bs - 1);
    MulGap(bs, f, q);
    MulGap(bs, q, 0);
    assert m > 0;
    WrappedDivision(bs, m, q, e);
    NarrowedBack(m, q);
  }

  /**
   For a block size that divides 2^32, nothing is copied exactly when the offset lies in a block
   behind the last one of the file; in that last block a huge length is copied.
   */
  lemma BeyondExactly(bs: nat, fileSize: nat, offset: nat)
    requires bs > 0 && INT_RANGE % bs == 0 && 0 < fileSize < offset < OFF_LIMIT && offset / bs <= INT_LIMIT
    ensures NothingBeyond(bs, fileSize, offset) <==> (fileSize - 1) / bs < offset / bs
  {
    var f, fo, d := offset / bs, offset % bs, offset - fileSize;
    DivModSplit(bs, offset);
    BehindLastBlock(bs, fileSize, offset);
    if d <= fo {
      BeyondInBlock(bs, fo, d);
      assert f == 0 ==> f * bs == 0;
    } else {
      assert (fo + (SIZE_RANGE - d)) % SIZE_RANGE == SIZE_RANGE - (d - fo);
      BeyondBlock(bs, f, fo, d - fo, SIZE_RANGE - d);
    }
  }
}
