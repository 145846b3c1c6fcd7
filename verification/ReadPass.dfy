/**
 The copying loop of `psql_read_buf`: first block, intermediary blocks and last block of a range
 go into the caller's buffer, each taken from the row or the zero block that the merge picks.
 */
module ReadPass {
  import opened FlatFile
  import opened Tables
  import opened BlockInfo
  import opened BlockStore
  import opened SparseRead

  /** `memcpy( dst, data + from, n )` into the caller's buffer. */
  method Memcpy(buf: array<byte>, dst: nat, data: seq<byte>, from: nat, n: nat)
    requires dst + n <= buf.Length && from + n <= |data|
    modifies buf
    ensures buf[..] == old(buf[..])[..dst] + data[from..from + n] + old(buf[..])[dst + n..]
  {
    forall j | 0 <= j < n {
      buf[dst + j] := data[from + j];
    }
  }

  /** How the pieces of a read of `n` bytes add up, the empty read included. */
  ghost predicate ReadLayout(bs: nat, info: Info, n: nat) {
    && bs > 0 && info.fromOffset < bs
    && info.fromLen <= n && info.fromOffset + info.fromLen <= bs && 0 < info.toLen <= bs
    && (info.fromBlock > info.toBlock ==> n == 0)
    && (info.fromBlock == info.toBlock ==> info.fromLen == n)
    && (info.fromBlock < info.toBlock ==>
          info.fromOffset + info.fromLen == bs
          && info.fromOffset + n == (info.toBlock - info.fromBlock) * bs + info.toLen)
  }

  lemma ReadPlan(bs: nat, offset: nat, n: nat)
    requires bs > 0 && n < INT_LIMIT
    ensures ReadLayout(bs, ComputeBlockInfo(bs, offset, n), n)
  {
    var info := ComputeBlockInfo(bs, offset, n);
    if n == 0 {
      DivModUnique(bs, 0, offset % bs, offset % bs);
    } else {
      IntLengthFits(bs, offset, n);
      FirstPiece(bs, offset, n);
      assert (info.fromBlock + 1) * bs == info.fromBlock * bs + bs;
      assert (info.toBlock - info.fromBlock) * bs == info.toBlock * bs - info.fromBlock * bs;
    }
  }

  /** `want` is the buffer content to arrive at, given what the buffer held before. */
  ghost predicate Wanted(want: seq<byte>, before: seq<byte>, reader: Reader, rows: seq<Row>, bs: nat, info: Info)
    requires bs > 0 && RowsFull(rows, bs)
  {
    |want| <= |before| &&
    forall i | 0 <= i < |want| ::
      want[i] == if Stale(reader, info, i) then before[i] else PickByte(reader, rows, bs, info, i)
  }

  /** The number of bytes copied when the pass reaches the k-th block. */
  function CopiedBefore(bs: nat, info: Info, n: nat, k: nat): int {
    if info.fromBlock + k > info.toBlock then n else if k == 0 then 0 else k * bs - info.fromOffset
  }

  /** The k-th piece of `want` is what copying from the k-th source block produces. */
  ghost predicate PieceIs(want: seq<byte>, before: seq<byte>, reader: Reader, rows: seq<Row>, bs: nat, info: Info,
                          n: nat, k: nat)
    requires ReadLayout(bs, info, n) && RowsFull(rows, bs) && !Overruns(reader, info) && |want| == n <= |before|
    requires info.fromBlock + k <= info.toBlock
  {
    var copied := CopiedBefore(bs, info, n, k);
    && 0 <= copied && copied + PieceLen(bs, info, k) == CopiedBefore(bs, info, n, k + 1) <= n
    && want[copied..copied + PieceLen(bs, info, k)]
       == PieceContent(reader, bs, info, k, Source(reader, rows, bs, info.fromBlock, k), before)
  }

  ghost predicate PiecesAre(want: seq<byte>, before: seq<byte>, reader: Reader, rows: seq<Row>, bs: nat, info: Info, n: nat)
    requires ReadLayout(bs, info, n) && RowsFull(rows, bs) && !Overruns(reader, info) && |want| == n <= |before|
  {
    forall k: nat | info.fromBlock + k <= info.toBlock :: PieceIs(want, before, reader, rows, bs, info, n, k)
  }

  lemma AllPiecesWanted(reader: Reader, rows: seq<Row>, bs: nat, info: Info, n: nat, before: seq<byte>, want: seq<byte>)
    requires ReadLayout(bs, info, n) && RowsFull(rows, bs) && !Overruns(reader, info) && |want| == n <= |before|
    requires Wanted(want, before, reader, rows, bs, info)
    ensures PiecesAre(want, before, reader, rows, bs, info, n)
  {
    forall k: nat | info.fromBlock + k <= info.toBlock
      ensures PieceIs(want, before, reader, rows, bs, info, n, k)
    {
      PieceExtent(bs, info, n, k);
      PieceWanted(reader, rows, bs, info, n, k, CopiedBefore(bs, info, n, k), before, want);
    }
  }

  /** The buffer once the first `copied` bytes have arrived. */
  ghost function Progress(want: seq<byte>, before: seq<byte>, copied: nat): seq<byte>
    requires copied <= |want| <= |before|
  {
    want[..copied] + before[copied..]
  }

  lemma ProgressOnePiece(want: seq<byte>, before: seq<byte>, copied: nat, r: nat)
    requires copied <= r <= |want| <= |before|
    ensures var now := Progress(want, before, copied);
            now[..copied] + want[copied..r] + now[r..] == Progress(want, before, r)
  {
  }

  /** The copying loop of `psql_read_buf` over the rows of the SELECT. */
  method MergePass(reader: Reader, rows: seq<Row>, bs: nat, info: Info, buf: array<byte>, n: nat,
                   ghost want: seq<byte>, ghost before: seq<byte>) returns (copied: nat)
    requires ReadLayout(bs, info, n) && RowsFull(rows, bs) && n <= buf.Length && !Overruns(reader, info)
    requires before == buf[..] && |want| == n && PiecesAre(want, before, reader, rows, bs, info, n)
    modifies buf
    ensures copied == n && buf[..] == Progress(want, before, n)
  {
    copied := 0;
    var k, idx := 0, 0;
    assert Progress(want, before, 0) == before;
    while info.fromBlock + k <= info.toBlock
      invariant info.fromBlock + k <= Max(info.fromBlock, info.toBlock + 1)
      invariant idx == Cursor(reader, rows, info.fromBlock, k)
      invariant copied <= n && copied == CopiedBefore(bs, info, n, k)
      invariant buf[..] == Progress(want, before, copied)
      decreases info.toBlock - (info.fromBlock + k)
    {
      copied, idx := MergeStep(reader, rows, bs, info, buf, n, k, copied, idx, want, before);
      k := k + 1;
    }
  }

  /** One block of the pass: the row if its number is reached, else the zero block. */
  method MergeStep(reader: Reader, rows: seq<Row>, bs: nat, info: Info, buf: array<byte>, n: nat, k: nat, copied: nat,
                   idx: nat, ghost want: seq<byte>, ghost before: seq<byte>) returns (r: nat, idx': nat)
    requires ReadLayout(bs, info, n) && RowsFull(rows, bs) && !Overruns(reader, info)
    requires info.fromBlock + k <= info.toBlock && idx == Cursor(reader, rows, info.fromBlock, k)
    requires |want| == n <= |before| && PiecesAre(want, before, reader, rows, bs, info, n)
    requires copied <= n && copied == CopiedBefore(bs, info, n, k) && buf[..] == Progress(want, before, copied)
    modifies buf
    ensures idx' == Cursor(reader, rows, info.fromBlock, k + 1)
    ensures r == CopiedBefore(bs, info, n, k + 1) && r <= n && buf[..] == Progress(want, before, r)
  {
    assert PieceIs(want, before, reader, rows, bs, info, n, k);
    var data := Zeros(bs);
    idx' := idx;
    if TakesRow(reader, rows, idx, info.fromBlock + k) {
      data := rows[idx].data;
      idx' := idx + 1;
    }
    r := MergeBlock(reader, rows, bs, info, buf, n, k, copied, data, want, before);
  }

  method MergeBlock(reader: Reader, ghost rows: seq<Row>, bs: nat, info: Info, buf: array<byte>, n: nat, k: nat,
                    copied: nat, data: seq<byte>, ghost want: seq<byte>, ghost before: seq<byte>) returns (r: nat)
    requires ReadLayout(bs, info, n) && RowsFull(rows, bs) && !Overruns(reader, info) && info.fromBlock + k <= info.toBlock
    requires |want| == n <= |before| && PieceIs(want, before, reader, rows, bs, info, n, k)
    requires data == Source(reader, rows, bs, info.fromBlock, k) && copied == CopiedBefore(bs, info, n, k)
    requires copied <= n && buf[..] == Progress(want, before, copied)
    modifies buf
    ensures r == CopiedBefore(bs, info, n, k + 1) && r <= n && buf[..] == Progress(want, before, r)
  {
    ghost var now := buf[..];
    assert k == 0 ==> now == before;
    r := CopyPiece(reader, bs, info, buf, n, k, copied, data);
    ProgressOnePiece(want, before, copied, r);
  }

  /** What the k-th piece puts into the buffer; the as-written first copy leaves some old bytes standing. */
  ghost function PieceContent(reader: Reader, bs: nat, info: Info, k: nat, data: seq<byte>, held: seq<byte>): seq<byte>
    requires |data| == bs && info.toLen <= bs && info.fromOffset + info.fromLen <= bs
    requires k == 0 ==> 0 <= FirstCopy(reader, info) && info.fromLen <= |held|
  {
    if k == 0 then
      data[info.fromOffset..info.fromOffset + FirstCopy(reader, info)] + held[FirstCopy(reader, info)..info.fromLen]
    else data[..PieceLen(bs, info, k)]
  }

  /** First block, last block or intermediary block; returns the new number of copied bytes. */
  method CopyPiece(reader: Reader, bs: nat, info: Info, buf: array<byte>, n: nat, k: nat, copied: nat, data: seq<byte>)
      returns (r: nat)
    requires |data| == bs && info.toLen <= bs && info.fromOffset + info.fromLen <= bs
    requires k == 0 ==> copied == 0 && 0 <= FirstCopy(reader, info)
    requires copied + PieceLen(bs, info, k) <= n <= buf.Length
    modifies buf
    ensures r == copied + PieceLen(bs, info, k)
    ensures buf[..] == old(buf[..])[..copied] + PieceContent(reader, bs, info, k, data, old(buf[..])) + old(buf[..])[r..]
  {
    CopyIsPiece(reader, bs, info, k, data, buf[..], copied);
    r := copied + PieceLen(bs, info, k);
    var from, len := 0, bs;
    if k == 0 {
      from, len := info.fromOffset, FirstCopy(reader, info);
    } else if info.fromBlock + k == info.toBlock {
      len := info.toLen;
    }
    Memcpy(buf, copied, data, from, len);
  }

  /** Copying fewer bytes than the first piece has leaves the bytes in between as they were. */
  lemma CopyIsPiece(reader: Reader, bs: nat, info: Info, k: nat, data: seq<byte>, now: seq<byte>, copied: nat)
    requires |data| == bs && info.toLen <= bs && info.fromOffset + info.fromLen <= bs
    requires k == 0 ==> copied == 0 && 0 <= FirstCopy(reader, info)
    requires copied + PieceLen(bs, info, k) <= |now|
    ensures var from, n := PieceOffset(info, k), if k == 0 then FirstCopy(reader, info) else PieceLen(bs, info, k);
            now[..copied] + data[from..from + n] + now[copied + n..]
            == now[..copied] + PieceContent(reader, bs, info, k, data, now) + now[copied + PieceLen(bs, info, k)..]
  {
    if k == 0 {
      var n := FirstCopy(reader, info);
      assert now[n..] == now[n..info.fromLen] + now[info.fromLen..];
    }
  }

  lemma PieceWanted(reader: Reader, rows: seq<Row>, bs: nat, info: Info, n: nat, k: nat, copied: nat,
                    before: seq<byte>, want: seq<byte>)
    requires ReadLayout(bs, info, n) && RowsFull(rows, bs) && !Overruns(reader, info)
    requires info.fromBlock + k <= info.toBlock && copied == CopiedBefore(bs, info, n, k)
    requires |want| == n <= |before| && Wanted(want, before, reader, rows, bs, info)
    ensures copied + PieceLen(bs, info, k) == CopiedBefore(bs, info, n, k + 1) <= n
    ensures want[copied..copied + PieceLen(bs, info, k)]
            == PieceContent(reader, bs, info, k, Source(reader, rows, bs, info.fromBlock, k), before)
  {
    PieceExtent(bs, info, n, k);
    var lhs := want[copied..copied + PieceLen(bs, info, k)];
    var rhs := PieceContent(reader, bs, info, k, Source(reader, rows, bs, info.fromBlock, k), before);
    forall j | 0 <= j < |lhs|
      ensures lhs[j] == rhs[j]
    {
      PieceByteWanted(reader, rows, bs, info, n, k, copied, before, want, j);
    }
  }

  /** One byte of the k-th piece. */
  lemma PieceByteWanted(reader: Reader, rows: seq<Row>, bs: nat, info: Info, n: nat, k: nat, copied: nat,
                        before: seq<byte>, want: seq<byte>, j: nat)
    requires ReadLayout(bs, info, n) && RowsFull(rows, bs) && !Overruns(reader, info)
    requires info.fromBlock + k <= info.toBlock && copied == CopiedBefore(bs, info, n, k)
    requires |want| == n <= |before| && Wanted(want, before, reader, rows, bs, info)
    requires j < PieceLen(bs, info, k) && copied + PieceLen(bs, info, k) <= n && (k > 0 ==> info.fromLen <= copied)
    ensures want[copied + j]
            == PieceContent(reader, bs, info, k, Source(reader, rows, bs, info.fromBlock, k), before)[j]
  {
    PieceByte(reader, rows, bs, info, n, k, copied, j);
    var data := Source(reader, rows, bs, info.fromBlock, k);
    WantedByte(want, before, reader, rows, bs, info, copied + j);
    if k == 0 {
      FirstPieceByte(reader, bs, info, data, before, j);
    }
  }

  lemma WantedByte(want: seq<byte>, before: seq<byte>, reader: Reader, rows: seq<Row>, bs: nat, info: Info, i: nat)
    requires bs > 0 && RowsFull(rows, bs) && Wanted(want, before, reader, rows, bs, info) && i < |want|
    ensures want[i] == if Stale(reader, info, i) then before[i] else PickByte(reader, rows, bs, info, i)
  {
  }

  /** The first piece: copied bytes, then stale ones. */
  lemma FirstPieceByte(reader: Reader, bs: nat, info: Info, data: seq<byte>, held: seq<byte>, j: nat)
    requires |data| == bs && info.toLen <= bs && info.fromOffset + info.fromLen <= bs
    requires 0 <= FirstCopy(reader, info) && info.fromLen <= |held| && j < info.fromLen
    ensures PieceContent(reader, bs, info, 0, data, held)[j]
            == if Stale(reader, info, j) then held[j] else data[info.fromOffset + j]
  {
  }

  /** How far the k-th piece reaches in the buffer. */
  lemma PieceExtent(bs: nat, info: Info, n: nat, k: nat)
    requires ReadLayout(bs, info, n) && info.fromBlock + k <= info.toBlock
    ensures 0 <= CopiedBefore(bs, info, n, k)
    ensures CopiedBefore(bs, info, n, k) + PieceLen(bs, info, k) == CopiedBefore(bs, info, n, k + 1) <= n
    ensures k > 0 ==> info.fromLen <= CopiedBefore(bs, info, n, k)
  {
    assert (k + 1) * bs == k * bs + bs;
    MulGap(bs, k, info.toBlock - info.fromBlock);
    MulGap(bs, 1, k);
  }

  /** Which byte of the k-th source block a position of the k-th piece takes. */
  lemma PieceByte(reader: Reader, rows: seq<Row>, bs: nat, info: Info, n: nat, k: nat, copied: nat, j: nat)
    requires ReadLayout(bs, info, n) && RowsFull(rows, bs) && info.fromBlock + k <= info.toBlock
    requires copied == CopiedBefore(bs, info, n, k) && j < PieceLen(bs, info, k)
    ensures PickByte(reader, rows, bs, info, copied + j)
            == Source(reader, rows, bs, info.fromBlock, k)[PieceOffset(info, k) + j]
  {
    BlockOf(bs, k, info.fromOffset + copied + j);
  }

  /** The whole pass, in terms of the table that the rows came from. */
  method FillBuffer(reader: Reader, ghost data: Data, rows: seq<Row>, bs: nat, ghost id: Id, ghost offset: nat, size: nat,
                    info: Info, buf: array<byte>) returns (copied: nat)
    requires bs > 0 && FullBlocks(data, bs) && size < INT_LIMIT && size <= buf.Length
    requires info == ComputeBlockInfo(bs, offset, size) && rows == ReadRows(data, bs, id, offset, size)
    requires !Overruns(reader, info)
    modifies buf
    ensures copied == size
    ensures buf[..size] == ReadBytes(reader, data, bs, id, offset, size, old(buf[..size]))
    ensures buf[size..] == old(buf[size..])
  {
    ReadPlan(bs, offset, size);
    RowsInFull(data, bs, id, info.fromBlock, info.toBlock);
    ghost var want := ReadBytes(reader, data, bs, id, offset, size, buf[..size]);
    ReadBytesWanted(reader, data, bs, id, offset, size, buf[..]);
    AllPiecesWanted(reader, rows, bs, info, size, buf[..], want);
    ghost var before := buf[..];
    copied := MergePass(reader, rows, bs, info, buf, size, want, before);
    assert buf[..size] == buf[..][..size] == want;
    assert buf[size..] == buf[..][size..] == before[size..];
  }

  lemma ReadBytesWanted(reader: Reader, data: Data, bs: nat, id: Id, offset: nat, size: nat, before: seq<byte>)
    requires bs > 0 && FullBlocks(data, bs) && size <= |before|
    ensures RowsFull(ReadRows(data, bs, id, offset, size), bs)
    ensures Wanted(ReadBytes(reader, data, bs, id, offset, size, before[..size]), before, reader,
                   ReadRows(data, bs, id, offset, size), bs, ComputeBlockInfo(bs, offset, size))
  {
    var info := ComputeBlockInfo(bs, offset, size);
    RowsInFull(data, bs, id, info.fromBlock, info.toBlock);
  }
}
