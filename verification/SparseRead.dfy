/**
 The read side of the block store: one ordered SELECT whose rows are merged, in a single pass,
 with implicit zero blocks for the numbers that have no row.

 `Reader` says which text of `psql_read_buf` is meant. `AsWritten` decodes the 64-bit block
 number of a row with `ntohl` and copies `from_len - from_offset` bytes of the first block.
 `Intended` decodes the number itself and copies `from_len` bytes.
 */
module SparseRead {
  import opened FlatFile
  import opened Tables
  import opened BlockInfo
  import opened BlockStore

  datatype Endian = Little | Big

  datatype Reader = Intended | AsWritten(host: Endian)

  /** `ntohl` applied to a 64-bit column in network byte order: the high word on a little-endian host. */
  function NetworkLong(host: Endian, x: nat): nat {
    match host
    case Little => x / INT_RANGE % INT_RANGE
    case Big => x % INT_RANGE
  }

  /** The values of bytes in big-endian and in little-endian order. */
  function BigValue(bytes: seq<byte>): nat {
    if bytes == [] then 0 else BigValue(bytes[..|bytes| - 1]) * 256 + bytes[|bytes| - 1] as int
  }

  function LittleValue(bytes: seq<byte>): nat {
    if bytes == [] then 0 else bytes[0] as int + 256 * LittleValue(bytes[1..])
  }

  /** What a host of that byte order reads from memory. */
  function Load(host: Endian, bytes: seq<byte>): nat {
    if host == Little then LittleValue(bytes) else BigValue(bytes)
  }

  function Pow256(n: nat): nat {
    if n == 0 then 1 else 256 * Pow256(n - 1)
  }

  lemma {:induction false} BigValueSplits(front: seq<byte>, back: seq<byte>)
    ensures BigValue(front + back) == BigValue(front) * Pow256(|back|) + BigValue(back) && BigValue(back) < Pow256(|back|)
    decreases |back|
  {
    if back == [] {
      assert front + back == front;
    } else {
      var b := back[..|back| - 1];
      BigValueSplits(front, b);
      assert (front + back)[..|front + back| - 1] == front + b;
      assert BigValue(front) * Pow256(|b|) * 256 == BigValue(front) * Pow256(|back|);
    }
  }

  lemma {:induction false} LittleValueSplits(front: seq<byte>, back: seq<byte>)
    ensures LittleValue(front + back) == LittleValue(front) + Pow256(|front|) * LittleValue(back)
    ensures LittleValue(front) < Pow256(|front|)
    decreases |front|
  {
    if front == [] {
      assert front + back == back;
    } else {
      var f := front[1..];
      LittleValueSplits(f, back);
      assert (front + back)[1..] == f + back;
      assert 256 * (Pow256(|f|) * LittleValue(back)) == Pow256(|front|) * LittleValue(back);
    }
  }

  /**
   `NetworkLong` byte by byte: the eight bytes of the column are loaded as one 64-bit integer and
   narrowed to 32 bits, which picks the four bytes that the host takes for the low word; `ntohl` is
   the network value of these four.
   */
  lemma NetworkLongReadsHalf(host: Endian, bytes: seq<byte>)
    requires |bytes| == 8
    ensures var half := if host == Little then bytes[..4] else bytes[4..];
            && Load(host, bytes) % INT_RANGE == Load(host, half)
            && NetworkLong(host, BigValue(bytes)) == BigValue(half)
  {
    var high, low := bytes[..4], bytes[4..];
    assert bytes == high + low && Pow256(4) == INT_RANGE;
    BigValueSplits(high, low);
    BigValueSplits([], high);
    LittleValueSplits(high, low);
    DivModUnique(INT_RANGE, BigValue(high), BigValue(low), BigValue(bytes));
    DivModUnique(INT_RANGE, 0, BigValue(high), BigValue(high));
    DivModUnique(INT_RANGE, LittleValue(low), LittleValue(high), LittleValue(bytes));
  }

  function RowNumber(reader: Reader, no: nat): nat {
    match reader
    case Intended => no
    case AsWritten(host) => NetworkLong(host, no)
  }

  /** Bytes of the first block that `memcpy` moves; negative means the `size_t` length wraps. */
  function FirstCopy(reader: Reader, info: Info): int {
    if reader.Intended? then info.fromLen else info.fromLen - info.fromOffset
  }

  datatype Row = Row(no: nat, data: seq<byte>)

  /** SELECT ... WHERE dir_id = id AND block_no BETWEEN from AND to ORDER BY block_no ASC. */
  function RowsIn(data: Data, id: Id, from: nat, upto: int): seq<Row>
    decreases upto - from
  {
    if from > upto then []
    else (if BlockKey(id, from) in data then [Row(from, data[BlockKey(id, from)])] else [])
         + RowsIn(data, id, from + 1, upto)
  }

  // ----- the merge

  predicate TakesRow(reader: Reader, rows: seq<Row>, idx: nat, no: nat) {
    idx < |rows| && !(no < RowNumber(reader, rows[idx].no))
  }

  /** The value of `idx` when the pass reaches the k-th block. */
  function Cursor(reader: Reader, rows: seq<Row>, from: nat, k: nat): (idx: nat)
    ensures idx <= |rows| && idx <= k
  {
    if k == 0 then 0
    else
      var idx := Cursor(reader, rows, from, k - 1);
      if TakesRow(reader, rows, idx, from + k - 1) then idx + 1 else idx
  }

  /** The block the pass copies from for the k-th block number. */
  function Source(reader: Reader, rows: seq<Row>, bs: nat, from: nat, k: nat): seq<byte> {
    var idx := Cursor(reader, rows, from, k);
    if TakesRow(reader, rows, idx, from + k) then rows[idx].data else Zeros(bs)
  }

  /** A row of the result is a row of the table, numbers ascend strictly, and none is missing. */
  lemma {:induction false} RowsSound(data: Data, id: Id, from: nat, upto: int, j: nat)
    requires j < |RowsIn(data, id, from, upto)|
    ensures var r := RowsIn(data, id, from, upto)[j];
            && from + j <= r.no <= upto
            && BlockKey(id, r.no) in data && data[BlockKey(id, r.no)] == r.data
            && (j > 0 ==> RowsIn(data, id, from, upto)[j - 1].no < r.no)
    decreases upto - from
  {
    var rest := RowsIn(data, id, from + 1, upto);
    if BlockKey(id, from) in data {
      if j > 0 {
        RowsSound(data, id, from + 1, upto, j - 1);
        assert RowsIn(data, id, from, upto)[j] == rest[j - 1];
      }
    } else {
      RowsSound(data, id, from + 1, upto, j);
    }
  }

  lemma {:induction false} RowsComplete(data: Data, id: Id, from: nat, upto: int, no: nat) returns (j: nat)
    requires from <= no <= upto && BlockKey(id, no) in data
    ensures j < |RowsIn(data, id, from, upto)| && RowsIn(data, id, from, upto)[j].no == no
    decreases no - from
  {
    if no == from {
      j := 0;
    } else {
      var j' := RowsComplete(data, id, from + 1, upto, no);
      j := if BlockKey(id, from) in data then j' + 1 else j';
    }
  }

  /** The number under which the pass takes row j: the row before is taken and the decoded number is reached. */
  function Landing(reader: Reader, rows: seq<Row>, from: nat, j: nat): nat
    requires j < |rows|
  {
    Max(if j == 0 then from else Landing(reader, rows, from, j - 1) + 1, RowNumber(reader, rows[j].no))
  }

  lemma {:induction false} LandingAscends(reader: Reader, rows: seq<Row>, from: nat, i: nat, j: nat)
    requires i < j < |rows|
    ensures Landing(reader, rows, from, i) < Landing(reader, rows, from, j)
    decreases j
  {
    if i < j - 1 {
      LandingAscends(reader, rows, from, i, j - 1);
    }
  }

  /** A row is taken at or before its own number: no reader decodes a number as a larger one. */
  lemma {:induction false} LandingNotLate(reader: Reader, data: Data, id: Id, from: nat, upto: int, j: nat)
    requires j < |RowsIn(data, id, from, upto)|
    ensures var rows := RowsIn(data, id, from, upto);
            from <= Landing(reader, rows, from, j) <= rows[j].no <= upto
    decreases j
  {
    RowsSound(data, id, from, upto, j);
    if j > 0 {
      LandingNotLate(reader, data, id, from, upto, j - 1);
    }
  }

  /** A row whose turn has come is taken at `no` exactly when it lands there. */
  lemma TakenAtLanding(reader: Reader, rows: seq<Row>, from: nat, j: nat, no: nat)
    requires j < |rows| && from <= no <= Landing(reader, rows, from, j)
    requires j > 0 ==> Landing(reader, rows, from, j - 1) < no
    ensures TakesRow(reader, rows, j, no) <==> Landing(reader, rows, from, j) == no
  {
  }

  /** Exactly the first `idx` rows land before `no`. */
  ghost predicate LandedBefore(reader: Reader, rows: seq<Row>, from: nat, idx: nat, no: nat) {
    && idx <= |rows|
    && (idx > 0 ==> Landing(reader, rows, from, idx - 1) < no)
    && (idx < |rows| ==> Landing(reader, rows, from, idx) >= no)
  }

  lemma LandedStep(reader: Reader, rows: seq<Row>, from: nat, idx: nat, no: nat)
    requires from <= no && LandedBefore(reader, rows, from, idx, no)
    ensures if TakesRow(reader, rows, idx, no) then LandedBefore(reader, rows, from, idx + 1, no + 1)
            else LandedBefore(reader, rows, from, idx, no + 1)
  {
    if idx < |rows| {
      TakenAtLanding(reader, rows, from, idx, no);
      if idx + 1 < |rows| {
        LandingAscends(reader, rows, from, idx, idx + 1);
      }
    }
  }

  /** When the pass reaches the k-th block, exactly the rows that land before it are taken. */
  lemma {:induction false} CursorAtLanding(reader: Reader, rows: seq<Row>, from: nat, k: nat)
    ensures LandedBefore(reader, rows, from, Cursor(reader, rows, from, k), from + k)
  {
    if k > 0 {
      CursorAtLanding(reader, rows, from, k - 1);
      LandedStep(reader, rows, from, Cursor(reader, rows, from, k - 1), from + k - 1);
    }
  }

  /** So a number is served by the row that lands on it, or else by the zero block. */
  lemma SourceByLanding(reader: Reader, rows: seq<Row>, bs: nat, from: nat, k: nat)
    ensures var idx := Cursor(reader, rows, from, k);
            Source(reader, rows, bs, from, k)
            == if idx < |rows| && Landing(reader, rows, from, idx) == from + k then rows[idx].data else Zeros(bs)
  {
    CursorAtLanding(reader, rows, from, k);
  }

  lemma SourceAtLanding(reader: Reader, rows: seq<Row>, bs: nat, from: nat, j: nat)
    requires j < |rows| && from <= Landing(reader, rows, from, j)
    ensures Source(reader, rows, bs, from, Landing(reader, rows, from, j) - from) == rows[j].data
  {
    var k := Landing(reader, rows, from, j) - from;
    var idx := Cursor(reader, rows, from, k);
    CursorAtLanding(reader, rows, from, k);
    SourceByLanding(reader, rows, bs, from, k);
    if j < idx - 1 {
      LandingAscends(reader, rows, from, j, idx - 1);
    } else if idx < j {
      LandingAscends(reader, rows, from, idx, j);
    }
  }

  // ----- when the merge is right

  ghost predicate MergeRight(reader: Reader, data: Data, bs: nat, id: Id, from: nat, upto: int) {
    forall k: nat | from + k <= upto ::
      Source(reader, RowsIn(data, id, from, upto), bs, from, k) == Block(data, bs, id, from + k)
  }

  /** Every row is taken under its own number, unless it holds nothing but zeros. */
  ghost predicate LandsRight(reader: Reader, rows: seq<Row>, bs: nat, from: nat) {
    forall j | 0 <= j < |rows| :: Landing(reader, rows, from, j) == rows[j].no || rows[j].data == Zeros(bs)
  }

  lemma LandsRightMerges(reader: Reader, data: Data, bs: nat, id: Id, from: nat, upto: int, k: nat)
    requires LandsRight(reader, RowsIn(data, id, from, upto), bs, from) && from + k <= upto
    ensures Source(reader, RowsIn(data, id, from, upto), bs, from, k) == Block(data, bs, id, from + k)
  {
    var rows := RowsIn(data, id, from, upto);
    SourceByLanding(reader, rows, bs, from, k);
    var idx := Cursor(reader, rows, from, k);
    if idx < |rows| {
      RowsSound(data, id, from, upto, idx);
    }
    if BlockKey(id, from + k) in data {
      var i := RowsComplete(data, id, from, upto, from + k);
      RowsSound(data, id, from, upto, i);
      if Landing(reader, rows, from, i) == from + k {
        SourceAtLanding(reader, rows, bs, from, i);
      }
    }
  }

  /** A row taken too early is taken under a number that the pass reads in full, so it must be zero. */
  lemma {:induction false} EarlyRowIsZero(reader: Reader, data: Data, bs: nat, id: Id, from: nat, upto: int, j: nat)
    requires forall k: nat | from + k < upto ::
               Source(reader, RowsIn(data, id, from, upto), bs, from, k) == Block(data, bs, id, from + k)
    requires j < |RowsIn(data, id, from, upto)|
    ensures var rows := RowsIn(data, id, from, upto);
            Landing(reader, rows, from, j) == rows[j].no || rows[j].data == Zeros(bs)
  {
    var rows := RowsIn(data, id, from, upto);
    var at := Landing(reader, rows, from, j);
    LandingNotLate(reader, data, id, from, upto, j);
    if at < rows[j].no {
      SourceAtLanding(reader, rows, bs, from, j);
      assert rows[j].data == Block(data, bs, id, from + (at - from));
      if BlockKey(id, at) in data {
        var i := RowsComplete(data, id, from, upto, at);
        RowsSound(data, id, from, upto, i);
        EarlierRowLandsEarlier(reader, data, id, from, upto, i, j);
        EarlyRowIsZero(reader, data, bs, id, from, upto, i);
      }
    }
  }

  lemma EarlierRowLandsEarlier(reader: Reader, data: Data, id: Id, from: nat, upto: int, i: nat, j: nat)
    requires i < |RowsIn(data, id, from, upto)| && j < |RowsIn(data, id, from, upto)|
    requires var rows := RowsIn(data, id, from, upto);
             rows[i].no == Landing(reader, rows, from, j) < rows[j].no
    ensures var rows := RowsIn(data, id, from, upto);
            i < j && Landing(reader, rows, from, i) < rows[i].no
  {
    var rows := RowsIn(data, id, from, upto);
    RowsAscend(data, id, from, upto, i, j);
    LandingAscends(reader, rows, from, i, j);
  }

  lemma {:induction false} RowsAscend(data: Data, id: Id, from: nat, upto: int, i: nat, j: nat)
    requires i < |RowsIn(data, id, from, upto)| && j < |RowsIn(data, id, from, upto)|
    requires RowsIn(data, id, from, upto)[i].no < RowsIn(data, id, from, upto)[j].no
    ensures i < j
    decreases i
  {
    if j < i {
      RowsSound(data, id, from, upto, i);
      RowsAscend(data, id, from, upto, i - 1, j);
    }
  }

  /**
   The merge is right for a range exactly when every row of the range that holds a non-zero byte
   is taken under its own number. This holds of every reader and every row set.
   */
  lemma MergeRightExactly(reader: Reader, data: Data, bs: nat, id: Id, from: nat, upto: int)
    ensures MergeRight(reader, data, bs, id, from, upto) <==> LandsRight(reader, RowsIn(data, id, from, upto), bs, from)
  {
    var rows := RowsIn(data, id, from, upto);
    if MergeRight(reader, data, bs, id, from, upto) {
      forall j | 0 <= j < |rows|
        ensures Landing(reader, rows, from, j) == rows[j].no || rows[j].data == Zeros(bs)
      {
        EarlyRowIsZero(reader, data, bs, id, from, upto, j);
      }
    }
    if LandsRight(reader, rows, bs, from) {
      forall k: nat | from + k <= upto
        ensures Source(reader, rows, bs, from, k) == Block(data, bs, id, from + k)
      {
        LandsRightMerges(reader, data, bs, id, from, upto, k);
      }
    }
  }

  ghost predicate DecodesRows(reader: Reader, rows: seq<Row>) {
    forall j | 0 <= j < |rows| :: RowNumber(reader, rows[j].no) == rows[j].no
  }

  /**
   With rows decoded as numbered the merge is always right: whatever blocks are missing, the pass
   uses for each block number the stored block if there is one and a zero block otherwise.
   */
  lemma MergeFindsBlocks(reader: Reader, data: Data, bs: nat, id: Id, from: nat, upto: int)
    requires DecodesRows(reader, RowsIn(data, id, from, upto))
    ensures MergeRight(reader, data, bs, id, from, upto)
  {
    var rows := RowsIn(data, id, from, upto);
    forall j | 0 <= j < |rows|
      ensures Landing(reader, rows, from, j) == rows[j].no
    {
      LandingNotLate(reader, data, id, from, upto, j);
    }
    MergeRightExactly(reader, data, bs, id, from, upto);
  }

  // ----- the pass as written, on a little-endian host

  /** There the decoded number never exceeds the first number of the range: one row per number. */
  lemma {:induction false} LittleLanding(data: Data, id: Id, from: nat, upto: int, j: nat)
    requires upto - from < INT_RANGE && j < |RowsIn(data, id, from, upto)|
    ensures Landing(AsWritten(Little), RowsIn(data, id, from, upto), from, j) == from + j
    decreases j
  {
    RowsSound(data, id, from, upto, j);
    if j > 0 {
      LittleLanding(data, id, from, upto, j - 1);
    }
  }

  /** No block with a non-zero byte lies behind a hole of the range. */
  ghost predicate NothingBehindHole(rows: seq<Row>, bs: nat, from: nat) {
    forall j | 0 <= j < |rows| :: rows[j].no == from + j || rows[j].data == Zeros(bs)
  }

  lemma LittleLandsRight(data: Data, bs: nat, id: Id, from: nat, upto: int)
    requires upto - from < INT_RANGE
    ensures var rows := RowsIn(data, id, from, upto);
            LandsRight(AsWritten(Little), rows, bs, from) <==> NothingBehindHole(rows, bs, from)
  {
    var rows := RowsIn(data, id, from, upto);
    forall j | 0 <= j < |rows|
      ensures Landing(AsWritten(Little), rows, from, j) == from + j
    {
      LittleLanding(data, id, from, upto, j);
    }
  }

  /**
   As written, on a little-endian host, the pass over fewer than 2^32 blocks is right exactly when
   no block with a non-zero byte lies behind a hole of the range.
   */
  lemma LittleEndianMergeExact(data: Data, bs: nat, id: Id, from: nat, upto: int)
    requires upto - from < INT_RANGE
    ensures MergeRight(AsWritten(Little), data, bs, id, from, upto)
            <==> NothingBehindHole(RowsIn(data, id, from, upto), bs, from)
  {
    MergeRightExactly(AsWritten(Little), data, bs, id, from, upto);
    LittleLandsRight(data, bs, id, from, upto);
  }

  /** On a big-endian host the low word is kept: below block 2^32 the pass is always right. */
  lemma BigEndianMerges(data: Data, bs: nat, id: Id, from: nat, upto: int)
    requires upto < INT_RANGE
    ensures MergeRight(AsWritten(Big), data, bs, id, from, upto)
  {
    var rows := RowsIn(data, id, from, upto);
    forall j | 0 <= j < |rows|
      ensures RowNumber(AsWritten(Big), rows[j].no) == rows[j].no
    {
      RowsSound(data, id, from, upto, j);
    }
    MergeFindsBlocks(AsWritten(Big), data, bs, id, from, upto);
  }

  /** A witness: byte 1 in block 1, block 0 absent. The hole is read as the stored block. */
  lemma LittleEndianHoleWitness()
    ensures var data := map[BlockKey(5, 1) := [1]];
            Source(AsWritten(Little), RowsIn(data, 5, 0, 1), 1, 0, 0) == [1]
            && Block(data, 1, 5, 0) == [0]
  {
    var data := map[BlockKey(5, 1) := [1]];
    assert RowsIn(data, 5, 1, 1) == [Row(1, [1])];
    assert RowsIn(data, 5, 0, 1) == [Row(1, [1])];
    LittleLanding(data, 5, 0, 1, 0);
    SourceAtLanding(AsWritten(Little), RowsIn(data, 5, 0, 1), 1, 0, 0);
    assert Zeros(1) == [0];
  }

  // ----- the bytes that end up in the caller's buffer

  /** The row set of a read of `size` bytes at `offset`. */
  function ReadRows(data: Data, bs: nat, id: Id, offset: nat, size: nat): seq<Row>
    requires bs > 0
  {
    var info := ComputeBlockInfo(bs, offset, size);
    RowsIn(data, id, info.fromBlock, info.toBlock)
  }

  ghost predicate RowsFull(rows: seq<Row>, bs: nat) {
    forall j | 0 <= j < |rows| :: |rows[j].data| == bs
  }

  lemma RowsInFull(data: Data, bs: nat, id: Id, from: nat, upto: int)
    requires FullBlocks(data, bs)
    ensures RowsFull(RowsIn(data, id, from, upto), bs)
  {
    var rows := RowsIn(data, id, from, upto);
    forall j | 0 <= j < |rows|
      ensures |rows[j].data| == bs
    {
      RowsSound(data, id, from, upto, j);
    }
  }

  /** The byte the pass over `rows` provides for position `i` of the range. */
  ghost function PickByte(reader: Reader, rows: seq<Row>, bs: nat, info: Info, i: nat): byte
    requires bs > 0 && RowsFull(rows, bs)
  {
    var p := info.fromOffset + i;
    Source(reader, rows, bs, info.fromBlock, p / bs)[p % bs]
  }

  ghost function PassByte(reader: Reader, data: Data, bs: nat, id: Id, offset: nat, size: nat, i: nat): byte
    requires bs > 0 && FullBlocks(data, bs)
  {
    var info := ComputeBlockInfo(bs, offset, size);
    RowsInFull(data, bs, id, info.fromBlock, info.toBlock);
    PickByte(reader, ReadRows(data, bs, id, offset, size), bs, info, i)
  }

  /** Positions of the first piece that the as-written copy leaves untouched. */
  predicate Stale(reader: Reader, info: Info, i: int) {
    FirstCopy(reader, info) <= i < info.fromLen
  }

  /** The first `memcpy` gets a length that wrapped around in `size_t`. */
  predicate Overruns(reader: Reader, info: Info) {
    info.fromBlock <= info.toBlock && FirstCopy(reader, info) < 0
  }

  /** The buffer after a read of `size` bytes, given what it held before. */
  ghost function ReadBytes(reader: Reader, data: Data, bs: nat, id: Id, offset: nat, size: nat, before: seq<byte>)
      : (r: seq<byte>)
    requires bs > 0 && FullBlocks(data, bs) && |before| == size
    ensures |r| == size
  {
    var info := ComputeBlockInfo(bs, offset, size);
    seq(size, i requires 0 <= i < size =>
      if Stale(reader, info, i) then before[i] else PassByte(reader, data, bs, id, offset, size, i))
  }

  ghost predicate ReadMergesRight(reader: Reader, data: Data, bs: nat, id: Id, offset: nat, size: nat)
    requires bs > 0
  {
    var info := ComputeBlockInfo(bs, offset, size);
    MergeRight(reader, data, bs, id, info.fromBlock, info.toBlock)
  }

  /** The intended reader merges every range of every file right. */
  lemma IntendedMerges(data: Data, bs: nat, id: Id, from: nat, upto: int)
    ensures MergeRight(Intended, data, bs, id, from, upto)
  {
    MergeFindsBlocks(Intended, data, bs, id, from, upto);
  }

  lemma IntendedReads(data: Data, bs: nat, id: Id, offset: nat, size: nat)
    requires bs > 0
    ensures ReadMergesRight(Intended, data, bs, id, offset, size)
  {
    var info := ComputeBlockInfo(bs, offset, size);
    IntendedMerges(data, bs, id, info.fromBlock, info.toBlock);
  }

  /** Where the merge is right, a byte that the pass provides is the byte of the file. */
  lemma PassByteRight(reader: Reader, data: Data, bs: nat, id: Id, offset: nat, size: nat, i: nat)
    requires bs > 0 && FullBlocks(data, bs) && i < size && CountFits(bs, offset, size)
    requires ReadMergesRight(reader, data, bs, id, offset, size)
    ensures PassByte(reader, data, bs, id, offset, size, i) == ByteAt(data, bs, id, offset + i)
  {
    var info := ComputeBlockInfo(bs, offset, size);
    InfoFacts(bs, offset, size);
    var p := info.fromOffset + i;
    DivShift(bs, info.fromBlock, p);
    DivMono(bs, offset + i, offset + size - 1);
    assert offset + i == info.fromBlock * bs + p;
  }

  /**
   A read that merges right and starts at a block boundary, or is the intended one, fills the
   buffer with the slice of the file, whatever the buffer held.
   */
  lemma ReadIsSlice(reader: Reader, t: Tables, bs: nat, id: Id, offset: nat, size: nat, before: seq<byte>)
    requires bs > 0 && FullBlocks(t.data, bs) && id in t.dir && |before| == size
    requires 0 < size && offset + size <= t.dir[id].size && CountFits(bs, offset, size)
    requires ReadMergesRight(reader, t.data, bs, id, offset, size)
    requires reader.Intended? || offset % bs == 0
    ensures ReadBytes(reader, t.data, bs, id, offset, size, before) == Content(t, bs, id)[offset..offset + size]
  {
    forall i | 0 <= i < size
      ensures ReadBytes(reader, t.data, bs, id, offset, size, before)[i] == Content(t, bs, id)[offset + i]
    {
      PassByteRight(reader, t.data, bs, id, offset, size, i);
    }
  }

  /** The read does not overrun and returns the slice of the file into every buffer. */
  ghost predicate ReadRight(reader: Reader, t: Tables, bs: nat, id: Id, offset: nat, size: nat)
    requires bs > 0 && FullBlocks(t.data, bs) && id in t.dir && offset + size <= t.dir[id].size
  {
    && !Overruns(reader, ComputeBlockInfo(bs, offset, size))
    && forall before | |before| == size ::
         ReadBytes(reader, t.data, bs, id, offset, size, before) == Content(t, bs, id)[offset..offset + size]
  }

  ghost predicate ReadLandsRight(reader: Reader, data: Data, bs: nat, id: Id, offset: nat, size: nat)
    requires bs > 0
  {
    LandsRight(reader, ReadRows(data, bs, id, offset, size), bs, ComputeBlockInfo(bs, offset, size).fromBlock)
  }

  /** Inside a block the as-written copy leaves the last byte of the first piece as it was. */
  lemma UnalignedReadWrong(host: Endian, t: Tables, bs: nat, id: Id, offset: nat, size: nat)
    requires bs > 0 && FullBlocks(t.data, bs) && id in t.dir && offset + size <= t.dir[id].size
    requires 0 < size && CountFits(bs, offset, size) && offset % bs > 0
    ensures !ReadRight(AsWritten(host), t, bs, id, offset, size)
  {
    var reader, info := AsWritten(host), ComputeBlockInfo(bs, offset, size);
    FirstPiece(bs, offset, size);
    if !Overruns(reader, info) {
      var i := info.fromLen - 1;
      assert Stale(reader, info, i);
      var slice := Content(t, bs, id)[offset..offset + size];
      var other: byte := if slice[i] == 0 then 1 else 0;
      var before := slice[i := other];
      assert ReadBytes(reader, t.data, bs, id, offset, size, before)[i] == other;
    }
  }

  /** A block that a right read uses in full is picked right. */
  lemma RightReadPicksBlock(reader: Reader, t: Tables, bs: nat, id: Id, offset: nat, size: nat, k: nat)
    requires bs > 0 && FullBlocks(t.data, bs) && id in t.dir && offset + size <= t.dir[id].size
    requires 0 < size && CountFits(bs, offset, size) && offset % bs == 0 && ReadRight(reader, t, bs, id, offset, size)
    requires var info := ComputeBlockInfo(bs, offset, size); info.fromBlock + k < info.toBlock
    ensures var info := ComputeBlockInfo(bs, offset, size);
            Source(reader, ReadRows(t.data, bs, id, offset, size), bs, info.fromBlock, k)
            == Block(t.data, bs, id, info.fromBlock + k)
  {
    var info := ComputeBlockInfo(bs, offset, size);
    FirstPiece(bs, offset, size);
    RowsInFull(t.data, bs, id, info.fromBlock, info.toBlock);
    var picked := Source(reader, ReadRows(t.data, bs, id, offset, size), bs, info.fromBlock, k);
    forall j | 0 <= j < bs
      ensures picked[j] == Block(t.data, bs, id, info.fromBlock + k)[j]
    {
      RightReadPicksByte(reader, t, bs, id, offset, size, info, k, j);
    }
  }

  lemma RightReadPicksByte(reader: Reader, t: Tables, bs: nat, id: Id, offset: nat, size: nat, info: Info, k: nat, j: nat)
    requires bs > 0 && FullBlocks(t.data, bs) && id in t.dir && offset + size <= t.dir[id].size
    requires offset % bs == 0 && ReadRight(reader, t, bs, id, offset, size) && info == ComputeBlockInfo(bs, offset, size)
    requires j < bs && info.fromBlock + k < info.toBlock && info.fromOffset == 0
    requires offset == info.fromBlock * bs && offset + size > info.toBlock * bs
    ensures var picked := Source(reader, ReadRows(t.data, bs, id, offset, size), bs, info.fromBlock, k);
            |picked| == bs && picked[j] == Block(t.data, bs, id, info.fromBlock + k)[j]
  {
    BlockByteInRange(bs, info.fromBlock, info.toBlock, offset, size, k, j);
    PickedByte(reader, t, bs, id, offset, size, info, k, j, k * bs + j);
  }

  /** The byte of a right read at position `p`, which is position j of the k-th block. */
  lemma PickedByte(reader: Reader, t: Tables, bs: nat, id: Id, offset: nat, size: nat, info: Info, k: nat, j: nat, p: nat)
    requires bs > 0 && FullBlocks(t.data, bs) && id in t.dir && offset + size <= t.dir[id].size
    requires offset % bs == 0 && ReadRight(reader, t, bs, id, offset, size) && info == ComputeBlockInfo(bs, offset, size)
    requires info.fromOffset == 0 && p < size && p / bs == k && p % bs == j
    requires (offset + p) / bs == info.fromBlock + k && (offset + p) % bs == j
    ensures var picked := Source(reader, ReadRows(t.data, bs, id, offset, size), bs, info.fromBlock, k);
            |picked| == bs && picked[j] == Block(t.data, bs, id, info.fromBlock + k)[j]
  {
    RowsInFull(t.data, bs, id, info.fromBlock, info.toBlock);
    RightReadByte(reader, t, bs, id, offset, size, p);
  }

  /** Position of byte j of the k-th block of an aligned range, when that block is not the last. */
  lemma BlockByteInRange(bs: nat, from: nat, upto: int, offset: nat, size: nat, k: nat, j: nat)
    requires j < bs && from + k < upto && offset == from * bs && offset + size > upto * bs
    ensures k * bs + j < size && offset + (k * bs + j) == (from + k) * bs + j
    ensures (k * bs + j) / bs == k && (k * bs + j) % bs == j
    ensures (offset + (k * bs + j)) / bs == from + k && (offset + (k * bs + j)) % bs == j
  {
    assert (from + k) * bs == from * bs + k * bs;
    MulGap(bs, from + k, upto);
    DivModUnique(bs, k, j, k * bs + j);
    DivModUnique(bs, from + k, j, (from + k) * bs + j);
  }

  lemma RightReadByte(reader: Reader, t: Tables, bs: nat, id: Id, offset: nat, size: nat, i: nat)
    requires bs > 0 && FullBlocks(t.data, bs) && id in t.dir && offset + size <= t.dir[id].size
    requires i < size && offset % bs == 0 && ReadRight(reader, t, bs, id, offset, size)
    ensures PassByte(reader, t.data, bs, id, offset, size, i) == ByteAt(t.data, bs, id, offset + i)
  {
    var before := Zeros(size);
    var got := ReadBytes(reader, t.data, bs, id, offset, size, before);
    assert got[i] == Content(t, bs, id)[offset..offset + size][i];
  }

  /**
   The read as written is right, for every file, range and buffer, exactly when it starts at a
   block boundary and every row with a non-zero byte is taken under its own number. On a
   little-endian host the latter says that no such row lies behind a hole of the range.
   */
  lemma AsWrittenReadExactly(host: Endian, t: Tables, bs: nat, id: Id, offset: nat, size: nat)
    requires bs > 0 && FullBlocks(t.data, bs) && id in t.dir && offset + size <= t.dir[id].size
    requires 0 < size < INT_LIMIT
    ensures ReadRight(AsWritten(host), t, bs, id, offset, size)
            <==> offset % bs == 0 && ReadLandsRight(AsWritten(host), t.data, bs, id, offset, size)
    ensures host == Little ==>
              (ReadLandsRight(AsWritten(host), t.data, bs, id, offset, size)
               <==> NothingBehindHole(ReadRows(t.data, bs, id, offset, size), bs, offset / bs))
  {
    var reader, info := AsWritten(host), ComputeBlockInfo(bs, offset, size);
    IntLengthFits(bs, offset, size);
    FirstPiece(bs, offset, size);
    if offset % bs > 0 {
      UnalignedReadWrong(host, t, bs, id, offset, size);
    } else if ReadRight(reader, t, bs, id, offset, size) {
      RightReadLands(reader, t, bs, id, offset, size);
    } else if ReadLandsRight(reader, t.data, bs, id, offset, size) {
      LandedReadRight(reader, t, bs, id, offset, size);
    }
    SpanBelowRange(bs, offset, size);
    LittleLandsRight(t.data, bs, id, info.fromBlock, info.toBlock);
  }

  /**
   What the read as written leaves in the buffer, byte by byte, when it does not overrun and the merge is
   right: with the first piece of L bytes starting o bytes inside its block, the last o bytes of that
   piece are as they were, and all others are those of the file.
   */
  lemma AsWrittenBytes(host: Endian, t: Tables, bs: nat, id: Id, offset: nat, size: nat, before: seq<byte>, i: nat)
    requires bs > 0 && FullBlocks(t.data, bs) && id in t.dir && offset + size <= t.dir[id].size
    requires i < size < INT_LIMIT && |before| == size && ReadMergesRight(AsWritten(host), t.data, bs, id, offset, size)
    requires offset % bs <= size && 2 * (offset % bs) <= bs
    ensures var o, L := offset % bs, Min(size, bs - offset % bs);
            ReadBytes(AsWritten(host), t.data, bs, id, offset, size, before)[i]
            == if L - o <= i < L then before[i] else Content(t, bs, id)[offset + i]
  {
    var info := ComputeBlockInfo(bs, offset, size);
    IntLengthFits(bs, offset, size);
    FirstPiece(bs, offset, size);
    PieceReach(bs, offset, size, info);
    PassByteRight(AsWritten(host), t.data, bs, id, offset, size, i);
  }

  lemma RightReadLands(reader: Reader, t: Tables, bs: nat, id: Id, offset: nat, size: nat)
    requires bs > 0 && FullBlocks(t.data, bs) && id in t.dir && offset + size <= t.dir[id].size
    requires 0 < size && CountFits(bs, offset, size) && offset % bs == 0 && ReadRight(reader, t, bs, id, offset, size)
    ensures ReadLandsRight(reader, t.data, bs, id, offset, size)
  {
    var info := ComputeBlockInfo(bs, offset, size);
    var rows := ReadRows(t.data, bs, id, offset, size);
    forall k: nat | info.fromBlock + k < info.toBlock
      ensures Source(reader, rows, bs, info.fromBlock, k) == Block(t.data, bs, id, info.fromBlock + k)
    {
      RightReadPicksBlock(reader, t, bs, id, offset, size, k);
    }
    forall j | 0 <= j < |rows|
      ensures Landing(reader, rows, info.fromBlock, j) == rows[j].no || rows[j].data == Zeros(bs)
    {
      EarlyRowIsZero(reader, t.data, bs, id, info.fromBlock, info.toBlock, j);
    }
  }

  lemma LandedReadRight(reader: Reader, t: Tables, bs: nat, id: Id, offset: nat, size: nat)
    requires bs > 0 && FullBlocks(t.data, bs) && id in t.dir && offset + size <= t.dir[id].size
    requires 0 < size && CountFits(bs, offset, size) && offset % bs == 0
    requires ReadLandsRight(reader, t.data, bs, id, offset, size)
    ensures ReadRight(reader, t, bs, id, offset, size)
  {
    var info := ComputeBlockInfo(bs, offset, size);
    MergeRightExactly(reader, t.data, bs, id, info.fromBlock, info.toBlock);
    forall before | |before| == size
      ensures ReadBytes(reader, t.data, bs, id, offset, size, before) == Content(t, bs, id)[offset..offset + size]
    {
      ReadIsSlice(reader, t, bs, id, offset, size, before);
    }
  }

  /** A read whose length fits an `int` spans fewer than 2^32 blocks. */
  lemma SpanBelowRange(bs: nat, offset: nat, size: nat)
    requires bs > 0 && 0 < size < INT_LIMIT
    ensures var info := ComputeBlockInfo(bs, offset, size); info.toBlock - info.fromBlock < INT_RANGE
  {
  }

  /** It overruns exactly when the first piece is shorter than the offset it starts at, the empty read included. */
  lemma AsWrittenOverrunsExactly(host: Endian, bs: nat, offset: nat, size: nat)
    requires bs > 0 && CountFits(bs, offset, size)
    ensures Overruns(AsWritten(host), ComputeBlockInfo(bs, offset, size))
            <==> Min(size, bs - offset % bs) < offset % bs
  {
    var info := ComputeBlockInfo(bs, offset, size);
    if size > 0 {
      FirstPiece(bs, offset, size);
      PieceReach(bs, offset, size, info);
    } else {
      DivModUnique(bs, 0, offset % bs, offset % bs);
    }
  }

  lemma PieceReach(bs: nat, offset: nat, size: nat, info: Info)
    requires 0 < info.fromLen <= size && info.fromOffset < bs
    requires info.fromBlock <= info.toBlock && offset == info.fromBlock * bs + info.fromOffset
    requires info.fromBlock == info.toBlock ==> info.fromLen == size && info.fromOffset + size <= bs
    requires info.fromBlock < info.toBlock ==> offset + info.fromLen == (info.fromBlock + 1) * bs
    ensures info.fromLen == Min(size, bs - info.fromOffset)
  {
    assert (info.fromBlock + 1) * bs == info.fromBlock * bs + bs;
  }
}
