/**
 Reading back what was stored: files after any run, and the target of a symbolic link. A link is
 read from offset 0 over contiguous blocks, so even the as-written reader gets it right.
 */
module ReadBack {
  import opened FlatFile
  import opened Tables
  import opened BlockInfo
  import opened BlockStore
  import opened SparseRead
  import opened Changes
  import opened Runs

  /** The number of bytes that `psql_read_buf` returns, for an offset up to the end of the file. */
  function ReadLength(fileSize: nat, offset: nat, len: nat): nat
    requires fileSize > 0 ==> offset <= fileSize
  {
    if fileSize == 0 then 0 else Min(len, fileSize - offset)
  }

  /**
   After every run whose truncates were harmless, a read returns what POSIX `read()` returns on the
   flat file that the same run produces, cut at its end; as written, if it starts at a block
   boundary and every row with a non-zero byte is taken under its own number.
   */
  lemma ReadAfterRun(reader: Reader, bs: nat, log: seq<Change>, id: Id, offset: nat, len: nat, before: seq<byte>)
    requires bs > 0 && Run(bs, log).Some? && SafeResizes(bs, log) && id in FlatRun(log) && len < INT_LIMIT
    requires FlatRun(log)[id] != [] ==> offset <= |FlatRun(log)[id]|
    requires |before| == ReadLength(|FlatRun(log)[id]|, offset, len)
    requires reader.Intended? ||
             (offset % bs == 0 && ReadLandsRight(reader, Run(bs, log).value.data, bs, id, offset, |before|))
    ensures FullBlocks(Run(bs, log).value.data, bs)
    ensures ReadBytes(reader, Run(bs, log).value.data, bs, id, offset, |before|, before)
            == ReadFlat(FlatRun(log)[id], offset, len)
  {
    FlatFileIsContent(bs, log, id);
    var t, n := Run(bs, log).value, |before|;
    if n > 0 {
      IntLengthFits(bs, offset, n);
      if reader.Intended? {
        IntendedReads(t.data, bs, id, offset, n);
      } else {
        var info := ComputeBlockInfo(bs, offset, n);
        MergeRightExactly(reader, t.data, bs, id, info.fromBlock, info.toBlock);
      }
      ReadIsSlice(reader, t, bs, id, offset, n, before);
    } else {
      assert ReadFlat(FlatRun(log)[id], offset, len) == [];
    }
  }

  lemma FlatFileIsContent(bs: nat, log: seq<Change>, id: Id)
    requires bs > 0 && Run(bs, log).Some? && SafeResizes(bs, log) && id in FlatRun(log)
    ensures var t := Run(bs, log).value;
            FullBlocks(t.data, bs) && id in t.dir && Content(t, bs, id) == FlatRun(log)[id]
  {
    RunRefinesFlatFiles(bs, log);
    assert id in FilesOf(bs, Run(bs, log).value);
  }

  ghost predicate AllPresent(data: Data, id: Id, from: nat, upto: int) {
    forall no: nat | from <= no <= upto :: BlockKey(id, no) in data
  }

  lemma {:induction false} PresentRows(data: Data, id: Id, from: nat, upto: int, j: nat)
    requires AllPresent(data, id, from, upto) && j < |RowsIn(data, id, from, upto)|
    ensures RowsIn(data, id, from, upto)[j].no == from + j
    decreases j
  {
    if j > 0 {
      assert BlockKey(id, from) in data;
      PresentRows(data, id, from + 1, upto, j - 1);
      assert RowsIn(data, id, from, upto)[j] == RowsIn(data, id, from + 1, upto)[j - 1];
    }
  }

  lemma ContiguousRead(reader: Reader, data: Data, bs: nat, id: Id, upto: int)
    requires AllPresent(data, id, 0, upto) && upto < INT_RANGE
    ensures MergeRight(reader, data, bs, id, 0, upto)
  {
    var rows := RowsIn(data, id, 0, upto);
    match reader
    case Intended => IntendedMerges(data, bs, id, 0, upto);
    case AsWritten(Big) => BigEndianMerges(data, bs, id, 0, upto);
    case AsWritten(Little) =>
      forall j | 0 <= j < |rows|
        ensures rows[j].no == j
      {
        PresentRows(data, id, 0, upto, j);
      }
      LittleEndianMergeExact(data, bs, id, 0, upto);
  }

  lemma TargetBlocksPresent(bs: nat, t: Tables, id: Id, parent: Id, name: string, target: seq<byte>)
    requires Allowed(bs, t, AddLink(id, parent, name, target)) && 0 < |target| < INT_LIMIT
    ensures var data := Apply(bs, t, AddLink(id, parent, name, target)).data;
            var info := ComputeBlockInfo(bs, 0, |target|);
            info.fromBlock == 0 && info.toBlock < INT_RANGE && AllPresent(data, id, 0, info.toBlock)
  {
    IntLengthFits(bs, 0, |target|);
    InfoFacts(bs, 0, |target|);
    DivModUnique(bs, 0, 0, 0);
    var data := Apply(bs, t, AddLink(id, parent, name, target)).data;
    var info := ComputeBlockInfo(bs, 0, |target|);
    forall no: nat | 0 <= no <= info.toBlock
      ensures BlockKey(id, no) in data
    {
      SplicedRow(t.data, bs, id, 0, target, BlockKey(id, no));
    }
    MulGap(bs, INT_LIMIT, info.toBlock);
    MulGap(bs - 1, 1, INT_LIMIT);
  }

  /** `readlink` after `symlink` yields the target, for every target, block size, host and reader. */
  lemma ReadlinkAfterSymlink(reader: Reader, bs: nat, t: Tables, id: Id, parent: Id, name: string, target: seq<byte>,
                             before: seq<byte>)
    requires Allowed(bs, t, AddLink(id, parent, name, target)) && |target| < INT_LIMIT && |before| == |target|
    ensures var t' := Apply(bs, t, AddLink(id, parent, name, target));
            FullBlocks(t'.data, bs) && t'.dir[id].size == |target|
            && ReadBytes(reader, t'.data, bs, id, 0, |target|, before) == target
  {
    var c := AddLink(id, parent, name, target);
    var t' := Apply(bs, t, c);
    ApplyKeepsRows(bs, t, c);
    if target != [] {
      var info := ComputeBlockInfo(bs, 0, |target|);
      TargetBlocksPresent(bs, t, id, parent, name, target);
      ContiguousRead(reader, t'.data, bs, id, info.toBlock);
      IntLengthFits(bs, 0, |target|);
      DivModUnique(bs, 0, 0, 0);
      ReadIsSlice(reader, t', bs, id, 0, |target|, before);
      forall i | 0 <= i < |target|
        ensures Content(t', bs, id)[i] == target[i]
      {
        ByteAfter(bs, t, c, id, i);
      }
      assert Content(t', bs, id)[0..0 + |target|] == target;
    }
  }

  // ----- what later changes leave alone

  /** The change neither writes nor resizes nor removes the entry; it may rename it. */
  predicate Spares(c: Change, id: Id) {
    match c
    case Remove(x) => x != id
    case WriteAt(x, _, _) => x != id
    case Resize(x, _, _) => x != id
    case _ => true
  }

  ghost predicate SameRows(a: Data, b: Data, id: Id) {
    forall no: nat {:trigger BlockKey(id, no)} ::
      (BlockKey(id, no) in a <==> BlockKey(id, no) in b)
      && (BlockKey(id, no) in a && BlockKey(id, no) in b ==> a[BlockKey(id, no)] == b[BlockKey(id, no)])
  }

  ghost predicate SameFile(a: Tables, b: Tables, id: Id) {
    && id in a.dir && id in b.dir && a.dir[id].size == b.dir[id].size && a.dir[id].kind == b.dir[id].kind
    && SameRows(a.data, b.data, id)
  }

  lemma SparedFile(bs: nat, t: Tables, c: Change, id: Id)
    requires Allowed(bs, t, c) && id in t.dir && Spares(c, id)
    ensures SameFile(t, Apply(bs, t, c), id)
  {
    var t' := Apply(bs, t, c);
    forall no: nat {:trigger BlockKey(id, no)}
      ensures BlockKey(id, no) in t.data <==> BlockKey(id, no) in t'.data
      ensures BlockKey(id, no) in t.data && BlockKey(id, no) in t'.data ==>
                t.data[BlockKey(id, no)] == t'.data[BlockKey(id, no)]
    {
      match c
      case AddLink(x, parent, name, target) => SplicedRow(t.data, bs, x, 0, target, BlockKey(id, no));
      case WriteAt(x, offset, buf) => SplicedRow(t.data, bs, x, offset, buf, BlockKey(id, no));
      case _ =>
    }
  }

  lemma {:induction false} SparedRun(bs: nat, log: seq<Change>, later: seq<Change>, id: Id)
    requires bs > 0 && Run(bs, log + later).Some? && forall i | 0 <= i < |later| :: Spares(later[i], id)
    ensures Run(bs, log).Some?
    ensures id in Run(bs, log).value.dir ==> SameFile(Run(bs, log).value, Run(bs, log + later).value, id)
    decreases |later|
  {
    if later == [] {
      assert log + later == log;
    } else {
      var all, front, c := log + later, later[..|later| - 1], later[|later| - 1];
      assert all[..|all| - 1] == log + front;
      SparedRun(bs, log, front, id);
      if id in Run(bs, log).value.dir {
        SparedFile(bs, Run(bs, log + front).value, c, id);
      }
    }
  }

  lemma {:induction false} SameSelect(a: Data, b: Data, id: Id, from: nat, upto: int)
    requires SameRows(a, b, id)
    ensures RowsIn(a, id, from, upto) == RowsIn(b, id, from, upto)
    decreases upto - from
  {
    if from <= upto {
      SameSelect(a, b, id, from + 1, upto);
    }
  }

  /** A file that later changes spare is read as before, by every reader, right or wrong. */
  lemma SameRead(reader: Reader, a: Data, b: Data, bs: nat, id: Id, offset: nat, n: nat, before: seq<byte>)
    requires bs > 0 && FullBlocks(a, bs) && FullBlocks(b, bs) && SameRows(a, b, id) && |before| == n
    ensures ReadBytes(reader, a, bs, id, offset, n, before) == ReadBytes(reader, b, bs, id, offset, n, before)
  {
    var info := ComputeBlockInfo(bs, offset, n);
    SameSelect(a, b, id, info.fromBlock, info.toBlock);
  }

  /**
   A symbolic link is read back right after every run in which it was made and then neither
   written, resized nor removed, whatever else happened and wherever it was moved.
   */
  lemma LinkSurvives(reader: Reader, bs: nat, log: seq<Change>, link: Change, later: seq<Change>, before: seq<byte>)
    requires bs > 0 && link.AddLink? && |link.target| < INT_LIMIT && |before| == |link.target|
    requires Run(bs, log + [link] + later).Some? && forall i | 0 <= i < |later| :: Spares(later[i], link.id)
    ensures var t := Run(bs, log + [link] + later).value;
            && FullBlocks(t.data, bs) && link.id in t.dir
            && t.dir[link.id].kind == Symlink && t.dir[link.id].size == |link.target|
            && ReadBytes(reader, t.data, bs, link.id, 0, |link.target|, before) == link.target
  {
    var all := log + [link];
    SparedRun(bs, all, later, link.id);
    assert all[..|all| - 1] == log;
    var t0, t1, t := Run(bs, log).value, Run(bs, all).value, Run(bs, all + later).value;
    ReadlinkAfterSymlink(reader, bs, t0, link.id, link.parent, link.name, link.target, before);
    RunKeepsInv(bs, all + later);
    SameRead(reader, t1.data, t.data, bs, link.id, 0, |link.target|, before);
  }
}
