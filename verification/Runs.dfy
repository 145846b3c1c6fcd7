/**
 Whole runs: every sequence of changes that the hooks can commit, starting from schema.sql.
 */
module Runs {
  import opened FlatFile
  import opened Tables
  import opened BlockInfo
  import opened BlockStore
  import opened Tree
  import opened Changes

  /** The tables after the changes of `log`, or None if one of them was not possible when its turn came. */
  ghost function Run(bs: nat, log: seq<Change>): Option<Tables> {
    if log == [] then Some(GENESIS)
    else
      match Run(bs, log[..|log| - 1])
      case None => None
      case Some(t) =>
        if Allowed(bs, t, log[|log| - 1]) then Some(Apply(bs, t, log[|log| - 1])) else None
  }

  /** The same run on flat files. */
  function FlatRun(log: seq<Change>): Files {
    if log == [] then map[] else FlatApply(FlatRun(log[..|log| - 1]), log[|log| - 1])
  }

  lemma GenesisOk(bs: nat)
    requires bs > 0
    ensures Inv(bs, GENESIS) && Clean(bs, GENESIS) && FilesOf(bs, GENESIS) == map[]
  {
    assert Up(GENESIS.dir, ROOT, 0) == ROOT;
    forall i: nat ensures ByteAt(GENESIS.data, bs, ROOT, i) == 0 {
      NoRowsZero(GENESIS.data, bs, ROOT, i);
    }
    assert FilesOf(bs, GENESIS).Keys == {};
  }

  /** Integrity after every run. */
  lemma {:induction false} RunKeepsInv(bs: nat, log: seq<Change>)
    requires bs > 0 && Run(bs, log).Some?
    ensures Inv(bs, Run(bs, log).value)
  {
    if log == [] {
      GenesisOk(bs);
    } else {
      var front := log[..|log| - 1];
      RunKeepsInv(bs, front);
      ApplyKeepsInv(bs, Run(bs, front).value, log[|log| - 1]);
    }
  }

  /** Every truncate of the run met a file on which it is harmless. */
  ghost predicate SafeResizes(bs: nat, log: seq<Change>) {
    log == [] ||
    (var front, c := log[..|log| - 1], log[|log| - 1];
     && SafeResizes(bs, front)
     && (c.Resize? && Run(bs, front).Some? && Inv(bs, Run(bs, front).value)
         ==> ResizeSafe(c.cut, bs, Run(bs, front).value, c.id, c.n)))
  }

  /** Every run refines the run on flat files: content, size and existence of every file agree. */
  lemma {:induction false} RunRefinesFlatFiles(bs: nat, log: seq<Change>)
    requires bs > 0 && Run(bs, log).Some? && SafeResizes(bs, log)
    ensures Inv(bs, Run(bs, log).value) && Clean(bs, Run(bs, log).value)
    ensures FilesOf(bs, Run(bs, log).value) == FlatRun(log)
  {
    if log == [] {
      GenesisOk(bs);
    } else {
      var front, c := log[..|log| - 1], log[|log| - 1];
      RunRefinesFlatFiles(bs, front);
      var t := Run(bs, front).value;
      ApplyKeepsClean(bs, t, c);
      ApplyRefinesFlat(bs, t, c);
    }
  }

  /** Sizes that `psql_truncate` handles whatever the file contains. */
  predicate PlainSize(bs: nat, n: nat)
    requires bs > 0
  {
    0 < n && n / bs < INT_LIMIT
  }

  /** A truncate that is right whatever the file contains: the intended one, or one to a plain size. */
  predicate TrustedCut(bs: nat, c: Change)
    requires bs > 0
  {
    c.Resize? ==> c.cut == CutIntended || PlainSize(bs, c.n)
  }

  lemma TrustedCutSafe(bs: nat, t: Tables, c: Change)
    requires bs > 0 && FullBlocks(t.data, bs) && TrustedCut(bs, c) && c.Resize?
    ensures ResizeSafe(c.cut, bs, t, c.id, c.n)
  {
    KeptBytesExact(bs, c.n);
    KeptBytesIntended(bs, c.n);
  }

  lemma {:induction false} TrustedRunSafe(bs: nat, log: seq<Change>)
    requires bs > 0 && forall i | 0 <= i < |log| :: TrustedCut(bs, log[i])
    ensures SafeResizes(bs, log)
  {
    if log != [] {
      var front, c := log[..|log| - 1], log[|log| - 1];
      TrustedRunSafe(bs, front);
      if c.Resize? && Run(bs, front).Some? && Inv(bs, Run(bs, front).value) {
        TrustedCutSafe(bs, Run(bs, front).value, c);
      }
    }
  }

  /** With the intended truncate every run refines flat files, whatever sizes it truncates to. */
  lemma IntendedRunRefinesFlatFiles(bs: nat, log: seq<Change>)
    requires bs > 0 && Run(bs, log).Some?
    requires forall i | 0 <= i < |log| :: log[i].Resize? ==> log[i].cut == CutIntended
    ensures Inv(bs, Run(bs, log).value) && FilesOf(bs, Run(bs, log).value) == FlatRun(log)
  {
    TrustedRunSafe(bs, log);
    RunRefinesFlatFiles(bs, log);
  }

  /** As written, every run that never truncates to 0 or past the `int` limit does. */
  lemma PlainRunRefinesFlatFiles(bs: nat, log: seq<Change>)
    requires bs > 0 && Run(bs, log).Some?
    requires forall i | 0 <= i < |log| :: log[i].Resize? ==> PlainSize(bs, log[i].n)
    ensures Inv(bs, Run(bs, log).value) && FilesOf(bs, Run(bs, log).value) == FlatRun(log)
  {
    TrustedRunSafe(bs, log);
    RunRefinesFlatFiles(bs, log);
  }

  // ----- when a run is right

  /** After every prefix of the run the files are the flat files and nothing is left behind their ends. */
  ghost predicate RightThroughout(bs: nat, log: seq<Change>) {
    && Run(bs, log).Some? && Inv(bs, Run(bs, log).value) && Clean(bs, Run(bs, log).value)
    && FilesOf(bs, Run(bs, log).value) == FlatRun(log)
    && (log == [] || RightThroughout(bs, log[..|log| - 1]))
  }

  /** A run is right at every point exactly when every truncate met a file on which it is harmless. */
  lemma {:induction false} RunRightExactly(bs: nat, log: seq<Change>)
    requires bs > 0 && Run(bs, log).Some?
    ensures RightThroughout(bs, log) <==> SafeResizes(bs, log)
  {
    if log == [] {
      GenesisOk(bs);
    } else {
      var front, c := log[..|log| - 1], log[|log| - 1];
      RunRightExactly(bs, front);
      RunKeepsInv(bs, front);
      if SafeResizes(bs, log) {
        RunRefinesFlatFiles(bs, log);
      } else if RightThroughout(bs, log) {
        RightStepSafe(bs, Run(bs, front).value, c);
      }
    }
  }

  /** A truncate after which the files are right and clean was harmless. */
  lemma RightStepSafe(bs: nat, t: Tables, c: Change)
    requires Allowed(bs, t, c) && Clean(bs, t) && c.Resize?
    requires Inv(bs, Apply(bs, t, c)) && Clean(bs, Apply(bs, t, c))
    requires FilesOf(bs, Apply(bs, t, c)) == FlatApply(FilesOf(bs, t), c)
    ensures ResizeSafe(c.cut, bs, t, c.id, c.n)
  {
    assert c.id in FilesOf(bs, t) && c.id in FilesOf(bs, Apply(bs, t, c));
    assert FilesOf(bs, Apply(bs, t, c))[c.id] == ResizeFlat(Content(t, bs, c.id), c.n);
    ResizeRightExactly(c.cut, bs, t, c.id, c.n);
  }

  // ----- when truncate is right

  /** The file has the POSIX content and nothing is left behind its end. */
  ghost predicate ResizeRight(cut: Cut, bs: nat, t: Tables, id: Id, n: nat)
    requires Inv(bs, t) && IsFile(t.dir, id)
  {
    var t' := Apply(bs, t, Resize(id, n, cut));
    ApplyKeepsInv(bs, t, Resize(id, n, cut));
    Clean(bs, t') && Content(t', bs, id) == ResizeFlat(Content(t, bs, id), n)
  }

  /** On a given file truncate is right exactly when the bytes it gets wrong were zero anyway. */
  lemma ResizeRightExactly(cut: Cut, bs: nat, t: Tables, id: Id, n: nat)
    requires Inv(bs, t) && Clean(bs, t) && IsFile(t.dir, id)
    ensures ResizeRight(cut, bs, t, id, n) <==> ResizeSafe(cut, bs, t, id, n)
  {
    var c := Resize(id, n, cut);
    var t' := Apply(bs, t, c);
    ApplyKeepsInv(bs, t, c);
    if ResizeSafe(cut, bs, t, id, n) {
      ApplyKeepsClean(bs, t, c);
      ContentAfter(bs, t, c, id);
      assert FilesOf(bs, t)[id] == Content(t, bs, id);
    }
    if ResizeRight(cut, bs, t, id, n) {
      forall i: nat | Min(n, KeptBytes(cut, bs, n)) <= i < Max(n, KeptBytes(cut, bs, n))
        ensures ByteAt(t.data, bs, id, i) == 0
      {
        ByteAfter(bs, t, c, id, i);
        assert ZeroTail(t'.data, bs, id, t'.dir[id].size);
        assert ZeroTail(t.data, bs, id, t.dir[id].size);
        if i < n {
          assert Content(t', bs, id)[i] == ResizeFlat(Content(t, bs, id), n)[i];
        }
      }
    }
  }

  ghost predicate ResizeRightOnEveryFile(bs: nat, n: nat) {
    forall t, id {:trigger ResizeRight(CutAsWritten, bs, t, id, n)} |
      Inv(bs, t) && IsFile(t.dir, id) && Clean(bs, t) :: ResizeRight(CutAsWritten, bs, t, id, n)
  }

  /** A file whose only non-zero byte is at position `p`. */
  lemma OneByteFile(bs: nat, p: nat) returns (t: Tables, id: Id)
    requires bs > 0
    ensures Inv(bs, t) && Clean(bs, t) && IsFile(t.dir, id) && ByteAt(t.data, bs, id, p) == 1
  {
    GenesisOk(bs);
    id := 1;
    var add, write := Add(1, ROOT, "f", Regular), WriteAt(1, p, [1]);
    assert Child(GENESIS.dir, ROOT, "f").None?;
    var t1 := Apply(bs, GENESIS, add);
    ApplyKeepsClean(bs, GENESIS, add);
    t := Apply(bs, t1, write);
    ApplyKeepsClean(bs, t1, write);
    ByteAfter(bs, t1, write, 1, p);
  }

  /**
   A size can be trusted on every file exactly when it is positive and its block count fits an
   `int`. For 0 the whole first block is kept, beyond the limit live blocks are deleted.
   */
  lemma TrustedSizesExactly(bs: nat, n: nat)
    requires bs > 0
    ensures ResizeRightOnEveryFile(bs, n) <==> PlainSize(bs, n)
  {
    KeptBytesExact(bs, n);
    var k := KeptBytes(CutAsWritten, bs, n);
    if PlainSize(bs, n) {
      forall t, id {:trigger ResizeRight(CutAsWritten, bs, t, id, n)} | Inv(bs, t) && IsFile(t.dir, id) && Clean(bs, t)
        ensures ResizeRight(CutAsWritten, bs, t, id, n)
      {
        ResizeRightExactly(CutAsWritten, bs, t, id, n);
      }
    } else {
      KeptBelowLimit(bs, n);
      var p: nat := Max(0, Min(n, k));
      var t, id := OneByteFile(bs, p);
      ResizeRightExactly(CutAsWritten, bs, t, id, n);
      assert !ResizeSafe(CutAsWritten, bs, t, id, n);
    }
  }

  lemma KeptBelowLimit(bs: nat, n: nat)
    requires bs > 0 && !PlainSize(bs, n)
    ensures n > 0 ==> KeptBytes(CutAsWritten, bs, n) < n
    ensures n == 0 ==> KeptBytes(CutAsWritten, bs, n) == bs
  {
    KeptBytesExact(bs, n);
    if n > 0 {
      var info := ComputeBlockInfo(bs, 0, n);
      DivModSplit(bs, n);
      DivModUnique(bs, 0, 0, 0);
      MulGap(bs, info.toBlock, n / bs);
    }
  }

  /** The first byte of a file survives truncation to 0 and comes back when the file grows again. */
  lemma TruncateToZeroResurrects(bs: nat, t: Tables, id: Id)
    requires Inv(bs, t) && IsFile(t.dir, id)
    ensures var t1 := Apply(bs, t, Resize(id, 0, CutAsWritten));
            Inv(bs, t1) && IsFile(t1.dir, id) && Content(t1, bs, id) == [] &&
            var t2 := Apply(bs, t1, Resize(id, 1, CutAsWritten));
            Inv(bs, t2) && Content(t2, bs, id) == [ByteAt(t.data, bs, id, 0)]
  {
    ApplyKeepsInv(bs, t, Resize(id, 0, CutAsWritten));
    var t1 := Apply(bs, t, Resize(id, 0, CutAsWritten));
    ApplyKeepsInv(bs, t1, Resize(id, 1, CutAsWritten));
    KeptBytesExact(bs, 0);
    OneByteIsPlain(bs);
    ByteAfter(bs, t, Resize(id, 0, CutAsWritten), id, 0);
    ByteAfter(bs, t1, Resize(id, 1, CutAsWritten), id, 0);
  }

  lemma OneByteIsPlain(bs: nat)
    requires bs > 0
    ensures KeptBytes(CutAsWritten, bs, 1) == 1
  {
    if bs == 1 {
      DivModUnique(bs, 1, 0, 1);
    } else {
      DivModUnique(bs, 0, 1, 1);
    }
    assert PlainSize(bs, 1);
    KeptBytesExact(bs, 1);
  }

  // ----- when a write is right

  /** `pgfuse_write` is POSIX `write()` exactly when it carries bytes or stays inside the file. */
  lemma WriteIsPosixExactly(file: seq<byte>, offset: nat, buf: seq<byte>)
    ensures WriteFlat(file, offset, buf) == PosixWrite(file, offset, buf) <==> buf != [] || offset <= |file|
  {
    if buf == [] && offset <= |file| {
      assert WriteFlat(file, offset, buf) == file;
    }
  }

  /** The file after a write that carries bytes: as long as it was, or up to the last byte written and no further. */
  lemma WrittenContent(bs: nat, t: Tables, id: Id, offset: nat, buf: seq<byte>)
    requires Inv(bs, t) && Clean(bs, t) && IsFile(t.dir, id) && buf != []
    ensures var t', file := Apply(bs, t, WriteAt(id, offset, buf)), Content(t, bs, id);
            && Inv(bs, t') && id in t'.dir
            && Content(t', bs, id) == if offset >= |file| then file + Zeros(offset - |file|) + buf
                                      else if offset + |buf| >= |file| then file[..offset] + buf
                                      else file[..offset] + buf + file[offset + |buf|..]
  {
    var c, file := WriteAt(id, offset, buf), Content(t, bs, id);
    ApplyKeepsInv(bs, t, c);
    ApplyRefinesFlat(bs, t, c);
    assert id in FilesOf(bs, t) && id in FilesOf(bs, Apply(bs, t, c));
    if offset >= |file| {
      WriteBeyond(file, offset, buf);
    } else {
      WriteInside(file, offset, buf);
    }
  }

  /** The flat files with `write()` of POSIX in place of the hook's. */
  function PosixRun(log: seq<Change>): Files {
    if log == [] then map[]
    else
      var files, c := PosixRun(log[..|log| - 1]), log[|log| - 1];
      if c.WriteAt? && c.id in files then files[c.id := PosixWrite(files[c.id], c.offset, c.buf)] else FlatApply(files, c)
  }

  /** Without empty writes a run leaves the flat files of POSIX. */
  lemma {:induction false} FlatRunIsPosix(log: seq<Change>)
    requires forall i | 0 <= i < |log| :: log[i].WriteAt? ==> log[i].buf != []
    ensures FlatRun(log) == PosixRun(log)
  {
    if log != [] {
      var front, c := log[..|log| - 1], log[|log| - 1];
      assert forall i | 0 <= i < |front| :: front[i] == log[i];
      FlatRunIsPosix(front);
      if c.WriteAt? && c.id in FlatRun(front) {
        WriteIsPosixExactly(FlatRun(front)[c.id], c.offset, c.buf);
      }
    }
  }

  // ----- accounting

  /** SELECT (SELECT COUNT(*) FROM data) + (SELECT COUNT(*) FROM dir). */
  function BlocksUsed(t: Tables): nat {
    |t.data| + |t.dir|
  }

  function RowsOf(data: Data, id: Id): set<BlockKey> {
    set k | k in data && k.file == id
  }

  /**
   Removing an entry frees exactly its own row and its own blocks: one plus the number of its
   blocks less is in use, and every other row is as before.
   */
  lemma RemoveFrees(bs: nat, t: Tables, id: Id)
    requires Allowed(bs, t, Remove(id))
    ensures var t' := Apply(bs, t, Remove(id));
            && BlocksUsed(t') == BlocksUsed(t) - 1 - |RowsOf(t.data, id)|
            && RowsOf(t'.data, id) == {}
            && (t.dir[id].kind == Directory ==> RowsOf(t.data, id) == {})
            && (forall k | k in t.data && k.file != id :: k in t'.data && t'.data[k] == t.data[k])
  {
    var t' := Apply(bs, t, Remove(id));
    assert t'.dir.Keys == t.dir.Keys - {id};
    assert t'.data.Keys == t.data.Keys - RowsOf(t.data, id);
    assert RowsOf(t.data, id) <= t.data.Keys;
  }

  /** A block is touched exactly when it overlaps the written range. */
  lemma TouchesOverlap(bs: nat, offset: nat, len: nat, no: nat)
    requires bs > 0
    ensures Touches(bs, offset, len, no) <==> len > 0 && no * bs < offset + len && offset < no * bs + bs
  {
    if len > 0 {
      DivModSplit(bs, offset);
      DivModSplit(bs, offset + len - 1);
      MulGap(bs, offset / bs, no);
      MulGap(bs, no, offset / bs);
      MulGap(bs, (offset + len - 1) / bs, no);
      MulGap(bs, no, (offset + len - 1) / bs);
    }
  }

  /** Which blocks are stored after a write: those that were, and those that overlap the written range. */
  lemma RowsAfterWrite(bs: nat, t: Tables, id: Id, offset: nat, buf: seq<byte>, k: BlockKey)
    requires Inv(bs, t) && IsFile(t.dir, id)
    ensures k in Apply(bs, t, WriteAt(id, offset, buf)).data
            <==> k in t.data
                 || (k.file == id && buf != [] && k.no * bs < offset + |buf| && offset < k.no * bs + bs)
  {
    SplicedRow(t.data, bs, id, offset, buf, k);
    TouchesOverlap(bs, offset, |buf|, k.no);
  }

  /** And after a truncate: those that hold a byte below the kept length. */
  lemma RowsAfterResize(cut: Cut, bs: nat, t: Tables, id: Id, n: nat, k: BlockKey)
    requires Inv(bs, t) && IsFile(t.dir, id)
    ensures k in Apply(bs, t, Resize(id, n, cut)).data
            <==> k in t.data && !(k.file == id && k.no * bs >= KeptBytes(cut, bs, n))
  {
    MulGap(bs, k.no, CutBlock(cut, bs, n));
    MulGap(bs, CutBlock(cut, bs, n), k.no);
  }

  /** The figure for a fresh schema counts the root; a new entry counts one, plus the blocks of a link's target. */
  lemma BlocksUsedGrow(bs: nat, t: Tables, c: Change)
    requires Allowed(bs, t, c)
    ensures BlocksUsed(GENESIS) == 1
    ensures c.Add? ==> BlocksUsed(Apply(bs, t, c)) == BlocksUsed(t) + 1
    ensures c.AddLink? ==> BlocksUsed(Apply(bs, t, c)) == BlocksUsed(t) + 1 + (|c.target| + bs - 1) / bs
    ensures c.Nothing? || c.Move? ==> BlocksUsed(Apply(bs, t, c)) == BlocksUsed(t)
  {
    var t' := Apply(bs, t, c);
    match c
    case Add(id, _, _, _) => assert t'.dir.Keys == t.dir.Keys + {id};
    case AddLink(id, _, _, target) =>
      assert t'.dir.Keys == t.dir.Keys + {id};
      LinkRows(bs, t, c);
    case Move(id, _, _) => assert t'.dir.Keys == t.dir.Keys;
    case _ =>
  }

  lemma LinkRows(bs: nat, t: Tables, c: Change)
    requires Allowed(bs, t, c) && c.AddLink?
    ensures |Apply(bs, t, c).data.Keys| == |t.data.Keys| + (|c.target| + bs - 1) / bs
  {
    LinkGains(bs, t, c, (|c.target| + bs - 1) / bs);
    GainedKeys(t.data.Keys, Apply(bs, t, c).data.Keys, c.id, (|c.target| + bs - 1) / bs);
  }

  /** The first n blocks of the file, which had none, and no others are new. */
  ghost predicate Gains(keys: set<BlockKey>, keys': set<BlockKey>, id: Id, n: nat) {
    && (forall k: BlockKey {:trigger k in keys'} :: k in keys' <==> k in keys || (k.file == id && k.no < n))
    && (forall k {:trigger k in keys} | k in keys :: k.file != id)
  }

  lemma LinkGains(bs: nat, t: Tables, c: Change, n: nat)
    requires Allowed(bs, t, c) && c.AddLink? && n == (|c.target| + bs - 1) / bs
    ensures Gains(t.data.Keys, Apply(bs, t, c).data.Keys, c.id, n)
  {
    forall k: BlockKey
      ensures k in Apply(bs, t, c).data.Keys <==> k in t.data.Keys || (k.file == c.id && k.no < n)
    {
      BlocksFor(bs, |c.target|);
      SplicedRow(t.data, bs, c.id, 0, c.target, k);
    }
  }

  lemma {:induction false} GainedKeys(keys: set<BlockKey>, keys': set<BlockKey>, id: Id, n: nat)
    requires Gains(keys, keys', id, n)
    ensures |keys'| == |keys| + n
    decreases n
  {
    if n == 0 {
      assert keys' == keys;
    } else {
      var last := BlockKey(id, n - 1);
      assert last in keys';
      assert Gains(keys, keys' - {last}, id, n - 1) by {
        assert forall k: BlockKey :: k.file == id && k.no == n - 1 ==> k == last;
      }
      GainedKeys(keys, keys' - {last}, id, n - 1);
    }
  }

  /** The blocks that the first `len` bytes of a file touch. */
  lemma BlocksFor(bs: nat, len: nat)
    requires bs > 0
    ensures len == 0 ==> (len + bs - 1) / bs == 0
    ensures len > 0 ==> (len + bs - 1) / bs == (len - 1) / bs + 1
    ensures 0 / bs == 0
  {
    DivModUnique(bs, 0, 0, 0);
    if len == 0 {
      DivModUnique(bs, 0, bs - 1, bs - 1);
    } else {
      DivShift(bs, 1, len - 1);
    }
  }

  // ----- kinds

  /** The change that makes an entry of that id and kind. */
  predicate Makes(c: Change, id: Id, kind: Kind) {
    (c.Add? && c.id == id && c.kind == kind) || (c.AddLink? && c.id == id && kind == Symlink)
  }

  /** Every entry but the root has the kind of the request that made it. */
  lemma {:induction false} KindAsMade(bs: nat, log: seq<Change>, id: Id) returns (i: nat)
    requires bs > 0 && Run(bs, log).Some? && id in Run(bs, log).value.dir && id != ROOT
    ensures i < |log| && Makes(log[i], id, Run(bs, log).value.dir[id].kind)
  {
    var front, c := log[..|log| - 1], log[|log| - 1];
    var t := Run(bs, front).value;
    if id in t.dir {
      i := KindAsMade(bs, front, id);
    } else {
      i := |log| - 1;
    }
  }

  /** An entry that is not removed keeps its kind through writes, truncates and renames. */
  lemma {:induction false} KindKept(bs: nat, log: seq<Change>, later: seq<Change>, id: Id)
    requires bs > 0 && Run(bs, log + later).Some? && forall i | 0 <= i < |later| :: later[i] != Remove(id)
    ensures Run(bs, log).Some?
    ensures var d, d' := Run(bs, log).value.dir, Run(bs, log + later).value.dir;
            id in d ==> id in d' && d'[id].kind == d[id].kind
    decreases |later|
  {
    if later == [] {
      assert log + later == log;
    } else {
      var all, front := log + later, later[..|later| - 1];
      assert all[..|all| - 1] == log + front;
      KindKept(bs, log, front, id);
    }
  }

  /** Creating and removing again restores both tables. */
  lemma AddThenRemove(bs: nat, t: Tables, c: Change)
    requires Allowed(bs, t, c) && (c.Add? || c.AddLink?)
    ensures Allowed(bs, Apply(bs, t, c), Remove(c.id))
    ensures Apply(bs, Apply(bs, t, c), Remove(c.id)) == t.(serial := c.id + 1)
  {
    ApplyKeepsInv(bs, t, c);
    var t1 := Apply(bs, t, c);
    forall x | x in t1.dir
      ensures t1.dir[x].parent != c.id
    {
      if x != c.id { assert ParentIsDir(t.dir, x); }
    }
    var t2 := Apply(bs, t1, Remove(c.id));
    assert t2.dir == t.dir;
    assert t2.data == t.data;
  }

  /** An open handle never comes to denote a directory: kinds are stable and ids are not reused. */
  lemma HandlesStayFiles(bs: nat, t: Tables, c: Change, fh: Id)
    requires Allowed(bs, t, c) && fh < t.serial && (fh in t.dir ==> IsFile(t.dir, fh))
    ensures fh < Apply(bs, t, c).serial
    ensures fh in Apply(bs, t, c).dir ==> fh in t.dir && IsFile(Apply(bs, t, c).dir, fh)
  {
  }
}
