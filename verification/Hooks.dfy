/**
 What each hook of pgfuse.c does between BEGIN and COMMIT or ROLLBACK. A body returns the result
 code of the hook and the change it made; a negative code makes the hook roll back.
 */
module Hooks {
  import opened FlatFile
  import opened Tables
  import opened BlockInfo
  import opened BlockStore
  import opened SparseRead
  import opened Tree
  import opened TreeChanges
  import opened Changes
  import opened Runs
  import opened Session

  ghost function ParentOf(d: Dir, path: Path): Id {
    match Resolve(d, Dirname(path)) case Some(p) => p case None => ROOT
  }

  /** A path whose parent path leads to a directory is that directory's path plus a name. */
  lemma ParentPath(d: Dir, path: Path)
    requires TreeOk(d) && path != [] && Resolve(d, Dirname(path)).Some?
    requires IsDir(d, Resolve(d, Dirname(path)).value)
    ensures var p := Resolve(d, Dirname(path)).value;
            PathOf(d, p) + [Basename(path)] == path && ValidName(Basename(path))
  {
    WalkToDir(d, ROOT, Dirname(path));
    ResolvedPath(d, Dirname(path), Resolve(d, Dirname(path)).value);
    assert path == path[..|path| - 1] + [path[|path| - 1]];
  }

  /** A fresh entry is found at its path. */
  lemma NewEntryResolves(d: Dir, path: Path, id: Id, e: Entry)
    requires TreeOk(d) && path != [] && Resolve(d, Dirname(path)) == Some(e.parent) && IsDir(d, e.parent)
    requires e.name == Basename(path) && id !in d && Child(d, e.parent, e.name).None?
    ensures Addable(d, id, e) && TreeOk(d[id := e])
    ensures Resolve(d, path) == None && Resolve(d[id := e], path) == Some(id)
  {
    ParentPath(d, path);
    AddKeepsTree(d, id, e);
    AddOnlyAddsPath(d, id, e, []);
    assert path + [] == path;
  }

  /** The body went through: `s` holds the complete change `c` of the tables `t`. */
  ghost predicate Done(bs: nat, s: Session, t: Tables, c: Change)
    reads s
  {
    !s.aborted && Allowed(bs, t, c) && s.t == Apply(bs, t, c)
  }

  // ----- the result of each hook when no statement fails

  ghost function WriteCode(d: Dir, readOnly: bool, fh: Id, len: nat): int {
    if fh == 0 || readOnly then -EBADF else if fh !in d then -ENOENT else len
  }

  /** For a read that does not crash; beyond the end of a non-empty file it fails. */
  ghost function ReadCode(d: Dir, fh: Id, offset: nat, size: nat): int {
    if fh == 0 then -EBADF else if fh !in d then -ENOENT
    else if d[fh].size == 0 then 0 else if offset > d[fh].size then -EIO else Min(size, d[fh].size - offset)
  }

  ghost function TruncateCode(d: Dir, readOnly: bool, path: Path): int {
    match Resolve(d, path)
    case None => -ENOENT
    case Some(id) => if IsDir(d, id) then -EISDIR else if readOnly then -EROFS else 0
  }

  ghost function FtruncateCode(d: Dir, readOnly: bool, fh: Id): int {
    if fh == 0 then -EBADF else if fh !in d then -ENOENT else if readOnly then -EROFS else 0
  }

  ghost predicate HasParentDir(d: Dir, path: Path) {
    Resolve(d, Dirname(path)).Some? && IsDir(d, Resolve(d, Dirname(path)).value)
  }

  ghost function CreateCode(d: Dir, readOnly: bool, path: Path): int {
    if readOnly then -EROFS
    else match Resolve(d, path)
      case Some(id) => if IsDir(d, id) then -EISDIR else -EEXIST
      case None => if HasParentDir(d, path) then 0 else -ENOENT
  }

  ghost function MkdirCode(d: Dir, readOnly: bool, path: Path): int {
    if readOnly then -EROFS else if HasParentDir(d, path) then 0 else -ENOENT
  }

  ghost function SymlinkCode(d: Dir, readOnly: bool, path: Path): int {
    if !HasParentDir(d, path) then -ENOENT else if readOnly then -EROFS else 0
  }

  ghost function OpenCode(d: Dir, readOnly: bool, path: Path, readAccess: bool): int {
    match Resolve(d, path)
    case None => -ENOENT
    case Some(id) => if IsDir(d, id) then -EISDIR else if readOnly && !readAccess then -EROFS else 0
  }

  ghost function ReadlinkCode(d: Dir, path: Path, size: nat): int {
    match Resolve(d, path)
    case None => -ENOENT
    case Some(id) =>
      if id !in d || d[id].kind != Symlink then -ENOENT else if size < d[id].size + 1 then -ENOMEM else 0
  }

  ghost function UnlinkCode(d: Dir, readOnly: bool, path: Path): int {
    match Resolve(d, path)
    case None => -ENOENT
    case Some(id) => if IsDir(d, id) then -EPERM else if readOnly then -EROFS else 0
  }

  ghost function RmdirCode(d: Dir, readOnly: bool, path: Path): int {
    match Resolve(d, path)
    case None => -ENOENT
    case Some(id) =>
      if !IsDir(d, id) then -ENOTDIR
      else if readOnly then -EROFS
      else if exists c | c in d :: d[c].parent == id then -ENOTEMPTY
      else 0
  }

  /** The new row meets the constraints of the schema. */
  ghost predicate Insertable(t: Tables, skipped: nat, path: Path) {
    Resolve(t.dir, path) == None && t.serial + skipped < INT_LIMIT
  }

  /** The result of a hook that inserts a row, when no statement fails but for the constraints. */
  ghost function InsertCode(code: int, t: Tables, skipped: nat, path: Path): int {
    if code == 0 && !Insertable(t, skipped, path) then -EIO else code
  }

  // ----- the bodies

  method WriteBody(s: Session, bs: nat, readOnly: bool, fh: Id, offset: nat, buf: seq<byte>) returns (r: int)
    requires !s.aborted && Inv(bs, s.t) && fh < INT_LIMIT && |buf| < INT_LIMIT
    requires fh in s.t.dir && fh != 0 ==> IsFile(s.t.dir, fh)
    modifies s
    ensures r >= 0 ==> r == |buf| && Done(bs, s, old(s.t), WriteAt(fh, offset, buf))
    ensures s.aborted ==> r == -EIO
    ensures !s.aborted ==> r == WriteCode(old(s.t.dir), readOnly, fh, |buf|)
    ensures Sound(old(s.plan)) ==> !s.aborted
    ensures !s.aborted ==> (r >= 0 <==> !readOnly && fh != 0 && fh in old(s.t.dir))
    ensures r >= 0 ==> fh in old(s.t.dir) && fh in s.t.dir
                       && s.t.dir[fh].size == Max(old(s.t.dir)[fh].size, offset + |buf|)
  {
    if fh == 0 || readOnly {
      return -EBADF;
    }
    var tmp, meta := s.ReadMeta(fh);
    if tmp < 0 {
      return tmp;
    }
    if offset + |buf| > meta.size {
      meta := meta.(size := offset + |buf|);
    }
    var res := s.WriteBuf(bs, fh, buf, offset);
    if res < 0 {
      return res;
    }
    res := s.WriteMeta(fh, meta);
    if res < 0 {
      return res;
    }
    return |buf|;
  }

  /** The remaining size wraps around and is copied, or the length of the first copy does. */
  ghost predicate ReadCrashes(reader: Reader, bs: nat, fileSize: nat, offset: nat, size: nat)
    requires bs > 0 && offset < OFF_LIMIT
  {
    fileSize > 0 &&
    if offset > fileSize then !NothingBeyond(bs, fileSize, offset)
    else Overruns(reader, ComputeBlockInfo(bs, offset, Min(size, fileSize - offset)))
  }

  /**
   For a block size that divides 2^32: beyond the end a read crashes exactly in the last block of the
   file; before it, and as written, exactly when it starts too far inside its block for what is
   left to read.
   */
  lemma ReadCrashesExactly(reader: Reader, bs: nat, fileSize: nat, offset: nat, size: nat)
    requires bs > 0 && INT_RANGE % bs == 0 && fileSize > 0 && size < INT_LIMIT
    requires offset < OFF_LIMIT && offset / bs <= INT_LIMIT
    ensures ReadCrashes(reader, bs, fileSize, offset, size)
            <==> if offset > fileSize then offset / bs == (fileSize - 1) / bs
                 else reader.AsWritten? && Min(Min(size, fileSize - offset), bs - offset % bs) < offset % bs
  {
    if offset > fileSize {
      BeyondExactly(bs, fileSize, offset);
      DivMono(bs, fileSize - 1, offset);
    } else if reader.AsWritten? {
      var n := Min(size, fileSize - offset);
      if n > 0 {
        IntLengthFits(bs, offset, n);
      }
      AsWrittenOverrunsExactly(reader.host, bs, offset, n);
    }
  }

  method ReadBody(s: Session, bs: nat, reader: Reader, fh: Id, buf: array<byte>, size: nat, offset: nat)
      returns (o: ReadOutcome)
    requires !s.aborted && Inv(bs, s.t) && fh < INT_LIMIT && size < INT_LIMIT && size <= buf.Length
    requires offset < OFF_LIMIT
    modifies s`aborted, s`plan, buf
    ensures s.aborted ==> o == Returned(-EIO)
    ensures !s.aborted ==>
              if fh != 0 && fh in s.t.dir && ReadCrashes(reader, bs, s.t.dir[fh].size, offset, size) then !o.Returned?
              else o == Returned(ReadCode(s.t.dir, fh, offset, size))
    ensures o.Returned? && o.r >= 0 ==>
              && !s.aborted && fh != 0 && fh in s.t.dir && (s.t.dir[fh].size > 0 ==> offset <= s.t.dir[fh].size)
              && buf[..o.r] == ReadBytes(reader, s.t.data, bs, fh, offset, o.r, old(buf[..o.r]))
              && buf[o.r..] == old(buf[o.r..])
    ensures Sound(old(s.plan)) ==> !s.aborted
  {
    if fh == 0 {
      return Returned(-EBADF);
    }
    o := s.ReadBuf(reader, bs, fh, buf, offset, size);
  }

  /** The common end of `pgfuse_truncate` and `pgfuse_ftruncate`; the size is written twice. */
  method ResizeBody(s: Session, bs: nat, cut: Cut, id: Id, n: nat, meta: Meta) returns (r: int)
    requires !s.aborted && Inv(bs, s.t) && IsFile(s.t.dir, id) && meta == MetaOf(s.host, s.t.dir[id])
    modifies s
    ensures r >= 0 ==> r == 0 && Done(bs, s, old(s.t), Resize(id, n, cut))
    ensures if s.aborted then r == -EIO else r == 0
    ensures Sound(old(s.plan)) ==> !s.aborted
  {
    r := s.Truncate(cut, bs, id, n);
    if r < 0 {
      return r;
    }
    r := s.WriteMeta(id, meta.(size := n));
  }

  method TruncateBody(s: Session, bs: nat, cut: Cut, readOnly: bool, path: Path, n: nat)
      returns (r: int, ghost id: Id)
    requires !s.aborted && Inv(bs, s.t)
    modifies s
    ensures r >= 0 ==> r == 0 && Resolve(old(s.t.dir), path) == Some(id) && Done(bs, s, old(s.t), Resize(id, n, cut))
    ensures s.aborted ==> r == -EIO
    ensures !s.aborted ==> r == TruncateCode(old(s.t.dir), readOnly, path)
    ensures Sound(old(s.plan)) ==> !s.aborted
    ensures !s.aborted ==>
              (r >= 0 <==> && !readOnly && Resolve(old(s.t.dir), path).Some?
                           && IsFile(old(s.t.dir), Resolve(old(s.t.dir), path).value))
  {
    id := 0;
    var x, meta := s.ReadMetaFromPath(path);
    if x < 0 {
      return x, id;
    }
    if meta.kind == Directory {
      return -EISDIR, id;
    }
    if readOnly {
      return -EROFS, id;
    }
    id := x;
    r := ResizeBody(s, bs, cut, x, n, meta);
  }

  method FtruncateBody(s: Session, bs: nat, cut: Cut, readOnly: bool, fh: Id, n: nat) returns (r: int)
    requires !s.aborted && Inv(bs, s.t) && fh < INT_LIMIT && (fh in s.t.dir && fh != 0 ==> IsFile(s.t.dir, fh))
    modifies s
    ensures r >= 0 ==> r == 0 && Done(bs, s, old(s.t), Resize(fh, n, cut))
    ensures s.aborted ==> r == -EIO
    ensures !s.aborted ==> r == FtruncateCode(old(s.t.dir), readOnly, fh)
    ensures Sound(old(s.plan)) ==> !s.aborted
    ensures !s.aborted ==> (r >= 0 <==> !readOnly && fh != 0 && fh in old(s.t.dir))
  {
    if fh == 0 {
      return -EBADF;
    }
    var id, meta := s.ReadMeta(fh);
    if id < 0 {
      return id;
    }
    if readOnly {
      return -EROFS;
    }
    r := ResizeBody(s, bs, cut, fh, n, meta);
  }

  /** A path with a parent directory is free in the tree exactly when its slot in the parent is. */
  lemma FreeSlotAt(d: Dir, path: Path)
    requires TreeOk(d) && HasParentDir(d, path)
    ensures Resolve(d, path) == None <==> Child(d, ParentOf(d, path), Basename(path)).None?
  {
    if path == [] {
      assert IsChild(d, ROOT, ROOT_NAME, ROOT);
    } else {
      WalkToDir(d, ROOT, Dirname(path));
      WalkAppend(d, ROOT, Dirname(path), [Basename(path)]);
      assert path == Dirname(path) + [Basename(path)];
    }
  }

  /** Finding a fresh entry again takes one SELECT per component and one for its row. */
  lemma NewEntryCost(d: Dir, path: Path, id: Id, e: Entry)
    requires TreeOk(d) && path != [] && Resolve(d, Dirname(path)) == Some(e.parent) && IsDir(d, e.parent)
    requires e.name == Basename(path) && id !in d && Child(d, e.parent, e.name).None?
    ensures LookupCost(d[id := e], path) == |path| + 1
  {
    var d' := d[id := e];
    NewEntryResolves(d, path, id, e);
    ParentPath(d, path);
    AddOnlyAddsPath(d, id, e, Dirname(path));
    WalkToDir(d', ROOT, Dirname(path));
    DescendAppend(d', ROOT, Dirname(path), [Basename(path)]);
    assert path == Dirname(path) + [Basename(path)];
    assert IsChild(d', e.parent, e.name, id);
    WholeWalkCost(d', ROOT, path);
  }

  /** Where a new entry goes: the parent must exist and be a directory. */
  method FindParent(s: Session, bs: nat, path: Path) returns (r: int)
    requires !s.aborted && Inv(bs, s.t)
    modifies s`aborted, s`plan
    ensures r >= 0 ==> !s.aborted && Resolve(s.t.dir, Dirname(path)) == Some(r) && IsDir(s.t.dir, r)
    ensures s.aborted ==> r == -EIO
    ensures !s.aborted ==> if HasParentDir(s.t.dir, path) then r >= 0 else r == -ENOENT
    ensures s.aborted <==> Faulty(old(s.plan), LookupCost(s.t.dir, Dirname(path)))
    ensures !s.aborted ==> s.plan == Rest(old(s.plan), LookupCost(s.t.dir, Dirname(path)))
    ensures Sound(old(s.plan)) ==> Sound(s.plan) && !s.aborted
  {
    var meta;
    r, meta := s.ReadMetaFromPath(Dirname(path));
    if r >= 0 && meta.kind != Directory {
      return -ENOENT;
    }
  }

  /** Creates an entry and resolves it; the root's own slot is always taken. */
  method InsertBody(s: Session, bs: nat, path: Path, parent: Id, size: nat, kind: Kind) returns (r: int, ghost id: Id)
    requires !s.aborted && Inv(bs, s.t)
    requires Resolve(s.t.dir, Dirname(path)) == Some(parent) && IsDir(s.t.dir, parent)
    modifies s
    ensures r >= 0 ==>
              && r == 0 && !s.aborted && path != [] && Resolve(old(s.t.dir), path) == None
              && id == old(s.t.serial) + s.skipped < INT_LIMIT
              && Addable(old(s.t.dir), id, Entry(parent, Basename(path), size, kind))
              && s.t == Tables(old(s.t.dir)[id := Entry(parent, Basename(path), size, kind)], old(s.t.data), id + 1)
              && TreeOk(s.t.dir) && IdsIssued(s.t) && Resolve(s.t.dir, path) == Some(id)
    ensures if s.aborted then r == -EIO && s.t == old(s.t) else r == 0 && LookupCost(s.t.dir, path) == |path| + 1
    ensures s.plan == Rest(old(s.plan), 1)
    ensures !s.aborted <==> && !Faulty(old(s.plan), 1) && Resolve(old(s.t.dir), path) == None
                            && old(s.t.serial) + s.skipped < INT_LIMIT
    ensures Sound(old(s.plan)) ==> Sound(s.plan)
  {
    assert IsChild(s.t.dir, ROOT, ROOT_NAME, ROOT);
    FreeSlotAt(s.t.dir, path);
    r, id := s.CreateEntry(parent, Basename(path), size, kind);
    if r >= 0 {
      NewEntryResolves(old(s.t.dir), path, id, Entry(parent, Basename(path), size, kind));
      NewEntryCost(old(s.t.dir), path, id, Entry(parent, Basename(path), size, kind));
    }
  }

  /** The end of `create`: the INSERT, and a look-up whose failure is not reported. */
  method CreateAndFind(s: Session, bs: nat, path: Path, parent: Id) returns (r: int, fh: Option<Id>, commit: bool)
    requires !s.aborted && Inv(bs, s.t)
    requires Resolve(s.t.dir, Dirname(path)) == Some(parent) && IsDir(s.t.dir, parent)
    modifies s
    ensures commit ==>
              && r == 0 && fh.Some? && Resolve(s.t.dir, path) == fh
              && Done(bs, s, old(s.t), Add(fh.value, parent, Basename(path), Regular))
    ensures !commit ==> fh == None && s.aborted && (r == -EIO || r == 0)
    ensures s.aborted ==> !commit && (r == 0 <==> s.t != old(s.t))
    ensures r == 0 <==> && !Faulty(old(s.plan), 1) && Resolve(old(s.t.dir), path) == None
                        && old(s.t.serial) + s.skipped < INT_LIMIT
    ensures r == 0 ==> (!commit <==> Faulty(Rest(old(s.plan), 1), |path| + 1))
    ensures commit ==> fh.value in s.t.dir && s.t.dir[fh.value] == Entry(parent, Basename(path), 0, Regular)
  {
    fh, commit := None, false;
    ghost var newId;
    r, newId := InsertBody(s, bs, path, parent, 0, Regular);
    if r < 0 {
      return r, fh, commit;
    }
    var id, meta := s.ReadMetaFromPath(path);
    if id < 0 {
      return r, fh, commit;
    }
    return r, Some(id), true;
  }

  /** The number of statements of `create` up to and including its INSERT. */
  ghost function CreateCost(d: Dir, path: Path): nat {
    LookupCost(d, path) + LookupCost(d, Dirname(path)) + 1
  }

  /** The file can be created and its row is inserted. */
  ghost predicate CreateInserts(t: Tables, plan: seq<bool>, skipped: nat, readOnly: bool, path: Path) {
    && CreateCode(t.dir, readOnly, path) == 0 && t.serial + skipped < INT_LIMIT
    && !Faulty(plan, CreateCost(t.dir, path))
  }

  /** The look-up after the INSERT fails. */
  ghost predicate CreateLosesEntry(t: Tables, plan: seq<bool>, path: Path) {
    Faulty(Rest(plan, CreateCost(t.dir, path)), |path| + 1)
  }

  /** The tests of `create` before its INSERT; the parent's id if they pass. */
  method FindNewPlace(s: Session, bs: nat, readOnly: bool, path: Path) returns (r: int)
    requires !s.aborted && Inv(bs, s.t)
    modifies s`aborted, s`plan
    ensures r >= 0 ==> !s.aborted && Resolve(s.t.dir, Dirname(path)) == Some(r) && IsDir(s.t.dir, r)
    ensures s.aborted ==> r == -EIO
    ensures !s.aborted ==>
              if CreateCode(s.t.dir, readOnly, path) == 0 then r >= 0 else r == CreateCode(s.t.dir, readOnly, path)
    ensures readOnly ==> !s.aborted && r == -EROFS
    ensures CreateCode(s.t.dir, readOnly, path) == 0 ==>
              var n := LookupCost(s.t.dir, path) + LookupCost(s.t.dir, Dirname(path));
              (s.aborted <==> Faulty(old(s.plan), n)) && (!s.aborted ==> s.plan == Rest(old(s.plan), n))
    ensures Sound(old(s.plan)) ==> Sound(s.plan) && !s.aborted
  {
    if readOnly {
      return -EROFS;
    }
    FaultyLater(s.plan, LookupCost(s.t.dir, path), LookupCost(s.t.dir, Dirname(path)));
    var id, meta := s.ReadMetaFromPath(path);
    if id < 0 && id != -ENOENT {
      return id;
    }
    if id >= 0 {
      return if meta.kind == Directory then -EISDIR else -EEXIST;
    }
    r := FindParent(s, bs, path);
  }

  /**
   `fh` is the handle that `create` sets. When the last look-up fails, the hook is to roll back
   and yet returns 0: `commit` tells the two zeros apart. The last three clauses say exactly when.
   */
  method CreateBody(s: Session, bs: nat, readOnly: bool, path: Path) returns (r: int, fh: Option<Id>, commit: bool)
    requires !s.aborted && Inv(bs, s.t)
    modifies s
    ensures commit ==>
              && r == 0 && fh.Some? && Resolve(s.t.dir, path) == fh
              && Done(bs, s, old(s.t), Add(fh.value, ParentOf(old(s.t.dir), path), Basename(path), Regular))
    ensures !commit ==> fh == None
    ensures s.aborted ==> (r == -EIO || r == 0) && !commit
    ensures !s.aborted ==> r == CreateCode(old(s.t.dir), readOnly, path) && (commit <==> r == 0)
    ensures s.aborted ==> (r == 0 <==> s.t != old(s.t))
    ensures r == 0 <==> CreateInserts(old(s.t), old(s.plan), s.skipped, readOnly, path)
    ensures r == 0 ==> (!commit <==> CreateLosesEntry(old(s.t), old(s.plan), path))
    ensures Sound(old(s.plan)) ==>
              (s.aborted <==> CreateCode(old(s.t.dir), readOnly, path) == 0
                              && !Insertable(old(s.t), s.skipped, path))
    ensures readOnly ==> r == -EROFS
    ensures commit ==> fh.value in s.t.dir && s.t.dir[fh.value].kind == Regular && s.t.dir[fh.value].size == 0
  {
    fh, commit := None, false;
    FaultyLater(s.plan, LookupCost(s.t.dir, path) + LookupCost(s.t.dir, Dirname(path)), 1);
    var parent := FindNewPlace(s, bs, readOnly, path);
    if parent < 0 {
      return parent, fh, commit;
    }
    r, fh, commit := CreateAndFind(s, bs, path, parent);
  }

  /** A witness: on fresh tables, with the fourth statement failing, 0 is returned for a file that is not created. */
  method CreateWitness(host: Endian, bs: nat) returns (r: int, fh: Option<Id>, commit: bool)
    requires bs > 0
    ensures r == 0 && fh == None && !commit
  {
    var s := new Session(host, GENESIS, Server([], true, [false, false, false, true], 0, true));
    GenesisCost(bs);
    r, fh, commit := CreateBody(s, bs, false, ["a"]);
  }

  lemma GenesisCost(bs: nat)
    requires bs > 0
    ensures Inv(bs, GENESIS)
    ensures CreateInserts(GENESIS, [false, false, false, true], 0, false, ["a"])
    ensures CreateLosesEntry(GENESIS, [false, false, false, true], ["a"])
  {
    GenesisOk(bs);
    assert Child(GENESIS.dir, ROOT, "a").None?;
    assert WalkCost(GENESIS.dir, ROOT, ["a"]) == 1 && WalkCost(GENESIS.dir, ROOT, []) == 0;
    assert CreateCost(GENESIS.dir, ["a"]) == 3;
    assert Rest([false, false, false, true], 3)[0];
  }

  method MkdirBody(s: Session, bs: nat, readOnly: bool, path: Path) returns (r: int, ghost id: Id)
    requires !s.aborted && Inv(bs, s.t)
    modifies s
    ensures r >= 0 ==>
              && r == 0 && Resolve(old(s.t.dir), path) == None && Resolve(s.t.dir, path) == Some(id)
              && Done(bs, s, old(s.t), Add(id, ParentOf(old(s.t.dir), path), Basename(path), Directory))
    ensures s.aborted ==> r == -EIO
    ensures !s.aborted ==> r == MkdirCode(old(s.t.dir), readOnly, path)
    ensures Sound(old(s.plan)) ==>
              (s.aborted <==> MkdirCode(old(s.t.dir), readOnly, path) == 0
                              && !Insertable(old(s.t), s.skipped, path))
    ensures readOnly ==> r < 0
  {
    id := 0;
    if readOnly {
      return -EROFS, id;
    }
    var parent := FindParent(s, bs, path);
    if parent < 0 {
      return parent, id;
    }
    r, id := InsertBody(s, bs, path, parent, 0, Directory);
  }

  method SymlinkBody(s: Session, bs: nat, readOnly: bool, target: seq<byte>, path: Path) returns (r: int, ghost id: Id)
    requires !s.aborted && Inv(bs, s.t) && |target| < INT_LIMIT
    modifies s
    ensures r >= 0 ==>
              && r == 0 && Resolve(old(s.t.dir), path) == None && Resolve(s.t.dir, path) == Some(id)
              && Done(bs, s, old(s.t), AddLink(id, ParentOf(old(s.t.dir), path), Basename(path), target))
    ensures s.aborted ==> r == -EIO
    ensures !s.aborted ==> r == SymlinkCode(old(s.t.dir), readOnly, path)
    ensures Sound(old(s.plan)) ==>
              (s.aborted <==> SymlinkCode(old(s.t.dir), readOnly, path) == 0
                              && !Insertable(old(s.t), s.skipped, path))
    ensures readOnly ==> r < 0
  {
    id := 0;
    var parent := FindParent(s, bs, path);
    if parent < 0 {
      return parent, id;
    }
    if readOnly {
      return -EROFS, id;
    }
    r, id := InsertBody(s, bs, path, parent, |target|, Symlink);
    if r < 0 {
      return r, id;
    }
    r := StoreTarget(s, bs, path, target, id);
  }

  /** Finds the new link again and writes its target. */
  method StoreTarget(s: Session, bs: nat, path: Path, target: seq<byte>, ghost id: Id) returns (r: int)
    requires !s.aborted && bs > 0 && TreeOk(s.t.dir) && IdsIssued(s.t) && FullBlocks(s.t.data, bs) && |target| < INT_LIMIT
    requires Resolve(s.t.dir, path) == Some(id) && id in s.t.dir
    modifies s
    ensures if s.aborted then r == -EIO else r == 0 && s.t == old(s.t).(data := Spliced(old(s.t.data), bs, id, 0, target))
    ensures Sound(old(s.plan)) ==> !s.aborted
  {
    var newId, meta := s.ReadMetaFromPath(path);
    if newId < 0 {
      return newId;
    }
    r := s.WriteBuf(bs, newId, target, 0);
    if r >= 0 {
      return 0;
    }
  }

  method OpenBody(s: Session, bs: nat, readOnly: bool, path: Path, readAccess: bool) returns (r: int, fh: Option<Id>)
    requires !s.aborted && Inv(bs, s.t)
    modifies s
    ensures r == 0 ==> fh.Some? && fh == Resolve(old(s.t.dir), path) && IsFile(old(s.t.dir), fh.value)
                       && Done(bs, s, old(s.t), Nothing)
    ensures s.aborted ==> r == -EIO
    ensures !s.aborted ==> r == OpenCode(old(s.t.dir), readOnly, path, readAccess)
    ensures Sound(old(s.plan)) ==> !s.aborted
  {
    fh := None;
    var id, meta := s.ReadMetaFromPath(path);
    if id < 0 {
      return id, fh;
    }
    if meta.kind == Directory {
      return -EISDIR, fh;
    }
    if readOnly && !readAccess {
      return -EROFS, fh;
    }
    r := s.WriteMeta(id, meta);
    assert r == 0 ==> s.t == old(s.t);
    fh := Some(id);
  }

  /** On success the target is in front of the buffer, followed by the terminating zero. */
  method ReadlinkBody(s: Session, bs: nat, reader: Reader, path: Path, buf: array<byte>, size: nat)
      returns (r: int, ghost id: Id)
    requires !s.aborted && Inv(bs, s.t) && size < INT_LIMIT && size <= buf.Length
    modifies s`aborted, s`plan, buf
    ensures r <= 0
    ensures r == 0 ==>
              && !s.aborted && Resolve(s.t.dir, path) == Some(id)
              && id in s.t.dir && s.t.dir[id].kind == Symlink && s.t.dir[id].size < size
              && buf[s.t.dir[id].size] == 0
              && buf[..s.t.dir[id].size] == ReadBytes(reader, s.t.data, bs, id, 0, s.t.dir[id].size,
                                                      old(buf[..])[..s.t.dir[id].size])
    ensures s.aborted ==> r == -EIO
    ensures !s.aborted ==> r == ReadlinkCode(s.t.dir, path, size)
    ensures Sound(old(s.plan)) ==> !s.aborted
  {
    id := 0;
    var x, meta := s.ReadMetaFromPath(path);
    if x < 0 {
      return x, id;
    }
    if meta.kind != Symlink {
      return -ENOENT, id;
    }
    if size < meta.size + 1 {
      return -ENOMEM, id;
    }
    id := x;
    r := ReadTarget(s, bs, reader, x, buf, meta.size);
  }

  /** The blocks of the link, then the terminating zero. */
  method ReadTarget(s: Session, bs: nat, reader: Reader, id: Id, buf: array<byte>, n: nat) returns (r: int)
    requires !s.aborted && bs > 0 && FullBlocks(s.t.data, bs) && id < INT_LIMIT
    requires id in s.t.dir && s.t.dir[id].size == n && n < INT_LIMIT && n < buf.Length
    modifies s`aborted, s`plan, buf
    ensures if s.aborted then r == -EIO
            else r == 0 && buf[n] == 0 && buf[..n] == ReadBytes(reader, s.t.data, bs, id, 0, n, old(buf[..])[..n])
    ensures Sound(old(s.plan)) ==> !s.aborted
  {
    StartNeverOverruns(reader, bs, n);
    assert buf[..][..n] == buf[..n];
    var res := s.ReadBuf(reader, bs, id, buf, 0, n);
    if res.r < 0 {
      return res.r;
    }
    buf[n] := 0;
    return 0;
  }

  method UnlinkBody(s: Session, bs: nat, readOnly: bool, path: Path) returns (r: int, ghost id: Id)
    requires !s.aborted && Inv(bs, s.t)
    modifies s
    ensures r >= 0 ==>
              && r == 0 && Resolve(old(s.t.dir), path) == Some(id) && IsFile(old(s.t.dir), id)
              && Done(bs, s, old(s.t), Remove(id))
    ensures s.aborted ==> r == -EIO
    ensures !s.aborted ==> r == UnlinkCode(old(s.t.dir), readOnly, path)
    ensures Sound(old(s.plan)) ==> !s.aborted
    ensures !s.aborted ==>
              (r >= 0 <==> && !readOnly && Resolve(old(s.t.dir), path).Some?
                           && IsFile(old(s.t.dir), Resolve(old(s.t.dir), path).value))
  {
    id := 0;
    var x, meta := s.ReadMetaFromPath(path);
    if x < 0 {
      return x, id;
    }
    if meta.kind == Directory {
      return -EPERM, id;
    }
    if readOnly {
      return -EROFS, id;
    }
    id := x;
    FilesAreChildless(s.t.dir, x);
    r := s.DeleteFile(x);
  }

  /** Never removes a directory with entries, nor the root. */
  method RmdirBody(s: Session, bs: nat, readOnly: bool, path: Path) returns (r: int, ghost id: Id)
    requires !s.aborted && Inv(bs, s.t)
    modifies s
    ensures r >= 0 ==>
              && r == 0 && path != [] && Resolve(old(s.t.dir), path) == Some(id) && IsDir(old(s.t.dir), id)
              && Listing(old(s.t.dir), id) == {} && Done(bs, s, old(s.t), Remove(id))
    ensures s.aborted ==> r == -EIO
    ensures !s.aborted ==> r == RmdirCode(old(s.t.dir), readOnly, path)
    ensures Sound(old(s.plan)) ==> !s.aborted
    ensures readOnly ==> r < 0
  {
    id := 0;
    var x, meta := s.ReadMetaFromPath(path);
    if x < 0 {
      return x, id;
    }
    if meta.kind != Directory {
      return -ENOTDIR, id;
    }
    if readOnly {
      return -EROFS, id;
    }
    id := x;
    r := s.DeleteDir(x);
    assert r >= 0 ==> x != ROOT;
  }

  lemma FilesAreChildless(d: Dir, id: Id)
    requires TreeOk(d) && id in d && d[id].kind != Directory
    ensures id != ROOT && forall c | c in d :: d[c].parent != id
  {
    forall c | c in d
      ensures d[c].parent != id
    {
      assert ParentIsDir(d, c);
    }
  }

  /** The intended read is POSIX `read()`, the empty read at the end of the file included. */
  lemma IntendedReadIsFlat(t: Tables, bs: nat, id: Id, offset: nat, len: nat, n: nat, before: seq<byte>)
    requires bs > 0 && FullBlocks(t.data, bs) && id in t.dir && len < INT_LIMIT && |before| == n
    requires t.dir[id].size > 0 ==> offset <= t.dir[id].size
    requires n == if t.dir[id].size == 0 then 0 else Min(len, t.dir[id].size - offset)
    ensures ReadBytes(Intended, t.data, bs, id, offset, n, before) == ReadFlat(Content(t, bs, id), offset, len)
  {
    if n > 0 {
      IntLengthFits(bs, offset, n);
      IntendedReads(t.data, bs, id, offset, n);
      ReadIsSlice(Intended, t, bs, id, offset, n, before);
    } else {
      assert ReadFlat(Content(t, bs, id), offset, len) == [];
    }
  }

  /** From the start of a file the as-written copy is never short. */
  lemma StartNeverOverruns(reader: Reader, bs: nat, n: nat)
    requires bs > 0
    ensures !Overruns(reader, ComputeBlockInfo(bs, 0, n))
  {
    DivModUnique(bs, 0, 0, 0);
  }

  // ----- rename

  /** How `pgfuse_rename` ends: at once, after a rollback, or after a COMMIT whatever happened. */
  datatype Exit = ReturnAtOnce | RollBack | CommitAnyway

  /** The parent id as decoded is the parent or the root: a directory either way. */
  lemma ParentWordIsDir(t: Tables, host: Endian, id: Id)
    requires TreeOk(t.dir) && IdsIssued(t) && id in t.dir
    ensures NetworkLong(host, t.dir[id].parent) < INT_LIMIT && IsDir(t.dir, NetworkLong(host, t.dir[id].parent))
  {
    assert ParentIsDir(t.dir, id);
    assert NetworkLong(host, t.dir[id].parent) == if host == Little then ROOT else t.dir[id].parent;
  }

  /** The kernel's check, on the ids that the two paths stand for. */
  ghost predicate RenameGuard(d: Dir, from: Path, to: Path)
    requires TreeOk(d)
  {
    Resolve(d, from).Some? && Resolve(d, Dirname(to)).Some? && IsDir(d, Resolve(d, Dirname(to)).value) ==>
      MayMove(d, Resolve(d, from).value, Resolve(d, Dirname(to)).value)
  }

  /** The tests after which `pgfuse_rename` returns without giving the connection back. */
  ghost predicate RenameEarly(d: Dir, from: Path, to: Path) {
    Resolve(d, from) == None || (Resolve(d, to).Some? && Resolve(d, to).value != ROOT)
  }

  /** One of the look-ups of `from` and `to` fails. */
  ghost predicate RenameLookupFails(d: Dir, plan: seq<bool>, from: Path, to: Path) {
    Faulty(plan, LookupCost(d, from) + if Resolve(d, from).Some? then LookupCost(d, to) else 0)
  }

  /** In terms of the two paths: the source is missing, or the target exists and is not the root. */
  lemma RenameEarlyExactly(d: Dir, from: Path, to: Path)
    requires TreeOk(d)
    ensures RenameEarly(d, from, to) <==> Resolve(d, from) == None || (to != [] && Resolve(d, to).Some?)
  {
    if to != [] {
      NotTheRoot(d, to);
    }
  }

  lemma NotTheRoot(d: Dir, path: Path)
    requires TreeOk(d) && path != []
    ensures Resolve(d, path) != Some(ROOT)
  {
    if Resolve(d, path) == Some(ROOT) {
      WalkToDir(d, ROOT, path);
      ResolvedPath(d, path, ROOT);
      PathOfStep(d, ROOT);
      assert false;
    }
  }

  ghost function EarlyCode(d: Dir, from: Path, to: Path): int {
    if Resolve(d, from) == None then -ENOENT
    else match Resolve(d, to)
      case Some(id) =>
        if id in d && d[id].kind == Regular then (if from == to then 0 else -EEXIST) else -EINVAL
      case None => -EIO
  }

  /** The result when no statement fails. */
  ghost function RenameCode(d: Dir, readOnly: bool, from: Path, to: Path): int {
    if RenameEarly(d, from, to) then EarlyCode(d, from, to)
    else if Resolve(d, Dirname(to)) == None then -ENOENT
    else if !HasParentDir(d, to) then -EIO
    else if readOnly then -EROFS
    else 0
  }

  /** What must hold of the two paths for the UPDATE to go through. */
  ghost predicate RenameReady(d: Dir, from: Path, to: Path) {
    && !RenameEarly(d, from, to) && Resolve(d, from).value in d
    && Resolve(d, Dirname(to)).Some? && IsDir(d, ParentOf(d, to))
    && SlotFree(d, Resolve(d, from).value, ParentOf(d, to), Basename(to))
  }

  /** The result when no statement fails but for the constraints. */
  ghost function MoveCode(d: Dir, readOnly: bool, from: Path, to: Path): int {
    if !RenameEarly(d, from, to) && RenameCode(d, readOnly, from, to) == 0 && !RenameReady(d, from, to) then -EIO
    else RenameCode(d, readOnly, from, to)
  }

  ghost function RenameChange(d: Dir, from: Path, to: Path): Change
    requires Resolve(d, from).Some?
  {
    Move(Resolve(d, from).value, ParentOf(d, to), Basename(to))
  }

  ghost function Renamed(d: Dir, from: Path, to: Path): Dir
    requires RenameReady(d, from, to)
  {
    Moved(d, Resolve(d, from).value, ParentOf(d, to), Basename(to))
  }

  /** With the kernel's check the UPDATE is an allowed move to a place that was free. */
  lemma RenameIsMove(bs: nat, t: Tables, from: Path, to: Path)
    requires Inv(bs, t) && RenameReady(t.dir, from, to) && RenameGuard(t.dir, from, to)
    ensures to != [] && Resolve(t.dir, to) == None
    ensures Allowed(bs, t, RenameChange(t.dir, from, to))
    ensures Apply(bs, t, RenameChange(t.dir, from, to)) == t.(dir := Renamed(t.dir, from, to))
  {
    assert IsChild(t.dir, ROOT, ROOT_NAME, ROOT);
    NotTheRoot(t.dir, to);
  }

  /** The look-ups and tests at the top; `stop` means that the hook returns `r` at once. */
  method RenameLookups(s: Session, bs: nat, from: Path, to: Path) returns (r: int, stop: bool, fromMeta: Meta)
    requires !s.aborted && Inv(bs, s.t)
    modifies s`aborted, s`plan
    ensures stop <==> RenameEarly(s.t.dir, from, to) || RenameLookupFails(s.t.dir, old(s.plan), from, to)
    ensures s.aborted <==> RenameLookupFails(s.t.dir, old(s.plan), from, to)
    ensures stop ==> r == if s.aborted then -EIO else EarlyCode(s.t.dir, from, to)
    ensures stop ==> r <= 0
    ensures !stop ==>
              r >= 0 && Resolve(s.t.dir, from) == Some(r) && r in s.t.dir && fromMeta == MetaOf(s.host, s.t.dir[r])
    ensures Sound(old(s.plan)) ==> Sound(s.plan) && !s.aborted
  {
    FaultyLater(s.plan, LookupCost(s.t.dir, from), LookupCost(s.t.dir, to));
    r, fromMeta := s.ReadMetaFromPath(from);
    if r < 0 {
      return r, true, fromMeta;
    }
    var toId, toMeta := s.ReadMetaFromPath(to);
    if toId < 0 && toId != -ENOENT {
      return toId, true, fromMeta;
    }
    if toId > 0 {
      if toMeta.kind == Regular {
        return if from == to then 0 else -EEXIST, true, fromMeta;
      }
      return -EINVAL, true, fromMeta;
    }
    stop := false;
  }

  method RenameBody(s: Session, bs: nat, readOnly: bool, from: Path, to: Path) returns (r: int, exit: Exit)
    requires !s.aborted && Inv(bs, s.t)
    modifies s
    ensures r <= 0 && (exit == RollBack ==> r < 0)
    ensures exit == ReturnAtOnce <==>
              RenameEarly(old(s.t.dir), from, to) || RenameLookupFails(old(s.t.dir), old(s.plan), from, to)
    ensures exit == ReturnAtOnce ==>
              r == if RenameLookupFails(old(s.t.dir), old(s.plan), from, to) then -EIO
                   else EarlyCode(old(s.t.dir), from, to)
    ensures r == if s.aborted then -EIO else RenameCode(old(s.t.dir), readOnly, from, to)
    ensures exit == CommitAnyway && r < 0 ==> s.aborted
    ensures exit == CommitAnyway && r == 0 ==>
              !s.aborted && RenameReady(old(s.t.dir), from, to)
              && s.t == old(s.t).(dir := Renamed(old(s.t.dir), from, to))
    ensures Sound(old(s.plan)) ==>
              (s.aborted <==> (RenameCode(old(s.t.dir), readOnly, from, to) == 0
                               && !RenameEarly(old(s.t.dir), from, to) && !RenameReady(old(s.t.dir), from, to)))
  {
    var fromId, stop, fromMeta := RenameLookups(s, bs, from, to);
    if stop {
      return fromId, ReturnAtOnce;
    }
    var toParentId, toParentMeta := s.ReadMetaFromPath(Dirname(to));
    if toParentId < 0 {
      return toParentId, RollBack;
    }
    if toParentMeta.kind != Directory {
      return -EIO, RollBack;
    }
    if readOnly {
      return -EROFS, RollBack;
    }
    ParentWordIsDir(s.t, s.host, fromId);
    r := s.Rename(fromId, fromMeta.parentId, toParentId, Basename(to));
    return r, CommitAnyway;
  }

  /**
   A successful rename between two paths, in terms of those paths: for every q, `to` + q now
   means what `from` + q meant, nothing is left at or below `from`, and a path that leads through
   neither is untouched.
   */
  lemma RenameHookMovesPaths(d: Dir, from: Path, to: Path, q: Path)
    requires TreeOk(d) && RenameReady(d, from, to) && RenameGuard(d, from, to) && !CrossesFile(d, ROOT, from)
    ensures var d' := Renamed(d, from, to);
            && TreeOk(d')
            && Resolve(d', to + q) == Resolve(d, from + q)
            && Resolve(d', from + q) == None
            && (!(from <= q) && !(to <= q) ==> Resolve(d', q) == Resolve(d, q))
  {
    var id, parent, name := Resolve(d, from).value, ParentOf(d, to), Basename(to);
    assert IsChild(d, ROOT, ROOT_NAME, ROOT);
    NotTheRoot(d, to);
    FoundPathIsPrefix(d, from);
    ParentPath(d, to);
    PathResolves(d, id);
    MoveKeepsTree(d, id, parent, name);
    RenameMovesSubtree(d, id, parent, name, q);
  }
}
