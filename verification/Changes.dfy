/**
 What a successful hook does to the tables, as one value-level change per hook, and what holds
 after every run of changes: the integrity of the tables, the refinement of flat files, and the
 accounting of rows.
 */
module Changes {
  import opened FlatFile
  import opened Tables
  import opened BlockInfo
  import opened BlockStore
  import opened Tree
  import opened TreeChanges

  datatype Change =
    | Nothing
    | Add(id: Id, parent: Id, name: string, kind: Kind)
    | AddLink(id: Id, parent: Id, name: string, target: seq<byte>)
    | Remove(id: Id)
    | Move(id: Id, parent: Id, name: string)
    | WriteAt(id: Id, offset: nat, buf: seq<byte>)
    | Resize(id: Id, n: nat, cut: Cut)

  // ----- integrity

  ghost predicate IsFile(d: Dir, id: Id) {
    id in d && d[id].kind != Directory
  }

  /** Foreign key on dir_id: every block belongs to an existing entry that is no directory. */
  ghost predicate RowsOwned(t: Tables) {
    forall k {:trigger k in t.data} | k in t.data :: IsFile(t.dir, k.file)
  }

  ghost predicate IdsIssued(t: Tables) {
    t.serial <= INT_LIMIT && forall id | id in t.dir :: id < t.serial
  }

  ghost predicate Inv(bs: nat, t: Tables) {
    bs > 0 && TreeOk(t.dir) && FullBlocks(t.data, bs) && RowsOwned(t) && IdsIssued(t)
  }

  /** Nothing but zeros is stored beyond the end of any file. */
  ghost predicate Clean(bs: nat, t: Tables)
    requires bs > 0 && FullBlocks(t.data, bs)
  {
    forall id | id in t.dir :: ZeroTail(t.data, bs, id, t.dir[id].size)
  }

  // ----- changes

  /** The conditions under which the hooks go through. */
  ghost predicate Allowed(bs: nat, t: Tables, c: Change) {
    Inv(bs, t) &&
    match c
    case Nothing => true
    case Add(id, parent, name, kind) =>
      t.serial <= id < INT_LIMIT && kind != Symlink && Addable(t.dir, id, Entry(parent, name, 0, kind))
    case AddLink(id, parent, name, target) =>
      t.serial <= id < INT_LIMIT && Addable(t.dir, id, Entry(parent, name, |target|, Symlink))
    case Remove(id) => Removable(t.dir, id)
    case Move(id, parent, name) => Movable(t.dir, id, parent, name)
    case WriteAt(id, offset, buf) => IsFile(t.dir, id)
    case Resize(id, n, cut) => IsFile(t.dir, id)
  }

  function WithoutRows(data: Data, id: Id): Data {
    map k | k in data && k.file != id :: data[k]
  }

  function WithSize(d: Dir, id: Id, size: nat): Dir
    requires id in d
  {
    d[id := d[id].(size := size)]
  }

  ghost function Apply(bs: nat, t: Tables, c: Change): Tables
    requires Allowed(bs, t, c)
  {
    match c
    case Nothing => t
    case Add(id, parent, name, kind) =>
      Tables(t.dir[id := Entry(parent, name, 0, kind)], t.data, id + 1)
    case AddLink(id, parent, name, target) =>
      Tables(t.dir[id := Entry(parent, name, |target|, Symlink)], Spliced(t.data, bs, id, 0, target), id + 1)
    case Remove(id) => t.(dir := t.dir - {id}, data := WithoutRows(t.data, id))
    case Move(id, parent, name) => t.(dir := Moved(t.dir, id, parent, name))
    case WriteAt(id, offset, buf) =>
      t.(dir := WithSize(t.dir, id, Max(t.dir[id].size, offset + |buf|)),
         data := Spliced(t.data, bs, id, offset, buf))
    case Resize(id, n, cut) => Resized(cut, bs, t, id, n)
  }

  /** The tables after `psql_truncate`, with the block numbers exactly as it computes them. */
  ghost function Resized(cut: Cut, bs: nat, t: Tables, id: Id, n: nat): Tables
    requires bs > 0 && id in t.dir
  {
    t.(dir := WithSize(t.dir, id, n), data := Truncated(t.data, bs, id, CutBlock(cut, bs, n), CutLen(cut, bs, n)))
  }

  // ----- integrity is kept

  lemma ApplyKeepsTree(bs: nat, t: Tables, c: Change)
    requires Allowed(bs, t, c)
    ensures TreeOk(Apply(bs, t, c).dir)
  {
    match c
    case Nothing =>
    case Add(id, parent, name, kind) => AddKeepsTree(t.dir, id, Entry(parent, name, 0, kind));
    case AddLink(id, parent, name, target) => AddKeepsTree(t.dir, id, Entry(parent, name, |target|, Symlink));
    case Remove(id) => RemoveKeepsTree(t.dir, id);
    case Move(id, parent, name) => MoveKeepsTree(t.dir, id, parent, name);
    case WriteAt(id, offset, buf) => SameLinksKeepTree(t.dir, Apply(bs, t, c).dir);
    case Resize(id, n, cut) => SameLinksKeepTree(t.dir, Apply(bs, t, c).dir);
  }

  lemma ApplyKeepsRows(bs: nat, t: Tables, c: Change)
    requires Allowed(bs, t, c)
    ensures FullBlocks(Apply(bs, t, c).data, bs) && RowsOwned(Apply(bs, t, c))
  {
    match c
    case Nothing =>
    case Add(id, parent, name, kind) =>
    case AddLink(id, parent, name, target) => SplicedFull(t.data, bs, id, 0, target);
    case Remove(id) =>
    case Move(id, parent, name) =>
    case WriteAt(id, offset, buf) => SplicedFull(t.data, bs, id, offset, buf);
    case Resize(id, n, cut) =>
      TruncatedFull(t.data, bs, id, CutBlock(cut, bs, n), CutLen(cut, bs, n));
  }

  /**
   Every change keeps the integrity of the tables: the tree, the full-length blocks, and that
   every block belongs to an existing entry which is no directory.
   */
  lemma ApplyKeepsInv(bs: nat, t: Tables, c: Change)
    requires Allowed(bs, t, c)
    ensures Inv(bs, Apply(bs, t, c))
  {
    ApplyKeepsTree(bs, t, c);
    ApplyKeepsRows(bs, t, c);
  }

  // ----- flat files

  /** The abstract state: what every file and symbolic link contains. */
  type Files = map<Id, seq<byte>>

  ghost function FilesOf(bs: nat, t: Tables): Files
    requires bs > 0 && FullBlocks(t.data, bs)
  {
    map id | id in t.dir && IsFile(t.dir, id) :: Content(t, bs, id)
  }

  /** The same changes on flat files; the name space is not visible here. */
  function FlatApply(files: Files, c: Change): Files {
    match c
    case Nothing => files
    case Add(id, parent, name, kind) => if kind == Directory then files else files[id := []]
    case AddLink(id, parent, name, target) => files[id := target]
    case Remove(id) => files - {id}
    case Move(id, parent, name) => files
    case WriteAt(id, offset, buf) => if id in files then files[id := WriteFlat(files[id], offset, buf)] else files
    case Resize(id, n, cut) => if id in files then files[id := ResizeFlat(files[id], n)] else files
  }

  /** The bytes on which the kept length and the requested length disagree are all zero. */
  ghost predicate ResizeSafe(cut: Cut, bs: nat, t: Tables, id: Id, n: nat)
    requires bs > 0 && FullBlocks(t.data, bs)
  {
    forall i: nat | Min(n, KeptBytes(cut, bs, n)) <= i < Max(n, KeptBytes(cut, bs, n)) :: ByteAt(t.data, bs, id, i) == 0
  }

  lemma NoRowsZero(data: Data, bs: nat, id: Id, i: nat)
    requires bs > 0 && FullBlocks(data, bs) && forall k | k in data :: k.file != id
    ensures ByteAt(data, bs, id, i) == 0
  {
    assert BlockKey(id, i / bs) !in data;
  }

  /** What each change does to each byte of each file. */
  lemma ByteAfter(bs: nat, t: Tables, c: Change, id: Id, i: nat)
    requires Allowed(bs, t, c)
    ensures FullBlocks(Apply(bs, t, c).data, bs)
    ensures ByteAt(Apply(bs, t, c).data, bs, id, i) ==
            (match c
             case Nothing => ByteAt(t.data, bs, id, i)
             case Add(_, _, _, _) => ByteAt(t.data, bs, id, i)
             case AddLink(x, _, _, target) => if id == x && i < |target| then target[i] else ByteAt(t.data, bs, id, i)
             case Remove(x) => if id == x then 0 else ByteAt(t.data, bs, id, i)
             case Move(_, _, _) => ByteAt(t.data, bs, id, i)
             case WriteAt(x, offset, buf) =>
               if id == x && offset <= i < offset + |buf| then buf[i - offset] else ByteAt(t.data, bs, id, i)
             case Resize(x, n, cut) => if id == x && i >= KeptBytes(cut, bs, n) then 0 else ByteAt(t.data, bs, id, i))
  {
    ApplyKeepsRows(bs, t, c);
    match c
    case Nothing =>
    case Add(x, parent, name, kind) =>
    case AddLink(x, parent, name, target) => SplicedByte(t.data, bs, x, 0, target, id, i);
    case Remove(x) =>
      if id == x { NoRowsZero(Apply(bs, t, c).data, bs, id, i); }
    case Move(x, parent, name) =>
    case WriteAt(x, offset, buf) => SplicedByte(t.data, bs, x, offset, buf, id, i);
    case Resize(x, n, cut) =>
      TruncatedByte(t.data, bs, x, CutBlock(cut, bs, n), CutLen(cut, bs, n), id, i);
  }

  lemma ApplyKeepsClean(bs: nat, t: Tables, c: Change)
    requires Allowed(bs, t, c) && Clean(bs, t)
    requires c.Resize? ==> ResizeSafe(c.cut, bs, t, c.id, c.n)
    ensures Inv(bs, Apply(bs, t, c)) && Clean(bs, Apply(bs, t, c))
  {
    ApplyKeepsInv(bs, t, c);
    var t' := Apply(bs, t, c);
    forall id, i: nat | id in t'.dir && t'.dir[id].size <= i
      ensures ByteAt(t'.data, bs, id, i) == 0
    {
      ByteAfter(bs, t, c, id, i);
      if id in t.dir {
        assert ZeroTail(t.data, bs, id, t.dir[id].size);
      } else {
        NoRowsZero(t.data, bs, id, i);
      }
    }
  }

  lemma SizeAfter(bs: nat, t: Tables, c: Change, id: Id)
    requires Allowed(bs, t, c) && IsFile(Apply(bs, t, c).dir, id)
    ensures id in FlatApply(FilesOf(bs, t), c)
    ensures |FlatApply(FilesOf(bs, t), c)[id]| == Apply(bs, t, c).dir[id].size
  {
    match c
    case Nothing =>
    case Add(x, parent, name, kind) =>
    case AddLink(x, parent, name, target) =>
    case Remove(x) =>
    case Move(x, parent, name) =>
    case WriteAt(x, offset, buf) => assert IsFile(t.dir, id);
    case Resize(x, n, cut) => assert IsFile(t.dir, id);
  }

  /** Inside the old file the flat change shows the byte of the old content, beyond it zero. */
  lemma FlatByte(bs: nat, t: Tables, id: Id, i: nat)
    requires Inv(bs, t) && Clean(bs, t) && IsFile(t.dir, id)
    ensures id in FilesOf(bs, t) && |FilesOf(bs, t)[id]| == t.dir[id].size
    ensures ByteAt(t.data, bs, id, i) == if i < t.dir[id].size then FilesOf(bs, t)[id][i] else 0
  {
    assert ZeroTail(t.data, bs, id, t.dir[id].size);
  }

  lemma ContentByteAfter(bs: nat, t: Tables, c: Change, id: Id, i: nat)
    requires Allowed(bs, t, c) && Clean(bs, t)
    requires c.Resize? ==> ResizeSafe(c.cut, bs, t, c.id, c.n)
    requires IsFile(Apply(bs, t, c).dir, id) && i < Apply(bs, t, c).dir[id].size
    ensures FullBlocks(Apply(bs, t, c).data, bs)
    ensures id in FlatApply(FilesOf(bs, t), c) && i < |FlatApply(FilesOf(bs, t), c)[id]|
    ensures ByteAt(Apply(bs, t, c).data, bs, id, i) == FlatApply(FilesOf(bs, t), c)[id][i]
  {
    SizeAfter(bs, t, c, id);
    ByteAfter(bs, t, c, id, i);
    if id in t.dir {
      assert IsFile(t.dir, id);
      FlatByte(bs, t, id, i);
      FlatApplyByte(FilesOf(bs, t), c, id, i);
    }
  }

  /** The byte at `i` of a file that exists before and after the change. */
  lemma FlatApplyByte(files: Files, c: Change, id: Id, i: nat)
    requires id in files && id in FlatApply(files, c) && i < |FlatApply(files, c)[id]|
    requires (c.Add? || c.AddLink?) ==> c.id != id
    ensures FlatApply(files, c)[id][i] ==
            if c.WriteAt? && c.id == id && c.offset <= i < c.offset + |c.buf| then c.buf[i - c.offset]
            else if i < |files[id]| then files[id][i] else 0
  {
  }

  lemma ContentAfter(bs: nat, t: Tables, c: Change, id: Id)
    requires Allowed(bs, t, c) && Clean(bs, t)
    requires c.Resize? ==> ResizeSafe(c.cut, bs, t, c.id, c.n)
    requires IsFile(Apply(bs, t, c).dir, id)
    ensures FullBlocks(Apply(bs, t, c).data, bs) && id in FlatApply(FilesOf(bs, t), c)
    ensures Content(Apply(bs, t, c), bs, id) == FlatApply(FilesOf(bs, t), c)[id]
  {
    ApplyKeepsRows(bs, t, c);
    SizeAfter(bs, t, c, id);
    var content, flat := Content(Apply(bs, t, c), bs, id), FlatApply(FilesOf(bs, t), c)[id];
    forall i | 0 <= i < |flat|
      ensures content[i] == flat[i]
    {
      ContentByteAfter(bs, t, c, id, i);
    }
    assert content == flat;
  }

  lemma FilesAfter(bs: nat, t: Tables, c: Change)
    requires Allowed(bs, t, c) && FullBlocks(Apply(bs, t, c).data, bs)
    ensures FilesOf(bs, Apply(bs, t, c)).Keys == FlatApply(FilesOf(bs, t), c).Keys
  {
    var files, flat := FilesOf(bs, Apply(bs, t, c)), FlatApply(FilesOf(bs, t), c);
    forall id
      ensures id in files.Keys <==> id in flat.Keys
    {
      assert id in files <==> IsFile(Apply(bs, t, c).dir, id);
      match c
      case Nothing =>
      case Add(x, parent, name, kind) =>
      case AddLink(x, parent, name, target) =>
      case Remove(x) =>
      case Move(x, parent, name) =>
      case WriteAt(x, offset, buf) =>
      case Resize(x, n, cut) =>
    }
  }

  /** Each change acts on the flat files as POSIX says it should. */
  lemma ApplyRefinesFlat(bs: nat, t: Tables, c: Change)
    requires Allowed(bs, t, c) && Clean(bs, t)
    requires c.Resize? ==> ResizeSafe(c.cut, bs, t, c.id, c.n)
    ensures FullBlocks(Apply(bs, t, c).data, bs)
    ensures FilesOf(bs, Apply(bs, t, c)) == FlatApply(FilesOf(bs, t), c)
  {
    ApplyKeepsRows(bs, t, c);
    FilesAfter(bs, t, c);
    var files, flat := FilesOf(bs, Apply(bs, t, c)), FlatApply(FilesOf(bs, t), c);
    forall id | id in files
      ensures files[id] == flat[id]
    {
      ContentAfter(bs, t, c, id);
    }
  }
}
