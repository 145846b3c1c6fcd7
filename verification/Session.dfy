/**
 One transaction on one connection, and the `psql_*` functions that run inside it.

 `t` is what the transaction sees. Any statement may fail: `plan` says which of the statements to
 come will, and is arbitrary. A failed statement aborts the transaction and changes nothing. Each
 statement requires that the transaction is not yet aborted, so the bodies below also show that no
 function goes on after a failed statement.
 */
module Session {
  import opened FlatFile
  import opened Tables
  import opened BlockInfo
  import opened BlockStore
  import opened SparseRead
  import opened ReadPass
  import opened Tree
  import opened TreeChanges
  import opened Changes

  /** The part of `PgMeta` in this model; `parentId` went through `ntohl`. */
  datatype Meta = Meta(size: nat, kind: Kind, parentId: nat)

  /** `Overrun`: a `memcpy` with a wrapped length. `Wrapped`: the remaining size itself wrapped, and is copied. */
  datatype ReadOutcome = Returned(r: int) | Overrun | Wrapped

  function MetaOf(host: Endian, e: Entry): Meta {
    Meta(e.size, e.kind, NetworkLong(host, e.parent))
  }

  // ----- failing statements

  /** One of the next n statements fails. */
  predicate Faulty(plan: seq<bool>, n: nat) {
    exists i | 0 <= i < |plan| :: i < n && plan[i]
  }

  /** What is left of the plan after n statements. */
  function Rest(plan: seq<bool>, n: nat): seq<bool> {
    if n <= |plan| then plan[n..] else []
  }

  /** No statement to come fails. */
  predicate Sound(plan: seq<bool>) {
    forall i | 0 <= i < |plan| :: !plan[i]
  }

  lemma FaultyLater(plan: seq<bool>, m: nat, n: nat)
    ensures Faulty(plan, m + n) <==> Faulty(plan, m) || Faulty(Rest(plan, m), n)
    ensures Rest(Rest(plan, m), n) == Rest(plan, m + n)
  {
    if i :| 0 <= i < |plan| && i < m + n && plan[i] && m <= i {
      assert Rest(plan, m)[i - m];
    }
    if i :| 0 <= i < |Rest(plan, m)| && i < n && Rest(plan, m)[i] {
      assert plan[m + i];
    }
  }

  lemma FaultyOrSound(plan: seq<bool>, m: nat, n: nat)
    requires m <= n
    ensures Faulty(plan, m) ==> Faulty(plan, n)
    ensures Sound(plan) ==> !Faulty(plan, n) && Sound(Rest(plan, n))
  {
  }

  /**
   What the server has in store for one hook: which connections are alive, whether BEGIN works, which
   statements fail, how many ids the sequence skips, and whether COMMIT and ROLLBACK work.
   */
  datatype Server = Server(alive: seq<bool>, begins: bool, plan: seq<bool>, skipped: nat, closes: bool)

  /** BEGIN, COMMIT and ROLLBACK work. */
  predicate Works(server: Server) {
    server.begins && server.closes
  }

  /** The number of SELECTs of `psql_path_to_id`. */
  ghost function WalkCost(d: Dir, id: Id, path: seq<string>): nat
    decreases |path|
  {
    if path == [] || !IsDir(d, id) then 0
    else match Child(d, id, path[0])
      case None => 1
      case Some(c) => 1 + WalkCost(d, c, path[1..])
  }

  /** And of `psql_read_meta_from_path`. */
  ghost function LookupCost(d: Dir, path: seq<string>): nat {
    WalkCost(d, ROOT, path) + if Resolve(d, path).Some? then 1 else 0
  }

  lemma {:induction false} WholeWalkCost(d: Dir, id: Id, path: seq<string>)
    requires Descend(d, id, path).Some?
    ensures WalkCost(d, id, path) == |path|
    decreases |path|
  {
    if path != [] {
      WholeWalkCost(d, Child(d, id, path[0]).value, path[1..]);
    }
  }

  /** The return value of a successful `psql_path_to_id` or `psql_read_meta_from_path`. */
  ghost function Found(d: Dir, path: seq<string>): int {
    match Resolve(d, path)
    case None => -ENOENT
    case Some(id) => id
  }

  class Session {
    const host: Endian
    const skipped: nat
    const closes: bool
    var t: Tables
    var aborted: bool
    var plan: seq<bool>

    /** BEGIN on a connection that sees the tables `t`. */
    constructor (host: Endian, t: Tables, server: Server)
      ensures this.host == host && this.t == t && !aborted
      ensures plan == server.plan && skipped == server.skipped && closes == server.closes
    {
      this.host := host;
      this.t := t;
      aborted, plan, skipped, closes := false, server.plan, server.skipped, server.closes;
    }

    // ----- statements

    method Statement() returns (ok: bool)
      requires !aborted
      modifies `aborted, `plan
      ensures ok == !aborted
      ensures aborted == Faulty(old(plan), 1) && plan == Rest(old(plan), 1)
      ensures Sound(old(plan)) ==> Sound(plan) && !aborted
    {
      aborted := plan != [] && plan[0];
      plan := Rest(plan, 1);
      ok := !aborted;
    }

    /** SELECT id, mode FROM dir WHERE name AND parent_id; UNIQUE allows at most one row. */
    method SelectChild(parent: Id, name: string) returns (ok: bool, row: Option<Id>, isDir: bool)
      requires !aborted && UniqueNames(t.dir)
      modifies `aborted, `plan
      ensures ok == !aborted
      ensures ok ==> row == Child(t.dir, parent, name) && (row.Some? ==> isDir == IsDir(t.dir, row.value))
      ensures aborted == Faulty(old(plan), 1) && plan == Rest(old(plan), 1)
      ensures Sound(old(plan)) ==> Sound(plan) && !aborted
    {
      row, isDir := None, false;
      ok := Statement();
      if ok {
        if id :| id in t.dir && t.dir[id].parent == parent && t.dir[id].name == name {
          row, isDir := Some(id), IsDirMode(TypeBits(t.dir[id].kind));
          OnlyChild(t.dir, parent, name, id);
        }
      }
    }

    /** SELECT size, mode, parent_id FROM dir WHERE id. */
    method SelectEntry(id: int) returns (ok: bool, row: Option<Entry>)
      requires !aborted
      modifies `aborted, `plan
      ensures ok == !aborted
      ensures ok ==> row == if id in t.dir then Some(t.dir[id]) else None
      ensures aborted == Faulty(old(plan), 1) && plan == Rest(old(plan), 1)
      ensures Sound(old(plan)) ==> Sound(plan) && !aborted
    {
      row := None;
      ok := Statement();
      if ok && id in t.dir {
        row := Some(t.dir[id]);
      }
    }

    /** UPDATE dir SET size, mode WHERE id. */
    method UpdateEntry(id: Id, meta: Meta) returns (ok: bool)
      requires !aborted
      modifies this
      ensures ok == !aborted
      ensures !ok || id !in old(t.dir) ==> t == old(t)
      ensures ok && id in old(t.dir) ==>
                t == old(t).(dir := old(t.dir)[id := old(t.dir)[id].(size := meta.size, kind := meta.kind)])
      ensures Sound(old(plan)) ==> Sound(plan) && !aborted
    {
      ok := Statement();
      if ok && id in t.dir {
        t := t.(dir := t.dir[id := t.dir[id].(size := meta.size, kind := meta.kind)]);
      }
    }

    /** INSERT INTO dir, under the foreign key on parent_id and UNIQUE( name, parent_id ). */
    method InsertEntry(parent: Id, name: string, size: nat, kind: Kind) returns (ok: bool, ghost id: Id)
      requires !aborted
      modifies this
      ensures ok == !aborted
      ensures !ok ==> t == old(t)
      ensures id == old(t.serial) + skipped && plan == Rest(old(plan), 1)
      ensures ok <==> && !Faulty(old(plan), 1) && parent in old(t.dir) && Child(old(t.dir), parent, name).None?
                      && id < INT_LIMIT
      ensures ok ==> t == Tables(old(t.dir)[id := Entry(parent, name, size, kind)], old(t.data), id + 1)
      ensures Sound(old(plan)) ==> Sound(plan)
    {
      var newId := t.serial + skipped;
      id := newId;
      ok := Statement();
      var taken := exists c | c in t.dir :: t.dir[c].parent == parent && t.dir[c].name == name;
      if c :| c in t.dir && t.dir[c].parent == parent && t.dir[c].name == name {
        assert IsChild(t.dir, parent, name, c);
      }
      if ok && (parent !in t.dir || newId >= INT_LIMIT || taken) {
        aborted := true;
        ok := false;
      }
      if ok {
        t := Tables(t.dir[newId := Entry(parent, name, size, kind)], t.data, newId + 1);
      }
    }

    /** SELECT COUNT(*) FROM dir WHERE parent_id. */
    method CountChildren(id: Id) returns (ok: bool, count: nat)
      requires !aborted
      modifies `aborted, `plan
      ensures ok == !aborted
      ensures ok ==> (count == 0 <==> forall c | c in t.dir :: t.dir[c].parent != id)
      ensures Sound(old(plan)) ==> Sound(plan) && !aborted
    {
      ok := Statement();
      var children := set c | c in t.dir && t.dir[c].parent == id;
      count := |children|;
      if count == 0 {
        assert forall c | c in t.dir :: c !in children;
      } else {
        var c :| c in children;
      }
    }

    /**
     DELETE FROM dir WHERE id, with the rule `dir_remove` that also deletes the blocks of an
     entry without the directory bit. The foreign keys refuse to orphan a child or a block.
     */
    method DeleteEntry(id: Id) returns (ok: bool)
      requires !aborted
      modifies this
      ensures ok == !aborted
      ensures !ok || id !in old(t.dir) ==> t == old(t)
      ensures ok && id in old(t.dir) ==>
                && (forall c | c in old(t.dir) && c != id :: old(t.dir)[c].parent != id)
                && (old(t.dir)[id].kind == Directory ==> forall k | k in old(t.data) :: k.file != id)
                && t == old(t).(dir := old(t.dir) - {id}, data := WithoutRows(old(t.data), id))
      ensures Sound(old(plan)) && Deletable(old(t), id) ==> Sound(plan) && !aborted
    {
      ok := Statement();
      if ok && id in t.dir {
        var kept := if RuleDirRemoveApplies(TypeBits(t.dir[id].kind)) then WithoutRows(t.data, id) else t.data;
        if (exists c | c in t.dir :: c != id && t.dir[c].parent == id) || (exists k | k in kept :: k.file == id) {
          aborted := true;
          ok := false;
        } else {
          assert kept == WithoutRows(t.data, id);
          t := t.(dir := t.dir - {id}, data := kept);
        }
      }
    }

    /** UPDATE dir SET parent_id, name WHERE id, under the same constraints as the INSERT. */
    method UpdateParentAndName(id: Id, parent: Id, name: string) returns (ok: bool, count: nat)
      requires !aborted
      modifies this
      ensures ok == !aborted
      ensures !ok || id !in old(t.dir) ==> t == old(t)
      ensures ok ==> count == if id in old(t.dir) then 1 else 0
      ensures ok && id in old(t.dir) ==>
                && parent in old(t.dir) && SlotFree(old(t.dir), id, parent, name)
                && t == old(t).(dir := Moved(old(t.dir), id, parent, name))
      ensures Sound(old(plan)) ==>
                (aborted <==> id in old(t.dir) && !(parent in old(t.dir) && SlotFree(old(t.dir), id, parent, name)))
    {
      count := 0;
      ok := Statement();
      if ok && id in t.dir {
        if c :| c in t.dir && c != id && t.dir[c].parent == parent && t.dir[c].name == name {
          assert IsChild(t.dir, parent, name, c);
          aborted := true;
          ok := false;
        } else if parent !in t.dir {
          aborted := true;
          ok := false;
        } else {
          count := 1;
          t := t.(dir := Moved(t.dir, id, parent, name));
        }
      }
    }

    /** One of the four UPDATEs of `psql_write_block`. */
    method UpdateBlock(bs: nat, id: Id, no: nat, offset: nat, buf: seq<byte>) returns (ok: bool, count: nat)
      requires !aborted && offset + |buf| <= bs
      modifies this
      ensures ok == !aborted
      ensures !ok || BlockKey(id, no) !in old(t.data) ==> t == old(t)
      ensures ok ==> count == if BlockKey(id, no) in old(t.data) then 1 else 0
      ensures ok && BlockKey(id, no) in old(t.data) ==>
                t == old(t).(data := old(t.data)[BlockKey(id, no) :=
                                     UpdatedBlock(old(t.data)[BlockKey(id, no)], bs, offset, buf)])
      ensures Sound(old(plan)) ==> Sound(plan) && !aborted
    {
      count := 0;
      ok := Statement();
      var k := BlockKey(id, no);
      if ok && k in t.data {
        count := 1;
        t := t.(data := t.data[k := UpdatedBlock(t.data[k], bs, offset, buf)]);
      }
    }

    /** INSERT INTO data of a zero block, under the foreign key on dir_id and the primary key. */
    method InsertZeroBlock(bs: nat, id: Id, no: nat) returns (ok: bool)
      requires !aborted
      modifies this
      ensures ok == !aborted
      ensures !ok ==> t == old(t)
      ensures ok ==> id in old(t.dir) && BlockKey(id, no) !in old(t.data)
                     && t == old(t).(data := old(t.data)[BlockKey(id, no) := Zeros(bs)])
      ensures Sound(old(plan)) && id in old(t.dir) && BlockKey(id, no) !in old(t.data) ==> Sound(plan) && !aborted
    {
      ok := Statement();
      if ok && (id !in t.dir || BlockKey(id, no) in t.data) {
        aborted := true;
        ok := false;
      }
      if ok {
        t := t.(data := t.data[BlockKey(id, no) := Zeros(bs)]);
      }
    }

    /** DELETE FROM data WHERE dir_id AND block_no > no. */
    method DeleteBlocksAbove(id: Id, no: int) returns (ok: bool)
      requires !aborted
      modifies this
      ensures ok == !aborted
      ensures !ok ==> t == old(t)
      ensures ok ==> t == old(t).(data := map k | k in old(t.data) && !(k.file == id && k.no > no) :: old(t.data)[k])
      ensures Sound(old(plan)) ==> Sound(plan) && !aborted
    {
      ok := Statement();
      if ok {
        t := t.(data := map k | k in t.data && !(k.file == id && k.no > no) :: t.data[k]);
      }
    }

    /** UPDATE data SET data = substring( data from 1 for len ) || zeros WHERE dir_id AND block_no. */
    method PadBlock(bs: nat, id: Id, no: int, len: nat) returns (ok: bool, count: nat)
      requires !aborted && len <= bs
      modifies this
      ensures ok == !aborted
      ensures !ok ==> t == old(t)
      ensures ok ==> count <= 1
      ensures ok && no >= 0 && BlockKey(id, no) in old(t.data) ==>
                t == old(t).(data := old(t.data)[BlockKey(id, no) :=
                                     Substring(old(t.data)[BlockKey(id, no)], 1, len) + Zeros(bs - len)])
      ensures ok && !(no >= 0 && BlockKey(id, no) in old(t.data)) ==> t == old(t)
      ensures Sound(old(plan)) ==> Sound(plan) && !aborted
    {
      count := 0;
      ok := Statement();
      if ok && no >= 0 && BlockKey(id, no) in t.data {
        count := 1;
        t := t.(data := t.data[BlockKey(id, no) := Substring(t.data[BlockKey(id, no)], 1, len) + Zeros(bs - len)]);
      }
    }

    // ----- paths and meta data

    method PathToId(path: Path) returns (r: int)
      requires !aborted && RootRow(t.dir) && UniqueNames(t.dir)
      modifies `aborted, `plan
      ensures aborted ==> r == -EIO
      ensures !aborted ==> r == Found(t.dir, path)
      ensures !aborted && r >= 0 ==> r in t.dir
      ensures aborted <==> Faulty(old(plan), WalkCost(t.dir, ROOT, path))
      ensures !aborted ==> plan == Rest(old(plan), WalkCost(t.dir, ROOT, path))
      ensures Sound(old(plan)) ==> Sound(plan) && !aborted
    {
      var id, isDir, rest := ROOT, true, path;
      ghost var used, cost := 0, WalkCost(t.dir, ROOT, path);
      FaultyOrSound(plan, 0, cost);
      while isDir && rest != []
        invariant !aborted && !Faulty(old(plan), used) && plan == Rest(old(plan), used)
        invariant used + WalkCost(t.dir, id, rest) == cost
        invariant id in t.dir && isDir == IsDir(t.dir, id)
        invariant Walk(t.dir, id, rest) == Resolve(t.dir, path)
        decreases |rest|
      {
        FaultyLater(old(plan), used, 1);
        FaultyOrSound(old(plan), used + 1, cost);
        var ok, row;
        ok, row, isDir := SelectChild(id, rest[0]);
        used := used + 1;
        if !ok {
          return -EIO;
        }
        if row.None? {
          return -ENOENT;
        }
        id, rest := row.value, rest[1..];
      }
      return id;
    }

    /** The id is narrowed to an `int` parameter, but returned as it was given. */
    method ReadMeta(id: nat) returns (r: int, meta: Meta)
      requires !aborted
      modifies `aborted, `plan
      ensures aborted ==> r == -EIO
      ensures !aborted && ToInt32(id) in t.dir ==> r == id && meta == MetaOf(host, t.dir[ToInt32(id)])
      ensures !aborted && ToInt32(id) !in t.dir ==> r == -ENOENT
      ensures aborted == Faulty(old(plan), 1) && plan == Rest(old(plan), 1)
      ensures Sound(old(plan)) ==> Sound(plan) && !aborted
    {
      meta := Meta(0, Regular, 0);
      var param1 := ToInt32(id);
      var ok, row := SelectEntry(param1);
      if !ok {
        return -EIO, meta;
      }
      if row.None? {
        return -ENOENT, meta;
      }
      return id, MetaOf(host, row.value);
    }

    method ReadMetaFromPath(path: Path) returns (r: int, meta: Meta)
      requires !aborted && TreeOk(t.dir) && IdsIssued(t)
      modifies `aborted, `plan
      ensures aborted ==> r == -EIO
      ensures !aborted ==> r == Found(t.dir, path)
      ensures !aborted && r >= 0 ==> r in t.dir && meta == MetaOf(host, t.dir[r])
      ensures aborted <==> Faulty(old(plan), LookupCost(t.dir, path))
      ensures !aborted ==> plan == Rest(old(plan), LookupCost(t.dir, path))
      ensures Sound(old(plan)) ==> Sound(plan) && !aborted
    {
      meta := Meta(0, Regular, 0);
      var p := PathToId(path);
      FaultyLater(old(plan), WalkCost(t.dir, ROOT, path), 1);
      var id := ToInt32(p);
      if id < 0 {
        return id, meta;
      }
      r, meta := ReadMeta(id);
    }

    method WriteMeta(id: Id, meta: Meta) returns (r: int)
      requires !aborted
      modifies this
      ensures aborted ==> r == -EIO && t == old(t)
      ensures !aborted ==> r == 0
      ensures !aborted && id in old(t.dir) ==>
                t == old(t).(dir := old(t.dir)[id := old(t.dir)[id].(size := meta.size, kind := meta.kind)])
      ensures !aborted && id !in old(t.dir) ==> t == old(t)
      ensures Sound(old(plan)) ==> Sound(plan) && !aborted
    {
      var ok := UpdateEntry(id, meta);
      r := if ok then 0 else -EIO;
    }

    // ----- creating, deleting, renaming, listing

    /** `psql_create_file`, and with kind Directory and size 0 `psql_create_dir`. */
    method CreateEntry(parent: Id, name: string, size: nat, kind: Kind) returns (r: int, ghost id: Id)
      requires !aborted
      modifies this
      ensures aborted ==> r == -EIO && t == old(t)
      ensures id == old(t.serial) + skipped && plan == Rest(old(plan), 1)
      ensures !aborted <==> && !Faulty(old(plan), 1) && parent in old(t.dir) && Child(old(t.dir), parent, name).None?
                            && id < INT_LIMIT
      ensures !aborted ==> r == 0 && t == Tables(old(t.dir)[id := Entry(parent, name, size, kind)], old(t.data), id + 1)
      ensures Sound(old(plan)) ==> Sound(plan)
    {
      var ok;
      ok, id := InsertEntry(parent, name, size, kind);
      r := if ok then 0 else -EIO;
    }

    /** Refuses a directory that is not empty; the root counts as its own child. */
    method DeleteDir(id: Id) returns (r: int)
      requires !aborted && id in t.dir
      modifies this
      ensures aborted ==> r == -EIO && t == old(t)
      ensures !aborted && r != 0 ==> r == -ENOTEMPTY && t == old(t) && exists c | c in t.dir :: t.dir[c].parent == id
      ensures r == 0 ==>
                && !aborted
                && (forall c | c in old(t.dir) :: old(t.dir)[c].parent != id)
                && t == old(t).(dir := old(t.dir) - {id}, data := WithoutRows(old(t.data), id))
      ensures Sound(old(plan)) && (forall k | k in old(t.data) :: k.file != id) ==> Sound(plan) && !aborted
    {
      var ok, count := CountChildren(id);
      if !ok {
        return -EIO;
      }
      if count > 0 {
        return -ENOTEMPTY;
      }
      ok := DeleteEntry(id);
      r := if ok then 0 else -EIO;
    }

    method DeleteFile(id: Id) returns (r: int)
      requires !aborted && id in t.dir
      modifies this
      ensures aborted ==> r == -EIO && t == old(t)
      ensures !aborted ==>
                && r == 0
                && (forall c | c in old(t.dir) && c != id :: old(t.dir)[c].parent != id)
                && t == old(t).(dir := old(t.dir) - {id}, data := WithoutRows(old(t.data), id))
      ensures Sound(old(plan)) && Deletable(old(t), id) ==> Sound(plan) && !aborted
    {
      var ok := DeleteEntry(id);
      r := if ok then 0 else -EIO;
    }

    method Rename(fromId: Id, fromParentId: nat, toParentId: Id, name: string) returns (r: int)
      requires !aborted && fromId in t.dir && fromParentId < INT_LIMIT && toParentId < INT_LIMIT
      modifies this
      ensures r < 0 ==> t == old(t)
      ensures aborted ==> r == -EIO
      ensures r >= 0 ==>
                && r == 0 && !aborted && IsDir(old(t.dir), toParentId)
                && SlotFree(old(t.dir), fromId, toParentId, name)
                && t == old(t).(dir := Moved(old(t.dir), fromId, toParentId, name))
      ensures !aborted && IsDir(old(t.dir), fromParentId) && IsDir(old(t.dir), toParentId) ==> r == 0
      ensures Sound(old(plan)) && IsDir(old(t.dir), fromParentId) && IsDir(old(t.dir), toParentId) ==>
                (aborted <==> !SlotFree(old(t.dir), fromId, toParentId, name))
    {
      var id, meta := ReadMeta(fromParentId);
      if id < 0 {
        return id;
      }
      if meta.kind != Directory {
        return -EIO;
      }
      id, meta := ReadMeta(toParentId);
      if id < 0 {
        return id;
      }
      if meta.kind != Directory {
        return -EIO;
      }
      var ok, count := UpdateParentAndName(fromId, toParentId, name);
      if !ok || count != 1 {
        return -EIO;
      }
      return 0;
    }

    /** One call of the filler for each row of a directory; the root's own name is skipped. */
    method Readdir(id: Id) returns (r: int, names: seq<string>)
      requires !aborted && UniqueNames(t.dir)
      modifies `aborted, `plan
      ensures aborted ==> r == -EIO && names == []
      ensures !aborted ==> r == 0 && Distinct(names) && forall name :: name in names <==> name in Listing(t.dir, id)
      ensures Sound(old(plan)) ==> Sound(plan) && !aborted
    {
      names := [];
      var ok := Statement();
      if !ok {
        return -EIO, names;
      }
      var rows := set c | c in t.dir && t.dir[c].parent == id;
      ghost var done: set<Id> := {};
      while rows != {}
        invariant forall c :: c in t.dir && t.dir[c].parent == id <==> c in rows || c in done
        invariant done !! rows && Distinct(names)
        invariant forall name :: name in names <==> name != ROOT_NAME && exists c | c in done :: t.dir[c].name == name
        decreases rows
      {
        var c :| c in rows;
        if t.dir[c].name != ROOT_NAME {
          assert t.dir[c].name !in names by {
            assert forall b | b in done :: !SameSlot(t.dir, b, c);
          }
          names := names + [t.dir[c].name];
        }
        rows, done := rows - {c}, done + {c};
      }
      return 0, names;
    }

    /** The remount check: the length of some stored block, or the given size if there is none. */
    method GetBlockSize(bs: nat) returns (r: int)
      requires !aborted
      modifies `aborted, `plan
      ensures aborted ==> r == -EIO
      ensures !aborted && t.data == map[] ==> r == bs
      ensures !aborted && t.data != map[] ==> exists k | k in t.data :: r == |t.data[k]|
      ensures Sound(old(plan)) ==> Sound(plan) && !aborted
    {
      var ok := Statement();
      if !ok {
        return -EIO;
      }
      if k :| k in t.data {
        return |t.data[k]|;
      } else {
        assert t.data.Keys == {};
        return bs;
      }
    }

    // ----- blocks

    /** The loop is the `goto update_again`: it comes back only once, with the row now present. */
    method WriteBlock(bs: nat, id: Id, buf: seq<byte>, no: nat, offset: nat) returns (r: int)
      requires !aborted && FullBlocks(t.data, bs)
      modifies this
      ensures aborted ==> r == -EIO
      ensures !aborted && offset + |buf| > bs ==> r == -EIO && t == old(t)
      ensures !aborted && offset + |buf| <= bs ==>
                && r == |buf|
                && t == old(t).(data := old(t.data)[BlockKey(id, no) :=
                                       SpliceBlock(Block(old(t.data), bs, id, no), offset, buf)])
      ensures Sound(old(plan)) && id in old(t.dir) ==> Sound(plan) && !aborted
    {
      if offset + |buf| > bs {
        return -EIO;
      }
      ghost var block := Block(t.data, bs, id, no);
      FourFormsAreOneSplice(block, bs, offset, buf);
      while true
        invariant !aborted
        invariant BlockKey(id, no) in t.data ==> t == old(t).(data := old(t.data)[BlockKey(id, no) := block])
        invariant BlockKey(id, no) !in t.data ==> t == old(t)
        invariant Sound(old(plan)) && id in old(t.dir) ==> Sound(plan)
        decreases BlockKey(id, no) !in t.data
      {
        var ok, count := UpdateBlock(bs, id, no, offset, buf);
        if !ok {
          return -EIO;
        }
        if count == 1 {
          assert old(t.data)[BlockKey(id, no) := block][BlockKey(id, no) := UpdatedBlock(block, bs, offset, buf)]
              == old(t.data)[BlockKey(id, no) := UpdatedBlock(block, bs, offset, buf)];
          return |buf|;
        }
        ok := InsertZeroBlock(bs, id, no);
        if !ok {
          return -EIO;
        }
      }
    }

    /** First block, full blocks, last block: together one splice of the whole buffer. */
    method WriteBuf(bs: nat, id: Id, buf: seq<byte>, offset: nat) returns (r: int)
      requires !aborted && bs > 0 && FullBlocks(t.data, bs) && |buf| < INT_LIMIT
      modifies this
      ensures aborted ==> r == -EIO
      ensures !aborted ==> r == |buf| && t == old(t).(data := Spliced(old(t.data), bs, id, offset, buf))
      ensures Sound(old(plan)) && id in old(t.dir) ==> Sound(plan) && !aborted
    {
      if |buf| == 0 {
        assert Spliced(t.data, bs, id, offset, buf) == t.data;
        return 0;
      }
      var info := ComputeBlockInfo(bs, offset, |buf|);
      IntLengthFits(bs, offset, |buf|);
      FirstPiece(bs, offset, |buf|);
      r := WritePieces(bs, id, buf, offset, info);
    }

    method WritePieces(bs: nat, id: Id, buf: seq<byte>, offset: nat, info: Info) returns (r: int)
      requires !aborted && bs > 0 && FullBlocks(t.data, bs)
      requires info.fromBlock <= info.toBlock && 0 < info.toLen <= bs
      requires 0 < info.fromLen <= |buf| && info.fromOffset + info.fromLen <= bs
      requires offset == info.fromBlock * bs + info.fromOffset && offset + |buf| == info.toBlock * bs + info.toLen
      requires info.fromBlock == info.toBlock ==> info.fromLen == |buf|
      requires info.fromBlock < info.toBlock ==>
                 info.fromLen < |buf| && offset + info.fromLen == (info.fromBlock + 1) * bs
      modifies this
      ensures aborted ==> r == -EIO
      ensures !aborted ==> r == |buf| && t == old(t).(data := Spliced(old(t.data), bs, id, offset, buf))
      ensures Sound(old(plan)) && id in old(t.dir) ==> Sound(plan) && !aborted
    {
      ghost var data0 := t.data;
      var from := info.fromBlock;
      var piece := buf[..info.fromLen];
      r := WriteBlock(bs, id, piece, from, info.fromOffset);
      if r < 0 {
        return r;
      }
      OneBlockSplice(data0, bs, id, from, info.fromOffset, piece);
      if info.fromBlock == info.toBlock {
        assert piece == buf;
        return r;
      }
      r := WriteRest(bs, id, buf, offset, info.fromLen, from + 1, info.toBlock, info.toLen, data0);
      if r < 0 {
        return r;
      }
      return |buf|;
    }

    /** All full blocks, then the last one. */
    method WriteRest(bs: nat, id: Id, buf: seq<byte>, offset: nat, firstLen: nat, first: nat, last: nat, lastLen: nat,
                     ghost data0: Data) returns (r: int)
      requires !aborted && bs > 0 && FullBlocks(data0, bs)
      requires first <= last && 0 < lastLen <= bs
      requires 0 < firstLen < |buf| && offset + firstLen == first * bs && offset + |buf| == last * bs + lastLen
      requires t.data == Spliced(data0, bs, id, offset, buf[..firstLen])
      modifies this
      ensures aborted ==> r == -EIO
      ensures !aborted ==> r == lastLen && t == old(t).(data := Spliced(data0, bs, id, offset, buf))
      ensures Sound(old(plan)) && id in old(t.dir) ==> Sound(plan) && !aborted
    {
      r := 0;
      var done := firstLen;
      if first < last {
        r, done := WriteFullBlocks(bs, id, buf, offset, firstLen, first, last, data0);
        if r < 0 {
          return r;
        }
      }
      assert done + lastLen == |buf|;
      r := AppendBlock(bs, id, buf, offset, done, last, lastLen, data0);
      assert buf[..done + lastLen] == buf;
    }

    /** The full blocks from `first` up to `last`. */
    method WriteFullBlocks(bs: nat, id: Id, buf: seq<byte>, offset: nat, firstLen: nat, first: nat, last: nat,
                           ghost data0: Data) returns (r: int, done: nat)
      requires !aborted && bs > 0 && FullBlocks(data0, bs) && first < last
      requires 0 < firstLen && offset + firstLen == first * bs && last * bs < offset + |buf|
      requires firstLen <= |buf| && t.data == Spliced(data0, bs, id, offset, buf[..firstLen])
      modifies this
      ensures aborted ==> r == -EIO
      ensures !aborted ==>
                && r == bs && 0 < done < |buf| && offset + done == last * bs
                && t == old(t).(data := Spliced(data0, bs, id, offset, buf[..done]))
      ensures Sound(old(plan)) && id in old(t.dir) ==> Sound(plan) && !aborted
    {
      var no := first;
      r, done := bs, firstLen;
      MulGap(bs, first, last);
      while no < last
        invariant !aborted && r == bs
        invariant no <= last && offset + done == no * bs
        invariant 0 < done < |buf|
        invariant t == old(t).(data := Spliced(data0, bs, id, offset, buf[..done]))
        invariant Sound(old(plan)) && id in old(t.dir) ==> Sound(plan)
      {
        r := WriteFullBlock(bs, id, buf, offset, done, no, last, data0);
        if r < 0 {
          return r, done;
        }
        no, done := no + 1, done + bs;
      }
    }

    method WriteFullBlock(bs: nat, id: Id, buf: seq<byte>, offset: nat, done: nat, no: nat, ghost last: nat,
                          ghost data0: Data) returns (r: int)
      requires !aborted && bs > 0 && FullBlocks(data0, bs)
      requires 0 < done < |buf| && no < last && offset + done == no * bs && last * bs < offset + |buf|
      requires t.data == Spliced(data0, bs, id, offset, buf[..done])
      modifies this
      ensures aborted ==> r == -EIO
      ensures done + bs < |buf| && offset + (done + bs) == (no + 1) * bs
      ensures !aborted ==> r == bs && t == old(t).(data := Spliced(data0, bs, id, offset, buf[..done + bs]))
      ensures Sound(old(plan)) && id in old(t.dir) ==> Sound(plan) && !aborted
    {
      NextBlock(bs, no, last, offset + done, offset + |buf|);
      r := AppendBlock(bs, id, buf, offset, done, no, bs, data0);
    }

    /** One more block at the end of what is already stored. */
    method AppendBlock(bs: nat, id: Id, buf: seq<byte>, offset: nat, done: nat, no: nat, len: nat, ghost data0: Data)
        returns (r: int)
      requires !aborted && bs > 0 && FullBlocks(data0, bs)
      requires 0 < done && 0 < len <= bs && done + len <= |buf| && offset + done == no * bs
      requires t.data == Spliced(data0, bs, id, offset, buf[..done])
      modifies this
      ensures aborted ==> r == -EIO
      ensures !aborted ==> r == len && t == old(t).(data := Spliced(data0, bs, id, offset, buf[..done + len]))
      ensures Sound(old(plan)) && id in old(t.dir) ==> Sound(plan) && !aborted
    {
      AppendOneBlock(data0, bs, id, offset, buf, done, len, no);
      r := WriteBlock(bs, id, buf[done..done + len], no, 0);
    }

    /** SELECT block_no, data FROM data WHERE dir_id AND block_no BETWEEN ORDER BY block_no. */
    method SelectBlocks(id: Id, from: nat, upto: int) returns (ok: bool, rows: seq<Row>)
      requires !aborted
      modifies `aborted, `plan
      ensures ok == !aborted
      ensures ok ==> rows == RowsIn(t.data, id, from, upto)
      ensures Sound(old(plan)) ==> Sound(plan) && !aborted
    {
      ok := Statement();
      rows := RowsIn(t.data, id, from, upto);
    }

    /** Fills the front of `buf`; the rest of it is left alone. */
    method ReadBuf(reader: Reader, bs: nat, id: Id, buf: array<byte>, offset: nat, len: nat) returns (o: ReadOutcome)
      requires !aborted && bs > 0 && FullBlocks(t.data, bs) && id < INT_LIMIT
      requires len < INT_LIMIT && len <= buf.Length && offset < OFF_LIMIT
      modifies `aborted, `plan, buf
      ensures aborted ==> o == Returned(-EIO)
      ensures !aborted && id !in t.dir ==> o == Returned(-ENOENT)
      ensures !aborted && id in t.dir ==>
                && (t.dir[id].size == 0 ==> o == Returned(0) && buf[..] == old(buf[..]))
                && (0 < t.dir[id].size < offset ==>
                      if NothingBeyond(bs, t.dir[id].size, offset) then o == Returned(-EIO) && buf[..] == old(buf[..])
                      else o == Wrapped)
      ensures !aborted && id in t.dir && 0 < t.dir[id].size && offset <= t.dir[id].size ==>
                var n := Min(len, t.dir[id].size - offset);
                if Overruns(reader, ComputeBlockInfo(bs, offset, n)) then o == Overrun
                else && o == Returned(n)
                     && buf[..n] == ReadBytes(reader, t.data, bs, id, offset, n, old(buf[..n]))
                     && buf[n..] == old(buf[n..])
      ensures Sound(old(plan)) ==> Sound(plan) && !aborted
    {
      var tmp, meta := ReadMeta(id);
      if tmp < 0 {
        return Returned(tmp);
      }
      if meta.size == 0 {
        return Returned(0);
      }
      if offset > meta.size {
        o := ReadBeyond(bs, id, meta.size, offset);
        return;
      }
      var size := if offset + len > meta.size then meta.size - offset else len;
      o := ReadRange(reader, bs, id, buf, offset, size);
    }

    /** The wrapped size: the loop does not run and the count is wrong, or it runs away. */
    method ReadBeyond(bs: nat, id: Id, fileSize: nat, offset: nat) returns (o: ReadOutcome)
      requires !aborted && bs > 0 && 0 < fileSize < offset < OFF_LIMIT
      modifies `aborted, `plan
      ensures aborted ==> o == Returned(-EIO)
      ensures !aborted ==> o == if NothingBeyond(bs, fileSize, offset) then Returned(-EIO) else Wrapped
      ensures Sound(old(plan)) ==> Sound(plan) && !aborted
    {
      var info := InfoBeyond(bs, fileSize, offset);
      var ok, rows := SelectBlocks(id, info.fromBlock, info.toBlock);
      o := if !ok || info.fromBlock > info.toBlock then Returned(-EIO) else Wrapped;
    }

    /** The SELECT and the copying loop, for a range inside the file. */
    method ReadRange(reader: Reader, bs: nat, id: Id, buf: array<byte>, offset: nat, n: nat) returns (o: ReadOutcome)
      requires !aborted && bs > 0 && FullBlocks(t.data, bs) && n < INT_LIMIT && n <= buf.Length
      modifies `aborted, `plan, buf
      ensures aborted ==> o == Returned(-EIO)
      ensures !aborted && Overruns(reader, ComputeBlockInfo(bs, offset, n)) ==> o == Overrun
      ensures !aborted && !Overruns(reader, ComputeBlockInfo(bs, offset, n)) ==>
                && o == Returned(n)
                && buf[..n] == ReadBytes(reader, t.data, bs, id, offset, n, old(buf[..n]))
                && buf[n..] == old(buf[n..])
      ensures Sound(old(plan)) ==> Sound(plan) && !aborted
    {
      ghost var before := buf[..n];
      var info := ComputeBlockInfo(bs, offset, n);
      var ok, rows := SelectBlocks(id, info.fromBlock, info.toBlock);
      assert buf[..n] == before;
      if !ok {
        return Returned(-EIO);
      }
      if Overruns(reader, info) {
        return Overrun;
      }
      var copied := FillBuffer(reader, t.data, rows, bs, id, offset, n, info, buf);
      return Returned(copied);
    }

    /** `cut` says which text is meant: the last block as computed here, or the one that is intended. */
    method Truncate(cut: Cut, bs: nat, id: Id, n: nat) returns (r: int)
      requires !aborted && bs > 0 && id < INT_LIMIT
      modifies this
      ensures aborted ==> r == -EIO
      ensures !aborted && id !in old(t.dir) ==> r == -ENOENT && t == old(t)
      ensures !aborted && id in old(t.dir) ==> r == 0 && t == Resized(cut, bs, old(t), id, n)
      ensures Sound(old(plan)) ==> Sound(plan) && !aborted
    {
      var res, meta := ReadMeta(id);
      if res < 0 {
        return res;
      }
      var block, len := CutBlock(cut, bs, n), CutLen(cut, bs, n);
      var ok := DeleteBlocksAbove(id, block);
      if !ok {
        return -EIO;
      }
      var count;
      ok, count := PadBlock(bs, id, block, len);
      if !ok || count > 1 {
        return -EIO;
      }
      CutThenPad(old(t.data), bs, id, block, len);
      r := WriteMeta(id, meta.(size := n));
    }
  }

  /** DELETE and padding, one after the other. */
  lemma CutThenPad(data: Data, bs: nat, id: Id, no: int, len: nat)
    requires len <= bs
    ensures var kept := map k | k in data && !(k.file == id && k.no > no) :: data[k];
            Truncated(data, bs, id, no, len)
            == if no >= 0 && BlockKey(id, no) in kept
               then kept[BlockKey(id, no) := Substring(kept[BlockKey(id, no)], 1, len) + Zeros(bs - len)]
               else kept
  {
  }

  /** The foreign keys allow the row to go. */
  ghost predicate Deletable(t: Tables, id: Id) {
    && id in t.dir && (forall c | c in t.dir && c != id :: t.dir[c].parent != id)
    && (t.dir[id].kind == Directory ==> forall k | k in t.data :: k.file != id)
  }

  predicate Distinct(names: seq<string>) {
    forall i, j | 0 <= i < j < |names| :: names[i] != names[j]
  }

  function Listing(d: Dir, id: Id): set<string> {
    set c | c in d && d[c].parent == id && d[c].name != ROOT_NAME :: d[c].name
  }

  /** A directory lists exactly the names that resolve below it. */
  lemma ListingIsWhatResolves(d: Dir, id: Id, name: string)
    requires TreeOk(d) && IsDir(d, id) && ValidName(name)
    ensures name in Listing(d, id) <==> Descend(d, ROOT, PathOf(d, id) + [name]).Some?
  {
    PathResolves(d, id);
    DescendAppend(d, ROOT, PathOf(d, id), [name]);
    if Child(d, id, name).Some? {
      assert IsChild(d, id, name, Child(d, id, name).value);
    }
    if name in Listing(d, id) {
      var c :| c in d && d[c].parent == id && d[c].name == name;
      OnlyChild(d, id, name, c);
    }
  }
}
