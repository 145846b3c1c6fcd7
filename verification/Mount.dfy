/**
 The FUSE hooks of pgfuse.c on a multi-threaded mount. Each hook acquires a connection, opens a
 transaction, runs statements that may fail, commits or rolls back, and releases. Hooks run one
 after the other here; what threads do to each other inside the pool is in PoolSteps.

 `log` records the changes that were committed; `Valid` ties the tables to it, so that every
 theorem about runs of changes is a theorem about runs of hooks.
 */
module Mount {
  import opened FlatFile
  import opened Tables
  import opened BlockInfo
  import opened BlockStore
  import opened SparseRead
  import opened Tree
  import opened Changes
  import opened Runs
  import opened Session
  import opened Hooks
  import opened Pool

  /** `Blocked`: waits for a connection. `Crashed`: undefined behaviour inside `psql_read_buf`. */
  datatype Outcome = Blocked | Crashed | Return(r: int)

  /** Every slot is as before, except that a broken connection may have been written off. */
  ghost predicate Settled(before: seq<Slot>, after: seq<Slot>) {
    |after| == |before| &&
    forall i | 0 <= i < |before| :: after[i] == before[i] || (before[i] == Available && after[i] == Error)
  }

  lemma PassThenReleaseSettles(before: seq<Slot>, mid: seq<Slot>, slot: nat, self: nat)
    requires PassResult(before, mid, slot, self)
    ensures Settled(before, mid[slot := Available])
  {
  }

  ghost predicate Exhausted(slots: seq<Slot>) {
    forall i | 0 <= i < |slots| :: slots[i] != Available
  }

  /** A pass took some slot, and nothing has been given back since. */
  ghost predicate SlotTaken(before: seq<Slot>, after: seq<Slot>, self: nat) {
    exists slot: nat :: PassResult(before, after, slot, self)
  }

  ghost predicate HandlesOk(t: Tables, handles: set<Id>) {
    forall h | h in handles :: h < t.serial && (h in t.dir ==> IsFile(t.dir, h))
  }

  class Mount {
    const bs: nat
    const readOnly: bool
    const host: Endian
    const reader: Reader
    const cut: Cut
    const pool: ConnPool
    /** What the server has in store for the next hook: arbitrary. */
    var server: Server
    var committed: Tables
    var inTx: seq<bool>
    ghost var handles: set<Id>
    ghost var log: seq<Change>

    ghost predicate PoolOk()
      reads `inTx, pool.conns, pool.avail
    {
      && pool.Valid() && |inTx| == pool.avail.Length
      && forall i | 0 <= i < |inTx| :: pool.avail[i] == Available ==> !inTx[i]
    }

    ghost predicate DataOk()
      reads `committed, `log, `handles
    {
      Inv(bs, committed) && Run(bs, log) == Some(committed) && HandlesOk(committed, handles)
    }

    ghost predicate Valid()
      reads `committed, `log, `handles, `inTx, pool.conns, pool.avail
    {
      PoolOk() && DataOk()
    }

    /** A mount of tables that earlier runs left behind. */
    constructor (bs: nat, readOnly: bool, host: Endian, reader: Reader, cut: Cut, connections: nat,
                 up: seq<bool>, t: Tables, ghost past: seq<Change>)
      requires bs > 0 && Run(bs, past) == Some(t)
      ensures this.bs == bs && this.readOnly == readOnly && this.host == host && this.reader == reader
      ensures this.cut == cut && pool.avail.Length == connections && fresh(pool.avail)
      ensures forall i | 0 <= i < connections :: pool.avail[i] == if Alive(up, i) then Available else Error
      ensures Valid() && committed == t && log == past && handles == {}
      ensures NoneHeld(pool.avail[..], inTx)
    {
      this.bs, this.readOnly, this.host, this.reader, this.cut := bs, readOnly, host, reader, cut;
      pool := new ConnPool(connections, up);
      committed := t;
      inTx := seq(connections, _ => false);
      handles := {};
      log := past;
      RunKeepsInv(bs, past);
    }

    // ----- ACQUIRE, PSQL_BEGIN, PSQL_COMMIT, PSQL_ROLLBACK, RELEASE

    method Enter(self: nat) returns (o: Outcome, slot: nat, s: Session)
      requires PoolOk()
      modifies `inTx, `server, pool.avail
      ensures PoolOk() && fresh(s) && s.host == host && s.t == committed && !s.aborted
      ensures s.plan == old(server.plan) && s.skipped == old(server.skipped) && s.closes == old(server.closes)
      ensures FirstAlive(old(pool.avail[..]), old(server.alive), if o == Blocked then -1 else slot)
      ensures o == Blocked || o == Return(if old(server.begins) then 0 else -EIO)
      ensures o == Blocked ==> Settled(old(pool.avail[..]), pool.avail[..]) && inTx == old(inTx)
                               && Exhausted(pool.avail[..])
      ensures o != Blocked ==> PassResult(old(pool.avail[..]), pool.avail[..], slot, self)
      ensures o == Return(0) ==> slot < |old(inTx)| && !old(inTx)[slot] && inTx == old(inTx)[slot := true]
    {
      s := new Session(host, committed, server);
      var alive, begins := server.alive, server.begins;
      server := *;
      slot := 0;
      var i := pool.AcquirePass(self, alive);
      assert forall j | 0 <= j < pool.avail.Length :: pool.avail[j] == pool.avail[..][j];
      assert forall j | 0 <= j < |inTx| :: old(pool.avail[j]) == old(pool.avail[..])[j];
      if i < 0 {
        return Blocked, slot, s;
      }
      slot := i;
      if !begins {
        return Return(-EIO), slot, s;
      }
      inTx := inTx[slot := true];
      return Return(0), slot, s;
    }

    method Release(slot: nat) returns (r: int)
      requires PoolOk() && slot < |inTx| && pool.avail[slot].Held? && !inTx[slot]
      modifies pool.avail
      ensures PoolOk() && r == 0 && pool.avail[..] == old(pool.avail[..])[slot := Available]
    {
      DownwardScanFindsOwner(pool.conns[..], pool.finished, slot);
      assert pool.conns[..][slot] == pool.conns[slot];
      ghost var before := pool.avail[..];
      r := pool.Release(pool.conns[slot]);
      assert forall j | 0 <= j < pool.avail.Length :: pool.avail[j] == before[slot := Available][j];
    }

    /** A ROLLBACK that fails returns at once and keeps the connection. */
    method Rollback(slot: nat, s: Session, code: int) returns (o: Outcome)
      requires PoolOk() && slot < |inTx| && pool.avail[slot].Held?
      modifies `inTx, pool.avail
      ensures PoolOk() && o == Return(if s.closes then code else -EIO)
      ensures s.closes ==> pool.avail[..] == old(pool.avail[..])[slot := Available] && inTx == old(inTx)[slot := false]
      ensures !s.closes ==> pool.avail[..] == old(pool.avail[..]) && inTx == old(inTx)
    {
      if !s.closes {
        return Return(-EIO);
      }
      inTx := inTx[slot := false];
      var r := Release(slot);
      return Return(if r < 0 then -EIO else code);
    }

    /** COMMIT of an aborted transaction is a ROLLBACK, and reports success. */
    method Commit(slot: nat, s: Session, code: int) returns (o: Outcome)
      requires PoolOk() && slot < |inTx| && pool.avail[slot].Held?
      modifies `inTx, `committed, pool.avail
      ensures PoolOk() && o == Return(if s.closes then code else -EIO)
      ensures committed == if s.closes && !s.aborted then s.t else old(committed)
      ensures s.closes ==> pool.avail[..] == old(pool.avail[..])[slot := Available] && inTx == old(inTx)[slot := false]
      ensures !s.closes ==> pool.avail[..] == old(pool.avail[..]) && inTx == old(inTx)
    {
      if !s.closes {
        return Return(-EIO);
      }
      if !s.aborted {
        committed := s.t;
      }
      inTx := inTx[slot := false];
      var r := Release(slot);
      return Return(if r < 0 then -EIO else code);
    }

    /** Puts the change that was just committed on record. */
    ghost method Record(t: Tables, c: Change)
      requires Run(bs, log) == Some(t) && HandlesOk(t, handles)
      requires Allowed(bs, t, c) && committed == Apply(bs, t, c)
      modifies `log
      ensures log == old(log) + [c] && DataOk()
    {
      ApplyKeepsInv(bs, t, c);
      forall h | h in handles
        ensures h < committed.serial && (h in committed.dir ==> IsFile(committed.dir, h))
      {
        HandlesStayFiles(bs, t, c, h);
      }
      log := log + [c];
      assert log[..|log| - 1] == old(log);
    }

    /**
     The end of a hook. Failure atomicity, for every hook: the log is the old one or the old one
     plus the complete change, and only in the second case the result is the hook's own code with
     `commit` set. If COMMIT and ROLLBACK work the connection is back in its slot, else it is lost.
     */
    method Finish(slot: nat, s: Session, commit: bool, code: int, ghost c: Change,
                  ghost avail0: seq<Slot>, ghost inTx0: seq<bool>, ghost self: nat) returns (o: Outcome)
      requires Valid() && PassResult(avail0, pool.avail[..], slot, self)
      requires slot < |inTx0| && !inTx0[slot] && inTx == inTx0[slot := true]
      requires commit ==> code >= 0 && Done(bs, s, committed, c)
      modifies `committed, `inTx, `log, pool.avail
      ensures Valid() && o == Return(if s.closes then code else -EIO)
      ensures if s.closes then Settled(avail0, pool.avail[..]) && inTx == inTx0
              else SlotTaken(avail0, pool.avail[..], self)
      ensures log == if commit && s.closes then old(log) + [c] else old(log)
      ensures !commit || !s.closes ==> committed == old(committed)
      ensures commit && s.closes ==> Allowed(bs, old(committed), c) && committed == Apply(bs, old(committed), c)
      ensures commit && c == Nothing ==> committed == old(committed)
    {
      PassThenReleaseSettles(avail0, pool.avail[..], slot, self);
      if !commit {
        o := Rollback(slot, s, code);
        return o;
      }
      o := Commit(slot, s, code);
      if s.closes {
        Record(old(committed), c);
      }
    }

    // ----- hooks

    method Write(self: nat, fh: Id, offset: nat, buf: seq<byte>) returns (o: Outcome)
      requires Valid() && (fh == 0 || fh in handles) && |buf| < INT_LIMIT
      modifies `committed, `inTx, `log, `server, pool.avail
      ensures Valid() && o != Crashed
      ensures o == Blocked <==> NoneAlive(old(pool.avail[..]), old(server.alive))
      ensures o == Blocked ==> Exhausted(pool.avail[..])
      ensures Works(old(server)) ==> Settled(old(pool.avail[..]), pool.avail[..]) && inTx == old(inTx)
      ensures o.Return? && o.r >= 0 ==> o.r == |buf| && log == old(log) + [WriteAt(fh, offset, buf)]
      ensures o.Return? && o.r >= 0 ==>
                fh in old(committed.dir) && fh in committed.dir
                && committed.dir[fh].size == Max(old(committed.dir)[fh].size, offset + |buf|)
      ensures !(o.Return? && o.r >= 0) ==> log == old(log)
      ensures o.Return? ==> o.r == -EIO || o.r == WriteCode(old(committed.dir), readOnly, fh, |buf|)
      ensures Works(old(server)) && o.Return? && Sound(old(server.plan)) ==>
                o.r == WriteCode(old(committed.dir), readOnly, fh, |buf|)
      ensures o.Return? && !Works(old(server)) ==>
                o.r == -EIO && log == old(log) && SlotTaken(old(pool.avail[..]), pool.avail[..], self)
      ensures readOnly ==> log == old(log) && committed == old(committed)
      ensures Works(old(server)) && Sound(old(server.plan)) && o.Return? ==>
                (o.r >= 0 <==> !readOnly && fh != 0 && fh in old(committed.dir))
    {
      var slot, s;
      o, slot, s := Enter(self);
      if o != Return(0) {
        return o;
      }
      var r := WriteBody(s, bs, readOnly, fh, offset, buf);
      o := Finish(slot, s, r >= 0, r, WriteAt(fh, offset, buf), old(pool.avail[..]), old(inTx), self);
    }

    /** What a read of `size` bytes at `offset` leaves in the buffer, when it returns. */
    method Read(self: nat, fh: Id, buf: array<byte>, size: nat, offset: nat) returns (o: Outcome)
      requires Valid() && (fh == 0 || fh in handles) && size < INT_LIMIT && size <= buf.Length
      requires offset < OFF_LIMIT
      modifies `committed, `inTx, `log, `server, pool.avail, buf
      ensures Valid() && committed == old(committed)
      ensures o == Blocked <==> NoneAlive(old(pool.avail[..]), old(server.alive))
      ensures o == Blocked ==> Exhausted(pool.avail[..])
      ensures Works(old(server)) && o != Crashed ==> Settled(old(pool.avail[..]), pool.avail[..]) && inTx == old(inTx)
      ensures o.Return? ==> o.r == -EIO || o.r == ReadCode(committed.dir, fh, offset, size)
      ensures o.Return? && o.r >= 0 ==>
                && fh != 0 && fh in committed.dir && (committed.dir[fh].size > 0 ==> offset <= committed.dir[fh].size)
                && buf[..o.r] == ReadBytes(reader, committed.data, bs, fh, offset, o.r, old(buf[..o.r]))
                && buf[o.r..] == old(buf[o.r..])
      ensures o.Return? && o.r >= 0 && reader == Intended ==>
                buf[..o.r] == ReadFlat(Content(committed, bs, fh), offset, size)
      ensures o == Crashed ==> fh in committed.dir && ReadCrashes(reader, bs, committed.dir[fh].size, offset, size)
      ensures o.Return? && o.r >= 0 ==> !ReadCrashes(reader, bs, committed.dir[fh].size, offset, size)
      ensures log == if o.Return? && o.r >= 0 then old(log) + [Nothing] else old(log)
      ensures Works(old(server)) && o.Return? && Sound(old(server.plan)) ==>
                o.r == ReadCode(committed.dir, fh, offset, size)
      ensures o.Return? && !Works(old(server)) ==>
                o.r == -EIO && log == old(log) && SlotTaken(old(pool.avail[..]), pool.avail[..], self)
    {
      var slot, s;
      o, slot, s := Enter(self);
      if o != Return(0) {
        return o;
      }
      var res := ReadBody(s, bs, reader, fh, buf, size, offset);
      if !res.Returned? {
        return Crashed;
      }
      if res.r >= 0 && reader == Intended {
        IntendedReadIsFlat(committed, bs, fh, offset, size, res.r, old(buf[..res.r]));
      }
      o := Finish(slot, s, res.r >= 0, res.r, Nothing, old(pool.avail[..]), old(inTx), self);
    }

    method Truncate(self: nat, path: Path, n: nat) returns (o: Outcome)
      requires Valid()
      modifies `committed, `inTx, `log, `server, pool.avail
      ensures Valid() && o != Crashed
      ensures o == Blocked <==> NoneAlive(old(pool.avail[..]), old(server.alive))
      ensures o == Blocked ==> Exhausted(pool.avail[..])
      ensures Works(old(server)) ==> Settled(old(pool.avail[..]), pool.avail[..]) && inTx == old(inTx)
      ensures o.Return? && o.r >= 0 ==>
                && o.r == 0 && Resolve(old(committed.dir), path).Some?
                && log == old(log) + [Resize(Resolve(old(committed.dir), path).value, n, cut)]
      ensures !(o.Return? && o.r >= 0) ==> log == old(log)
      ensures o.Return? ==> o.r == -EIO || o.r == TruncateCode(old(committed.dir), readOnly, path)
      ensures Works(old(server)) && o.Return? && Sound(old(server.plan)) ==>
                o.r == TruncateCode(old(committed.dir), readOnly, path)
      ensures o.Return? && !Works(old(server)) ==>
                o.r == -EIO && log == old(log) && SlotTaken(old(pool.avail[..]), pool.avail[..], self)
      ensures readOnly ==> log == old(log) && committed == old(committed)
      ensures Works(old(server)) && Sound(old(server.plan)) && o.Return? ==>
                (o.r == 0 <==> && !readOnly && Resolve(old(committed.dir), path).Some?
                               && IsFile(old(committed.dir), Resolve(old(committed.dir), path).value))
    {
      var slot, s;
      o, slot, s := Enter(self);
      if o != Return(0) {
        return o;
      }
      ghost var id;
      var r;
      r, id := TruncateBody(s, bs, cut, readOnly, path, n);
      o := Finish(slot, s, r >= 0, r, Resize(id, n, cut), old(pool.avail[..]), old(inTx), self);
    }

    method Ftruncate(self: nat, fh: Id, n: nat) returns (o: Outcome)
      requires Valid() && (fh == 0 || fh in handles)
      modifies `committed, `inTx, `log, `server, pool.avail
      ensures Valid() && o != Crashed
      ensures o == Blocked <==> NoneAlive(old(pool.avail[..]), old(server.alive))
      ensures o == Blocked ==> Exhausted(pool.avail[..])
      ensures Works(old(server)) ==> Settled(old(pool.avail[..]), pool.avail[..]) && inTx == old(inTx)
      ensures o.Return? && o.r >= 0 ==> o.r == 0 && log == old(log) + [Resize(fh, n, cut)]
      ensures !(o.Return? && o.r >= 0) ==> log == old(log)
      ensures o.Return? ==> o.r == -EIO || o.r == FtruncateCode(old(committed.dir), readOnly, fh)
      ensures Works(old(server)) && o.Return? && Sound(old(server.plan)) ==>
                o.r == FtruncateCode(old(committed.dir), readOnly, fh)
      ensures o.Return? && !Works(old(server)) ==>
                o.r == -EIO && log == old(log) && SlotTaken(old(pool.avail[..]), pool.avail[..], self)
      ensures readOnly ==> log == old(log) && committed == old(committed)
      ensures Works(old(server)) && Sound(old(server.plan)) && o.Return? ==>
                (o.r >= 0 <==> !readOnly && fh != 0 && fh in old(committed.dir))
    {
      var slot, s;
      o, slot, s := Enter(self);
      if o != Return(0) {
        return o;
      }
      var r := FtruncateBody(s, bs, cut, readOnly, fh, n);
      o := Finish(slot, s, r >= 0, r, Resize(fh, n, cut), old(pool.avail[..]), old(inTx), self);
    }

    /**
     A result of 0 without a handle means that nothing was created. With BEGIN, COMMIT and ROLLBACK
     working this happens exactly when the look-up after the INSERT fails.
     */
    method Create(self: nat, path: Path) returns (o: Outcome, fh: Option<Id>)
      requires Valid()
      modifies `committed, `inTx, `log, `handles, `server, pool.avail
      ensures Valid() && o != Crashed
      ensures o == Blocked <==> NoneAlive(old(pool.avail[..]), old(server.alive))
      ensures o == Blocked ==> Exhausted(pool.avail[..])
      ensures Works(old(server)) ==> Settled(old(pool.avail[..]), pool.avail[..]) && inTx == old(inTx)
      ensures if o == Return(0) && fh.Some?
              then && handles == old(handles) + {fh.value}
                   && log == old(log) + [Add(fh.value, ParentOf(old(committed.dir), path), Basename(path), Regular)]
                   && Resolve(committed.dir, path) == fh && fh.value in committed.dir
                   && committed.dir[fh.value] == Entry(ParentOf(old(committed.dir), path), Basename(path), 0, Regular)
              else log == old(log) && committed == old(committed) && handles == old(handles)
      ensures o.Return? ==>
                || o.r == -EIO || o.r == CreateCode(old(committed.dir), readOnly, path) <= 0
                || (o.r == 0 && fh == None)
      ensures Works(old(server)) && o.Return? ==>
                && (o.r == 0 <==> CreateInserts(old(committed), old(server.plan), old(server.skipped), readOnly, path))
                && (o.r == 0 ==> (fh.None? <==> CreateLosesEntry(old(committed), old(server.plan), path)))
      ensures Works(old(server)) && o.Return? && Sound(old(server.plan)) ==>
                o.r == InsertCode(CreateCode(old(committed.dir), readOnly, path), old(committed), old(server.skipped),
                                 path)
      ensures o.Return? && !Works(old(server)) ==>
                o.r == -EIO && log == old(log) && SlotTaken(old(pool.avail[..]), pool.avail[..], self)
      ensures readOnly ==> log == old(log) && committed == old(committed)
    {
      fh := None;
      var slot, s;
      o, slot, s := Enter(self);
      if o != Return(0) {
        return o, fh;
      }
      var r, commit;
      r, fh, commit := CreateBody(s, bs, readOnly, path);
      o := FinishCreate(slot, s, commit, r, fh, path, old(pool.avail[..]), old(inTx), self);
    }

    /** The end of a create; the handle counts as open only if the file was committed. */
    method FinishCreate(slot: nat, s: Session, commit: bool, r: int, ghost fh: Option<Id>, ghost path: Path,
                        ghost avail0: seq<Slot>, ghost inTx0: seq<bool>, ghost self: nat) returns (o: Outcome)
      requires Valid() && PassResult(avail0, pool.avail[..], slot, self)
      requires slot < |inTx0| && !inTx0[slot] && inTx == inTx0[slot := true]
      requires commit ==>
                 && r == 0 && fh.Some? && Resolve(s.t.dir, path) == fh
                 && Done(bs, s, committed, Add(fh.value, ParentOf(committed.dir, path), Basename(path), Regular))
      modifies `committed, `inTx, `log, `handles, pool.avail
      ensures Valid() && o == Return(if s.closes then r else -EIO)
      ensures if s.closes then Settled(avail0, pool.avail[..]) && inTx == inTx0
              else SlotTaken(avail0, pool.avail[..], self)
      ensures if commit && s.closes
              then && handles == old(handles) + {fh.value}
                   && log == old(log) + [Add(fh.value, ParentOf(old(committed.dir), path), Basename(path), Regular)]
                   && Resolve(committed.dir, path) == fh && fh.value in committed.dir
                   && committed.dir[fh.value] == Entry(ParentOf(old(committed.dir), path), Basename(path), 0, Regular)
              else log == old(log) && committed == old(committed) && handles == old(handles)
    {
      ghost var c := if commit then Add(fh.value, ParentOf(committed.dir, path), Basename(path), Regular) else Nothing;
      o := Finish(slot, s, commit, r, c, avail0, inTx0, self);
      if commit && s.closes {
        handles := handles + {fh.value};
      }
    }

    method Open(self: nat, path: Path, readAccess: bool) returns (o: Outcome, fh: Option<Id>)
      requires Valid()
      modifies `committed, `inTx, `log, `handles, `server, pool.avail
      ensures Valid() && committed == old(committed) && o != Crashed
      ensures o == Blocked <==> NoneAlive(old(pool.avail[..]), old(server.alive))
      ensures o == Blocked ==> Exhausted(pool.avail[..])
      ensures Works(old(server)) ==> Settled(old(pool.avail[..]), pool.avail[..]) && inTx == old(inTx)
      ensures o == Return(0) ==> fh.Some? && fh == Resolve(committed.dir, path) && IsFile(committed.dir, fh.value)
                                 && handles == old(handles) + {fh.value}
      ensures o != Return(0) ==> handles == old(handles)
      ensures log == if o == Return(0) then old(log) + [Nothing] else old(log)
      ensures o.Return? ==> o.r == -EIO || o.r == OpenCode(committed.dir, readOnly, path, readAccess)
      ensures Works(old(server)) && o.Return? && Sound(old(server.plan)) ==>
                o.r == OpenCode(committed.dir, readOnly, path, readAccess)
      ensures o.Return? && !Works(old(server)) ==>
                o.r == -EIO && log == old(log) && SlotTaken(old(pool.avail[..]), pool.avail[..], self)
    {
      fh := None;
      var slot, s;
      o, slot, s := Enter(self);
      if o != Return(0) {
        return o, fh;
      }
      var r;
      r, fh := OpenBody(s, bs, readOnly, path, readAccess);
      o := Finish(slot, s, r >= 0, r, Nothing, old(pool.avail[..]), old(inTx), self);
      if o == Return(0) {
        handles := handles + {fh.value};
      }
    }

    method Mkdir(self: nat, path: Path) returns (o: Outcome, ghost id: Id)
      requires Valid()
      modifies `committed, `inTx, `log, `server, pool.avail
      ensures Valid() && o != Crashed
      ensures o == Blocked <==> NoneAlive(old(pool.avail[..]), old(server.alive))
      ensures o == Blocked ==> Exhausted(pool.avail[..])
      ensures Works(old(server)) ==> Settled(old(pool.avail[..]), pool.avail[..]) && inTx == old(inTx)
      ensures o.Return? && o.r >= 0 ==>
                && o.r == 0
                && log == old(log) + [Add(id, ParentOf(old(committed.dir), path), Basename(path), Directory)]
                && Resolve(old(committed.dir), path) == None && Resolve(committed.dir, path) == Some(id)
                && id in committed.dir
                && committed.dir[id] == Entry(ParentOf(old(committed.dir), path), Basename(path), 0, Directory)
      ensures !(o.Return? && o.r >= 0) ==> log == old(log)
      ensures o.Return? ==> o.r == -EIO || o.r == MkdirCode(old(committed.dir), readOnly, path)
      ensures Works(old(server)) && o.Return? && Sound(old(server.plan)) ==>
                o.r == InsertCode(MkdirCode(old(committed.dir), readOnly, path), old(committed), old(server.skipped),
                                 path)
      ensures o.Return? && !Works(old(server)) ==>
                o.r == -EIO && log == old(log) && SlotTaken(old(pool.avail[..]), pool.avail[..], self)
      ensures readOnly ==> log == old(log) && committed == old(committed)
    {
      id := 0;
      var slot, s;
      o, slot, s := Enter(self);
      if o != Return(0) {
        return o, id;
      }
      var r;
      r, id := MkdirBody(s, bs, readOnly, path);
      o := Finish(slot, s, r >= 0, r, Add(id, ParentOf(committed.dir, path), Basename(path), Directory),
                  old(pool.avail[..]), old(inTx), self);
    }

    method Symlink(self: nat, target: seq<byte>, path: Path) returns (o: Outcome, ghost id: Id)
      requires Valid() && |target| < INT_LIMIT
      modifies `committed, `inTx, `log, `server, pool.avail
      ensures Valid() && o != Crashed
      ensures o == Blocked <==> NoneAlive(old(pool.avail[..]), old(server.alive))
      ensures o == Blocked ==> Exhausted(pool.avail[..])
      ensures Works(old(server)) ==> Settled(old(pool.avail[..]), pool.avail[..]) && inTx == old(inTx)
      ensures o.Return? && o.r >= 0 ==>
                && o.r == 0 && Resolve(old(committed.dir), path) == None
                && Resolve(committed.dir, path) == Some(id) && id in committed.dir
                && committed.dir[id]
                   == Entry(ParentOf(old(committed.dir), path), Basename(path), |target|, Kind.Symlink)
                && log == old(log) + [AddLink(id, ParentOf(old(committed.dir), path), Basename(path), target)]
      ensures !(o.Return? && o.r >= 0) ==> log == old(log)
      ensures o.Return? ==> o.r == -EIO || o.r == SymlinkCode(old(committed.dir), readOnly, path)
      ensures Works(old(server)) && o.Return? && Sound(old(server.plan)) ==>
                o.r == InsertCode(SymlinkCode(old(committed.dir), readOnly, path), old(committed), old(server.skipped),
                                 path)
      ensures o.Return? && !Works(old(server)) ==>
                o.r == -EIO && log == old(log) && SlotTaken(old(pool.avail[..]), pool.avail[..], self)
      ensures readOnly ==> log == old(log) && committed == old(committed)
    {
      id := 0;
      var slot, s;
      o, slot, s := Enter(self);
      if o != Return(0) {
        return o, id;
      }
      var r;
      r, id := SymlinkBody(s, bs, readOnly, target, path);
      o := Finish(slot, s, r >= 0, r, AddLink(id, ParentOf(committed.dir, path), Basename(path), target),
                  old(pool.avail[..]), old(inTx), self);
    }

    method Readlink(self: nat, path: Path, buf: array<byte>, size: nat) returns (o: Outcome, ghost id: Id)
      requires Valid() && size < INT_LIMIT && size <= buf.Length
      modifies `committed, `inTx, `log, `server, pool.avail, buf
      ensures Valid() && committed == old(committed)
      ensures o == Blocked <==> NoneAlive(old(pool.avail[..]), old(server.alive))
      ensures o == Blocked ==> Exhausted(pool.avail[..])
      ensures Works(old(server)) ==> Settled(old(pool.avail[..]), pool.avail[..]) && inTx == old(inTx)
      ensures o != Crashed && (o.Return? ==> o.r <= 0)
      ensures log == if o == Return(0) then old(log) + [Nothing] else old(log)
      ensures o == Return(0) ==>
                && Resolve(committed.dir, path) == Some(id)
                && id in committed.dir && committed.dir[id].kind == Kind.Symlink && committed.dir[id].size < size
                && buf[committed.dir[id].size] == 0
                && buf[..committed.dir[id].size] == ReadBytes(reader, committed.data, bs, id, 0, committed.dir[id].size,
                                                              old(buf[..])[..committed.dir[id].size])
      ensures o.Return? ==> o.r == -EIO || o.r == ReadlinkCode(committed.dir, path, size)
      ensures Works(old(server)) && o.Return? && Sound(old(server.plan)) ==>
                o.r == ReadlinkCode(committed.dir, path, size)
      ensures o.Return? && !Works(old(server)) ==>
                o.r == -EIO && log == old(log) && SlotTaken(old(pool.avail[..]), pool.avail[..], self)
    {
      id := 0;
      var slot, s;
      o, slot, s := Enter(self);
      if o != Return(0) {
        return o, id;
      }
      var r;
      r, id := ReadlinkBody(s, bs, reader, path, buf, size);
      o := Finish(slot, s, r >= 0, r, Nothing, old(pool.avail[..]), old(inTx), self);
    }

    method Unlink(self: nat, path: Path) returns (o: Outcome)
      requires Valid()
      modifies `committed, `inTx, `log, `server, pool.avail
      ensures Valid() && o != Crashed
      ensures o == Blocked <==> NoneAlive(old(pool.avail[..]), old(server.alive))
      ensures o == Blocked ==> Exhausted(pool.avail[..])
      ensures Works(old(server)) ==> Settled(old(pool.avail[..]), pool.avail[..]) && inTx == old(inTx)
      ensures o.Return? && o.r >= 0 ==>
                && o.r == 0 && Resolve(old(committed.dir), path).Some?
                && log == old(log) + [Remove(Resolve(old(committed.dir), path).value)]
                && IsFile(old(committed.dir), Resolve(old(committed.dir), path).value)
      ensures !(o.Return? && o.r >= 0) ==> log == old(log)
      ensures o.Return? ==> o.r == -EIO || o.r == UnlinkCode(old(committed.dir), readOnly, path)
      ensures Works(old(server)) && o.Return? && Sound(old(server.plan)) ==>
                o.r == UnlinkCode(old(committed.dir), readOnly, path)
      ensures o.Return? && !Works(old(server)) ==>
                o.r == -EIO && log == old(log) && SlotTaken(old(pool.avail[..]), pool.avail[..], self)
      ensures readOnly ==> log == old(log) && committed == old(committed)
      ensures Works(old(server)) && Sound(old(server.plan)) && o.Return? ==>
                (o.r == 0 <==> && !readOnly && Resolve(old(committed.dir), path).Some?
                               && IsFile(old(committed.dir), Resolve(old(committed.dir), path).value))
    {
      var slot, s;
      o, slot, s := Enter(self);
      if o != Return(0) {
        return o;
      }
      ghost var id;
      var r;
      r, id := UnlinkBody(s, bs, readOnly, path);
      o := Finish(slot, s, r >= 0, r, Remove(id), old(pool.avail[..]), old(inTx), self);
    }

    /** Never removes a directory with entries, nor the root. */
    method Rmdir(self: nat, path: Path) returns (o: Outcome)
      requires Valid()
      modifies `committed, `inTx, `log, `server, pool.avail
      ensures Valid() && o != Crashed
      ensures o == Blocked <==> NoneAlive(old(pool.avail[..]), old(server.alive))
      ensures o == Blocked ==> Exhausted(pool.avail[..])
      ensures Works(old(server)) ==> Settled(old(pool.avail[..]), pool.avail[..]) && inTx == old(inTx)
      ensures o.Return? && o.r >= 0 ==>
                && o.r == 0 && path != [] && Resolve(old(committed.dir), path).Some?
                && log == old(log) + [Remove(Resolve(old(committed.dir), path).value)]
                && IsDir(old(committed.dir), Resolve(old(committed.dir), path).value)
                && Listing(old(committed.dir), Resolve(old(committed.dir), path).value) == {}
      ensures !(o.Return? && o.r >= 0) ==> log == old(log)
      ensures o.Return? ==> o.r == -EIO || o.r == RmdirCode(old(committed.dir), readOnly, path)
      ensures Works(old(server)) && o.Return? && Sound(old(server.plan)) ==>
                o.r == RmdirCode(old(committed.dir), readOnly, path)
      ensures o.Return? && !Works(old(server)) ==>
                o.r == -EIO && log == old(log) && SlotTaken(old(pool.avail[..]), pool.avail[..], self)
      ensures readOnly ==> log == old(log) && committed == old(committed)
    {
      var slot, s;
      o, slot, s := Enter(self);
      if o != Return(0) {
        return o;
      }
      ghost var id;
      var r;
      r, id := RmdirBody(s, bs, readOnly, path);
      o := Finish(slot, s, r >= 0, r, Remove(id), old(pool.avail[..]), old(inTx), self);
    }

    /**
     No guard of its own against moving the root or moving a directory below itself, so `Valid`
     needs the kernel's check. The look-ups at the top return without rollback and release: on an
     early return, and only then, the acquired slot stays held, whatever the result code.
     */
    method Rename(self: nat, from: Path, to: Path) returns (o: Outcome)
      requires Valid()
      modifies `committed, `inTx, `log, `server, pool.avail
      ensures PoolOk()
      ensures RenameGuard(old(committed.dir), from, to) ==> Valid()
      ensures !(o.Return? && o.r >= 0) ==> Valid() && committed == old(committed) && log == old(log)
      ensures o.Return? && o.r >= 0 ==> o.r == 0
      ensures o == Return(0) && !RenameEarly(old(committed.dir), from, to) ==>
                && RenameReady(old(committed.dir), from, to)
                && committed == old(committed).(dir := Renamed(old(committed.dir), from, to))
                && (RenameGuard(old(committed.dir), from, to) ==>
                      log == old(log) + [RenameChange(old(committed.dir), from, to)])
      ensures o.Return? ==> o.r == -EIO || o.r == RenameCode(old(committed.dir), readOnly, from, to)
      ensures Works(old(server)) && Sound(old(server.plan)) && o.Return? ==>
                if Resolve(old(committed.dir), from) == None || (to != [] && Resolve(old(committed.dir), to).Some?)
                then SlotTaken(old(pool.avail[..]), pool.avail[..], self)
                else Settled(old(pool.avail[..]), pool.avail[..]) && inTx == old(inTx)
      ensures o.Return? && RenameEarly(old(committed.dir), from, to) ==>
                Valid() && committed == old(committed) && log == old(log)
                && SlotTaken(old(pool.avail[..]), pool.avail[..], self)
      ensures Works(old(server)) && o.Return? ==>
                if RenameEarly(old(committed.dir), from, to)
                   || RenameLookupFails(old(committed.dir), old(server.plan), from, to)
                then SlotTaken(old(pool.avail[..]), pool.avail[..], self)
                else Settled(old(pool.avail[..]), pool.avail[..]) && inTx == old(inTx)
      ensures o == Blocked ==> Settled(old(pool.avail[..]), pool.avail[..]) && inTx == old(inTx)
      ensures o == Blocked <==> NoneAlive(old(pool.avail[..]), old(server.alive))
      ensures o == Blocked ==> Exhausted(pool.avail[..])
      ensures Works(old(server)) && o.Return? && Sound(old(server.plan)) ==>
                o.r == MoveCode(old(committed.dir), readOnly, from, to)
      ensures o != Crashed
      ensures readOnly ==> committed == old(committed)
    {
      var slot, s;
      o, slot, s := Enter(self);
      if o != Return(0) {
        return o;
      }
      ghost var mid := pool.avail[..];
      assert SlotTaken(old(pool.avail[..]), mid, self);
      PassThenReleaseSettles(old(pool.avail[..]), mid, slot, self);
      RenameEarlyExactly(committed.dir, from, to);
      FaultyOrSound(s.plan, 0, LookupCost(committed.dir, from) + LookupCost(committed.dir, to));
      FaultyOrSound(s.plan, 0, LookupCost(committed.dir, from));
      var r, exit := RenameBody(s, bs, readOnly, from, to);
      assert pool.avail[..] == mid;
      match exit {
        case ReturnAtOnce =>
          o := Return(r);
        case RollBack =>
          o := Rollback(slot, s, r);
        case CommitAnyway =>
          o := CommitMove(slot, s, r, from, to);
      }
    }

    /** The COMMIT of a rename, whatever became of its UPDATE. */
    method CommitMove(slot: nat, s: Session, r: int, ghost from: Path, ghost to: Path) returns (o: Outcome)
      requires Valid() && slot < |inTx| && pool.avail[slot].Held? && r <= 0
      requires r < 0 ==> s.aborted
      requires r == 0 ==> !s.aborted && RenameReady(committed.dir, from, to)
                          && s.t == committed.(dir := Renamed(committed.dir, from, to))
      modifies `committed, `inTx, `log, pool.avail
      ensures PoolOk() && o == Return(if s.closes then r else -EIO)
      ensures s.closes ==> pool.avail[..] == old(pool.avail[..])[slot := Available] && inTx == old(inTx)[slot := false]
      ensures !s.closes ==> pool.avail[..] == old(pool.avail[..]) && inTx == old(inTx)
      ensures !(s.closes && r == 0) ==> Valid() && committed == old(committed) && log == old(log)
      ensures s.closes && r == 0 ==>
                && committed == old(committed).(dir := Renamed(old(committed.dir), from, to))
                && (RenameGuard(old(committed.dir), from, to) ==>
                      Valid() && log == old(log) + [RenameChange(old(committed.dir), from, to)])
    {
      o := Commit(slot, s, r);
      if s.closes && r == 0 && RenameGuard(old(committed.dir), from, to) {
        RenameIsMove(bs, old(committed), from, to);
        Record(old(committed), RenameChange(old(committed.dir), from, to));
      }
    }
  }

  /** The slots that were available and are now held by `self`. */
  ghost function Taken(before: seq<Slot>, after: seq<Slot>, self: nat): set<int> {
    set i | 0 <= i < |before| && i < |after| && before[i] == Available && after[i] == Held(self)
  }

  /** Every slot is as before, or was available and is now held by `self` or written off. */
  ghost predicate Leaked(before: seq<Slot>, after: seq<Slot>, self: nat) {
    |after| == |before| &&
    forall i | 0 <= i < |before| ::
      after[i] == before[i] || (before[i] == Available && (after[i] == Held(self) || after[i] == Error))
  }

  ghost function FreeSlots(slots: seq<Slot>): set<int> {
    set i | 0 <= i < |slots| && slots[i] == Available
  }

  /** One more call that returned early: one more slot leaked. */
  lemma LeakOneMore(start: seq<Slot>, now: seq<Slot>, next: seq<Slot>, self: nat)
    requires Leaked(start, now, self) && SlotTaken(now, next, self)
    ensures Leaked(start, next, self) && |Taken(start, next, self)| == |Taken(start, now, self)| + 1
    ensures FreeSlots(next) < FreeSlots(now)
  {
    var slot: nat :| PassResult(now, next, slot, self);
    assert Taken(start, next, self) == Taken(start, now, self) + {slot};
    assert slot !in Taken(start, now, self);
    assert slot in FreeSlots(now) && slot !in FreeSlots(next);
  }

  lemma WrittenOff(start: seq<Slot>, now: seq<Slot>, next: seq<Slot>, self: nat)
    requires Leaked(start, now, self) && Settled(now, next)
    ensures Leaked(start, next, self) && Taken(start, next, self) == Taken(start, now, self)
  {
  }

  /**
   A run that exhausts the pool: renaming a file that does not exist leaks one slot per call,
   until a call waits for a connection that nobody will ever give back. At the end every slot that
   was available is held by this thread or written off, and none of the others changed.
   */
  method RenameUntilBlocked(m: Mount, self: nat, from: Path, to: Path) returns (calls: nat)
    requires m.Valid() && Resolve(m.committed.dir, from) == None
    modifies m, m.pool.avail
    ensures calls == |Taken(old(m.pool.avail[..]), m.pool.avail[..], self)|
    ensures Leaked(old(m.pool.avail[..]), m.pool.avail[..], self)
    ensures FreeSlots(m.pool.avail[..]) == {}
    ensures m.committed == old(m.committed) && m.log == old(m.log)
  {
    calls := 0;
    ghost var start := m.pool.avail[..];
    assert Taken(start, start, self) == {};
    var o := Return(0);
    while o != Blocked
      invariant m.Valid() && m.committed == old(m.committed) && m.log == old(m.log) && o != Crashed
      invariant Leaked(start, m.pool.avail[..], self) && calls == |Taken(start, m.pool.avail[..], self)|
      invariant o == Blocked ==> FreeSlots(m.pool.avail[..]) == {}
      decreases o != Blocked, FreeSlots(m.pool.avail[..])
    {
      ghost var now := m.pool.avail[..];
      o := m.Rename(self, from, to);
      if o == Blocked {
        WrittenOff(start, now, m.pool.avail[..], self);
      } else {
        LeakOneMore(start, now, m.pool.avail[..], self);
        calls := calls + 1;
      }
    }
  }

  /** A witness: on fresh tables the create of "/a" returns 0 and creates nothing when its fourth statement fails. */
  method CreateReturnsZeroForNothing(m: Mount, self: nat) returns (o: Outcome, fh: Option<Id>)
    requires m.Valid() && !m.readOnly && m.committed == GENESIS && m.pool.avail.Length > 0
    requires m.pool.avail[0] == Available && m.server == Server([true], true, [false, false, false, true], 0, true)
    modifies m, m.pool.avail
    ensures o == Return(0) && fh == None && m.committed == GENESIS
  {
    GenesisCost(m.bs);
    assert m.pool.avail[..][0] == Available && Alive(m.server.alive, 0);
    o, fh := m.Create(self, ["a"]);
  }

  ghost predicate NoneHeld(slots: seq<Slot>, inTx: seq<bool>) {
    (forall i | 0 <= i < |slots| :: !slots[i].Held?) && (forall i | 0 <= i < |inTx| :: !inTx[i])
  }

  /** Every run of hooks refines flat files, as long as its truncates were harmless. */
  lemma HooksRefineFlatFiles(m: Mount)
    requires m.Valid() && SafeResizes(m.bs, m.log)
    ensures FilesOf(m.bs, m.committed) == FlatRun(m.log) && Clean(m.bs, m.committed)
  {
    RunRefinesFlatFiles(m.bs, m.log);
  }

  /**
   The check `main` makes before it mounts. On tables that runs with block size `bs` left behind
   it accepts exactly `bs`, or anything while no block is stored.
   */
  method AcceptsBlockSize(s: Session, ghost bs: nat, given: nat) returns (accept: bool)
    requires !s.aborted && FullBlocks(s.t.data, bs)
    modifies s`aborted, s`plan
    ensures !s.aborted ==> (accept <==> given == bs || s.t.data == map[])
    ensures s.aborted ==> !accept
  {
    var res := s.GetBlockSize(given);
    accept := res == given;
  }
}
