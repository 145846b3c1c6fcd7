/**
 Whole runs of hooks: a script of requests is served one after the other, and a trace records for
 each request the log before and after it and the reply. `Honoured` ties these to each other, so
 that what is proved of traces says what the users of a mount get to see.
 */
module Serving {
  import opened FlatFile
  import opened Tables
  import opened BlockInfo
  import opened BlockStore
  import opened SparseRead
  import opened Tree
  import opened Changes
  import opened Runs
  import opened ReadBack
  import opened Session
  import opened Hooks
  import opened Pool
  import opened Mount

  datatype Request =
    | DoCreate(path: Path)
    | DoOpen(path: Path, readAccess: bool)
    | DoMkdir(path: Path)
    | DoRmdir(path: Path)
    | DoUnlink(path: Path)
    | DoSymlink(target: seq<byte>, path: Path)
    | DoReadlink(path: Path, size: nat)
    | DoTruncate(path: Path, n: nat)
    | DoFtruncate(fh: Id, n: nat)
    | DoWrite(fh: Id, offset: nat, buf: seq<byte>)
    | DoRead(fh: Id, offset: nat, size: nat)
    | DoRename(from: Path, to: Path)

  /** `Refused`: the kernel does not pass the request on. */
  datatype Reply = Refused | Reply(o: Outcome, fh: Option<Id>, bytes: seq<byte>)

  /** One request with the open handles, what the server had in store, the tables and log it met, reply and new log. */
  datatype Event =
    Event(q: Request, handles: set<Id>, server: Server, t: Tables, before: seq<Change>, reply: Reply, after: seq<Change>)

  // ----- the kernel's part

  method Lookup(d: Dir, path: Path) returns (r: Option<Id>)
    requires TreeOk(d)
    ensures r == Resolve(d, path) && (r.Some? ==> r.value in d)
  {
    var id, rest := ROOT, path;
    while rest != [] && d[id].kind == Directory
      invariant id in d && Walk(d, id, rest) == Resolve(d, path)
      decreases |rest|
    {
      if c :| c in d && d[c].parent == id && d[c].name == rest[0] {
        OnlyChild(d, id, rest[0], c);
        id, rest := c, rest[1..];
      } else {
        return None;
      }
    }
    return Some(id);
  }

  /** Climbs from `id` to the root and looks for `top`. */
  method IsBelow(d: Dir, id: Id, top: Id) returns (below: bool)
    requires TreeOk(d) && id in d
    ensures below <==> Below(d, id, top)
  {
    var x := id;
    while x != top && x != ROOT
      invariant x in d && (Below(d, id, top) <==> Below(d, x, top))
      decreases |PathOf(d, x)|
    {
      BelowParent(d, x, top);
      PathOfStep(d, x);
      x := d[x].parent;
    }
    BelowParent(d, x, x);
    if x != top {
      forall n: nat
        ensures Up(d, ROOT, n) != top
      {
        RootStays(d, n);
      }
    }
    return x == top;
  }

  /** The check that the kernel makes before it calls `rename`. */
  method KernelAllows(d: Dir, from: Path, to: Path) returns (ok: bool)
    requires TreeOk(d)
    ensures ok <==> RenameGuard(d, from, to)
  {
    var id := Lookup(d, from);
    var parent := Lookup(d, Dirname(to));
    if id.None? || parent.None? || d[parent.value].kind != Directory {
      return true;
    }
    if id.value == ROOT {
      return false;
    }
    var below := IsBelow(d, parent.value, id.value);
    return !below;
  }

  ghost predicate Admissible(t: Tables, handles: set<Id>, q: Request) {
    match q
    case DoSymlink(target, _) => |target| < INT_LIMIT
    case DoReadlink(_, size) => size < INT_LIMIT
    case DoFtruncate(fh, _) => fh in handles
    case DoWrite(fh, _, buf) => fh in handles && |buf| < INT_LIMIT
    case DoRead(fh, offset, size) => fh in handles && size < INT_LIMIT && offset < OFF_LIMIT
    case DoRename(from, to) => TreeOk(t.dir) && RenameGuard(t.dir, from, to)
    case _ => true
  }

  // ----- what each request promises

  /** The result of a request when no statement fails; for a read, when it does not reach a file. */
  ghost function HookCode(m: Mount, d: Dir, q: Request): int {
    match q
    case DoCreate(path) => CreateCode(d, m.readOnly, path)
    case DoOpen(path, readAccess) => OpenCode(d, m.readOnly, path, readAccess)
    case DoMkdir(path) => MkdirCode(d, m.readOnly, path)
    case DoRmdir(path) => RmdirCode(d, m.readOnly, path)
    case DoUnlink(path) => UnlinkCode(d, m.readOnly, path)
    case DoSymlink(_, path) => SymlinkCode(d, m.readOnly, path)
    case DoReadlink(path, size) => ReadlinkCode(d, path, size)
    case DoTruncate(path, _) => TruncateCode(d, m.readOnly, path)
    case DoFtruncate(fh, _) => FtruncateCode(d, m.readOnly, fh)
    case DoWrite(fh, _, buf) => WriteCode(d, m.readOnly, fh, |buf|)
    case DoRead(fh, offset, size) => ReadCode(d, fh, offset, size)
    case DoRename(from, to) => RenameCode(d, m.readOnly, from, to)
  }

  /** The same, with the constraints of the schema. */
  ghost function SoundCode(m: Mount, t: Tables, server: Server, q: Request): int {
    match q
    case DoCreate(path) => InsertCode(HookCode(m, t.dir, q), t, server.skipped, path)
    case DoMkdir(path) => InsertCode(HookCode(m, t.dir, q), t, server.skipped, path)
    case DoSymlink(_, path) => InsertCode(HookCode(m, t.dir, q), t, server.skipped, path)
    case DoRename(from, to) => MoveCode(t.dir, m.readOnly, from, to)
    case _ => HookCode(m, t.dir, q)
  }

  /** The request went through; a create must also have returned a handle, a rename must have moved something. */
  ghost predicate Succeeds(d: Dir, q: Request, reply: Reply) {
    && reply.Reply? && reply.o.Return? && reply.o.r >= 0
    && (q.DoCreate? ==> reply.fh.Some?)
    && (q.DoRename? ==> !RenameEarly(d, q.from, q.to))
  }

  /** The change that a successful request leaves in the log. */
  ghost predicate Commits(m: Mount, d: Dir, q: Request, reply: Reply, c: Change)
    requires reply.Reply?
  {
    match q
    case DoCreate(path) =>
      && reply.fh.Some? && c == Add(reply.fh.value, ParentOf(d, path), Basename(path), Regular)
      && Resolve(d, path) == None && HasParentDir(d, path)
    case DoOpen(path, _) =>
      reply.fh.Some? && reply.fh == Resolve(d, path) && IsFile(d, reply.fh.value) && c == Nothing
    case DoMkdir(path) =>
      && c.Add? && c == Add(c.id, ParentOf(d, path), Basename(path), Directory)
      && Resolve(d, path) == None && HasParentDir(d, path)
    case DoRmdir(path) => c.Remove? && Resolve(d, path) == Some(c.id) && IsDir(d, c.id) && Listing(d, c.id) == {}
    case DoUnlink(path) => c.Remove? && Resolve(d, path) == Some(c.id) && IsFile(d, c.id)
    case DoSymlink(target, path) =>
      && c.AddLink? && c == AddLink(c.id, ParentOf(d, path), Basename(path), target)
      && Resolve(d, path) == None && HasParentDir(d, path)
    case DoReadlink(_, _) => c == Nothing
    case DoTruncate(path, n) => c.Resize? && Resolve(d, path) == Some(c.id) && c == Resize(c.id, n, m.cut)
    case DoFtruncate(fh, n) => c == Resize(fh, n, m.cut)
    case DoWrite(fh, offset, buf) => c == WriteAt(fh, offset, buf)
    case DoRead(_, _, _) => c == Nothing
    case DoRename(from, to) => RenameReady(d, from, to) && c == RenameChange(d, from, to)
  }

  /** The bytes that a successful read or readlink of buffers full of zeros hands over. */
  ghost predicate HandsOver(m: Mount, t: Tables, q: Request, bytes: seq<byte>)
    requires Inv(m.bs, t)
  {
    match q
    case DoRead(fh, offset, size) =>
      && IsFile(t.dir, fh) && (t.dir[fh].size > 0 ==> offset <= t.dir[fh].size)
      && (offset < OFF_LIMIT ==> !ReadCrashes(m.reader, m.bs, t.dir[fh].size, offset, size))
      && |bytes| == ReadLength(t.dir[fh].size, offset, size)
      && bytes == ReadBytes(m.reader, t.data, m.bs, fh, offset, |bytes|, Zeros(|bytes|))
    case DoReadlink(path, size) =>
      var id := Resolve(t.dir, path);
      && id.Some? && id.value in t.dir && t.dir[id.value].kind == Symlink && |bytes| == t.dir[id.value].size < size
      && bytes == ReadBytes(m.reader, t.data, m.bs, id.value, 0, |bytes|, Zeros(|bytes|))
    case _ => true
  }

  /**
   The reply and the new log are what the request promises: a request that the kernel passes on is
   answered with EIO or its own code, and with the latter when no statement fails; the log grows by
   exactly its change if it went through and stays otherwise; only an ill-placed read crashes.
   */
  ghost predicate Honoured(m: Mount, e: Event) {
    Inv(m.bs, e.t) &&
    var t := e.t;
    && (e.reply == Refused <==> !Admissible(t, e.handles, e.q))
    && (if Succeeds(t.dir, e.q, e.reply)
        then && |e.after| > 0 && e.after == e.before + [e.after[|e.after| - 1]]
             && Commits(m, t.dir, e.q, e.reply, e.after[|e.after| - 1])
             && HandsOver(m, t, e.q, e.reply.bytes)
        else e.after == e.before)
    && (e.reply.Reply? && e.reply.o.Return? ==>
          || e.reply.o.r == -EIO || e.reply.o.r == HookCode(m, t.dir, e.q)
          || (e.q.DoCreate? && e.reply.o.r == 0 && e.reply.fh == None))
    && (Works(e.server) && Sound(e.server.plan) && e.reply.Reply? && e.reply.o.Return? ==>
          e.reply.o.r == SoundCode(m, t, e.server, e.q))
    && (!Works(e.server) && !e.q.DoRename? && e.reply.Reply? && e.reply.o.Return? ==> e.reply.o.r == -EIO)
    && (Works(e.server) && e.q.DoCreate? && e.reply.o == Return(0) ==>
          (e.reply.fh == None <==> CreateLosesEntry(t, e.server.plan, e.q.path)))
    && (e.reply.Reply? && e.reply.o == Crashed ==>
          e.q.DoRead? && e.q.fh in t.dir && e.q.offset < OFF_LIMIT
          && ReadCrashes(m.reader, m.bs, t.dir[e.q.fh].size, e.q.offset, e.q.size))
  }

  /** Handles are those that `create` and `open` returned. */
  ghost function HandlesAfter(e: Event): set<Id> {
    if (e.q.DoCreate? || e.q.DoOpen?) && e.reply.Reply? && e.reply.o == Return(0) && e.reply.fh.Some?
    then e.handles + {e.reply.fh.value}
    else e.handles
  }

  // ----- serving

  predicate Crash(reply: Reply) {
    reply.Reply? && reply.o == Crashed
  }

  predicate Waits(reply: Reply) {
    reply.Reply? && reply.o == Blocked
  }

  /** A request that is passed on waits exactly when no available connection is alive, and then none is left available. */
  ghost predicate WaitsRightly(reply: Reply, slots: seq<Slot>, alive: seq<bool>, slots': seq<Slot>) {
    && (reply.Reply? ==> (reply.o == Blocked <==> NoneAlive(slots, alive)))
    && (Waits(reply) ==> Exhausted(slots'))
  }

  method ServeCreate(m: Mount, self: nat, q: Request, ghost handles: set<Id>) returns (reply: Reply)
    requires m.Valid() && handles <= m.handles && q.DoCreate?
    modifies m, m.pool.avail
    ensures WaitsRightly(reply, old(m.pool.avail[..]), old(m.server.alive), m.pool.avail[..])
    ensures m.Valid() && reply.Reply? && reply.o != Crashed
    ensures Works(old(m.server)) ==> Settled(old(m.pool.avail[..]), m.pool.avail[..]) && m.inTx == old(m.inTx)
    ensures Honoured(m, Event(q, handles, old(m.server), old(m.committed), old(m.log), reply, m.log))
    ensures m.handles
            == old(m.handles) + HandlesAfter(Event(q, handles, old(m.server), old(m.committed), old(m.log), reply, m.log))
  {
    var o, fh := m.Create(self, q.path);
    return Reply(o, fh, []);
  }

  method ServeOpen(m: Mount, self: nat, q: Request, ghost handles: set<Id>) returns (reply: Reply)
    requires m.Valid() && handles <= m.handles && q.DoOpen?
    modifies m, m.pool.avail
    ensures WaitsRightly(reply, old(m.pool.avail[..]), old(m.server.alive), m.pool.avail[..])
    ensures m.Valid() && reply.Reply? && reply.o != Crashed
    ensures Works(old(m.server)) ==> Settled(old(m.pool.avail[..]), m.pool.avail[..]) && m.inTx == old(m.inTx)
    ensures Honoured(m, Event(q, handles, old(m.server), old(m.committed), old(m.log), reply, m.log))
    ensures m.handles
            == old(m.handles) + HandlesAfter(Event(q, handles, old(m.server), old(m.committed), old(m.log), reply, m.log))
  {
    var o, fh := m.Open(self, q.path, q.readAccess);
    return Reply(o, fh, []);
  }

  method ServeRmdir(m: Mount, self: nat, q: Request, ghost handles: set<Id>) returns (reply: Reply)
    requires m.Valid() && q.DoRmdir?
    modifies m, m.pool.avail
    ensures WaitsRightly(reply, old(m.pool.avail[..]), old(m.server.alive), m.pool.avail[..])
    ensures m.Valid() && m.handles == old(m.handles) && reply.Reply? && reply.o != Crashed
    ensures Works(old(m.server)) ==> Settled(old(m.pool.avail[..]), m.pool.avail[..]) && m.inTx == old(m.inTx)
    ensures Honoured(m, Event(q, handles, old(m.server), old(m.committed), old(m.log), reply, m.log))
  {
    var o := m.Rmdir(self, q.path);
    return Reply(o, None, []);
  }

  method ServeUnlink(m: Mount, self: nat, q: Request, ghost handles: set<Id>) returns (reply: Reply)
    requires m.Valid() && q.DoUnlink?
    modifies m, m.pool.avail
    ensures WaitsRightly(reply, old(m.pool.avail[..]), old(m.server.alive), m.pool.avail[..])
    ensures m.Valid() && m.handles == old(m.handles) && reply.Reply? && reply.o != Crashed
    ensures Works(old(m.server)) ==> Settled(old(m.pool.avail[..]), m.pool.avail[..]) && m.inTx == old(m.inTx)
    ensures Honoured(m, Event(q, handles, old(m.server), old(m.committed), old(m.log), reply, m.log))
  {
    var o := m.Unlink(self, q.path);
    return Reply(o, None, []);
  }

  method ServeMkdir(m: Mount, self: nat, q: Request, ghost handles: set<Id>) returns (reply: Reply)
    requires m.Valid() && q.DoMkdir?
    modifies m, m.pool.avail
    ensures WaitsRightly(reply, old(m.pool.avail[..]), old(m.server.alive), m.pool.avail[..])
    ensures m.Valid() && m.handles == old(m.handles) && reply.Reply? && reply.o != Crashed
    ensures Works(old(m.server)) ==> Settled(old(m.pool.avail[..]), m.pool.avail[..]) && m.inTx == old(m.inTx)
    ensures Honoured(m, Event(q, handles, old(m.server), old(m.committed), old(m.log), reply, m.log))
  {
    ghost var id;
    var o;
    o, id := m.Mkdir(self, q.path);
    return Reply(o, None, []);
  }

  method ServeTruncate(m: Mount, self: nat, q: Request, ghost handles: set<Id>) returns (reply: Reply)
    requires m.Valid() && q.DoTruncate?
    modifies m, m.pool.avail
    ensures WaitsRightly(reply, old(m.pool.avail[..]), old(m.server.alive), m.pool.avail[..])
    ensures m.Valid() && m.handles == old(m.handles) && reply.Reply? && reply.o != Crashed
    ensures Works(old(m.server)) ==> Settled(old(m.pool.avail[..]), m.pool.avail[..]) && m.inTx == old(m.inTx)
    ensures Honoured(m, Event(q, handles, old(m.server), old(m.committed), old(m.log), reply, m.log))
  {
    var o := m.Truncate(self, q.path, q.n);
    return Reply(o, None, []);
  }

  method FetchBytes(m: Mount, self: nat, fh: Id, offset: nat, size: nat) returns (o: Outcome, bytes: seq<byte>)
    requires m.Valid() && fh in m.handles && size < INT_LIMIT && offset < OFF_LIMIT
    modifies m, m.pool.avail
    ensures o == Blocked <==> NoneAlive(old(m.pool.avail[..]), old(m.server.alive))
    ensures o == Blocked ==> Exhausted(m.pool.avail[..])
    ensures m.Valid() && m.handles == old(m.handles) && m.committed == old(m.committed)
    ensures Works(old(m.server)) && o != Crashed ==>
              Settled(old(m.pool.avail[..]), m.pool.avail[..]) && m.inTx == old(m.inTx)
    ensures m.log == if o.Return? && o.r >= 0 then old(m.log) + [Nothing] else old(m.log)
    ensures o.Return? ==> o.r == -EIO || o.r == HookCode(m, m.committed.dir, DoRead(fh, offset, size))
    ensures !Works(old(m.server)) && o.Return? ==> o.r == -EIO
    ensures Works(old(m.server)) && Sound(old(m.server.plan)) && o.Return? ==>
              o.r == HookCode(m, m.committed.dir, DoRead(fh, offset, size))
    ensures o.Return? && o.r >= 0 ==> HandsOver(m, m.committed, DoRead(fh, offset, size), bytes)
    ensures o == Crashed ==>
              fh in m.committed.dir && ReadCrashes(m.reader, m.bs, m.committed.dir[fh].size, offset, size)
  {
    var buf := new byte[size](_ => 0);
    bytes := [];
    label Fresh:
    o := m.Read(self, fh, buf, size, offset);
    if o.Return? && o.r >= 0 {
      bytes := buf[..o.r];
      assert old@Fresh(buf[..o.r]) == Zeros(o.r);
    }
  }

  /** What the two reading hooks promise is what `Honoured` asks of them. */
  lemma ReadingHonoured(m: Mount, q: Request, handles: set<Id>, server: Server, t: Tables, before: seq<Change>,
                        o: Outcome, bytes: seq<byte>, after: seq<Change>)
    requires q.DoRead? || q.DoReadlink?
    requires Inv(m.bs, t)
    requires after == if o.Return? && o.r >= 0 then before + [Nothing] else before
    requires Admissible(t, handles, q)
    requires o.Return? ==> o.r == -EIO || o.r == HookCode(m, t.dir, q)
    requires !Works(server) && o.Return? ==> o.r == -EIO
    requires Works(server) && Sound(server.plan) && o.Return? ==> o.r == HookCode(m, t.dir, q)
    requires o.Return? && o.r >= 0 ==> HandsOver(m, t, q, bytes)
    requires o == Crashed ==>
               q.DoRead? && q.fh in t.dir && q.offset < OFF_LIMIT
               && ReadCrashes(m.reader, m.bs, t.dir[q.fh].size, q.offset, q.size)
    ensures Honoured(m, Event(q, handles, server, t, before, Reply(o, None, bytes), after))
  {
  }

  method ServeFtruncate(m: Mount, self: nat, q: Request, handles: set<Id>) returns (reply: Reply)
    requires m.Valid() && handles <= m.handles && q.DoFtruncate?
    modifies m, m.pool.avail
    ensures WaitsRightly(reply, old(m.pool.avail[..]), old(m.server.alive), m.pool.avail[..])
    ensures m.Valid() && m.handles == old(m.handles) && !Crash(reply)
    ensures Works(old(m.server)) ==> Settled(old(m.pool.avail[..]), m.pool.avail[..]) && m.inTx == old(m.inTx)
    ensures Honoured(m, Event(q, handles, old(m.server), old(m.committed), old(m.log), reply, m.log))
  {
    if q.fh !in handles {
      return Refused;
    }
    var o := m.Ftruncate(self, q.fh, q.n);
    return Reply(o, None, []);
  }

  method ServeWrite(m: Mount, self: nat, q: Request, handles: set<Id>) returns (reply: Reply)
    requires m.Valid() && handles <= m.handles && q.DoWrite?
    modifies m, m.pool.avail
    ensures WaitsRightly(reply, old(m.pool.avail[..]), old(m.server.alive), m.pool.avail[..])
    ensures m.Valid() && m.handles == old(m.handles) && !Crash(reply)
    ensures Works(old(m.server)) ==> Settled(old(m.pool.avail[..]), m.pool.avail[..]) && m.inTx == old(m.inTx)
    ensures Honoured(m, Event(q, handles, old(m.server), old(m.committed), old(m.log), reply, m.log))
  {
    if q.fh !in handles || |q.buf| >= INT_LIMIT {
      return Refused;
    }
    var o := m.Write(self, q.fh, q.offset, q.buf);
    return Reply(o, None, []);
  }

  method ServeRead(m: Mount, self: nat, q: Request, handles: set<Id>) returns (reply: Reply)
    requires m.Valid() && handles <= m.handles && q.DoRead?
    modifies m, m.pool.avail
    ensures WaitsRightly(reply, old(m.pool.avail[..]), old(m.server.alive), m.pool.avail[..])
    ensures m.Valid() && m.handles == old(m.handles)
    ensures Works(old(m.server)) && !Crash(reply) ==>
              Settled(old(m.pool.avail[..]), m.pool.avail[..]) && m.inTx == old(m.inTx)
    ensures Honoured(m, Event(q, handles, old(m.server), old(m.committed), old(m.log), reply, m.log))
  {
    if q.fh !in handles || q.size >= INT_LIMIT || q.offset >= OFF_LIMIT {
      return Refused;
    }
    var o, bytes := FetchBytes(m, self, q.fh, q.offset, q.size);
    ReadingHonoured(m, q, handles, old(m.server), old(m.committed), old(m.log), o, bytes, m.log);
    return Reply(o, None, bytes);
  }

  method ServeSymlink(m: Mount, self: nat, target: seq<byte>, path: Path, ghost handles: set<Id>) returns (reply: Reply)
    requires m.Valid()
    modifies m, m.pool.avail
    ensures WaitsRightly(reply, old(m.pool.avail[..]), old(m.server.alive), m.pool.avail[..])
    ensures m.Valid() && m.handles == old(m.handles) && !Crash(reply)
    ensures Works(old(m.server)) ==> Settled(old(m.pool.avail[..]), m.pool.avail[..]) && m.inTx == old(m.inTx)
    ensures var q := DoSymlink(target, path);
            Honoured(m, Event(q, handles, old(m.server), old(m.committed), old(m.log), reply, m.log))
  {
    if |target| >= INT_LIMIT {
      return Refused;
    }
    ghost var id;
    var o;
    o, id := m.Symlink(self, target, path);
    return Reply(o, None, []);
  }

  /** Hands over the bytes before the terminating zero. */
  method FetchLink(m: Mount, self: nat, path: Path, size: nat) returns (o: Outcome, bytes: seq<byte>)
    requires m.Valid() && size < INT_LIMIT
    modifies m, m.pool.avail
    ensures o == Blocked <==> NoneAlive(old(m.pool.avail[..]), old(m.server.alive))
    ensures o == Blocked ==> Exhausted(m.pool.avail[..])
    ensures m.Valid() && m.handles == old(m.handles) && m.committed == old(m.committed) && o != Crashed
    ensures Works(old(m.server)) ==> Settled(old(m.pool.avail[..]), m.pool.avail[..]) && m.inTx == old(m.inTx)
    ensures m.log == if o.Return? && o.r >= 0 then old(m.log) + [Nothing] else old(m.log)
    ensures o.Return? ==> o.r == -EIO || o.r == HookCode(m, m.committed.dir, DoReadlink(path, size))
    ensures !Works(old(m.server)) && o.Return? ==> o.r == -EIO
    ensures Works(old(m.server)) && Sound(old(m.server.plan)) && o.Return? ==>
              o.r == HookCode(m, m.committed.dir, DoReadlink(path, size))
    ensures o.Return? && o.r >= 0 ==> HandsOver(m, m.committed, DoReadlink(path, size), bytes)
  {
    bytes := [];
    var buf := new byte[size](_ => 0);
    ghost var held, id := buf[..], 0;
    o, id := m.Readlink(self, path, buf, size);
    if o == Return(0) {
      var link := Lookup(m.committed.dir, path);
      var n := m.committed.dir[link.value].size;
      assert held[..n] == Zeros(n);
      bytes := buf[..n];
    }
  }

  method ServeReadlink(m: Mount, self: nat, path: Path, size: nat, ghost handles: set<Id>) returns (reply: Reply)
    requires m.Valid()
    modifies m, m.pool.avail
    ensures WaitsRightly(reply, old(m.pool.avail[..]), old(m.server.alive), m.pool.avail[..])
    ensures m.Valid() && m.handles == old(m.handles) && !Crash(reply)
    ensures Works(old(m.server)) ==> Settled(old(m.pool.avail[..]), m.pool.avail[..]) && m.inTx == old(m.inTx)
    ensures Honoured(m, Event(DoReadlink(path, size), handles, old(m.server), old(m.committed), old(m.log), reply, m.log))
  {
    if size >= INT_LIMIT {
      return Refused;
    }
    var o, bytes := FetchLink(m, self, path, size);
    ReadingHonoured(m, DoReadlink(path, size), handles, old(m.server), old(m.committed), old(m.log), o, bytes, m.log);
    return Reply(o, None, bytes);
  }

  /** With the kernel's check a rename keeps the invariant, but not always its connection. */
  method ServeRename(m: Mount, self: nat, from: Path, to: Path, ghost handles: set<Id>) returns (reply: Reply)
    requires m.Valid()
    modifies m, m.pool.avail
    ensures WaitsRightly(reply, old(m.pool.avail[..]), old(m.server.alive), m.pool.avail[..])
    ensures m.Valid() && m.handles == old(m.handles) && !Crash(reply)
    ensures Honoured(m, Event(DoRename(from, to), handles, old(m.server), old(m.committed), old(m.log), reply, m.log))
  {
    var ok := KernelAllows(m.committed.dir, from, to);
    if !ok {
      return Refused;
    }
    var o := m.Rename(self, from, to);
    return Reply(o, None, []);
  }

  /** Requests on paths. */
  method ServePath(m: Mount, self: nat, q: Request, ghost handles: set<Id>) returns (reply: Reply)
    requires m.Valid() && handles <= m.handles && !q.DoFtruncate? && !q.DoWrite? && !q.DoRead?
    modifies m, m.pool.avail
    ensures WaitsRightly(reply, old(m.pool.avail[..]), old(m.server.alive), m.pool.avail[..])
    ensures m.Valid() && !Crash(reply)
    ensures Works(old(m.server)) && !q.DoRename? ==>
              Settled(old(m.pool.avail[..]), m.pool.avail[..]) && m.inTx == old(m.inTx)
    ensures Honoured(m, Event(q, handles, old(m.server), old(m.committed), old(m.log), reply, m.log))
    ensures m.handles
            == old(m.handles) + HandlesAfter(Event(q, handles, old(m.server), old(m.committed), old(m.log), reply, m.log))
  {
    if q.DoRename? {
      reply := ServeRename(m, self, q.from, q.to, handles);
    } else if q.DoSymlink? {
      reply := ServeSymlink(m, self, q.target, q.path, handles);
    } else if q.DoReadlink? {
      reply := ServeReadlink(m, self, q.path, q.size, handles);
    } else if q.DoCreate? {
      reply := ServeCreate(m, self, q, handles);
    } else if q.DoOpen? {
      reply := ServeOpen(m, self, q, handles);
    } else if q.DoRmdir? {
      reply := ServeRmdir(m, self, q, handles);
    } else if q.DoUnlink? {
      reply := ServeUnlink(m, self, q, handles);
    } else if q.DoMkdir? {
      reply := ServeMkdir(m, self, q, handles);
    } else {
      reply := ServeTruncate(m, self, q, handles);
    }
  }

  /** Requests on an open handle. */
  method ServeHandle(m: Mount, self: nat, q: Request, handles: set<Id>) returns (reply: Reply)
    requires m.Valid() && handles <= m.handles && (q.DoFtruncate? || q.DoWrite? || q.DoRead?)
    modifies m, m.pool.avail
    ensures WaitsRightly(reply, old(m.pool.avail[..]), old(m.server.alive), m.pool.avail[..])
    ensures m.Valid() && m.handles == old(m.handles)
    ensures Works(old(m.server)) && !Crash(reply) ==>
              Settled(old(m.pool.avail[..]), m.pool.avail[..]) && m.inTx == old(m.inTx)
    ensures Honoured(m, Event(q, handles, old(m.server), old(m.committed), old(m.log), reply, m.log))
  {
    if q.DoFtruncate? {
      reply := ServeFtruncate(m, self, q, handles);
    } else if q.DoWrite? {
      reply := ServeWrite(m, self, q, handles);
    } else {
      reply := ServeRead(m, self, q, handles);
    }
  }

  method ServeOne(m: Mount, self: nat, q: Request, handles: set<Id>) returns (reply: Reply, handles': set<Id>)
    requires m.Valid() && handles <= m.handles
    modifies m, m.pool.avail
    ensures WaitsRightly(reply, old(m.pool.avail[..]), old(m.server.alive), m.pool.avail[..])
    ensures m.Valid() && handles' <= m.handles
    ensures Works(old(m.server)) && !Crash(reply) && !q.DoRename? ==>
              Settled(old(m.pool.avail[..]), m.pool.avail[..]) && m.inTx == old(m.inTx)
    ensures var e := Event(q, handles, old(m.server), old(m.committed), old(m.log), reply, m.log);
            Honoured(m, e) && handles' == HandlesAfter(e)
  {
    handles' := handles;
    if q.DoFtruncate? || q.DoWrite? || q.DoRead? {
      reply := ServeHandle(m, self, q, handles);
    } else {
      reply := ServePath(m, self, q, handles);
      if (q.DoCreate? || q.DoOpen?) && reply.Reply? && reply.o == Return(0) && reply.fh.Some? {
        handles' := handles + {reply.fh.value};
      }
    }
  }

  // ----- traces

  ghost predicate StopsHere(reply: Reply) {
    reply.Reply? && !reply.o.Return?
  }

  ghost predicate At(trace: seq<Event>, i: int) {
    0 <= i < |trace|
  }

  /** Each event follows the one before, from `start`, and answers the next request of the script. */
  ghost predicate IsTrace(m: Mount, script: seq<Request>, start: seq<Change>, trace: seq<Event>) {
    |trace| <= |script| && forall i {:trigger At(trace, i)} | At(trace, i) :: EventAt(m, script, start, trace, i)
  }

  /** The tables that the request met are those of the log, and its own log is possible. */
  ghost predicate Logged(m: Mount, e: Event) {
    Run(m.bs, e.before) == Some(e.t) && Run(m.bs, e.after).Some?
  }

  ghost predicate EventAt(m: Mount, script: seq<Request>, start: seq<Change>, trace: seq<Event>, i: nat)
    requires i < |trace| <= |script|
  {
    && Honoured(m, trace[i]) && Logged(m, trace[i]) && trace[i].q == script[i]
    && trace[i].before == LogAt(start, trace, i) && trace[i].handles == HandlesAt(trace, i) && GoesOn(trace, i)
  }

  /** The log, the open handles, and whether the requests have all returned, after i events. */
  ghost function LogAt(start: seq<Change>, trace: seq<Event>, i: nat): seq<Change>
    requires i <= |trace|
  {
    if i == 0 then start else trace[i - 1].after
  }

  ghost function HandlesAt(trace: seq<Event>, i: nat): set<Id>
    requires i <= |trace|
  {
    if i == 0 then {} else HandlesAfter(trace[i - 1])
  }

  ghost predicate GoesOn(trace: seq<Event>, i: nat)
    requires i <= |trace|
  {
    i == 0 || !StopsHere(trace[i - 1].reply)
  }

  lemma TraceGrows(m: Mount, script: seq<Request>, start: seq<Change>, trace: seq<Event>, e: Event)
    requires IsTrace(m, script, start, trace) && GoesOn(trace, |trace|) && |trace| < |script| && e.q == script[|trace|]
    requires Honoured(m, e) && Logged(m, e)
    requires e.before == LogAt(start, trace, |trace|) && e.handles == HandlesAt(trace, |trace|)
    ensures IsTrace(m, script, start, trace + [e])
  {
    var all := trace + [e];
    forall i {:trigger At(all, i)} | At(all, i)
      ensures EventAt(m, script, start, all, i)
    {
      assert i > 0 ==> all[i - 1] == trace[i - 1];
      if i < |trace| {
        assert At(trace, i) && all[i] == trace[i];
      }
    }
  }

  /** A hook that gives its connection back: no rename, no crash, and BEGIN, COMMIT and ROLLBACK work. */
  ghost predicate Steady(e: Event) {
    !e.q.DoRename? && !Crash(e.reply) && Works(e.server)
  }

  ghost predicate Quiet(trace: seq<Event>) {
    forall i | 0 <= i < |trace| :: Steady(trace[i])
  }

  ghost predicate RepliesOf(trace: seq<Event>, replies: seq<Reply>) {
    |replies| == |trace| && forall i | 0 <= i < |trace| :: replies[i] == trace[i].reply
  }

  /** Between hooks the connections are back and the transactions closed, unless a hook before did not give them back. */
  ghost predicate Balanced(trace: seq<Event>, slots: seq<Slot>, slots': seq<Slot>, inTx: seq<bool>, inTx': seq<bool>) {
    Quiet(trace) ==> Settled(slots, slots') && inTx' == inTx
  }

  lemma BalanceGrows(trace: seq<Event>, e: Event, slots: seq<Slot>, now: seq<Slot>, next: seq<Slot>,
                     inTx: seq<bool>, inNow: seq<bool>, inNext: seq<bool>)
    requires Balanced(trace, slots, now, inTx, inNow)
    requires Steady(e) ==> Settled(now, next) && inNext == inNow
    ensures Balanced(trace + [e], slots, next, inTx, inNext)
  {
    if Quiet(trace + [e]) {
      assert (trace + [e])[|trace|] == e;
      assert forall i | 0 <= i < |trace| :: trace[i] == (trace + [e])[i];
    }
  }

  /** Everything is given back. */
  lemma SettledHoldsNone(slots: seq<Slot>, slots': seq<Slot>, inTx: seq<bool>)
    requires Settled(slots, slots') && NoneHeld(slots, inTx)
    ensures NoneHeld(slots', inTx)
  {
  }

  /** The state of a mount that has served the requests of the trace. */
  ghost predicate Served(m: Mount, script: seq<Request>, start: seq<Change>, trace: seq<Event>, handles: set<Id>)
    reads m, m.pool.conns, m.pool.avail
  {
    && m.Valid() && handles <= m.handles && handles == HandlesAt(trace, |trace|)
    && IsTrace(m, script, start, trace) && m.log == LogAt(start, trace, |trace|)
  }

  /** One more request of the script. */
  method ServeNext(m: Mount, self: nat, q: Request, handles: set<Id>, ghost script: seq<Request>,
                   ghost start: seq<Change>, ghost trace: seq<Event>)
      returns (reply: Reply, handles': set<Id>, ghost e: Event)
    requires Served(m, script, start, trace, handles) && GoesOn(trace, |trace|)
    requires |trace| < |script| && q == script[|trace|]
    modifies m, m.pool.avail
    ensures WaitsRightly(reply, old(m.pool.avail[..]), old(m.server.alive), m.pool.avail[..])
    ensures Served(m, script, start, trace + [e], handles') && e.reply == reply
    ensures Steady(e) ==>
              Settled(old(m.pool.avail[..]), m.pool.avail[..]) && m.inTx == old(m.inTx)
  {
    reply, handles' := ServeOne(m, self, q, handles);
    e := Event(q, handles, old(m.server), old(m.committed), old(m.log), reply, m.log);
    TraceGrows(m, script, start, trace, e);
  }

  /**
   Every run of hooks, until one blocks or crashes: the invariant holds, the trace honours every
   request, and, as long as BEGIN, COMMIT and ROLLBACK work and there is no rename, no connection is
   held and no transaction is open between hooks.
   */
  method Serve(m: Mount, self: nat, script: seq<Request>) returns (replies: seq<Reply>, ghost trace: seq<Event>)
    requires m.Valid() && NoneHeld(m.pool.avail[..], m.inTx)
    modifies m, m.pool.avail
    ensures Served(m, script, old(m.log), trace, HandlesAt(trace, |trace|))
    ensures RepliesOf(trace, replies) && (|trace| < |script| ==> !GoesOn(trace, |trace|))
    ensures replies != [] && Waits(replies[|replies| - 1]) ==> Exhausted(m.pool.avail[..])
    ensures Quiet(trace) ==>
              NoneHeld(m.pool.avail[..], m.inTx) && Settled(old(m.pool.avail[..]), m.pool.avail[..])
  {
    replies, trace := [], [];
    var handles: set<Id> := {};
    ghost var slots, inTx := m.pool.avail[..], m.inTx;
    var goesOn := true;
    while |replies| < |script| && goesOn
      invariant Served(m, script, old(m.log), trace, handles)
      invariant RepliesOf(trace, replies) && (goesOn <==> GoesOn(trace, |trace|)) && |trace| <= |script|
      invariant replies != [] && Waits(replies[|replies| - 1]) ==> Exhausted(m.pool.avail[..])
      invariant Balanced(trace, slots, m.pool.avail[..], inTx, m.inTx)
      decreases |script| - |replies|
    {
      ghost var e;
      ghost var now, inNow := m.pool.avail[..], m.inTx;
      var reply;
      reply, handles, e := ServeNext(m, self, script[|replies|], handles, script, old(m.log), trace);
      BalanceGrows(trace, e, slots, now, m.pool.avail[..], inTx, inNow, m.inTx);
      replies, trace, goesOn := replies + [reply], trace + [e], reply.Refused? || reply.o.Return?;
    }
    if Quiet(trace) {
      SettledHoldsNone(slots, m.pool.avail[..], inTx);
    }
  }

  /** After serving, the log has only grown, and the tables are the flat files of the log. */
  lemma ServedFlatFiles(m: Mount, script: seq<Request>, start: seq<Change>, trace: seq<Event>, handles: set<Id>)
    requires Served(m, script, start, trace, handles)
    ensures start <= m.log
    ensures SafeResizes(m.bs, m.log) || (m.cut == CutIntended && IntendedCuts(start)) ==>
              FilesOf(m.bs, m.committed) == FlatRun(m.log)
  {
    TraceLog(m, script, start, trace, |trace|);
    if m.cut == CutIntended && IntendedCuts(start) {
      TrustedRunSafe(m.bs, m.log);
    }
    if SafeResizes(m.bs, m.log) {
      HooksRefineFlatFiles(m);
    }
  }

  ghost predicate IntendedCuts(log: seq<Change>) {
    forall i | 0 <= i < |log| :: log[i].Resize? ==> log[i].cut == CutIntended
  }

  /** The log grows, and on a mount with the intended truncate it gets no other. */
  lemma {:induction false} TraceLog(m: Mount, script: seq<Request>, start: seq<Change>, trace: seq<Event>, n: nat)
    requires IsTrace(m, script, start, trace) && n <= |trace|
    ensures start <= LogAt(start, trace, n)
    ensures m.cut == CutIntended && IntendedCuts(start) ==> IntendedCuts(LogAt(start, trace, n))
  {
    if n > 0 {
      TraceLog(m, script, start, trace, n - 1);
      assert At(trace, n - 1);
      EventLog(m, trace[n - 1]);
    }
  }

  lemma EventLog(m: Mount, e: Event)
    requires Honoured(m, e)
    ensures e.before <= e.after
    ensures m.cut == CutIntended && IntendedCuts(e.before) ==> IntendedCuts(e.after)
  {
  }

  // ----- what a trace looks like on flat files

  /** A request as it should act on flat files, given the names `d`. */
  ghost predicate FlatEvent(d: Dir, before: Files, e: Event, after: Files) {
    if !Succeeds(d, e.q, e.reply) then after == before
    else match e.q
      case DoCreate(_) => e.reply.fh.Some? && e.reply.fh.value !in before && after == before[e.reply.fh.value := []]
      case DoUnlink(path) =>
        var id := Resolve(d, path);
        id.Some? && id.value in before && after == before - {id.value}
      case DoSymlink(target, path) => exists id | id in after :: id !in before && after == before[id := target]
      case DoReadlink(path, _) =>
        var id := Resolve(d, path);
        id.Some? && id.value in before && e.reply.bytes == before[id.value] && after == before
      case DoTruncate(path, n) =>
        var id := Resolve(d, path);
        id.Some? && id.value in before && after == before[id.value := ResizeFlat(before[id.value], n)]
      case DoFtruncate(fh, n) => fh in before && after == before[fh := ResizeFlat(before[fh], n)]
      case DoWrite(fh, offset, buf) => fh in before && after == before[fh := WriteFlat(before[fh], offset, buf)]
      case DoRead(fh, offset, size) =>
        fh in before && e.reply.bytes == ReadFlat(before[fh], offset, size) && after == before
      case _ => after == before
  }

  /** The change that a successful request commits does to the flat files what the request should. */
  lemma FlatCommit(m: Mount, t: Tables, e: Event, c: Change)
    requires Allowed(m.bs, t, c) && e.reply.Reply? && Commits(m, t.dir, e.q, e.reply, c)
    requires !e.q.DoRead? && !e.q.DoReadlink?
    ensures FlatEvent(t.dir, FilesOf(m.bs, t), e, if Succeeds(t.dir, e.q, e.reply) then FlatApply(FilesOf(m.bs, t), c)
                                                  else FilesOf(m.bs, t))
  {
    if e.q.DoSymlink? {
      assert c.id in FlatApply(FilesOf(m.bs, t), c) && c.id !in t.dir;
    }
  }

  lemma FlatChange(m: Mount, e: Event)
    requires Honoured(m, e) && Logged(m, e) && SafeResizes(m.bs, e.before) && !e.q.DoRead? && !e.q.DoReadlink?
    ensures FlatEvent(e.t.dir, FlatRun(e.before), e, FlatRun(e.after))
  {
    var t := e.t;
    RunRefinesFlatFiles(m.bs, e.before);
    if Succeeds(t.dir, e.q, e.reply) {
      assert e.after[..|e.after| - 1] == e.before;
      FlatCommit(m, t, e, e.after[|e.after| - 1]);
    }
  }

  /**
   The bytes that are handed over are those of the flat file, for the intended reader; as written, if
   the read starts at a block boundary and every row with a non-zero byte is taken under its own number.
   */
  lemma FlatRead(m: Mount, e: Event)
    requires Honoured(m, e) && Logged(m, e) && m.bs > 0 && SafeResizes(m.bs, e.before) && e.q.DoRead?
    requires m.reader.Intended? || !Succeeds(e.t.dir, e.q, e.reply) ||
             (e.q.offset % m.bs == 0
              && ReadLandsRight(m.reader, e.t.data, m.bs, e.q.fh, e.q.offset, |e.reply.bytes|))
    ensures FlatEvent(e.t.dir, FlatRun(e.before), e, FlatRun(e.after))
  {
    if Succeeds(e.t.dir, e.q, e.reply) {
      assert e.after[..|e.after| - 1] == e.before;
      FlatFileAt(m.bs, e.before, e.q.fh);
      ReadAfterRun(m.reader, m.bs, e.before, e.q.fh, e.q.offset, e.q.size, Zeros(|e.reply.bytes|));
    }
  }

  lemma FlatReadlink(m: Mount, e: Event)
    requires Honoured(m, e) && Logged(m, e) && SafeResizes(m.bs, e.before) && m.reader == Intended && e.q.DoReadlink?
    ensures FlatEvent(e.t.dir, FlatRun(e.before), e, FlatRun(e.after))
  {
    if Succeeds(e.t.dir, e.q, e.reply) {
      var id, n := Resolve(e.t.dir, e.q.path).value, |e.reply.bytes|;
      assert e.after[..|e.after| - 1] == e.before;
      FlatFileAt(m.bs, e.before, id);
      ReadAfterRun(Intended, m.bs, e.before, id, 0, n, Zeros(n));
    }
  }

  lemma FlatFileAt(bs: nat, log: seq<Change>, id: Id)
    requires bs > 0 && Run(bs, log).Some? && SafeResizes(bs, log) && IsFile(Run(bs, log).value.dir, id)
    ensures id in FlatRun(log) && |FlatRun(log)[id]| == Run(bs, log).value.dir[id].size
  {
    RunRefinesFlatFiles(bs, log);
    assert id in FilesOf(bs, Run(bs, log).value);
  }

  /**
   With the intended reader and the intended truncate, every event of every run of hooks acts on flat
   files as the request should: in particular every read returns the slice of the flat file that
   the requests before it, as far as they went through, have produced.
   */
  lemma TraceIsFlat(m: Mount, script: seq<Request>, start: seq<Change>, trace: seq<Event>, i: nat)
    requires IsTrace(m, script, start, trace) && i < |trace|
    requires m.bs > 0 && m.reader == Intended && m.cut == CutIntended && IntendedCuts(start)
    ensures var e := trace[i];
            FlatEvent(e.t.dir, FlatRun(e.before), e, FlatRun(e.after))
  {
    assert At(trace, i);
    TraceLog(m, script, start, trace, i);
    TrustedRunSafe(m.bs, trace[i].before);
    if trace[i].q.DoRead? {
      FlatRead(m, trace[i]);
    } else if trace[i].q.DoReadlink? {
      FlatReadlink(m, trace[i]);
    } else {
      FlatChange(m, trace[i]);
    }
  }

  // ----- symbolic links

  /**
   Whatever happened since a link was made, as long as it was neither written, resized nor removed:
   a successful readlink on a path that leads to it hands over its target, also as written.
   */
  lemma ReadlinkHandsOverTarget(m: Mount, e: Event, log: seq<Change>, link: Change, later: seq<Change>)
    requires Honoured(m, e) && Logged(m, e) && m.bs > 0 && e.q.DoReadlink? && e.before == log + [link] + later
    requires link.AddLink? && |link.target| < INT_LIMIT && forall i | 0 <= i < |later| :: Spares(later[i], link.id)
    requires Resolve(e.t.dir, e.q.path) == Some(link.id)
    ensures Succeeds(e.t.dir, e.q, e.reply) ==> e.reply.bytes == link.target
    ensures e.reply.Reply? && e.reply.o.Return? ==>
              e.reply.o.r == -EIO || e.reply.o.r == if e.q.size <= |link.target| then -ENOMEM else 0
  {
    LinkSurvives(m.reader, m.bs, log, link, later, Zeros(|link.target|));
  }

  /** The two hooks in sequence. */
  method SymlinkThenReadlink(m: Mount, self: nat, target: seq<byte>, path: Path, buf: array<byte>, size: nat)
      returns (made: Outcome, got: Outcome)
    requires m.Valid() && |target| < INT_LIMIT && size < INT_LIMIT && size <= buf.Length
    modifies m, m.pool.avail, buf
    ensures made == Return(0) && got.Return? ==> got.r == -EIO || got.r == if size <= |target| then -ENOMEM else 0
    ensures made == Return(0) && got == Return(0) ==>
              |target| < size && buf[..|target|] == target && buf[|target|] == 0
  {
    ghost var id;
    made, id := m.Symlink(self, target, path);
    if made != Return(0) {
      return made, made;
    }
    ghost var log, link := old(m.log), m.log[|m.log| - 1];
    assert m.log == log + [link] + [];
    LinkSurvives(m.reader, m.bs, log, link, [], Zeros(|target|));
    ghost var held := buf[..];
    if |target| <= |held| {
      LinkSurvives(m.reader, m.bs, log, link, [], held[..|target|]);
    }
    got, id := m.Readlink(self, path, buf, size);
  }
}
