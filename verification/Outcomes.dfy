/**
 What the users of a mount can rely on, event by event: when a request goes through, what an error
 code means, what happens to the names, and that a read-only mount stays as it is. Everything is
 said in terms of paths, handles and entries.
 */
module Outcomes {
  import opened Tables
  import opened BlockInfo
  import opened Tree
  import opened TreeChanges
  import opened Changes
  import opened Runs
  import opened Session
  import opened Hooks
  import opened Mount
  import opened Serving

  /** The request got an answer, and neither the connection nor a statement failed. */
  ghost predicate Undisturbed(m: Mount, e: Event) {
    && Honoured(m, e) && e.reply.Reply? && e.reply.o.Return?
    && Works(e.server) && Sound(e.server.plan)
  }

  /** The path leads to a file or a symbolic link, or to a directory. */
  ghost predicate ToFile(d: Dir, path: Path) {
    Resolve(d, path).Some? && IsFile(d, Resolve(d, path).value)
  }

  ghost predicate ToDir(d: Dir, path: Path) {
    Resolve(d, path).Some? && IsDir(d, Resolve(d, path).value)
  }

  ghost predicate IsKind(d: Dir, path: Path, kind: Kind) {
    Resolve(d, path).Some? && Resolve(d, path).value in d && d[Resolve(d, path).value].kind == kind
  }

  lemma ResolvedIsEntry(d: Dir, path: Path)
    requires TreeOk(d)
    ensures Resolve(d, path).Some? ==> Resolve(d, path).value in d && (ToFile(d, path) <==> !ToDir(d, path))
  {
    if Resolve(d, path).Some? {
      FoundPathIsPrefix(d, path);
    }
  }

  // ----- when a request goes through

  /** Writing and truncating through a handle work exactly on a read-write mount, as long as the file exists. */
  lemma HandleGoesThrough(m: Mount, e: Event)
    requires Undisturbed(m, e) && (e.q.DoWrite? || e.q.DoFtruncate?)
    ensures e.reply.o.r >= 0 <==> !m.readOnly && e.q.fh != 0 && e.q.fh in e.t.dir
    ensures e.reply.o.r >= 0 && e.q.DoWrite? ==>
              e.reply.o.r == |e.q.buf| && e.after == e.before + [WriteAt(e.q.fh, e.q.offset, e.q.buf)]
    ensures e.reply.o.r >= 0 && e.q.DoFtruncate? ==>
              e.reply.o.r == 0 && e.after == e.before + [Resize(e.q.fh, e.q.n, m.cut)]
    ensures e.reply.o.r < 0 ==> e.after == e.before
  {
  }

  /** Truncating and unlinking work exactly on a read-write mount, on a path that leads to a file. */
  lemma FilePathGoesThrough(m: Mount, e: Event)
    requires Undisturbed(m, e) && (e.q.DoTruncate? || e.q.DoUnlink?)
    ensures e.reply.o.r >= 0 <==> !m.readOnly && ToFile(e.t.dir, e.q.path)
    ensures e.reply.o.r >= 0 ==>
              var id := Resolve(e.t.dir, e.q.path).value;
              e.reply.o.r == 0 && e.after == e.before + [if e.q.DoUnlink? then Remove(id) else Resize(id, e.q.n, m.cut)]
    ensures e.reply.o.r < 0 ==> e.after == e.before
  {
    ResolvedIsEntry(e.t.dir, e.q.path);
  }

  /** Removing a directory works exactly on a read-write mount, on an empty one other than the root. */
  lemma RmdirGoesThrough(m: Mount, e: Event)
    requires Undisturbed(m, e) && e.q.DoRmdir?
    ensures e.reply.o.r >= 0 <==>
              && !m.readOnly && ToDir(e.t.dir, e.q.path) && e.q.path != []
              && Listing(e.t.dir, Resolve(e.t.dir, e.q.path).value) == {}
    ensures e.reply.o.r >= 0 ==>
              e.reply.o.r == 0 && e.after == e.before + [Remove(Resolve(e.t.dir, e.q.path).value)]
    ensures e.reply.o.r < 0 ==> e.after == e.before
  {
    if ToDir(e.t.dir, e.q.path) {
      if e.q.path != [] {
        NotTheRoot(e.t.dir, e.q.path);
      }
      EmptyExactly(e.t.dir, Resolve(e.t.dir, e.q.path).value);
    }
  }

  lemma EmptyExactly(d: Dir, id: Id)
    requires TreeOk(d) && IsDir(d, id)
    ensures (forall c | c in d :: d[c].parent != id) <==> Listing(d, id) == {} && id != ROOT
  {
    if c :| c in d && d[c].parent == id && c != ROOT {
      assert ValidName(d[c].name);
      assert d[c].name in Listing(d, id);
    }
  }

  /** Making an entry works exactly on a read-write mount, at a free place in a directory, while there are ids. */
  lemma MakingGoesThrough(m: Mount, e: Event)
    requires Undisturbed(m, e) && (e.q.DoCreate? || e.q.DoMkdir? || e.q.DoSymlink?)
    ensures e.reply.o.r >= 0 <==>
              && !m.readOnly && Resolve(e.t.dir, e.q.path) == None && ToDir(e.t.dir, Dirname(e.q.path))
              && e.t.serial + e.server.skipped < INT_LIMIT
    ensures e.reply.o.r >= 0 ==> e.reply.o.r == 0 && |e.after| == |e.before| + 1 && e.before <= e.after
    ensures e.reply.o.r < 0 ==> e.after == e.before
  {
    if e.q.DoCreate? && e.reply.o.r == 0 {
      FaultyOrSound(e.server.plan, 0, CreateCost(e.t.dir, e.q.path));
      FaultyOrSound(Rest(e.server.plan, CreateCost(e.t.dir, e.q.path)), 0, |e.q.path| + 1);
    }
  }

  /** Opening works exactly on a path that leads to a file, and on a read-only mount only for reading. */
  lemma OpenGoesThrough(m: Mount, e: Event)
    requires Undisturbed(m, e) && e.q.DoOpen?
    ensures e.reply.o.r >= 0 <==> ToFile(e.t.dir, e.q.path) && (m.readOnly ==> e.q.readAccess)
    ensures e.reply.o.r >= 0 ==> e.reply.o.r == 0 && e.reply.fh == Resolve(e.t.dir, e.q.path)
  {
    ResolvedIsEntry(e.t.dir, e.q.path);
  }

  /** Reading works exactly on an existing file, up to its end; a read that crashes does not return. */
  lemma ReadGoesThrough(m: Mount, e: Event)
    requires Undisturbed(m, e) && e.q.DoRead?
    ensures e.reply.o.r >= 0 <==>
              && e.q.fh != 0 && e.q.fh in e.t.dir
              && (e.t.dir[e.q.fh].size == 0 || e.q.offset <= e.t.dir[e.q.fh].size)
    ensures e.reply.o.r >= 0 ==> e.reply.o.r == |e.reply.bytes|
  {
  }

  /** Reading a link works exactly on a symbolic link whose target fits the buffer with its terminator. */
  lemma ReadlinkGoesThrough(m: Mount, e: Event)
    requires Undisturbed(m, e) && e.q.DoReadlink?
    ensures e.reply.o.r >= 0 <==>
              && IsKind(e.t.dir, e.q.path, Symlink)
              && e.t.dir[Resolve(e.t.dir, e.q.path).value].size < e.q.size
  {
  }

  /**
   Renaming moves something exactly on a read-write mount, if the source exists, the target does not,
   and the target's parent is a directory. Renaming a regular file to itself also returns 0.
   */
  lemma RenameGoesThrough(m: Mount, e: Event)
    requires Undisturbed(m, e) && e.q.DoRename?
    ensures var d := e.t.dir;
            var moves := && !m.readOnly && Resolve(d, e.q.from).Some? && Resolve(d, e.q.to) == None
                         && ToDir(d, Dirname(e.q.to));
            && (e.reply.o.r >= 0 <==> moves || (e.q.from == e.q.to && IsKind(d, e.q.to, Regular)))
            && (moves ==> e.after == e.before + [Move(Resolve(d, e.q.from).value, Resolve(d, Dirname(e.q.to)).value,
                                                      Basename(e.q.to))])
            && (!moves ==> e.after == e.before)
  {
    var d := e.t.dir;
    ResolvedIsEntry(d, e.q.from);
    ResolvedIsEntry(d, e.q.to);
    if e.q.to != [] {
      NotTheRoot(d, e.q.to);
    } else {
      assert IsChild(d, ROOT, ROOT_NAME, ROOT);
    }
    if HasParentDir(d, e.q.to) {
      FreeSlotAt(d, e.q.to);
    }
  }

  // ----- what an error code means

  /** No such file or directory: the path leads nowhere, or nowhere to put the new entry, or the open file is gone. */
  lemma NoEntryMeans(m: Mount, e: Event)
    requires Undisturbed(m, e) && (e.q.DoMkdir? || e.q.DoCreate? ==> !m.readOnly)
    ensures e.reply.o.r == -ENOENT <==>
              match e.q
              case DoCreate(path) => Resolve(e.t.dir, path) == None && !ToDir(e.t.dir, Dirname(path))
              case DoMkdir(path) => !ToDir(e.t.dir, Dirname(path))
              case DoSymlink(_, path) => !ToDir(e.t.dir, Dirname(path))
              case DoReadlink(path, _) => !IsKind(e.t.dir, path, Symlink)
              case DoFtruncate(fh, _) => fh != 0 && fh !in e.t.dir
              case DoWrite(fh, _, _) => !m.readOnly && fh != 0 && fh !in e.t.dir
              case DoRead(fh, _, _) => fh != 0 && fh !in e.t.dir
              case DoRename(from, to) =>
                Resolve(e.t.dir, from) == None || (Resolve(e.t.dir, to) == None && Resolve(e.t.dir, Dirname(to)) == None)
              case _ => Resolve(e.t.dir, e.q.path) == None
  {
    if e.q.DoRename? {
      ResolvedIsEntry(e.t.dir, e.q.to);
      if e.q.to == [] {
        assert Resolve(e.t.dir, Dirname(e.q.to)).Some?;
      } else {
        NotTheRoot(e.t.dir, e.q.to);
      }
    }
  }

  /** Directory where a file is wanted, file where a directory is wanted, directory with entries. */
  lemma WrongKindMeans(m: Mount, e: Event)
    requires Undisturbed(m, e)
    ensures e.reply.o.r == -EISDIR <==>
              (e.q.DoOpen? || e.q.DoTruncate? || (e.q.DoCreate? && !m.readOnly)) && ToDir(e.t.dir, e.q.path)
    ensures e.reply.o.r == -EPERM <==> e.q.DoUnlink? && ToDir(e.t.dir, e.q.path)
    ensures e.reply.o.r == -ENOTDIR <==> e.q.DoRmdir? && ToFile(e.t.dir, e.q.path)
    ensures e.reply.o.r == -ENOTEMPTY <==>
              && e.q.DoRmdir? && !m.readOnly && ToDir(e.t.dir, e.q.path)
              && (e.q.path == [] || Listing(e.t.dir, Resolve(e.t.dir, e.q.path).value) != {})
  {
    if e.q.DoRmdir? || e.q.DoOpen? || e.q.DoTruncate? || e.q.DoCreate? || e.q.DoUnlink? {
      ResolvedIsEntry(e.t.dir, e.q.path);
    }
    if e.q.DoRmdir? && ToDir(e.t.dir, e.q.path) {
      EmptyExactly(e.t.dir, Resolve(e.t.dir, e.q.path).value);
      if e.q.path != [] {
        NotTheRoot(e.t.dir, e.q.path);
      }
    }
  }

  /** Something is in the way of a create or a rename. */
  lemma InTheWayMeans(m: Mount, e: Event)
    requires Undisturbed(m, e)
    ensures e.reply.o.r == -EEXIST <==>
              || (e.q.DoCreate? && !m.readOnly && ToFile(e.t.dir, e.q.path))
              || (e.q.DoRename? && Resolve(e.t.dir, e.q.from).Some? && e.q.from != e.q.to
                  && IsKind(e.t.dir, e.q.to, Regular))
    ensures e.reply.o.r == -EINVAL <==>
              && e.q.DoRename? && Resolve(e.t.dir, e.q.from).Some? && e.q.to != []
              && (IsKind(e.t.dir, e.q.to, Directory) || IsKind(e.t.dir, e.q.to, Symlink))
  {
    if e.q.DoCreate? {
      ResolvedIsEntry(e.t.dir, e.q.path);
    }
    if e.q.DoRename? {
      ResolvedIsEntry(e.t.dir, e.q.to);
      if e.q.to != [] {
        NotTheRoot(e.t.dir, e.q.to);
      }
    }
  }

  /** Read-only file system: the request would otherwise change something; which tests come first differs by hook. */
  lemma ReadOnlyMeans(m: Mount, e: Event)
    requires Undisturbed(m, e)
    ensures e.reply.o.r == -EROFS <==>
              m.readOnly &&
              match e.q
              case DoCreate(_) => true
              case DoMkdir(_) => true
              case DoSymlink(_, path) => ToDir(e.t.dir, Dirname(path))
              case DoOpen(path, readAccess) => ToFile(e.t.dir, path) && !readAccess
              case DoTruncate(path, _) => ToFile(e.t.dir, path)
              case DoUnlink(path) => ToFile(e.t.dir, path)
              case DoRmdir(path) => ToDir(e.t.dir, path)
              case DoFtruncate(fh, _) => fh != 0 && fh in e.t.dir
              case DoRename(from, to) =>
                Resolve(e.t.dir, from).Some? && (to == [] || Resolve(e.t.dir, to) == None) && ToDir(e.t.dir, Dirname(to))
              case _ => false
  {
    match e.q
    case DoOpen(path, _) => ResolvedIsEntry(e.t.dir, path);
    case DoTruncate(path, _) => ResolvedIsEntry(e.t.dir, path);
    case DoUnlink(path) => ResolvedIsEntry(e.t.dir, path);
    case DoRename(from, to) =>
      ResolvedIsEntry(e.t.dir, to);
      if to != [] {
        NotTheRoot(e.t.dir, to);
      }
    case _ =>
  }

  /** Bad handle, small buffer. */
  lemma RefusalMeans(m: Mount, e: Event)
    requires Undisturbed(m, e)
    ensures e.reply.o.r == -EBADF <==>
              ((e.q.DoRead? || e.q.DoWrite? || e.q.DoFtruncate?) && e.q.fh == 0) || (e.q.DoWrite? && m.readOnly)
    ensures e.reply.o.r == -ENOMEM <==>
              && e.q.DoReadlink? && IsKind(e.t.dir, e.q.path, Symlink)
              && e.t.dir[Resolve(e.t.dir, e.q.path).value].size >= e.q.size
  {
  }

  // ----- a read-only mount

  /** On a read-only mount a request leaves the tables, and so all files and all names, as they were. */
  lemma ReadOnlyKeepsTables(m: Mount, e: Event)
    requires Honoured(m, e) && Logged(m, e) && m.readOnly
    ensures Run(m.bs, e.after) == Run(m.bs, e.before)
  {
    if Succeeds(e.t.dir, e.q, e.reply) {
      var c := e.after[|e.after| - 1];
      assert e.after[..|e.after| - 1] == e.before;
      assert c == Nothing;
    }
  }

  /** Whatever is asked of it, for as long as it is mounted. */
  lemma {:induction false} ReadOnlyMountStays(m: Mount, script: seq<Request>, start: seq<Change>, trace: seq<Event>,
                                              n: nat)
    requires IsTrace(m, script, start, trace) && n <= |trace| && m.readOnly
    ensures Run(m.bs, LogAt(start, trace, n)) == Run(m.bs, start)
  {
    if n > 0 {
      ReadOnlyMountStays(m, script, start, trace, n - 1);
      assert At(trace, n - 1);
      ReadOnlyKeepsTables(m, trace[n - 1]);
    }
  }

  // ----- names

  /** The change that a request logged, and the tables that it left. */
  lemma ChangeMade(m: Mount, e: Event) returns (c: Change)
    requires Honoured(m, e) && Logged(m, e)
    ensures Succeeds(e.t.dir, e.q, e.reply) ==>
              && e.reply.Reply? && Commits(m, e.t.dir, e.q, e.reply, c)
              && Allowed(m.bs, e.t, c) && Run(m.bs, e.after) == Some(Apply(m.bs, e.t, c))
    ensures !Succeeds(e.t.dir, e.q, e.reply) ==> Run(m.bs, e.after) == Some(e.t)
  {
    c := Nothing;
    if Succeeds(e.t.dir, e.q, e.reply) {
      c := e.after[|e.after| - 1];
      assert e.after[..|e.after| - 1] == e.before;
    }
  }

  /** Reading, writing, truncating and opening, and whatever fails, leave all names as they were. */
  lemma NamesKept(m: Mount, e: Event, q: Path)
    requires Honoured(m, e) && Logged(m, e)
    requires !Succeeds(e.t.dir, e.q, e.reply) || e.q.DoOpen? || e.q.DoRead? || e.q.DoReadlink? || e.q.DoWrite?
             || e.q.DoTruncate? || e.q.DoFtruncate?
    ensures Resolve(Run(m.bs, e.after).value.dir, q) == Resolve(e.t.dir, q)
  {
    var c := ChangeMade(m, e);
    if Succeeds(e.t.dir, e.q, e.reply) {
      SameLinksSameWalk(e.t.dir, Apply(m.bs, e.t, c).dir, ROOT, q);
    }
  }

  /**
   A create, mkdir or symlink that goes through makes its path lead to a new entry of the right kind and
   size, where and below which nothing was, and changes no other path.
   */
  lemma NamesAdded(m: Mount, e: Event, q: Path)
    requires Honoured(m, e) && Logged(m, e) && Succeeds(e.t.dir, e.q, e.reply)
    requires e.q.DoCreate? || e.q.DoMkdir? || e.q.DoSymlink?
    ensures var d, d', path := e.t.dir, Run(m.bs, e.after).value.dir, e.q.path;
            && Resolve(d', path).Some? && Resolve(d', path).value !in d && Resolve(d', path).value in d'
            && IsKind(d', path, if e.q.DoMkdir? then Directory else if e.q.DoSymlink? then Symlink else Regular)
            && d'[Resolve(d', path).value].size == (if e.q.DoSymlink? then |e.q.target| else 0)
            && Resolve(d, path + q) == None
            && (!(path <= q) ==> Resolve(d', q) == Resolve(d, q))
  {
    var c := ChangeMade(m, e);
    var d, path := e.t.dir, e.q.path;
    var d' := Apply(m.bs, e.t, c).dir;
    ParentPath(d, path);
    AddOnlyAddsPath(d, c.id, d'[c.id], q);
    assert d' == d[c.id := d'[c.id]];
  }

  /** What `create` made is a regular file: it is no link to read, and no other file can be renamed onto it. */
  lemma CreatedIsRegular(m: Mount, e: Event, from: Path, size: nat)
    requires Honoured(m, e) && Logged(m, e) && Succeeds(e.t.dir, e.q, e.reply) && e.q.DoCreate?
    ensures var d' := Run(m.bs, e.after).value.dir;
            && ReadlinkCode(d', e.q.path, size) == -ENOENT
            && (Resolve(d', from).Some? && from != e.q.path ==> RenameCode(d', m.readOnly, from, e.q.path) == -EEXIST)
  {
    NamesAdded(m, e, []);
    var c := ChangeMade(m, e);
    ApplyKeepsTree(m.bs, e.t, c);
    NotTheRoot(Run(m.bs, e.after).value.dir, e.q.path);
  }

  /** An unlink or rmdir that goes through takes the path of what it found with it, and no other. */
  lemma NamesRemoved(m: Mount, e: Event, q: Path)
    requires Honoured(m, e) && Logged(m, e) && Succeeds(e.t.dir, e.q, e.reply) && (e.q.DoUnlink? || e.q.DoRmdir?)
    ensures var d, d' := e.t.dir, Run(m.bs, e.after).value.dir;
            && Resolve(d, e.q.path).Some? && Resolve(d, e.q.path).value in d && Resolve(d, e.q.path).value !in d'
            && var gone := PathOf(d, Resolve(d, e.q.path).value);
               && gone <= e.q.path && (!CrossesFile(d, ROOT, e.q.path) ==> gone == e.q.path)
               && Resolve(d', gone + q) == None
               && (!(gone <= q) ==> Resolve(d', q) == Resolve(d, q))
  {
    var c := ChangeMade(m, e);
    FoundPathIsPrefix(e.t.dir, e.q.path);
    RemoveOnlyRemovesPath(e.t.dir, c.id, q);
  }

  /** A rename that goes through moves everything at and below its source to its target, and nothing else. */
  lemma NamesMoved(m: Mount, e: Event, q: Path)
    requires Honoured(m, e) && Logged(m, e) && Succeeds(e.t.dir, e.q, e.reply) && e.q.DoRename?
    requires !CrossesFile(e.t.dir, ROOT, e.q.from)
    ensures var d, d' := e.t.dir, Run(m.bs, e.after).value.dir;
            && Resolve(d', e.q.to + q) == Resolve(d, e.q.from + q)
            && Resolve(d', e.q.from + q) == None
            && (!(e.q.from <= q) && !(e.q.to <= q) ==> Resolve(d', q) == Resolve(d, q))
  {
    var c := ChangeMade(m, e);
    RenameIsMove(m.bs, e.t, e.q.from, e.q.to);
    RenameHookMovesPaths(e.t.dir, e.q.from, e.q.to, q);
  }
}
