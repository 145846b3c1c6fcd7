/**
 What adding, removing and moving one row of `dir` does to the tree and to every path.
 */
module TreeChanges {
  import opened Tables
  import opened Tree

  // ----- moving an entry (the UPDATE of psql_rename)

  function Moved(d: Dir, id: Id, parent: Id, name: string): Dir
    requires id in d
  {
    d[id := d[id].(parent := parent, name := name)]
  }

  /** The target slot is free, or taken by the moved entry itself. */
  ghost predicate SlotFree(d: Dir, id: Id, parent: Id, name: string) {
    forall c :: IsChild(d, parent, name, c) ==> c == id
  }

  /** What the kernel checks before it asks for a rename: not the root, and not into itself. */
  ghost predicate MayMove(d: Dir, id: Id, parent: Id)
    requires ParentsAreDirs(d) && parent in d
  {
    id != ROOT && !Below(d, parent, id)
  }

  ghost predicate Movable(d: Dir, id: Id, parent: Id, name: string) {
    && TreeOk(d) && id in d && IsDir(d, parent) && ValidName(name)
    && SlotFree(d, id, parent, name)
    && MayMove(d, id, parent)
  }

  lemma MovedParents(d: Dir, id: Id, parent: Id, name: string)
    requires TreeOk(d) && id in d && IsDir(d, parent)
    ensures ParentsAreDirs(Moved(d, id, parent, name))
  {
    var d' := Moved(d, id, parent, name);
    forall x {:trigger ParentIsDir(d', x)} | x in d'
      ensures ParentIsDir(d', x)
    {
      assert ParentIsDir(d, x);
    }
  }

  /** Ancestors of an entry outside the moved subtree stay what they were, and so does its path. */
  lemma {:induction false} AwayFromMove(d: Dir, id: Id, parent: Id, name: string, x: Id, n: nat)
    requires TreeOk(d) && id in d && IsDir(d, parent) && x in d && !Below(d, x, id)
    ensures ParentsAreDirs(Moved(d, id, parent, name))
    ensures Up(Moved(d, id, parent, name), x, n) == Up(d, x, n)
    ensures Climb(Moved(d, id, parent, name), x, n) == Climb(d, x, n)
    decreases n
  {
    MovedParents(d, id, parent, name);
    BelowParent(d, x, id);
    if n > 0 {
      AwayFromMove(d, id, parent, name, d[x].parent, n - 1);
    }
  }

  lemma {:induction false} MovedReachesRoot(d: Dir, id: Id, parent: Id, name: string, x: Id, n: nat)
    requires Movable(d, id, parent, name) && x in d && Up(d, x, n) == id
    ensures ParentsAreDirs(Moved(d, id, parent, name)) && ReachesRoot(Moved(d, id, parent, name), x)
    decreases n
  {
    MovedParents(d, id, parent, name);
    var d' := Moved(d, id, parent, name);
    if x == id {
      assert ReachesRoot(d, parent);
      var h := Height(d, parent);
      AwayFromMove(d, id, parent, name, parent, h);
      assert Up(d', x, h + 1) == ROOT;
    } else {
      assert ParentIsDir(d, x);
      MovedReachesRoot(d, id, parent, name, d[x].parent, n - 1);
      var h := Height(d', d[x].parent);
      assert Up(d', x, h + 1) == ROOT;
    }
  }

  /** A guarded rename keeps the tree. */
  lemma MoveKeepsTree(d: Dir, id: Id, parent: Id, name: string)
    requires Movable(d, id, parent, name)
    ensures TreeOk(Moved(d, id, parent, name))
  {
    MovedParents(d, id, parent, name);
    var d' := Moved(d, id, parent, name);
    forall x {:trigger ReachesRoot(d', x)} | x in d'
      ensures ReachesRoot(d', x)
    {
      assert ReachesRoot(d, x);
      if Below(d, x, id) {
        var n: nat :| Up(d, x, n) == id;
        MovedReachesRoot(d, id, parent, name, x, n);
      } else {
        AwayFromMove(d, id, parent, name, x, Height(d, x));
        assert Up(d', x, Height(d, x)) == ROOT;
      }
    }
    forall a, b {:trigger SameSlot(d', a, b)} | a in d' && b in d' && SameSlot(d', a, b)
      ensures a == b
    {
      if a != id && b != id {
        assert SameSlot(d, a, b);
      } else if a != id {
        assert IsChild(d, parent, name, a);
      } else if b != id {
        assert IsChild(d, parent, name, b);
      }
    }
    forall x {:trigger ValidName(d'[x].name)} | x in d' && x != ROOT
      ensures ValidName(d'[x].name)
    {
      assert ValidName(d[x].name);
    }
  }

  /** Up the moved entry's own chain: inside the moved subtree the links are the old ones. */
  lemma {:induction false} MovedIntoItself(d: Dir, id: Id, parent: Id, name: string, x: Id, k: nat, n: nat)
    requires TreeOk(d) && id in d && IsDir(d, parent) && x in d && id != ROOT
    requires Up(d, x, k) == id
    ensures ParentsAreDirs(Moved(d, id, parent, name))
    ensures Below(d, parent, id) ==> Up(Moved(d, id, parent, name), x, n) != ROOT
    decreases n, k
  {
    MovedParents(d, id, parent, name);
    assert ReachesRoot(d, x);
    RootStays(d, k);
    if Below(d, parent, id) && n > 0 {
      if x == id {
        var j: nat :| Up(d, parent, j) == id;
        MovedIntoItself(d, id, parent, name, parent, j, n - 1);
      } else {
        assert ParentIsDir(d, x);
        MovedIntoItself(d, id, parent, name, d[x].parent, k - 1, n - 1);
      }
    }
  }

  /**
   `pgfuse_rename` itself has no such guard. The tree survives its UPDATE exactly when the
   kernel's check holds, apart from the rename of the root to the root, which changes nothing.
   */
  lemma MoveKeepsTreeExactly(d: Dir, id: Id, parent: Id, name: string)
    requires TreeOk(d) && id in d && IsDir(d, parent) && SlotFree(d, id, parent, name)
    requires id != ROOT ==> ValidName(name)
    ensures TreeOk(Moved(d, id, parent, name))
            <==> MayMove(d, id, parent) || (id == parent == ROOT && name == ROOT_NAME)
  {
    var d' := Moved(d, id, parent, name);
    if id != ROOT {
      if MayMove(d, id, parent) {
        MoveKeepsTree(d, id, parent, name);
      } else if TreeOk(d') {
        assert Up(d, id, 0) == id;
        assert ReachesRoot(d', id);
        MovedIntoItself(d, id, parent, name, id, 0, Height(d', id));
      }
    } else {
      if parent == ROOT && name == ROOT_NAME {
        assert d' == d;
      }
    }
  }

  /** A witness: directory 1 moved below its own child 2 is cut off from the root. */
  lemma MoveIntoItselfWitness()
    ensures var d := map[0 := Entry(0, "/", 0, Directory), 1 := Entry(0, "a", 0, Directory), 2 := Entry(1, "b", 0, Directory)];
            TreeOk(d) && IsDir(d, 2) && SlotFree(d, 1, 2, "c") && !TreeOk(Moved(d, 1, 2, "c"))
  {
    var d := map[0 := Entry(0, "/", 0, Directory), 1 := Entry(0, "a", 0, Directory), 2 := Entry(1, "b", 0, Directory)];
    assert Up(d, 0, 0) == 0 && Up(d, 1, 1) == 0 && Up(d, 2, 2) == 0 by {
      assert Up(d, 0, 0) == 0;
      assert Up(d, 1, 1) == Up(d, 0, 0);
      assert Up(d, 2, 2) == Up(d, 1, 1);
    }
    assert TreeOk(d);
    assert Up(d, 2, 1) == Up(d, 1, 0) == 1;
    assert Below(d, 2, 1);
    MoveKeepsTreeExactly(d, 1, 2, "c");
  }

  // ----- what a rename does to every path

  /** Below the moved entry nothing changes. */
  lemma {:induction false} WalkBelowMove(d: Dir, id: Id, parent: Id, name: string, x: Id, q: seq<string>)
    requires Movable(d, id, parent, name) && x in d && Below(d, x, id)
    ensures Walk(Moved(d, id, parent, name), x, q) == Walk(d, x, q)
    decreases |q|
  {
    var d' := Moved(d, id, parent, name);
    if q != [] && IsDir(d, x) {
      ParentNotBelow(d, id);
      MoveKeepsTree(d, id, parent, name);
      forall c
        ensures IsChild(d', x, q[0], c) <==> IsChild(d, x, q[0], c)
      {
      }
      if Child(d, x, q[0]).Some? {
        var c := Child(d, x, q[0]).value;
        OnlyChild(d', x, q[0], c);
        BelowParent(d, c, id);
        WalkBelowMove(d, id, parent, name, c, q[1..]);
      } else {
        assert Child(d', x, q[0]).None?;
      }
    }
  }

  /** Away from both the old and the new place nothing changes either. */
  lemma {:induction false} WalkAwayFromMove(d: Dir, id: Id, parent: Id, name: string, x: Id,
                                            done: seq<string>, q: seq<string>)
    requires Movable(d, id, parent, name) && x in d && !Below(d, x, id)
    requires ValidPath(done + q) && Descend(d, ROOT, done) == Some(x)
    requires !(PathOf(d, id) <= done + q) && !(PathOf(d, parent) + [name] <= done + q)
    ensures Walk(Moved(d, id, parent, name), x, q) == Walk(d, x, q)
    decreases |q|
  {
    var d' := Moved(d, id, parent, name);
    if q != [] && IsDir(d, x) {
      var n := q[0];
      assert (done + q)[|done|] == n;
      assert done + q == (done + [n]) + q[1..];
      assert done + [n] <= done + q;
      assert ValidPath(done) by { assert forall i | 0 <= i < |done| :: done[i] == (done + q)[i]; }
      ResolvedPath(d, done, x);
      PathOfStep(d, id);
      assert !IsChild(d, x, n, id) && !IsChild(d', x, n, id);
      MoveKeepsTree(d, id, parent, name);
      if Child(d, x, n).Some? {
        var c := Child(d, x, n).value;
        OnlyChild(d', x, n, c);
        BelowParent(d, c, id);
        DescendAppend(d, ROOT, done, [n]);
        WalkAwayFromMove(d, id, parent, name, c, done + [n], q[1..]);
      } else {
        forall c ensures !IsChild(d', x, n, c) { assert !IsChild(d, x, n, c); }
        assert Child(d', x, n).None?;
      }
    }
  }

  /** An entry outside the moved subtree keeps its path, so that path still leads to it. */
  lemma SamePathAfterMove(d: Dir, id: Id, parent: Id, name: string, x: Id)
    requires Movable(d, id, parent, name) && x in d && !Below(d, x, id)
    ensures Descend(Moved(d, id, parent, name), ROOT, PathOf(d, x)) == Some(x)
  {
    MoveKeepsTree(d, id, parent, name);
    assert ReachesRoot(d, x);
    var n := Height(d, x);
    AwayFromMove(d, id, parent, name, x, n);
    ClimbResolves(Moved(d, id, parent, name), x, n);
  }

  /** Where the moved subtree ends up: below the new place every path means what it meant below the old. */
  lemma SubtreeAtNewPlace(d: Dir, id: Id, parent: Id, name: string, q: seq<string>)
    requires Movable(d, id, parent, name)
    ensures Resolve(Moved(d, id, parent, name), PathOf(d, parent) + [name] + q) == Resolve(d, PathOf(d, id) + q)
  {
    var d' := Moved(d, id, parent, name);
    MoveKeepsTree(d, id, parent, name);
    SamePathAfterMove(d, id, parent, name, parent);
    DescendAppend(d', ROOT, PathOf(d, parent), [name]);
    OnlyChild(d', parent, name, id);
    WalkAppend(d', ROOT, PathOf(d, parent) + [name], q);
    PathResolves(d, id);
    WalkAppend(d, ROOT, PathOf(d, id), q);
    BelowParent(d, id, id);
    WalkBelowMove(d, id, parent, name, id, q);
  }

  lemma NothingAtOldPlace(d: Dir, id: Id, parent: Id, name: string, q: seq<string>)
    requires Movable(d, id, parent, name)
    requires PathOf(d, parent) + [name] != PathOf(d, id)
    ensures Resolve(Moved(d, id, parent, name), PathOf(d, id) + q) == None
  {
    var d' := Moved(d, id, parent, name);
    var p := d[id].parent;
    ParentNotBelow(d, id);
    SamePathAfterMove(d, id, parent, name, p);
    PathOfStep(d, id);
    WalkAppend(d', ROOT, PathOf(d, p), [d[id].name] + q);
    assert PathOf(d, id) + q == PathOf(d, p) + ([d[id].name] + q);
    assert ParentIsDir(d, id);
    forall c ensures !IsChild(d', p, d[id].name, c) {
      if c in d && IsChild(d', p, d[id].name, c) && c != id {
        assert SameSlot(d, c, id);
      }
    }
    assert Child(d', p, d[id].name).None?;
  }

  /**
   A successful rename moves a whole subtree and nothing else: every path below the old place
   now resolves, to the same id, below the new place; nothing resolves below the old place; and
   every path that leads through neither place resolves as before.
   */
  lemma RenameMovesSubtree(d: Dir, id: Id, parent: Id, name: string, q: seq<string>)
    requires Movable(d, id, parent, name)
    requires PathOf(d, parent) + [name] != PathOf(d, id) && ValidPath(q)
    ensures var d', from, to := Moved(d, id, parent, name), PathOf(d, id), PathOf(d, parent) + [name];
            && Resolve(d', to + q) == Resolve(d, from + q)
            && Resolve(d', from + q) == None
            && (!(from <= q) && !(to <= q) ==> Resolve(d', q) == Resolve(d, q))
  {
    SubtreeAtNewPlace(d, id, parent, name, q);
    NothingAtOldPlace(d, id, parent, name, q);
    var from, to := PathOf(d, id), PathOf(d, parent) + [name];
    if !(from <= q) && !(to <= q) {
      assert [] + q == q;
      RootNotBelow(d, id);
      WalkAwayFromMove(d, id, parent, name, ROOT, [], q);
    }
  }

  lemma RootNotBelow(d: Dir, id: Id)
    requires TreeOk(d) && id in d && id != ROOT
    ensures !Below(d, ROOT, id)
  {
    forall n: nat ensures Up(d, ROOT, n) != id { RootStays(d, n); }
  }

  // ----- adding an entry (the INSERTs), removing one (the DELETEs)

  ghost predicate Addable(d: Dir, id: Id, e: Entry) {
    && TreeOk(d) && id !in d && IsDir(d, e.parent) && ValidName(e.name)
    && Child(d, e.parent, e.name).None?
  }

  lemma {:induction false} SameUp(d: Dir, d': Dir, x: Id, n: nat)
    requires ParentsAreDirs(d) && ParentsAreDirs(d') && x in d
    requires forall y | y in d :: y in d' && d'[y].parent == d[y].parent && d'[y].name == d[y].name
    ensures x in d' && Up(d', x, n) == Up(d, x, n) && Climb(d', x, n) == Climb(d, x, n)
    decreases n
  {
    if n > 0 {
      assert ParentIsDir(d, x);
      SameUp(d, d', d[x].parent, n - 1);
    }
  }

  lemma AddKeepsTree(d: Dir, id: Id, e: Entry)
    requires Addable(d, id, e)
    ensures TreeOk(d[id := e])
  {
    var d' := d[id := e];
    forall x {:trigger ParentIsDir(d', x)} | x in d'
      ensures ParentIsDir(d', x)
    {
      if x != id { assert ParentIsDir(d, x); }
    }
    forall x {:trigger ReachesRoot(d', x)} | x in d'
      ensures ReachesRoot(d', x)
    {
      var y := if x == id then e.parent else x;
      assert ReachesRoot(d, y);
      var n := Height(d, y);
      SameUp(d, d', y, n);
      assert Up(d', y, n) == ROOT;
      if x == id { assert Up(d', x, n + 1) == ROOT; }
    }
    forall a, b {:trigger SameSlot(d', a, b)} | a in d' && b in d' && SameSlot(d', a, b)
      ensures a == b
    {
      if a != id && b != id {
        assert SameSlot(d, a, b);
      } else if a != id {
        assert IsChild(d, e.parent, e.name, a);
      } else if b != id {
        assert IsChild(d, e.parent, e.name, b);
      }
    }
    forall x {:trigger ValidName(d'[x].name)} | x in d' && x != ROOT
      ensures ValidName(d'[x].name)
    {
      if x != id { assert ValidName(d[x].name); }
    }
  }

  lemma {:induction false} WalkAfterAdd(d: Dir, id: Id, e: Entry, x: Id, done: seq<string>, q: seq<string>)
    requires Addable(d, id, e) && x in d && Descend(d, ROOT, done) == Some(x)
    requires ValidPath(done + q) && !(PathOf(d, e.parent) + [e.name] <= done + q)
    ensures Walk(d[id := e], x, q) == Walk(d, x, q)
    decreases |q|
  {
    var d' := d[id := e];
    if q != [] && IsDir(d, x) {
      var n := q[0];
      assert (done + q)[|done|] == n;
      assert done + q == (done + [n]) + q[1..];
      assert ValidPath(done) by { assert forall i | 0 <= i < |done| :: done[i] == (done + q)[i]; }
      ResolvedPath(d, done, x);
      assert !IsChild(d', x, n, id);
      if Child(d, x, n).Some? {
        var c := Child(d, x, n).value;
        AddKeepsTree(d, id, e);
        OnlyChild(d', x, n, c);
        DescendAppend(d, ROOT, done, [n]);
        WalkAfterAdd(d, id, e, c, done + [n], q[1..]);
      } else {
        forall c ensures !IsChild(d', x, n, c) { assert !IsChild(d, x, n, c); }
        assert Child(d', x, n).None?;
      }
    }
  }

  /**
   A new entry appears at its own path, where and below which nothing was before, and no other
   path resolves differently.
   */
  lemma AddOnlyAddsPath(d: Dir, id: Id, e: Entry, q: seq<string>)
    requires Addable(d, id, e) && ValidPath(q)
    ensures var d', at := d[id := e], PathOf(d, e.parent) + [e.name];
            && Resolve(d', at) == Some(id)
            && Resolve(d, at + q) == None
            && (!(at <= q) ==> Resolve(d', q) == Resolve(d, q))
  {
    var d', up := d[id := e], PathOf(d, e.parent);
    AddKeepsTree(d, id, e);
    assert ReachesRoot(d, e.parent);
    var n := Height(d, e.parent);
    SameUp(d, d', e.parent, n);
    ClimbResolves(d', e.parent, n);
    WalkAppend(d', ROOT, up, [e.name]);
    OnlyChild(d', e.parent, e.name, id);
    assert Walk(d', id, [e.name][1..]) == Some(id);
    PathResolves(d, e.parent);
    assert up + [e.name] + q == up + ([e.name] + q);
    WalkAppend(d, ROOT, up, [e.name] + q);
    if !(up + [e.name] <= q) {
      assert [] + q == q;
      WalkAfterAdd(d, id, e, ROOT, [], q);
    }
  }

  ghost predicate Removable(d: Dir, id: Id) {
    TreeOk(d) && id in d && id != ROOT && forall c | c in d :: d[c].parent != id
  }

  lemma {:induction false} UpAfterRemove(d: Dir, id: Id, x: Id, n: nat)
    requires ParentsAreDirs(d) && id in d && x in d && x != id
    requires forall c | c in d :: d[c].parent != id
    ensures ParentsAreDirs(d - {id}) && Up(d - {id}, x, n) == Up(d, x, n)
    decreases n
  {
    var d' := d - {id};
    forall y {:trigger ParentIsDir(d', y)} | y in d'
      ensures ParentIsDir(d', y)
    {
      assert ParentIsDir(d, y);
    }
    if n > 0 {
      assert ParentIsDir(d, x);
      UpAfterRemove(d, id, d[x].parent, n - 1);
    }
  }

  /** Removing a childless entry leaves a tree to which the entry could be added back. */
  lemma RemoveKeepsTree(d: Dir, id: Id)
    requires Removable(d, id)
    ensures TreeOk(d - {id}) && Addable(d - {id}, id, d[id]) && (d - {id})[id := d[id]] == d
  {
    var d' := d - {id};
    UpAfterRemove(d, id, ROOT, 0);
    forall x {:trigger ReachesRoot(d', x)} | x in d'
      ensures ReachesRoot(d', x)
    {
      assert ReachesRoot(d, x);
      UpAfterRemove(d, id, x, Height(d, x));
      assert Up(d', x, Height(d, x)) == ROOT;
    }
    forall a, b {:trigger SameSlot(d', a, b)} | a in d' && b in d' && SameSlot(d', a, b)
      ensures a == b
    {
      assert SameSlot(d, a, b);
    }
    forall x {:trigger ValidName(d'[x].name)} | x in d' && x != ROOT
      ensures ValidName(d'[x].name)
    {
      assert ValidName(d[x].name);
    }
    assert ParentIsDir(d, id) && ValidName(d[id].name);
    forall c ensures !IsChild(d', d[id].parent, d[id].name, c) {
      if IsChild(d', d[id].parent, d[id].name, c) {
        assert SameSlot(d, c, id);
      }
    }
    assert Child(d', d[id].parent, d[id].name).None?;
  }

  /** A removed entry takes its own path with it and no other. */
  lemma RemoveOnlyRemovesPath(d: Dir, id: Id, q: seq<string>)
    requires Removable(d, id) && ValidPath(q)
    ensures Resolve(d - {id}, PathOf(d, id) + q) == None
    ensures !(PathOf(d, id) <= q) ==> Resolve(d - {id}, q) == Resolve(d, q)
  {
    var d' := d - {id};
    RemoveKeepsTree(d, id);
    AddOnlyAddsPath(d', id, d[id], q);
    var p := d[id].parent;
    PathOfStep(d, id);
    assert ReachesRoot(d', p) && ReachesRoot(d, p);
    SameUp(d', d, p, Height(d', p));
    ClimbStable(d, p, Height(d', p), Height(d, p));
  }

  // ----- changing only sizes

  ghost predicate SameLinks(d: Dir, d': Dir) {
    d'.Keys == d.Keys &&
    forall x | x in d :: d'[x].parent == d[x].parent && d'[x].name == d[x].name && d'[x].kind == d[x].kind
  }

  lemma SameLinksKeepTree(d: Dir, d': Dir)
    requires TreeOk(d) && SameLinks(d, d')
    ensures TreeOk(d')
  {
    forall x {:trigger ParentIsDir(d', x)} | x in d'
      ensures ParentIsDir(d', x)
    {
      assert ParentIsDir(d, x);
    }
    forall x {:trigger ReachesRoot(d', x)} | x in d'
      ensures ReachesRoot(d', x)
    {
      assert ReachesRoot(d, x);
      SameUp(d, d', x, Height(d, x));
      assert Up(d', x, Height(d, x)) == ROOT;
    }
    forall a, b {:trigger SameSlot(d', a, b)} | a in d' && b in d' && SameSlot(d', a, b)
      ensures a == b
    {
      assert SameSlot(d, a, b);
    }
    forall x {:trigger ValidName(d'[x].name)} | x in d' && x != ROOT
      ensures ValidName(d'[x].name)
    {
      assert ValidName(d[x].name);
    }
  }

  /** And then every path resolves as before. */
  lemma {:induction false} SameLinksSameWalk(d: Dir, d': Dir, id: Id, q: seq<string>)
    requires TreeOk(d) && SameLinks(d, d')
    ensures Walk(d', id, q) == Walk(d, id, q)
    decreases |q|
  {
    if q != [] && IsDir(d, id) {
      SameLinksSameChild(d, d', id, q[0]);
      if Child(d, id, q[0]).Some? {
        SameLinksSameWalk(d, d', Child(d, id, q[0]).value, q[1..]);
      }
    }
  }

  lemma SameLinksSameChild(d: Dir, d': Dir, id: Id, name: string)
    requires TreeOk(d) && SameLinks(d, d')
    ensures Child(d', id, name) == Child(d, id, name)
  {
    var c := Child(d, id, name);
    if c.Some? {
      assert IsChild(d', id, name, c.value);
      SameLinksKeepTree(d, d');
      OnlyChild(d', id, name, c.value);
    } else if Child(d', id, name).Some? {
      assert IsChild(d, id, name, Child(d', id, name).value);
    }
  }
}
