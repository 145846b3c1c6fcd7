/**
 The directory tree inside the `dir` table: parent links with a self-parented root, path
 descent as `psql_path_to_id` does it, and climbing back up.
 */
module Tree {
  import opened Tables

  // ----- shape

  ghost predicate RootRow(d: Dir) {
    ROOT in d && d[ROOT].parent == ROOT && d[ROOT].name == ROOT_NAME && d[ROOT].kind == Directory
  }

  /** Foreign key on parent_id, and parents are directories: non-directories have no children. */
  ghost predicate ParentsAreDirs(d: Dir) {
    forall id {:trigger ParentIsDir(d, id)} | id in d :: ParentIsDir(d, id)
  }

  ghost predicate ParentIsDir(d: Dir, id: Id)
    requires id in d
  {
    d[id].parent in d && d[d[id].parent].kind == Directory
  }

  /** UNIQUE( name, parent_id ). */
  ghost predicate UniqueNames(d: Dir) {
    forall a, b {:trigger SameSlot(d, a, b)} | a in d && b in d && SameSlot(d, a, b) :: a == b
  }

  ghost predicate SameSlot(d: Dir, a: Id, b: Id)
    requires a in d && b in d
  {
    d[a].parent == d[b].parent && d[a].name == d[b].name
  }

  ghost predicate ProperNames(d: Dir) {
    forall id {:trigger ValidName(d[id].name)} | id in d && id != ROOT :: ValidName(d[id].name)
  }

  /** The entry reached by following `parent_id` n times. */
  ghost function Up(d: Dir, id: Id, n: nat): (r: Id)
    requires ParentsAreDirs(d) && id in d
    ensures r in d
    decreases n
  {
    if n == 0 then id else assert ParentIsDir(d, id); Up(d, d[id].parent, n - 1)
  }

  ghost predicate ReachesRoot(d: Dir, id: Id)
    requires ParentsAreDirs(d) && id in d
  {
    exists n: nat :: Up(d, id, n) == ROOT
  }

  /** `id` lies in the subtree of `top`, `top` itself included. */
  ghost predicate Below(d: Dir, id: Id, top: Id)
    requires ParentsAreDirs(d) && id in d
  {
    exists n: nat :: Up(d, id, n) == top
  }

  ghost predicate TreeOk(d: Dir) {
    && RootRow(d)
    && ParentsAreDirs(d)
    && UniqueNames(d)
    && ProperNames(d)
    && forall id {:trigger ReachesRoot(d, id)} | id in d :: ReachesRoot(d, id)
  }

  // ----- descent

  ghost predicate IsChild(d: Dir, parent: Id, name: string, id: Id) {
    id in d && d[id].parent == parent && d[id].name == name
  }

  /** SELECT id FROM dir WHERE name = name AND parent_id = parent. */
  ghost function Child(d: Dir, parent: Id, name: string): (r: Option<Id>)
    ensures r.Some? ==> IsChild(d, parent, name, r.value)
    ensures r.None? ==> forall id :: !IsChild(d, parent, name, id)
  {
    if exists id :: IsChild(d, parent, name, id) then
      var id :| IsChild(d, parent, name, id); Some(id)
    else None
  }

  lemma OnlyChild(d: Dir, parent: Id, name: string, id: Id)
    requires UniqueNames(d) && IsChild(d, parent, name, id)
    ensures Child(d, parent, name) == Some(id)
  {
    assert SameSlot(d, Child(d, parent, name).value, id);
  }

  ghost predicate IsDir(d: Dir, id: Id) {
    id in d && d[id].kind == Directory
  }

  /** The token loop of `psql_path_to_id`: it also ends at the first entry that is no directory. */
  ghost function Walk(d: Dir, id: Id, path: seq<string>): Option<Id>
    decreases |path|
  {
    if path == [] || !IsDir(d, id) then Some(id)
    else match Child(d, id, path[0])
      case None => None
      case Some(c) => Walk(d, c, path[1..])
  }

  ghost function Resolve(d: Dir, path: seq<string>): Option<Id> {
    Walk(d, ROOT, path)
  }

  /** Pathname resolution of POSIX (section 4.13 of the Base Definitions): no component below a file. */
  ghost function Descend(d: Dir, id: Id, path: seq<string>): Option<Id>
    decreases |path|
  {
    if path == [] then Some(id)
    else if !IsDir(d, id) then None
    else match Child(d, id, path[0])
      case None => None
      case Some(c) => Descend(d, c, path[1..])
  }

  lemma {:induction false} DescendAppend(d: Dir, id: Id, p: seq<string>, q: seq<string>)
    ensures Descend(d, id, p + q) == match Descend(d, id, p) case None => None case Some(x) => Descend(d, x, q)
    decreases |p|
  {
    if p == [] {
      assert p + q == q;
    } else {
      assert (p + q)[1..] == p[1..] + q;
      if IsDir(d, id) && Child(d, id, p[0]).Some? {
        DescendAppend(d, Child(d, id, p[0]).value, p[1..], q);
      }
    }
  }

  lemma {:induction false} WalkAppend(d: Dir, id: Id, p: seq<string>, q: seq<string>)
    ensures Descend(d, id, p).Some? ==> Walk(d, id, p + q) == Walk(d, Descend(d, id, p).value, q)
    decreases |p|
  {
    if p == [] {
      assert p + q == q;
    } else {
      assert (p + q)[1..] == p[1..] + q;
      if IsDir(d, id) && Child(d, id, p[0]).Some? {
        WalkAppend(d, Child(d, id, p[0]).value, p[1..], q);
      }
    }
  }

  /** Some proper prefix of the path already names a file or a symbolic link. */
  ghost predicate CrossesFile(d: Dir, id: Id, path: seq<string>)
    decreases |path|
  {
    path != [] &&
    (!IsDir(d, id) || (Child(d, id, path[0]).Some? && CrossesFile(d, Child(d, id, path[0]).value, path[1..])))
  }

  /** `psql_path_to_id` agrees with POSIX exactly on the paths that do not go through a file. */
  lemma {:induction false} WalkIsPosixExactly(d: Dir, id: Id, path: seq<string>)
    ensures Walk(d, id, path) == Descend(d, id, path) <==> !CrossesFile(d, id, path)
    ensures CrossesFile(d, id, path) ==> Walk(d, id, path).Some? && Descend(d, id, path).None?
    decreases |path|
  {
    if path != [] && IsDir(d, id) && Child(d, id, path[0]).Some? {
      WalkIsPosixExactly(d, Child(d, id, path[0]).value, path[1..]);
    }
  }

  /** An id that `Walk` yields as a directory was found without going through a file. */
  lemma {:induction false} WalkToDir(d: Dir, id: Id, path: seq<string>)
    requires Walk(d, id, path).Some? && IsDir(d, Walk(d, id, path).value)
    ensures Descend(d, id, path) == Walk(d, id, path)
    decreases |path|
  {
    if path != [] && IsDir(d, id) {
      WalkToDir(d, Child(d, id, path[0]).value, path[1..]);
    }
  }

  // ----- climbing

  /** The names met on n parent steps, outermost first; the root adds none. */
  ghost function Climb(d: Dir, id: Id, n: nat): seq<string>
    requires ParentsAreDirs(d) && id in d
    decreases n
  {
    if n == 0 || id == ROOT then [] else assert ParentIsDir(d, id); Climb(d, d[id].parent, n - 1) + [d[id].name]
  }

  ghost function Height(d: Dir, id: Id): (n: nat)
    requires ParentsAreDirs(d) && id in d && ReachesRoot(d, id)
    ensures Up(d, id, n) == ROOT
  {
    var n: nat :| Up(d, id, n) == ROOT; n
  }

  ghost function PathOf(d: Dir, id: Id): seq<string>
    requires TreeOk(d) && id in d
  {
    assert ReachesRoot(d, id);
    Climb(d, id, Height(d, id))
  }

  lemma {:induction false} RootStays(d: Dir, n: nat)
    requires RootRow(d) && ParentsAreDirs(d)
    ensures Up(d, ROOT, n) == ROOT
  {
    if n > 0 { RootStays(d, n - 1); }
  }

  lemma {:induction false} UpAdd(d: Dir, id: Id, m: nat, n: nat)
    requires ParentsAreDirs(d) && id in d
    ensures Up(d, id, m + n) == Up(d, Up(d, id, m), n)
    decreases m
  {
    if m > 0 { assert ParentIsDir(d, id); UpAdd(d, d[id].parent, m - 1, n); }
  }

  lemma {:induction false} ClimbStable(d: Dir, id: Id, m: nat, n: nat)
    requires ParentsAreDirs(d) && id in d && Up(d, id, m) == ROOT && Up(d, id, n) == ROOT
    ensures Climb(d, id, m) == Climb(d, id, n)
    decreases n
  {
    if id != ROOT { assert ParentIsDir(d, id); ClimbStable(d, d[id].parent, m - 1, n - 1); }
  }

  lemma PathOfStep(d: Dir, id: Id)
    requires TreeOk(d) && id in d
    ensures id == ROOT ==> PathOf(d, id) == []
    ensures id != ROOT ==> d[id].parent in d && PathOf(d, id) == PathOf(d, d[id].parent) + [d[id].name]
  {
    if id != ROOT {
      assert ParentIsDir(d, id) && ReachesRoot(d, id) && ReachesRoot(d, d[id].parent);
      var n := Height(d, id);
      ClimbStable(d, d[id].parent, n - 1, Height(d, d[id].parent));
    }
  }

  /** No entry but the root is its own ancestor. */
  lemma {:induction false} NoCycle(d: Dir, id: Id, k: nat, n: nat)
    requires RootRow(d) && ParentsAreDirs(d) && id in d && id != ROOT
    requires k > 0 && Up(d, id, n) == ROOT
    ensures Up(d, id, k) != id
    decreases n
  {
    if Up(d, id, k) == id {
      if n < k {
        UpAdd(d, id, n, k - n);
        RootStays(d, k - n);
      } else {
        UpAdd(d, id, k, n - k);
        NoCycle(d, id, k, n - k);
      }
    }
  }

  lemma BelowParent(d: Dir, id: Id, top: Id)
    requires ParentsAreDirs(d) && id in d
    ensures d[id].parent in d
    ensures id != top && Below(d, id, top) ==> Below(d, d[id].parent, top)
    ensures Below(d, d[id].parent, top) ==> Below(d, id, top)
    ensures Below(d, id, id)
  {
    assert ParentIsDir(d, id);
    if id != top && Below(d, id, top) {
      var n: nat :| Up(d, id, n) == top;
      assert Up(d, d[id].parent, n - 1) == top;
    }
    if Below(d, d[id].parent, top) {
      var n: nat :| Up(d, d[id].parent, n) == top;
      assert Up(d, id, n + 1) == top;
    }
    assert Up(d, id, 0) == id;
  }

  /** The parent of an entry never lies below that entry, unless it is the root. */
  lemma ParentNotBelow(d: Dir, id: Id)
    requires TreeOk(d) && id in d && id != ROOT
    ensures d[id].parent in d && !Below(d, d[id].parent, id)
  {
    assert ParentIsDir(d, id) && ReachesRoot(d, id);
    if Below(d, d[id].parent, id) {
      var k: nat :| Up(d, d[id].parent, k) == id;
      assert Up(d, id, k + 1) == id;
      NoCycle(d, id, k + 1, Height(d, id));
      assert false;
    }
  }

  // ----- the two directions undo each other

  lemma {:induction false} ClimbResolves(d: Dir, id: Id, n: nat)
    requires TreeOk(d) && id in d && Up(d, id, n) == ROOT
    ensures Descend(d, ROOT, Climb(d, id, n)) == Some(id)
    decreases n
  {
    if id != ROOT {
      assert ParentIsDir(d, id);
      var p := d[id].parent;
      ClimbResolves(d, p, n - 1);
      DescendAppend(d, ROOT, Climb(d, p, n - 1), [d[id].name]);
      OnlyChild(d, p, d[id].name, id);
    }
  }

  /** The path built by climbing from an entry resolves back to that entry. */
  lemma PathResolves(d: Dir, id: Id)
    requires TreeOk(d) && id in d
    ensures Descend(d, ROOT, PathOf(d, id)) == Some(id) == Resolve(d, PathOf(d, id))
  {
    assert ReachesRoot(d, id);
    ClimbResolves(d, id, Height(d, id));
    WalkAppend(d, ROOT, PathOf(d, id), []);
    assert PathOf(d, id) + [] == PathOf(d, id);
  }

  /** A path that resolves is the path of what it resolves to. */
  lemma {:induction false} ResolvedPath(d: Dir, path: seq<string>, id: Id)
    requires TreeOk(d) && ValidPath(path) && Descend(d, ROOT, path) == Some(id)
    ensures id in d && PathOf(d, id) == path
    decreases |path|
  {
    if path == [] {
      PathOfStep(d, ROOT);
    } else {
      var front, name := path[..|path| - 1], path[|path| - 1];
      assert path == front + [name];
      DescendAppend(d, ROOT, front, [name]);
      var x := Descend(d, ROOT, front).value;
      ResolvedPath(d, front, x);
      assert Child(d, x, name) == Some(id);
      assert id != ROOT;
      PathOfStep(d, id);
    }
  }

  /** Hence two different paths never name the same entry. */
  lemma DistinctPaths(d: Dir, p: seq<string>, q: seq<string>)
    requires TreeOk(d) && ValidPath(p) && ValidPath(q)
    requires Descend(d, ROOT, p).Some? && Descend(d, ROOT, p) == Descend(d, ROOT, q)
    ensures p == q
  {
    ResolvedPath(d, p, Descend(d, ROOT, p).value);
    ResolvedPath(d, q, Descend(d, ROOT, q).value);
  }

  /** What `psql_path_to_id` finds lies on the path: its own path is a prefix of the given one. */
  lemma {:induction false} WalkStops(d: Dir, id: Id, path: seq<string>) returns (k: nat)
    requires Walk(d, id, path).Some?
    ensures k <= |path| && Descend(d, id, path[..k]) == Walk(d, id, path)
    ensures !CrossesFile(d, id, path) ==> k == |path|
    decreases |path|
  {
    if path == [] || !IsDir(d, id) {
      k := 0;
    } else {
      var c := Child(d, id, path[0]).value;
      var j := WalkStops(d, c, path[1..]);
      k := j + 1;
      assert path[..k][0] == path[0] && path[..k][1..] == path[1..][..j];
    }
  }

  lemma FoundPathIsPrefix(d: Dir, path: seq<string>)
    requires TreeOk(d) && ValidPath(path) && Resolve(d, path).Some?
    ensures Resolve(d, path).value in d && PathOf(d, Resolve(d, path).value) <= path
    ensures !CrossesFile(d, ROOT, path) ==> PathOf(d, Resolve(d, path).value) == path
  {
    var k := WalkStops(d, ROOT, path);
    ResolvedPath(d, path[..k], Resolve(d, path).value);
  }
}
