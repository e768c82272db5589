/**
 * The file hierarchy of POSIX (IEEE Std 1003.1-2017, System Interfaces: link(), rename(), rmdir(), unlink()):
 * the specification of a wrapped path filesystem, and of what the in-memory filesystem implements.
 *
 * An object keeps its identity while it is moved, and stays in the map when its last name goes (it may be open).
 */
module PosixTree {
  import opened Base

  const TOP: nat := 1

  datatype Object = Directory(children: map<Name, nat>) | Leaf

  type Tree = map<nat, Object>

  type Path = seq<Name>

  predicate IsDir(t: Tree, o: nat)
  {
    o in t && t[o].Directory?
  }

  function Child(t: Tree, p: nat, n: Name): Option<nat>
  {
    if IsDir(t, p) && n in t[p].children then Some(t[p].children[n]) else None
  }

  /** The object a path leads to from `from`, one component at a time. */
  function Walk(t: Tree, from: nat, path: Path): Option<nat>
  {
    if path == [] then Some(from)
    else match Walk(t, from, path[..|path| - 1])
      case None => None
      case Some(d) => Child(t, d, path[|path| - 1])
  }

  function Resolve(t: Tree, path: Path): Option<nat>
  {
    Walk(t, TOP, path)
  }

  /** The directory entries that name an object. */
  function Namings(t: Tree, o: nat): set<(nat, Name)>
  {
    set p, n | p in t && t[p].Directory? && n in t[p].children && t[p].children[n] == o :: (p, n)
  }

  /** A directory that has lost its last name takes no new entries, by the rule of rmdir(). */
  predicate Linked(t: Tree, o: nat)
  {
    o == TOP || Namings(t, o) != {}
  }

  /** `o` is `top` or lies beneath it. */
  ghost predicate Beneath(t: Tree, top: nat, o: nat)
  {
    exists path :: Walk(t, top, path) == Some(o)
  }

  ghost predicate Ranked(t: Tree, rank: map<nat, nat>)
  {
    && t.Keys <= rank.Keys
    && forall p, n | Child(t, p, n).Some? && IsDir(t, Child(t, p, n).value) :: rank[p] < rank[Child(t, p, n).value]
  }

  /** No directory lies beneath itself. */
  ghost predicate Acyclic(t: Tree)
  {
    exists rank :: Ranked(t, rank)
  }

  ghost predicate Closed(t: Tree)
  {
    IsDir(t, TOP) && forall p, n | Child(t, p, n).Some? :: Child(t, p, n).value in t && Child(t, p, n).value != TOP
  }

  /** A directory has at most one name. */
  ghost predicate DirsNamedOnce(t: Tree)
  {
    forall p, n, q, m | Child(t, p, n).Some? && Child(t, p, n) == Child(t, q, m) && IsDir(t, Child(t, p, n).value) ::
      p == q && n == m
  }

  ghost predicate WellFormed(t: Tree)
  {
    Closed(t) && DirsNamedOnce(t) && Acyclic(t)
  }

  // ---------- edits ----------

  function Bind(t: Tree, p: nat, n: Name, o: nat): Tree
  {
    if IsDir(t, p) then t[p := Directory(t[p].children[n := o])] else t
  }

  function Unbind(t: Tree, p: nat, n: Name): Tree
  {
    if IsDir(t, p) then t[p := Directory(t[p].children - {n})] else t
  }

  function Move(t: Tree, p: nat, n: Name, q: nat, m: Name, o: nat): Tree
  {
    Bind(Unbind(t, p, n), q, m, o)
  }

  function Made(t: Tree, p: nat, n: Name, o: nat, directory: bool): Tree
  {
    Bind(t[o := if directory then Directory(map[]) else Leaf], p, n, o)
  }

  // ---------- operations ----------

  /** open(O_CREAT | O_EXCL), mknod(), mkdir(), symlink(): a new object `o`. */
  function Create(t: Tree, p: nat, n: Name, o: nat, directory: bool): Result<Tree>
  {
    if p !in t then Err(ENOENT)
    else if !IsDir(t, p) then Err(ENOTDIR)
    else if Child(t, p, n).Some? then Err(EEXIST)
    else if !Linked(t, p) then Err(ENOENT)
    else Ok(Made(t, p, n, o, directory))
  }

  function Lookup(t: Tree, p: nat, n: Name): Result<nat>
  {
    if p !in t then Err(ENOENT)
    else if !IsDir(t, p) then Err(ENOTDIR)
    else if Child(t, p, n).None? then Err(ENOENT)
    else Ok(Child(t, p, n).value)
  }

  function Unlink(t: Tree, p: nat, n: Name): Result<Tree>
  {
    var found := Lookup(t, p, n);
    if found.Err? then Err(found.error)
    else if IsDir(t, found.value) then Err(EPERM)
    else Ok(Unbind(t, p, n))
  }

  function Rmdir(t: Tree, p: nat, n: Name): Result<Tree>
  {
    var found := Lookup(t, p, n);
    if found.Err? then Err(found.error)
    else if !IsDir(t, found.value) then Err(ENOTDIR)
    else if t[found.value].children != map[] then Err(ENOTEMPTY)
    else Ok(Unbind(t, p, n))
  }

  function Link(t: Tree, o: nat, p: nat, n: Name): Result<Tree>
  {
    if o !in t then Err(ENOENT)
    else if IsDir(t, o) then Err(EPERM)
    else if p !in t then Err(ENOENT)
    else if !IsDir(t, p) then Err(ENOTDIR)
    else if Child(t, p, n).Some? then Err(EEXIST)
    else if !Linked(t, p) then Err(ENOENT)
    else Ok(Bind(t, p, n, o))
  }

  /** What rename() refuses, apart from missing names. */
  ghost function RenameRefusal(t: Tree, o: nat, q: nat, m: Name): Option<Errno>
  {
    if !IsDir(t, q) then Some(ENOTDIR)
    else if IsDir(t, o) && Beneath(t, o, q) then Some(EINVAL)
    else if !Linked(t, q) then Some(ENOENT)
    else match Child(t, q, m)
      case None => None
      case Some(taken) =>
        if IsDir(t, taken) && !IsDir(t, o) then Some(EISDIR)
        else if IsDir(t, taken) && t[taken].children != map[] then Some(ENOTEMPTY)
        else if !IsDir(t, taken) && IsDir(t, o) then Some(ENOTDIR)
        else None
  }

  /** rename(): nothing at all happens when both names are already links to one object. */
  ghost function Rename(t: Tree, p: nat, n: Name, q: nat, m: Name): Result<Tree>
  {
    var found := Lookup(t, p, n);
    if found.Err? then Err(found.error)
    else if q !in t then Err(ENOENT)
    else if Child(t, q, m) == Some(found.value) then Ok(t)
    else
      var refusal := RenameRefusal(t, found.value, q, m);
      if refusal.Some? then Err(refusal.value)
      else Ok(Move(t, p, n, q, m, found.value))
  }

  // ---------- the hierarchy stays a tree ----------

  lemma BindChild(t: Tree, p: nat, n: Name, o: nat)
    requires IsDir(t, p)
    ensures forall x :: IsDir(Bind(t, p, n, o), x) == IsDir(t, x)
    ensures forall x, y :: Child(Bind(t, p, n, o), x, y) == if x == p && y == n then Some(o) else Child(t, x, y)
  {}

  lemma UnbindChild(t: Tree, p: nat, n: Name)
    requires IsDir(t, p)
    ensures forall x :: IsDir(Unbind(t, p, n), x) == IsDir(t, x)
    ensures forall x, y :: Child(Unbind(t, p, n), x, y) == if x == p && y == n then None else Child(t, x, y)
  {}

  lemma MoveChild(t: Tree, p: nat, n: Name, q: nat, m: Name, o: nat)
    requires IsDir(t, p) && IsDir(t, q)
    ensures Move(t, p, n, q, m, o).Keys == t.Keys
    ensures forall x :: IsDir(Move(t, p, n, q, m, o), x) == IsDir(t, x)
    ensures forall x, y :: Child(Move(t, p, n, q, m, o), x, y) ==
                           if x == q && y == m then Some(o) else if x == p && y == n then None else Child(t, x, y)
  {
    UnbindChild(t, p, n);
    BindChild(Unbind(t, p, n), q, m, o);
  }

  lemma CreateKeepsTree(t: Tree, p: nat, n: Name, o: nat, directory: bool)
    requires WellFormed(t) && o !in t && IsDir(t, p) && Child(t, p, n) == None
    ensures WellFormed(Made(t, p, n, o, directory))
    ensures var t' := Made(t, p, n, o, directory);
            && (forall x :: IsDir(t', x) == if x == o then directory else IsDir(t, x))
            && forall x, y :: Child(t', x, y) == if x == p && y == n then Some(o) else Child(t, x, y)
  {
    var t1: Tree := t[o := if directory then Directory(map[]) else Leaf];
    var t' := Made(t, p, n, o, directory);
    assert forall x, y :: Child(t1, x, y) == Child(t, x, y);
    BindChild(t1, p, n, o);
    var rank :| Ranked(t, rank);
    var rank' := rank[o := rank[p] + 1];
    forall x, y | Child(t', x, y).Some? && IsDir(t', Child(t', x, y).value)
      ensures rank'[x] < rank'[Child(t', x, y).value]
    {
      assert x != o;
    }
    assert Ranked(t', rank');
  }

  lemma UnbindKeepsTree(t: Tree, p: nat, n: Name)
    requires WellFormed(t) && IsDir(t, p)
    ensures WellFormed(Unbind(t, p, n))
  {
    UnbindChild(t, p, n);
    var rank :| Ranked(t, rank);
    assert Ranked(Unbind(t, p, n), rank);
  }

  lemma LinkKeepsTree(t: Tree, o: nat, p: nat, n: Name)
    requires WellFormed(t) && o in t && !IsDir(t, o) && IsDir(t, p) && Child(t, p, n) == None
    ensures WellFormed(Bind(t, p, n, o))
  {
    BindChild(t, p, n, o);
    var rank :| Ranked(t, rank);
    assert Ranked(Bind(t, p, n, o), rank);
  }

  lemma {:induction false} WalkClimbs(t: Tree, rank: map<nat, nat>, from: nat, path: Path)
    requires Ranked(t, rank) && Closed(t) && IsDir(t, from) && Walk(t, from, path).Some?
    ensures Walk(t, from, path).value in t
    ensures path != [] && IsDir(t, Walk(t, from, path).value) ==> rank[from] < rank[Walk(t, from, path).value]
  {
    if path != [] {
      var front := path[..|path| - 1];
      WalkClimbs(t, rank, from, front);
      var d := Walk(t, from, front).value;
      assert Child(t, d, path[|path| - 1]).Some?;
    }
  }

  /**
   * Beneath is inherited from a directory to its children and, but for `top` itself, from a directory to its parent.
   */
  lemma BeneathChild(t: Tree, top: nat, p: nat, n: Name)
    requires Child(t, p, n).Some?
    ensures Beneath(t, top, p) ==> Beneath(t, top, Child(t, p, n).value)
    ensures (WellFormed(t) && IsDir(t, Child(t, p, n).value) && Child(t, p, n).value != top
             && Beneath(t, top, Child(t, p, n).value)) ==> Beneath(t, top, p)
  {
    var c := Child(t, p, n).value;
    if Beneath(t, top, p) {
      var path :| Walk(t, top, path) == Some(p);
      assert (path + [n])[..|path|] == path;
      assert Walk(t, top, path + [n]) == Some(c);
    }
    if WellFormed(t) && IsDir(t, c) && c != top && Beneath(t, top, c) {
      var path :| Walk(t, top, path) == Some(c);
      var d := Walk(t, top, path[..|path| - 1]).value;
      assert Child(t, d, path[|path| - 1]) == Some(c);
    }
  }

  lemma BeneathSelf(t: Tree, o: nat)
    ensures Beneath(t, o, o)
  {
    assert Walk(t, o, []) == Some(o);
  }

  /** A name may be given to a moved object when it is free, or held by a non-directory or an empty directory. */
  ghost predicate Replaceable(t: Tree, q: nat, m: Name)
  {
    Child(t, q, m).Some? && IsDir(t, Child(t, q, m).value) ==> t[Child(t, q, m).value].children == map[]
  }

  lemma MoveOutwardsIsRanked(t: Tree, rank: map<nat, nat>, p: nat, n: Name, q: nat, m: Name, o: nat)
    requires WellFormed(t) && Ranked(t, rank) && Child(t, p, n) == Some(o) && IsDir(t, q)
    requires !(IsDir(t, o) && Beneath(t, o, q))
    ensures Acyclic(Move(t, p, n, q, m, o))
  {
    MoveChild(t, p, n, q, m, o);
    var t' := Move(t, p, n, q, m, o);
    var shift := rank[q] + 1;
    ghost var rank' := map x | x in t.Keys :: if Beneath(t, o, x) then rank[x] + shift else rank[x];
    forall x: nat, y | Child(t', x, y).Some? && IsDir(t', Child(t', x, y).value)
      ensures rank'[x] < rank'[Child(t', x, y).value]
    {
      if x == q && y == m {
        BeneathSelf(t, o);
      } else {
        assert Child(t, x, y) == Child(t', x, y);
        BeneathChild(t, o, x, y);
        assert Child(t, x, y) == Child(t, p, n) ==> x == p && y == n;
      }
    }
    assert Ranked(t', rank');
  }

  lemma {:induction false} WalkSurvivesMove(
    t: Tree, rank: map<nat, nat>, p: nat, n: Name, q: nat, m: Name, o: nat, rank': map<nat, nat>,
    path: Path, rest: Path)
    requires WellFormed(t) && Ranked(t, rank) && Child(t, p, n) == Some(o) && IsDir(t, q) && IsDir(t, o)
    requires Ranked(Move(t, p, n, q, m, o), rank')
    requires Walk(t, o, path + rest) == Some(q) && Walk(t, o, path).Some? && IsDir(t, Walk(t, o, path).value)
    requires Walk(t, Walk(t, o, path).value, rest) == Some(q)
    ensures Walk(t, o, path).value in t && rank'[o] <= rank'[Walk(t, o, path).value]
    decreases |path|
  {
    MoveChild(t, p, n, q, m, o);
    WalkClimbs(t, rank, o, path);
    if path != [] {
      var front, last := path[..|path| - 1], path[|path| - 1];
      var d, x := Walk(t, o, front).value, Walk(t, o, path).value;
      assert Child(t, d, last) == Some(x);
      assert front + ([last] + rest) == path + rest;
      WalkFromFront(t, d, last, rest);
      WalkSurvivesMove(t, rank, p, n, q, m, o, rank', front, [last] + rest);
      WalkClimbs(t, rank, d, [last] + rest);
      assert d != q;
      assert x != o;
      assert Child(Move(t, p, n, q, m, o), d, last) == Some(x);
    }
  }

  lemma {:induction false} WalkFromFront(t: Tree, from: nat, first: Name, rest: Path)
    requires Child(t, from, first).Some?
    ensures Walk(t, from, [first] + rest) == Walk(t, Child(t, from, first).value, rest)
  {
    var path := [first] + rest;
    if rest == [] {
      assert path[..0] == [];
    } else {
      assert path[..|path| - 1] == [first] + rest[..|rest| - 1];
      WalkFromFront(t, from, first, rest[..|rest| - 1]);
    }
  }

  /** Moving a name keeps the hierarchy a tree if and only if no directory is moved beneath itself. */
  lemma MoveKeepsTreeExactly(t: Tree, p: nat, n: Name, q: nat, m: Name, o: nat)
    requires WellFormed(t) && Child(t, p, n) == Some(o) && IsDir(t, q) && Replaceable(t, q, m)
    ensures WellFormed(Move(t, p, n, q, m, o)) <==> !(IsDir(t, o) && Beneath(t, o, q))
  {
    MoveChild(t, p, n, q, m, o);
    var t' := Move(t, p, n, q, m, o);
    var rank :| Ranked(t, rank);
    if IsDir(t, o) && Beneath(t, o, q) {
      var path :| Walk(t, o, path) == Some(q);
      assert path + [] == path;
      assert Child(t', q, m) == Some(o);
      forall rank' ensures !Ranked(t', rank') {
        if Ranked(t', rank') { WalkSurvivesMove(t, rank, p, n, q, m, o, rank', path, []); }
      }
    } else {
      MoveOutwardsIsRanked(t, rank, p, n, q, m, o);
    }
  }

  lemma RenameKeepsTree(t: Tree, p: nat, n: Name, q: nat, m: Name)
    requires WellFormed(t) && Rename(t, p, n, q, m).Ok?
    ensures WellFormed(Rename(t, p, n, q, m).value)
  {
    var o := Child(t, p, n).value;
    if Child(t, q, m) != Some(o) {
      MoveKeepsTreeExactly(t, p, n, q, m, o);
    }
  }
}
