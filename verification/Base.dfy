/** Vocabulary shared by the models: errors, results, file names and their order. */
module Base {

  datatype Option<+T> = None | Some(value: T)

  /** The errno values the modelled code can return. */
  datatype Errno =
    | ENOENT | EBADF | EEXIST | ENOTDIR | EISDIR | EINVAL | ENOTEMPTY | EPERM
    | EOVERFLOW | EOPNOTSUPP | EIO | EACCES

  datatype Result<+T> = Ok(value: T) | Err(error: Errno)

  type Byte = b: int | 0 <= b < 256

  /** A file name: the bytes of an `OsStr`. */
  type Name = seq<Byte>

  const DOT: Name := [46]
  const DOTDOT: Name := [46, 46]

  /** `a <= b` in the bytewise lexicographic order of `OsString`. */
  predicate NameLeq(a: Name, b: Name)
  {
    a == [] || (b != [] && (a[0] < b[0] || (a[0] == b[0] && NameLeq(a[1..], b[1..]))))
  }

  /** The names agree up to `k`, where the first ends or has the smaller byte. */
  ghost predicate DifferAt(a: Name, b: Name, k: nat)
  {
    k <= |a| && k <= |b| && a[..k] == b[..k] && (k == |a| || (k < |b| && a[k] < b[k]))
  }

  /** A name precedes another exactly if it is the beginning of it, or has the smaller byte where they first differ. */
  lemma {:induction false} NameLeqIsLexicographic(a: Name, b: Name)
    ensures NameLeq(a, b) <==> exists k: nat :: DifferAt(a, b, k)
  {
    assert forall k: nat | 0 < k <= |a| && k <= |b| :: a[..k][0] == a[0] && b[..k][0] == b[0];
    if a == [] || b == [] || a[0] < b[0] {
      assert a[..0] == b[..0];
      assert NameLeq(a, b) ==> DifferAt(a, b, 0);
    } else if a[0] == b[0] {
      NameLeqIsLexicographic(a[1..], b[1..]);
      if NameLeq(a, b) {
        var k: nat :| DifferAt(a[1..], b[1..], k);
        assert a[..k + 1] == [a[0]] + a[1..][..k] && b[..k + 1] == [b[0]] + b[1..][..k];
        assert DifferAt(a, b, k + 1);
      } else if k: nat :| DifferAt(a, b, k) {
        assert k > 0;
        assert a[1..][..k - 1] == a[..k][1..] && b[1..][..k - 1] == b[..k][1..];
        assert DifferAt(a[1..], b[1..], k - 1);
      }
    }
  }

  lemma {:induction false} NameLeqAntisymmetric(a: Name, b: Name)
    requires NameLeq(a, b) && NameLeq(b, a)
    ensures a == b
  {
    if a != [] {
      NameLeqAntisymmetric(a[1..], b[1..]);
      assert a == [a[0]] + a[1..] && b == [b[0]] + b[1..];
    }
  }

  lemma {:induction false} NameLeqTransitive(a: Name, b: Name, c: Name)
    requires NameLeq(a, b) && NameLeq(b, c)
    ensures NameLeq(a, c)
  {
    if a != [] && a[0] == b[0] == c[0] {
      NameLeqTransitive(a[1..], b[1..], c[1..]);
    }
  }

  lemma {:induction false} NameLeqTotal(a: Name, b: Name)
    ensures NameLeq(a, b) || NameLeq(b, a)
  {
    if a != [] && b != [] && a[0] == b[0] {
      NameLeqTotal(a[1..], b[1..]);
    }
  }

  ghost predicate IsLeastName(n: Name, s: set<Name>)
  {
    n in s && forall m | m in s :: NameLeq(n, m)
  }

  lemma {:induction false} LeastNameExists(s: set<Name>)
    requires s != {}
    ensures exists n :: IsLeastName(n, s)
    decreases |s|
  {
    var x :| x in s;
    var rest := s - {x};
    if rest == {} {
      NameLeqTotal(x, x);
      forall m | m in s ensures NameLeq(x, m) { assert m == x || m in rest; }
      assert IsLeastName(x, s);
    } else {
      LeastNameExists(rest);
      var y :| IsLeastName(y, rest);
      NameLeqTotal(x, y);
      if NameLeq(y, x) {
        forall m | m in s ensures NameLeq(y, m) { assert m == x || m in rest; }
        assert IsLeastName(y, s);
      } else {
        forall m | m in s ensures NameLeq(x, m) {
          if m == x { NameLeqTotal(x, x); } else { assert m in rest; NameLeqTransitive(x, y, m); }
        }
        assert IsLeastName(x, s);
      }
    }
  }

  /** The first name in iteration order of a `BTreeSet` or of a `BTreeMap`'s keys. */
  ghost function LeastName(s: set<Name>): (n: Name)
    requires s != {}
    ensures IsLeastName(n, s)
  {
    LeastNameExists(s);
    var n :| IsLeastName(n, s);
    n
  }

  ghost predicate Ascending(names: seq<Name>)
  {
    forall i, j | 0 <= i < j < |names| :: names[i] != names[j] && NameLeq(names[i], names[j])
  }

  /** A set of names in iteration order: ascending, each member exactly once. */
  ghost function SortedNames(s: set<Name>): (names: seq<Name>)
    ensures |names| == |s|
    ensures forall n :: n in names <==> n in s
    ensures Ascending(names)
    decreases |s|
  {
    if s == {} then []
    else
      var n := LeastName(s);
      var rest := SortedNames(s - {n});
      [n] + rest
  }

  /** There is one ascending list of a set of names. */
  lemma {:induction false} AscendingIsUnique(a: seq<Name>, b: seq<Name>)
    requires Ascending(a) && Ascending(b) && forall n :: n in a <==> n in b
    ensures a == b
  {
    assert a != [] ==> a[0] in b;
    assert b != [] ==> b[0] in a;
    if a != [] {
      NameLeqTotal(a[0], a[0]);
      NameLeqTotal(b[0], b[0]);
      NameLeqAntisymmetric(a[0], b[0]);
      forall n ensures n in a[1..] <==> n in b[1..] {
        if n in a[1..] { assert n in b; }
        if n in b[1..] { assert n in a; }
      }
      AscendingIsUnique(a[1..], b[1..]);
      assert a == [a[0]] + a[1..] && b == [b[0]] + b[1..];
    }
  }

  lemma SortedNamesIsTheOrder(s: set<Name>, names: seq<Name>)
    requires Ascending(names) && forall n :: n in names <==> n in s
    ensures names == SortedNames(s)
  {
    AscendingIsUnique(names, SortedNames(s));
  }
}
