/**
 * The output directory of `all-repos-clone`: a tree of directories, some of
 * which are repository checkouts. A repository name such as `dir1/repo2`
 * denotes the nested directory `dir1/repo2` below the output root. The three
 * things a sync does to the tree are modelled here as steps on an immutable
 * value: clone (create the directory and its parents, check out the source's
 * HEAD), update (move an existing checkout to the source's HEAD), and remove
 * (delete the checkout's subtree, then delete each parent directory left
 * empty, walking up until the output root or a non-empty directory).
 */
module Forest {
  import Text

  type Name = string
  type Rev = string

  /** A directory below the output root, as its path components; `[]` is the
      output root itself. */
  type Path = seq<string>

  /** The directory a repository name denotes. */
  function PathOf(n: Name): (p: Path)
    ensures |p| >= 1
  {
    Text.Split(n, '/')
  }

  /** Different normalised names denote different directories: different
      names give different lists of path components. */
  lemma PathOfInjective(a: Name, b: Name)
    requires PathOf(a) == PathOf(b)
    ensures a == b
  {
    Text.JoinSplit(a, '/');
    Text.JoinSplit(b, '/');
  }

  /** The directories of the given names. */
  function PathsOf(names: set<Name>): set<Path>
  {
    set n | n in names :: PathOf(n)
  }

  /** `p` and all its parents up to, not including, the output root: what
      `os.makedirs` creates for `p`. */
  function Ancestors(p: Path): set<Path>
  {
    set i | 1 <= i <= |p| :: p[..i]
  }

  /** The directory tree that holds exactly the given checkouts: every
      checkout directory and every parent of one. */
  function Closure(ps: set<Path>): set<Path>
  {
    set p, i | p in ps && 1 <= i <= |p| :: p[..i]
  }

  lemma AncestorsMember(p: Path, d: Path)
    ensures d in Ancestors(p) <==> d != [] && d <= p
  {
    if d != [] && d <= p {
      assert d == p[..|d|];
    }
  }

  lemma ClosureMember(ps: set<Path>, d: Path)
    ensures d in Closure(ps) <==> d != [] && exists q :: q in ps && d <= q
  {
    if d in Closure(ps) {
      var p, i :| p in ps && 1 <= i <= |p| && d == p[..i];
      assert d <= p;
    }
    if d != [] && exists q :: q in ps && d <= q {
      var q :| q in ps && d <= q;
      assert d == q[..|d|];
    }
  }

  /** Adding one checkout adds its directory and its parents to the tree. */
  lemma ClosureInsert(ps: set<Path>, p: Path)
    ensures Closure(ps + {p}) == Closure(ps) + Ancestors(p)
  {
    forall d ensures d in Closure(ps + {p}) <==> d in Closure(ps) + Ancestors(p) {
      ClosureMember(ps + {p}, d);
      ClosureMember(ps, d);
      AncestorsMember(p, d);
    }
  }

  /** No repository directory lies inside another one: the layout the sync
      is able to maintain (a checkout holds its own working tree). */
  predicate NonNesting(names: set<Name>)
  {
    forall a, b :: a in names && b in names && PathOf(a) <= PathOf(b) ==> a == b
  }

  lemma NonNestingSubset(small: set<Name>, big: set<Name>)
    requires small <= big && NonNesting(big)
    ensures NonNesting(small)
  {
  }

  /** In a non-nesting set, taking one name's directory away takes away
      exactly that name. */
  lemma PathsOfRemove(names: set<Name>, n: Name)
    requires NonNesting(names) && n in names
    ensures PathsOf(names - {n}) == PathsOf(names) - {PathOf(n)}
  {
  }

  /** The output directory: the directories present, and which of them are
      checkouts at which revision. */
  datatype Forest = Forest(dirs: set<Path>, checkouts: map<Name, Rev>)

  /** The directories of the checkouts. */
  function CheckoutPaths(f: Forest): set<Path>
  {
    PathsOf(f.checkouts.Keys)
  }

  /** The state a sync leaves behind: checkouts do not nest, and the
      directories present are exactly the checkouts and their parents, so no
      stray empty directory is left. */
  predicate WellFormed(f: Forest)
  {
    NonNesting(f.checkouts.Keys) && f.dirs == Closure(CheckoutPaths(f))
  }

  /** A directory that is not a checkout and holds no other directory. */
  predicate IsEmptyDir(f: Forest, d: Path)
  {
    && (forall m :: m in f.checkouts ==> PathOf(m) != d)
    && (forall e :: e in f.dirs ==> !(d < e))
  }

  /** Clone `n` at revision `rev`: create its directory and parents, and
      check out `rev` there. */
  function Clone(f: Forest, n: Name, rev: Rev): Forest
  {
    Forest(f.dirs + Ancestors(PathOf(n)), f.checkouts[n := rev])
  }

  /** Fetch and hard-reset the existing checkout `n` to revision `rev`; local
      history is discarded. */
  function Update(f: Forest, n: Name, rev: Rev): Forest
  {
    Forest(f.dirs, f.checkouts[n := rev])
  }

  /** Walk up from `d` deleting each directory that is empty, stopping at the
      output root or at the first directory that is not empty. */
  function Prune(f: Forest, d: Path): Forest
    decreases |d|
  {
    if |d| == 0 || d !in f.dirs || !IsEmptyDir(f, d) then f
    else Prune(Forest(f.dirs - {d}, f.checkouts), d[..|d| - 1])
  }

  /** Remove `n`: delete its whole subtree, then prune the parents it left
      empty. */
  function Remove(f: Forest, n: Name): Forest
  {
    var p := PathOf(n);
    var rest := Forest(
      set d | d in f.dirs && !(p <= d),
      map m | m in f.checkouts && !(p <= PathOf(m)) :: f.checkouts[m]);
    Prune(rest, p[..|p| - 1])
  }

  /** Pruning from `x` upward, in a tree that is the well-formed tree of
      `f.checkouts` plus the chain of parents of `x`, removes exactly the
      part of that chain that leads to no checkout. */
  lemma {:induction false} PruneSpec(f: Forest, x: Path)
    requires f.dirs == Closure(CheckoutPaths(f)) + Ancestors(x)
    ensures Prune(f, x) == Forest(Closure(CheckoutPaths(f)), f.checkouts)
    decreases |x|
  {
    var cps := CheckoutPaths(f);
    if |x| == 0 {
      assert Ancestors(x) == {};
    } else {
      AncestorsMember(x, x);
      ClosureMember(cps, x);
      if x in Closure(cps) {
        forall d | d in Ancestors(x) ensures d in Closure(cps) {
          AncestorsMember(x, d);
          var q :| q in cps && x <= q;
          ClosureMember(cps, d);
        }
        var q :| q in cps && x <= q;
        if x != q {
          var c := q[..|x| + 1];
          ClosureMember(cps, c);
          assert x < c;
        }
        assert !IsEmptyDir(f, x);
      } else {
        forall e | e in f.dirs ensures !(x < e) {
          if e in Closure(cps) {
            ClosureMember(cps, e);
          } else {
            AncestorsMember(x, e);
          }
        }
        assert IsEmptyDir(f, x);
        var parent := x[..|x| - 1];
        assert f.dirs - {x} == Closure(cps) + Ancestors(parent) by {
          forall d ensures d in f.dirs - {x} <==> d in Closure(cps) + Ancestors(parent) {
            AncestorsMember(x, d);
            AncestorsMember(parent, d);
            if d != [] && d <= x && d != x {
              assert d <= parent;
            }
          }
        }
        PruneSpec(Forest(f.dirs - {x}, f.checkouts), parent);
      }
    }
  }

  /** Deleting the subtree of one checkout of a non-nesting set takes away
      that checkout and no other. */
  lemma RemoveSubtreeCheckouts(f: Forest, n: Name)
    requires NonNesting(f.checkouts.Keys) && n in f.checkouts
    ensures (map m | m in f.checkouts && !(PathOf(n) <= PathOf(m)) :: f.checkouts[m])
      == f.checkouts - {n}
  {
  }

  /** A directory that survives the subtree deletion is a parent of another
      checkout or of the deleted one. */
  lemma RemoveSubtreeKept(f: Forest, n: Name, d: Path)
    requires WellFormed(f) && n in f.checkouts
    requires d in f.dirs && !(PathOf(n) <= d)
    ensures d in Closure(CheckoutPaths(f) - {PathOf(n)}) + Ancestors(PathOf(n)[..|PathOf(n)| - 1])
  {
    var p := PathOf(n);
    var cps := CheckoutPaths(f);
    ClosureMember(cps, d);
    ClosureMember(cps - {p}, d);
    AncestorsMember(p[..|p| - 1], d);
    var q :| q in cps && d <= q;
    if q == p {
      assert d <= p[..|p| - 1];
    }
  }

  /** Every parent of another checkout, and every parent of the deleted one,
      survives the subtree deletion. */
  lemma RemoveSubtreeNeeded(f: Forest, n: Name, d: Path)
    requires WellFormed(f) && n in f.checkouts
    requires d in Closure(CheckoutPaths(f) - {PathOf(n)}) + Ancestors(PathOf(n)[..|PathOf(n)| - 1])
    ensures d in f.dirs && !(PathOf(n) <= d)
  {
    var p := PathOf(n);
    var cps := CheckoutPaths(f);
    ClosureMember(cps, d);
    ClosureMember(cps - {p}, d);
    AncestorsMember(p[..|p| - 1], d);
    AncestorsMember(p, d);
    if d in Closure(cps - {p}) {
      var q :| q in cps - {p} && d <= q;
      var m :| m in f.checkouts && PathOf(m) == q;
      assert !(p <= d);
    } else {
      assert d <= p;
    }
  }

  /** Deleting the subtree of one checkout of a well-formed tree leaves the
      tree of the other checkouts plus the chain of parents of the deleted
      one. */
  lemma RemoveSubtreeDirs(f: Forest, n: Name)
    requires WellFormed(f) && n in f.checkouts
    ensures var p := PathOf(n);
      (set d | d in f.dirs && !(p <= d))
      == Closure(CheckoutPaths(f) - {p}) + Ancestors(p[..|p| - 1])
  {
    var p := PathOf(n);
    var dirs := set d | d in f.dirs && !(p <= d);
    var want := Closure(CheckoutPaths(f) - {p}) + Ancestors(p[..|p| - 1]);
    forall d | d in dirs ensures d in want {
      RemoveSubtreeKept(f, n, d);
    }
    forall d | d in want ensures d in dirs {
      RemoveSubtreeNeeded(f, n, d);
    }
  }

  /** Removing a checkout from a well-formed tree leaves the well-formed tree
      of the remaining checkouts: its directory is gone, and so is every
      parent that no other checkout needs. */
  lemma RemoveSpec(f: Forest, n: Name)
    requires WellFormed(f) && n in f.checkouts
    ensures Remove(f, n) == Forest(Closure(CheckoutPaths(f) - {PathOf(n)}), f.checkouts - {n})
    ensures WellFormed(Remove(f, n))
  {
    var p := PathOf(n);
    var co := f.checkouts - {n};
    RemoveSubtreeCheckouts(f, n);
    RemoveSubtreeDirs(f, n);
    PathsOfRemove(f.checkouts.Keys, n);
    assert co.Keys == f.checkouts.Keys - {n};
    PruneSpec(Forest(Closure(CheckoutPaths(f) - {p}) + Ancestors(p[..|p| - 1]), co), p[..|p| - 1]);
    NonNestingSubset(co.Keys, f.checkouts.Keys);
  }

  /** Cloning a name that nests with no checkout keeps the tree well-formed,
      adding just that directory and its parents. */
  lemma CloneSpec(f: Forest, n: Name, rev: Rev)
    requires WellFormed(f) && NonNesting(f.checkouts.Keys + {n})
    ensures Clone(f, n, rev).dirs == Closure(CheckoutPaths(f) + {PathOf(n)})
    ensures WellFormed(Clone(f, n, rev))
  {
    ClosureInsert(CheckoutPaths(f), PathOf(n));
    assert f.checkouts[n := rev].Keys == f.checkouts.Keys + {n};
    assert PathsOf(f.checkouts.Keys + {n}) == CheckoutPaths(f) + {PathOf(n)};
  }
}
