/**
 * One run of `all-repos-clone`: check the configuration file's permissions,
 * list the repositories the source reports, keep those the include/exclude
 * patterns allow, remove the checkouts no longer wanted, then clone or update
 * the wanted ones on a pool of `jobs` workers, and record the two manifests.
 * The repository source, the pattern filter and the remote heads are
 * parameters: what they would return is whatever the caller passes.
 */
module Sync {
  import opened Results
  import opened Forest
  import CloneOptions

  type Url = string

  /** The two manifests written at the end of a run: every repository the
      source listed, and the ones kept by the patterns. */
  datatype Manifests = Manifests(repos: map<Name, Url>, reposFiltered: map<Name, Url>)

  /** What a completed run leaves: the output tree, the manifests, and the
      names whose clone or fetch failed. */
  datatype Outcome = Outcome(forest: Forest, manifests: Manifests, failed: set<Name>)

  /** The repositories the include/exclude patterns keep. */
  function Filter(repos: map<Name, Url>, keep: Name -> bool): (r: map<Name, Url>)
    ensures forall n :: n in r <==> n in repos && keep(n)
    ensures forall n :: n in r ==> r[n] == repos[n]
  {
    map n | n in repos && keep(n) :: repos[n]
  }

  /** With patterns that keep everything, the filtered manifest is the full
      one. */
  lemma FilterKeepAll(repos: map<Name, Url>, keep: Name -> bool)
    requires forall n :: keep(n)
    ensures Filter(repos, keep) == repos
  {
  }

  /** What a run does to each name. */
  datatype Plan = Plan(toClone: set<Name>, toUpdate: set<Name>, toRemove: set<Name>)

  /** Wanted names not yet checked out are cloned, wanted names already
      checked out are updated, and checked-out names no longer wanted are
      removed: three disjoint sets covering the wanted names and the present
      checkouts. */
  function MakePlan(desired: set<Name>, present: set<Name>): (p: Plan)
    ensures p.toClone + p.toUpdate == desired
    ensures p.toUpdate + p.toRemove == present
    ensures p.toClone !! p.toUpdate && p.toClone !! p.toRemove && p.toUpdate !! p.toRemove
  {
    Plan(desired - present, desired * present, present - desired)
  }

  /** The conditions above fix the plan: no other partition meets them. */
  lemma PlanUnique(desired: set<Name>, present: set<Name>, p: Plan)
    requires p.toClone + p.toUpdate == desired
    requires p.toUpdate + p.toRemove == present
    requires p.toClone !! p.toUpdate && p.toClone !! p.toRemove && p.toUpdate !! p.toRemove
    ensures p == MakePlan(desired, present)
  {
  }

  /** The job on `n` has finished and its source answered with a head. */
  predicate Fetched(desired: map<Name, Url>, heads: map<Url, Rev>, done: set<Name>, n: Name)
    requires n in desired
  {
    n in done && desired[n] in heads
  }

  /** The checkouts after removal and after fetching the names in `done`. */
  function PartialCheckouts(desired: map<Name, Url>, heads: map<Url, Rev>, before: Forest, done: set<Name>): map<Name, Rev>
  {
    map n | n in desired && (Fetched(desired, heads, done, n) || n in before.checkouts) ::
      if Fetched(desired, heads, done, n) then heads[desired[n]] else before.checkouts[n]
  }

  /** The output tree after removal and after fetching the names in `done`,
      in whatever order: the well-formed tree of those checkouts. */
  function Partial(desired: map<Name, Url>, heads: map<Url, Rev>, before: Forest, done: set<Name>): Forest
  {
    var co := PartialCheckouts(desired, heads, before, done);
    Forest(Closure(PathsOf(co.Keys)), co)
  }

  /** Where a run converges, independently of the number of workers and of
      the order the workers finish in: every wanted repository whose source
      answered is checked out at that source's head; a wanted repository
      whose source failed keeps its old checkout if it had one and is absent
      otherwise; nothing unwanted is left; and the directories are exactly
      the checkouts and their parents. */
  function Converged(desired: map<Name, Url>, heads: map<Url, Rev>, before: Forest): (r: Forest)
    requires NonNesting(desired.Keys)
    requires WellFormed(before)
    ensures WellFormed(r)
    ensures forall n :: n in r.checkouts <==> n in desired && (desired[n] in heads || n in before.checkouts)
    ensures forall n :: n in r.checkouts && desired[n] in heads ==> r.checkouts[n] == heads[desired[n]]
    ensures forall n :: n in r.checkouts && desired[n] !in heads ==> r.checkouts[n] == before.checkouts[n]
  {
    var r := Partial(desired, heads, before, desired.Keys);
    NonNestingSubset(r.checkouts.Keys, desired.Keys);
    r
  }

  /** The names among `done` whose clone or fetch failed: their source
      reports no head. */
  function FailedAmong(desired: map<Name, Url>, heads: map<Url, Rev>, done: set<Name>): (r: set<Name>)
    ensures forall n :: n in r <==> n in done && n in desired && desired[n] !in heads
  {
    set n | n in done && n in desired && desired[n] !in heads
  }

  /** The names a run reports as failed. */
  function Failed(desired: map<Name, Url>, heads: map<Url, Rev>): set<Name>
  {
    FailedAmong(desired, heads, desired.Keys)
  }

  /** One worker's job on `n`: clone it when it is new, fetch and reset it
      when it exists. A source that does not answer leaves the tree alone:
      a failed clone creates nothing, not even the parent directories a
      clone makes before it starts, and a failed fetch keeps the old
      checkout. */
  function Fetch(f: Forest, n: Name, url: Url, heads: map<Url, Rev>): Forest
  {
    if url !in heads then f
    else if n in f.checkouts then Update(f, n, heads[url])
    else Clone(f, n, heads[url])
  }

  /** Each job does what the plan says: when the job on `n` runs, `n` is
      checked out exactly when the plan updates it, and absent exactly when
      the plan clones it; so `Fetch` updates the names of `toUpdate` and
      clones those of `toClone`. */
  lemma FetchFollowsPlan(desired: map<Name, Url>, heads: map<Url, Rev>, before: Forest, done: set<Name>, n: Name)
    requires n in desired && n !in done
    ensures var p := MakePlan(desired.Keys, before.checkouts.Keys);
      && (n in Partial(desired, heads, before, done).checkouts <==> n in p.toUpdate)
      && (n !in Partial(desired, heads, before, done).checkouts <==> n in p.toClone)
  {
    assert !Fetched(desired, heads, done, n);
  }

  /** Finishing the job on `n` changes at most the entry of `n`: to the
      source's head when it answered, not at all when it did not. */
  lemma CheckoutsStep(desired: map<Name, Url>, heads: map<Url, Rev>, before: Forest, done: set<Name>, n: Name)
    requires n in desired && n !in done
    ensures desired[n] !in heads ==>
      PartialCheckouts(desired, heads, before, done + {n}) == PartialCheckouts(desired, heads, before, done)
    ensures desired[n] in heads ==>
      PartialCheckouts(desired, heads, before, done + {n})
      == PartialCheckouts(desired, heads, before, done)[n := heads[desired[n]]]
  {
    var co := PartialCheckouts(desired, heads, before, done);
    var co' := PartialCheckouts(desired, heads, before, done + {n});
    forall m | m in desired && m != n
      ensures Fetched(desired, heads, done + {n}, m) == Fetched(desired, heads, done, m)
    {
    }
    if desired[n] in heads {
      var h := heads[desired[n]];
      assert Fetched(desired, heads, done + {n}, n);
      assert co'.Keys == co.Keys + {n};
      assert forall m :: m in co' ==> co'[m] == co[n := h][m];
    } else {
      assert !Fetched(desired, heads, done + {n}, n) && !Fetched(desired, heads, done, n);
      assert co'.Keys == co.Keys;
      assert forall m :: m in co' ==> co'[m] == co[m];
    }
  }

  /** Finishing one more job moves the tree from one partial state to the
      next, whichever job it is. */
  lemma FetchStep(desired: map<Name, Url>, heads: map<Url, Rev>, before: Forest, done: set<Name>, n: Name)
    requires NonNesting(desired.Keys)
    requires n in desired && n !in done
    ensures Fetch(Partial(desired, heads, before, done), n, desired[n], heads)
      == Partial(desired, heads, before, done + {n})
  {
    var co := PartialCheckouts(desired, heads, before, done);
    var co' := PartialCheckouts(desired, heads, before, done + {n});
    CheckoutsStep(desired, heads, before, done, n);
    if desired[n] in heads {
      if n in co {
        assert co'.Keys == co.Keys;
      } else {
        assert co'.Keys == co.Keys + {n};
        assert PathsOf(co.Keys + {n}) == PathsOf(co.Keys) + {PathOf(n)};
        ClosureInsert(PathsOf(co.Keys), PathOf(n));
      }
    }
  }

  /** The checkouts in `co` restricted to the names in `ks`. */
  function Restrict(co: map<Name, Rev>, ks: set<Name>): map<Name, Rev>
  {
    map n | n in co && n in ks :: co[n]
  }

  /** Once every unwanted checkout is removed, the tree is the starting
      partial state: no job has finished yet. */
  lemma RemovedIsPartialStart(desired: map<Name, Url>, heads: map<Url, Rev>, before: Forest)
    ensures Forest(Closure(PathsOf(Restrict(before.checkouts, desired.Keys).Keys)),
                   Restrict(before.checkouts, desired.Keys))
      == Partial(desired, heads, before, {})
  {
    assert Restrict(before.checkouts, desired.Keys) == PartialCheckouts(desired, heads, before, {});
  }

  /** When nothing is left to remove, the tree is the starting partial
      state. */
  lemma RemovalDone(desired: map<Name, Url>, heads: map<Url, Rev>, before: Forest, toRemove: set<Name>, f: Forest)
    requires toRemove == {}
    requires WellFormed(f) && f.checkouts == Restrict(before.checkouts, desired.Keys + toRemove)
    ensures f == Partial(desired, heads, before, {})
  {
    assert desired.Keys + toRemove == desired.Keys;
    RemovedIsPartialStart(desired, heads, before);
  }

  /** Removing one more unwanted checkout keeps the tree well-formed and
      drops exactly that name. */
  lemma RemoveOne(before: Forest, keep: set<Name>, toRemove: set<Name>, f: Forest, n: Name)
    requires WellFormed(f) && f.checkouts == Restrict(before.checkouts, keep + toRemove)
    requires n in toRemove && n in before.checkouts && n !in keep
    ensures WellFormed(Remove(f, n))
    ensures Remove(f, n).checkouts == Restrict(before.checkouts, keep + (toRemove - {n}))
  {
    RemoveSpec(f, n);
    assert f.checkouts - {n} == Restrict(before.checkouts, keep + (toRemove - {n}));
  }

  /** The removal phase: every checked-out name no longer wanted is
      removed, one at a time, in any order; the result is the well-formed
      tree of the wanted checkouts that were already there. */
  method RemoveUnwanted(desired: map<Name, Url>, heads: map<Url, Rev>, before: Forest) returns (f: Forest)
    requires WellFormed(before)
    ensures f == Partial(desired, heads, before, {})
  {
    f := before;
    var toRemove := MakePlan(desired.Keys, before.checkouts.Keys).toRemove;
    assert before.checkouts == Restrict(before.checkouts, desired.Keys + toRemove);
    while toRemove != {}
      invariant toRemove <= before.checkouts.Keys - desired.Keys
      invariant f.checkouts == Restrict(before.checkouts, desired.Keys + toRemove)
      invariant WellFormed(f)
      decreases |toRemove|
    {
      var n :| n in toRemove;
      RemoveOne(before, desired.Keys, toRemove, f, n);
      f := Remove(f, n);
      toRemove := toRemove - {n};
    }
    RemovalDone(desired, heads, before, toRemove, f);
  }

  /** The bookkeeping of the worker pool: every wanted name is waiting,
      being fetched or done, never two of these at once, and no more than
      `jobs` fetches run together. */
  predicate PoolInv(all: set<Name>, todo: set<Name>, running: set<Name>, done: set<Name>, jobs: nat)
  {
    && |running| <= jobs
    && todo + running + done == all
    && todo !! running && todo !! done && running !! done
  }

  /** A free worker picking up a waiting name keeps the pool's bookkeeping. */
  lemma StartJob(all: set<Name>, todo: set<Name>, running: set<Name>, done: set<Name>, jobs: nat, n: Name)
    requires PoolInv(all, todo, running, done, jobs) && n in todo && |running| < jobs
    ensures PoolInv(all, todo - {n}, running + {n}, done, jobs)
    ensures 2 * |todo - {n}| + |running + {n}| < 2 * |todo| + |running|
  {
  }

  /** A busy worker finishing keeps the pool's bookkeeping, and the tree and
      the failure report move on to include its name. */
  lemma FinishJob(
    desired: map<Name, Url>, heads: map<Url, Rev>, before: Forest,
    todo: set<Name>, running: set<Name>, done: set<Name>, jobs: nat, n: Name)
    requires NonNesting(desired.Keys)
    requires PoolInv(desired.Keys, todo, running, done, jobs) && n in running
    ensures PoolInv(desired.Keys, todo, running - {n}, done + {n}, jobs)
    ensures 2 * |todo| + |running - {n}| < 2 * |todo| + |running|
    ensures Fetch(Partial(desired, heads, before, done), n, desired[n], heads)
      == Partial(desired, heads, before, done + {n})
    ensures FailedAmong(desired, heads, done + {n})
      == if desired[n] in heads then FailedAmong(desired, heads, done)
         else FailedAmong(desired, heads, done) + {n}
  {
    FetchStep(desired, heads, before, done, n);
    FailedStep(desired, heads, done, n);
    FinishPool(desired.Keys, todo, running, done, jobs, n);
  }

  lemma FinishPool(all: set<Name>, todo: set<Name>, running: set<Name>, done: set<Name>, jobs: nat, n: Name)
    requires PoolInv(all, todo, running, done, jobs) && n in running
    ensures PoolInv(all, todo, running - {n}, done + {n}, jobs)
    ensures |running - {n}| < |running|
  {
  }

  lemma FailedStep(desired: map<Name, Url>, heads: map<Url, Rev>, done: set<Name>, n: Name)
    requires n in desired && n !in done
    ensures FailedAmong(desired, heads, done + {n})
      == if desired[n] in heads then FailedAmong(desired, heads, done)
         else FailedAmong(desired, heads, done) + {n}
  {
  }

  /** The fetch phase on a pool of `jobs` workers: a worker picks up any
      waiting name while fewer than `jobs` are busy, and any busy worker may
      finish next. Every name ends fetched, and the names whose source did
      not answer are reported. */
  method FetchAll(desired: map<Name, Url>, heads: map<Url, Rev>, before: Forest, jobs: nat, start: Forest)
    returns (f: Forest, failed: set<Name>)
    requires jobs >= 1
    requires NonNesting(desired.Keys)
    requires start == Partial(desired, heads, before, {})
    ensures f == Partial(desired, heads, before, desired.Keys)
    ensures failed == Failed(desired, heads)
  {
    f := start;
    failed := {};
    var todo := desired.Keys;
    var running: set<Name> := {};
    ghost var done: set<Name> := {};
    while todo != {} || running != {}
      invariant PoolInv(desired.Keys, todo, running, done, jobs)
      invariant f == Partial(desired, heads, before, done)
      invariant failed == FailedAmong(desired, heads, done)
      decreases 2 * |todo| + |running|
    {
      if todo != {} && |running| < jobs {
        var n :| n in todo;
        StartJob(desired.Keys, todo, running, done, jobs, n);
        todo := todo - {n};
        running := running + {n};
      } else {
        assert running != {} by {
          if todo != {} {
            assert |running| >= 1;
          }
        }
        var n :| n in running;
        FinishJob(desired, heads, before, todo, running, done, jobs, n);
        f := Fetch(f, n, desired[n], heads);
        if desired[n] !in heads {
          failed := failed + {n};
        }
        running := running - {n};
        done := done + {n};
      }
    }
    assert done == desired.Keys;
  }

  /** `all-repos-clone`. The configuration's permission guard runs first;
      when it refuses, the run stops with its message and the tree is not
      touched. Otherwise the unwanted checkouts are removed, then the wanted
      names are fetched by at most `jobs` workers at once. Whatever `jobs`
      is, the run ends in the converged tree, with both manifests and the
      failed names. */
  method CloneAll(
    configPath: string, configMode: nat, jobs: nat,
    repos: map<Name, Url>, keep: Name -> bool, heads: map<Url, Rev>, before: Forest)
    returns (r: Result<Outcome, string>)
    requires jobs >= 1
    requires WellFormed(before)
    requires NonNesting(Filter(repos, keep).Keys)
    ensures CloneOptions.CheckPermissions(configPath, configMode).Err? ==>
      r == Err(CloneOptions.CheckPermissions(configPath, configMode).error)
    ensures CloneOptions.CheckPermissions(configPath, configMode).Ok? ==>
      r == Ok(Outcome(
        Converged(Filter(repos, keep), heads, before),
        Manifests(repos, Filter(repos, keep)),
        Failed(Filter(repos, keep), heads)))
  {
    var guard := CloneOptions.CheckPermissions(configPath, configMode);
    if guard.Err? {
      return Err(guard.error);
    }
    var desired := Filter(repos, keep);
    var f := RemoveUnwanted(desired, heads, before);
    var failed;
    f, failed := FetchAll(desired, heads, before, jobs, f);
    return Ok(Outcome(f, Manifests(repos, desired), failed));
  }

  /** The empty output directory a first run starts from. */
  const Fresh: Forest := Forest({}, map[])

  /** A first run clones every wanted repository whose source answers, at
      that source's head, and creates its directory and all its parents;
      nothing else is checked out. */
  lemma FirstRunClonesAll(desired: map<Name, Url>, heads: map<Url, Rev>)
    requires NonNesting(desired.Keys)
    requires forall n :: n in desired ==> desired[n] in heads
    ensures Converged(desired, heads, Fresh).checkouts == map n | n in desired :: heads[desired[n]]
    ensures forall n :: n in desired ==> Ancestors(PathOf(n)) <= Converged(desired, heads, Fresh).dirs
  {
    var r := Converged(desired, heads, Fresh);
    forall n, d | n in desired && d in Ancestors(PathOf(n)) ensures d in r.dirs {
      AncestorsMember(PathOf(n), d);
      ClosureMember(CheckoutPaths(r), d);
      assert PathOf(n) in CheckoutPaths(r);
    }
  }

  /** After new commits upstream, the next run moves every checkout whose
      source answers to the new head, whatever it held before. */
  lemma ResyncFollowsNewHeads(desired: map<Name, Url>, earlier: map<Url, Rev>, later: map<Url, Rev>, before: Forest)
    requires NonNesting(desired.Keys)
    requires WellFormed(before)
    requires forall n :: n in desired ==> desired[n] in later
    ensures Converged(desired, later, Converged(desired, earlier, before)).checkouts
      == map n | n in desired :: later[desired[n]]
  {
  }

  /** A repository the source no longer lists is gone after the next run,
      its directory included, unless a wanted repository lives inside that
      directory. */
  lemma DroppedRepositoryRemoved(desired: map<Name, Url>, heads: map<Url, Rev>, before: Forest, n: Name)
    requires NonNesting(desired.Keys)
    requires WellFormed(before)
    requires n !in desired
    requires forall m :: m in desired ==> !(PathOf(n) <= PathOf(m))
    ensures n !in Converged(desired, heads, before).checkouts
    ensures PathOf(n) !in Converged(desired, heads, before).dirs
  {
    var r := Converged(desired, heads, before);
    forall q | q in CheckoutPaths(r) ensures !(PathOf(n) <= q) {
      var m :| m in r.checkouts && PathOf(m) == q;
    }
    ClosureMember(CheckoutPaths(r), PathOf(n));
  }

  /** Every directory left after a run leads down to a checkout: a parent
      directory emptied by a removal does not survive. */
  lemma NoEmptyDirectoryLeft(desired: map<Name, Url>, heads: map<Url, Rev>, before: Forest, d: Path)
    requires NonNesting(desired.Keys)
    requires WellFormed(before)
    requires d in Converged(desired, heads, before).dirs
    ensures d != []
    ensures exists n :: n in Converged(desired, heads, before).checkouts && d <= PathOf(n)
  {
    var r := Converged(desired, heads, before);
    ClosureMember(CheckoutPaths(r), d);
    var q :| q in CheckoutPaths(r) && d <= q;
    var n :| n in r.checkouts && PathOf(n) == q;
  }

  /** A second run with the same sources and the same heads changes
      nothing. */
  lemma SyncIdempotent(desired: map<Name, Url>, heads: map<Url, Rev>, before: Forest)
    requires NonNesting(desired.Keys)
    requires WellFormed(before)
    ensures Converged(desired, heads, Converged(desired, heads, before)) == Converged(desired, heads, before)
  {
    var r1 := Converged(desired, heads, before);
    var r2 := Converged(desired, heads, r1);
    assert r2.checkouts == r1.checkouts;
  }

  /** The directory of a single checkout is the tree of its parents. */
  lemma ClosureOfOne(p: Path)
    ensures Closure({p}) == Ancestors(p)
  {
    forall d ensures d in Closure({p}) <==> d in Ancestors(p) {
      ClosureMember({p}, d);
      AncestorsMember(p, d);
    }
  }

  lemma PathOfPlain(n: Name)
    requires '/' !in n
    ensures PathOf(n) == [n]
  {
    Text.SplitWithoutSep(n, '/');
  }

  lemma PathOfNested(a: Name, b: Name)
    requires '/' !in a && '/' !in b
    ensures PathOf(a + "/" + b) == [a, b]
  {
    Text.SplitAtFirst(a, b, '/');
    Text.SplitWithoutSep(b, '/');
  }

  lemma AncestorsOfTwo(a: string, b: string)
    ensures Ancestors([a, b]) == {[a], [a, b]}
  {
    forall d ensures d in Ancestors([a, b]) <==> d in {[a], [a, b]} {
      AncestorsMember([a, b], d);
      assert [a, b][..1] == [a];
      if d != [] && d <= [a, b] {
        if |d| == 1 {
          assert d == [a];
        } else {
          assert d == [a, b];
        }
      }
    }
  }

  /** A run that wants a single repository, whose source answers, ends with
      that checkout alone and exactly its directory and parents, whatever
      checkouts were there before. */
  lemma SingleRepositoryRun(name: Name, u: Url, heads: map<Url, Rev>, before: Forest)
    requires WellFormed(before)
    requires u in heads
    ensures Converged(map[name := u], heads, before) == Forest(Ancestors(PathOf(name)), map[name := heads[u]])
  {
    var r := Converged(map[name := u], heads, before);
    assert r.checkouts == map[name := heads[u]];
    assert CheckoutPaths(r) == {PathOf(name)};
    ClosureOfOne(PathOf(name));
  }

  /** A nested checkout `a/b` replaced by a top-level one `c`: the first
      run creates `a` and `a/b`; the second leaves `c` alone, with `a/b` and
      its emptied parent `a` both deleted. */
  lemma NestedReplacedByTop(a: string, b: string, c: Name, u1: Url, u2: Url, heads: map<Url, Rev>)
    requires '/' !in a && '/' !in b && '/' !in c
    requires u1 in heads && u2 in heads
    ensures var first := Converged(map[a + "/" + b := u2], heads, Fresh);
      var second := Converged(map[c := u1], heads, first);
      && first == Forest({[a], [a, b]}, map[a + "/" + b := heads[u2]])
      && second == Forest({[c]}, map[c := heads[u1]])
  {
    PathOfNested(a, b);
    AncestorsOfTwo(a, b);
    SingleRepositoryRun(a + "/" + b, u2, heads, Fresh);
    var first := Converged(map[a + "/" + b := u2], heads, Fresh);
    PathOfPlain(c);
    AncestorsMember([c], [c]);
    assert Ancestors([c]) == {[c]};
    SingleRepositoryRun(c, u1, heads, first);
  }

  /** The names of the nested-parent test. */
  lemma TestNames(a: string, b: string, c: string)
    requires a == "dir1" && b == "repo2" && c == "repo1"
    ensures '/' !in a && '/' !in b && '/' !in c
    ensures a + "/" + b == "dir1/repo2"
  {
  }

  /** The test's case: a checkout at `dir1/repo2` replaced by one at
      `repo1`. The first run creates `dir1` and `dir1/repo2`; the second
      leaves `repo1` alone, with `dir1/repo2` and its emptied parent `dir1`
      both deleted. */
  lemma NestedParentPruned(u1: Url, u2: Url, heads: map<Url, Rev>)
    requires u1 in heads && u2 in heads
    ensures var first := Converged(map["dir1/repo2" := u2], heads, Fresh);
      var second := Converged(map["repo1" := u1], heads, first);
      && first == Forest({["dir1"], ["dir1", "repo2"]}, map["dir1/repo2" := heads[u2]])
      && second == Forest({["repo1"]}, map["repo1" := heads[u1]])
  {
    TestNames("dir1", "repo2", "repo1");
    NestedReplacedByTop("dir1", "repo2", "repo1", u1, u2, heads);
  }

  /** Why removals come before clones: with the checkout `a` no longer
      wanted and `a/b` wanted in its place, cloning `a/b` first and then
      removing `a` deletes the fresh clone along with the subtree of `a`,
      whereas the run, which removes first, ends with `a/b` checked out. */
  lemma RemovalMustPrecedeClone(u: Url, rev: Rev, heads: map<Url, Rev>)
    requires u in heads
    ensures var before := Forest({["a"]}, map["a" := rev]);
      && WellFormed(before)
      && "a/b" !in Remove(Clone(before, "a/b", heads[u]), "a").checkouts
      && Converged(map["a/b" := u], heads, before).checkouts == map["a/b" := heads[u]]
  {
    assert "a/b" == "a" + "/" + "b";
    PathOfNested("a", "b");
    PathOfPlain("a");
    var before := Forest({["a"]}, map["a" := rev]);
    assert CheckoutPaths(before) == {["a"]};
    ClosureOfOne(["a"]);
    AncestorsMember(["a"], ["a"]);
    assert Closure(CheckoutPaths(before)) == {["a"]};
  }
}
