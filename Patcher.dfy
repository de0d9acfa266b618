/**
 * The patch dependency and execution engine of `Patcher`: registration of
 * patches (dependency closure and resource-mode inference) and one run
 * (`invoke`): a memoised, dependency-first apply phase in name order, then a
 * finalize phase over the memoised successes in reverse insertion order.
 *
 * Patches are identified by `PatchId`; the declared patches form a
 * `PatchGraph`. The user code of a patch (its apply and finalize blocks) is an
 * oracle: `Bodies` says whether each block completes or raises. The emitted
 * flow is the eagerly built sequence of results.
 */
module Patching {
  import opened Wrappers

  type PatchId = nat

  /** Marker types: `ResourcePatch` needs full resource decoding, `RawResourcePatch` raw resources only. */
  datatype PatchKind = BytecodePatch | RawResourcePatch | ResourcePatch

  /**
   * A declared patch. `name` is `None` for dependency-only patches;
   * `dependencies` is listed in the iteration order of the patch's dependency set.
   */
  datatype Patch = Patch(name: Option<string>, dependencies: seq<PatchId>, kind: PatchKind)

  /**
   * The declared patches are closed under dependencies and acyclic: the ids
   * number them topologically, every dependency below its dependent.
   */
  predicate TopologicallyNumbered(g: map<PatchId, Patch>) {
    forall p, d :: p in g && d in g[p].dependencies ==> d in g && d < p
  }

  type PatchGraph = g: map<PatchId, Patch> | TopologicallyNumbered(g) witness map[]

  lemma DependencyBelow(g: PatchGraph, p: PatchId, d: PatchId)
    requires p in g && d in g[p].dependencies
    ensures d in g && d < p
  {
  }

  datatype ResourceMode = NONE | RAW_ONLY | FULL

  // ---------------------------------------------------------------------------
  // Dependency closure and resource mode
  // ---------------------------------------------------------------------------

  /** `q` is `p` or reachable from `p` through dependency edges. */
  predicate Reaches(g: PatchGraph, p: PatchId, q: PatchId)
    requires p in g
    decreases p
  {
    p == q || exists d :: d in g[p].dependencies && Reaches(g, d, q)
  }

  /** Every patch in `ps` together with every patch reachable from one of them. */
  ghost function Closure(g: PatchGraph, ps: set<PatchId>): set<PatchId>
    requires ps <= g.Keys
  {
    set q | q in g && exists p :: p in ps && Reaches(g, p, q)
  }

  /** No dependency edge leaves `s`. */
  ghost predicate DependencyClosed(g: PatchGraph, s: set<PatchId>)
    requires s <= g.Keys
  {
    forall p, d :: p in s && d in g[p].dependencies ==> d in s
  }

  /**
   * The local helper `anyRecursively` of `plusAssign`, with the predicate
   * `it is K` for a marker type `K`.
   */
  predicate AnyRecursively(g: PatchGraph, p: PatchId, kind: PatchKind)
    requires p in g
    decreases p
  {
    g[p].kind == kind || exists d :: d in g[p].dependencies && AnyRecursively(g, d, kind)
  }

  /** The decoding the patches in `ps` need, judged over their whole closure. */
  ghost function RequiredMode(g: PatchGraph, ps: set<PatchId>): ResourceMode
    requires ps <= g.Keys
  {
    if exists q :: q in Closure(g, ps) && g[q].kind == ResourcePatch then FULL
    else if exists q :: q in Closure(g, ps) && g[q].kind == RawResourcePatch then RAW_ONLY
    else NONE
  }

  lemma {:induction false} ReachesTransitive(g: PatchGraph, p: PatchId, q: PatchId, r: PatchId)
    requires p in g && q in g && Reaches(g, p, q) && Reaches(g, q, r)
    ensures Reaches(g, p, r)
    decreases p
  {
    if p != q {
      var d :| d in g[p].dependencies && Reaches(g, d, q);
      DependencyBelow(g, p, d);
      ReachesTransitive(g, d, q, r);
    }
  }

  lemma {:induction false} ReachesStaysInGraph(g: PatchGraph, p: PatchId, q: PatchId)
    requires p in g && Reaches(g, p, q)
    ensures q in g
    decreases p
  {
    if p != q {
      var d :| d in g[p].dependencies && Reaches(g, d, q);
      DependencyBelow(g, p, d);
      ReachesStaysInGraph(g, d, q);
    }
  }

  /** `anyRecursively` holds iff some patch reachable from `p` has the marker. */
  lemma {:induction false} AnyRecursivelyIffReachable(g: PatchGraph, p: PatchId, kind: PatchKind)
    requires p in g
    ensures AnyRecursively(g, p, kind) <==> exists q :: q in g && Reaches(g, p, q) && g[q].kind == kind
    decreases p
  {
    if AnyRecursively(g, p, kind) && g[p].kind != kind {
      var d :| d in g[p].dependencies && AnyRecursively(g, d, kind);
      DependencyBelow(g, p, d);
      AnyRecursivelyIffReachable(g, d, kind);
      var q :| q in g && Reaches(g, d, q) && g[q].kind == kind;
      assert Reaches(g, p, q);
    }
    if q :| q in g && Reaches(g, p, q) && g[q].kind == kind {
      if p != q {
        var d :| d in g[p].dependencies && Reaches(g, d, q);
        DependencyBelow(g, p, d);
        AnyRecursivelyIffReachable(g, d, kind);
      }
    }
  }

  /** The closure contains the requested patches and is closed under dependencies. */
  lemma ClosureIsDependencyClosed(g: PatchGraph, ps: set<PatchId>)
    requires ps <= g.Keys
    ensures ps <= Closure(g, ps) <= g.Keys
    ensures DependencyClosed(g, Closure(g, ps))
  {
    forall p | p in ps ensures p in Closure(g, ps) {
      assert Reaches(g, p, p);
    }
    forall q, d | q in Closure(g, ps) && d in g[q].dependencies
      ensures d in Closure(g, ps)
    {
      var p :| p in ps && Reaches(g, p, q);
      DependencyBelow(g, q, d);
      assert Reaches(g, d, d);
      assert Reaches(g, q, d);
      ReachesTransitive(g, p, q, d);
    }
  }

  lemma UnionIsDependencyClosed(g: PatchGraph, a: set<PatchId>, b: set<PatchId>)
    requires a <= g.Keys && b <= g.Keys && DependencyClosed(g, a) && DependencyClosed(g, b)
    ensures DependencyClosed(g, a + b)
  {
  }

  /** The closure is the least dependency-closed set containing the requested patches. */
  lemma ClosureIsLeast(g: PatchGraph, ps: set<PatchId>, s: set<PatchId>)
    requires ps <= s <= g.Keys && DependencyClosed(g, s)
    ensures Closure(g, ps) <= s
  {
    forall q | q in Closure(g, ps) ensures q in s {
      var p :| p in ps && Reaches(g, p, q);
      ReachableFromClosedSet(g, s, p, q);
    }
  }

  lemma {:induction false} ReachableFromClosedSet(g: PatchGraph, s: set<PatchId>, p: PatchId, q: PatchId)
    requires s <= g.Keys && DependencyClosed(g, s) && p in s && Reaches(g, p, q)
    ensures q in s
    decreases p
  {
    if p != q {
      var d :| d in g[p].dependencies && Reaches(g, d, q);
      DependencyBelow(g, p, d);
      ReachableFromClosedSet(g, s, d, q);
    }
  }

  lemma ClosureOfUnion(g: PatchGraph, a: set<PatchId>, b: set<PatchId>)
    requires a <= g.Keys && b <= g.Keys
    ensures Closure(g, a + b) == Closure(g, a) + Closure(g, b)
  {
  }

  /** The first `i` dependencies of `p`. */
  ghost function DependencyPrefix(g: PatchGraph, p: PatchId, i: nat): (s: set<PatchId>)
    requires p in g && i <= |g[p].dependencies|
    ensures s <= g.Keys
  {
    set j | 0 <= j < i :: g[p].dependencies[j]
  }

  lemma ClosureOfPrefix(g: PatchGraph, p: PatchId, i: nat)
    requires p in g && i < |g[p].dependencies|
    ensures g[p].dependencies[i] in g
    ensures Closure(g, DependencyPrefix(g, p, i + 1))
         == Closure(g, DependencyPrefix(g, p, i)) + Closure(g, {g[p].dependencies[i]})
    ensures Closure(g, DependencyPrefix(g, p, i)) <= g.Keys
  {
    assert DependencyPrefix(g, p, i + 1) == DependencyPrefix(g, p, i) + {g[p].dependencies[i]};
    ClosureOfUnion(g, DependencyPrefix(g, p, i), {g[p].dependencies[i]});
  }

  /** One more turn of the dependency loop of `addRecursively` extends the added prefix by one. */
  lemma AddedOneMoreDependency(
    g: PatchGraph, start: set<PatchId>, p: PatchId, i: nat, before: set<PatchId>, after: set<PatchId>)
    requires p in g && i < |g[p].dependencies|
    requires before == start + {p} + Closure(g, DependencyPrefix(g, p, i))
    requires after == before + Closure(g, {g[p].dependencies[i]})
    ensures after == start + {p} + Closure(g, DependencyPrefix(g, p, i + 1))
  {
    ClosureOfPrefix(g, p, i);
  }

  /** What `addRecursively` adds for `p`: `p` itself and the closure of its dependencies. */
  lemma ClosureOfOne(g: PatchGraph, p: PatchId)
    requires p in g
    ensures Closure(g, {p}) == {p} + Closure(g, DependencyPrefix(g, p, |g[p].dependencies|))
  {
    var deps := DependencyPrefix(g, p, |g[p].dependencies|);
    forall q | q in Closure(g, {p}) ensures q in {p} + Closure(g, deps) {
      if q != p {
        var d :| d in g[p].dependencies && Reaches(g, d, q);
        var k :| 0 <= k < |g[p].dependencies| && g[p].dependencies[k] == d;
        assert d in deps;
      }
    }
  }

  /** One more turn of the loop of `plusAssign` adds the closure of one more requested patch. */
  lemma AddedOneMoreRequested(
    g: PatchGraph, start: set<PatchId>, done: set<PatchId>, p: PatchId, before: set<PatchId>, after: set<PatchId>)
    requires done <= g.Keys && p in g
    requires before == start + Closure(g, done)
    requires after == before + Closure(g, {p})
    ensures after == start + Closure(g, done + {p})
  {
    ClosureOfUnion(g, done, {p});
  }

  /** After the dependency loop of `addRecursively`, exactly the closure of `p` has been added. */
  lemma AddedAllDependencies(g: PatchGraph, start: set<PatchId>, p: PatchId, after: set<PatchId>)
    requires p in g
    requires after == start + {p} + Closure(g, DependencyPrefix(g, p, |g[p].dependencies|))
    ensures after == start + Closure(g, {p})
  {
    ClosureOfOne(g, p);
  }

  /** A marker at any dependency depth below a registered patch raises the mode to its level. */
  lemma {:induction false} DeepMarkerCounts(g: PatchGraph, ps: set<PatchId>, p: PatchId, q: PatchId)
    requires ps <= g.Keys && p in ps && Reaches(g, p, q)
    ensures q in g
    ensures g[q].kind == ResourcePatch ==> RequiredMode(g, ps) == FULL
    ensures g[q].kind == RawResourcePatch ==> RequiredMode(g, ps) != NONE
  {
    ReachesStaysInGraph(g, p, q);
    assert q in Closure(g, ps);
  }

  /** Registering more patches never lowers the required mode. */
  lemma RequiredModeMonotonic(g: PatchGraph, a: set<PatchId>, b: set<PatchId>)
    requires a <= b <= g.Keys
    ensures RequiredMode(g, a) == FULL ==> RequiredMode(g, b) == FULL
    ensures RequiredMode(g, a) != NONE ==> RequiredMode(g, b) != NONE
  {
    ClosureOfUnion(g, a, b - a);
    assert a + (b - a) == b;
  }

  // ---------------------------------------------------------------------------
  // Results, the memo and one `execute`
  // ---------------------------------------------------------------------------

  datatype Outcome = Completes | Raises

  /** What a patch's apply block and finalize block do when run. */
  datatype Bodies = Bodies(apply: Outcome, finalize: Outcome)

  type BodyOracle = map<PatchId, Bodies>

  /** The `PatchException`s the engine produces, by kind rather than message. */
  datatype Failure =
    | ApplyFault
    | FailedPreviously
    | DependencyFailed(dependency: PatchId, cause: Failure)
    | FinalizeFault

  /** `PatchResult`: the patch and, if it failed, its exception. */
  datatype PatchResult = PatchResult(patch: PatchId, exception: Option<Failure>)

  function Succeeded(p: PatchId): PatchResult {
    PatchResult(p, None)
  }

  /**
   * The memo `executedPatches`, a `LinkedHashMap` from patch to result, as its
   * entries in insertion order; the key of an entry is its `patch`.
   */
  type Memo = seq<PatchResult>

  function Lookup(memo: Memo, p: PatchId): (r: Option<PatchResult>)
    ensures r.Some? ==> r.value in memo && r.value.patch == p
    ensures r.None? ==> forall x :: x in memo ==> x.patch != p
  {
    if memo == [] then None
    else if memo[0].patch == p then Some(memo[0])
    else Lookup(memo[1..], p)
  }

  /** Each patch is stored at most once: its apply block ran at most once. */
  ghost predicate UniqueKeys(memo: Memo) {
    forall i, j :: 0 <= i < j < |memo| ==> memo[i].patch != memo[j].patch
  }

  /**
   * The invariant of the memo during a run: every entry is a declared patch
   * stored once; its result is what its apply block did; and it was stored only
   * after every one of its dependencies had been stored as a success.
   */
  ghost predicate MemoValid(g: PatchGraph, bodies: BodyOracle, memo: Memo) {
    && (forall i :: 0 <= i < |memo| ==> memo[i].patch in g && memo[i].patch in bodies)
    && UniqueKeys(memo)
    && (forall i :: 0 <= i < |memo| ==>
          memo[i].exception == if bodies[memo[i].patch].apply == Completes then None else Some(ApplyFault))
    && (forall i, d :: 0 <= i < |memo| && d in g[memo[i].patch].dependencies ==>
          exists j :: 0 <= j < i && memo[j] == Succeeded(d))
  }

  datatype Step = Step(result: PatchResult, memo: Memo)

  datatype DependencyStep =
    | AllSucceeded(memo: Memo)
    | FailedAt(index: nat, cause: Failure, memo: Memo)

  /**
   * `Patch.execute(executedPatches)`: reuse a memoised success; turn a
   * memoised failure into "failed previously"; otherwise run the dependencies
   * in order and, only if all succeed, the apply block, whose result alone is
   * memoised.
   */
  function ExecuteStep(g: PatchGraph, bodies: BodyOracle, memo: Memo, p: PatchId): (s: Step)
    requires p in g && g.Keys <= bodies.Keys
    ensures s.result.patch == p
    ensures memo <= s.memo
    ensures s.result.exception.None? ==> s.result in s.memo
    decreases p, 1
  {
    match Lookup(memo, p)
    case Some(previous) =>
      if previous.exception.None? then Step(previous, memo)
      else Step(PatchResult(p, Some(FailedPreviously)), memo)
    case None =>
      match DependenciesStep(g, bodies, memo, p, 0)
      case FailedAt(k, cause, after) =>
        Step(PatchResult(p, Some(DependencyFailed(g[p].dependencies[k], cause))), after)
      case AllSucceeded(after) =>
        var result := PatchResult(p, if bodies[p].apply == Completes then None else Some(ApplyFault));
        Step(result, after + [result])
  }

  /**
   * The dependency loop of `execute`, from the `i`-th dependency on: the first
   * dependency whose execution fails stops the loop.
   */
  function DependenciesStep(g: PatchGraph, bodies: BodyOracle, memo: Memo, p: PatchId, i: nat): (s: DependencyStep)
    requires p in g && g.Keys <= bodies.Keys && i <= |g[p].dependencies|
    ensures memo <= s.memo
    ensures s.FailedAt? ==> i <= s.index < |g[p].dependencies|
    decreases p, 0, |g[p].dependencies| - i
  {
    var deps := g[p].dependencies;
    if i == |deps| then AllSucceeded(memo)
    else
      var step := ExecuteStep(g, bodies, memo, deps[i]);
      match step.result.exception
      case Some(cause) => FailedAt(i, cause, step.memo)
      case None => DependenciesStep(g, bodies, step.memo, p, i + 1)
  }

  /**
   * `execute` of `p` memoises only `p` and patches it depends on, all numbered
   * at most `p`; the dependency loop of `p` memoises only patches below `p`.
   */
  lemma {:induction false} ExecuteAddsBelow(g: PatchGraph, bodies: BodyOracle, memo: Memo, p: PatchId, s: Step)
    requires p in g && g.Keys <= bodies.Keys && s == ExecuteStep(g, bodies, memo, p)
    ensures forall i :: |memo| <= i < |s.memo| ==> s.memo[i].patch <= p
    decreases p, 1
  {
    if Lookup(memo, p).None? {
      var ds := DependenciesStep(g, bodies, memo, p, 0);
      DependenciesAddBelow(g, bodies, memo, p, 0, ds);
      if ds.AllSucceeded? {
        assert s.memo == ds.memo + [s.result];
        forall i | |memo| <= i < |s.memo| ensures s.memo[i].patch <= p {
          if i < |ds.memo| {
            assert s.memo[i] == ds.memo[i];
          }
        }
      }
    }
  }

  lemma {:induction false} DependenciesAddBelow(
    g: PatchGraph, bodies: BodyOracle, memo: Memo, p: PatchId, i: nat, s: DependencyStep)
    requires p in g && g.Keys <= bodies.Keys && i <= |g[p].dependencies|
    requires s == DependenciesStep(g, bodies, memo, p, i)
    ensures forall j :: |memo| <= j < |s.memo| ==> s.memo[j].patch < p
    decreases p, 0, |g[p].dependencies| - i
  {
    var deps := g[p].dependencies;
    if i < |deps| {
      DependencyBelow(g, p, deps[i]);
      var step := ExecuteStep(g, bodies, memo, deps[i]);
      ExecuteAddsBelow(g, bodies, memo, deps[i], step);
      if step.result.exception.None? {
        DependenciesAddBelow(g, bodies, step.memo, p, i + 1, s);
        forall j | |memo| <= j < |s.memo| ensures s.memo[j].patch < p {
          if j < |step.memo| {
            assert s.memo[j] == step.memo[j];
          }
        }
      }
    }
  }

  /**
   * The dependency loop stops at the first failing dependency: every
   * dependency it passed (all of them, if none failed) is memoised as a success.
   */
  lemma {:induction false} PassedDependenciesSucceeded(
    g: PatchGraph, bodies: BodyOracle, memo: Memo, p: PatchId, i: nat, s: DependencyStep)
    requires p in g && g.Keys <= bodies.Keys && i <= |g[p].dependencies|
    requires s == DependenciesStep(g, bodies, memo, p, i)
    ensures s.FailedAt? ==> forall j :: i <= j < s.index ==> Succeeded(g[p].dependencies[j]) in s.memo
    ensures s.AllSucceeded? ==> forall j :: i <= j < |g[p].dependencies| ==> Succeeded(g[p].dependencies[j]) in s.memo
    decreases |g[p].dependencies| - i
  {
    var deps := g[p].dependencies;
    if i < |deps| {
      var step := ExecuteStep(g, bodies, memo, deps[i]);
      if step.result.exception.None? {
        PassedDependenciesSucceeded(g, bodies, step.memo, p, i + 1, s);
      }
    }
  }

  /**
   * The dependency loop stops only at a dependency whose `execute` failed: the
   * failure it reports is that dependency's own result, from a memo that
   * extends the one the loop started with.
   */
  lemma {:induction false} LoopStopsAtFailingDependency(
    g: PatchGraph, bodies: BodyOracle, memo: Memo, p: PatchId, i: nat, s: DependencyStep)
    requires p in g && g.Keys <= bodies.Keys && i <= |g[p].dependencies|
    requires s == DependenciesStep(g, bodies, memo, p, i)
    ensures s.FailedAt? ==>
      var failing := g[p].dependencies[s.index];
      exists m :: memo <= m && ExecuteStep(g, bodies, m, failing) == Step(PatchResult(failing, Some(s.cause)), s.memo)
    decreases |g[p].dependencies| - i
  {
    var deps := g[p].dependencies;
    if i < |deps| {
      var step := ExecuteStep(g, bodies, memo, deps[i]);
      if step.result.exception.None? {
        LoopStopsAtFailingDependency(g, bodies, step.memo, p, i + 1, s);
        if s.FailedAt? {
          var failing := deps[s.index];
          var m :| step.memo <= m && ExecuteStep(g, bodies, m, failing) == Step(PatchResult(failing, Some(s.cause)), s.memo);
          assert memo <= m;
        }
      } else {
        assert ExecuteStep(g, bodies, memo, deps[i]) == Step(PatchResult(deps[i], Some(s.cause)), s.memo);
      }
    }
  }

  lemma {:induction false} LookupAppend(a: Memo, b: Memo, p: PatchId)
    ensures Lookup(a + b, p) == if Lookup(a, p).Some? then Lookup(a, p) else Lookup(b, p)
  {
    if a == [] {
      assert a + b == b;
    } else {
      assert (a + b)[0] == a[0];
      assert (a + b)[1..] == a[1..] + b;
      LookupAppend(a[1..], b, p);
    }
  }

  /** A memoised success is returned as it is, and nothing runs. */
  lemma MemoisedSuccessIsReused(g: PatchGraph, bodies: BodyOracle, memo: Memo, p: PatchId)
    requires p in g && g.Keys <= bodies.Keys
    requires Lookup(memo, p).Some? && Lookup(memo, p).value.exception.None?
    ensures ExecuteStep(g, bodies, memo, p) == Step(Lookup(memo, p).value, memo)
  {
  }

  /** A memoised failure yields a new "failed previously" failure, and nothing runs. */
  lemma MemoisedFailureFailsPreviously(g: PatchGraph, bodies: BodyOracle, memo: Memo, p: PatchId)
    requires p in g && g.Keys <= bodies.Keys
    requires Lookup(memo, p).Some? && Lookup(memo, p).value.exception.Some?
    ensures ExecuteStep(g, bodies, memo, p) == Step(PatchResult(p, Some(FailedPreviously)), memo)
  {
  }

  /**
   * A patch not yet memoised whose dependency loop stops at a failing
   * dependency returns a failure citing exactly that dependency and carrying
   * its exception; every dependency before it succeeded; its apply block does
   * not run, so the memo is the loop's and holds no entry for the patch.
   */
  lemma DependencyFailureSkipsBody(g: PatchGraph, bodies: BodyOracle, memo: Memo, p: PatchId)
    requires p in g && g.Keys <= bodies.Keys && Lookup(memo, p).None?
    requires DependenciesStep(g, bodies, memo, p, 0).FailedAt?
    ensures var ds := DependenciesStep(g, bodies, memo, p, 0);
      var s := ExecuteStep(g, bodies, memo, p);
      var failing := g[p].dependencies[ds.index];
      && s.result == PatchResult(p, Some(DependencyFailed(failing, ds.cause)))
      && s.memo == ds.memo
      && Lookup(s.memo, p).None?
      && (forall j :: 0 <= j < ds.index ==> Succeeded(g[p].dependencies[j]) in s.memo)
      && exists m :: memo <= m && ExecuteStep(g, bodies, m, failing) == Step(PatchResult(failing, Some(ds.cause)), ds.memo)
  {
    var s := ExecuteStep(g, bodies, memo, p);
    var ds := DependenciesStep(g, bodies, memo, p, 0);
    PassedDependenciesSucceeded(g, bodies, memo, p, 0, ds);
    LoopStopsAtFailingDependency(g, bodies, memo, p, 0, ds);
    DependenciesAddBelow(g, bodies, memo, p, 0, ds);
    assert s.memo == ds.memo;
    assert s.memo[..|memo|] == memo;
    assert s.memo == memo + s.memo[|memo|..];
    LookupAppend(memo, s.memo[|memo|..], p);
    assert Lookup(s.memo[|memo|..], p).None?;
  }

  /**
   * A patch not yet memoised whose dependencies all succeed runs its apply
   * block; the result (success, or the wrapped fault) is memoised last.
   */
  lemma BodyResultIsMemoised(g: PatchGraph, bodies: BodyOracle, memo: Memo, p: PatchId)
    requires p in g && g.Keys <= bodies.Keys && Lookup(memo, p).None?
    requires DependenciesStep(g, bodies, memo, p, 0).AllSucceeded?
    ensures var s := ExecuteStep(g, bodies, memo, p);
      && s.result.exception == (if bodies[p].apply == Completes then None else Some(ApplyFault))
      && s.memo[|s.memo| - 1] == s.result
      && forall d :: d in g[p].dependencies ==> Succeeded(d) in s.memo[..|s.memo| - 1]
  {
    var s := ExecuteStep(g, bodies, memo, p);
    var ds := DependenciesStep(g, bodies, memo, p, 0);
    var after := ds.memo;
    PassedDependenciesSucceeded(g, bodies, memo, p, 0, ds);
    assert s.memo[..|s.memo| - 1] == after;
    forall d | d in g[p].dependencies ensures Succeeded(d) in after {
      var k :| 0 <= k < |g[p].dependencies| && g[p].dependencies[k] == d;
    }
  }

  lemma MemoDependencyBefore(g: PatchGraph, bodies: BodyOracle, memo: Memo, i: nat, d: PatchId)
    requires MemoValid(g, bodies, memo) && i < |memo| && d in g[memo[i].patch].dependencies
    ensures exists j :: 0 <= j < i && memo[j] == Succeeded(d)
  {
    // the invariant's quantifier fires on `Succeeded(d)` together with `memo[i]`
    assert Succeeded(d).patch == d && memo[i] in memo;
  }

  lemma MemoValidAppend(g: PatchGraph, bodies: BodyOracle, memo: Memo, r: PatchResult)
    requires MemoValid(g, bodies, memo)
    requires r.patch in g && r.patch in bodies && Lookup(memo, r.patch).None?
    requires r.exception == if bodies[r.patch].apply == Completes then None else Some(ApplyFault)
    requires forall d :: d in g[r.patch].dependencies ==> Succeeded(d) in memo
    ensures MemoValid(g, bodies, memo + [r])
  {
    var m := memo + [r];
    forall i, d | 0 <= i < |m| && d in g[m[i].patch].dependencies
      ensures exists j :: 0 <= j < i && m[j] == Succeeded(d)
    {
      if i < |memo| {
        assert m[i] == memo[i];
        MemoDependencyBefore(g, bodies, memo, i, d);
        var j :| 0 <= j < i && memo[j] == Succeeded(d);
        assert m[j] == Succeeded(d);
      } else {
        var j :| 0 <= j < |memo| && memo[j] == Succeeded(d);
        assert m[j] == Succeeded(d);
      }
    }
  }

  /** `execute` keeps the memo invariant. */
  lemma {:induction false} ExecutePreservesMemo(g: PatchGraph, bodies: BodyOracle, memo: Memo, p: PatchId)
    requires p in g && g.Keys <= bodies.Keys && MemoValid(g, bodies, memo)
    ensures MemoValid(g, bodies, ExecuteStep(g, bodies, memo, p).memo)
    decreases p, 1
  {
    if Lookup(memo, p).None? {
      var ds := DependenciesStep(g, bodies, memo, p, 0);
      DependenciesPreserveMemo(g, bodies, memo, p, 0);
      PassedDependenciesSucceeded(g, bodies, memo, p, 0, ds);
      DependenciesAddBelow(g, bodies, memo, p, 0, ds);
      if ds.AllSucceeded? {
        var s := ExecuteStep(g, bodies, memo, p);
        assert ds.memo == memo + ds.memo[|memo|..];
        LookupAppend(memo, ds.memo[|memo|..], p);
        assert Lookup(ds.memo[|memo|..], p).None?;
        forall d | d in g[p].dependencies ensures Succeeded(d) in ds.memo {
          var k :| 0 <= k < |g[p].dependencies| && g[p].dependencies[k] == d;
        }
        MemoValidAppend(g, bodies, ds.memo, s.result);
      }
    }
  }

  lemma {:induction false} DependenciesPreserveMemo(g: PatchGraph, bodies: BodyOracle, memo: Memo, p: PatchId, i: nat)
    requires p in g && g.Keys <= bodies.Keys && i <= |g[p].dependencies| && MemoValid(g, bodies, memo)
    ensures MemoValid(g, bodies, DependenciesStep(g, bodies, memo, p, i).memo)
    decreases p, 0, |g[p].dependencies| - i
  {
    var deps := g[p].dependencies;
    if i < |deps| {
      var step := ExecuteStep(g, bodies, memo, deps[i]);
      ExecutePreservesMemo(g, bodies, memo, deps[i]);
      if step.result.exception.None? {
        DependenciesPreserveMemo(g, bodies, step.memo, p, i + 1);
      }
    }
  }

  // ---------------------------------------------------------------------------
  // The apply phase
  // ---------------------------------------------------------------------------

  datatype Run = Run(results: seq<PatchResult>, memo: Memo)

  /** The apply phase over `order`: one `execute` per patch, each result emitted. */
  function ApplyRun(g: PatchGraph, bodies: BodyOracle, memo: Memo, order: seq<PatchId>): (r: Run)
    requires g.Keys <= bodies.Keys && forall p :: p in order ==> p in g
    ensures |r.results| == |order|
  {
    if order == [] then Run([], memo)
    else
      var before := ApplyRun(g, bodies, memo, order[..|order| - 1]);
      var step := ExecuteStep(g, bodies, before.memo, order[|order| - 1]);
      Run(before.results + [step.result], step.memo)
  }

  /** One more patch of `order` adds its `execute` result to the run. */
  lemma ApplyRunExtends(
    g: PatchGraph, bodies: BodyOracle, start: Memo, order: seq<PatchId>, i: nat,
    applied: seq<PatchResult>, memo: Memo, result: PatchResult, after: Memo)
    requires g.Keys <= bodies.Keys && (forall p :: p in order ==> p in g) && i < |order|
    requires Run(applied, memo) == ApplyRun(g, bodies, start, order[..i])
    requires Step(result, after) == ExecuteStep(g, bodies, memo, order[i])
    ensures Run(applied + [result], after) == ApplyRun(g, bodies, start, order[..i + 1])
  {
    var prefix := order[..i + 1];
    assert prefix[..|prefix| - 1] == order[..i] && prefix[|prefix| - 1] == order[i];
  }

  /**
   * The apply phase emits exactly one result per patch of `order`, in that
   * order, and keeps the memo invariant.
   */
  lemma {:induction false} ApplyRunEmitsEach(g: PatchGraph, bodies: BodyOracle, memo: Memo, order: seq<PatchId>)
    requires g.Keys <= bodies.Keys && (forall p :: p in order ==> p in g) && MemoValid(g, bodies, memo)
    ensures var r := ApplyRun(g, bodies, memo, order);
      && |r.results| == |order|
      && (forall i :: 0 <= i < |order| ==> r.results[i].patch == order[i])
      && MemoValid(g, bodies, r.memo)
      && memo <= r.memo
  {
    if order != [] {
      var init := order[..|order| - 1];
      ApplyRunEmitsEach(g, bodies, memo, init);
      ExecutePreservesMemo(g, bodies, ApplyRun(g, bodies, memo, init).memo, order[|order| - 1]);
    }
  }

  // ---------------------------------------------------------------------------
  // The finalize phase
  // ---------------------------------------------------------------------------

  /** The memoised successes, in insertion order. */
  function Successes(memo: Memo): (s: seq<PatchResult>)
    ensures forall x :: x in s <==> x in memo && x.exception.None?
  {
    if memo == [] then []
    else
      var last := memo[|memo| - 1];
      Successes(memo[..|memo| - 1]) + (if last.exception.None? then [last] else [])
  }

  function Reversed<T>(s: seq<T>): (r: seq<T>)
    ensures |r| == |s| && forall k :: 0 <= k < |s| ==> r[k] == s[|s| - 1 - k]
  {
    if s == [] then [] else Reversed(s[1..]) + [s[0]]
  }

  /** The order in which the finalize phase visits patches: successes, last inserted first. */
  function FinalizeOrder(memo: Memo): seq<PatchResult> {
    Reversed(Successes(memo))
  }

  /** What the finalize phase emits for one memoised success `r`. */
  function FinalizeOutput(g: PatchGraph, bodies: BodyOracle, r: PatchResult): (out: seq<PatchResult>)
    requires r.patch in g && r.patch in bodies
    ensures |out| <= 1 && forall x :: x in out ==> x.patch == r.patch
  {
    if bodies[r.patch].finalize == Raises then [PatchResult(r.patch, Some(FinalizeFault))]
    else if g[r.patch].name.Some? then [r]
    else []
  }

  /** The finalize loop over `visit`: at most one result per visited patch, in visiting order. */
  function FinalizeVisit(g: PatchGraph, bodies: BodyOracle, visit: seq<PatchResult>): (out: seq<PatchResult>)
    requires forall x :: x in visit ==> x.patch in g && x.patch in bodies
    ensures |out| <= |visit|
  {
    if visit == [] then []
    else
      FinalizeVisit(g, bodies, visit[..|visit| - 1]) + FinalizeOutput(g, bodies, visit[|visit| - 1])
  }

  /** The results the finalize phase emits. */
  function FinalizePhase(g: PatchGraph, bodies: BodyOracle, memo: Memo): seq<PatchResult>
    requires forall x :: x in memo ==> x.patch in g && x.patch in bodies
  {
    FinalizeVisit(g, bodies, FinalizeOrder(memo))
  }

  /**
   * Every visited patch whose finalize block raises yields a finalize failure,
   * whatever the others do; one that completes is emitted unchanged if named
   * and not at all if unnamed; nothing else is emitted.
   */
  lemma {:induction false} FinalizeVisitEmits(g: PatchGraph, bodies: BodyOracle, visit: seq<PatchResult>)
    requires forall x :: x in visit ==> x.patch in g && x.patch in bodies
    ensures var out := FinalizeVisit(g, bodies, visit);
      && (forall x :: x in visit && bodies[x.patch].finalize == Raises ==>
            PatchResult(x.patch, Some(FinalizeFault)) in out)
      && (forall x :: x in visit && bodies[x.patch].finalize == Completes && g[x.patch].name.Some? ==> x in out)
      && (forall y :: y in out ==>
            exists x :: x in visit && y.patch == x.patch &&
              if bodies[x.patch].finalize == Raises then y.exception == Some(FinalizeFault)
              else y == x && g[x.patch].name.Some?)
  {
    var out := FinalizeVisit(g, bodies, visit);
    FinalizeVisitCovers(g, bodies, visit, out);
    FinalizeVisitOnly(g, bodies, visit, out);
    forall x | x in visit
      ensures bodies[x.patch].finalize == Raises ==> PatchResult(x.patch, Some(FinalizeFault)) in out
      ensures bodies[x.patch].finalize == Completes && g[x.patch].name.Some? ==> x in out
    {
      var k :| 0 <= k < |visit| && visit[k] == x;
    }
    forall y | y in out
      ensures exists x :: x in visit && y.patch == x.patch &&
                (if bodies[x.patch].finalize == Raises then y.exception == Some(FinalizeFault)
                 else y == x && g[x.patch].name.Some?)
    {
      var k :| 0 <= k < |visit| && y in FinalizeOutput(g, bodies, visit[k]);
      assert visit[k] in visit;
    }
  }

  /** Everything the finalize phase derives from a visited patch is emitted. */
  lemma {:induction false} FinalizeVisitCovers(
    g: PatchGraph, bodies: BodyOracle, visit: seq<PatchResult>, out: seq<PatchResult>)
    requires forall x :: x in visit ==> x.patch in g && x.patch in bodies
    requires out == FinalizeVisit(g, bodies, visit)
    ensures forall k, y :: 0 <= k < |visit| && y in FinalizeOutput(g, bodies, visit[k]) ==> y in out
  {
    if visit != [] {
      var init := visit[..|visit| - 1];
      var before := FinalizeVisit(g, bodies, init);
      FinalizeVisitCovers(g, bodies, init, before);
      forall k, y | 0 <= k < |visit| && y in FinalizeOutput(g, bodies, visit[k]) ensures y in out {
        if k < |init| {
          assert visit[k] == init[k];
        }
      }
    }
  }

  /** Everything the finalize phase emits is derived from some visited patch. */
  lemma {:induction false} FinalizeVisitOnly(
    g: PatchGraph, bodies: BodyOracle, visit: seq<PatchResult>, out: seq<PatchResult>)
    requires forall x :: x in visit ==> x.patch in g && x.patch in bodies
    requires out == FinalizeVisit(g, bodies, visit)
    ensures forall y :: y in out ==> exists k :: 0 <= k < |visit| && y in FinalizeOutput(g, bodies, visit[k])
  {
    if visit != [] {
      var init := visit[..|visit| - 1];
      var before := FinalizeVisit(g, bodies, init);
      FinalizeVisitOnly(g, bodies, init, before);
      forall y | y in out ensures exists k :: 0 <= k < |visit| && y in FinalizeOutput(g, bodies, visit[k]) {
        if y in before {
          var k :| 0 <= k < |init| && y in FinalizeOutput(g, bodies, init[k]);
          assert visit[k] == init[k];
        } else {
          assert y in FinalizeOutput(g, bodies, visit[|visit| - 1]);
        }
      }
    }
  }

  /** The finalize loop over a prefix of `visit` emits a prefix of what the whole loop emits. */
  lemma {:induction false} FinalizeVisitPrefix(g: PatchGraph, bodies: BodyOracle, visit: seq<PatchResult>, k: nat)
    requires forall x :: x in visit ==> x.patch in g && x.patch in bodies
    requires k <= |visit|
    ensures FinalizeVisit(g, bodies, visit[..k]) <= FinalizeVisit(g, bodies, visit)
    decreases |visit|
  {
    if k < |visit| {
      var init := visit[..|visit| - 1];
      assert init[..k] == visit[..k];
      FinalizeVisitPrefix(g, bodies, init, k);
    } else {
      assert visit[..k] == visit;
    }
  }

  /** One more visited patch adds its finalize output to the end of what was emitted. */
  lemma FinalizeVisitStep(g: PatchGraph, bodies: BodyOracle, visit: seq<PatchResult>, k: nat)
    requires forall x :: x in visit ==> x.patch in g && x.patch in bodies
    requires k < |visit|
    ensures FinalizeVisit(g, bodies, visit[..k + 1])
         == FinalizeVisit(g, bodies, visit[..k]) + FinalizeOutput(g, bodies, visit[k])
  {
    var prefix := visit[..k + 1];
    assert prefix[..|prefix| - 1] == visit[..k] && prefix[|prefix| - 1] == visit[k];
  }

  /**
   * What the finalize step of `visit[k]` emits starts right after everything
   * emitted for the patches visited before it.
   */
  lemma FinalizeVisitAt(
    g: PatchGraph, bodies: BodyOracle, visit: seq<PatchResult>, k: nat,
    out: seq<PatchResult>, before: seq<PatchResult>, emitted: seq<PatchResult>)
    requires forall x :: x in visit ==> x.patch in g && x.patch in bodies
    requires k < |visit| && out == FinalizeVisit(g, bodies, visit)
    requires before == FinalizeVisit(g, bodies, visit[..k]) && emitted == FinalizeOutput(g, bodies, visit[k])
    requires emitted != []
    ensures |before| < |out| && out[|before|] == emitted[0]
  {
    FinalizeVisitStep(g, bodies, visit, k);
    FinalizeVisitPrefix(g, bodies, visit, k + 1);
    assert (before + emitted)[|before|] == emitted[0];
  }

  /** Whatever a visited patch emits comes before anything a later patch emits. */
  lemma FinalizeVisitGrows(g: PatchGraph, bodies: BodyOracle, visit: seq<PatchResult>, i: nat, j: nat)
    requires forall x :: x in visit ==> x.patch in g && x.patch in bodies
    requires i < j < |visit|
    ensures |FinalizeVisit(g, bodies, visit[..i])| + |FinalizeOutput(g, bodies, visit[i])|
         <= |FinalizeVisit(g, bodies, visit[..j])|
  {
    FinalizeVisitStep(g, bodies, visit, i);
    var upToJ := visit[..j];
    assert upToJ[..i + 1] == visit[..i + 1];
    FinalizeVisitPrefix(g, bodies, upToJ, i + 1);
  }

  /**
   * The finalize phase emits in visiting order: when two visited patches both
   * emit, the one visited first is emitted first.
   */
  lemma FinalizeVisitKeepsOrder(g: PatchGraph, bodies: BodyOracle, visit: seq<PatchResult>, i: nat, j: nat)
    requires forall x :: x in visit ==> x.patch in g && x.patch in bodies
    requires i < j < |visit|
    requires FinalizeOutput(g, bodies, visit[i]) != [] && FinalizeOutput(g, bodies, visit[j]) != []
    ensures var out := FinalizeVisit(g, bodies, visit);
      exists m, n :: 0 <= m < n < |out|
        && out[m] == FinalizeOutput(g, bodies, visit[i])[0]
        && out[n] == FinalizeOutput(g, bodies, visit[j])[0]
  {
    var out := FinalizeVisit(g, bodies, visit);
    var beforeI, beforeJ := FinalizeVisit(g, bodies, visit[..i]), FinalizeVisit(g, bodies, visit[..j]);
    FinalizeVisitAt(g, bodies, visit, i, out, beforeI, FinalizeOutput(g, bodies, visit[i]));
    FinalizeVisitAt(g, bodies, visit, j, out, beforeJ, FinalizeOutput(g, bodies, visit[j]));
    FinalizeVisitGrows(g, bodies, visit, i, j);
    assert |beforeI| < |beforeJ|;
  }

  /**
   * The memoised successes keep their insertion order: a success stored before
   * another comes before it in `Successes`.
   */
  lemma {:induction false} SuccessesKeepOrder(memo: Memo, s: seq<PatchResult>, a: nat, b: nat)
    requires s == Successes(memo) && a < b < |memo|
    requires memo[a].exception.None? && memo[b].exception.None?
    ensures exists i, j :: 0 <= i < j < |s| && s[i] == memo[a] && s[j] == memo[b]
  {
    var init := memo[..|memo| - 1];
    var last := memo[|memo| - 1];
    var si := Successes(init);
    if b == |memo| - 1 {
      assert s == si + [last];
      assert init[a] in si;
      var i :| 0 <= i < |si| && si[i] == init[a];
      assert s[i] == memo[a] && s[|si|] == memo[b];
    } else {
      assert init[a] == memo[a] && init[b] == memo[b];
      SuccessesKeepOrder(init, si, a, b);
      var i, j :| 0 <= i < j < |si| && si[i] == memo[a] && si[j] == memo[b];
      assert s[..|si|] == si;
      assert s[i] == memo[a] && s[j] == memo[b];
    }
  }

  /**
   * The finalize phase visits the successes in reverse insertion order: of two
   * successes, the one stored later is visited first.
   */
  lemma FinalizeReverseInsertionOrder(memo: Memo, a: nat, b: nat)
    requires a < b < |memo| && memo[a].exception.None? && memo[b].exception.None?
    ensures var v := FinalizeOrder(memo);
      exists i, j :: 0 <= i < j < |v| && v[i] == memo[b] && v[j] == memo[a]
  {
    var s := Successes(memo);
    SuccessesKeepOrder(memo, s, a, b);
    var i, j :| 0 <= i < j < |s| && s[i] == memo[a] && s[j] == memo[b];
    var v := FinalizeOrder(memo);
    assert v[|s| - 1 - j] == memo[b] && v[|s| - 1 - i] == memo[a];
  }

  /** Successes X, Z around a failure Y are finalized as Z, then X; Y is not visited. */
  lemma FinalizeOrderExample()
    ensures FinalizeOrder([Succeeded(0), PatchResult(1, Some(ApplyFault)), Succeeded(2)])
         == [Succeeded(2), Succeeded(0)]
  {
    var memo := [Succeeded(0), PatchResult(1, Some(ApplyFault)), Succeeded(2)];
    var m2, m1 := memo[..2], memo[..1];
    assert m2[..1] == m1 && m1[..0] == [];
    assert Successes(m1) == [Succeeded(0)];
    assert Successes(m2) == [Succeeded(0)];
    assert Successes(memo) == [Succeeded(0), Succeeded(2)];
  }

  /** Every patch of `s` is preceded by each of its dependencies. */
  ghost predicate DependenciesFirst(g: PatchGraph, s: seq<PatchResult>) {
    forall i, d :: 0 <= i < |s| && s[i].patch in g && d in g[s[i].patch].dependencies ==>
      exists j :: 0 <= j < i && s[j].patch == d
  }

  lemma {:induction false} SuccessesUnique(memo: Memo, s: seq<PatchResult>)
    requires UniqueKeys(memo) && s == Successes(memo)
    ensures UniqueKeys(s)
  {
    if memo != [] {
      var init := memo[..|memo| - 1];
      var last := memo[|memo| - 1];
      var si := Successes(init);
      assert UniqueKeys(init);
      SuccessesUnique(init, si);
      if last.exception.None? {
        forall x | x in si ensures x.patch != last.patch {
          var i :| 0 <= i < |init| && init[i] == x;
        }
        assert s == si + [last];
      }
    }
  }

  lemma {:induction false} SuccessesDependenciesFirst(g: PatchGraph, bodies: BodyOracle, memo: Memo, s: seq<PatchResult>)
    requires MemoValid(g, bodies, memo) && s == Successes(memo)
    ensures DependenciesFirst(g, s)
  {
    if memo != [] {
      var init := memo[..|memo| - 1];
      var last := memo[|memo| - 1];
      var si := Successes(init);
      MemoValidPrefix(g, bodies, memo, |memo| - 1);
      SuccessesDependenciesFirst(g, bodies, init, si);
      if last.exception.None? {
        assert s == si + [last];
        forall d | d in g[last.patch].dependencies
          ensures exists j :: 0 <= j < |si| && si[j].patch == d
        {
          var j :| 0 <= j < |memo| - 1 && memo[j] == Succeeded(d);
          assert init[j] in si;
          var j' :| 0 <= j' < |si| && si[j'] == init[j];
        }
        DependenciesFirstAppend(g, si, last);
      } else {
        assert s == si;
      }
    } else {
      assert s == [];
    }
  }

  lemma MemoValidPrefix(g: PatchGraph, bodies: BodyOracle, memo: Memo, n: nat)
    requires MemoValid(g, bodies, memo) && n <= |memo|
    ensures MemoValid(g, bodies, memo[..n])
  {
  }

  lemma DependenciesFirstAppend(g: PatchGraph, s: seq<PatchResult>, last: PatchResult)
    requires DependenciesFirst(g, s)
    requires last.patch in g ==> forall d :: d in g[last.patch].dependencies ==> exists j :: 0 <= j < |s| && s[j].patch == d
    ensures DependenciesFirst(g, s + [last])
  {
    var t := s + [last];
    forall i, d | 0 <= i < |t| && t[i].patch in g && d in g[t[i].patch].dependencies
      ensures exists j :: 0 <= j < i && t[j].patch == d
    {
      if i < |s| {
        assert t[i] == s[i];
        var j :| 0 <= j < i && s[j].patch == d;
        assert t[j] == s[j];
      } else {
        var j :| 0 <= j < |s| && s[j].patch == d;
        assert t[j] == s[j];
      }
    }
  }

  /**
   * The finalize phase visits a dependent before its dependencies: reverse
   * insertion order, where every dependency was inserted first.
   */
  lemma DependentsFinalizedFirst(g: PatchGraph, bodies: BodyOracle, memo: Memo)
    requires MemoValid(g, bodies, memo)
    ensures var v := FinalizeOrder(memo);
      forall i, j :: 0 <= i < |v| && 0 <= j < |v| && v[i].patch in g && v[j].patch in g[v[i].patch].dependencies
        ==> i < j
  {
    var s := Successes(memo);
    SuccessesUnique(memo, s);
    SuccessesDependenciesFirst(g, bodies, memo, s);
    ReversedDependenciesLast(g, s, Reversed(s));
  }

  /** Reversing a sequence of distinct patches with dependencies first puts dependencies last. */
  lemma ReversedDependenciesLast(g: PatchGraph, s: seq<PatchResult>, v: seq<PatchResult>)
    requires UniqueKeys(s) && DependenciesFirst(g, s)
    requires |v| == |s| && forall k :: 0 <= k < |s| ==> v[k] == s[|s| - 1 - k]
    ensures forall i, j :: 0 <= i < |v| && 0 <= j < |v| && v[i].patch in g && v[j].patch in g[v[i].patch].dependencies
                       ==> i < j
  {
    var n := |s|;
    forall i, j | 0 <= i < |v| && 0 <= j < |v| && v[i].patch in g && v[j].patch in g[v[i].patch].dependencies
      ensures i < j
    {
      var a, b := n - 1 - i, n - 1 - j;
      assert v[i] == s[a] && v[j] == s[b];
      var k :| 0 <= k < a && s[k].patch == s[b].patch;
      assert k == b;
    }
  }

  /**
   * A chain A -> B -> C (A depends on B, B on C) in which only C's apply block
   * raises, numbered C = 0, B = 1, A = 2.
   */
  function Chain(): (g: PatchGraph)
    ensures g.Keys == {0, 1, 2} && g[2].dependencies == [1] && g[1].dependencies == [0] && g[0].dependencies == []
  {
    map[0 := Patch(Some("C"), [], BytecodePatch),
        1 := Patch(Some("B"), [0], BytecodePatch),
        2 := Patch(Some("A"), [1], BytecodePatch)]
  }

  function ChainBodies(): (bodies: BodyOracle)
    ensures bodies.Keys == {0, 1, 2} && bodies[0].apply == Raises
    ensures bodies[1].apply == Completes && bodies[2].apply == Completes
  {
    map[0 := Bodies(Raises, Completes), 1 := Bodies(Completes, Completes), 2 := Bodies(Completes, Completes)]
  }

  /**
   * Requesting only A emits one result, for A, whose cause nests B's and then
   * C's apply fault; only C's result is memoised, and neither A's nor B's apply
   * block runs.
   */
  lemma ChainRequestingOnlyDependent()
    ensures ApplyRun(Chain(), ChainBodies(), [], [2]) ==
      Run([PatchResult(2, Some(DependencyFailed(1, DependencyFailed(0, ApplyFault))))],
          [PatchResult(0, Some(ApplyFault))])
  {
    var g, bodies := Chain(), ChainBodies();
    var c := ExecuteStep(g, bodies, [], 0);
    assert c == Step(PatchResult(0, Some(ApplyFault)), [PatchResult(0, Some(ApplyFault))]) by {
      assert DependenciesStep(g, bodies, [], 0, 0) == AllSucceeded([]);
    }
    assert DependenciesStep(g, bodies, [], 1, 0) == FailedAt(0, ApplyFault, c.memo);
    var b := ExecuteStep(g, bodies, [], 1);
    assert b.result == PatchResult(1, Some(DependencyFailed(0, ApplyFault)));
    assert DependenciesStep(g, bodies, [], 2, 0) == FailedAt(0, b.result.exception.value, c.memo);
    assert ApplyRun(g, bodies, [], [2][..0]) == Run([], []);
  }

  /**
   * Requesting all three, they run in name order A, B, C: A's result nests C's
   * apply fault, while B and C, met again through the memo, report that C
   * failed previously.
   */
  lemma ChainRequestingAll()
    ensures ApplyRun(Chain(), ChainBodies(), [], [2, 1, 0]).results ==
      [PatchResult(2, Some(DependencyFailed(1, DependencyFailed(0, ApplyFault)))),
       PatchResult(1, Some(DependencyFailed(0, FailedPreviously))),
       PatchResult(0, Some(FailedPreviously))]
  {
    var g, bodies := Chain(), ChainBodies();
    var memo := [PatchResult(0, Some(ApplyFault))];
    ChainRequestingOnlyDependent();
    assert [2, 1, 0][..1] == [2];
    assert [2, 1, 0][..2][..1] == [2];
    assert [2, 1, 0][..3][..2] == [2, 1][..2];
    var c := ExecuteStep(g, bodies, memo, 0);
    assert Lookup(memo, 0) == Some(memo[0]);
    assert c == Step(PatchResult(0, Some(FailedPreviously)), memo);
    assert DependenciesStep(g, bodies, memo, 1, 0) == FailedAt(0, FailedPreviously, memo);
    assert Lookup(memo, 1) == None;
    assert ApplyRun(g, bodies, [], [2, 1]).memo == memo;
  }

  /**
   * The finalize phase emits newest first: of two memoised successes that both
   * emit, the one stored later is emitted first.
   */
  lemma FinalizePhaseNewestFirst(g: PatchGraph, bodies: BodyOracle, memo: Memo, a: nat, b: nat)
    requires forall x :: x in memo ==> x.patch in g && x.patch in bodies
    requires a < b < |memo| && memo[a].exception.None? && memo[b].exception.None?
    requires FinalizeOutput(g, bodies, memo[a]) != [] && FinalizeOutput(g, bodies, memo[b]) != []
    ensures var out := FinalizePhase(g, bodies, memo);
      exists m, n :: 0 <= m < n < |out|
        && out[m] == FinalizeOutput(g, bodies, memo[b])[0]
        && out[n] == FinalizeOutput(g, bodies, memo[a])[0]
  {
    FinalizeReverseInsertionOrder(memo, a, b);
    var v := FinalizeOrder(memo);
    var i, j :| 0 <= i < j < |v| && v[i] == memo[b] && v[j] == memo[a];
    FinalizeVisitKeepsOrder(g, bodies, v, i, j);
    var out := FinalizeVisit(g, bodies, v);
    var m, n :| 0 <= m < n < |out|
      && out[m] == FinalizeOutput(g, bodies, v[i])[0] && out[n] == FinalizeOutput(g, bodies, v[j])[0];
    assert out == FinalizePhase(g, bodies, memo);
  }

  /** The chain's patches all apply; only B's finalize block raises. */
  function FinalizeBodies(): (bodies: BodyOracle)
    ensures bodies.Keys == {0, 1, 2} && bodies[1].finalize == Raises
    ensures bodies[0].finalize == Completes && bodies[2].finalize == Completes
  {
    map[0 := Bodies(Completes, Completes), 1 := Bodies(Completes, Raises), 2 := Bodies(Completes, Completes)]
  }

  /** A memo of three successes is its own list of successes. */
  lemma FinalizeExampleSuccesses()
    ensures Successes([Succeeded(0), Succeeded(1), Succeeded(2)]) == [Succeeded(0), Succeeded(1), Succeeded(2)]
  {
    var memo := [Succeeded(0), Succeeded(1), Succeeded(2)];
    var m2, m1 := memo[..2], memo[..1];
    assert m2[..1] == m1 && m1[..0] == [];
    assert Successes(m1) == [Succeeded(0)];
    assert Successes(m2) == [Succeeded(0), Succeeded(1)];
  }

  /** The successes C, B, A stored in that order are visited as A, B, C. */
  lemma FinalizeExampleOrder()
    ensures FinalizeOrder([Succeeded(0), Succeeded(1), Succeeded(2)]) == [Succeeded(2), Succeeded(1), Succeeded(0)]
  {
    var memo := [Succeeded(0), Succeeded(1), Succeeded(2)];
    FinalizeExampleSuccesses();
    var r := Reversed(memo);
    assert |r| == 3 && r[0] == Succeeded(2) && r[1] == Succeeded(1) && r[2] == Succeeded(0);
  }

  /** Visiting A, B, C emits A's success, B's finalize failure and C's success. */
  lemma FinalizeExampleVisit()
    ensures FinalizeVisit(Chain(), FinalizeBodies(), [Succeeded(2), Succeeded(1), Succeeded(0)])
         == [Succeeded(2), PatchResult(1, Some(FinalizeFault)), Succeeded(0)]
  {
    var g, bodies := Chain(), FinalizeBodies();
    var v := [Succeeded(2), Succeeded(1), Succeeded(0)];
    var v2, v1 := v[..2], v[..1];
    assert v2[..1] == v1 && v1[..0] == [];
    assert FinalizeVisit(g, bodies, v1) == [Succeeded(2)];
    assert FinalizeVisit(g, bodies, v2) == [Succeeded(2), PatchResult(1, Some(FinalizeFault))];
  }

  /**
   * After C, B and A all succeed, in that order, the finalize phase emits A's
   * success, then B's finalize failure, then C's success.
   */
  lemma FinalizePhaseExample()
    ensures FinalizePhase(Chain(), FinalizeBodies(), [Succeeded(0), Succeeded(1), Succeeded(2)])
         == [Succeeded(2), PatchResult(1, Some(FinalizeFault)), Succeeded(0)]
  {
    FinalizeExampleOrder();
    FinalizeExampleVisit();
  }

  // ---------------------------------------------------------------------------
  // Ordering by name
  // ---------------------------------------------------------------------------

  /** Kotlin's `String.compareTo(...) < 0`: lexicographic by character, a proper prefix first. */
  predicate StringLess(a: string, b: string)
    ensures StringLess(a, b) ==> a != b
  {
    if a == [] then b != []
    else if b == [] then false
    else if a[0] != b[0] then a[0] < b[0]
    else StringLess(a[1..], b[1..])
  }

  lemma {:induction false} StringLessTransitive(a: string, b: string, c: string)
    requires StringLess(a, b) && StringLess(b, c)
    ensures StringLess(a, c)
  {
    if a != [] && b != [] && c != [] && a[0] == b[0] && b[0] == c[0] {
      StringLessTransitive(a[1..], b[1..], c[1..]);
    }
  }

  lemma {:induction false} StringLessTotal(a: string, b: string)
    ensures a == b || StringLess(a, b) || StringLess(b, a)
    ensures !(StringLess(a, b) && StringLess(b, a))
  {
    if a != [] && b != [] && a[0] == b[0] {
      StringLessTotal(a[1..], b[1..]);
      if a[1..] == b[1..] {
        assert a == [a[0]] + a[1..] && b == [b[0]] + b[1..];
      }
    }
  }

  /** `compareValues` on nullable names: `null` first. */
  predicate NameLess(a: Option<string>, b: Option<string>)
    ensures NameLess(a, b) ==> b.Some? && a != b
  {
    match (a, b)
    case (None, Some(_)) => true
    case (Some(x), Some(y)) => StringLess(x, y)
    case _ => false
  }

  /** The order in which the apply phase visits requested patches: by name, equal names by id. */
  predicate RunsBefore(g: PatchGraph, p: PatchId, q: PatchId)
    requires p in g && q in g
  {
    NameLess(g[p].name, g[q].name) || (g[p].name == g[q].name && p < q)
  }

  lemma RunsBeforeIsStrictTotal(g: PatchGraph, p: PatchId, q: PatchId, r: PatchId)
    requires p in g && q in g && r in g
    ensures !RunsBefore(g, p, p)
    ensures p != q ==> RunsBefore(g, p, q) || RunsBefore(g, q, p)
    ensures RunsBefore(g, p, q) && RunsBefore(g, q, r) ==> RunsBefore(g, p, r)
  {
    if g[p].name.Some? && g[q].name.Some? {
      StringLessTotal(g[p].name.value, g[q].name.value);
    }
    if g[p].name.Some? {
      StringLessTotal(g[p].name.value, g[p].name.value);
    }
    if g[p].name.Some? && g[q].name.Some? && g[r].name.Some?
       && StringLess(g[p].name.value, g[q].name.value) && StringLess(g[q].name.value, g[r].name.value) {
      StringLessTransitive(g[p].name.value, g[q].name.value, g[r].name.value);
    }
  }

  /** `p` runs before every other patch of `s`. */
  predicate RunsFirst(g: PatchGraph, s: set<PatchId>, p: PatchId)
    requires s <= g.Keys
  {
    p in s && forall q :: q in s && q != p ==> RunsBefore(g, p, q)
  }

  /** Adding `x` to a set whose first patch is `p` makes `p` or `x` the first. */
  lemma FirstAfterAdding(g: PatchGraph, rest: set<PatchId>, x: PatchId, p: PatchId)
    requires rest <= g.Keys && x in g && x !in rest && RunsFirst(g, rest, p)
    ensures RunsFirst(g, rest + {x}, p) || RunsFirst(g, rest + {x}, x)
  {
    RunsBeforeIsStrictTotal(g, p, x, p);
    if !RunsBefore(g, p, x) {
      forall q | q in rest + {x} && q != x ensures RunsBefore(g, x, q) {
        RunsBeforeIsStrictTotal(g, x, p, q);
      }
    }
  }

  lemma {:induction false} FirstToRunExists(g: PatchGraph, s: set<PatchId>)
    requires s != {} && s <= g.Keys
    ensures exists p :: RunsFirst(g, s, p)
    decreases s
  {
    var x :| x in s;
    if s == {x} {
      assert RunsFirst(g, s, x);
    } else {
      var rest := s - {x};
      FirstToRunExists(g, rest);
      var p :| RunsFirst(g, rest, p);
      FirstAfterAdding(g, rest, x, p);
      assert rest + {x} == s;
    }
  }

  predicate SortedToRun(g: PatchGraph, order: seq<PatchId>)
    requires forall p :: p in order ==> p in g
  {
    forall i, j :: 0 <= i < j < |order| ==> RunsBefore(g, order[i], order[j])
  }

  /** `sortedBy { it.name }` on a set of patches. */
  method SortedByName(g: PatchGraph, s: set<PatchId>) returns (order: seq<PatchId>)
    requires s <= g.Keys
    ensures |order| == |s|
    ensures forall p :: p in order <==> p in s
    ensures SortedToRun(g, order)
  {
    order := [];
    var remaining := s;
    while remaining != {}
      invariant remaining <= s
      invariant forall p :: p in order <==> p in s && p !in remaining
      invariant |order| + |remaining| == |s|
      invariant SortedToRun(g, order)
      invariant forall i, q :: 0 <= i < |order| && q in remaining ==> RunsBefore(g, order[i], q)
      decreases remaining
    {
      FirstToRunExists(g, remaining);
      var p :| RunsFirst(g, remaining, p);
      forall i, q | 0 <= i < |order| && q in remaining - {p} ensures RunsBefore(g, order[i], q) {
        RunsBeforeIsStrictTotal(g, order[i], p, q);
      }
      order := order + [p];
      remaining := remaining - {p};
    }
  }

  // ---------------------------------------------------------------------------
  // The patcher
  // ---------------------------------------------------------------------------

  /**
   * `Patcher` with its context and configuration: the requested patches, their
   * dependency closure, the inferred resource mode, and the memo of the
   * current run. `graph` holds the declared patches.
   */
  class Patcher {
    const graph: PatchGraph
    var executablePatches: set<PatchId>
    var allPatches: set<PatchId>
    var resourceMode: ResourceMode
    var executedPatches: Memo

    ghost predicate Valid()
      reads this
    {
      executablePatches <= allPatches <= graph.Keys && DependencyClosed(graph, allPatches)
    }

    constructor (graph: PatchGraph)
      ensures Valid()
      ensures this.graph == graph && executablePatches == {} && allPatches == {}
      ensures resourceMode == NONE && executedPatches == []
    {
      this.graph := graph;
      executablePatches := {};
      allPatches := {};
      resourceMode := NONE;
      executedPatches := [];
    }

    /** `addRecursively`: add `p`, then each of its dependencies recursively. */
    method AddRecursively(p: PatchId)
      requires p in graph && allPatches <= graph.Keys
      modifies this`allPatches
      ensures allPatches == old(allPatches) + Closure(graph, {p})
      decreases p
    {
      allPatches := allPatches + {p};
      var dependencies := graph[p].dependencies;
      for i := 0 to |dependencies|
        invariant allPatches <= graph.Keys
        invariant allPatches == old(allPatches) + {p} + Closure(graph, DependencyPrefix(graph, p, i))
      {
        DependencyBelow(graph, p, dependencies[i]);
        ghost var before := allPatches;
        AddRecursively(dependencies[i]);
        AddedOneMoreDependency(graph, old(allPatches), p, i, before, allPatches);
      }
      AddedAllDependencies(graph, old(allPatches), p, allPatches);
    }

    /** `allPatches.any { it.anyRecursively { it is K } }` for the marker `kind`. */
    method AnyPatchMarked(kind: PatchKind) returns (found: bool)
      requires allPatches <= graph.Keys
      ensures found <==> exists q :: q in Closure(graph, allPatches) && graph[q].kind == kind
    {
      var todo := allPatches;
      while todo != {}
        invariant todo <= allPatches
        invariant forall p :: p in allPatches - todo ==> !AnyRecursively(graph, p, kind)
        decreases todo
      {
        var p :| p in todo;
        if AnyRecursively(graph, p, kind) {
          AnyRecursivelyIffReachable(graph, p, kind);
          var q :| q in graph && Reaches(graph, p, q) && graph[q].kind == kind;
          assert q in Closure(graph, allPatches);
          return true;
        }
        todo := todo - {p};
      }
      forall q | q in Closure(graph, allPatches) ensures graph[q].kind != kind {
        var p :| p in allPatches && Reaches(graph, p, q);
        AnyRecursivelyIffReachable(graph, p, kind);
      }
      return false;
    }

    /**
     * `plusAssign`: request `patches`, add them and everything they depend on
     * to `allPatches`, and infer the resource mode over `allPatches`.
     */
    method PlusAssign(patches: set<PatchId>)
      requires Valid() && patches <= graph.Keys
      modifies this`executablePatches, this`allPatches, this`resourceMode
      ensures Valid()
      ensures executablePatches == old(executablePatches) + patches
      ensures allPatches == old(allPatches) + Closure(graph, patches)
      ensures resourceMode == RequiredMode(graph, allPatches)
    {
      executablePatches := executablePatches + patches;
      AddAllRecursively(patches);
      ClosureIsDependencyClosed(graph, patches);
      UnionIsDependencyClosed(graph, old(allPatches), Closure(graph, patches));
      InferResourceMode();
    }

    /** The `forEach` of `plusAssign` calling `addRecursively` on each requested patch. */
    method AddAllRecursively(patches: set<PatchId>)
      requires allPatches <= graph.Keys && patches <= graph.Keys
      modifies this`allPatches
      ensures allPatches == old(allPatches) + Closure(graph, patches)
    {
      var todo := patches;
      ghost var done: set<PatchId> := {};
      while todo != {}
        invariant todo + done == patches && todo !! done
        invariant allPatches <= graph.Keys
        invariant allPatches == old(allPatches) + Closure(graph, done)
        decreases todo
      {
        var p :| p in todo;
        ghost var before := allPatches;
        AddRecursively(p);
        AddedOneMoreRequested(graph, old(allPatches), done, p, before, allPatches);
        todo := todo - {p};
        done := done + {p};
      }
    }

    /** The resource-mode choice of `plusAssign`: FULL, else RAW_ONLY, else NONE. */
    method InferResourceMode()
      requires allPatches <= graph.Keys
      modifies this`resourceMode
      ensures resourceMode == RequiredMode(graph, allPatches)
    {
      var full := AnyPatchMarked(ResourcePatch);
      if full {
        resourceMode := FULL;
      } else {
        var raw := AnyPatchMarked(RawResourcePatch);
        resourceMode := if raw then RAW_ONLY else NONE;
      }
    }

    /** `execute` of patch `p` against the memo of the current run. */
    method Execute(bodies: BodyOracle, p: PatchId) returns (result: PatchResult)
      requires p in graph && graph.Keys <= bodies.Keys
      modifies this`executedPatches
      ensures Step(result, executedPatches) == ExecuteStep(graph, bodies, old(executedPatches), p)
      decreases p, 1
    {
      var previous := Lookup(executedPatches, p);
      if previous.Some? {
        if previous.value.exception.None? {
          return previous.value;
        }
        return PatchResult(p, Some(FailedPreviously));
      }
      var dependencies := graph[p].dependencies;
      for i := 0 to |dependencies|
        invariant DependenciesStep(graph, bodies, old(executedPatches), p, 0)
               == DependenciesStep(graph, bodies, executedPatches, p, i)
      {
        DependencyBelow(graph, p, dependencies[i]);
        var dependencyResult := Execute(bodies, dependencies[i]);
        if dependencyResult.exception.Some? {
          return PatchResult(p, Some(DependencyFailed(dependencies[i], dependencyResult.exception.value)));
        }
      }
      result := PatchResult(p, if bodies[p].apply == Completes then None else Some(ApplyFault));
      executedPatches := executedPatches + [result];
    }

    /**
     * `invoke`: the apply phase over the requested patches in name order, then
     * the finalize phase; returns everything emitted, in order.
     */
    method Invoke(bodies: BodyOracle) returns (emitted: seq<PatchResult>)
      requires Valid() && graph.Keys <= bodies.Keys
      modifies this`executedPatches
      ensures |executablePatches| <= |emitted|
      ensures var applied := emitted[..|executablePatches|];
        && (forall p :: p in executablePatches <==> exists i :: 0 <= i < |applied| && applied[i].patch == p)
        && (forall i, j :: 0 <= i < j < |applied| ==> RunsBefore(graph, applied[i].patch, applied[j].patch))
        && Run(applied, executedPatches) == ApplyRun(graph, bodies, [], seq(|applied|, i requires 0 <= i < |applied| => applied[i].patch))
      ensures MemoValid(graph, bodies, executedPatches)
      ensures emitted[|executablePatches|..] == FinalizePhase(graph, bodies, executedPatches)
    {
      executedPatches := [];
      var order := SortedByName(graph, executablePatches);
      var applied := ApplyAll(bodies, order);
      ApplyRunEmitsEach(graph, bodies, [], order);
      assert seq(|applied|, i requires 0 <= i < |applied| => applied[i].patch) == order;
      var finalized := FinalizeAll(bodies);
      emitted := applied + finalized;
      assert emitted[..|executablePatches|] == applied;
    }

    /** The apply phase: `execute` each patch of `order` in turn, emitting every result. */
    method ApplyAll(bodies: BodyOracle, order: seq<PatchId>) returns (applied: seq<PatchResult>)
      requires graph.Keys <= bodies.Keys && forall p :: p in order ==> p in graph
      modifies this`executedPatches
      ensures Run(applied, executedPatches) == ApplyRun(graph, bodies, old(executedPatches), order)
    {
      applied := [];
      for i := 0 to |order|
        invariant Run(applied, executedPatches) == ApplyRun(graph, bodies, old(executedPatches), order[..i])
      {
        ghost var memo := executedPatches;
        var result := Execute(bodies, order[i]);
        ApplyRunExtends(graph, bodies, old(executedPatches), order, i, applied, memo, result, executedPatches);
        applied := applied + [result];
      }
      assert order[..|order|] == order;
    }

    /**
     * The finalize phase: visit the memoised successes newest first, emitting
     * a finalize failure, the named success unchanged, or nothing.
     */
    method FinalizeAll(bodies: BodyOracle) returns (finalized: seq<PatchResult>)
      requires forall x :: x in executedPatches ==> x.patch in graph && x.patch in bodies
      ensures finalized == FinalizePhase(graph, bodies, executedPatches)
    {
      var visit := FinalizeOrder(executedPatches);
      finalized := [];
      for k := 0 to |visit|
        invariant finalized == FinalizeVisit(graph, bodies, visit[..k])
      {
        assert visit[k] in Successes(executedPatches);
        assert visit[..k + 1][..k] == visit[..k];
        var r := visit[k];
        if bodies[r.patch].finalize == Raises {
          finalized := finalized + [PatchResult(r.patch, Some(FinalizeFault))];
        } else if graph[r.patch].name.Some? {
          finalized := finalized + [r];
        }
      }
      assert visit[..|visit|] == visit;
    }
  }
}
