/**
 * `depsToProvides`: the nested fold that inverts `deps` (cell -> cells it
 * reads) into `providesTo` (cell -> cells that read it). The compiled
 * twin in dist/ is the same fold.
 */
module DepsToProvides {
  import opened Wrappers
  import opened Sheet
  import opened DepMaps

  /** Provider -> requirers. Never iterated, so an unordered map suffices. */
  type ProvidesTo = map<CellRef, seq<CellRef>>

  /** `providesTo.get(p) || new List()` */
  function Dependents(pt: ProvidesTo, p: CellRef): seq<CellRef>
  {
    if p in pt then pt[p] else []
  }

  /** The inner step: push `requirer` onto the list kept for `provider`. */
  function Push(pt: ProvidesTo, provider: CellRef, requirer: CellRef): ProvidesTo
  {
    pt[provider := Dependents(pt, provider) + [requirer]]
  }

  /** The inner reduce over one requirer's providers, first to last. */
  function AddRequirer(pt: ProvidesTo, requirer: CellRef, providers: seq<CellRef>): ProvidesTo
    decreases |providers|
  {
    if providers == [] then pt
    else
      var n := |providers| - 1;
      Push(AddRequirer(pt, requirer, providers[..n]), providers[n], requirer)
  }

  /** The outer reduce over the entries of `deps`, first to last, from an empty map. */
  function ProvidesToOf(deps: DepMap): ProvidesTo
    decreases |deps|
  {
    if deps == [] then map[]
    else
      var n := |deps| - 1;
      AddRequirer(ProvidesToOf(deps[..n]), deps[n].0, deps[n].1)
  }

  /** `n` copies of `x`. */
  function Repeat(x: CellRef, n: nat): (r: seq<CellRef>)
    ensures |r| == n && forall i :: 0 <= i < n ==> r[i] == x
  {
    seq(n, _ => x)
  }

  /**
   * Reference definition: the requirers of `p`, in the order `deps` lists
   * them, each once per occurrence of `p` among its providers.
   */
  function RequirersOf(deps: DepMap, p: CellRef): seq<CellRef>
    decreases |deps|
  {
    if deps == [] then []
    else
      var n := |deps| - 1;
      RequirersOf(deps[..n], p) + Repeat(deps[n].0, multiset(deps[n].1)[p])
  }

  /** The cells some entry of `deps` lists as a provider. */
  ghost predicate Provider(deps: DepMap, p: CellRef)
  {
    exists i :: 0 <= i < |deps| && p in deps[i].1
  }

  lemma {:induction false} AddRequirerEffect(pt: ProvidesTo, requirer: CellRef, providers: seq<CellRef>, p: CellRef)
    ensures Dependents(AddRequirer(pt, requirer, providers), p)
         == Dependents(pt, p) + Repeat(requirer, multiset(providers)[p])
    ensures p in AddRequirer(pt, requirer, providers) <==> p in pt || p in providers
    decreases |providers|
  {
    if providers != [] {
      var n := |providers| - 1;
      AddRequirerEffect(pt, requirer, providers[..n], p);
      var prev := AddRequirer(pt, requirer, providers[..n]);
      var k := multiset(providers[..n])[p];
      SnocCount(providers, p);
      PushEffect(prev, providers[n], requirer, p);
      if providers[n] == p {
        assert Repeat(requirer, k + 1) == Repeat(requirer, k) + [requirer];
      }
    }
  }

  /** One more provider at the end: one more occurrence when it is `p`. */
  lemma SnocCount(providers: seq<CellRef>, p: CellRef)
    requires providers != []
    ensures var n := |providers| - 1;
            && multiset(providers)[p] == multiset(providers[..n])[p] + (if providers[n] == p then 1 else 0)
            && (p in providers <==> p in providers[..n] || p == providers[n])
  {
    var n := |providers| - 1;
    assert providers == providers[..n] + [providers[n]];
    assert multiset(providers) == multiset(providers[..n]) + multiset{providers[n]};
  }

  /** A push extends the list of its provider only. */
  lemma PushEffect(pt: ProvidesTo, provider: CellRef, requirer: CellRef, p: CellRef)
    ensures Dependents(Push(pt, provider, requirer), p)
         == Dependents(pt, p) + (if provider == p then [requirer] else [])
    ensures p in Push(pt, provider, requirer) <==> p in pt || p == provider
  {
  }

  /** Each list of the result is exactly the reference list of requirers. */
  lemma {:induction false} ProvidesToIsRequirers(deps: DepMap, p: CellRef)
    ensures Dependents(ProvidesToOf(deps), p) == RequirersOf(deps, p)
    ensures p in ProvidesToOf(deps) <==> Provider(deps, p)
    decreases |deps|
  {
    if deps != [] {
      var n := |deps| - 1;
      ProvidesToIsRequirers(deps[..n], p);
      AddRequirerEffect(ProvidesToOf(deps[..n]), deps[n].0, deps[n].1, p);
      ProviderSnoc(deps, p);
    }
  }

  /** A provider of all entries is a provider of the earlier ones or of the last. */
  lemma ProviderSnoc(deps: DepMap, p: CellRef)
    requires deps != []
    ensures Provider(deps, p) <==> Provider(deps[..|deps| - 1], p) || p in deps[|deps| - 1].1
  {
    var n := |deps| - 1;
    if Provider(deps, p) {
      var i :| 0 <= i < |deps| && p in deps[i].1;
      if i < n { assert deps[..n][i] == deps[i]; }
    }
    if Provider(deps[..n], p) {
      var i :| 0 <= i < n && p in deps[..n][i].1;
      assert deps[i] == deps[..n][i];
    }
  }

  /** The empty map inverts to the empty map, and every stored list is non-empty. */
  lemma {:induction false} ProvidesToNonEmpty(deps: DepMap)
    ensures deps == [] ==> ProvidesToOf(deps) == map[]
    ensures forall p :: p in ProvidesToOf(deps) ==> ProvidesToOf(deps)[p] != []
    decreases |deps|
  {
    if deps != [] {
      var n := |deps| - 1;
      ProvidesToNonEmpty(deps[..n]);
      forall p | p in ProvidesToOf(deps) ensures ProvidesToOf(deps)[p] != [] {
        AddRequirerEffect(ProvidesToOf(deps[..n]), deps[n].0, deps[n].1, p);
        if p !in ProvidesToOf(deps[..n]) {
          assert multiset(deps[n].1)[p] > 0;
        }
      }
    }
  }

  /** How often `d` lists `p` among the providers of `r`; zero when `r` is no key. */
  function DepCount(deps: DepMap, r: CellRef, p: CellRef): nat
  {
    match Lookup(deps, r)
    case None => 0
    case Some(ds) => multiset(ds)[p]
  }

  lemma {:induction false} RequirersCount(deps: DepMap, p: CellRef, r: CellRef)
    requires DistinctKeys(deps)
    ensures multiset(RequirersOf(deps, p))[r] == DepCount(deps, r, p)
    decreases |deps|
  {
    if deps != [] {
      var n := |deps| - 1;
      assert deps == deps[..n] + [deps[n]];
      assert DistinctKeys(deps[..n]);
      RequirersCount(deps[..n], p, r);
      LookupSnoc(deps[..n], deps[n], r);
      var k := multiset(deps[n].1)[p];
      assert multiset(Repeat(deps[n].0, k))[r] == if deps[n].0 == r then k else 0 by {
        if deps[n].0 != r {
          assert r !in Repeat(deps[n].0, k);
        } else {
          assert Repeat(deps[n].0, k) == Repeat(r, k);
          RepeatCount(r, k);
        }
      }
      if deps[n].0 == r {
        LookupFound(deps[..n], r);
      }
    }
  }

  lemma {:induction false} RepeatCount(x: CellRef, k: nat)
    ensures multiset(Repeat(x, k))[x] == k
  {
    if k > 0 {
      assert Repeat(x, k) == Repeat(x, k - 1) + [x];
      RepeatCount(x, k - 1);
    }
  }

  /**
   * Inversion, counted: `r` occurs in `providesTo[p]` exactly as often as `p`
   * occurs in `deps[r]`, so duplicated references are kept.
   */
  lemma InverseCount(deps: DepMap, p: CellRef, r: CellRef)
    requires DistinctKeys(deps)
    ensures multiset(Dependents(ProvidesToOf(deps), p))[r] == DepCount(deps, r, p)
  {
    ProvidesToIsRequirers(deps, p);
    RequirersCount(deps, p, r);
  }

  /** Inversion: `r` is in `providesTo[p]` iff `p` is in `deps[r]`. */
  lemma Inverse(deps: DepMap, p: CellRef, r: CellRef)
    requires DistinctKeys(deps)
    ensures r in Dependents(ProvidesToOf(deps), p)
        <==> Lookup(deps, r).Some? && p in Lookup(deps, r).value
  {
    InverseCount(deps, p, r);
  }

  /**
   * Requirers keep the iteration order of `deps`: when requirer `deps[i]`
   * comes before requirer `deps[j]`, every copy of the first precedes every
   * copy of the second in `providesTo[p]`.
   */
  lemma {:induction false} RequirersInDepsOrder(deps: DepMap, p: CellRef, i: nat, j: nat, a: nat, b: nat)
    requires DistinctKeys(deps)
    requires i < j < |deps|
    requires a < |RequirersOf(deps, p)| && b < |RequirersOf(deps, p)|
    requires RequirersOf(deps, p)[a] == deps[i].0 && RequirersOf(deps, p)[b] == deps[j].0
    ensures a < b
    decreases |deps|
  {
    var n := |deps| - 1;
    var pre := RequirersOf(deps[..n], p);
    var tail := Repeat(deps[n].0, multiset(deps[n].1)[p]);
    assert DistinctKeys(deps[..n]);
    RequirersKeys(deps[..n], p);
    var R := RequirersOf(deps, p);
    assert forall k :: |pre| <= k < |R| ==> R[k] == deps[n].0;
    assert forall k :: 0 <= k < |pre| ==> R[k] == pre[k];
    assert deps[i].0 != deps[n].0;
    assert a < |pre|;
    if j == n {
      // Copies of deps[n].0 sit only in the tail, after the whole prefix.
      forall k | 0 <= k < |pre| ensures pre[k] != deps[n].0 {
        assert pre[k] in pre;
        var q :| 0 <= q < n && deps[..n][q].0 == pre[k];
        assert deps[..n][q] == deps[q];
      }
    } else {
      assert deps[j].0 != deps[n].0;
      assert b < |pre|;
      assert deps[..n][i] == deps[i] && deps[..n][j] == deps[j];
      RequirersInDepsOrder(deps[..n], p, i, j, a, b);
    }
  }

  /** Every requirer listed is a key of `deps`. */
  lemma {:induction false} RequirersKeys(deps: DepMap, p: CellRef)
    ensures forall x :: x in RequirersOf(deps, p) ==> exists q :: 0 <= q < |deps| && deps[q].0 == x
    decreases |deps|
  {
    if deps != [] {
      var n := |deps| - 1;
      RequirersKeys(deps[..n], p);
      forall x | x in RequirersOf(deps, p) ensures exists q :: 0 <= q < |deps| && deps[q].0 == x {
        if x in RequirersOf(deps[..n], p) {
          var q :| 0 <= q < n && deps[..n][q].0 == x;
          assert deps[q].0 == x;
        } else {
          assert deps[n].0 == x;
        }
      }
    }
  }
}
