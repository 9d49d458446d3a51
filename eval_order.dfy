/**
 * `evalOrder`: the happens-before edges read off `deps` and a total order
 * of all cells that respects them. The topological sort is a verified
 * Kahn sort specified by its contract (a permutation of the cells in which
 * every edge points forward); when no such order exists it fails with a
 * set of cells each of which waits on another member of the set. The
 * cells' A1 encoding and decoding around the sort are taken to be
 * inverse to each other, so cells are sorted directly. The compiled twin
 * in dist/ is the same pipeline.
 */
module EvalOrder {
  import opened Wrappers
  import opened Sheet
  import opened DepMaps
  import opened DepsToProvides
  import opened Seqs

  /** `[before, after]`: `before` must be evaluated before `after`. */
  type Edge = (CellRef, CellRef)

  /** The edges of one `deps` entry: one per cell the formula reads, in order. */
  function EntryEdges(after: CellRef, befores: seq<CellRef>): seq<Edge>
    decreases |befores|
  {
    if befores == [] then [] else [(befores[0], after)] + EntryEdges(after, befores[1..])
  }

  /** `cellDeps.entrySeq().flatMap(...)`: the entries' edges, concatenated in entry order. */
  function Edges(deps: DepMap): seq<Edge>
    decreases |deps|
  {
    if deps == [] then [] else EntryEdges(deps[0].0, deps[0].1) + Edges(deps[1..])
  }

  lemma {:induction false} EntryEdgesCount(after: CellRef, befores: seq<CellRef>, e: Edge)
    ensures multiset(EntryEdges(after, befores))[e] == if e.1 == after then multiset(befores)[e.0] else 0
    decreases |befores|
  {
    if befores != [] {
      EntryEdgesCount(after, befores[1..], e);
      assert befores == [befores[0]] + befores[1..];
    }
  }

  /**
   * One edge `(before, after)` per occurrence of `before` among the cells
   * `after` reads: edges and `deps` entries correspond occurrence for
   * occurrence.
   */
  lemma {:induction false} EdgesCount(deps: DepMap, before: CellRef, after: CellRef)
    requires DistinctKeys(deps)
    ensures multiset(Edges(deps))[(before, after)] == DepCount(deps, after, before)
    decreases |deps|
  {
    if deps != [] {
      assert DistinctKeys(deps[1..]);
      EdgesCount(deps[1..], before, after);
      EntryEdgesCount(deps[0].0, deps[0].1, (before, after));
      assert Lookup(deps, after) == if deps[0].0 == after then Some(deps[0].1) else Lookup(deps[1..], after);
      if deps[0].0 == after {
        LookupFound(deps[1..], after);
        assert !HasKey(deps[1..], after) by {
          forall i | 0 <= i < |deps[1..]|
            ensures deps[1..][i].0 != after
          {
            assert deps[1..][i] == deps[i + 1];
          }
        }
      }
    }
  }

  /** Edge membership, as an iff: `(b, a)` is an edge exactly when `a`'s formula reads `b`. */
  lemma EdgesMembership(deps: DepMap, b: CellRef, a: CellRef)
    requires DistinctKeys(deps)
    ensures (b, a) in Edges(deps) <==> Lookup(deps, a).Some? && b in Lookup(deps, a).value
  {
    EdgesCount(deps, b, a);
  }

  /** `o` lists each cell of `all` once, and every edge between them points forward. */
  ghost predicate IsTopoOrder(all: set<CellRef>, edges: seq<Edge>, o: seq<CellRef>)
  {
    && Distinct(o)
    && (forall x :: x in o <==> x in all)
    && (forall i, j :: 0 <= i < |o| && 0 <= j < |o| && (o[i], o[j]) in edges ==> i < j)
  }

  /** Some member of `s` must come before `x`. */
  ghost predicate Waits(edges: seq<Edge>, s: set<CellRef>, x: CellRef)
  {
    exists y :: y in s && (y, x) in edges
  }

  /** Cells of `all` each of which waits on another member of `s`: no order can start them. */
  ghost predicate Stuck(all: set<CellRef>, edges: seq<Edge>, s: set<CellRef>)
  {
    && s != {} && s <= all
    && forall x {:trigger Waits(edges, s, x)} :: x in s ==> Waits(edges, s, x)
  }

  /** No sequence is a topological order of `all` under `edges`. */
  ghost predicate NoTopoOrder(all: set<CellRef>, edges: seq<Edge>)
  {
    forall o :: !IsTopoOrder(all, edges, o)
  }

  /** A topological order has exactly one entry per cell. */
  lemma TopoOrderSize(all: set<CellRef>, edges: seq<Edge>, o: seq<CellRef>)
    requires IsTopoOrder(all, edges, o)
    ensures |o| == |all|
  {
    DistinctCard(o);
    assert Members(o) == all;
  }

  /** The first position of `o` that holds a member of `s`. */
  lemma {:induction false} FirstIn(o: seq<CellRef>, s: set<CellRef>, k: nat) returns (i: nat)
    requires k <= |o|
    requires exists j :: k <= j < |o| && o[j] in s
    ensures k <= i < |o| && o[i] in s && forall j :: k <= j < i ==> o[j] !in s
    decreases |o| - k
  {
    if o[k] in s {
      i := k;
    } else {
      i := FirstIn(o, s, k + 1);
    }
  }

  /** In a topological order, the first member of `s` waits on no member of `s`. */
  lemma FirstUnwaited(all: set<CellRef>, edges: seq<Edge>, s: set<CellRef>, o: seq<CellRef>) returns (x: CellRef)
    requires IsTopoOrder(all, edges, o) && s != {} && s <= all
    ensures x in s && !Waits(edges, s, x)
  {
    var x0 :| x0 in s;
    assert x0 in o;
    var i := FirstIn(o, s, 0);
    x := o[i];
    forall y | y in s
      ensures (y, x) !in edges
    {
      assert y in o;
      var j :| 0 <= j < |o| && o[j] == y;
      assert j >= i;
    }
  }

  /** A stuck set rules out every topological order. */
  lemma StuckNoOrder(all: set<CellRef>, edges: seq<Edge>, s: set<CellRef>, o: seq<CellRef>)
    requires Stuck(all, edges, s)
    ensures !IsTopoOrder(all, edges, o)
  {
    if IsTopoOrder(all, edges, o) {
      var x := FirstUnwaited(all, edges, s, o);
    }
  }

  /** A cycle of edges among the cells rules out every topological order. */
  lemma CycleNoOrder(all: set<CellRef>, edges: seq<Edge>, cycle: seq<CellRef>, o: seq<CellRef>)
    requires |cycle| >= 2 && cycle[0] == cycle[|cycle| - 1]
    requires forall k :: 0 <= k < |cycle| ==> cycle[k] in all
    requires forall k :: 0 <= k < |cycle| - 1 ==> (cycle[k], cycle[k + 1]) in edges
    ensures !IsTopoOrder(all, edges, o)
  {
    if IsTopoOrder(all, edges, o) {
      assert cycle[0] in o;
      var i0 :| 0 <= i0 < |o| && o[i0] == cycle[0];
      var k, i := 0, i0;
      while k < |cycle| - 1
        invariant 0 <= k <= |cycle| - 1
        invariant 0 <= i < |o| && o[i] == cycle[k] && i0 + k <= i
      {
        assert cycle[k + 1] in o;
        var i' :| 0 <= i' < |o| && o[i'] == cycle[k + 1];
        assert (o[i], o[i']) in edges;
        k, i := k + 1, i';
      }
    }
  }

  /**
   * Kahn's sort: repeatedly place a remaining cell none of whose
   * predecessors remains.
   */
  method TopoSort(all: set<CellRef>, edges: seq<Edge>) returns (r: Result<seq<CellRef>, set<CellRef>>)
    ensures r.Success? ==> IsTopoOrder(all, edges, r.value)
    ensures r.Failure? ==> Stuck(all, edges, r.error)
  {
    var order: seq<CellRef> := [];
    var remaining := all;
    while remaining != {}
      invariant remaining <= all
      invariant forall x :: x in all <==> x in order || x in remaining
      invariant forall x :: x in order ==> x !in remaining
      invariant Distinct(order)
      invariant forall i, j :: 0 <= i < |order| && 0 <= j < |order| && (order[i], order[j]) in edges ==> i < j
      invariant forall j, y :: 0 <= j < |order| && y in remaining ==> (y, order[j]) !in edges
      decreases |remaining|
    {
      var ready := set x | x in remaining && forall y :: y in remaining ==> (y, x) !in edges;
      if ready == {} {
        forall x | x in remaining
          ensures Waits(edges, remaining, x)
        {
          assert x !in ready;
        }
        return Failure(remaining);
      }
      var x :| x in ready;
      order := order + [x];
      remaining := remaining - {x};
    }
    return Success(order);
  }

  /**
   * `evalOrder(cellDeps, all)`: every cell of `all` once, each formula cell
   * after every cell of `all` it reads; failure exactly when the edges
   * admit no such order.
   */
  method EvalOrder(deps: DepMap, all: set<CellRef>) returns (r: Result<seq<CellRef>, set<CellRef>>)
    ensures r.Success? ==> IsTopoOrder(all, Edges(deps), r.value)
    ensures r.Failure? ==> NoTopoOrder(all, Edges(deps))
  {
    r := TopoSort(all, Edges(deps));
    if r.Failure? {
      forall o
        ensures !IsTopoOrder(all, Edges(deps), o)
      {
        StuckNoOrder(all, Edges(deps), r.error, o);
      }
    }
  }

  /**
   * Dependencies precede dependents: in a topological order of the edges
   * of `deps`, a cell comes after every cell its formula reads.
   */
  lemma DepsPrecede(deps: DepMap, all: set<CellRef>, o: seq<CellRef>, i: nat, j: nat)
    requires DistinctKeys(deps) && IsTopoOrder(all, Edges(deps), o)
    requires i < |o| && j < |o|
    requires Lookup(deps, o[j]).Some? && o[i] in Lookup(deps, o[j]).value
    ensures i < j
  {
    EdgesMembership(deps, o[i], o[j]);
  }

  /** The order of the test: one entry per cell of a list without repetitions. */
  lemma EvalOrderSize(deps: DepMap, all: seq<CellRef>, o: seq<CellRef>)
    requires Distinct(all) && IsTopoOrder(Members(all), Edges(deps), o)
    ensures |o| == |all|
  {
    TopoOrderSize(Members(all), Edges(deps), o);
    DistinctCard(all);
  }
}
