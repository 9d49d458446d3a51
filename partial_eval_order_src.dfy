/**
 * `partialEvalOrder` as written in src/: pop a cell, push the cells that
 * read it, and append the whole remaining stack to the order after every
 * pop. Nothing is marked visited, so the order repeats cells, and the
 * loop ends only when no cycle is reachable from the inputs.
 */
module PartialEvalOrderSrc {
  import opened Sheet
  import opened DepsToProvides
  import opened Reach
  import opened Seqs

  /**
   * An acyclicity witness: every ranked cell's requirers are ranked lower.
   * A cycle through a ranked cell rules a ranking out (`CycleUnranked`);
   * conversely, a document with an evaluation order has a ranking that
   * covers every cell (`CalculatorSrc.RankFromOrder`).
   */
  ghost predicate Ranked(pt: ProvidesTo, rank: map<CellRef, nat>)
  {
    forall p, y :: p in rank && y in Dependents(pt, p) ==> y in rank && rank[y] < rank[p]
  }

  /** The number of paths leaving `c`: what popping `c` can still cost. */
  ghost function Weight(pt: ProvidesTo, rank: map<CellRef, nat>, c: CellRef): nat
    requires Ranked(pt, rank) && c in rank
    decreases rank[c], 1, 0
  {
    1 + WeightSum(pt, rank, Dependents(pt, c), rank[c])
  }

  ghost function WeightSum(pt: ProvidesTo, rank: map<CellRef, nat>, s: seq<CellRef>, bound: nat): nat
    requires Ranked(pt, rank)
    requires forall x :: x in s ==> x in rank && rank[x] < bound
    decreases bound, 0, |s|
  {
    if s == [] then 0 else Weight(pt, rank, s[0]) + WeightSum(pt, rank, s[1..], bound)
  }

  lemma {:induction false} WeightSumBound(pt: ProvidesTo, rank: map<CellRef, nat>, s: seq<CellRef>, b1: nat, b2: nat)
    requires Ranked(pt, rank)
    requires forall x :: x in s ==> x in rank && rank[x] < b1 && rank[x] < b2
    ensures WeightSum(pt, rank, s, b1) == WeightSum(pt, rank, s, b2)
    decreases |s|
  {
    if s != [] {
      WeightSumBound(pt, rank, s[1..], b1, b2);
    }
  }

  lemma {:induction false} WeightSumConcat(pt: ProvidesTo, rank: map<CellRef, nat>, a: seq<CellRef>, b: seq<CellRef>, bound: nat)
    requires Ranked(pt, rank)
    requires forall x :: x in a + b ==> x in rank && rank[x] < bound
    ensures WeightSum(pt, rank, a + b, bound) == WeightSum(pt, rank, a, bound) + WeightSum(pt, rank, b, bound)
    decreases |a|
  {
    if a == [] {
      assert a + b == b;
    } else {
      assert (a + b)[1..] == a[1..] + b;
      WeightSumConcat(pt, rank, a[1..], b, bound);
    }
  }

  /** A bound above every rank. */
  lemma {:induction false} RankBound(rank: map<CellRef, nat>) returns (bound: nat)
    ensures forall x :: x in rank ==> rank[x] < bound
    decreases |rank|
  {
    if rank == map[] {
      bound := 0;
    } else {
      var k :| k in rank;
      var rest := rank - {k};
      assert |rest.Keys| < |rank.Keys| by {
        assert rest.Keys == rank.Keys - {k};
      }
      var b := RankBound(rest);
      bound := if b > rank[k] then b else rank[k] + 1;
      forall x | x in rank
        ensures rank[x] < bound
      {
        if x != k {
          assert x in rest;
        }
      }
    }
  }

  /** Popping the top cell and pushing its requirers spends that cell's own path. */
  lemma MeasureStep(pt: ProvidesTo, rank: map<CellRef, nat>, next: seq<CellRef>, bound: nat)
    requires Ranked(pt, rank) && next != []
    requires forall x :: x in next ==> x in rank && rank[x] < bound
    ensures forall x :: x in Dependents(pt, next[0]) + next[1..] ==> x in rank && rank[x] < bound
    ensures WeightSum(pt, rank, Dependents(pt, next[0]) + next[1..], bound) < WeightSum(pt, rank, next, bound)
  {
    var node, pushed := next[0], Dependents(pt, next[0]);
    WeightSumConcat(pt, rank, pushed, next[1..], bound);
    WeightSumBound(pt, rank, pushed, rank[node], bound);
  }

  /**
   * The loop's state: the order starts with the inputs and ends with the
   * stack, holds only reachable cells, and every cell in it that is no
   * longer stacked is followed by all its requirers.
   */
  ghost predicate Trail(pt: ProvidesTo, inputs: seq<CellRef>, order: seq<CellRef>, next: seq<CellRef>)
  {
    && |order| >= |inputs| && order[..|inputs|] == inputs
    && |order| >= |next| && order[|order| - |next|..] == next
    && (forall x :: x in order ==> Reachable(pt, inputs, x))
    && (forall i, y :: 0 <= i < |order| && order[i] !in next && y in Dependents(pt, order[i])
          ==> y in order[i + 1..])
    && (|inputs| > 0 ==> (next == inputs && order == inputs) || |order| >= 2 * |inputs| - 1)
  }

  lemma FollowStep(pt: ProvidesTo, order: seq<CellRef>, next: seq<CellRef>, next': seq<CellRef>, order': seq<CellRef>)
    requires next != [] && |order| >= |next| && order[|order| - |next|..] == next
    requires forall i, y :: 0 <= i < |order| && order[i] !in next && y in Dependents(pt, order[i])
               ==> y in order[i + 1..]
    requires next' == Dependents(pt, next[0]) + next[1..]
    requires order' == order + next'
    ensures forall i, y :: 0 <= i < |order'| && order'[i] !in next' && y in Dependents(pt, order'[i])
              ==> y in order'[i + 1..]
  {
    var node := next[0];
    forall i, y | 0 <= i < |order'| && order'[i] !in next' && y in Dependents(pt, order'[i])
      ensures y in order'[i + 1..]
    {
      if i < |order| {
        assert order'[i] == order[i];
        assert order[i + 1..] <= order'[i + 1..];
        if order[i] in next {
          assert order[i] == node;
          assert y in order'[|order|..];
          assert order'[|order|..] == order'[i + 1..][|order| - i - 1..];
        }
      }
    }
  }

  lemma TrailStep(pt: ProvidesTo, inputs: seq<CellRef>, order: seq<CellRef>, next: seq<CellRef>,
                  next': seq<CellRef>, order': seq<CellRef>)
    requires next != [] && Trail(pt, inputs, order, next)
    requires next' == Dependents(pt, next[0]) + next[1..]
    requires order' == order + next'
    ensures Trail(pt, inputs, order', next')
  {
    FollowStep(pt, order, next, next', order');
    assert order'[..|inputs|] == order[..|inputs|];
    assert order'[|order'| - |next'|..] == next';
    forall x | x in order'
      ensures Reachable(pt, inputs, x)
    {
      if x !in order {
        assert x in Dependents(pt, next[0]);
        assert next[0] in order by {
          assert next[0] == order[|order| - |next|];
        }
        ReachStep(pt, inputs, next[0], x);
      }
    }
  }

  /** With the stack empty, every cell in the order is followed by its requirers, so every reachable cell is in it. */
  lemma TrailDone(pt: ProvidesTo, inputs: seq<CellRef>, order: seq<CellRef>)
    requires Trail(pt, inputs, order, [])
    ensures forall c :: Reachable(pt, inputs, c) ==> c in order
  {
    forall c | Reachable(pt, inputs, c)
      ensures c in order
    {
      assert inputs == order[..|inputs|];
      forall x, y | x in Members(order) && y in Dependents(pt, x)
        ensures y in Members(order)
      {
        var i :| 0 <= i < |order| && order[i] == x;
        assert y in order[i + 1..];
      }
      ReachClosed(pt, inputs, Members(order), c);
    }
  }

  /**
   * The order `partialEvalOrder(providesTo, inputs)` returns, for inputs
   * from which no cycle is reachable (`rank` witnesses that).
   */
  method PartialEvalOrder(pt: ProvidesTo, inputs: seq<CellRef>, ghost rank: map<CellRef, nat>)
    returns (order: seq<CellRef>)
    requires Ranked(pt, rank)
    requires forall x :: x in inputs ==> x in rank
    ensures |order| >= |inputs| && order[..|inputs|] == inputs
    ensures forall x :: x in order ==> Reachable(pt, inputs, x)
    ensures forall c :: Reachable(pt, inputs, c) ==> c in order
    ensures forall i, y :: 0 <= i < |order| && y in Dependents(pt, order[i]) ==> y in order[i + 1..]
    ensures |inputs| > 0 ==> |order| >= 2 * |inputs| - 1
  {
    ghost var bound := RankBound(rank);
    order := inputs;
    var next := inputs;            // the stack, top first
    forall x | x in inputs
      ensures Reachable(pt, inputs, x)
    {
      ReachInput(pt, inputs, x);
    }
    assert order[..|inputs|] == inputs && order[|order| - |next|..] == next;
    while next != []
      invariant forall x :: x in next ==> x in rank && rank[x] < bound
      invariant Trail(pt, inputs, order, next)
      decreases WeightSum(pt, rank, next, bound)
    {
      MeasureStep(pt, rank, next, bound);
      TrailStep(pt, inputs, order, next, Dependents(pt, next[0]) + next[1..],
                order + (Dependents(pt, next[0]) + next[1..]));
      var node := next[0];
      next := next[1..];
      next := Dependents(pt, node) + next;
      order := order + next;
    }
    TrailDone(pt, inputs, order);
  }

  /** A cycle through a ranked cell leaves no ranking: ranks would have to fall below themselves. */
  lemma CycleUnranked(pt: ProvidesTo, rank: map<CellRef, nat>, cycle: seq<CellRef>)
    requires IsPath(pt, cycle) && |cycle| >= 2 && cycle[0] == cycle[|cycle| - 1]
    requires cycle[0] in rank
    ensures !Ranked(pt, rank)
  {
    if Ranked(pt, rank) {
      var k := 0;
      while k < |cycle| - 1
        invariant 0 <= k <= |cycle| - 1
        invariant cycle[k] in rank && rank[cycle[k]] + k <= rank[cycle[0]]
      {
        assert cycle[k + 1] in Dependents(pt, cycle[k]);
        k := k + 1;
      }
    }
  }

  /**
   * The order repeats cells: with two or more distinct inputs and no
   * requirers at all, some cell appears twice.
   */
  lemma OrderRepeats(pt: ProvidesTo, inputs: seq<CellRef>, order: seq<CellRef>)
    requires forall p :: Dependents(pt, p) == []
    requires |inputs| >= 2 && Distinct(inputs)
    requires forall x :: x in order ==> Reachable(pt, inputs, x)
    requires |order| >= 2 * |inputs| - 1
    ensures !Distinct(order)
  {
    forall x | x in order
      ensures x in inputs
    {
      ReachBounded(pt, inputs, x);
      forall q | q in pt
        ensures pt[q] == []
      {
        assert Dependents(pt, q) == [];
      }
      assert x !in Targets(pt);
    }
    assert Members(order) <= Members(inputs);
    DistinctCard(inputs);
    if Distinct(order) {
      DistinctCard(order);
      SubsetCard(Members(order), Members(inputs));
      assert false;
    }
  }
}
