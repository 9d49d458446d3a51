/**
 * `partialEvalOrder` as compiled in dist/: a depth-first worklist that
 * collects every cell reachable from the inputs (each pushed once, the
 * visited set guarding the stack), then reads the result off the global
 * evaluation order.
 */
module PartialEvalOrder {
  import opened Sheet
  import opened DepsToProvides
  import opened Reach
  import opened Seqs

  /** `list.filterNot(visited.has)`, kept in list order. */
  function Without(s: seq<CellRef>, visited: set<CellRef>): (r: seq<CellRef>)
    ensures forall x :: x in r <==> x in s && x !in visited
    decreases |s|
  {
    if s == [] then []
    else
      var n := |s| - 1;
      Without(s[..n], visited) + (if s[n] in visited then [] else [s[n]])
  }

  /** The cells reachable from `inputs`, among those listed in `globalOrder`. */
  ghost function ReachIn(pt: ProvidesTo, globalOrder: seq<CellRef>, inputs: seq<CellRef>): set<CellRef>
  {
    set c | c in globalOrder && Reachable(pt, inputs, c)
  }

  lemma StrictSubsetCard(A: set<CellRef>, B: set<CellRef>)
    requires A < B
    ensures |A| < |B|
  {
    var x :| x in B && x !in A;
    assert B == A + (B - A) && A * (B - A) == {};
    assert x in B - A;
  }

  /**
   * The worklist's state: every input is visited, every stacked cell is
   * visited, every visited cell is reachable, and a visited cell that has
   * left the stack has all its requirers visited.
   */
  ghost predicate Frontier(pt: ProvidesTo, inputs: seq<CellRef>, next: seq<CellRef>, toEval: set<CellRef>)
  {
    && (forall x :: x in inputs ==> x in toEval)
    && (forall x :: x in next ==> x in toEval)
    && (forall x :: x in toEval ==> Reachable(pt, inputs, x))
    && (forall x, y :: x in toEval && x !in next && y in Dependents(pt, x) ==> y in toEval)
  }

  lemma FrontierStart(pt: ProvidesTo, inputs: seq<CellRef>)
    ensures Frontier(pt, inputs, inputs, Members(inputs))
  {
    forall x | x in inputs
      ensures Reachable(pt, inputs, x)
    {
      ReachInput(pt, inputs, x);
    }
  }

  /** One pop: the requirers not yet visited are marked and pushed. */
  lemma FrontierStep(pt: ProvidesTo, inputs: seq<CellRef>, next: seq<CellRef>, toEval: set<CellRef>,
                     toAdd: seq<CellRef>, next': seq<CellRef>, toEval': set<CellRef>)
    requires next != [] && Frontier(pt, inputs, next, toEval)
    requires forall x :: x in toAdd <==> x in Dependents(pt, next[0]) && x !in toEval
    requires next' == toAdd + next[1..]
    requires forall x :: x in toEval' <==> x in toEval || x in toAdd
    ensures Frontier(pt, inputs, next', toEval')
  {
    var node := next[0];
    assert forall x :: x in inputs ==> x in toEval';
    assert forall x :: x in next' ==> x in toEval' by {
      forall x | x in next'
        ensures x in toEval'
      {
        if x !in toAdd {
          assert x in next[1..];
        }
      }
    }
    assert forall x :: x in toEval' ==> Reachable(pt, inputs, x) by {
      forall y | y in toEval'
        ensures Reachable(pt, inputs, y)
      {
        if y in toAdd {
          ReachStep(pt, inputs, node, y);
        }
      }
    }
    assert forall x, y :: x in toEval' && x !in next' && y in Dependents(pt, x) ==> y in toEval' by {
      forall x, y | x in toEval' && x !in next' && y in Dependents(pt, x)
        ensures y in toEval'
      {
        if x != node {
          assert x !in next[1..] && x !in toAdd;
          assert x !in next;
        }
      }
    }
  }

  /** One pop either visits a new cell of the universe or shrinks the stack. */
  lemma StepProgress(pt: ProvidesTo, universe: set<CellRef>, next: seq<CellRef>, toEval: set<CellRef>)
    requires next != [] && toEval <= universe && Targets(pt) <= universe
    ensures var toAdd := Without(Dependents(pt, next[0]), toEval);
            var toEval' := toEval + Members(toAdd);
            && toEval' <= universe
            && (toAdd != [] ==> |universe - toEval'| < |universe - toEval|)
  {
    var toAdd := Without(Dependents(pt, next[0]), toEval);
    forall y | y in toAdd
      ensures y in universe
    {
      assert y in pt[next[0]];
    }
    if toAdd != [] {
      assert toAdd[0] !in toEval;
      StrictSubsetCard(universe - (toEval + Members(toAdd)), universe - toEval);
    }
  }

  /** With the stack empty, the visited set is closed, so it holds exactly the reachable cells. */
  lemma FrontierDone(pt: ProvidesTo, globalOrder: seq<CellRef>, inputs: seq<CellRef>, toEval: set<CellRef>)
    requires Frontier(pt, inputs, [], toEval)
    ensures Keep(globalOrder, toEval) == Keep(globalOrder, ReachIn(pt, globalOrder, inputs))
  {
    forall c | Reachable(pt, inputs, c)
      ensures c in toEval
    {
      ReachClosed(pt, inputs, toEval, c);
    }
    KeepAgree(globalOrder, toEval, ReachIn(pt, globalOrder, inputs));
  }

  /**
   * The cells of `globalOrder` that depend, directly or transitively, on an
   * input, and the inputs themselves, in global order.
   */
  method PartialEvalOrder(pt: ProvidesTo, globalOrder: seq<CellRef>, inputs: seq<CellRef>)
    returns (r: seq<CellRef>)
    ensures r == Keep(globalOrder, ReachIn(pt, globalOrder, inputs))
  {
    ghost var universe := (set x | x in inputs) + Targets(pt);
    var next := inputs;            // the stack, top first
    var toEval := set x | x in inputs;
    FrontierStart(pt, inputs);
    while next != []
      invariant toEval <= universe
      invariant Frontier(pt, inputs, next, toEval)
      decreases |universe - toEval|, |next|
    {
      StepProgress(pt, universe, next, toEval);
      var node := next[0];
      var toAdd := Without(Dependents(pt, node), toEval);
      FrontierStep(pt, inputs, next, toEval, toAdd, toAdd + next[1..], toEval + set x | x in toAdd);
      next := next[1..];
      toEval := toEval + set x | x in toAdd;
      next := toAdd + next;
    }
    FrontierDone(pt, globalOrder, inputs, toEval);
    r := Keep(globalOrder, toEval);
  }
}
