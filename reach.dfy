/**
 * Reachability along `providesTo`: the cells whose values can change when
 * a given list of cells changes. Both variants of `partialEvalOrder` are
 * specified against it.
 */
module Reach {
  import opened Sheet
  import opened DepsToProvides

  /** A walk from provider to requirer, one `providesTo` edge at a time. */
  ghost predicate IsPath(pt: ProvidesTo, p: seq<CellRef>)
  {
    |p| >= 1 && forall i :: 0 <= i < |p| - 1 ==> p[i + 1] in Dependents(pt, p[i])
  }

  /** `c` is an input or depends, directly or transitively, on one. */
  ghost predicate Reachable(pt: ProvidesTo, inputs: seq<CellRef>, c: CellRef)
  {
    exists p :: IsPath(pt, p) && p[0] in inputs && p[|p| - 1] == c
  }

  /** `S` holds the requirers of each of its members. */
  ghost predicate Closed(pt: ProvidesTo, S: set<CellRef>)
  {
    forall x, y :: x in S && y in Dependents(pt, x) ==> y in S
  }

  lemma ReachInput(pt: ProvidesTo, inputs: seq<CellRef>, c: CellRef)
    requires c in inputs
    ensures Reachable(pt, inputs, c)
  {
    assert IsPath(pt, [c]);
  }

  lemma ReachStep(pt: ProvidesTo, inputs: seq<CellRef>, x: CellRef, y: CellRef)
    requires Reachable(pt, inputs, x) && y in Dependents(pt, x)
    ensures Reachable(pt, inputs, y)
  {
    var p :| IsPath(pt, p) && p[0] in inputs && p[|p| - 1] == x;
    assert IsPath(pt, p + [y]);
  }

  lemma {:induction false} PathInClosed(pt: ProvidesTo, S: set<CellRef>, p: seq<CellRef>)
    requires IsPath(pt, p) && p[0] in S && Closed(pt, S)
    ensures p[|p| - 1] in S
    decreases |p|
  {
    if |p| > 1 {
      var q := p[..|p| - 1];
      assert IsPath(pt, q);
      PathInClosed(pt, S, q);
    }
  }

  /** Every set that holds the inputs and is closed holds every reachable cell. */
  lemma ReachClosed(pt: ProvidesTo, inputs: seq<CellRef>, S: set<CellRef>, c: CellRef)
    requires forall x :: x in inputs ==> x in S
    requires Closed(pt, S)
    requires Reachable(pt, inputs, c)
    ensures c in S
  {
    var p :| IsPath(pt, p) && p[0] in inputs && p[|p| - 1] == c;
    PathInClosed(pt, S, p);
  }

  /** The cells that appear as some provider's requirer. */
  ghost function Targets(pt: ProvidesTo): set<CellRef>
  {
    set p, x | p in pt && x in pt[p] :: x
  }

  /** A reachable cell is an input or a requirer of something. */
  lemma ReachBounded(pt: ProvidesTo, inputs: seq<CellRef>, c: CellRef)
    requires Reachable(pt, inputs, c)
    ensures c in inputs || c in Targets(pt)
  {
    var p :| IsPath(pt, p) && p[0] in inputs && p[|p| - 1] == c;
    if |p| > 1 {
      var k := |p| - 2;
      assert p[k + 1] in Dependents(pt, p[k]);
    }
  }
}
