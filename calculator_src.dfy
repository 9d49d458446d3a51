/**
 * The calculator as written in src/: no caches and no user-update
 * functions. Every cell on the `partialEvalOrder` worklist is recomputed,
 * the changed inputs included. The store, the passes and `setValues` are
 * proved against the value-level functions below. The store write as
 * written (`hasIn` on a padded row) and `eachCell` (indices not offset
 * by the range's start) are modelled beside their corrected forms.
 */
module CalculatorSrc {
  import opened Wrappers
  import opened Values
  import opened Sheet
  import opened DepMaps
  import opened DepsToProvides
  import Deps
  import opened Seqs
  import opened Reach
  import opened PartialEvalOrderSrc
  import opened EvalOrder
  import opened ValueStore
  import CalcModel

  /* ---------- the store write as written ---------- */

  /** A row slot of an Immutable list: a padding hole left by a write further down, or a row. */
  datatype Slot = Hole | Row(cells: seq<Value>)

  type SlotStore = map<TabId, seq<Slot>>

  /** `_getCellValue` over slots: `getIn` through a hole yields `Undefined`. */
  function GetAsWritten(s: SlotStore, c: CellRef): Value
  {
    if c.tabId !in s then Null
    else
      var rows := s[c.tabId];
      if c.rowIdx < |rows| && rows[c.rowIdx].Row? && c.colIdx < |rows[c.rowIdx].cells|
      then rows[c.rowIdx].cells[c.colIdx]
      else Undefined
  }

  /**
   * `_setCellValue` as written: a row is created only when `hasIn` finds
   * no slot, and a hole counts as a slot; `setIn` through the hole then
   * throws (`None`). Otherwise the cell is written and nothing else moves.
   */
  function SetCellAsWritten(s: SlotStore, c: CellRef, v: Value): (r: Option<SlotStore>)
    ensures r.None? <==> c.tabId in s && c.rowIdx < |s[c.tabId]| && s[c.tabId][c.rowIdx].Hole?
    ensures r.Some? ==> GetAsWritten(r.value, c) == v
    ensures r.Some? ==> forall d :: d != c && (d.tabId in s || d.tabId != c.tabId)
                           ==> GetAsWritten(r.value, d) == GetAsWritten(s, d)
  {
    var s1 := if c.tabId in s then s else s[c.tabId := []];
    var rows := s1[c.tabId];
    var rows1 := if c.rowIdx < |rows| then rows else SetAt(rows, c.rowIdx, Row([]), Hole);
    match rows1[c.rowIdx]
    case Hole => None
    case Row(cells) => Some(s1[c.tabId := rows1[c.rowIdx := Row(SetAt(cells, c.colIdx, v, Undefined))]])
  }

  /**
   * Writing a row below an unwritten one leaves a hole, and the next write
   * into the hole throws: the order A2 then A1, which evaluating
   * `A1 = "=A2"` after a static A2 produces, fails on an empty tab.
   */
  lemma OutOfOrderRowsThrow()
    ensures var first := SetCellAsWritten(map["t" := []], CellRef("t", 1, 0), Num(1));
            && first.Some?
            && SetCellAsWritten(first.value, CellRef("t", 0, 0), Num(2)).None?
  {
    var first := SetCellAsWritten(map["t" := []], CellRef("t", 1, 0), Num(1));
    assert first.value["t"][0] == Hole;
  }

  /* ---------- eachCell ---------- */

  /** The number of indices from `lo` to `hi` inclusive: the `for (i = 0; i <= hi - lo; ++i)` count. */
  function Span(lo: nat, hi: nat): (n: nat)
    ensures n == 0 <==> hi < lo
    ensures lo <= hi ==> lo + n - 1 == hi
  {
    if hi >= lo then hi - lo + 1 else 0
  }

  /** The cell `r` rows and `c` columns past `start`, on `start`'s tab. */
  function Offset(start: CellRef, r: nat, c: nat): CellRef
  {
    CellRef(start.tabId, start.rowIdx + r, start.colIdx + c)
  }

  /** `c` lies in the rectangle from `start` to `end` on `start`'s tab. */
  ghost predicate InRange(start: CellRef, end: CellRef, c: CellRef)
  {
    c.tabId == start.tabId && start.rowIdx <= c.rowIdx <= end.rowIdx && start.colIdx <= c.colIdx <= end.colIdx
  }

  /**
   * `eachCell(start, end, fn)` as written: a grid of the range's
   * dimensions whose entry `[r][c]` is `fn` of `start` moved to row `r`,
   * column `c`, counted from the sheet's origin instead of from `start`.
   */
  method EachCell(start: CellRef, end: CellRef, fn: CellRef -> Value) returns (grid: seq<seq<Value>>)
    ensures |grid| == Span(start.rowIdx, end.rowIdx)
    ensures forall r :: 0 <= r < |grid| ==> |grid[r]| == Span(start.colIdx, end.colIdx)
    ensures forall r, c :: 0 <= r < |grid| && 0 <= c < |grid[r]| ==> grid[r][c] == fn(CellRef(start.tabId, r, c))
  {
    var rows := end.rowIdx - start.rowIdx;
    var cols := end.colIdx - start.colIdx;
    grid := [];
    var r := 0;
    while r <= rows
      invariant 0 <= r && |grid| == r && r <= Span(start.rowIdx, end.rowIdx)
      invariant forall i :: 0 <= i < r ==> |grid[i]| == Span(start.colIdx, end.colIdx)
      invariant forall i, k :: 0 <= i < r && 0 <= k < |grid[i]| ==> grid[i][k] == fn(CellRef(start.tabId, i, k))
    {
      var row := [];
      var c := 0;
      while c <= cols
        invariant 0 <= c && |row| == c && c <= Span(start.colIdx, end.colIdx)
        invariant forall k :: 0 <= k < c ==> row[k] == fn(CellRef(start.tabId, r, k))
      {
        row := row + [fn(start.(rowIdx := r, colIdx := c))];
        c := c + 1;
      }
      grid := grid + [row];
      r := r + 1;
    }
  }

  /** `eachCell`, corrected: entry `[r][c]` is `fn` of the cell `r` rows and `c` columns past `start`. */
  method EachCellInRange(start: CellRef, end: CellRef, fn: CellRef -> Value) returns (grid: seq<seq<Value>>)
    ensures |grid| == Span(start.rowIdx, end.rowIdx)
    ensures forall r :: 0 <= r < |grid| ==> |grid[r]| == Span(start.colIdx, end.colIdx)
    ensures forall r, c :: 0 <= r < |grid| && 0 <= c < |grid[r]|
              ==> grid[r][c] == fn(Offset(start, r, c))
  {
    var rows := end.rowIdx - start.rowIdx;
    var cols := end.colIdx - start.colIdx;
    grid := [];
    var r := 0;
    while r <= rows
      invariant 0 <= r && |grid| == r && r <= Span(start.rowIdx, end.rowIdx)
      invariant forall i :: 0 <= i < r ==> |grid[i]| == Span(start.colIdx, end.colIdx)
      invariant forall i, k :: 0 <= i < r && 0 <= k < |grid[i]|
                  ==> grid[i][k] == fn(Offset(start, i, k))
    {
      var row := [];
      var c := 0;
      while c <= cols
        invariant 0 <= c && |row| == c && c <= Span(start.colIdx, end.colIdx)
        invariant forall k :: 0 <= k < c ==> row[k] == fn(Offset(start, r, k))
      {
        row := row + [fn(start.(rowIdx := start.rowIdx + r, colIdx := start.colIdx + c))];
        c := c + 1;
      }
      grid := grid + [row];
      r := r + 1;
    }
  }

  /** The corrected grid's positions name exactly the cells of the range, each once. */
  lemma RangeCovered(start: CellRef, end: CellRef, x: CellRef)
    ensures InRange(start, end, x) <==>
              exists r: nat, c: nat :: r < Span(start.rowIdx, end.rowIdx) && c < Span(start.colIdx, end.colIdx)
                                      && x == Offset(start, r, c)
  {
    if InRange(start, end, x) {
      var r: nat, c: nat := x.rowIdx - start.rowIdx, x.colIdx - start.colIdx;
      assert x == Offset(start, r, c);
    }
  }

  /**
   * As written, a range that does not start at the origin has its first
   * entry computed from `(0, 0)`, a cell outside the range.
   */
  lemma EachCellLeavesRange(start: CellRef, end: CellRef)
    requires start.rowIdx > 0 || start.colIdx > 0
    ensures !InRange(start, end, CellRef(start.tabId, 0, 0))
  {
  }

  /* ---------- evaluation and passes ---------- */

  /** The src formula parser, left uninterpreted: a formula evaluated for a cell against the store. */
  type Evaluator = (string, CellRef, Vals) -> CalcModel.ParseResult

  /**
   * `_calculateCellValue(c)`: a formula cell gets the parse error or the
   * result; a cell with a static value gets it; any other cell keeps its
   * stored value.
   */
  function CellValue(tabs: seq<Tab>, ev: Evaluator, vals: Vals, c: CellRef): Value
    requires GetCell(tabs, c).Some?
  {
    var cell := GetCell(tabs, c).value;
    if HasFormula(cell) then CalcModel.ParseValue(ev(cell.formula, c, vals))
    else if cell.staticValue != Null then cell.staticValue
    else Get(vals, c)
  }

  /** `_processCalculations(order)`: each cell recomputed and stored in turn, later ones seeing earlier results. */
  function Pass(tabs: seq<Tab>, ev: Evaluator, vals: Vals, w: seq<CellRef>): Vals
    requires CalcModel.AllExist(tabs, w)
    decreases |w|
  {
    if w == [] then vals
    else
      assert forall x :: x in w[1..] ==> x in w;
      Pass(tabs, ev, ValueStore.Put(vals, w[0], CellValue(tabs, ev, vals, w[0])), w[1..])
  }

  /** A document cell holds what it should: its formula's value, or its static value. */
  ghost predicate Consistent(tabs: seq<Tab>, ev: Evaluator, vals: Vals, c: CellRef)
  {
    match GetCell(tabs, c)
    case None => true
    case Some(cell) =>
      if HasFormula(cell) then Get(vals, c) == CalcModel.ParseValue(ev(cell.formula, c, vals))
      else cell.staticValue != Null ==> Get(vals, c) == cell.staticValue
  }

  /** Evaluation reads only what the dependency scan reports. */
  ghost predicate Local(ev: Evaluator, scan: Deps.Scanner)
  {
    forall formula: string, c: CellRef, v1: Vals, v2: Vals :: Agree(v1, v2, Deps.ReadsOf(c.tabId, scan(formula)))
      ==> CalcModel.ParseValue(ev(formula, c, v1)) == CalcModel.ParseValue(ev(formula, c, v2))
  }

  /** Every requirer of a worklist entry comes later in the worklist. */
  ghost predicate Follows(pt: ProvidesTo, w: seq<CellRef>)
  {
    forall i, y :: 0 <= i < |w| && y in Dependents(pt, w[i]) ==> y in w[i + 1..]
  }

  /** A cell whose value and reads are unchanged stays consistent. */
  lemma StillConsistent(tabs: seq<Tab>, ev: Evaluator, scan: Deps.Scanner, v1: Vals, v2: Vals, c: CellRef)
    requires Local(ev, scan) && Consistent(tabs, ev, v1, c)
    requires Get(v1, c) == Get(v2, c) && Agree(v1, v2, CalcModel.Reads(tabs, scan, c))
    ensures Consistent(tabs, ev, v2, c)
  {
    if GetCell(tabs, c).Some? && HasFormula(GetCell(tabs, c).value) {
      var f := GetCell(tabs, c).value.formula;
      assert Agree(v1, v2, Deps.ReadsOf(c.tabId, scan(f)));
    }
  }

  /** A requirer of anything is a cell of the document. */
  lemma RequirerExists(tabs: seq<Tab>, scan: Deps.Scanner, p: CellRef, y: CellRef)
    requires DistinctIds(tabs)
    requires y in Dependents(ProvidesToOf(Deps.Deps(tabs, scan)), p)
    ensures GetCell(tabs, y).Some?
  {
    CalcModel.ReadEdge(tabs, scan, y, p);
  }

  /**
   * Storing `c`'s recomputed value keeps every cell that does not read
   * `c` consistent, `c` itself included when it does not read itself.
   */
  lemma StepKeeps(tabs: seq<Tab>, ev: Evaluator, scan: Deps.Scanner, vals: Vals, c: CellRef, x: CellRef)
    requires Local(ev, scan) && CalcModel.TabsStored(tabs, vals) && GetCell(tabs, c).Some?
    requires c !in CalcModel.Reads(tabs, scan, x)
    requires x == c || Consistent(tabs, ev, vals, x)
    ensures Consistent(tabs, ev, ValueStore.Put(vals, c, CellValue(tabs, ev, vals, c)), x)
  {
    var vals' := ValueStore.Put(vals, c, CellValue(tabs, ev, vals, c));
    assert Agree(vals, vals', CalcModel.Reads(tabs, scan, x)) by {
      if GetCell(tabs, x).Some? {
        assert x.tabId in vals;
      }
    }
    if x == c {
      var cell := GetCell(tabs, c).value;
      if HasFormula(cell) {
        assert Agree(vals, vals', Deps.ReadsOf(c.tabId, scan(cell.formula)));
      }
    } else if GetCell(tabs, x).Some? {
      assert x.tabId in vals;
      StillConsistent(tabs, ev, scan, vals, vals', x);
    }
  }

  lemma FollowsTail(pt: ProvidesTo, w: seq<CellRef>)
    requires w != [] && Follows(pt, w)
    ensures Follows(pt, w[1..])
  {
    forall i, y | 0 <= i < |w| - 1 && y in Dependents(pt, w[1..][i])
      ensures y in w[1..][i + 1..]
    {
      assert w[1..][i] == w[i + 1] && w[1..][i + 1..] == w[i + 2..];
    }
  }

  /**
   * A pass over a worklist in which every requirer follows its provider
   * leaves the whole document consistent, provided the cells it starts
   * out inconsistent are on the worklist. The worklist may repeat cells;
   * their last evaluation comes after that of everything they read.
   */
  lemma {:induction false} PassSettles(tabs: seq<Tab>, ev: Evaluator, scan: Deps.Scanner, vals: Vals, w: seq<CellRef>)
    requires DistinctIds(tabs) && Local(ev, scan) && CalcModel.TabsStored(tabs, vals)
    requires CalcModel.AllExist(tabs, w) && Follows(ProvidesToOf(Deps.Deps(tabs, scan)), w)
    requires forall x :: !Consistent(tabs, ev, vals, x) ==> x in w
    ensures forall x :: Consistent(tabs, ev, Pass(tabs, ev, vals, w), x)
    decreases |w|
  {
    if w != [] {
      var pt := ProvidesToOf(Deps.Deps(tabs, scan));
      var c := w[0];
      var vals' := ValueStore.Put(vals, c, CellValue(tabs, ev, vals, c));
      forall x | x !in w[1..]
        ensures Consistent(tabs, ev, vals', x)
      {
        CalcModel.ReadEdge(tabs, scan, x, c);
        assert x !in Dependents(pt, w[0]);
        assert x == c || x !in w;
        StepKeeps(tabs, ev, scan, vals, c, x);
      }
      FollowsTail(pt, w);
      assert CalcModel.AllExist(tabs, w[1..]) by {
        assert forall x :: x in w[1..] ==> x in w;
      }
      assert CalcModel.TabsStored(tabs, vals');
      PassSettles(tabs, ev, scan, vals', w[1..]);
    }
  }

  /** Recomputing the cells in a topological order of the whole document leaves every cell consistent. */
  lemma CalculateAllSettles(tabs: seq<Tab>, ev: Evaluator, scan: Deps.Scanner, vals: Vals, o: seq<CellRef>)
    requires DistinctIds(tabs) && Local(ev, scan) && CalcModel.TabsStored(tabs, vals)
    requires IsTopoOrder(AllCellRefs(tabs), Edges(Deps.Deps(tabs, scan)), o)
    ensures CalcModel.AllExist(tabs, o)
    ensures forall x :: Consistent(tabs, ev, Pass(tabs, ev, vals, o), x)
  {
    var pt := ProvidesToOf(Deps.Deps(tabs, scan));
    forall x | x in o
      ensures GetCell(tabs, x).Some?
    {
      AllCellRefsAreCells(tabs, x);
    }
    forall i, y | 0 <= i < |o| && y in Dependents(pt, o[i])
      ensures y in o[i + 1..]
    {
      CalcModel.ReadEdge(tabs, scan, y, o[i]);
      RequirerExists(tabs, scan, o[i], y);
      AllCellRefsAreCells(tabs, y);
      var j :| 0 <= j < |o| && o[j] == y;
      assert i < j;
      assert o[i + 1..][j - i - 1] == y;
    }
    forall x | !Consistent(tabs, ev, vals, x)
      ensures x in o
    {
      AllCellRefsAreCells(tabs, x);
    }
    PassSettles(tabs, ev, scan, vals, o);
  }

  /* ---------- the writes of setValues ---------- */

  /** The `forEach` of `setValues`: each value stored, editable or not; a cell not in the document throws. */
  function WriteAll(tabs: seq<Tab>, vals: Vals, updates: seq<(CellRef, Value)>): (Vals, Option<CellRef>)
    decreases |updates|
  {
    if updates == [] then (vals, None)
    else
      var n := |updates| - 1;
      var prev := WriteAll(tabs, vals, updates[..n]);
      if prev.1.Some? then prev
      else if GetCell(tabs, updates[n].0).None? then (prev.0, Some(updates[n].0))
      else (ValueStore.Put(prev.0, updates[n].0, updates[n].1), None)
  }

  /** The writes change only the given cells, and every tab stays stored. */
  lemma {:induction false} WriteAllFrame(tabs: seq<Tab>, vals: Vals, updates: seq<(CellRef, Value)>)
    requires CalcModel.TabsStored(tabs, vals)
    ensures CalcModel.TabsStored(tabs, WriteAll(tabs, vals, updates).0)
    ensures forall d :: d !in CalcModel.Keys(updates) ==> Get(WriteAll(tabs, vals, updates).0, d) == Get(vals, d)
    decreases |updates|
  {
    if updates != [] {
      var n := |updates| - 1;
      WriteAllFrame(tabs, vals, updates[..n]);
      var prev := WriteAll(tabs, vals, updates[..n]);
      var c := updates[n].0;
      assert CalcModel.Keys(updates) == CalcModel.Keys(updates[..n]) + [c];
      if prev.1.None? && GetCell(tabs, c).Some? {
        assert WriteAll(tabs, vals, updates).0 == ValueStore.Put(prev.0, c, updates[n].1);
        assert c.tabId in prev.0;
      } else {
        assert WriteAll(tabs, vals, updates).0 == prev.0;
      }
    }
  }

  /**
   * The writes fail exactly at the first cell not in the document: on
   * success every given cell exists, on failure the failing cell is a
   * given one, missing from the document, and every cell before it exists.
   */
  lemma {:induction false} WriteAllFails(tabs: seq<Tab>, vals: Vals, updates: seq<(CellRef, Value)>)
    ensures WriteAll(tabs, vals, updates).1.None? ==> CalcModel.AllExist(tabs, CalcModel.Keys(updates))
    ensures var bad := WriteAll(tabs, vals, updates).1;
            bad.Some? ==> exists i :: 0 <= i < |updates| && updates[i].0 == bad.value
                                && GetCell(tabs, bad.value).None?
                                && CalcModel.AllExist(tabs, CalcModel.Keys(updates[..i]))
    decreases |updates|
  {
    if updates != [] {
      var n := |updates| - 1;
      WriteAllFails(tabs, vals, updates[..n]);
      var prev := WriteAll(tabs, vals, updates[..n]);
      var c := updates[n].0;
      if prev.1.Some? {
        assert WriteAll(tabs, vals, updates).1 == prev.1;
        var i :| 0 <= i < n && updates[..n][i].0 == prev.1.value && GetCell(tabs, prev.1.value).None?
                 && CalcModel.AllExist(tabs, CalcModel.Keys(updates[..n][..i]));
        CalcModel.PrefixOfPrefix(updates, n, i);
      } else if GetCell(tabs, c).Some? {
        assert WriteAll(tabs, vals, updates).1 == None;
        assert CalcModel.Keys(updates) == CalcModel.Keys(updates[..n]) + [c];
      } else {
        assert WriteAll(tabs, vals, updates).1 == Some(c);
        assert updates[n].0 == c && CalcModel.AllExist(tabs, CalcModel.Keys(updates[..n]));
      }
    }
  }

  /** Once failed, the writes stay failed: entry `j - 1` is not written. */
  lemma WriteAllFailed(tabs: seq<Tab>, vals: Vals, updates: seq<(CellRef, Value)>, j: nat)
    requires 0 < j <= |updates| && WriteAll(tabs, vals, updates[..j - 1]).1.Some?
    ensures WriteAll(tabs, vals, updates[..j]) == WriteAll(tabs, vals, updates[..j - 1])
  {
    assert updates[..j][..j - 1] == updates[..j - 1];
  }

  /** A failed write leaves the store as the writes before the failing cell left it. */
  lemma {:induction false} WriteAllPrefix(tabs: seq<Tab>, vals: Vals, updates: seq<(CellRef, Value)>, k: nat)
    requires 0 < k <= |updates|
    requires WriteAll(tabs, vals, updates[..k]).1.Some?
    ensures WriteAll(tabs, vals, updates) == WriteAll(tabs, vals, updates[..k])
  {
    WriteAllFailedFrom(tabs, vals, updates, k, |updates|);
    assert updates[..|updates|] == updates;
  }

  /** Every longer prefix after a failure ends as the failure left it. */
  lemma {:induction false} WriteAllFailedFrom(tabs: seq<Tab>, vals: Vals, updates: seq<(CellRef, Value)>, k: nat, j: nat)
    requires 0 < k <= j <= |updates|
    requires WriteAll(tabs, vals, updates[..k]).1.Some?
    ensures WriteAll(tabs, vals, updates[..j]) == WriteAll(tabs, vals, updates[..k])
    decreases j
  {
    if j > k {
      WriteAllFailedFrom(tabs, vals, updates, k, j - 1);
      WriteAllFailed(tabs, vals, updates, j);
    }
  }

  /** The writes stop at the first cell not in the document, with the store as the earlier writes left it. */
  lemma WriteAllStop(tabs: seq<Tab>, vals: Vals, updates: seq<(CellRef, Value)>, i: nat)
    requires i < |updates| && WriteAll(tabs, vals, updates[..i]).1.None?
    requires GetCell(tabs, updates[i].0).None?
    ensures WriteAll(tabs, vals, updates) == (WriteAll(tabs, vals, updates[..i]).0, Some(updates[i].0))
  {
    assert updates[..i + 1][..i] == updates[..i];
    WriteAllPrefix(tabs, vals, updates, i + 1);
  }

  /**
   * `setValues` in src: after writing the inputs into a consistent store,
   * recomputing a worklist that starts with the inputs, holds only cells
   * reachable from them and lists every requirer after its provider
   * leaves every cell of the document consistent. A given value survives
   * only on a cell with neither formula nor static value.
   */
  lemma SetValuesSettles(tabs: seq<Tab>, ev: Evaluator, scan: Deps.Scanner, vals: Vals,
                         updates: seq<(CellRef, Value)>, order: seq<CellRef>)
    requires DistinctIds(tabs) && Local(ev, scan) && CalcModel.TabsStored(tabs, vals)
    requires forall x :: Consistent(tabs, ev, vals, x)
    requires WriteAll(tabs, vals, updates).1.None?
    requires |order| >= |updates| && order[..|updates|] == CalcModel.Keys(updates)
    requires forall x :: x in order ==> Reachable(ProvidesToOf(Deps.Deps(tabs, scan)), CalcModel.Keys(updates), x)
    requires Follows(ProvidesToOf(Deps.Deps(tabs, scan)), order)
    ensures CalcModel.AllExist(tabs, order)
    ensures forall x :: Consistent(tabs, ev, Pass(tabs, ev, WriteAll(tabs, vals, updates).0, order), x)
  {
    var pt := ProvidesToOf(Deps.Deps(tabs, scan));
    var keys := CalcModel.Keys(updates);
    var vals1 := WriteAll(tabs, vals, updates).0;
    WriteAllFrame(tabs, vals, updates);
    WriteAllFails(tabs, vals, updates);
    forall x | x in order
      ensures GetCell(tabs, x).Some?
    {
      ReachBounded(pt, keys, x);
      if x !in keys {
        var p :| p in pt && x in pt[p];
        RequirerExists(tabs, scan, p, x);
      }
    }
    forall x | x !in order
      ensures Consistent(tabs, ev, vals1, x)
    {
      assert x !in keys by {
        assert keys == order[..|updates|];
      }
      forall i | 0 <= i < |keys|
        ensures keys[i] !in CalcModel.Reads(tabs, scan, x)
      {
        assert order[i] == keys[i];
        assert x !in order[i + 1..];
        CalcModel.ReadEdge(tabs, scan, x, keys[i]);
      }
      assert Agree(vals, vals1, CalcModel.Reads(tabs, scan, x));
      StillConsistent(tabs, ev, scan, vals, vals1, x);
    }
    PassSettles(tabs, ev, scan, vals1, order);
  }

  /**
   * A static input does not keep its given value: the worklist starts
   * with the inputs, and recomputing a static cell stores its static value
   * again.
   */
  lemma StaticInputReset(tabs: seq<Tab>, ev: Evaluator, vals: Vals, c: CellRef, v: Value)
    requires GetCell(tabs, c).Some? && !HasFormula(GetCell(tabs, c).value)
    requires GetCell(tabs, c).value.staticValue != Null
    ensures Get(Pass(tabs, ev, WriteAll(tabs, vals, [(c, v)]).0, [c]), c) == GetCell(tabs, c).value.staticValue
  {
    assert [(c, v)][..0] == [];
  }

  /** The position of `x` in a list that holds it once. */
  function IndexOf(o: seq<CellRef>, x: CellRef): (i: nat)
    requires x in o
    ensures i < |o| && o[i] == x
  {
    if o[0] == x then 0 else 1 + IndexOf(o[1..], x)
  }

  /**
   * The ranking `SetValues` asks for exists whenever `calculateAll`
   * succeeded: rank each cell by its distance from the end of the
   * evaluation order, and every other cell (an empty cell a formula
   * reads, a cell named in the update) above all of them. Together with
   * `CycleUnranked` this makes the ranking requirement exactly the
   * absence of reachable cycles for a document that has an order.
   */
  lemma RankFromOrder(tabs: seq<Tab>, scan: Deps.Scanner, o: seq<CellRef>, extra: set<CellRef>)
    returns (rank: map<CellRef, nat>)
    requires DistinctIds(tabs)
    requires IsTopoOrder(AllCellRefs(tabs), Edges(Deps.Deps(tabs, scan)), o)
    ensures Ranked(ProvidesToOf(Deps.Deps(tabs, scan)), rank)
    ensures forall x :: x in o || x in extra ==> x in rank
  {
    var pt := ProvidesToOf(Deps.Deps(tabs, scan));
    var dom := Members(o) + pt.Keys + extra;
    rank := map x | x in dom :: if x in o then |o| - IndexOf(o, x) else |o| + 1;
    forall p, y | p in rank && y in Dependents(pt, p)
      ensures y in rank && rank[y] < rank[p]
    {
      RequirerExists(tabs, scan, p, y);
      AllCellRefsAreCells(tabs, y);
      assert y in o;
      if p in o {
        CalcModel.ReadEdge(tabs, scan, y, p);
        var i, j := IndexOf(o, p), IndexOf(o, y);
        assert (o[i], o[j]) in Edges(Deps.Deps(tabs, scan));
      }
    }
  }

  /* ---------- the class ---------- */

  class Calculator {
    const tabs: seq<Tab>
    const scan: Deps.Scanner
    const evaluate: Evaluator
    /** Cell -> the single-cell references its formula reads. */
    const deps: DepMap
    /** Cell -> the cells whose formulas read it. */
    const providesTo: ProvidesTo
    var vals: Vals

    /** The dependency maps are those of the document, and the store covers every tab. */
    ghost predicate Valid()
      reads this
    {
      && DistinctIds(tabs)
      && deps == Deps.Deps(tabs, scan)
      && providesTo == ProvidesToOf(deps)
      && CalcModel.TabsStored(tabs, vals)
    }

    /** The constructor, before its `calculateAll`: an empty row list per tab. */
    constructor(tabs: seq<Tab>, scan: Deps.Scanner, evaluate: Evaluator)
      requires DistinctIds(tabs)
      ensures this.tabs == tabs && this.scan == scan && this.evaluate == evaluate
      ensures Valid() && vals == Initial(tabs)
    {
      this.tabs := tabs;
      this.scan := scan;
      this.evaluate := evaluate;
      deps := Deps.Deps(tabs, scan);
      providesTo := ProvidesToOf(Deps.Deps(tabs, scan));
      vals := Initial(tabs);
      CalcModel.InitialStored(tabs);
    }

    /**
     * `_setCellValue`, corrected: the row is created when it is missing or
     * a padding hole, so every write succeeds.
     */
    method SetCellValue(c: CellRef, v: Value)
      modifies this`vals
      ensures vals == ValueStore.Put(old(vals), c, v)
    {
      ghost var v0 := vals;
      if c.tabId !in vals {
        vals := vals[c.tabId := []];
      }
      var rows := vals[c.tabId];
      if c.rowIdx >= |rows| {
        rows := SetAt(rows, c.rowIdx, [], []);
      }
      PutInSteps(v0, vals, c, v, rows);
      vals := vals[c.tabId := SetAt(rows, c.rowIdx, SetAt(rows[c.rowIdx], c.colIdx, v, Undefined), [])];
    }

    /** `_calculateCellValue(c)` against the current store. */
    method CalculateCellValue(c: CellRef) returns (v: Value)
      requires GetCell(tabs, c).Some?
      ensures v == CellValue(tabs, evaluate, vals, c)
      ensures !HasFormula(GetCell(tabs, c).value) && GetCell(tabs, c).value.staticValue == Null ==> v == Get(vals, c)
    {
      var cell := GetCell(tabs, c).value;
      if HasFormula(cell) {
        var formulaValue := evaluate(cell.formula, c, vals);
        if Truthy(formulaValue.error) {
          return formulaValue.error;
        }
        return formulaValue.result;
      }
      if cell.staticValue != Null {
        return cell.staticValue;
      }
      v := Get(vals, c);
    }

    /** `_processCalculations(order)`: recompute and store each cell in turn; answer the store. */
    method ProcessCalculations(order: seq<CellRef>) returns (r: Vals)
      requires Valid() && CalcModel.AllExist(tabs, order)
      modifies this`vals
      ensures Valid()
      ensures vals == Pass(tabs, evaluate, old(vals), order) && r == vals
    {
      var i := 0;
      while i < |order|
        invariant 0 <= i <= |order| && Valid()
        invariant CalcModel.AllExist(tabs, order[i..])
        invariant Pass(tabs, evaluate, vals, order[i..]) == Pass(tabs, evaluate, old(vals), order)
      {
        assert order[i..][1..] == order[i + 1..];
        var v := CalculateCellValue(order[i]);
        SetCellValue(order[i], v);
        i := i + 1;
      }
      r := vals;
    }

    /**
     * `calculateAll()`: recompute every cell in a topological order of the
     * dependencies. A cycle leaves no such order: failure, nothing changed.
     */
    method CalculateAll() returns (r: Result<Vals, set<CellRef>>, ghost order: seq<CellRef>)
      requires Valid()
      modifies this`vals
      ensures Valid()
      ensures r.Success? ==> && IsTopoOrder(AllCellRefs(tabs), Edges(deps), order)
                             && vals == Pass(tabs, evaluate, old(vals), order)
                             && r.value == vals
      ensures r.Failure? ==> NoTopoOrder(AllCellRefs(tabs), Edges(deps)) && vals == old(vals)
    {
      var o := EvalOrder.EvalOrder(deps, AllCellRefs(tabs));
      if o.Failure? {
        return Failure(o.error), [];
      }
      forall c | c in o.value
        ensures GetCell(tabs, c).Some?
      {
        AllCellRefsAreCells(tabs, c);
      }
      order := o.value;
      var stored := ProcessCalculations(o.value);
      r := Success(stored);
    }

    /**
     * The `forEach` of `setValues`: store each given value, editable or
     * not. A cell not in the document throws there and is answered.
     */
    method WriteValues(updates: seq<(CellRef, Value)>) returns (bad: Option<CellRef>)
      requires Valid()
      modifies this`vals
      ensures Valid()
      ensures (vals, bad) == WriteAll(tabs, old(vals), updates)
    {
      var i := 0;
      while i < |updates|
        invariant 0 <= i <= |updates| && Valid()
        invariant (vals, None) == WriteAll(tabs, old(vals), updates[..i])
      {
        assert updates[..i + 1][..i] == updates[..i];
        var c, v := updates[i].0, updates[i].1;
        if GetCell(tabs, c).None? {
          WriteAllStop(tabs, old(vals), updates, i);
          return Some(c);
        }
        assert c.tabId in vals;
        SetCellValue(c, v);
        i := i + 1;
      }
      assert updates[..i] == updates;
      bad := None;
    }

    /**
     * `setValues(valuesByCellRef)`: store every given value, then recompute
     * the `partialEvalOrder` worklist of the given cells, the given cells
     * first. A cell not in the document throws before anything is
     * recomputed. `rank` witnesses that no cycle is reachable from the
     * given cells, without which the worklist never ends.
     */
    method SetValues(updates: seq<(CellRef, Value)>, ghost rank: map<CellRef, nat>)
      returns (r: Result<Vals, CellRef>, ghost order: seq<CellRef>)
      requires Valid() && Ranked(providesTo, rank)
      requires forall i :: 0 <= i < |updates| ==> updates[i].0 in rank
      modifies this`vals
      ensures Valid()
      ensures r.Failure? ==> (vals, Some(r.error)) == WriteAll(tabs, old(vals), updates)
      ensures r.Success? ==> && WriteAll(tabs, old(vals), updates).1.None?
                             && |order| >= |updates| && order[..|updates|] == CalcModel.Keys(updates)
                             && (forall x :: x in order <==> Reachable(providesTo, CalcModel.Keys(updates), x))
                             && Follows(providesTo, order)
                             && CalcModel.AllExist(tabs, order)
                             && vals == Pass(tabs, evaluate, WriteAll(tabs, old(vals), updates).0, order)
                             && r.value == vals
    {
      var bad := WriteValues(updates);
      if bad.Some? {
        return Failure(bad.value), [];
      }
      var keys := CalcModel.Keys(updates);
      var w := PartialEvalOrder(providesTo, keys, rank);
      order := w;
      WriteAllFails(tabs, old(vals), updates);
      forall x | x in w
        ensures GetCell(tabs, x).Some?
      {
        ReachBounded(providesTo, keys, x);
        if x !in keys {
          var p :| p in providesTo && x in providesTo[p];
          RequirerExists(tabs, scan, p, x);
        }
      }
      var stored := ProcessCalculations(w);
      r := Success(stored);
    }

    /**
     * `new Calculator(tabs)`: build the dependency maps and the empty
     * store, then `calculateAll`. A cycle leaves no evaluation order:
     * failure.
     */
    static method Create(tabs: seq<Tab>, scan: Deps.Scanner, evaluate: Evaluator)
      returns (r: Result<Calculator, set<CellRef>>)
      requires DistinctIds(tabs)
      ensures r.Success? ==> && fresh(r.value) && r.value.Valid()
                             && r.value.tabs == tabs && r.value.scan == scan && r.value.evaluate == evaluate
                             && exists o :: IsTopoOrder(AllCellRefs(tabs), Edges(Deps.Deps(tabs, scan)), o)
                                           && r.value.vals == Pass(tabs, evaluate, Initial(tabs), o)
      ensures r.Failure? ==> NoTopoOrder(AllCellRefs(tabs), Edges(Deps.Deps(tabs, scan)))
    {
      var created := new Calculator(tabs, scan, evaluate);
      var all, order := created.CalculateAll();
      if all.Failure? {
        return Failure(all.error);
      }
      return Success(created);
    }
  }
}
