/**
 * `deps`: the dependency map of a document, built by walking every
 * formula once with a dependency parser whose reference callbacks record
 * the cells read instead of looking up values. The compiled twin in dist/
 * is the same fold and the same parser wrapper.
 */
module Deps {
  import opened Wrappers
  import opened Values
  import opened Sheet
  import opened DepMaps

  /** A reference the formula parser reports, through a callback, while it walks a formula. */
  datatype RefEvent =
    | CellEvent(row: nat, col: nat, tab: Option<TabId>)  // 'callCellValue', with its optional explicit tab
    | RangeEvent(startRow: nat, startCol: nat, endRow: nat, endCol: nat, tab: Option<TabId>)  // 'callRangeValue'

  /** The formula parser's walk of one formula: the references it reports, in order. */
  type Scanner = string -> seq<RefEvent>

  /**
   * What the dependency callbacks accumulate for a formula walked on tab
   * `tabId`: one reference per single-cell event, built against `tabId`
   * (the event's own tab is not read); range events record nothing.
   */
  function ReadsOf(tabId: TabId, events: seq<RefEvent>): (r: seq<CellRef>)
    ensures |r| <= |events|
    ensures forall x :: x in r ==> x.tabId == tabId
    decreases |events|
  {
    if events == [] then []
    else
      var n := |events| - 1;
      ReadsOf(tabId, events[..n])
        + (if events[n].CellEvent? then [CellRef(tabId, events[n].row, events[n].col)] else [])
  }

  /** Reads keep encounter order: the reads of a concatenation are the concatenated reads. */
  lemma {:induction false} ReadsOfConcat(tabId: TabId, a: seq<RefEvent>, b: seq<RefEvent>)
    ensures ReadsOf(tabId, a + b) == ReadsOf(tabId, a) + ReadsOf(tabId, b)
    decreases |b|
  {
    if b == [] {
      assert a + b == a;
    } else {
      var n := |b| - 1;
      assert (a + b)[..|a + b| - 1] == a + b[..n];
      assert (a + b)[|a + b| - 1] == b[n];
      ReadsOfConcat(tabId, a, b[..n]);
    }
  }

  /** A cell is read iff some single-cell event names its coordinates. */
  lemma {:induction false} ReadsOfMembership(tabId: TabId, events: seq<RefEvent>, x: CellRef)
    ensures x in ReadsOf(tabId, events)
        <==> exists i :: 0 <= i < |events| && events[i].CellEvent?
                      && x == CellRef(tabId, events[i].row, events[i].col)
    decreases |events|
  {
    if events != [] {
      var n := |events| - 1;
      ReadsOfMembership(tabId, events[..n], x);
      if x in ReadsOf(tabId, events[..n]) {
        var i :| 0 <= i < n && events[..n][i].CellEvent?
          && x == CellRef(tabId, events[..n][i].row, events[..n][i].col);
        assert events[i] == events[..n][i];
      }
      if exists i :: 0 <= i < |events| && events[i].CellEvent? && x == CellRef(tabId, events[i].row, events[i].col) {
        var i :| 0 <= i < |events| && events[i].CellEvent? && x == CellRef(tabId, events[i].row, events[i].col);
        if i < n {
          assert events[..n][i] == events[i];
        }
      }
    }
  }

  /**
   * The dependency parser of `getDependencyParser`: a formula parser
   * whose callbacks share the closure state `dependentCells` and `tab`.
   */
  class DependencyParser {
    const scan: Scanner
    var dependentCells: seq<CellRef>
    var tab: Option<TabId>

    constructor (scan: Scanner)
      ensures this.scan == scan && dependentCells == [] && tab == None
    {
      this.scan := scan;
      dependentCells := [];
      tab := None;
    }

    /** The 'callCellValue' callback: record the cell on the current tab, answer 0. */
    method CallCellValue(row: nat, col: nat) returns (placeholder: Value)
      requires tab.Some?
      modifies this`dependentCells
      ensures dependentCells == old(dependentCells) + [CellRef(tab.value, row, col)]
      ensures placeholder == Num(0)
    {
      dependentCells := dependentCells + [CellRef(tab.value, row, col)];
      placeholder := Num(0);
    }

    /**
     * The wrapped `parse(tab, expr)`: set the tab, reset the accumulator,
     * walk the formula, hand back what was accumulated and reset again.
     */
    method Parse(tabId: TabId, expr: string) returns (depCells: seq<CellRef>)
      modifies this`dependentCells, this`tab
      ensures depCells == ReadsOf(tabId, scan(expr))
      ensures dependentCells == [] && tab == Some(tabId)
    {
      tab := Some(tabId);
      dependentCells := [];
      var events := scan(expr);
      var i := 0;
      while i < |events|
        invariant 0 <= i <= |events|
        invariant tab == Some(tabId)
        invariant dependentCells == ReadsOf(tabId, events[..i])
      {
        assert events[..i + 1][..i] == events[..i];
        match events[i] {
          case CellEvent(row, col, _) =>
            var _ := CallCellValue(row, col);
          case RangeEvent(_, _, _, _, _) =>
            // the 'callRangeValue' callback records nothing
        }
        i := i + 1;
      }
      assert events[..|events|] == events;
      depCells := dependentCells;
      dependentCells := [];
    }
  }

  /** The per-cell step: a cell with a formula maps to the cells that formula reads. */
  function CellStep(d: DepMap, tab: Tab, r: nat, c: nat, scan: Scanner): DepMap
    requires r < |tab.rows| && c < |tab.rows[r]|
  {
    var cell := tab.rows[r][c];
    if HasFormula(cell) then Put(d, CellRef(tab.id, r, c), ReadsOf(tab.id, scan(cell.formula))) else d
  }

  /** The innermost reduce, over the first `k` cells of row `r`. */
  function RowFold(d: DepMap, tab: Tab, r: nat, k: nat, scan: Scanner): DepMap
    requires r < |tab.rows| && k <= |tab.rows[r]|
    decreases k
  {
    if k == 0 then d else CellStep(RowFold(d, tab, r, k - 1, scan), tab, r, k - 1, scan)
  }

  /** The middle reduce, over the first `k` rows of a tab. */
  function RowsFold(d: DepMap, tab: Tab, k: nat, scan: Scanner): DepMap
    requires k <= |tab.rows|
    decreases k
  {
    if k == 0 then d else RowFold(RowsFold(d, tab, k - 1, scan), tab, k - 1, |tab.rows[k - 1]|, scan)
  }

  /** `deps(tabs)`: the outer reduce over the tabs, from an empty map. */
  function Deps(tabs: seq<Tab>, scan: Scanner): DepMap
    decreases |tabs|
  {
    if tabs == [] then []
    else
      var n := |tabs| - 1;
      RowsFold(Deps(tabs[..n], scan), tabs[n], |tabs[n].rows|, scan)
  }

  /** What the dependency map should hold for `c` if `c` is a cell of `tab`. */
  function TabEntry(tab: Tab, c: CellRef, scan: Scanner): Option<seq<CellRef>>
  {
    if c.tabId == tab.id && c.rowIdx < |tab.rows| && c.colIdx < |tab.rows[c.rowIdx]|
       && HasFormula(tab.rows[c.rowIdx][c.colIdx])
    then Some(ReadsOf(tab.id, scan(tab.rows[c.rowIdx][c.colIdx].formula)))
    else None
  }

  lemma {:induction false} RowFoldLookup(d: DepMap, tab: Tab, r: nat, k: nat, scan: Scanner, c: CellRef)
    requires r < |tab.rows| && k <= |tab.rows[r]|
    ensures Lookup(RowFold(d, tab, r, k, scan), c)
         == if c.rowIdx == r && c.colIdx < k && TabEntry(tab, c, scan).Some? then TabEntry(tab, c, scan)
            else Lookup(d, c)
    decreases k
  {
    if k > 0 {
      RowFoldLookup(d, tab, r, k - 1, scan, c);
      RowFoldStepLookup(d, tab, r, k, scan, c);
    }
  }

  /** The last cell step of a row fold changes only that cell's entry. */
  lemma RowFoldStepLookup(d: DepMap, tab: Tab, r: nat, k: nat, scan: Scanner, c: CellRef)
    requires r < |tab.rows| && 0 < k <= |tab.rows[r]|
    ensures Lookup(RowFold(d, tab, r, k, scan), c)
         == if c.rowIdx == r && c.colIdx == k - 1 && TabEntry(tab, c, scan).Some? then TabEntry(tab, c, scan)
            else Lookup(RowFold(d, tab, r, k - 1, scan), c)
  {
    CellStepLookup(RowFold(d, tab, r, k - 1, scan), tab, r, k - 1, scan, c);
  }

  lemma {:induction false} RowFoldDistinct(d: DepMap, tab: Tab, r: nat, k: nat, scan: Scanner)
    requires r < |tab.rows| && k <= |tab.rows[r]| && DistinctKeys(d)
    ensures DistinctKeys(RowFold(d, tab, r, k, scan))
    decreases k
  {
    if k > 0 {
      var prev := RowFold(d, tab, r, k - 1, scan);
      assert DistinctKeys(prev) by {
        RowFoldDistinct(d, tab, r, k - 1, scan);
      }
      assert DistinctKeys(CellStep(prev, tab, r, k - 1, scan)) by {
        CellStepDistinct(prev, tab, r, k - 1, scan);
      }
      assert RowFold(d, tab, r, k, scan) == CellStep(prev, tab, r, k - 1, scan);
    }
  }

  lemma CellStepDistinct(d: DepMap, tab: Tab, r: nat, col: nat, scan: Scanner)
    requires r < |tab.rows| && col < |tab.rows[r]| && DistinctKeys(d)
    ensures DistinctKeys(CellStep(d, tab, r, col, scan))
  {
    var cell := tab.rows[r][col];
    if HasFormula(cell) {
      PutDistinct(d, CellRef(tab.id, r, col), ReadsOf(tab.id, scan(cell.formula)));
    }
  }

  /** One cell step changes only that cell's entry, and only when it has a formula. */
  lemma CellStepLookup(d: DepMap, tab: Tab, r: nat, col: nat, scan: Scanner, c: CellRef)
    requires r < |tab.rows| && col < |tab.rows[r]|
    ensures Lookup(CellStep(d, tab, r, col, scan), c)
         == if c.rowIdx == r && c.colIdx == col && TabEntry(tab, c, scan).Some? then TabEntry(tab, c, scan)
            else Lookup(d, c)
  {
  }

  lemma {:induction false} RowsFoldLookup(d: DepMap, tab: Tab, k: nat, scan: Scanner, c: CellRef)
    requires k <= |tab.rows|
    ensures Lookup(RowsFold(d, tab, k, scan), c)
         == if c.rowIdx < k && TabEntry(tab, c, scan).Some? then TabEntry(tab, c, scan) else Lookup(d, c)
    decreases k
  {
    if k > 0 {
      RowsFoldLookup(d, tab, k - 1, scan, c);
      RowsFoldStepLookup(d, tab, k, scan, c);
    }
  }

  /** The last row of a rows fold changes only the entries of that row. */
  lemma RowsFoldStepLookup(d: DepMap, tab: Tab, k: nat, scan: Scanner, c: CellRef)
    requires 0 < k <= |tab.rows|
    ensures Lookup(RowsFold(d, tab, k, scan), c)
         == if c.rowIdx == k - 1 && TabEntry(tab, c, scan).Some? then TabEntry(tab, c, scan)
            else Lookup(RowsFold(d, tab, k - 1, scan), c)
  {
    RowFoldLookup(RowsFold(d, tab, k - 1, scan), tab, k - 1, |tab.rows[k - 1]|, scan, c);
  }

  lemma {:induction false} RowsFoldDistinct(d: DepMap, tab: Tab, k: nat, scan: Scanner)
    requires k <= |tab.rows| && DistinctKeys(d)
    ensures DistinctKeys(RowsFold(d, tab, k, scan))
    decreases k
  {
    if k > 0 {
      var prev := RowsFold(d, tab, k - 1, scan);
      assert DistinctKeys(prev) by {
        RowsFoldDistinct(d, tab, k - 1, scan);
      }
      RowFoldDistinct(prev, tab, k - 1, |tab.rows[k - 1]|, scan);
    }
  }

  /** A cell's entry in the dependency map, read off the document. */
  function CellEntry(tabs: seq<Tab>, c: CellRef, scan: Scanner): Option<seq<CellRef>>
  {
    match GetCell(tabs, c)
    case None => None
    case Some(cell) =>
      if HasFormula(cell) then Some(ReadsOf(c.tabId, scan(cell.formula))) else None
  }

  lemma {:induction false} GetTabSnoc(tabs: seq<Tab>, t: Tab, id: TabId)
    requires id != t.id
    ensures GetTab(tabs + [t], id) == GetTab(tabs, id)
    decreases |tabs|
  {
    if tabs != [] {
      assert (tabs + [t])[1..] == tabs[1..] + [t];
      GetTabSnoc(tabs[1..], t, id);
    }
  }

  /**
   * The dependency map has an entry exactly for the cells with a formula,
   * and that entry lists the single-cell references the formula reads,
   * resolved against the cell's own tab; its keys are distinct.
   */
  lemma {:induction false} DepsLookup(tabs: seq<Tab>, scan: Scanner, c: CellRef)
    requires DistinctIds(tabs)
    ensures Lookup(Deps(tabs, scan), c) == CellEntry(tabs, c, scan)
    ensures DistinctKeys(Deps(tabs, scan))
    decreases |tabs|
  {
    DepsDistinct(tabs, scan);
    if tabs != [] {
      var n := |tabs| - 1;
      var init := tabs[..n];
      assert tabs == init + [tabs[n]];
      assert DistinctIds(init);
      DepsLookup(init, scan, c);
      RowsFoldLookup(Deps(init, scan), tabs[n], |tabs[n].rows|, scan, c);
      if c.tabId == tabs[n].id {
        GetTabAt(tabs, n);
        assert GetTab(init, c.tabId).None?;
      } else {
        GetTabSnoc(init, tabs[n], c.tabId);
      }
    }
  }

  lemma {:induction false} DepsDistinct(tabs: seq<Tab>, scan: Scanner)
    ensures DistinctKeys(Deps(tabs, scan))
    decreases |tabs|
  {
    if tabs != [] {
      var n := |tabs| - 1;
      DepsDistinct(tabs[..n], scan);
      RowsFoldDistinct(Deps(tabs[..n], scan), tabs[n], |tabs[n].rows|, scan);
    }
  }
}
