/**
 * The document the engine reads: tabs of rows of cells, and cell
 * references. The document model itself is an external collaborator;
 * only the lookups the engine relies on are defined here.
 */
module Sheet {
  import opened Wrappers
  import opened Values

  type TabId = string

  /** A cell reference `(tabId, rowIdx, colIdx)`, compared structurally. */
  datatype CellRef = CellRef(tabId: TabId, rowIdx: nat, colIdx: nat)

  /** A cell; an absent or empty formula is the empty string, an absent static value `Null`. */
  datatype Cell = Cell(formula: string, staticValue: Value, isUserEditable: bool)

  datatype Tab = Tab(id: TabId, rows: seq<seq<Cell>>)

  /** `cell.get('formula')` is truthy. */
  predicate HasFormula(cell: Cell)
  {
    cell.formula != ""
  }

  /** Tabs are held by id, so no two tabs share one. */
  ghost predicate DistinctIds(tabs: seq<Tab>)
  {
    forall i, j :: 0 <= i < j < |tabs| ==> tabs[i].id != tabs[j].id
  }

  /** The tab with the given id. */
  function GetTab(tabs: seq<Tab>, id: TabId): (r: Option<Tab>)
    ensures r.Some? ==> r.value in tabs && r.value.id == id
    ensures r.None? ==> forall t :: t in tabs ==> t.id != id
  {
    if tabs == [] then None
    else if tabs[0].id == id then Some(tabs[0])
    else GetTab(tabs[1..], id)
  }

  /** The cell a reference names, if the document has one there. */
  function GetCell(tabs: seq<Tab>, c: CellRef): Option<Cell>
  {
    match GetTab(tabs, c.tabId)
    case None => None
    case Some(t) =>
      if c.rowIdx < |t.rows| && c.colIdx < |t.rows[c.rowIdx]|
      then Some(t.rows[c.rowIdx][c.colIdx])
      else None
  }

  /** With distinct ids, the tab found for an id is the one at its index. */
  lemma {:induction false} GetTabAt(tabs: seq<Tab>, k: nat)
    requires DistinctIds(tabs) && k < |tabs|
    ensures GetTab(tabs, tabs[k].id) == Some(tabs[k])
  {
    if k > 0 {
      assert tabs[1..][k - 1] == tabs[k];
      GetTabAt(tabs[1..], k - 1);
    }
  }

  /** Every reference `(tab.id, rowIdx, colIdx)` of every tab's rows. */
  function AllCellRefs(tabs: seq<Tab>): set<CellRef>
  {
    set t, r, c | 0 <= t < |tabs| && 0 <= r < |tabs[t].rows| && 0 <= c < |tabs[t].rows[r]|
      :: CellRef(tabs[t].id, r, c)
  }

  /**
   * The references `_allCellRefs` enumerates are exactly the references
   * the document resolves to a cell.
   */
  lemma AllCellRefsAreCells(tabs: seq<Tab>, c: CellRef)
    requires DistinctIds(tabs)
    ensures c in AllCellRefs(tabs) <==> GetCell(tabs, c).Some?
  {
    if c in AllCellRefs(tabs) {
      var t, r, col :| 0 <= t < |tabs| && 0 <= r < |tabs[t].rows| && 0 <= col < |tabs[t].rows[r]|
        && c == CellRef(tabs[t].id, r, col);
      GetTabAt(tabs, t);
    }
    if GetCell(tabs, c).Some? {
      var tab := GetTab(tabs, c.tabId).value;
      var t :| 0 <= t < |tabs| && tabs[t] == tab;
      assert CellRef(tabs[t].id, c.rowIdx, c.colIdx) == c;
    }
  }
}
