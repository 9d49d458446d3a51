/**
 * The value store `vals`: tab id -> rows -> cells. Lists grow on write:
 * writing past the end pads the list, and a padded row slot reads like an
 * empty row (every cell in it is `Undefined`).
 */
module ValueStore {
  import opened Values
  import opened Sheet

  type Vals = map<TabId, seq<seq<Value>>>

  /** `_getCellValue`: `Null` for a tab with no entry, `Undefined` outside the stored rows and cells. */
  function Get(vals: Vals, c: CellRef): Value
  {
    if c.tabId !in vals then Null
    else
      var rows := vals[c.tabId];
      if c.rowIdx < |rows| && c.colIdx < |rows[c.rowIdx]| then rows[c.rowIdx][c.colIdx] else Undefined
  }

  /** `list.set(k, x)` on an Immutable list: pads with `fill` up to `k`, then replaces slot `k`. */
  function SetAt<T>(s: seq<T>, k: nat, x: T, fill: T): (r: seq<T>)
    ensures |r| == if k < |s| then |s| else k + 1
    ensures r[k] == x
    ensures forall i :: 0 <= i < |r| && i != k ==> r[i] == if i < |s| then s[i] else fill
  {
    if k < |s| then s[k := x] else s + seq(k - |s|, _ => fill) + [x]
  }

  /** Writing slot `k` twice keeps only the second write. */
  lemma SetAtTwice<T>(s: seq<T>, k: nat, a: T, x: T, fill: T)
    ensures SetAt(SetAt(s, k, a, fill), k, x, fill) == SetAt(s, k, x, fill)
  {
    var l, r := SetAt(SetAt(s, k, a, fill), k, x, fill), SetAt(s, k, x, fill);
    assert |l| == |r|;
    forall i | 0 <= i < |l| ensures l[i] == r[i] { }
  }

  /** `_setCellValue`: create the tab and the row when missing, then write the cell. */
  function Put(vals: Vals, c: CellRef, v: Value): (r: Vals)
    ensures Get(r, c) == v
    ensures forall d :: d != c && (d.tabId in vals || d.tabId != c.tabId) ==> Get(r, d) == Get(vals, d)
    ensures forall d :: d != c && d.tabId !in vals && d.tabId == c.tabId ==> Get(r, d) == Undefined
    ensures r.Keys == vals.Keys + {c.tabId}
  {
    var rows: seq<seq<Value>> := if c.tabId in vals then vals[c.tabId] else [];
    var row: seq<Value> := if c.rowIdx < |rows| then rows[c.rowIdx] else [];
    vals[c.tabId := SetAt(rows, c.rowIdx, SetAt(row, c.colIdx, v, Undefined), [])]
  }

  /** The constructor's store: an empty row list for every tab id. */
  function Initial(tabs: seq<Tab>): (r: Vals)
    ensures forall id: TabId :: id in r <==> exists t :: t in tabs && t.id == id
    ensures forall c: CellRef :: c.tabId in r ==> Get(r, c) == Undefined
    decreases |tabs|
  {
    if tabs == [] then map[]
    else
      var n := |tabs| - 1;
      Initial(tabs[..n])[tabs[n].id := []]
  }

  /** Overwriting the one key where two maps may differ makes them equal. */
  lemma OverwriteSame<K, V>(m1: map<K, V>, m2: map<K, V>, k: K, w: V)
    requires m1 - {k} == m2 - {k}
    ensures m1[k := w] == m2[k := w]
  {
    var l, r := m1[k := w], m2[k := w];
    forall j | j != k
      ensures (j in l <==> j in r) && (j in l ==> l[j] == r[j])
    {
      assert (j in m1 <==> j in m1 - {k}) && (j in m2 <==> j in m2 - {k});
      if j in m1 { assert m1[j] == (m1 - {k})[j]; }
      if j in m2 { assert m2[j] == (m2 - {k})[j]; }
    }
    assert l.Keys == r.Keys;
  }

  /**
   * `_setCellValue`'s three steps land on `Put`: `mid` differs from `vals`
   * at most in the written tab, and `rows` is that tab's row list, padded
   * with an empty row at `c.rowIdx` when it was too short.
   */
  lemma PutInSteps(vals: Vals, mid: Vals, c: CellRef, v: Value, rows: seq<seq<Value>>)
    requires mid - {c.tabId} == vals - {c.tabId}
    requires var rs: seq<seq<Value>> := if c.tabId in vals then vals[c.tabId] else [];
      if c.rowIdx < |rs| then rows == rs else rows == SetAt(rs, c.rowIdx, [], [])
    ensures c.rowIdx < |rows|
    ensures mid[c.tabId := SetAt(rows, c.rowIdx, SetAt(rows[c.rowIdx], c.colIdx, v, Undefined), [])] == Put(vals, c, v)
  {
    var rs: seq<seq<Value>> := if c.tabId in vals then vals[c.tabId] else [];
    var row: seq<Value> := if c.rowIdx < |rs| then rs[c.rowIdx] else [];
    var x := SetAt(row, c.colIdx, v, Undefined);
    if c.rowIdx >= |rs| {
      SetAtTwice(rs, c.rowIdx, [], x, []);
    }
    assert rows[c.rowIdx] == row;
    OverwriteSame(mid, vals, c.tabId, SetAt(rs, c.rowIdx, x, []));
  }

  /** Two stores read alike on the cells of `cells`. */
  ghost predicate Agree(v1: Vals, v2: Vals, cells: seq<CellRef>)
  {
    forall d :: d in cells ==> Get(v1, d) == Get(v2, d)
  }
}
