/**
 * The calculator as compiled in dist/: a sheet, its dependency maps, and
 * the mutable store of values with the two caches the asynchronous and
 * user-update functions rely on. Every method is proved against the
 * value-level model in `CalcModel`.
 */
module Calculator {
  import opened Wrappers
  import opened Values
  import opened Sheet
  import opened DepMaps
  import opened DepsToProvides
  import Deps
  import opened Seqs
  import opened PartialEvalOrder
  import opened EvalOrder
  import opened ValueStore
  import opened CalcModel

  class Calculator {
    const tabs: seq<Tab>
    const env: Env
    const scan: Deps.Scanner
    /** Cell -> the single-cell references its formula reads. */
    const deps: DepMap
    /** Cell -> the cells whose formulas read it. */
    const providesTo: ProvidesTo
    var vals: Vals
    /** Values set by asynchronous functions, preferred unless the cache is skipped. */
    var cellValueCache: Cache
    /** User values waiting for a user-update function to consume them. */
    var userValueCache: Cache
    /** `parser.cellRef`: the cell being evaluated, set only during an evaluation. */
    var parserCellRef: Option<CellRef>
    /** The order the last `calculateAll` evaluated the cells in. */
    var globalOrder: seq<CellRef>

    /** The fields a recompute changes, as a model state. */
    function Snapshot(): State
      reads this
    {
      State(vals, cellValueCache, userValueCache)
    }

    /** The dependency maps are those of the document, and the store covers every tab. */
    ghost predicate Valid()
      reads this
    {
      && Settled()
      && TabsStored(tabs, vals)
      && parserCellRef.None?
    }

    /** The part of `Valid` that evaluating and writing cells leaves alone. */
    ghost predicate Settled()
      reads this`globalOrder
    {
      && DistinctIds(tabs)
      && deps == Deps.Deps(tabs, scan)
      && providesTo == ProvidesToOf(deps)
      && AllExist(tabs, globalOrder)
    }

    /** The constructor, before its `calculateAll`: an empty row list per tab and empty caches. */
    constructor(tabs: seq<Tab>, env: Env, scan: Deps.Scanner)
      requires DistinctIds(tabs)
      ensures this.tabs == tabs && this.env == env && this.scan == scan
      ensures Valid()
      ensures vals == Initial(tabs) && cellValueCache == map[] && userValueCache == map[]
      ensures globalOrder == []
    {
      this.tabs := tabs;
      this.env := env;
      this.scan := scan;
      deps := Deps.Deps(tabs, scan);
      providesTo := ProvidesToOf(Deps.Deps(tabs, scan));
      vals := Initial(tabs);
      cellValueCache := map[];
      userValueCache := map[];
      parserCellRef := None;
      globalOrder := [];
      InitialStored(tabs);
    }

    /** `_setCellValue`: add the tab and the row when missing, then write the cell. */
    method SetCellValue(c: CellRef, v: Value)
      modifies this`vals
      ensures vals == ValueStore.Put(old(vals), c, v)
    {
      ghost var v0 := vals;
      if c.tabId !in vals {
        vals := vals[c.tabId := []];
      }
      var rows := vals[c.tabId];
      if c.rowIdx >= |rows| {
        // a missing row (or a padding hole) reads as no row: start an empty one
        rows := SetAt(rows, c.rowIdx, [], []);
        vals := vals[c.tabId := rows];
      }
      PutInSteps(v0, vals, c, v, rows);
      vals := vals[c.tabId := SetAt(rows, c.rowIdx, SetAt(rows[c.rowIdx], c.colIdx, v, Undefined), [])];
    }

    /**
     * The wrapped extra function, called by the parser while it evaluates
     * `parserCellRef`: a pending user value for that cell is returned in
     * place of the function's result and dropped only when the handler
     * reports it consumed; otherwise the function runs.
     */
    method CallWrapped(name: string, params: seq<Value>) returns (v: Value)
      requires parserCellRef.Some?
      modifies this`userValueCache
      ensures (v, userValueCache) == CallExtra(env, name, params, parserCellRef.value, old(userValueCache))
      ensures name in env.extras && parserCellRef.value in old(userValueCache) && name in env.handlers
              ==> v == old(userValueCache)[parserCellRef.value]
                  && (userValueCache == old(userValueCache) - {parserCellRef.value}
                      <==> env.handlers[name](params, parserCellRef.value, v))
      ensures name in env.extras && !(parserCellRef.value in old(userValueCache) && name in env.handlers)
              ==> v == env.extras[name](params, parserCellRef.value) && userValueCache == old(userValueCache)
    {
      var c := parserCellRef.value;
      if name !in env.extras {
        return Error(NameError);
      }
      if c in userValueCache && name in env.handlers {
        v := userValueCache[c];
        var consumed := env.handlers[name](params, c, v);
        if consumed {
          userValueCache := userValueCache - {c};
        }
        return;
      }
      v := env.extras[name](params, c);
    }

    /**
     * `evaluateFormula(formula, c)`: with `parserCellRef` set to `c`, run the
     * parser's calls in order, then answer the parse error if any, else the
     * result; `parserCellRef` is cleared afterwards.
     */
    method EvaluateFormula(formula: string, c: CellRef) returns (v: Value)
      modifies this`userValueCache, this`parserCellRef
      ensures (v, userValueCache) == Evaluate(env, formula, c, vals, old(userValueCache))
      ensures parserCellRef.None?
    {
      parserCellRef := Some(c);
      var invs := env.parser.calls(formula, c, vals);
      var results: seq<Value> := [];
      var i := 0;
      while i < |invs|
        invariant 0 <= i <= |invs| && parserCellRef == Some(c)
        invariant (results, userValueCache) == RunCalls(env, invs[..i], c, old(userValueCache))
      {
        assert invs[..i + 1][..i] == invs[..i];
        var r := CallWrapped(invs[i].name, invs[i].params);
        results := results + [r];
        i := i + 1;
      }
      assert invs[..i] == invs;
      var pr := env.parser.finish(formula, c, vals, results);
      v := if Truthy(pr.error) then pr.error else pr.result;
      parserCellRef := None;
    }

    /** `_calculateCellValue(c, skipCache)`, proved against `CalcCell`. */
    method CalculateCellValue(c: CellRef, skipCache: bool) returns (v: Value)
      requires GetCell(tabs, c).Some?
      modifies this`cellValueCache, this`userValueCache, this`parserCellRef
      ensures (v, Snapshot()) == CalcCell(env, tabs, old(Snapshot()), c, skipCache)
      ensures parserCellRef == old(parserCellRef) || parserCellRef.None?
    {
      var cell := GetCell(tabs, c).value;
      if cell.formula != "" {
        if !skipCache && c in cellValueCache && Truthy(cellValueCache[c]) {
          return cellValueCache[c];
        }
        cellValueCache := cellValueCache - {c};
        v := EvaluateFormula(cell.formula, c);
        return;
      }
      if cell.staticValue != Null {
        return cell.staticValue;
      }
      v := Get(vals, c);
    }

    /** One step of `_processCalculations`: recalculate the cell, skipping the cache, and store it. */
    method Recompute(c: CellRef)
      requires Valid() && GetCell(tabs, c).Some?
      modifies this`vals, this`cellValueCache, this`userValueCache, this`parserCellRef
      ensures Snapshot() == Step(env, tabs, old(Snapshot()), c)
      ensures Valid()
    {
      var v := CalculateCellValue(c, true);
      SetCellValue(c, v);
    }

    /** `_processCalculations(order)`: recalculate and store each cell in turn. */
    method ProcessCalculations(order: seq<CellRef>)
      requires Valid() && AllExist(tabs, order)
      modifies this`vals, this`cellValueCache, this`userValueCache, this`parserCellRef
      ensures Snapshot() == Pass(env, tabs, old(Snapshot()), order)
      ensures Valid()
    {
      var i := 0;
      while i < |order|
        invariant 0 <= i <= |order| && AllExist(tabs, order[..i])
        invariant Snapshot() == Pass(env, tabs, old(Snapshot()), order[..i])
        invariant Valid()
      {
        PassSnoc(env, tabs, old(Snapshot()), order, i);
        Recompute(order[i]);
        i := i + 1;
      }
      assert order[..i] == order;
    }

    /**
     * `calculateAll`: evaluate every cell in a topological order of the
     * dependency edges, which is kept as the global order. When the edges
     * admit no order (a cycle), fails and changes nothing.
     */
    method CalculateAll() returns (r: Result<Vals, set<CellRef>>)
      requires Valid()
      modifies this
      ensures Valid()
      ensures r.Success? ==> && IsTopoOrder(AllCellRefs(tabs), Edges(deps), globalOrder)
                             && Snapshot() == Pass(env, tabs, old(Snapshot()), globalOrder)
                             && r.value == vals
      ensures r.Failure? ==> NoTopoOrder(AllCellRefs(tabs), Edges(deps)) && Snapshot() == old(Snapshot())
                             && globalOrder == old(globalOrder)
    {
      var order := EvalOrder.EvalOrder(deps, AllCellRefs(tabs));
      if order.Failure? {
        return Failure(order.error);
      }
      forall c | c in order.value
        ensures GetCell(tabs, c).Some?
      {
        AllCellRefsAreCells(tabs, c);
      }
      globalOrder := order.value;
      ProcessCalculations(globalOrder);
      r := Success(vals);
    }

    /**
     * `_evalDependents(inputs)`, corrected: recompute the cells reachable
     * from the inputs in global order, skipping the leading run of inputs.
     */
    method EvalDependents(inputs: seq<CellRef>)
      requires Valid()
      modifies this`vals, this`cellValueCache, this`userValueCache, this`parserCellRef
      ensures Snapshot() == Pass(env, tabs, old(Snapshot()), Worklist(providesTo, globalOrder, inputs))
      ensures Valid()
    {
      ghost var st := Snapshot();
      ghost var wl := Worklist(providesTo, globalOrder, inputs);
      var w := Dependents(inputs);
      assert Snapshot() == st;
      ProcessCalculations(w);
      PassSame(env, tabs, st, w, wl);
    }

    /** The worklist of `_evalDependents`: the partial order, less its leading run of inputs. */
    method Dependents(inputs: seq<CellRef>) returns (w: seq<CellRef>)
      requires Valid()
      ensures w == Worklist(providesTo, globalOrder, inputs) && AllExist(tabs, w)
    {
      var order := PartialEvalOrder.PartialEvalOrder(providesTo, globalOrder, inputs);
      w := SkipWhile(order, inputs);
      WorklistWithin(tabs, providesTo, globalOrder, inputs);
    }

    /**
     * `_evalDependents(cellRefs)` as written: `partialEvalOrder` is called
     * with the cells where it expects the global order and with no
     * inputs, so nothing is reached and nothing is recomputed.
     */
    method EvalDependentsAsWritten(cellRefs: seq<CellRef>)
      requires Valid()
      modifies this`vals, this`cellValueCache, this`userValueCache, this`parserCellRef
      ensures Snapshot() == old(Snapshot())
      ensures Valid()
    {
      var order := PartialEvalOrder.PartialEvalOrder(providesTo, cellRefs, []);
      assert ReachIn(providesTo, cellRefs, []) == {};
      KeepNone(cellRefs, {});
      var w := SkipWhile(order, cellRefs);
      ProcessCalculations(w);
    }

    /**
     * One entry of `setValues` for a cell of the document: store the value
     * and, when the cell's formula calls a user-update function, hand it
     * the value through the user-value cache and evaluate the formula.
     */
    method WriteValue(c: CellRef, v: Value)
      requires Valid() && GetCell(tabs, c).Some?
      modifies this`vals, this`userValueCache, this`parserCellRef
      ensures Valid()
      ensures WriteOne(env, tabs, old(Snapshot()), c, v) == Some(Snapshot())
    {
      ghost var before := Snapshot();
      WriteOneEffect(env, tabs, before, c, v);
      var cell := GetCell(tabs, c).value;
      SetCellValue(c, v);
      if HasUserValueFunc(env, cell) {
        userValueCache := userValueCache[c := v];
        var discarded := EvaluateFormula(cell.formula, c);
      }
    }

    /**
     * The `forEach` of `setValues`: write each given value, letting a
     * formula with a user-update function see it. A cell not in the
     * document stops the writes there and is answered.
     */
    method WriteValues(updates: seq<(CellRef, Value)>) returns (bad: Option<CellRef>)
      requires Valid()
      modifies this`vals, this`cellValueCache, this`userValueCache, this`parserCellRef
      ensures Valid()
      ensures (Snapshot(), bad) == WriteInputs(env, tabs, old(Snapshot()), updates)
    {
      var i := 0;
      while i < |updates|
        invariant 0 <= i <= |updates| && Valid()
        invariant (Snapshot(), None) == WriteInputs(env, tabs, old(Snapshot()), updates[..i])
      {
        var c, v := updates[i].0, updates[i].1;
        var cell := GetCell(tabs, c);
        if cell.None? {
          WriteInputsStop(env, tabs, old(Snapshot()), updates, i);
          return Some(c);
        }
        WriteValue(c, v);
        WriteInputsStep(env, tabs, old(Snapshot()), updates, i, Snapshot());
        i := i + 1;
      }
      assert updates[..i] == updates;
      bad := None;
    }

    /**
     * `setValues(valuesByCellRef)`: write each given value, then recompute
     * the dependents. A cell not in the document stops the writes there
     * and nothing is recomputed.
     */
    method SetValues(updates: seq<(CellRef, Value)>) returns (r: Result<Vals, CellRef>)
      requires Valid() && Distinct(Keys(updates))
      modifies this`vals, this`cellValueCache, this`userValueCache, this`parserCellRef
      ensures Valid()
      ensures r.Failure? ==> (Snapshot(), Some(r.error)) == WriteInputs(env, tabs, old(Snapshot()), updates)
      ensures r.Success? ==> && WriteInputs(env, tabs, old(Snapshot()), updates).1.None?
                             && Snapshot() == Pass(env, tabs, WriteInputs(env, tabs, old(Snapshot()), updates).0,
                                                   Worklist(providesTo, globalOrder, Keys(updates)))
                             && r.value == vals
    {
      var bad := WriteValues(updates);
      if bad.Some? {
        return Failure(bad.value);
      }
      EvalDependents(Keys(updates));
      r := Success(vals);
    }

    /**
     * `setCachedCellValue(c, v)`: an asynchronous function's result is
     * cached and stored for `c`, then the dependents are recomputed.
     */
    method SetCachedCellValue(c: CellRef, v: Value) returns (r: Vals)
      requires Valid()
      modifies this`vals, this`cellValueCache, this`userValueCache, this`parserCellRef
      ensures Valid()
      ensures Snapshot() == Pass(env, tabs, State(ValueStore.Put(old(vals), c, v), old(cellValueCache)[c := v], old(userValueCache)),
                                 Worklist(providesTo, globalOrder, [c]))
      ensures r == vals
    {
      ghost var stored := State(ValueStore.Put(vals, c, v), cellValueCache[c := v], userValueCache);
      cellValueCache := cellValueCache[c := v];
      SetCellValue(c, v);
      assert Snapshot() == stored;
      assert TabsStored(tabs, vals) by {
        assert vals.Keys == old(vals).Keys + {c.tabId};
      }
      EvalDependents([c]);
      r := vals;
    }

    /**
     * `new Calculator(sheet, extraFormulaFuncs, userUpdateFuncs)`: build the
     * dependency maps and the empty store, then `calculateAll`. A sheet
     * whose references form a cycle has no evaluation order: failure.
     */
    static method Create(tabs: seq<Tab>, env: Env, scan: Deps.Scanner) returns (r: Result<Calculator, set<CellRef>>)
      requires DistinctIds(tabs)
      ensures r.Success? ==> && fresh(r.value) && r.value.Valid()
                             && r.value.tabs == tabs && r.value.env == env && r.value.scan == scan
                             && IsTopoOrder(AllCellRefs(tabs), Edges(Deps.Deps(tabs, scan)), r.value.globalOrder)
                             && r.value.Snapshot() == Pass(env, tabs, State(Initial(tabs), map[], map[]), r.value.globalOrder)
      ensures r.Failure? ==> NoTopoOrder(AllCellRefs(tabs), Edges(Deps.Deps(tabs, scan)))
    {
      var created := new Calculator(tabs, env, scan);
      var all := created.CalculateAll();
      if all.Failure? {
        return Failure(all.error);
      }
      return Success(created);
    }
  }
}
