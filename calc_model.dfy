/**
 * The calculator's recompute machinery as values: how a formula is
 * evaluated through the parser (with the wrapped extra functions and the
 * user-value cache), how one cell is recalculated, and a recompute pass
 * over a worklist. The `Calculator` class is proved against these, and the
 * theorems below say when a pass leaves every formula cell holding the
 * value of its own formula.
 */
module CalcModel {
  import opened Wrappers
  import opened Values
  import opened Sheet
  import opened DepMaps
  import opened DepsToProvides
  import opened Deps
  import opened Reach
  import opened Seqs
  import opened PartialEvalOrder
  import opened EvalOrder
  import opened ValueStore

  /** The parser's name error, for a call of a name no function is registered under. */
  const NameError: string := "NAME"

  /** An extra formula function: called with the parameters and the cell being evaluated. */
  type ExtraFunc = (seq<Value>, CellRef) -> Value

  /** A user-update handler: told the parameters, the cell and the user's value; answers whether it consumed the value. */
  type UserUpdateFunc = (seq<Value>, CellRef, Value) -> bool

  /** One call the parser makes to an extra function while parsing a formula. */
  datatype Invocation = Invocation(name: string, params: seq<Value>)

  /** `parser.parse(formula)`: `{result, error}`. */
  datatype ParseResult = ParseResult(result: Value, error: Value)

  /**
   * The formula parser, left uninterpreted: the extra-function calls a
   * parse of `formula` for `cell` makes against the store, in order, and
   * the result it produces given what those calls returned. The calls are
   * fixed before any of them runs, so a call's parameters cannot depend on
   * what an earlier wrapped call returned.
   */
  datatype FormulaParser = FormulaParser(
    calls: (string, CellRef, Vals) -> seq<Invocation>,
    finish: (string, CellRef, Vals, seq<Value>) -> ParseResult)

  /** What a calculator is configured with. */
  datatype Env = Env(parser: FormulaParser, extras: map<string, ExtraFunc>, handlers: map<string, UserUpdateFunc>)

  type Cache = map<CellRef, Value>

  /** The fields a recompute changes: `vals`, `cellValueCache`, `userValueCache`. */
  datatype State = State(vals: Vals, cellValueCache: Cache, userValueCache: Cache)

  /**
   * The wrapped extra function: a pending user value for the cell is
   * returned in place of the function's result, and dropped only when the
   * handler reports it consumed. A name outside `extras` has no wrapped
   * function in the calculator (the parser resolves unknown names itself);
   * the uninterpreted parser should never make such a call, and the model
   * answers it with the name error as a default.
   */
  function CallExtra(env: Env, name: string, params: seq<Value>, c: CellRef, uvc: Cache): (Value, Cache)
  {
    if name !in env.extras then (Error(NameError), uvc)
    else if c in uvc && name in env.handlers then
      (uvc[c], if env.handlers[name](params, c, uvc[c]) then uvc - {c} else uvc)
    else (env.extras[name](params, c), uvc)
  }

  /** The extra function's own result, with no user value in play (the name error is the same default as in `CallExtra`). */
  function PlainCall(env: Env, inv: Invocation, c: CellRef): Value
  {
    if inv.name !in env.extras then Error(NameError) else env.extras[inv.name](inv.params, c)
  }

  /** The parser's calls, in order, threading the user-value cache. */
  function RunCalls(env: Env, invs: seq<Invocation>, c: CellRef, uvc: Cache): (r: (seq<Value>, Cache))
    ensures |r.0| == |invs|
    decreases |invs|
  {
    if invs == [] then ([], uvc)
    else
      var n := |invs| - 1;
      var (results, uvc1) := RunCalls(env, invs[..n], c, uvc);
      var (v, uvc2) := CallExtra(env, invs[n].name, invs[n].params, c, uvc1);
      (results + [v], uvc2)
  }

  /** `evaluateFormula`'s answer: the parse error when there is one, else the result. */
  function ParseValue(pr: ParseResult): Value
  {
    if Truthy(pr.error) then pr.error else pr.result
  }

  /** `evaluateFormula(formula, c)`: the value, and the user-value cache afterwards. */
  function Evaluate(env: Env, formula: string, c: CellRef, vals: Vals, uvc: Cache): (Value, Cache)
  {
    var (results, uvc') := RunCalls(env, env.parser.calls(formula, c, vals), c, uvc);
    (ParseValue(env.parser.finish(formula, c, vals, results)), uvc')
  }

  /** Reference evaluation: what the formula is worth when no user value is pending. */
  function PureEval(env: Env, formula: string, c: CellRef, vals: Vals): Value
  {
    var invs := env.parser.calls(formula, c, vals);
    ParseValue(env.parser.finish(formula, c, vals, seq(|invs|, i requires 0 <= i < |invs| => PlainCall(env, invs[i], c))))
  }

  /**
   * The calls only ever consume the evaluated cell's pending value; with
   * none pending (or no handlers at all) they are the plain calls and
   * leave the cache alone.
   */
  lemma {:induction false} RunCallsEffect(env: Env, invs: seq<Invocation>, c: CellRef, uvc: Cache)
    ensures RunCalls(env, invs, c, uvc).1 == uvc || RunCalls(env, invs, c, uvc).1 == uvc - {c}
    ensures c !in uvc || env.handlers == map[] ==>
              RunCalls(env, invs, c, uvc) == (seq(|invs|, i requires 0 <= i < |invs| => PlainCall(env, invs[i], c)), uvc)
    decreases |invs|
  {
    if invs == [] {
      assert forall q: seq<Value> :: |q| == 0 ==> q == [];
    } else {
      var n := |invs| - 1;
      RunCallsEffect(env, invs[..n], c, uvc);
      var uvc1 := RunCalls(env, invs[..n], c, uvc).1;
      if uvc1 == uvc - {c} {
        assert c !in uvc1;
        assert uvc1 - {c} == uvc1;
      }
      if c !in uvc || env.handlers == map[] {
        var plain := seq(|invs|, i requires 0 <= i < |invs| => PlainCall(env, invs[i], c));
        assert plain == seq(n, i requires 0 <= i < n => PlainCall(env, invs[..n][i], c)) + [PlainCall(env, invs[n], c)];
      }
    }
  }

  /** `evaluateFormula` only ever consumes the cell's own pending value, and without one it is the reference evaluation. */
  lemma EvaluateEffect(env: Env, formula: string, c: CellRef, vals: Vals, uvc: Cache)
    ensures Evaluate(env, formula, c, vals, uvc).1 == uvc || Evaluate(env, formula, c, vals, uvc).1 == uvc - {c}
    ensures c !in uvc || env.handlers == map[] ==>
              Evaluate(env, formula, c, vals, uvc) == (PureEval(env, formula, c, vals), uvc)
  {
    var invs := env.parser.calls(formula, c, vals);
    RunCallsEffect(env, invs, c, uvc);
    if c !in uvc || env.handlers == map[] {
      var plain := seq(|invs|, i requires 0 <= i < |invs| => PlainCall(env, invs[i], c));
      assert RunCalls(env, invs, c, uvc).0 == plain;
      assert Evaluate(env, formula, c, vals, uvc).0 == ParseValue(env.parser.finish(formula, c, vals, plain));
    }
  }

  /** `_hasUserValueFunc`: the formula, upper-cased, starts with some handler's name, upper-cased, and `(`. */
  predicate HasUserValueFunc(env: Env, cell: Cell)
  {
    cell.formula != ""
    && exists name :: name in env.handlers && StartsWith(ToUpper(cell.formula), ToUpper(name) + "(")
  }

  lemma UpperIdempotent(s: string)
    ensures ToUpper(ToUpper(s)) == ToUpper(s)
  {
    forall i | 0 <= i < |s|
      ensures ToUpper(ToUpper(s))[i] == ToUpper(s)[i]
    {
      var c := s[i];
      assert Upper(Upper(c)) == Upper(c);
    }
  }

  /** The test ignores case: a formula and its upper-cased form agree. */
  lemma UserValueFuncIgnoresCase(env: Env, cell: Cell)
    ensures HasUserValueFunc(env, cell) == HasUserValueFunc(env, cell.(formula := ToUpper(cell.formula)))
  {
    UpperIdempotent(cell.formula);
  }

  /** A formula that calls a handler's function first, in any case, is detected. */
  lemma UserValueFuncDetects(env: Env, cell: Cell, name: string, rest: string)
    requires name in env.handlers
    requires ToUpper(cell.formula) == ToUpper(name) + "(" + rest
    ensures HasUserValueFunc(env, cell)
  {
    assert |cell.formula| > 0;
    assert ToUpper(cell.formula)[..|ToUpper(name) + "("|] == ToUpper(name) + "(";
  }

  /**
   * `_calculateCellValue(c, skipCache)`: the value a cell gets and the
   * caches afterwards. A formula cell drops its cached value and is
   * evaluated (unless the cache may be used and holds a truthy value); a
   * cell with a static value yields it; any other cell keeps its stored
   * value. The store itself is not written.
   */
  function CalcCell(env: Env, tabs: seq<Tab>, st: State, c: CellRef, skipCache: bool): (r: (Value, State))
    requires GetCell(tabs, c).Some?
    ensures r.1.vals == st.vals
  {
    var cell := GetCell(tabs, c).value;
    if HasFormula(cell) then
      if !skipCache && c in st.cellValueCache && Truthy(st.cellValueCache[c]) then (st.cellValueCache[c], st)
      else
        var (v, uvc) := Evaluate(env, cell.formula, c, st.vals, st.userValueCache);
        (v, State(st.vals, st.cellValueCache - {c}, uvc))
    else if cell.staticValue != Null then (cell.staticValue, st)
    else (Get(st.vals, c), st)
  }

  /**
   * The three cases of `_calculateCellValue`, and what each does to the
   * caches. A recomputed formula cell loses its cached async value and
   * gets the evaluation's value (the plain evaluation when no user value
   * is pending); a truthy cached value is used as is when the cache may
   * be read; a static value is returned; any other cell reads its stored
   * value. Only `c`'s cache entries can change.
   */
  lemma CalcCellCases(env: Env, tabs: seq<Tab>, st: State, c: CellRef, skipCache: bool)
    requires GetCell(tabs, c).Some?
    ensures var cell := GetCell(tabs, c).value;
            var r := CalcCell(env, tabs, st, c, skipCache);
            var hit := !skipCache && c in st.cellValueCache && Truthy(st.cellValueCache[c]);
            && (HasFormula(cell) && hit ==> r == (st.cellValueCache[c], st))
            && (HasFormula(cell) && !hit ==>
                  && r.0 == Evaluate(env, cell.formula, c, st.vals, st.userValueCache).0
                  && c !in r.1.cellValueCache
                  && r.1.cellValueCache == st.cellValueCache - {c}
                  && (r.1.userValueCache == st.userValueCache || r.1.userValueCache == st.userValueCache - {c})
                  && (c !in st.userValueCache || env.handlers == map[] ==>
                        r.0 == PureEval(env, cell.formula, c, st.vals) && r.1.userValueCache == st.userValueCache))
            && (!HasFormula(cell) && cell.staticValue != Null ==> r == (cell.staticValue, st))
            && (!HasFormula(cell) && cell.staticValue == Null ==> r == (Get(st.vals, c), st))
  {
    var cell := GetCell(tabs, c).value;
    if HasFormula(cell) {
      EvaluateEffect(env, cell.formula, c, st.vals, st.userValueCache);
    }
  }

  /** One step of `_processCalculations`: recalculate (skipping the cache) and store. */
  function Step(env: Env, tabs: seq<Tab>, st: State, c: CellRef): State
    requires GetCell(tabs, c).Some?
  {
    var (v, st') := CalcCell(env, tabs, st, c, true);
    st'.(vals := ValueStore.Put(st'.vals, c, v))
  }

  ghost predicate AllExist(tabs: seq<Tab>, w: seq<CellRef>)
  {
    forall c :: c in w ==> GetCell(tabs, c).Some?
  }

  /** `_processCalculations(w)`: the steps in worklist order, each seeing the values stored before it. */
  function Pass(env: Env, tabs: seq<Tab>, st: State, w: seq<CellRef>): State
    requires AllExist(tabs, w)
    decreases |w|
  {
    if w == [] then st
    else
      var n := |w| - 1;
      Step(env, tabs, Pass(env, tabs, st, w[..n]), w[n])
  }

  /** The store has a row list for the tab of every cell of the document. */
  ghost predicate TabsStored(tabs: seq<Tab>, vals: Vals)
  {
    forall c :: GetCell(tabs, c).Some? ==> c.tabId in vals
  }

  /** A pass over `a + b` is a pass over `a` followed by one over `b`. */
  lemma {:induction false} PassConcat(env: Env, tabs: seq<Tab>, st: State, a: seq<CellRef>, b: seq<CellRef>)
    requires AllExist(tabs, a + b)
    ensures AllExist(tabs, a) && AllExist(tabs, b)
    ensures Pass(env, tabs, st, a + b) == Pass(env, tabs, Pass(env, tabs, st, a), b)
    decreases |b|
  {
    assert forall c :: c in a ==> c in a + b;
    assert forall c :: c in b ==> c in a + b;
    if b == [] {
      assert a + b == a;
    } else {
      var n := |b| - 1;
      assert (a + b)[..|a + b| - 1] == a + b[..n];
      assert (a + b)[|a + b| - 1] == b[n];
      PassConcat(env, tabs, st, a, b[..n]);
    }
  }

  /**
   * A pass writes only the cells of its worklist: every other cell of a
   * stored tab reads the same afterwards, and stored tabs stay stored.
   */
  lemma {:induction false} PassFrame(env: Env, tabs: seq<Tab>, st: State, w: seq<CellRef>, d: CellRef)
    requires AllExist(tabs, w) && TabsStored(tabs, st.vals)
    ensures st.vals.Keys <= Pass(env, tabs, st, w).vals.Keys
    ensures TabsStored(tabs, Pass(env, tabs, st, w).vals)
    ensures d !in w && d.tabId in st.vals ==> Get(Pass(env, tabs, st, w).vals, d) == Get(st.vals, d)
    decreases |w|
  {
    if w != [] {
      var n := |w| - 1;
      assert AllExist(tabs, w[..n]);
      PassFrame(env, tabs, st, w[..n], d);
      if d !in w {
        assert d !in w[..n];
      }
    }
  }

  /** The single-cell references a document cell's formula reads (none for a cell without formula). */
  function Reads(tabs: seq<Tab>, scan: Scanner, c: CellRef): seq<CellRef>
  {
    match GetCell(tabs, c)
    case Some(cell) => if HasFormula(cell) then ReadsOf(c.tabId, scan(cell.formula)) else []
    case None => []
  }

  /**
   * Evaluation reads only what the dependency scan reports: stores that
   * agree on a formula's single-cell references give it the same value.
   */
  ghost predicate Local(env: Env, scan: Scanner)
  {
    forall formula: string, c: CellRef, v1: Vals, v2: Vals :: Agree(v1, v2, ReadsOf(c.tabId, scan(formula)))
      ==> PureEval(env, formula, c, v1) == PureEval(env, formula, c, v2)
  }

  /** A document cell holds what it should: its formula's value, or its static value. */
  ghost predicate CellConsistent(env: Env, tabs: seq<Tab>, vals: Vals, c: CellRef)
  {
    match GetCell(tabs, c)
    case None => true
    case Some(cell) =>
      if HasFormula(cell) then Get(vals, c) == PureEval(env, cell.formula, c, vals)
      else cell.staticValue != Null ==> Get(vals, c) == cell.staticValue
  }

  /** No cell of the worklist reads itself or a cell the worklist writes after it. */
  ghost predicate ReadsBefore(tabs: seq<Tab>, scan: Scanner, w: seq<CellRef>)
  {
    forall i, d :: 0 <= i < |w| && d in Reads(tabs, scan, w[i]) ==> d !in w[i..]
  }

  /** A cell whose reads all read alike stays consistent. */
  lemma StillConsistent(env: Env, tabs: seq<Tab>, scan: Scanner, v1: Vals, v2: Vals, c: CellRef)
    requires Local(env, scan)
    requires CellConsistent(env, tabs, v1, c)
    requires Get(v1, c) == Get(v2, c) && Agree(v1, v2, Reads(tabs, scan, c))
    ensures CellConsistent(env, tabs, v2, c)
  {
    if GetCell(tabs, c).Some? && HasFormula(GetCell(tabs, c).value) {
      var f := GetCell(tabs, c).value.formula;
      assert Agree(v1, v2, ReadsOf(c.tabId, scan(f)));
    }
  }

  /** A step that writes `c` keeps consistent every other cell that does not read `c`. */
  lemma StepKeeps(env: Env, tabs: seq<Tab>, scan: Scanner, P: State, c: CellRef, x: CellRef)
    requires Local(env, scan) && GetCell(tabs, c).Some? && TabsStored(tabs, P.vals)
    requires x != c && c !in Reads(tabs, scan, x)
    requires CellConsistent(env, tabs, P.vals, x)
    ensures CellConsistent(env, tabs, Step(env, tabs, P, c).vals, x)
  {
    var P' := Step(env, tabs, P, c);
    assert c.tabId in P.vals;
    assert P'.vals == ValueStore.Put(P.vals, c, CalcCell(env, tabs, P, c, true).0);
    assert Get(P.vals, x) == Get(P'.vals, x) by {
      if GetCell(tabs, x).Some? { assert x.tabId in P.vals; }
    }
    assert Agree(P.vals, P'.vals, Reads(tabs, scan, x));
    StillConsistent(env, tabs, scan, P.vals, P'.vals, x);
  }

  /** Without handlers, a step leaves its own cell consistent when the cell does not read itself. */
  lemma StepSettles(env: Env, tabs: seq<Tab>, scan: Scanner, P: State, c: CellRef)
    requires env.handlers == map[] && Local(env, scan)
    requires GetCell(tabs, c).Some? && TabsStored(tabs, P.vals)
    requires c !in Reads(tabs, scan, c)
    ensures CellConsistent(env, tabs, Step(env, tabs, P, c).vals, c)
  {
    var v := CalcCell(env, tabs, P, c, true).0;
    var P' := Step(env, tabs, P, c);
    assert c.tabId in P.vals;
    assert P'.vals == ValueStore.Put(P.vals, c, v);
    assert Agree(P.vals, P'.vals, Reads(tabs, scan, c));
    var cell := GetCell(tabs, c).value;
    if HasFormula(cell) {
      EvaluateEffect(env, cell.formula, c, P.vals, P.userValueCache);
      assert Agree(P.vals, P'.vals, ReadsOf(c.tabId, scan(cell.formula)));
    }
  }

  lemma ReadsBeforePrefix(tabs: seq<Tab>, scan: Scanner, w: seq<CellRef>)
    requires w != [] && ReadsBefore(tabs, scan, w)
    ensures ReadsBefore(tabs, scan, w[..|w| - 1])
    ensures w[|w| - 1] !in Reads(tabs, scan, w[|w| - 1])
    ensures forall x :: x in w[..|w| - 1] ==> w[|w| - 1] !in Reads(tabs, scan, x)
  {
    var n := |w| - 1;
    var w' := w[..n];
    forall i, d | 0 <= i < |w'| && d in Reads(tabs, scan, w'[i])
      ensures d !in w'[i..]
    {
      assert w'[i] == w[i];
      assert d !in w[i..];
      assert w'[i..] == w[i..n];
    }
    assert w[n] in w[n..];
    forall x | x in w'
      ensures w[n] !in Reads(tabs, scan, x)
    {
      var i :| 0 <= i < n && w'[i] == x;
      assert w[i] == x && w[n] in w[i..];
    }
  }

  /**
   * Without user-update handlers, a pass over a worklist without
   * repetitions in which every cell comes after the cells it reads leaves
   * every worklist cell consistent.
   */
  lemma {:induction false} PassSettles(env: Env, tabs: seq<Tab>, scan: Scanner, st: State, w: seq<CellRef>)
    requires env.handlers == map[] && Local(env, scan)
    requires Distinct(w) && AllExist(tabs, w) && TabsStored(tabs, st.vals)
    requires ReadsBefore(tabs, scan, w)
    ensures forall c :: c in w ==> CellConsistent(env, tabs, Pass(env, tabs, st, w).vals, c)
    decreases |w|
  {
    if w != [] {
      var n := |w| - 1;
      var w' := w[..n];
      var c := w[n];
      ReadsBeforePrefix(tabs, scan, w);
      assert AllExist(tabs, w');
      assert Distinct(w');
      PassSettles(env, tabs, scan, st, w');
      var P := Pass(env, tabs, st, w');
      PassFrame(env, tabs, st, w', c);
      StepSettles(env, tabs, scan, P, c);
      var P' := Step(env, tabs, P, c);
      assert Pass(env, tabs, st, w) == P';
      forall x | x in w
        ensures CellConsistent(env, tabs, P'.vals, x)
      {
        if x != c {
          assert x in w' && c !in Reads(tabs, scan, x);
          StepKeeps(env, tabs, scan, P, c, x);
        }
      }
    }
  }

  /** A formula's reads are exactly its cell's incoming edges and the providers it is listed under. */
  lemma ReadEdge(tabs: seq<Tab>, scan: Scanner, c: CellRef, d: CellRef)
    requires DistinctIds(tabs)
    ensures d in Reads(tabs, scan, c) <==> (d, c) in Edges(Deps.Deps(tabs, scan))
    ensures d in Reads(tabs, scan, c) <==> c in Dependents(ProvidesToOf(Deps.Deps(tabs, scan)), d)
  {
    DepsLookup(tabs, scan, c);
    EdgesMembership(Deps.Deps(tabs, scan), d, c);
    Inverse(Deps.Deps(tabs, scan), d, c);
  }

  /**
   * `calculateAll`: without user-update handlers, a pass over a
   * topological order of all cells leaves every cell of the document
   * consistent.
   */
  lemma CalculateAllSettles(env: Env, tabs: seq<Tab>, scan: Scanner, st: State, o: seq<CellRef>)
    requires env.handlers == map[] && Local(env, scan) && DistinctIds(tabs)
    requires TabsStored(tabs, st.vals)
    requires IsTopoOrder(AllCellRefs(tabs), Edges(Deps.Deps(tabs, scan)), o)
    ensures AllExist(tabs, o)
    ensures forall c :: CellConsistent(env, tabs, Pass(env, tabs, st, o).vals, c)
  {
    forall c | c in o
      ensures GetCell(tabs, c).Some?
    {
      AllCellRefsAreCells(tabs, c);
    }
    forall i, d | 0 <= i < |o| && d in Reads(tabs, scan, o[i])
      ensures d !in o[i..]
    {
      ReadEdge(tabs, scan, o[i], d);
      forall j | i <= j < |o|
        ensures o[j] != d
      {
        assert (o[j], o[i]) !in Edges(Deps.Deps(tabs, scan));
      }
    }
    PassSettles(env, tabs, scan, st, o);
    forall c
      ensures CellConsistent(env, tabs, Pass(env, tabs, st, o).vals, c)
    {
      AllCellRefsAreCells(tabs, c);
    }
  }

  /** `skipWhile(r => inputs.includes(r))`: drop the leading run of inputs. */
  function SkipWhile(s: seq<CellRef>, inputs: seq<CellRef>): (r: seq<CellRef>)
    ensures |r| <= |s| && r == s[|s| - |r|..]
    ensures forall i :: 0 <= i < |s| - |r| ==> s[i] in inputs
    ensures r != [] ==> r[0] !in inputs
    decreases |s|
  {
    if s == [] then []
    else if s[0] in inputs then SkipWhile(s[1..], inputs)
    else s
  }

  /**
   * The worklist `_evalDependents` means to recompute: the cells reachable
   * from the inputs, in global order, less the leading run of inputs.
   */
  ghost function Worklist(pt: ProvidesTo, globalOrder: seq<CellRef>, inputs: seq<CellRef>): seq<CellRef>
  {
    SkipWhile(Keep(globalOrder, ReachIn(pt, globalOrder, inputs)), inputs)
  }

  /** A cell that reads a reachable cell is recomputed or is itself an input. */
  lemma UpstreamReached(tabs: seq<Tab>, scan: Scanner, go: seq<CellRef>, inputs: seq<CellRef>, c: CellRef, d: CellRef)
    requires DistinctIds(tabs)
    requires forall x :: x in go <==> x in AllCellRefs(tabs)
    requires d in Reads(tabs, scan, c)
    requires Reachable(ProvidesToOf(Deps.Deps(tabs, scan)), inputs, d)
    ensures c in Worklist(ProvidesToOf(Deps.Deps(tabs, scan)), go, inputs) || c in inputs
  {
    var pt := ProvidesToOf(Deps.Deps(tabs, scan));
    ReadEdge(tabs, scan, c, d);
    ReachStep(pt, inputs, d, c);
    AllCellRefsAreCells(tabs, c);
    var K := Keep(go, ReachIn(pt, go, inputs));
    var w := Worklist(pt, go, inputs);
    assert c in K;
    var m :| 0 <= m < |K| && K[m] == c;
    if m >= |K| - |w| {
      assert w[m - (|K| - |w|)] == c;
    }
  }

  /** Filtering a topological order keeps every edge pointing forward. */
  lemma KeepForward(all: set<CellRef>, edges: seq<Edge>, go: seq<CellRef>, S: set<CellRef>, i: nat, j: nat)
    requires IsTopoOrder(all, edges, go)
    requires i <= j < |Keep(go, S)|
    ensures (Keep(go, S)[j], Keep(go, S)[i]) !in edges
  {
    var K := Keep(go, S);
    if i == j {
      assert K[i] in go;
      var a :| 0 <= a < |go| && go[a] == K[i];
      assert (go[a], go[a]) !in edges;
    } else {
      KeepOrder(go, S, i, j);
      var a, b :| 0 <= a < b < |go| && go[a] == K[i] && go[b] == K[j];
      assert (go[b], go[a]) !in edges;
    }
  }

  /** A suffix of a filtered topological order lists each cell after every cell it reads. */
  lemma SuffixReadsBefore(tabs: seq<Tab>, scan: Scanner, go: seq<CellRef>, S: set<CellRef>, k: nat)
    requires DistinctIds(tabs)
    requires IsTopoOrder(AllCellRefs(tabs), Edges(Deps.Deps(tabs, scan)), go)
    requires k <= |Keep(go, S)|
    ensures ReadsBefore(tabs, scan, Keep(go, S)[k..])
  {
    var K := Keep(go, S);
    var w := K[k..];
    forall i, d | 0 <= i < |w| && d in Reads(tabs, scan, w[i])
      ensures d !in w[i..]
    {
      assert w[i] == K[k + i];
      forall j | i <= j < |w|
        ensures w[j] != d
      {
        assert w[j] == K[k + j];
        ReadNotLater(tabs, scan, go, S, k + i, k + j, d);
      }
    }
  }

  /** A cell of a filtered topological order reads no cell listed at or after it. */
  lemma ReadNotLater(tabs: seq<Tab>, scan: Scanner, go: seq<CellRef>, S: set<CellRef>, i: nat, j: nat, d: CellRef)
    requires DistinctIds(tabs)
    requires IsTopoOrder(AllCellRefs(tabs), Edges(Deps.Deps(tabs, scan)), go)
    requires i <= j < |Keep(go, S)| && d in Reads(tabs, scan, Keep(go, S)[i])
    ensures Keep(go, S)[j] != d
  {
    ReadEdge(tabs, scan, Keep(go, S)[i], d);
    KeepForward(AllCellRefs(tabs), Edges(Deps.Deps(tabs, scan)), go, S, i, j);
  }

  /** The worklist has no repetitions and lists each cell after every cell it reads. */
  lemma WorklistOrdered(tabs: seq<Tab>, scan: Scanner, go: seq<CellRef>, inputs: seq<CellRef>)
    requires DistinctIds(tabs)
    requires IsTopoOrder(AllCellRefs(tabs), Edges(Deps.Deps(tabs, scan)), go)
    ensures Distinct(Worklist(ProvidesToOf(Deps.Deps(tabs, scan)), go, inputs))
    ensures AllExist(tabs, Worklist(ProvidesToOf(Deps.Deps(tabs, scan)), go, inputs))
    ensures ReadsBefore(tabs, scan, Worklist(ProvidesToOf(Deps.Deps(tabs, scan)), go, inputs))
  {
    var pt := ProvidesToOf(Deps.Deps(tabs, scan));
    var S := ReachIn(pt, go, inputs);
    var K := Keep(go, S);
    var w := Worklist(pt, go, inputs);
    var k := |K| - |w|;
    assert w == K[k..];
    KeepDistinct(go, S);
    assert Distinct(w) by {
      forall i, j | 0 <= i < j < |w|
        ensures w[i] != w[j]
      {
        assert w[i] == K[k + i] && w[j] == K[k + j];
      }
    }
    assert AllExist(tabs, w) by {
      forall x | x in w
        ensures GetCell(tabs, x).Some?
      {
        AllCellRefsAreCells(tabs, x);
      }
    }
    SuffixReadsBefore(tabs, scan, go, S, k);
  }

  /**
   * Incremental recalculation (`setValues` with the dependents' worklist):
   * starting from a consistent store, after the inputs are overwritten and
   * the worklist recomputed, every cell is consistent again except the
   * inputs that stayed in the skipped leading run, which keep the values
   * the user gave them.
   */
  lemma SetValuesSettles(env: Env, tabs: seq<Tab>, scan: Scanner, go: seq<CellRef>, inputs: seq<CellRef>,
                         st: State, st1: State)
    requires env.handlers == map[] && Local(env, scan) && DistinctIds(tabs)
    requires IsTopoOrder(AllCellRefs(tabs), Edges(Deps.Deps(tabs, scan)), go)
    requires TabsStored(tabs, st.vals) && TabsStored(tabs, st1.vals)
    requires forall c :: CellConsistent(env, tabs, st.vals, c)
    requires forall d :: d !in inputs ==> Get(st1.vals, d) == Get(st.vals, d)
    ensures AllExist(tabs, Worklist(ProvidesToOf(Deps.Deps(tabs, scan)), go, inputs))
    ensures var w := Worklist(ProvidesToOf(Deps.Deps(tabs, scan)), go, inputs);
            forall c :: c in w || c !in inputs ==> CellConsistent(env, tabs, Pass(env, tabs, st1, w).vals, c)
  {
    var pt := ProvidesToOf(Deps.Deps(tabs, scan));
    var w := Worklist(pt, go, inputs);
    WorklistOrdered(tabs, scan, go, inputs);
    PassSettles(env, tabs, scan, st1, w);
    var fin := Pass(env, tabs, st1, w).vals;
    forall c | c !in w && c !in inputs
      ensures CellConsistent(env, tabs, fin, c)
    {
      if GetCell(tabs, c).Some? {
        PassFrame(env, tabs, st1, w, c);
        forall d | d in Reads(tabs, scan, c)
          ensures Get(st.vals, d) == Get(fin, d)
        {
          if d in inputs || d in w {
            if d in inputs {
              ReachInput(pt, inputs, d);
            } else {
              assert d in Keep(go, ReachIn(pt, go, inputs));
            }
            UpstreamReached(tabs, scan, go, inputs, c, d);
            assert false;
          }
          assert d.tabId == c.tabId;
          PassFrame(env, tabs, st1, w, d);
        }
        StillConsistent(env, tabs, scan, st.vals, fin, c);
      }
    }
  }

  /**
   * The skipped run is only the leading one: an input listed after a
   * non-input is recomputed, and whatever the user gave it is replaced.
   */
  lemma LaterInputRecomputed()
    ensures var a, b, x := CellRef("t", 0, 0), CellRef("t", 0, 1), CellRef("t", 0, 2);
            Worklist(map[a := [b]], [a, b, x], [a, x]) == [b, x]
  {
    var a, b, x := CellRef("t", 0, 0), CellRef("t", 0, 1), CellRef("t", 0, 2);
    var pt: ProvidesTo := map[a := [b]];
    ReachInput(pt, [a, x], a);
    ReachInput(pt, [a, x], x);
    ReachStep(pt, [a, x], a, b);
    var r := ReachIn(pt, [a, b, x], [a, x]);
    assert a in r && b in r && x in r;
    KeepAll([a, b, x], r);
    assert [a, b, x][1..] == [b, x] && b !in [a, x];
    assert SkipWhile([b, x], [a, x]) == [b, x];
  }

  /** One entry of `setValues`: write the value, and let a user-update formula see it. `None` for a cell not in the document. */
  function WriteOne(env: Env, tabs: seq<Tab>, st: State, c: CellRef, v: Value): Option<State>
  {
    match GetCell(tabs, c)
    case None => None
    case Some(cell) =>
      var vals := ValueStore.Put(st.vals, c, v);
      if HasUserValueFunc(env, cell) then
        Some(State(vals, st.cellValueCache, Evaluate(env, cell.formula, c, vals, st.userValueCache[c := v]).1))
      else Some(st.(vals := vals))
  }

  /** The cells of the updates, in order. */
  function Keys(updates: seq<(CellRef, Value)>): (r: seq<CellRef>)
    ensures |r| == |updates| && forall i :: 0 <= i < |r| ==> r[i] == updates[i].0
    decreases |updates|
  {
    if updates == [] then [] else Keys(updates[..|updates| - 1]) + [updates[|updates| - 1].0]
  }

  /** The `forEach` of `setValues`: the entries in order, stopping at the first cell not in the document. */
  function WriteInputs(env: Env, tabs: seq<Tab>, st: State, updates: seq<(CellRef, Value)>): (State, Option<CellRef>)
    decreases |updates|
  {
    if updates == [] then (st, None)
    else
      var n := |updates| - 1;
      var prev := WriteInputs(env, tabs, st, updates[..n]);
      if prev.1.Some? then prev
      else match WriteOne(env, tabs, prev.0, updates[n].0, updates[n].1)
        case None => (prev.0, Some(updates[n].0))
        case Some(st2) => (st2, None)
  }

  /** One successful write: the cell holds the value and every other cell reads as before. */
  lemma WriteOneEffect(env: Env, tabs: seq<Tab>, st: State, c: CellRef, v: Value)
    requires TabsStored(tabs, st.vals) && GetCell(tabs, c).Some?
    ensures WriteOne(env, tabs, st, c, v).Some?
    ensures var st' := WriteOne(env, tabs, st, c, v).value;
            && TabsStored(tabs, st'.vals)
            && Get(st'.vals, c) == v
            && forall d :: d != c ==> Get(st'.vals, d) == Get(st.vals, d)
  {
    assert c.tabId in st.vals;
    assert WriteOne(env, tabs, st, c, v).value.vals == ValueStore.Put(st.vals, c, v);
  }

  /** The writes of `setValues` change only the given cells, and every tab stays stored. */
  lemma {:induction false} WriteInputsFrame(env: Env, tabs: seq<Tab>, st: State, updates: seq<(CellRef, Value)>)
    requires TabsStored(tabs, st.vals)
    ensures TabsStored(tabs, WriteInputs(env, tabs, st, updates).0.vals)
    ensures forall d :: d !in Keys(updates) ==> Get(WriteInputs(env, tabs, st, updates).0.vals, d) == Get(st.vals, d)
    decreases |updates|
  {
    if updates != [] {
      var n := |updates| - 1;
      WriteInputsFrame(env, tabs, st, updates[..n]);
      var prev := WriteInputs(env, tabs, st, updates[..n]);
      var c := updates[n].0;
      assert Keys(updates) == Keys(updates[..n]) + [c];
      if prev.1.None? && GetCell(tabs, c).Some? {
        WriteOneEffect(env, tabs, prev.0, c, updates[n].1);
        assert WriteInputs(env, tabs, st, updates).0 == WriteOne(env, tabs, prev.0, c, updates[n].1).value;
      } else {
        assert WriteInputs(env, tabs, st, updates).0 == prev.0;
      }
    }
  }

  /** Cutting a prefix shorter than `n` out of the first `n` entries. */
  lemma PrefixOfPrefix<T>(s: seq<T>, n: nat, i: nat)
    requires i < n <= |s|
    ensures s[..n][..i] == s[..i] && s[..n][i] == s[i]
  {
  }

  /**
   * The writes of `setValues` fail exactly at the first cell not in the
   * document: on success every given cell exists, on failure the failing
   * cell is a given one, missing, and every cell before it exists.
   */
  lemma {:induction false} WriteInputsFails(env: Env, tabs: seq<Tab>, st: State, updates: seq<(CellRef, Value)>)
    ensures WriteInputs(env, tabs, st, updates).1.None? ==> AllExist(tabs, Keys(updates))
    ensures var bad := WriteInputs(env, tabs, st, updates).1;
            bad.Some? ==> exists i :: 0 <= i < |updates| && updates[i].0 == bad.value
                                && GetCell(tabs, bad.value).None?
                                && AllExist(tabs, Keys(updates[..i]))
    decreases |updates|
  {
    if updates != [] {
      var n := |updates| - 1;
      WriteInputsFails(env, tabs, st, updates[..n]);
      var prev := WriteInputs(env, tabs, st, updates[..n]);
      var c := updates[n].0;
      if prev.1.Some? {
        assert WriteInputs(env, tabs, st, updates).1 == prev.1;
        var i :| 0 <= i < n && updates[..n][i].0 == prev.1.value && GetCell(tabs, prev.1.value).None?
                 && AllExist(tabs, Keys(updates[..n][..i]));
        PrefixOfPrefix(updates, n, i);
      } else if GetCell(tabs, c).Some? {
        assert WriteOne(env, tabs, prev.0, c, updates[n].1).Some?;
        assert WriteInputs(env, tabs, st, updates).1 == None;
        assert Keys(updates) == Keys(updates[..n]) + [c];
      } else {
        assert WriteInputs(env, tabs, st, updates).1 == Some(c);
        assert updates[n].0 == c && AllExist(tabs, Keys(updates[..n]));
      }
    }
  }

  /** With distinct keys, a successful `setValues` leaves each given cell holding its given value. */
  lemma {:induction false} WriteInputsValues(env: Env, tabs: seq<Tab>, st: State, updates: seq<(CellRef, Value)>)
    requires TabsStored(tabs, st.vals) && Distinct(Keys(updates))
    requires WriteInputs(env, tabs, st, updates).1.None?
    ensures forall i :: 0 <= i < |updates| ==> Get(WriteInputs(env, tabs, st, updates).0.vals, updates[i].0) == updates[i].1
    decreases |updates|
  {
    if updates != [] {
      var n := |updates| - 1;
      var prev := WriteInputs(env, tabs, st, updates[..n]);
      var c := updates[n].0;
      KeysPrefixDistinct(updates, n);
      WriteInputsLast(env, tabs, st, updates);
      WriteInputsValues(env, tabs, st, updates[..n]);
      WriteInputsFrame(env, tabs, st, updates[..n]);
      WriteOneEffect(env, tabs, prev.0, c, updates[n].1);
      forall i | 0 <= i < n
        ensures Get(prev.0.vals, updates[i].0) == updates[i].1
      {
        assert updates[..n][i] == updates[i];
      }
      LastWriteKeeps(prev.0.vals, WriteInputs(env, tabs, st, updates).0.vals, updates);
    }
  }

  /** Writing the last of distinct keys keeps the values the earlier writes left. */
  lemma {:induction false} LastWriteKeeps(old_vals: Vals, new_vals: Vals, updates: seq<(CellRef, Value)>)
    requires updates != [] && Distinct(Keys(updates))
    requires forall i :: 0 <= i < |updates| - 1 ==> Get(old_vals, updates[i].0) == updates[i].1
    requires Get(new_vals, updates[|updates| - 1].0) == updates[|updates| - 1].1
    requires forall d :: d != updates[|updates| - 1].0 ==> Get(new_vals, d) == Get(old_vals, d)
    ensures forall i :: 0 <= i < |updates| ==> Get(new_vals, updates[i].0) == updates[i].1
  {
    var n := |updates| - 1;
    forall i | 0 <= i < n
      ensures Get(new_vals, updates[i].0) == updates[i].1
    {
      assert Keys(updates)[i] != Keys(updates)[n];
    }
  }

  lemma {:induction false} KeysPrefixDistinct(updates: seq<(CellRef, Value)>, n: nat)
    requires n <= |updates| && Distinct(Keys(updates))
    ensures Distinct(Keys(updates[..n]))
  {
    forall i, j | 0 <= i < j < n
      ensures Keys(updates[..n])[i] != Keys(updates[..n])[j]
    {
      assert Keys(updates)[i] != Keys(updates)[j];
    }
  }

  /** A successful run of writes ends with a successful write of its last entry. */
  lemma WriteInputsLast(env: Env, tabs: seq<Tab>, st: State, updates: seq<(CellRef, Value)>)
    requires updates != [] && WriteInputs(env, tabs, st, updates).1.None?
    ensures var prev := WriteInputs(env, tabs, st, updates[..|updates| - 1]);
            var (c, v) := updates[|updates| - 1];
            && prev.1.None? && GetCell(tabs, c).Some? && WriteOne(env, tabs, prev.0, c, v).Some?
            && WriteInputs(env, tabs, st, updates).0 == WriteOne(env, tabs, prev.0, c, v).value
  {
  }

  /** The constructor's store has a row list for every tab of the document. */
  lemma InitialStored(tabs: seq<Tab>)
    ensures TabsStored(tabs, Initial(tabs))
  {
    forall c | GetCell(tabs, c).Some?
      ensures c.tabId in Initial(tabs)
    {
      assert GetTab(tabs, c.tabId).value in tabs;
    }
  }

  /** The worklist is drawn from the global order. */
  lemma WorklistWithin(tabs: seq<Tab>, pt: ProvidesTo, go: seq<CellRef>, inputs: seq<CellRef>)
    requires AllExist(tabs, go)
    ensures AllExist(tabs, Worklist(pt, go, inputs))
  {
    SkipKeepWithin(tabs, go, ReachIn(pt, go, inputs), inputs);
  }

  /** An element of a suffix is an element of the whole. */
  lemma SuffixMembers<T>(s: seq<T>, r: seq<T>)
    requires |r| <= |s| && r == s[|s| - |r|..]
    ensures forall x :: x in r ==> x in s
  {
    forall x | x in r
      ensures x in s
    {
      var i :| 0 <= i < |r| && r[i] == x;
      assert s[|s| - |r| + i] == x;
    }
  }

  /** What survives the filter and the skipped run is drawn from the order filtered. */
  lemma SkipKeepWithin(tabs: seq<Tab>, go: seq<CellRef>, R: set<CellRef>, inputs: seq<CellRef>)
    requires AllExist(tabs, go)
    ensures AllExist(tabs, SkipWhile(Keep(go, R), inputs))
  {
    var K := Keep(go, R);
    var w := SkipWhile(K, inputs);
    SuffixMembers(K, w);
    forall x | x in w
      ensures GetCell(tabs, x).Some?
    {
      assert x in K;
      assert x in go;
    }
  }

  /**
   * `setValues`, end to end, without user-update handlers: from a
   * consistent store, every cell is consistent afterwards except given
   * cells left out of the recompute, and those hold the values given.
   */
  lemma SetValuesConsistent(env: Env, tabs: seq<Tab>, scan: Scanner, go: seq<CellRef>, st: State,
                            updates: seq<(CellRef, Value)>)
    requires env.handlers == map[] && Local(env, scan) && DistinctIds(tabs)
    requires IsTopoOrder(AllCellRefs(tabs), Edges(Deps.Deps(tabs, scan)), go)
    requires TabsStored(tabs, st.vals) && forall c :: CellConsistent(env, tabs, st.vals, c)
    requires Distinct(Keys(updates)) && WriteInputs(env, tabs, st, updates).1.None?
    ensures var w := Worklist(ProvidesToOf(Deps.Deps(tabs, scan)), go, Keys(updates));
            && AllExist(tabs, w)
            && var fin := Pass(env, tabs, WriteInputs(env, tabs, st, updates).0, w).vals;
            && (forall c :: c in w || c !in Keys(updates) ==> CellConsistent(env, tabs, fin, c))
            && (forall i :: 0 <= i < |updates| && updates[i].0 !in w ==> Get(fin, updates[i].0) == updates[i].1)
  {
    var st1 := WriteInputs(env, tabs, st, updates).0;
    var w := Worklist(ProvidesToOf(Deps.Deps(tabs, scan)), go, Keys(updates));
    WriteInputsFrame(env, tabs, st, updates);
    WriteInputsFails(env, tabs, st, updates);
    WriteInputsValues(env, tabs, st, updates);
    SetValuesSettles(env, tabs, scan, go, Keys(updates), st, st1);
    forall i | 0 <= i < |updates| && updates[i].0 !in w
      ensures Get(Pass(env, tabs, st1, w).vals, updates[i].0) == updates[i].1
    {
      var c := updates[i].0;
      assert Keys(updates)[i] == c;
      assert GetCell(tabs, c).Some? && c.tabId in st1.vals;
      PassFrame(env, tabs, st1, w, c);
    }
  }

  /**
   * With the inputs dropped, nothing is recomputed: the cell `b` that
   * reads the changed cell `a` is on the intended worklist, and the
   * worklist of no inputs is empty.
   */
  lemma DependentsDroppedAsWritten()
    ensures var a, b := CellRef("t", 0, 0), CellRef("t", 1, 0);
            && Worklist(map[a := [b]], [a, b], [a]) == [b]
            && Worklist(map[a := [b]], [a, b], []) == []
  {
    var a, b := CellRef("t", 0, 0), CellRef("t", 1, 0);
    WorklistOfOneEdge(a, b);
    WorklistOfNoInputs(map[a := [b]], [a, b]);
  }

  /** With one edge from `a` to `b`, changing `a` recomputes `b`. */
  lemma WorklistOfOneEdge(a: CellRef, b: CellRef)
    requires a != b
    ensures Worklist(map[a := [b]], [a, b], [a]) == [b]
  {
    var pt: ProvidesTo := map[a := [b]];
    ReachInput(pt, [a], a);
    ReachStep(pt, [a], a, b);
    assert ReachIn(pt, [a, b], [a]) == {a, b};
    assert Keep([a, b], {a, b}) == [a, b];
    assert [a, b][1..] == [b];
  }

  /** With no inputs nothing is reachable, so nothing is recomputed. */
  lemma WorklistOfNoInputs(pt: ProvidesTo, go: seq<CellRef>)
    ensures Worklist(pt, go, []) == []
  {
    assert ReachIn(pt, go, []) == {};
    KeepNone(go, {});
  }

  /** Equal worklists make equal passes. */
  lemma PassSame(env: Env, tabs: seq<Tab>, st: State, w1: seq<CellRef>, w2: seq<CellRef>)
    requires AllExist(tabs, w1) && w1 == w2
    ensures AllExist(tabs, w2) && Pass(env, tabs, st, w1) == Pass(env, tabs, st, w2)
  {
  }

  /** `_processCalculations` over one more cell: one more step. */
  lemma PassSnoc(env: Env, tabs: seq<Tab>, st: State, w: seq<CellRef>, i: nat)
    requires i < |w| && AllExist(tabs, w)
    ensures AllExist(tabs, w[..i]) && AllExist(tabs, w[..i + 1])
    ensures Pass(env, tabs, st, w[..i + 1]) == Step(env, tabs, Pass(env, tabs, st, w[..i]), w[i])
  {
    assert w[..i + 1][..i] == w[..i];
    assert forall x :: x in w[..i + 1] ==> x in w;
  }

  /** One more successful write extends the writes by one entry. */
  lemma WriteInputsStep(env: Env, tabs: seq<Tab>, st: State, updates: seq<(CellRef, Value)>, i: nat, st2: State)
    requires i < |updates| && WriteInputs(env, tabs, st, updates[..i]).1.None?
    requires WriteOne(env, tabs, WriteInputs(env, tabs, st, updates[..i]).0, updates[i].0, updates[i].1) == Some(st2)
    ensures WriteInputs(env, tabs, st, updates[..i + 1]) == (st2, None)
  {
    assert updates[..i + 1][..i] == updates[..i];
  }

  /** The writes stop at the first cell not in the document, with the store as the earlier writes left it. */
  lemma WriteInputsStop(env: Env, tabs: seq<Tab>, st: State, updates: seq<(CellRef, Value)>, i: nat)
    requires i < |updates| && WriteInputs(env, tabs, st, updates[..i]).1.None?
    requires GetCell(tabs, updates[i].0).None?
    ensures WriteInputs(env, tabs, st, updates) == (WriteInputs(env, tabs, st, updates[..i]).0, Some(updates[i].0))
  {
    assert updates[..i + 1][..i] == updates[..i];
    WriteInputsPrefix(env, tabs, st, updates, i + 1);
  }

  /** Once failed, the writes stay failed: entry `j - 1` is not written. */
  lemma WriteInputsFailed(env: Env, tabs: seq<Tab>, st: State, updates: seq<(CellRef, Value)>, j: nat)
    requires 0 < j <= |updates| && WriteInputs(env, tabs, st, updates[..j - 1]).1.Some?
    ensures WriteInputs(env, tabs, st, updates[..j]) == WriteInputs(env, tabs, st, updates[..j - 1])
  {
    assert updates[..j][..j - 1] == updates[..j - 1];
  }

  /** A failure part-way leaves the whole `forEach` failed at the same cell. */
  lemma {:induction false} WriteInputsPrefix(env: Env, tabs: seq<Tab>, st: State, updates: seq<(CellRef, Value)>, k: nat)
    requires 0 < k <= |updates|
    requires WriteInputs(env, tabs, st, updates[..k]).1.Some?
    ensures WriteInputs(env, tabs, st, updates) == WriteInputs(env, tabs, st, updates[..k])
  {
    WriteInputsFailedFrom(env, tabs, st, updates, k, |updates|);
    assert updates[..|updates|] == updates;
  }

  /** Every longer prefix after a failure ends as the failure left it. */
  lemma {:induction false} WriteInputsFailedFrom(env: Env, tabs: seq<Tab>, st: State, updates: seq<(CellRef, Value)>, k: nat, j: nat)
    requires 0 < k <= j <= |updates|
    requires WriteInputs(env, tabs, st, updates[..k]).1.Some?
    ensures WriteInputs(env, tabs, st, updates[..j]) == WriteInputs(env, tabs, st, updates[..k])
    decreases j
  {
    if j > k {
      WriteInputsFailedFrom(env, tabs, st, updates, k, j - 1);
      WriteInputsFailed(env, tabs, st, updates, j);
    }
  }
}
