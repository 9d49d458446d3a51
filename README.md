# sheety-calculator, modelled in Dafny

sheety-calculator evaluates a spreadsheet document: tabs of rows of cells.
Each cell has a formula or a static value. The engine works in four steps:

- it scans every formula for the single-cell references it reads (`deps`);
- it inverts that map into "who reads me" lists (`depsToProvides`);
- it evaluates every cell once in a topological order of the references (`evalOrder`, `calculateAll`);
- when the user sets values (`setValues`) or an asynchronous function delivers its result (`setCachedCellValue`), it recomputes only the cells reachable from the changed ones (`partialEvalOrder`, `_evalDependents`).

Values live in a store that maps tab id to rows to cells. The compiled
calculator also keeps two caches:

- values delivered by asynchronous functions;
- values the user gave to cells whose formula calls a user-update function.

The repository ships two versions of the calculator and of
`partialEvalOrder`: the sources under `src/` and an extended build under
`dist/`. They differ, so each has its own module. The other components
(`deps`, `depsToProvides`, `evalOrder`, `VLOOKUP`) are the same in both
and are modelled once.

Modules:

- `Values`, `Sheet`, `Wrappers`: values with JavaScript truthiness, the document, and cell references.
- `ValueStore`: `_getCellValue` and `_setCellValue` over the padded lists of the store.
- `DepMaps`, `Deps`: the dependency map, kept as a list of entries in insertion order, and `deps` as its three nested reduces. The dependency parser is a class whose callbacks update its closure state.
- `DepsToProvides`: the inversion, proved against a reference definition. Occurrences are counted, so duplicate references are kept.
- `EvalOrder`: the happens-before edges, and a verified Kahn sort in place of the `toposort` package. A cycle yields a set of cells that proves no order exists.
- `PartialEvalOrder` (dist): the visited-set worklist, proved to return exactly the reachable cells in global order.
- `PartialEvalOrderSrc` (src): the worklist without a visited set. Its order repeats cells and ends only when no reachable cycle exists.
- `SheetFuncs`: `VLOOKUP` and `HYPERLINK`.
- `CalcModel`: the dist calculator as functions on values (evaluation through the wrapped extra functions, one recompute step, a pass), plus the theorems that a pass leaves cells consistent.
- `Calculator`: the dist calculator as a class whose fields are the store and the caches. Each method is proved against `CalcModel`.
- `CalculatorSrc`: the src calculator as a class and functions. It also holds `eachCell` and the src store write, each as written beside a corrected form.

The formula parser is external. For dependency scanning it is a function
from a formula to the reference events it reports. For evaluation it is a
pair of functions:

- the extra-function calls a parse makes against the store;
- the result it produces from what those calls returned.

The `isUserEditable` check in `setValues` has an empty body in both
versions, and the model ignores the flag as well.

## Model

| member | source | states |
|---|---|---|
| Sheet.GetTab | src/lib/calculator.js:69-72 | the tab found carries the requested id and belongs to the document; when none is found, no tab has that id |
| Sheet.GetTabAt | src/lib/calculator.js:13-14 | with distinct ids, looking a tab up by its own id finds that tab |
| Sheet.AllCellRefsAreCells | src/lib/calculator.js:58-64 | the references `_allCellRefs` enumerates are exactly those the document resolves to a cell |
| ValueStore.SetAt | dist/lib/calculator.js:291-294 | a list `set` past the end pads with the fill value; the written slot holds the value and every other slot is unchanged or padding |
| ValueStore.Put | dist/lib/calculator.js:283-295 | after `_setCellValue` the written cell reads back the value; every other cell of an existing tab, or of another tab, reads as before; the store gains exactly the written tab |
| ValueStore.PutInSteps | dist/lib/calculator.js:288-294 | adding the tab, then the empty row when it is missing, then setting the cell, lands on `Put` |
| ValueStore.Initial | dist/lib/calculator.js:69-72 | the constructor's store has a key exactly for each tab id, and every cell of it reads `Undefined` |
| ValueStore.Get | dist/lib/calculator.js:303-310 | `_getCellValue`: `Null` for a tab with no list, `Undefined` outside the stored rows and cells; stated by `ValueStore.Put` (a written cell reads back, others read as before) and `ValueStore.Initial` (every cell of a new store reads `Undefined`) |
| DepMaps.LookupFound | src/lib/deps.js:13-21 | `get` finds a key exactly when it is present, and what it finds is stored beside that key |
| DepMaps.Put | src/lib/deps.js:17 | after `set`, the key maps to the new list and every other key's lookup is unchanged |
| DepMaps.PutDistinct | src/lib/deps.js:17 | `set` never stores a key twice |
| DepMaps.LookupAt | src/lib/deps.js:13-21 | with distinct keys, looking up an entry's key yields that entry's list |
| DepMaps.LookupSnoc | src/lib/deps.js:13-21 | appending an entry with a new key changes the lookup of that key only |
| Deps.ReadsOf | src/lib/deps.js:28-36 | the dependency callbacks record at most one reference per event, all on the tab being parsed |
| Deps.ReadsOfConcat | src/lib/deps.js:28-33 | references are recorded in encounter order |
| Deps.ReadsOfMembership | src/lib/deps.js:28-36 | a cell is recorded iff some single-cell event names its coordinates; range events record nothing |
| Deps.DependencyParser.constructor | src/lib/deps.js:24-27 | the parser starts with no recorded references and no tab |
| Deps.DependencyParser.CallCellValue | src/lib/deps.js:28-33 | the callback appends the cell on the current tab and answers 0 |
| Deps.DependencyParser.Parse | src/lib/deps.js:38-48 | the wrapped `parse` returns the references the formula's events record, in order, and leaves the accumulator empty |
| Deps.CellStepLookup | src/lib/deps.js:15-19 | one cell step changes only that cell's entry, and only when it has a formula |
| Deps.CellStepDistinct | src/lib/deps.js:15-19 | one cell step keeps the keys distinct |
| Deps.RowFoldLookup | src/lib/deps.js:15-19 | folding a row's first `k` cells sets exactly the entries of that row's formula cells among them |
| Deps.RowFoldStepLookup | src/lib/deps.js:15-19 | the last cell of a row fold changes only its own entry |
| Deps.RowFoldDistinct | src/lib/deps.js:15-19 | a row fold keeps the keys distinct |
| Deps.RowsFoldLookup | src/lib/deps.js:14-20 | folding a tab's first `k` rows sets exactly the entries of their formula cells |
| Deps.RowsFoldStepLookup | src/lib/deps.js:14-20 | the last row of a rows fold changes only that row's entries |
| Deps.RowsFoldDistinct | src/lib/deps.js:14-20 | a rows fold keeps the keys distinct |
| Deps.Deps | src/lib/deps.js:10-22 | `deps`: the three nested reduces from an empty map; stated by `Deps.DepsDistinct` and `Deps.DepsLookup` |
| Deps.DepsDistinct | src/lib/deps.js:10-22 | the dependency map never holds a cell twice |
| Deps.DepsLookup | src/lib/deps.js:10-22 | `deps(tabs)` has an entry exactly for the cells with a formula, listing the single-cell references that formula reads on the cell's own tab |
| DepsToProvides.AddRequirerEffect | src/lib/deps-to-provides.js:5-8 | the inner reduce appends the requirer to a provider's list once per occurrence of that provider |
| DepsToProvides.PushEffect | src/lib/deps-to-provides.js:6-7 | one push extends only its provider's list, creating the list when missing |
| DepsToProvides.ProvidesToOf | src/lib/deps-to-provides.js:3-10 | `depsToProvides`: the outer reduce over `deps`; stated by `DepsToProvides.ProvidesToIsRequirers`, `DepsToProvides.InverseCount` and `DepsToProvides.Inverse` |
| DepsToProvides.ProvidesToIsRequirers | src/lib/deps-to-provides.js:3-10 | every list of `depsToProvides` equals the reference list of requirers in `deps` order; a provider has a list iff some entry lists it |
| DepsToProvides.ProvidesToNonEmpty | src/lib/deps-to-provides.js:3-10 | the empty map inverts to the empty map, and no stored list is empty |
| DepsToProvides.RequirersCount | src/lib/deps-to-provides.js:3-10 | the reference list holds `r` as often as `deps[r]` holds `p` |
| DepsToProvides.InverseCount | src/lib/deps-to-provides.js:3-10 | `r` occurs in `providesTo[p]` exactly as often as `p` occurs in `deps[r]` |
| DepsToProvides.Inverse | dist/lib/deps-to-provides.js:10-17 | `r` is in `providesTo[p]` iff `p` is in `deps[r]` |
| DepsToProvides.RequirersInDepsOrder | src/lib/deps-to-provides.js:4-8 | requirers appear in each list in the order the entries of `deps` are visited (insertion order in the model) |
| DepsToProvides.RequirersKeys | src/lib/deps-to-provides.js:4-8 | every listed requirer is a key of `deps` |
| EvalOrder.EntryEdgesCount | src/lib/eval-order.js:12 | an entry yields one edge `(before, after)` per occurrence of `before` in its list |
| EvalOrder.Edges | src/lib/eval-order.js:11-13 | the happens-before pairs of `evalOrder`; stated by `EvalOrder.EdgesCount` and `EvalOrder.EdgesMembership` |
| EvalOrder.EdgesCount | src/lib/eval-order.js:11-13 | the happens-before edges and the `deps` entries correspond occurrence for occurrence |
| EvalOrder.EdgesMembership | src/lib/eval-order.js:11-13 | `(b, a)` is an edge iff `a`'s formula reads `b` |
| EvalOrder.TopoOrderSize | test/lib/eval-order.js:28 | a topological order has exactly one entry per cell |
| EvalOrder.FirstUnwaited | src/lib/eval-order.js:15-20 | in a topological order the first member of any set waits on no member of it |
| EvalOrder.StuckNoOrder | src/lib/eval-order.js:15-20 | a set of cells each waiting on another member rules out every topological order |
| EvalOrder.CycleNoOrder | src/lib/eval-order.js:15-20 | a cycle of edges rules out every topological order |
| EvalOrder.TopoSort | src/lib/eval-order.js:15-20 | the sort returns a permutation of the cells in which every edge points forward, or a stuck set of cells |
| EvalOrder.EvalOrder | src/lib/eval-order.js:10-21 | `evalOrder` lists every cell once with every read cell first; it fails exactly when no such order exists |
| EvalOrder.DepsPrecede | test/lib/eval-order.js:29-35 | in the order, every cell comes after each cell its formula reads |
| EvalOrder.EvalOrderSize | test/lib/eval-order.js:28 | the order has as many entries as there are cells |
| Seqs.Keep | dist/lib/partial-eval-order.js:20 | the filter keeps exactly the elements in the set, and never lengthens the list |
| PartialEvalOrder.Without | dist/lib/partial-eval-order.js:16 | `filterNot(toEval.has)` keeps exactly the unvisited requirers |
| PartialEvalOrder.FrontierStart | dist/lib/partial-eval-order.js:11-12 | the initial stack and visited set satisfy the worklist invariant |
| PartialEvalOrder.FrontierStep | dist/lib/partial-eval-order.js:14-18 | one pop that marks and pushes the unvisited requirers preserves the worklist invariant |
| PartialEvalOrder.StepProgress | dist/lib/partial-eval-order.js:13-19 | each pop either visits a new cell or shrinks the stack, so the loop ends |
| PartialEvalOrder.FrontierDone | dist/lib/partial-eval-order.js:19-20 | once the stack is empty, the visited set filters the global order like the set of reachable cells |
| PartialEvalOrder.PartialEvalOrder | dist/lib/partial-eval-order.js:10-21 | the result is the global order filtered to the cells reachable from the inputs, inputs included |
| PartialEvalOrderSrc.MeasureStep | src/lib/partial-eval-order.js:7-9 | popping a cell and pushing its requirers lowers the count of pending paths |
| PartialEvalOrderSrc.FollowStep | src/lib/partial-eval-order.js:7-10 | appending the stack after a pop keeps every popped cell followed by all its requirers |
| PartialEvalOrderSrc.TrailStep | src/lib/partial-eval-order.js:6-11 | one loop turn preserves the loop invariant |
| PartialEvalOrderSrc.TrailDone | src/lib/partial-eval-order.js:6-12 | at loop exit every reachable cell is in the order |
| PartialEvalOrderSrc.PartialEvalOrder | src/lib/partial-eval-order.js:3-13 | the order starts with the inputs, holds exactly the reachable cells, lists every requirer after each occurrence of its provider, and is at least `2·n − 1` long for `n` inputs |
| PartialEvalOrderSrc.CycleUnranked | src/lib/partial-eval-order.js:6-11 | no ranking exists through a cycle: a ranked cell on a cycle rules the ranking out |
| PartialEvalOrderSrc.OrderRepeats | src/lib/partial-eval-order.js:10 | with two distinct inputs and no requirers, the order already repeats a cell |
| SheetFuncs.Test | src/lib/sheet-funcs.js:14-17 | a row hits iff its first column equals the needle or contains it ignoring case; comparing a string with a non-string needle throws |
| SheetFuncs.FirstNonMiss | src/lib/sheet-funcs.js:11-23 | it finds the first row that does not miss, and every earlier row misses; when none is found, all rows miss |
| SheetFuncs.VLookup | src/lib/sheet-funcs.js:4-26 | an error or null needle is returned as is; otherwise the first non-missing row decides (a throw, or column `index`, or the first column when `index` is past the row), and the not-available error when every row misses |
| SheetFuncs.LookupExample | test/lib/calculator.js:31-53 | looking up "c" in the letter table with index 2 finds the third row and yields 4 |
| SheetFuncs.Hyperlink | dist/lib/sheet-funcs.js:41-48 | the link is ignored and the displayed value is returned, `Undefined` when missing |
| CalcModel.CallExtra | dist/lib/calculator.js:344-358 | one call of a wrapped extra function; stated by `Calculator.Calculator.CallWrapped` (pending user value returned, dropped iff consumed) and `CalcModel.RunCallsEffect` |
| CalcModel.Evaluate | dist/lib/calculator.js:165-178 | `evaluateFormula`: the parse error or result, and the user-value cache afterwards; stated by `CalcModel.EvaluateEffect` and `Calculator.Calculator.EvaluateFormula` |
| CalcModel.RunCalls | dist/lib/calculator.js:344-358 | the wrapped functions answer each of the parser's calls once, in order |
| CalcModel.RunCallsEffect | dist/lib/calculator.js:344-358 | the wrapped calls consume at most the evaluated cell's pending user value; with none pending they are the plain extra functions |
| CalcModel.EvaluateEffect | dist/lib/calculator.js:165-178 | `evaluateFormula` consumes at most the cell's own pending value; with none pending it is the reference evaluation |
| CalcModel.HasUserValueFunc | dist/lib/calculator.js:122-133 | `_hasUserValueFunc`; stated by `CalcModel.UserValueFuncIgnoresCase` and `CalcModel.UserValueFuncDetects` |
| CalcModel.UserValueFuncIgnoresCase | dist/lib/calculator.js:122-133 | the user-update test gives the same answer on a formula and on its upper-cased form |
| CalcModel.UserValueFuncDetects | dist/lib/calculator.js:128-132 | a formula that starts, in any case, with a handler's name and `(` is detected |
| CalcModel.CalcCell | dist/lib/calculator.js:250-275 | `_calculateCellValue` never writes the store |
| CalcModel.CalcCellCases | dist/lib/calculator.js:250-275 | a formula cell read from the cache gets the truthy cached value and changes nothing; a recomputed formula cell loses its cache entry and gets the evaluation's value, which is the plain evaluation when no user value is pending, and only its own user value can be consumed; a static value is returned as is; any other cell reads its stored value |
| CalcModel.Step | dist/lib/calculator.js:224-226 | one `_setCellValue(c, _calculateCellValue(c, true))`; stated by `CalcModel.StepKeeps`, `CalcModel.StepSettles` and `Calculator.Calculator.Recompute` |
| CalcModel.Pass | dist/lib/calculator.js:221-229 | `_processCalculations`: the steps in worklist order; stated by `CalcModel.PassConcat`, `CalcModel.PassFrame`, `CalcModel.PassSnoc` and `CalcModel.PassSettles` |
| CalcModel.PassConcat | dist/lib/calculator.js:221-229 | a pass over `a + b` is a pass over `a` followed by a pass over `b` |
| CalcModel.PassFrame | dist/lib/calculator.js:221-229 | a pass writes only its worklist's cells, and stored tabs stay stored |
| CalcModel.PassSnoc | dist/lib/calculator.js:224-226 | a pass over one more cell is one more recompute step |
| CalcModel.StepKeeps | dist/lib/calculator.js:225 | a step keeps consistent every other cell that does not read the written cell |
| CalcModel.StepSettles | dist/lib/calculator.js:225 | without handlers, a step leaves its own cell consistent unless the cell reads itself |
| CalcModel.PassSettles | dist/lib/calculator.js:221-229 | without handlers, a pass over a repetition-free worklist in which every cell follows the cells it reads leaves every worklist cell consistent |
| CalcModel.ReadEdge | dist/lib/calculator.js:64-68 | a formula reads `d` iff `(d, c)` is an edge iff `c` is in `providesTo[d]` |
| CalcModel.CalculateAllSettles | dist/lib/calculator.js:89-92 | without handlers, `calculateAll` leaves every cell of the document consistent |
| CalcModel.Worklist | dist/lib/calculator.js:150-156 | corrected `_evalDependents` worklist: the reachable cells in global order, less the leading inputs; stated by `CalcModel.WorklistOrdered`, `CalcModel.WorklistWithin`, `CalcModel.UpstreamReached` and `CalcModel.LaterInputRecomputed` |
| CalcModel.SkipWhile | dist/lib/calculator.js:151-153 | `skipWhile` drops exactly the leading run of inputs: the rest is a suffix that starts with a non-input |
| CalcModel.UpstreamReached | dist/lib/calculator.js:150-156 | a cell that reads a reachable cell is on the worklist or is an input |
| CalcModel.KeepForward | dist/lib/partial-eval-order.js:20 | filtering a topological order keeps every edge pointing forward |
| CalcModel.WorklistOrdered | dist/lib/calculator.js:151-155 | the worklist has no repetitions, names only document cells, and lists each cell after the cells it reads |
| CalcModel.WorklistWithin | dist/lib/calculator.js:151-153 | the worklist is drawn from the global order |
| CalcModel.SetValuesSettles | dist/lib/calculator.js:100-119 | from a consistent store, after the inputs are written and the worklist recomputed, every cell is consistent except given cells that are not on the worklist |
| CalcModel.LaterInputRecomputed | dist/lib/calculator.js:151-153 | only the leading run is skipped: an input placed after a dependent is recomputed |
| CalcModel.WriteOne | dist/lib/calculator.js:104-115 | one entry of the `setValues` forEach; stated by `CalcModel.WriteOneEffect` |
| CalcModel.WriteInputs | dist/lib/calculator.js:103-116 | the `setValues` forEach, stopping at the first missing cell; stated by `CalcModel.WriteInputsFrame`, `CalcModel.WriteInputsFails`, `CalcModel.WriteInputsValues` and `CalcModel.WriteInputsPrefix` |
| CalcModel.WriteOneEffect | dist/lib/calculator.js:104-115 | one write of `setValues` succeeds on a document cell, stores the value and changes no other cell |
| CalcModel.WriteInputsFrame | dist/lib/calculator.js:103-116 | the writes change only the given cells, and every tab stays stored |
| CalcModel.WriteInputsFails | dist/lib/calculator.js:103-116 | the writes fail exactly at the first cell not in the document; on success every given cell exists |
| CalcModel.WriteInputsValues | dist/lib/calculator.js:103-116 | after successful writes, each given cell holds its given value |
| CalcModel.WriteInputsLast | dist/lib/calculator.js:103-116 | a successful run of writes ends with a successful write of its last entry |
| CalcModel.WriteInputsStep | dist/lib/calculator.js:103-116 | one more successful write extends the writes by that entry |
| CalcModel.WriteInputsStop | dist/lib/calculator.js:104-105 | the writes stop at a missing cell, with the store as the earlier writes left it |
| CalcModel.WriteInputsPrefix | dist/lib/calculator.js:103-116 | a failure part-way is the failure of the whole `forEach` |
| CalcModel.InitialStored | dist/lib/calculator.js:69-72 | the constructor's store has a row list for every tab |
| CalcModel.SetValuesConsistent | dist/lib/calculator.js:100-119 | `setValues` end to end: every cell is consistent afterwards except given cells left out of the recompute, and those hold the given values |
| CalcModel.DependentsDroppedAsWritten | dist/lib/calculator.js:151 | with the inputs dropped, the worklist is empty, although the intended worklist holds the reading cell |
| CalcModel.WorklistOfOneEdge | dist/lib/calculator.js:150-156 | with one edge from `a` to `b`, changing `a` recomputes `b` |
| CalcModel.WorklistOfNoInputs | dist/lib/partial-eval-order.js:10-21 | with no inputs, nothing is recomputed |
| Calculator.Calculator.constructor | dist/lib/calculator.js:54-77 | the store has an empty row list per tab, the caches are empty, and the object is valid |
| Calculator.Calculator.SetCellValue | dist/lib/calculator.js:283-295 | the new store is `Put` of the old one |
| Calculator.Calculator.CallWrapped | dist/lib/calculator.js:344-358 | a pending user value for the cell is returned instead of the function's result, and dropped iff the handler reports it consumed; otherwise the function runs and the cache is unchanged |
| Calculator.Calculator.EvaluateFormula | dist/lib/calculator.js:165-178 | the value and user-value cache are those of `Evaluate`, and the parser's cell is cleared afterwards |
| Calculator.Calculator.CalculateCellValue | dist/lib/calculator.js:250-275 | the value and the caches are those of `CalcCell` |
| Calculator.Calculator.Recompute | dist/lib/calculator.js:224-226 | the new state is one recompute step of the old |
| Calculator.Calculator.ProcessCalculations | dist/lib/calculator.js:221-229 | the new state is the pass over the order |
| Calculator.Calculator.CalculateAll | dist/lib/calculator.js:89-92 | on success the global order is a topological order of all cells and the state is the pass over it; on a cycle it fails and nothing changes |
| Calculator.Calculator.Dependents | dist/lib/calculator.js:151-153 | the worklist is the partial order less its leading run of inputs, and names only document cells |
| Calculator.Calculator.EvalDependents | dist/lib/calculator.js:150-156 | corrected: the new state is the pass over the reachable cells in global order, less the leading inputs |
| Calculator.Calculator.EvalDependentsAsWritten | dist/lib/calculator.js:150-156 | as written: the state is unchanged whatever the inputs |
| Calculator.Calculator.WriteValue | dist/lib/calculator.js:104-115 | the new state is `WriteOne` of the old |
| Calculator.Calculator.WriteValues | dist/lib/calculator.js:103-116 | the new state and the failing cell are those of `WriteInputs` |
| Calculator.Calculator.SetValues | dist/lib/calculator.js:100-119 | corrected: on success the state is the writes followed by the corrected dependents' pass; a missing cell stops the writes and nothing is recomputed |
| Calculator.Calculator.SetCachedCellValue | dist/lib/calculator.js:143-147 | corrected: the value is cached and stored, then the corrected dependents' pass recomputes the cells that read it |
| Calculator.Calculator.Create | dist/lib/calculator.js:54-79 | on success the global order is a topological order and the state is the pass over it from the empty store; on a cycle it fails |
| CalculatorSrc.SetCellAsWritten | src/lib/calculator.js:107-119 | as written: the write throws iff the row slot is a padding hole; otherwise the cell reads back and nothing else changes |
| CalculatorSrc.OutOfOrderRowsThrow | src/lib/calculator.js:115-118 | writing row 1 and then row 0 of an empty tab throws |
| CalculatorSrc.Span | src/lib/calculator.js:173-177 | the loop count is zero for an inverted range, and otherwise reaches the end index exactly |
| CalculatorSrc.EachCell | src/lib/calculator.js:171-185 | as written: the grid has the range's dimensions, and entry `[r][c]` is computed from the cell at row `r`, column `c` of the sheet |
| CalculatorSrc.EachCellInRange | src/lib/calculator.js:171-185 | corrected: entry `[r][c]` is computed from the cell `r` rows and `c` columns past the start |
| CalculatorSrc.RangeCovered | src/lib/calculator.js:171-185 | the corrected grid names exactly the cells of the range |
| CalculatorSrc.EachCellLeavesRange | src/lib/calculator.js:180 | as written, a range not at the origin has its first entry read from a cell outside it |
| CalculatorSrc.CellValue | src/lib/calculator.js:77-102 | src `_calculateCellValue`: the parse error or result, the static value, or the stored value; stated by `CalculatorSrc.Calculator.CalculateCellValue` and `CalculatorSrc.StaticInputReset` |
| CalculatorSrc.Pass | src/lib/calculator.js:47-53 | src `_processCalculations`; stated by `CalculatorSrc.StepKeeps`, `CalculatorSrc.PassSettles` and `CalculatorSrc.Calculator.ProcessCalculations` |
| CalculatorSrc.StepKeeps | src/lib/calculator.js:49 | storing a recomputed cell keeps consistent every cell that does not read it |
| CalculatorSrc.PassSettles | src/lib/calculator.js:47-53 | a pass whose worklist lists requirers after providers and covers every inconsistent cell leaves the document consistent, even when cells repeat |
| CalculatorSrc.CalculateAllSettles | src/lib/calculator.js:30-32 | `calculateAll` leaves every cell consistent |
| CalculatorSrc.WriteAll | src/lib/calculator.js:35-42 | the src `setValues` forEach with the corrected store write, stopping at the first missing cell; stated by `CalculatorSrc.WriteAllFrame`, `CalculatorSrc.WriteAllFails` and `CalculatorSrc.WriteAllStop` |
| CalculatorSrc.WriteAllFrame | src/lib/calculator.js:35-42 | the writes change only the given cells |
| CalculatorSrc.WriteAllFails | src/lib/calculator.js:35-42 | the writes throw exactly at the first cell not in the document |
| CalculatorSrc.WriteAllPrefix | src/lib/calculator.js:35-42 | a failure part-way is the failure of the whole `forEach` |
| CalculatorSrc.WriteAllStop | src/lib/calculator.js:36-37 | the writes stop at a missing cell, with the store as the earlier writes left it |
| CalculatorSrc.SetValuesSettles | src/lib/calculator.js:34-45 | from a consistent store, writing the inputs and recomputing the `partialEvalOrder` worklist leaves every cell consistent |
| CalculatorSrc.StaticInputReset | src/lib/calculator.js:44 | a given value on a static cell does not survive: the cell is recomputed to its static value |
| CalculatorSrc.RankFromOrder | src/lib/partial-eval-order.js:6-11 | once `calculateAll` has an evaluation order, a ranking exists that covers every cell of the order and any other given cells; so the termination witness `SetValues` asks for is always available for a calculator that was created |
| CalculatorSrc.Calculator.constructor | src/lib/calculator.js:11-21 | the store has an empty row list per tab, and the object is valid |
| CalculatorSrc.Calculator.SetCellValue | src/lib/calculator.js:107-119 | corrected: the new store is `Put` of the old one |
| CalculatorSrc.Calculator.CalculateCellValue | src/lib/calculator.js:77-102 | the value is `CellValue`; a cell with neither formula nor static value keeps its stored value |
| CalculatorSrc.Calculator.ProcessCalculations | src/lib/calculator.js:47-53 | corrected store write: the new store is the pass over the order, and it is returned |
| CalculatorSrc.Calculator.CalculateAll | src/lib/calculator.js:30-32 | corrected store write: on success the store is the pass over a topological order; on a cycle it fails and nothing changes |
| CalculatorSrc.Calculator.WriteValues | src/lib/calculator.js:35-42 | corrected store write: the new store and the failing cell are those of `WriteAll` |
| CalculatorSrc.Calculator.SetValues | src/lib/calculator.js:34-45 | corrected store write: on success the worklist starts with the inputs, holds exactly the reachable cells and lists requirers after providers, and the store is its pass after the writes; a missing cell throws before any recompute |
| CalculatorSrc.Calculator.Create | src/lib/calculator.js:11-23 | corrected store write: on success the store is the pass over some topological order from the empty store; on a cycle it fails |

## Left out

- The formula parser (hot-formula-parser) is not part of this model. It is a pair of uninterpreted functions: the extra-function calls a parse makes and its `{result, error}`. Both see the whole store, so cell and range reads through `callCellValue` and `callRangeValue` are covered without modelling the grammar.
- CalcModel.Evaluate: the extra-function calls and their parameters are fixed from the formula, the cell and the store before any call runs. A nested call whose parameter is another wrapped call's result, such as `=F(G(1))` with a handler for `G` and a user value pending, is not modelled: in the source (dist/lib/calculator.js:344-355) `F` receives the user value `G` returned, while in the model `F`'s parameters cannot depend on it. No theorem here relies on this. Without handlers every call is the plain function, whose result the formula, the cell and the store already determine, so a parser with fixed calls can express the source's.
- The settle theorems (`CalcModel.PassSettles`, `CalcModel.CalculateAllSettles`, `CalcModel.SetValuesSettles`, `CalcModel.SetValuesConsistent`, `CalculatorSrc.PassSettles`, `CalculatorSrc.SetValuesSettles`) assume two things. First, a formula's value depends only on the single-cell references the dependency scan reports (`Local`); range references and explicit-tab references break this in the source. For src it also fails whenever a formula reads a formula cell: src's `callCellValue` (src/lib/calculator.js:136-139) recomputes the read cell instead of reading the store. Two stores that agree on the read cell but not on the cells it reads can then evaluate differently. So the src settle theorems cover only sheets without such chains of formulas. Second, the dist theorems assume no user-update handlers are registered.
- The `toposort` package is replaced by a verified Kahn sort. Its output order among independent cells may differ. Its contract ignores an edge from a cell outside the node list, such as a formula reading an empty cell. That is the behaviour of `toposort` 1.x, which never visits such a node. The version is not pinned in the files modelled; `toposort` 2.x rejects such an edge with an "Unknown node" error, and the model does not capture that.
- The A1 encoding and decoding around the sort (`toA1Ref`, `fromA1Ref`) is assumed to round-trip, so cells are sorted directly.
- sheety-model (`Sheet`, `Tab`, `Cell`, `CellRef`, `mapRange`, formats) is not part of this model. The document is reduced to tabs of rows of cells.
- `getRange`, `getFormattedRange` and `getFormattedCell` are left out. They only map `_getCellValue` and a format over a sheety-model range.
- Asynchronous functions are covered only through their result arriving in `setCachedCellValue`. The `process.nextTick` scheduling and the `LOADING` placeholder's timing are not modelled.
- `remoteValue` handling is left out: its branch is empty in both versions.
- The src parser's `callCellValue` recomputes the read cell recursively instead of reading the store, and its `callFunction` dispatch throws on an unknown name. Both sit inside the uninterpreted src evaluator.
- Numbers are unbounded integers, not floating-point values.
- SheetFuncs.Test: case folding is ASCII only, while JavaScript's `toLowerCase` folds all of Unicode.
- CalcModel.HasUserValueFunc: upper-casing is ASCII only, while `toUpperCase` (dist/lib/calculator.js:128-131) maps all of Unicode, so a handler name with non-ASCII letters may match differently.
- The `deps` map is iterated in insertion order. An Immutable `Map` fixes no iteration order once it holds more than a few entries. So the order of the requirers inside each `providesTo` list, and the order of the src recompute worklist built from them (src/lib/partial-eval-order.js:9-10), may differ from the source's. The set of requirers and their counts do not depend on this order.
- PartialEvalOrderSrc.PartialEvalOrder: requires a ranking that witnesses no cycle is reachable from the inputs. On a reachable cycle the source loops forever, and that non-termination is not modelled. `CalculatorSrc.Calculator.SetValues` inherits this requirement.
- CalculatorSrc.Calculator.constructor: requires distinct tab ids, and so does `CalculatorSrc.Calculator.Create`. src/lib/calculator.js:14 accepts duplicates: its `tabsById` keeps the last tab with an id, while the model's lookup finds the first. Documents with repeated tab ids are not modelled. The dist calculator takes its tabs from the sheet's `tabsById`, whose ids are distinct.
- Calculator.Calculator.SetValues: requires the given cells to be distinct. The source receives them as an Immutable `Map`, whose keys are distinct.
- The dist constructor's `calculateAll` and the `Create` methods report a dependency cycle as a failure. The source throws from `toposort` there.

## Findings

| source | as written | input that shows it | evidently intended | confidence | as-written member | corrected member |
|---|---|---|---|---|---|---|
| dist/lib/calculator.js:151 | `_evalDependents` calls `partialEvalOrder(providesTo, cellRefs)`, but the dist `partialEvalOrder` takes `(providesTo, globalOrder, inputs)`. The inputs are undefined, so the worklist is always empty and no dependent is recomputed. | A sheet where `b` reads `a`, after `setValues({a: 1})` or `setCachedCellValue(a, …)`. The async test at test/lib/calculator.js:94-96 expects the reader of the async cell to be recomputed. | Pass the stored global order and the changed cells, so that every cell reachable from them is recomputed in global order. | high (not executed) | Calculator.Calculator.EvalDependentsAsWritten, CalcModel.DependentsDroppedAsWritten | Calculator.Calculator.EvalDependents, CalcModel.SetValuesConsistent, Calculator.Calculator.SetValues, Calculator.Calculator.SetCachedCellValue |
| src/lib/calculator.js:180 | `eachCell` computes entry `[r][c]` from `start.merge({rowIdx: r, colIdx: c})`, with `r` and `c` counted from 0 and not from the range's start. | The range B2:C3: its first entry is computed from A1, which lies outside the range. | `start.rowIdx + r` and `start.colIdx + c`. | high (not executed) | CalculatorSrc.EachCell, CalculatorSrc.EachCellLeavesRange | CalculatorSrc.EachCellInRange, CalculatorSrc.RangeCovered |
| src/lib/calculator.js:115 | `_setCellValue` creates a row only when `hasIn([tab, row])` is false. A padding hole left by writing a later row counts as present, so the following `setIn` goes through `undefined` and throws. | On an empty tab, write row 1 (a static A2), then row 0 (a formula A1 that reads A2, which comes later in evaluation order). | Test the row with `getIn` as dist does, and create it when it is missing or a hole. | medium (not executed) | CalculatorSrc.SetCellAsWritten, CalculatorSrc.OutOfOrderRowsThrow | CalculatorSrc.Calculator.SetCellValue, CalculatorSrc.Calculator.ProcessCalculations, CalculatorSrc.Calculator.CalculateAll, CalculatorSrc.Calculator.WriteValues, CalculatorSrc.Calculator.SetValues, CalculatorSrc.Calculator.Create |
