# Bellman-Ford currency arbitrage, modelled in Dafny

The repository finds currency arbitrage with the Bellman-Ford algorithm.
Exchange rates become edges weighted by `-log10(rate)`. A cycle of
negative total weight is a sequence of exchanges whose rate product is
above 1. The Python sources hold the same search eight times over, in two
families:

* **Dictionary variants.** These are `find_arbitrage_and_shortest_path` in
  `CurrencyExchange2.0.py`, `BellmanFordNew.py` and `BellmanFord.py`.
  Currencies are names, and distances and predecessors are dictionaries
  over the endpoints of the edge list. The search relaxes every edge
  `|V| - 1` times and stops at the first edge still relaxable. It then
  walks `|V|` predecessor steps back from that edge's destination to land
  on the cycle, and traces the cycle. It reports the cycle with its gain
  product and reconstructs a best path from the predecessors.
* **List variants.** These are `Graph.bellman_ford` in
  `CurrencyExchangeV3.py`, `CurrencyExchangev2.py`,
  `CurrencyExchangeMerged.py` and `CurrencyExchange.py`. Currencies are
  indices and the tables are lists. `get_negative_cycle` finds a cycle by
  walking back from a witness until a node repeats (a `visited` set). V3
  and v2 collect the cycle of every still-relaxable edge and skip lists
  already stored. Merged returns the first one. `CurrencyExchange.py` only
  reports whether a cycle exists and prints the distances.
  `BestConversionRate.py` adds an `n × n` grid to the graph. `build_graph`
  turns a rate matrix into the edges of every ordered pair `i != j`.

## How the model is organised

One specification of the passes serves every variant. It is stated over
maps, with a generic node type, in module `Relaxation`: `Init`,
`RelaxEdge`, `Pass`, `Passes` and `Relaxed`.

* The dictionary variants update maps in loops (`RelaxTables`).
* The list variants update `array`s in place (`RelaxLists`). They are tied
  to the same specification by reading a list as a map (`Dists`, `Preds`).

`Weights.Dist` is `Inf | Fin(int)`. Weights are integers, so the
rounding to three decimals in the dictionary variants is the identity on
them. Both forms of the relaxation test are the same predicate
`Relaxable`: `round(d[u] + w, 3) < round(d[v], 3)` and
`d[u] != inf and d[u] + w < d[v]`. The reason is that `inf + w` is never
below anything.

Module `PredecessorWalk` is the theory of walking the predecessor table
backwards (`Walk`). It proves two things by pigeonhole:

* the `|V|`-step anchor walk lands on a cycle (`AnchorOnCycle`);
* the `visited`-set walk stops at a node on a cycle.

`CycleExtraction` gives both extraction styles. They return a closed
list whose consecutive pairs follow predecessor links (`PredCycle`).

The Python classes whose fields the code updates are Dafny classes.
Their methods are proved against the module-level specification. Each
class method only assigns what a module-level method has computed.

## Model

| member | source | states |
|---|---|---|
| Weights.Add | Python/CurrencyExchangeV3.py:36-38 | `d + w` is infinite exactly when `d` is, and otherwise exceeds `d` by `w` |
| Relaxation.Endpoints | Python/CurrencyExchange2.0.py:50 | the node set holds every edge's endpoints and nothing that is not an endpoint |
| Relaxation.Init | Python/CurrencyExchange2.0.py:51-53 | every node starts at infinity without predecessor; the start currency is at 0 and has a distance even when it is no node |
| Relaxation.RelaxEdge | Python/CurrencyExchange2.0.py:57-60 | relaxation changes only the destination's entries, never raises a distance, and does nothing from an unreached start |
| Relaxation.Pass | Python/CurrencyExchange2.0.py:57-60 | a pass keeps the node sets of both tables |
| Relaxation.Passes | Python/CurrencyExchange2.0.py:56-60 | repeated passes keep the node sets of both tables |
| Relaxation.Relaxed | Python/CurrencyExchange2.0.py:50-60 | the tables after the passes are over the nodes (distance also over the start) |
| Relaxation.InitPredSound | Python/CurrencyExchange2.0.py:51-53 | the initial tables satisfy the predecessor invariant |
| Relaxation.RelaxEdgePredSound | Python/CurrencyExchange2.0.py:58-60 | relaxing an edge keeps the invariant: every predecessor link is an edge of the list into a reached node |
| Relaxation.PassPredSound | Python/CurrencyExchange2.0.py:57-60 | a pass keeps the predecessor invariant (induction over the edge list) |
| Relaxation.PassesPredSound | Python/CurrencyExchange2.0.py:56-60 | any number of passes keeps the predecessor invariant |
| Relaxation.RelaxedSound | Python/CurrencyExchange2.0.py:50-60 | after the passes the predecessor invariant holds and every named predecessor is a node |
| Relaxation.PassLowers | Python/BellmanFord.py:25-29 | a pass never raises a distance |
| Relaxation.PassesDecrease | Python/BellmanFord.py:25-29 | distances never increase: after `k >= j` passes each distance is at most its value after `j` |
| Relaxation.PassSnoc | Python/CurrencyExchange2.0.py:57 | a pass over one more edge is the shorter pass followed by that edge |
| Relaxation.Indices | Python/CurrencyExchangeV3.py:25-26 | the index set `0 .. n-1` of the list variants, of size `n` |
| Relaxation.Dists | Python/CurrencyExchangeV3.py:25 | a distance list read as a table holds the same value at each index |
| Relaxation.Preds | Python/CurrencyExchangeV3.py:26 | a predecessor list read as a table, `-1` meaning no predecessor |
| Relaxation.RelaxPassTables | Python/CurrencyExchange2.0.py:57-60 | the in-place loop over the edges computes `Pass` |
| Relaxation.RelaxTables | Python/CurrencyExchange2.0.py:50-60 | the dictionaries after the loops are `Relaxed` over the endpoint set with `len(nodes) - 1` passes |
| Relaxation.RelaxEdgeViews | Python/CurrencyExchangeV3.py:36-39 | updating the two lists at the destination is `RelaxEdge` seen through `Dists` and `Preds`, and keeps predecessors in range |
| Relaxation.RelaxEdgeLists | Python/CurrencyExchangeV3.py:36-39 | the array update of one edge is `RelaxEdge` of the tables before it |
| Relaxation.RelaxPassLists | Python/CurrencyExchangeV3.py:35-39 | one pass over the arrays is `Pass` of the tables before it |
| Relaxation.DistsInit | Python/CurrencyExchangeV3.py:25-27 | `[inf] * n` with the source at 0 is the initial distance table |
| Relaxation.PredsInit | Python/CurrencyExchangeV3.py:26 | `[-1] * n` is the initial predecessor table |
| Relaxation.ListsInit | Python/CurrencyExchangeV3.py:25-27 | both initial lists together are `Init` over the indices |
| Relaxation.InitLists | Python/CurrencyExchangeV3.py:25-27 | the fresh arrays are `Init` over `0 .. n-1` with every predecessor `-1` |
| Relaxation.RelaxLists | Python/CurrencyExchangeV3.py:25-41 | the arrays after `no_vertices - 1` passes are `Relaxed` over the indices |
| Relaxation.FirstRelaxable | Python/CurrencyExchange2.0.py:66-70 | the detection loop finds the first still-relaxable edge, none before it is relaxable, and `None` means no edge is |
| PredecessorWalk.WalkAdd | Python/CurrencyExchange2.0.py:78-79 | `a + b` steps back are `a` steps and then `b` more |
| PredecessorWalk.NoneStays | Python/BellmanFord.py:88-90 | once the walk reaches "no predecessor" it stays there |
| PredecessorWalk.WalkDefinedBelow | Python/CurrencyExchange2.0.py:78-79 | a walk defined for `k` steps is defined for fewer |
| PredecessorWalk.WalkInKeys | Python/CurrencyExchange2.0.py:79 | in a closed table every node reached is a key (no lookup fails) |
| PredecessorWalk.Trail | Python/CurrencyExchange2.0.py:78-79 | the `k + 1` nodes met on the walk, in order |
| PredecessorWalk.Pigeonhole | Python/CurrencyExchangeV3.py:66-68 | a walk longer than the node set meets some node twice |
| PredecessorWalk.DistinctBound | Python/CurrencyExchangeV3.py:66-68 | a repeat-free walk is no longer than the node set (the `visited` loop ends) |
| PredecessorWalk.RepeatFrom | Python/CurrencyExchange2.0.py:78-81 | a node met twice on the walk is met again after the same distance from any later point |
| PredecessorWalk.AnchorOnCycle | Python/CurrencyExchange2.0.py:78-81 | after `|V|` steps back the walk is on a predecessor cycle of length between 1 and `|V|` |
| PredecessorWalk.OrbitDistinct | Python/CurrencyExchange2.0.py:84-89 | before the first return to the anchor no node repeats (the tracing loop adds each node once) |
| PredecessorWalk.FollowsWalk | Python/CurrencyExchangeV3.py:71-80 | a list that follows predecessor links is the walk back from its last element, read backwards |
| CycleExtraction.Reverse | Python/CurrencyExchange2.0.py:90 | `list.reverse()`: same length, mirrored positions |
| CycleExtraction.ClosedOrbit | Python/CurrencyExchange2.0.py:84-90 | the traced nodes up to the first return, reversed, form a closed cycle along predecessor links |
| CycleExtraction.AnchorCycle | Python/CurrencyExchange2.0.py:74-90 | the extracted list is a closed predecessor cycle starting at the node `|V|` steps back from the witness |
| CycleExtraction.FirstRevisited | Python/CurrencyExchangeV3.py:66-70 | the `visited` loop stops at the first node met twice, an index on a predecessor cycle |
| CycleExtraction.CollectOrbit | Python/CurrencyExchangeV3.py:71-80 | from a node on a cycle the second loop returns a closed predecessor cycle starting there |
| CycleExtraction.FirstRepeatUnique | Python/CurrencyExchangeV3.py:66-68 | the `visited` loop stops after one determined number of steps |
| CycleExtraction.PredCycleUnique | Python/CurrencyExchangeV3.py:71-80 | two closed predecessor cycles with the same first node are the same list |
| CycleExtraction.VisitedCycle | Python/CurrencyExchangeV3.py:58-82 | `get_negative_cycle` returns a closed predecessor cycle through the first revisited node |
| PathReconstruction.ReconstructBounded | Python/CurrencyExchange2.0.py:128-142 | the guarded reconstruction returns, exactly when the walk back from end reaches start in time, the bounded path from start to end: it follows predecessor links, stops at the first return to start, and is at most `|pred| + 2` long; it returns `[]` otherwise |
| PathReconstruction.BoundedPathUnique | Python/CurrencyExchange2.0.py:130-141 | there is only one bounded path between two nodes, so the reconstruction's result is determined, even when start lies on a predecessor cycle |
| PathReconstruction.NoShorterBounded | Python/CurrencyExchange2.0.py:130-141 | no bounded path is shorter than another one between the same nodes |
| PathReconstruction.ReconstructUnbounded | Python/BellmanFord.py:85-94 | the unguarded reconstruction returns the whole chain from its root exactly when that root is start, and `[]` otherwise |
| Gain.RateOf | Python/BellmanFord.py:66 | the two-level lookup succeeds exactly when both keys are present, with the stored rate |
| Gain.GainProduct | Python/BellmanFord.py:62-68 | the loop computes the left-to-right product of the cycle's rates |
| Gain.GainStep | Python/BellmanFord.py:63-68 | one more pair multiplies the running gain by its factor |
| Gain.GainJoin | Python/BellmanFord.py:63-68 | the gain over two walks glued at a shared node is the gain over the first continued over the second |
| Gain.GainAllMissing | Python/BellmanFord.py:66-68 | pairs without a rate are skipped: with no rate found the gain stays at its start |
| Gain.PositiveProduct | Python/BellmanFord.py:68 | multiplying a positive gain by a positive rate keeps it positive |
| Gain.GainPositive | Python/BellmanFord.py:62-68 | with positive rates the gain product is positive |
| GraphConstruction.IndexOf | Python/CurrencyExchange2.0.py:226-227 | the position of a key in the table's key order |
| GraphConstruction.RowSnoc | Python/CurrencyExchange2.0.py:227-235 | the inner loop over one more key appends at most that key's edge |
| GraphConstruction.PairSnoc | Python/CurrencyExchange2.0.py:226-235 | the outer loop over one more key appends that key's row |
| GraphConstruction.RowMember | Python/CurrencyExchange2.0.py:227-235 | a row holds exactly the admitted edges out of its key |
| GraphConstruction.PairMember | Python/CurrencyExchange2.0.py:226-235 | the edge list holds exactly the admitted pairs |
| GraphConstruction.RowOrdered | Python/CurrencyExchange2.0.py:227 | a row's edges follow the inner key order |
| GraphConstruction.AppendRowOrdered | Python/CurrencyExchange2.0.py:226-227 | appending a later row keeps row-major order |
| GraphConstruction.PairOrdered | Python/CurrencyExchange2.0.py:226-227 | the edges come in outer-key then inner-key order |
| GraphConstruction.RateRow | Python/CurrencyExchange2.0.py:227-235 | the inner loop emits, in key order, an edge to every other key the row has a rate for |
| GraphConstruction.CreateGraphFromRates | Python/CurrencyExchange2.0.py:221-236 | the double loop emits the rate-table edges in key order; `skipBlanks` selects this file's blank-name filter, off for Python/BellmanFordNew.py:162-174 |
| GraphConstruction.RateEdgesMember | Python/CurrencyExchange2.0.py:226-235 | an edge is emitted exactly when its ends are distinct keys (non-blank with the filter), the table has the rate, and the weight is that rate's |
| GraphConstruction.RateEdgesOrdered | Python/BellmanFordNew.py:164-173 | with distinct keys the edges are in row-major key order |
| GraphConstruction.Range | Python/CurrencyExchangeV3.py:122-123 | `range(n)` holds `0 .. n-1` in order |
| GraphConstruction.MatrixStep | Python/CurrencyExchangeV3.py:123-127 | one inner step adds the edge `i -> j` weighted by `matrix[i][j]` unless `i == j` |
| GraphConstruction.MatrixRowDone | Python/CurrencyExchangeV3.py:122-127 | one more outer step appends row `i` |
| GraphConstruction.MatrixEnds | Python/CurrencyExchangeV3.py:122 | the empty and the full outer range give no edges and all edges |
| GraphConstruction.MatrixRowCount | Python/CurrencyExchangeV3.py:123-124 | each row has `n - 1` edges |
| GraphConstruction.MatrixPrefixCount | Python/CurrencyExchangeV3.py:122-124 | the first `i` rows have `i * (n - 1)` edges |
| GraphConstruction.MatrixEdgesExact | Python/CurrencyExchangev2.py:77-82 | `build_graph` adds exactly `n * (n - 1)` edges, one per ordered pair `i != j`, none for `i == j`, weighted by `matrix[i][j]` |
| GraphConstruction.MatrixEdgesRowMajor | Python/BestConversionRate.py:32-37 | the edges appear in row-major order of the matrix |
| TableDetection.InitCovers | Python/CurrencyExchange2.0.py:50-53 | every edge endpoint has table entries from the start |
| TableDetection.Tables | Python/CurrencyExchange2.0.py:50-60 | the tables after `len(nodes) - 1` passes are over the endpoint set |
| TableDetection.TablesSound | Python/CurrencyExchange2.0.py:56-60 | those tables keep the predecessor invariant and name only nodes |
| TableDetection.DetectArbitrage | Python/CurrencyExchange2.0.py:50-90 | a cycle is found exactly when some edge is still relaxable; it is then the anchored cycle of the first such edge |
| ListDetection.ListInitCovers | Python/CurrencyExchangeV3.py:25-27 | edges between indices have table entries from the start |
| ListDetection.ListTables | Python/CurrencyExchangeV3.py:25-41 | the lists after the passes, as tables over the indices |
| ListDetection.TracedCycleUnique | Python/CurrencyExchangeV3.py:58-82 | `get_negative_cycle` gives one cycle from each start |
| ListDetection.ExtendKeepsDistinct | Python/CurrencyExchangeV3.py:50-52 | a list of cycles without duplicates stays without duplicates |
| ListDetection.ExtendsDetermined | Python/CurrencyExchangeV3.py:44-54 | the scan's contract allows one list only: given the tables and the stored cycles, the new entries and their order are determined |
| ListDetection.SameNextEntry | Python/CurrencyExchangeV3.py:46-52 | two lists the scan allows that agree before a position agree at it: the cycle appended next is the one whose first witness comes first |
| ListDetection.FirstTracer | Python/CurrencyExchangeV3.py:46-49 | among the witnesses that trace a cycle there is a first one |
| ListDetection.ScanStart | Python/CurrencyExchangeV3.py:44-46 | before the scan nothing has been appended |
| ListDetection.ScanKnown | Python/CurrencyExchangeV3.py:49-50 | a witness whose cycle is already stored appends nothing |
| ListDetection.AppendFresh | Python/CurrencyExchangeV3.py:50-51 | appending an unseen cycle keeps the stored prefix and the new entries distinct |
| ListDetection.AppendTraced | Python/CurrencyExchangeV3.py:49-51 | every appended entry is traced from some witness |
| ListDetection.AppendCovers | Python/CurrencyExchangeV3.py:49-51 | after edge `i` every witness up to `i` has its cycle stored |
| ListDetection.FreshCycleLater | Python/CurrencyExchangeV3.py:46-51 | a cycle appended at edge `i` is traced only from witnesses after those of every new entry before it |
| ListDetection.OrderKept | Python/CurrencyExchangeV3.py:50-51 | appending keeps the edge order among the entries already there |
| ListDetection.AppendOrdered | Python/CurrencyExchangeV3.py:46-51 | appending the cycle of edge `i` keeps the new entries in edge order |
| ListDetection.ScanAppend | Python/CurrencyExchangeV3.py:49-52 | a witness with an unseen cycle appends it, keeping the scan's invariant |
| ListDetection.ScanOther | Python/CurrencyExchangeV3.py:47 | an edge that is not relaxable changes nothing |
| ListDetection.ScanDone | Python/CurrencyExchangeV3.py:46-54 | the finished scan has extended the list with exactly the new cycles |
| ListDetection.ScanEdge | Python/CurrencyExchangeV3.py:47-52 | one edge of the scan keeps the invariant and `found` means something was appended; a non-witness leaves the list as it was, and a witness appends its traced cycle exactly when that cycle is not stored yet |
| ListDetection.AppendNewCycles | Python/CurrencyExchangeV3.py:44-54 | the list grows by the traced cycles of the witnesses not already present, in edge order, and `found_cycles` says whether it grew |
| ListDetection.FirstCycle | Python/CurrencyExchangeMerged.py:35-38 | the early-return scan returns the cycle of the first still-relaxable edge, and nothing when no edge is relaxable |
| ListDetection.RelaxAndCollect | Python/CurrencyExchangeV3.py:24-54 | passes then scan: the stored list grows by the traced cycles of the still-relaxable edges that are not stored yet, once each and in edge order |
| ListDetection.RelaxAndFindFirst | Python/CurrencyExchangeMerged.py:21-38 | passes then early-return scan |
| Reports.ReportArbitrage | Python/CurrencyExchange2.0.py:63-107 | the arbitrage label holds the anchored cycle of the first witness and its gain product, or says no arbitrage exactly when no edge is relaxable |
| Reports.ReportBoundedPath | Python/CurrencyExchange2.0.py:109-113 | the path label is set exactly when the guarded walk reaches the start, to the one bounded path from start to end, and kept otherwise |
| Reports.ReportGuardedPath | Python/CurrencyExchange2.0.py:105-113 | with arbitrage the path label says no path; otherwise it follows the guarded reconstruction |
| Reports.ReportRootedPath | Python/BellmanFord.py:77-83 | the path label is the path when the chain is rooted at the start, and "No path found." otherwise |
| CurrencyExchange20.Labels.constructor | Python/CurrencyExchange2.0.py:28-30 | both labels start blank |
| CurrencyExchange20.BellmanFord.constructor | Python/CurrencyExchange2.0.py:36-37 | the search keeps the labels object it is given |
| CurrencyExchange20.BellmanFord.FindArbitrageAndShortestPath | Python/CurrencyExchange2.0.py:39-113 | the arbitrage label reports the first witness's anchored cycle and gain, or no arbitrage; the path label says no path on arbitrage and otherwise changes only to a found bounded path |
| BellmanFordNew.Labels.constructor | Python/BellmanFordNew.py:11-13 | both labels start blank |
| BellmanFordNew.BellmanFord.constructor | Python/BellmanFordNew.py:18-19 | the search keeps the labels object it is given |
| BellmanFordNew.BellmanFord.FindArbitrageAndShortestPath | Python/BellmanFordNew.py:21-85 | as in CurrencyExchange2.0.py with `ex.cycle` as the path label; `rates` and `epsilon` do not affect the result |
| BellmanFordScript.Exchange.constructor | Python/BellmanFord.py:6-8 | the labels start blank |
| BellmanFordScript.BellmanFord.constructor | Python/BellmanFord.py:14-15 | the search keeps the labels object it is given |
| BellmanFordScript.BellmanFord.FindArbitrageAndShortestPath | Python/BellmanFord.py:17-83 | the arbitrage label as above, with the gain from the `rates` argument; the path label comes from the unbounded reconstruction in both branches; `ex.cycle` is outside the frame |
| CurrencyExchangeV3.Graph.constructor | Python/CurrencyExchangeV3.py:14-17 | a graph with no edges and no stored cycles |
| CurrencyExchangeV3.Graph.AddEdge | Python/CurrencyExchangeV3.py:20-21 | exactly one edge is appended; nothing else changes |
| CurrencyExchangeV3.Graph.BellmanFord | Python/CurrencyExchangeV3.py:24-54 | the stored cycles are extended with exactly the traced cycles not stored yet, in the order of their first still-relaxable edge; a list without duplicates stays so; the result says whether any was added |
| CurrencyExchangeV3.AddRow | Python/CurrencyExchangeV3.py:123-127 | the inner loop appends row `i` of the matrix edges |
| CurrencyExchangeV3.BuildGraph | Python/CurrencyExchangeV3.py:117-129 | a fresh graph on `len(currencies)` vertices whose edges are the matrix edges |
| CurrencyExchangeV2.Graph.constructor | Python/CurrencyExchangev2.py:12-15 | a graph with no edges and no stored cycles (the `arbitrages` argument is unused) |
| CurrencyExchangeV2.Graph.AddEdge | Python/CurrencyExchangev2.py:18-19 | exactly one edge is appended; nothing else changes |
| CurrencyExchangeV2.Graph.BellmanFord | Python/CurrencyExchangev2.py:21-44 | as in V3 (new traced cycles in edge order, no duplicates added), and the returned list is the stored list |
| CurrencyExchangeV2.AddRow | Python/CurrencyExchangev2.py:78-82 | the inner loop appends row `i` of the matrix edges |
| CurrencyExchangeV2.BuildGraph | Python/CurrencyExchangev2.py:71-84 | a fresh graph on `len(currencies)` vertices whose edges are the matrix edges |
| CurrencyExchangeMerged.Graph.constructor | Python/CurrencyExchangeMerged.py:13-15 | a graph with no edges |
| CurrencyExchangeMerged.Graph.AddEdge | Python/CurrencyExchangeMerged.py:18-19 | exactly one edge is appended at the end |
| CurrencyExchangeMerged.Graph.BellmanFord | Python/CurrencyExchangeMerged.py:21-38 | a cycle is returned exactly when some edge is still relaxable, traced from the first such edge |
| CurrencyExchangeDistances.DistanceTables | Python/CurrencyExchange.py:40-47 | the tables after `no_vertices - 1` passes over `no_vertices + 1` slots |
| CurrencyExchangeDistances.RelaxEdgeDistances | Python/CurrencyExchange.py:46-47 | the distance update of one edge is `RelaxEdge` on the distance table |
| CurrencyExchangeDistances.RelaxPassDistances | Python/CurrencyExchange.py:45-47 | one pass over the distance list is `Pass` on the distance table |
| CurrencyExchangeDistances.InitDistances | Python/CurrencyExchange.py:40-41 | `[inf] * (n + 1)` with `src` at 0 is `Init` over `0 .. n` |
| CurrencyExchangeDistances.RelaxDistances | Python/CurrencyExchange.py:40-47 | the distance list after the passes is that of `DistanceTables` |
| CurrencyExchangeDistances.CheckDistances | Python/CurrencyExchange.py:50-57 | a cycle is reported exactly when some edge is still relaxable; otherwise the list is returned and every edge satisfies `d[v] <= d[u] + w` |
| CurrencyExchangeDistances.Graph.constructor | Python/CurrencyExchange.py:31-33 | a graph with no edges |
| CurrencyExchangeDistances.Graph.AddEdge | Python/CurrencyExchange.py:35-36 | exactly one triple is appended at the end |
| CurrencyExchangeDistances.Graph.BellmanFord | Python/CurrencyExchange.py:38-57 | "negative cycle" exactly when some edge out of a reached vertex is still relaxable; otherwise the `n + 1` distances of the passes, under which no edge can be relaxed |
| BestConversionRate.EmptyGrid | Python/BestConversionRate.py:17 | an `n × n` grid whose every cell is an empty map |
| BestConversionRate.Graph.constructor | Python/BestConversionRate.py:10-17 | a graph with no edges, no arbitrage and the empty grid |
| BestConversionRate.Graph.AddEdge | Python/BestConversionRate.py:20-21 | exactly one edge is appended; existing edges and the grid are unchanged |
| BestConversionRate.Graph.BuildGraph | Python/BestConversionRate.py:26-39 | a fresh graph on `len(currencies)` vertices whose edges are the matrix edges |
| BestConversionRate.AddRow | Python/BestConversionRate.py:33-37 | the inner loop appends row `i` of the matrix edges |

## Left out

- HTTP rate fetching, console prompts and menus, `print` output and the Tk user interface: these are input and output. Rates arrive as parameters.
- Floating point. `float('inf')`, `-log10(rate)` and `round(…, 3)` are not modelled. Weights are integers, and the conversion from a rate to a weight is a parameter `weightOf`. Gain products are exact `real`s; the rounding of each rate to three decimals is not modelled.
- Label text. The labels hold the data their f-strings are formatted from (`Reports.Report`). The `' -> '.join` and the `:.2f` percentage are not modelled.
- Module-level globals. The `exchange_rates` table that Python/CurrencyExchange2.0.py and Python/BellmanFordNew.py read for the gain product is a parameter `exchangeRates`.
- Inputs on which the source crashes, wraps or loops forever are excluded by preconditions, so the model says nothing about them:
  - The `|V|`-step anchor walk (Python/CurrencyExchange2.0.py:78-79, Python/BellmanFord.py:47-48, Python/BellmanFordNew.py:51-52) raises `KeyError` when it reaches a node without predecessor and then looks up `None`. Edges `(s,a,0)`, `(a,s,2)`, `(a,b,-1)`, `(b,a,-1)` from `s` do this: the first still-relaxable edge is `(a,s)`, and `s` has no predecessor. `AnchorWalkDefined` excludes such inputs.
  - The `visited` walk of `get_negative_cycle` (Python/CurrencyExchangeV3.py:67-77) does not crash on `-1`: Python reads `predecessor[-1]` as the last vertex's predecessor and walks on. Negative indices are not modelled; `VisitWalksDefined` and `FirstVisitWalkDefined` exclude walks that reach `-1`.
  - The unbounded reconstruction (Python/BellmanFord.py:87-90) never ends when the walk back from `end_currency` enters a predecessor cycle. Edges `s→a` and `a→s`, both of weight -1, with start `s` and end `a` do this, and the arbitrage branch still calls it. The requires of `ReconstructUnbounded` (the walk ends in `None`) excludes such inputs.
  - An `end_currency` that is no node, and an edge endpoint outside the lists, raise `KeyError` or `IndexError`. `end in Endpoints(edges)` and `EdgesBelow` exclude them.
- No gain threshold. The `epsilon` parameter of Python/BellmanFordNew.py:21 is accepted and never read, so the model applies no threshold either.
- Cycles that are rotations of each other are not identified. The collecting variants skip only exactly equal lists, as the source does.
- Which cycles the model finds is specified; that their total weight is negative is not proved. The contracts say the reported cycle follows predecessor links through the witness's walk.
- Gain: rotating a cycle does not change its product. This is not proved, because the real multiplication involved was beyond what the verifier settles within its limits.
- `_reconstruct_path` is a module-level method in the model (`PathReconstruction`) shared by the three dictionary variants. It is not a method of each class.
- `print_distances` is output. `CurrencyExchangeDistances.Graph.BellmanFord` returns the whole list, slot 0 included, where the source prints slots 1 to `n`.
- `get_negative_cycle` in Python/CurrencyExchangev2.py and Python/CurrencyExchangeMerged.py is modelled by the shared `CycleExtraction.VisitedCycle`.
- `calculate_best_conversion_rates` (Python/BestConversionRate.py:23-24) has no body, so there is nothing to model. The constructor's read of the never-assigned `currency_matrix` (line 14) is not modelled.
- BestConversionRate.EmptyGrid: the cells are values, so the model does not capture that the source's cells are distinct objects.

## Deviations from the code

Where the code and its evident intent differ, the model follows the intent. Each line below names source code that fails as written, with an `IndentationError`, `AttributeError` or `TypeError`:

- Python/CurrencyExchangev2.py:15 sets `self.arbitrage` while `bellman_ford` uses `self.arbitrages` (line 40). The model has one field, `arbitrages`.
- Python/CurrencyExchangev2.py:74 and Python/BestConversionRate.py:29 call the two-argument constructor with one argument. The model passes an empty list.
- Python/CurrencyExchangeMerged.py:27 reads `self.noVertices`. The model reads `noVertices`, the field the constructor sets as `no_vertices`.
- Python/CurrencyExchangeMerged.py:41 defines `get_negative_cycle` inside `bellman_ford`, after its return, and calls it as a method. The model uses the shared cycle tracer.
- Python/BellmanFord.py never initialises `path_info` in `Exchange.__init__`. The model starts it blank.
- Python/CurrencyExchange.py:124 is an indented `return inputType()` after the module-level script, so the file fails to compile with `IndentationError`. Lines 10-22 also prompt with `input()` and call `requests.get` at module level. The model takes the `Graph` class (lines 30-57) as its authors evidently meant it to run.
