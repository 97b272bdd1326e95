# Bellman-Ford arbitrage detection

This project models the arbitrage detector in `src/bots/BellmanFord.py` and proves properties of that model. The detector has three parts:

- `build_graph_from_prices` turns a nested table of exchange rates into a weighted graph. Rates that are not positive are dropped; every other rate becomes an edge weighted `-log(rate)`.
- `BellmanFordArbitrage.find_arbitrage` sets up the distance and predecessor tables, runs `len(graph) - 1` relaxation passes, and scans every edge once more. It returns the route that `reconstruct_cycle` builds from the target of the first edge that can still be improved, or `None`.
- `BellmanFordArbitrage.reconstruct_cycle` follows predecessors back from a token until it meets `None` or a token it has already visited. It trims the walk to the repeated part and reverses it.

Modules:

- `Wrappers` (wrappers.dfy) holds `Option`.
- `Graphs` (graphs.dfy) holds the graph and walks over it. Python dictionaries iterate in insertion order, so both levels are sequences of entries with distinct keys.
- `GraphBuilder` (graph_builder.dfy) models `build_graph_from_prices`.
- `Relaxation` (relaxation.dfy) models steps 1 and 2 of `find_arbitrage` as functions, and proves the invariants of the passes.
- `Reconstruction` (reconstruction.dfy) models `reconstruct_cycle` as a method with its loop, against the function `Reconstructed`.
- `BellmanFord` (bellman_ford.dfy) models `find_arbitrage` as methods with their loops, against the function `Arbitrage`. It also holds the detection, reachability and result-shape lemmas, and the corrected variant.
- `Findings` (findings.dfy) works through the two-token example of the finding below.

Modelling choices:

- `float('inf')` is `Relaxation.Dist.Inf`, and `inf + w` stays `Inf`. An infinite source therefore never relaxes anything.
- Weights are `int`. The builder takes `-log` as a parameter `negLog: real -> int`.
- The code indexes `distance[v]` directly (lines 33 and 40). Lines 25-27 make the nodes and the start keys of `distance`, so an edge may end at a node or at the start. An edge to any other token raises KeyError at line 33 once a pass runs, which needs two or more nodes. With fewer nodes, it raises KeyError at line 40 if the scan reaches that edge. The operations therefore require `Graphs.KeysCover(g, Nodes(g) + {start})`. An edge into a start that is not a node is allowed, for example `{"A": {"S": 1}}` with start `"S"` (`BellmanFord.MissingStartQuoted`).
- When the start is a node, this is the same as requiring that every edge ends at a node (`Graphs.Closed`). The lemmas about routes and detection require `Closed`. When the start is not a node, `BellmanFord.MissingStart` already fixes the result as `None`.
- `if current:` (line 61) is modelled with Python's truthiness. A `None` and the empty-string token both count as false (`Reconstruction.Truthy`). The shape lemmas assume that `""` is not a node.

## Model

| member | source | states |
|---|---|---|
| GraphBuilder.BuildGraphFromPrices | src/bots/BellmanFord.py:71-84 | The method's nested loops build exactly `BuiltGraph(prices, negLog)`: one entry per base, in the order of `prices`, each with the edges kept from that base's quotes in order. |
| GraphBuilder.BuiltNodes | src/bots/BellmanFord.py:77-79 | The built graph has distinct keys at both levels. Its nodes are exactly the outer keys of `prices`, including a base whose every rate was dropped. |
| GraphBuilder.BuiltEdges | src/bots/BellmanFord.py:80-84 | An edge base -> y exists exactly when `prices[base][y]` is present and positive, and its weight is `negLog` of that rate. There are no other edges, so the inner keys are a subset of `prices[base]`'s keys. A token that is not a base has no edges. |
| GraphBuilder.Kept | src/bots/BellmanFord.py:80-83 | Defines one base's edges: its quotes in order, keeping those with rate > 0 and weighting them `negLog(rate)`. |
| GraphBuilder.BuiltGraph | src/bots/BellmanFord.py:77-84 | Defines the graph: one entry per base of `prices`, in order, with that base's kept edges. |
| GraphBuilder.LookupKept | src/bots/BellmanFord.py:80-83 | For one base, the kept edge list has an edge to y iff the rate for y is positive, with weight `negLog(rate)`. |
| GraphBuilder.KeptFrom | src/bots/BellmanFord.py:80-83 | Every kept edge comes from a quote of the same base with a positive rate. |
| GraphBuilder.KeptDistinct | src/bots/BellmanFord.py:80-83 | Distinct quotes give distinct edge targets. |
| Relaxation.Plus | src/bots/BellmanFord.py:33-34 | Defines `distance[u] + weight` on the float distances, where `inf + w` is `inf`. |
| Relaxation.Less | src/bots/BellmanFord.py:33 | Defines `<` on those distances: a finite distance is below `inf` and below any larger number; `inf` is below nothing. |
| Relaxation.Init | src/bots/BellmanFord.py:25-27 | Defines the initial tables: every node at `inf` with predecessor `None`, then `distance[start_token] = 0`, a key even when the start is not a node. |
| Relaxation.Improvable | src/bots/BellmanFord.py:33-40 | Defines the test `distance[u] + weight < distance[v]` of lines 33 and 40 with `Plus` and `Less`. A missing key counts as not improvable, where the code raises KeyError. `Graphs.KeysCover` rules that out for every caller. |
| Relaxation.Step | src/bots/BellmanFord.py:33-35 | Defines one relaxation: if the test of line 33 holds, it sets `distance[v]` and `predecessor[v] = u`; otherwise the tables are unchanged. |
| Relaxation.RelaxEdges | src/bots/BellmanFord.py:32-35 | Defines the inner loop: `Step` over u's out-edges in insertion order. |
| Relaxation.RelaxPass | src/bots/BellmanFord.py:31-35 | Defines one pass: `RelaxEdges` over the nodes in insertion order. |
| Relaxation.RelaxPasses | src/bots/BellmanFord.py:30-35 | Defines k passes in a row. |
| Relaxation.PassCount | src/bots/BellmanFord.py:30 | Defines the number of elements of `range(len(graph) - 1)`: 0 for an empty graph. |
| Relaxation.Final | src/bots/BellmanFord.py:24-35 | Defines the tables after step 2: `PassCount(g)` passes from `Init`. |
| Relaxation.InitInv | src/bots/BellmanFord.py:25-27 | On entry to the passes, every node is at infinity with predecessor `None`, except that the start is at 0. The relaxation invariant holds. |
| Relaxation.StepInv | src/bots/BellmanFord.py:33-35 | Relaxing one edge of the graph keeps the invariant. When the test fires, it sets `distance[v] = distance[u] + w` and `predecessor[v] = u` together. |
| Relaxation.StepBelow | src/bots/BellmanFord.py:33-35 | Relaxing an edge never raises a distance and removes no key. |
| Relaxation.EdgesInv | src/bots/BellmanFord.py:32-35 | Relaxing all out-edges of one node keeps the invariant. |
| Relaxation.PassInv | src/bots/BellmanFord.py:31-35 | One pass over every node keeps the invariant. |
| Relaxation.PassesInv | src/bots/BellmanFord.py:30-35 | Any number of passes keeps the invariant. The invariant says: keys are the nodes plus the start; each predecessor p of v has an edge p -> v with `distance[v] >= distance[p] + w(p,v)`; a node without a predecessor keeps its initial distance; every finite distance is the weight of a walk from the start. |
| Relaxation.FinalInv | src/bots/BellmanFord.py:24-35 | The invariant holds of the tables that the `len(graph) - 1` passes leave. |
| Relaxation.PassesBelow | src/bots/BellmanFord.py:30-35 | No distance ever increases, neither across one pass nor relative to the initial tables. |
| Relaxation.EdgesLower | src/bots/BellmanFord.py:32-35 | After a node's edges are relaxed, each target's distance is at most the node's distance plus the edge weight. |
| Relaxation.PassLowers | src/bots/BellmanFord.py:31-35 | After one pass, each edge's target is at most its source's distance before the pass plus the edge weight. |
| Relaxation.PassesRelax | src/bots/BellmanFord.py:30-35 | Path relaxation: after k passes, a token's distance is at most the weight of every walk from the start with at most k edges. |
| Relaxation.PassRelax | src/bots/BellmanFord.py:31-35 | One more pass extends that bound to walks one edge longer. |
| Relaxation.PredChain | src/bots/BellmanFord.py:33-35 | Following recorded predecessors back along a chain walks edges of the graph. The distance at the chain's end is at least its start's distance plus the chain's weight. |
| Reconstruction.Truthy | src/bots/BellmanFord.py:61 | Defines Python's `if current:` on an optional token: false for `None` and for the empty string, true for every other token. |
| Reconstruction.Walk | src/bots/BellmanFord.py:54-59 | Defines the list `cycle` when the loop of lines 57-59 ends: `Chase` from `[start]`. |
| Reconstruction.Stop | src/bots/BellmanFord.py:55-59 | Defines the value of `current` when that loop ends: the predecessor of the walk's last token. |
| Reconstruction.Reconstructed | src/bots/BellmanFord.py:54-65 | Defines the result. If `current` is truthy, it appends `current`, trims from its first occurrence and reverses; otherwise it reverses the walk. |
| Reconstruction.Chase | src/bots/BellmanFord.py:57-59 | The backward walk starts at its start token and never repeats a token. When it stops, the next predecessor is `None` or a token already on the walk. It follows the predecessor links. |
| Reconstruction.WalkBound | src/bots/BellmanFord.py:54-59 | The walk is no longer than the predecessor dictionary, so the loop terminates. |
| Reconstruction.IndexOf | src/bots/BellmanFord.py:63 | `list.index`: the first position of the token. |
| Reconstruction.Reverse | src/bots/BellmanFord.py:65 | `list.reverse`: element j of the result is element `n - 1 - j` of the input. |
| Reconstruction.ReconstructCycle | src/bots/BellmanFord.py:47-67 | The method's loop, trim and in-place reversal return exactly `Reconstructed(predecessor, start)`. |
| Reconstruction.ReconstructShape | src/bots/BellmanFord.py:54-65 | The result is non-empty and each token's predecessor is the token before it. If the walk stopped on a repeated truthy token c, the result starts and ends at c and repeats nothing in between. Otherwise it is the whole walk reversed: it ends at `start`, its first token's predecessor is the stop value, and it repeats nothing. |
| Reconstruction.ClosedShape | src/bots/BellmanFord.py:61-65 | The trimmed branch, for a walk that stops at one of its own tokens. |
| Reconstruction.TrimmedShape | src/bots/BellmanFord.py:62-65 | Trimming at the first occurrence and reversing gives a route that starts and ends at the repeated token and repeats nothing in between. |
| BellmanFord.FirstHit | src/bots/BellmanFord.py:38-40 | Defines the edge at which line 42 returns: the first improvable edge in scan order, or `None`. |
| BellmanFord.Arbitrage | src/bots/BellmanFord.py:18-45 | Defines what `find_arbitrage(start)` returns as written: `None` when `FirstHit` is `None`; otherwise the reconstruction from the found edge's target, using the predecessors left by the passes. |
| BellmanFord.ArbitrageCorrected | src/bots/BellmanFord.py:38-45 | Defines the corrected result: the same, except that the found edge u -> v is relaxed first, so `predecessor[v] = u`. |
| BellmanFord.NoImprovable | src/bots/BellmanFord.py:38-45 | Defines when the scan falls through to `return None` at line 45: line 40's test holds for no edge of the graph. |
| BellmanFord.FirstEdgeFrom | src/bots/BellmanFord.py:39-40 | The first out-edge, from position k onwards, that line 40 accepts. Every edge it skips is not improvable. |
| BellmanFord.FirstHitFrom | src/bots/BellmanFord.py:38-40 | The first improvable edge in scan order. Every edge before it is not improvable, and `None` means no edge is. |
| BellmanFord.FirstHitExact | src/bots/BellmanFord.py:38-42 | The edge the scan returns at is the unique improvable edge that no improvable edge precedes. |
| BellmanFord.RelaxAll | src/bots/BellmanFord.py:24-35 | The method's nested loops leave exactly the tables of `len(graph) - 1` passes (`Final`), with no early exit. |
| BellmanFord.OnePass | src/bots/BellmanFord.py:31-35 | One iteration of the outer loop equals one pass of `RelaxPass`. |
| BellmanFord.RelaxNode | src/bots/BellmanFord.py:32-35 | The inner loop equals relaxing that node's out-edges in order. |
| BellmanFord.FindHit | src/bots/BellmanFord.py:38-42 | The scan's loops stop at `FirstHit`. |
| BellmanFord.FindArbitrage | src/bots/BellmanFord.py:18-45 | `find_arbitrage` returns `Arbitrage(g, start)`. It returns `None` iff no edge is improvable after the passes; otherwise it returns the reconstruction from the target of the first improvable edge. |
| BellmanFord.HitStepInv | src/bots/BellmanFord.py:38-42 | The edge the scan finds is an improvable edge of the graph, and its target is a node. |
| BellmanFord.MissingStart | src/bots/BellmanFord.py:25-27 | A start that is not a node is accepted, also when edges lead to it. Nothing reaches it, so the result is `None` for both variants. |
| BellmanFord.MissingStartQuoted | src/bots/BellmanFord.py:25-45 | On `{"A": {"S": 1}}` with start `"S"`, an edge leads to the start although the start is not a node. The lookups succeed, and the result is `None`. |
| BellmanFord.OneNodeUncovered | src/bots/BellmanFord.py:30-42 | `{"S": {"S": -1, "X": 5}}` with start `"S"` has one node, so no pass runs. Its edge to `"X"` lies outside `KeysCover`, which is the one-node case the model leaves out. |
| BellmanFord.NoHitUnreached | src/bots/BellmanFord.py:38-40 | When the start is not a node, the scan finds no improvable edge. |
| BellmanFord.HitClosed | src/bots/BellmanFord.py:38-42 | When the scan finds an edge, the start is a node, so every edge ends at a node. |
| Relaxation.UnreachedStart | src/bots/BellmanFord.py:25-35 | When the start is not a node, every node stays at infinity and the passes leave the initial tables unchanged. |
| Relaxation.PassesIdle | src/bots/BellmanFord.py:30-35 | Passes whose every source token is at infinity change nothing. |
| BellmanFord.Settled | src/bots/BellmanFord.py:38-40 | When no edge is improvable, distances are settled along every walk. |
| BellmanFord.NegativeRouteFound | src/bots/BellmanFord.py:30-42 | If a closed route of negative weight is reachable from the start, the scan finds an improvable edge and the result is not `None`. |
| BellmanFord.EdgeSettled | src/bots/BellmanFord.py:30-40 | If no closed route reachable from the start weighs less than zero, no edge can still be improved after the passes. |
| BellmanFord.NoNegativeRouteNone | src/bots/BellmanFord.py:30-45 | If no closed route reachable from the start weighs less than zero, the scan finds nothing and both variants return `None`. |
| BellmanFord.DetectsExactly | src/bots/BellmanFord.py:18-45 | Detection in both directions: the result is `None` exactly when no closed route of negative weight can be reached from the start. This holds for both variants. |
| Graphs.WeightJoin | src/bots/BellmanFord.py:33-34 | Joining a walk onto the end of another adds the weights. This is how distances accumulate along a walk. |
| Graphs.CutWeight | src/bots/BellmanFord.py:33-34 | Cutting a loop out of a walk leaves a walk with the same ends. It removes exactly the loop's weight, and the loop is a closed route. |
| Graphs.ShortLighter | src/bots/BellmanFord.py:30-35 | If no reachable closed route weighs less than zero, every walk from the start shortens to one with the same ends that repeats no token and weighs no more. |
| BellmanFord.FiniteIffReachable | src/bots/BellmanFord.py:25-35 | After the passes, a node's distance is finite iff some walk from the start reaches it. |
| BellmanFord.SimpleWalkBound | src/bots/BellmanFord.py:30-35 | After the passes, a node's distance is at most the weight of every walk from the start that repeats no token. |
| BellmanFord.HitFinite | src/bots/BellmanFord.py:38-42 | The target of the found edge is at a finite distance. |
| BellmanFord.RouteClosed | src/bots/BellmanFord.py:54-65 | Under the invariant, a walk that stops at a visited token gives a closed route of the graph that repeats no token before its end. |
| BellmanFord.RouteOpen | src/bots/BellmanFord.py:54-65 | Under the invariant, a walk that stops at `None` gives a walk from the start to v. It repeats no token and weighs no more than v's distance. |
| BellmanFord.ResultShape | src/bots/BellmanFord.py:38-45 | As written, a result is a walk of the graph. It is either a closed route repeating nothing before its end, or an open walk from the start. |
| BellmanFord.FindArbitrageCorrected | src/bots/BellmanFord.py:38-45 | The corrected `find_arbitrage` returns `ArbitrageCorrected(g, start)`. It returns `None` iff no edge is improvable. |
| BellmanFord.CorrectedCloses | src/bots/BellmanFord.py:38-65 | Corrected: every result is a closed route A -> ... -> A of the graph that repeats no token before returning. |
| BellmanFord.CannotReopen | src/bots/BellmanFord.py:30-42 | An open walk from the start to the found target that repeats no token weighs more than the target's improved distance. |
| Findings.ExampleFinal | src/bots/BellmanFord.py:24-35 | On the two-token example, the single pass leaves A at -1 with predecessor S, and leaves S at 0 with none. |
| Findings.AsWrittenOpenRoute | src/bots/BellmanFord.py:38-67 | As written, the example returns `["S"]`, which is not a closed route, although the closed route S -> A -> S of weight -2 exists. |
| Findings.CorrectedClosedRoute | src/bots/BellmanFord.py:38-67 | The corrected scan returns `["S", "A", "S"]` on the same example. |

## Left out

- `math.log` and floating point (lines 25, 83). Weights are integers and `-log` is the parameter `negLog`. Nothing is proved about `-log` turning products of rates into sums of weights.
- The `logging` calls (lines 8, 41, 44, 66) and the `__main__` demonstration (lines 88-106) are I/O.
- `BellmanFordArbitrage.__init__` only stores the graph. The graph is passed to each operation as a parameter.
- An edge whose target is neither a node nor the start raises KeyError. With two or more nodes, this happens at line 33 in the first pass. With one node, no pass runs, and it happens at line 40 if the scan reaches that edge. The model excludes every such graph with the requires `Graphs.KeysCover(g, Nodes(g) + {start})`.
- A one-node graph whose scan returns before it reaches such an edge does not raise, and the model does not cover it. For example, `{"S": {"S": -1, "X": 5}}` with start `"S"`: the scan fires on S -> S, and the result is `["S"]` without `distance["X"]` ever being read. `BellmanFord.OneNodeUncovered` shows that this graph lies outside the requires.
- `reconstruct_cycle` raises KeyError at line 55 when its `start` is not a key of the predecessor table. It raises KeyError at line 59 when a predecessor is not a key. `Reconstruction.ReconstructCycle`, `Walk`, `Stop` and `Reconstructed` exclude both cases with the requires `start in pred && ClosedPreds(pred)`.
- `find_arbitrage` never reaches either case. The target it passes is a key of the predecessor table (`BellmanFord.HitStepInv`: `e.to in Final(g, start).pred`). Every predecessor in that table is a node, and so a key (`Relaxation.FinalInv`).
- The BellmanFord lemmas about routes, detection and the result's shape require `Graphs.Closed`. These are NegativeRouteFound, DetectsExactly, FiniteIffReachable, ResultShape, CorrectedCloses and CannotReopen. This excludes only an edge into a start that is not a node. For that case, `BellmanFord.MissingStart` proves the result is `None`.
- The three-level nested loop of `find_arbitrage` is split into the methods `RelaxAll`, `OnePass`, `RelaxNode` and `FindHit`. Each is proved equal to its specification function.
- A profit ratio, a synthetic super-source and an `InvalidSource` rejection of a missing start are not in the code. A missing start gives `None` (`BellmanFord.MissingStart`).
- BellmanFord.CorrectedCloses: states that the route is closed and repeats nothing. It does not state that its weight is negative, and it assumes that the empty string is not a node.
- BellmanFord.ResultShape: assumes that the empty string is not a node. The code treats a predecessor `""` like `None` (line 61).
- The other repository files are not part of this model: HTTP and web3 clients, deployment, initialisation scripts, and the tests.

## Findings

| source | as written | input that shows it | evidently intended | confidence | as-written member | corrected member |
|---|---|---|---|---|---|---|
| src/bots/BellmanFord.py:40-42 | On finding an improvable edge u -> v, the scan reconstructs from `predecessor` without recording `predecessor[v] = u`. The backward walk from v can then end at `None` and return an open route that is not a cycle. | graph `{"A": {"S": -1}, "S": {"A": -1}}`, start `"S"`: one pass leaves A at -1 (predecessor S) and S at 0 (no predecessor). The scan finds A -> S improvable, and the result is `["S"]`, although S -> A -> S weighs -2. | Relax the found edge before reconstructing, so that the result is always a closed route. | not executed | Findings.AsWrittenOpenRoute | BellmanFord.CorrectedCloses |
