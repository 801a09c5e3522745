# Shortest paths on random weighted graphs

This project models the algorithmic core of `discrete_lab.py` in Dafny and proves properties of it:

- `bellman_ford(graph, source)`. It runs single-source relaxation over a distance dictionary, then one extra scan of the edges. The scan raises `ValueError` when some edge still relaxes.
- `floyd_warshall(graph)`. It runs the all-pairs dynamic programme in place on an `n x n` list of lists, with the intermediate node `k` as the outermost loop. It never raises.
- The edge-building part of `gnp_random_connected_graph`:
  - it groups the pairs `i < j` by `i`;
  - it adds one mandatory edge per group, reversed on a coin flip;
  - it adds each pair of the group on its own coin;
  - it gives every edge a weight from `randint(-5, 20)`.

## Modules

| Module | File | Contents |
|---|---|---|
| `ExtInt` | `ext_int.dfy` | Distances `Fin(int) \| Inf`. `float('inf')` absorbs `+`, and `Inf < Inf` is false. |
| `Graphs` | `graphs.dfy` | A graph is a node count `n` plus the sequence of `(u, v, w)` triples that `graph.edges(data='weight')` yields. The module also defines walks, weights, negative cycles, "is the shortest distance", and the cycle-cutting and pigeonhole arguments. |
| `BellmanFord` | `bellman_ford.dfy` | The dictionary is a `map<int, Dist>`. `Spec` is a fold over the passes. The method `BellmanFord` and its loops are proved equal to `Spec`, and the lemmas prove what `Spec` means. |
| `FloydWarshall` | `floyd_warshall.dfy` | The result is an `array2<Dist>` filled in place. `Spec` is the exact in-place fold (`EdgeFill`, `DiagFill`, `Stages`/`Rows`/`Cols`) over `seq<seq<Dist>>`. The proofs cover soundness (every finite entry is a walk's weight) and completeness (every entry is at most the weight of each path or cycle allowed so far). |
| `Generator` | `generator.dfy` | The networkx graph becomes an insertion-ordered list of node pairs. The random outcomes become a `Randomness` value holding four total functions. The method `Generate` is proved equal to the function `Generated`. |
| `Scenarios` | `scenarios.dfy` | Two concrete runs of the engines, and what the engines compute on undirected generated graphs. |

Some details of the model:

- The order of `G.edges()` in networkx is: node by node in insertion order, then each node's neighbours in insertion order. An undirected `nx.Graph` yields each edge once, as `(smaller, larger)`, because nodes `0..n-1` are added in order. `Generator.YieldFrom` models this order.
- `Graphs.WellFormed` says that at most one triple is yielded per ordered pair. This is the invariant of networkx's adjacency dictionaries. The completeness proofs for Floyd–Warshall assume it, because the edge fill keeps the last write.

Where the documented behaviour and the code differ, the model follows the code:

- **Self-loops in Floyd–Warshall.** The diagonal is set to `0` after the edge fill (`discrete_lab.py:54-58`), so a self-loop's weight is overwritten. A negative cycle therefore shows as a negative diagonal entry only if it is not a single self-loop:
  - `FloydWarshall.NegativeCycleShows` proves both directions of the precise statement;
  - `FloydWarshall.SelfLoopHidden` gives a one-node graph whose negative self-loop leaves the diagonal at `0`.
- **The source is never checked.** `bellman_ford` does not check that `source` is a node: `distances[source] = 0` inserts it (`discrete_lab.py:25`). There is no "unknown node" error. A source outside the graph ends with only itself at `0`.
- **Orientation in the directed generator.** Only the mandatory edge is ever reversed. Optional edges always keep the orientation `(i, j)` with `i < j` (`discrete_lab.py:93-98`). When the flip fires, the mandatory edge enters `i` instead of leaving it, so node `i` need not have an outgoing edge to a higher node (`Generator.ForwardEdgeMayEnter`).
- **Undirected graphs are read one way.** An undirected graph reaches the engines as its yielded triples only, and those are always `(smaller, larger)`. So both engines see an ascending, acyclic graph. Every entry below the diagonal is `+inf` (`Scenarios.UndirectedRunsOneWay`).

## Model

| member | source | states |
|---|---|---|
| BellmanFord.Initial | discrete_lab.py:24-25 | the keys are the nodes `0..n-1` plus the source; the source maps to 0 and every other key to +inf |
| BellmanFord.AllInf | discrete_lab.py:24 | the keys are exactly the nodes, each at +inf |
| BellmanFord.InitialCovers | discrete_lab.py:24-30 | every endpoint of every yielded edge is a key, so no lookup in the passes fails |
| BellmanFord.BellmanFord | discrete_lab.py:11-37 | the method returns exactly the fold `Spec`. It raises exactly when a negative cycle is reachable from the source. On success the keys are the nodes plus the source, no edge can still relax, and every entry is the shortest walk weight from the source |
| BellmanFord.RelaxationPasses | discrete_lab.py:27-30 | the dictionary after the loop is the initial dictionary relaxed by exactly `len(nodes) - 1` full passes, and by none when the graph is empty |
| BellmanFord.RelaxPass | discrete_lab.py:28-30 | one pass relaxes every yielded edge in order |
| BellmanFord.SpecFacts | discrete_lab.py:24-37 | success means no edge can still relax and every entry is the shortest distance. The error is raised if and only if a negative cycle is reachable from the source |
| BellmanFord.RelaxNeverIncreases | discrete_lab.py:29-30 | a relaxation lowers no entry's value, and afterwards `dist[v] <= dist[u] + w` holds for its edge |
| BellmanFord.PassPrefixNeverIncreases | discrete_lab.py:28-30 | relaxing any prefix of a pass raises no entry |
| BellmanFord.PassesNeverIncrease | discrete_lab.py:27-30 | an extra pass raises no entry |
| BellmanFord.PassPrefixBound | discrete_lab.py:28-30 | after a prefix of a pass, each relaxed edge's target is at most its source's starting value plus the weight |
| BellmanFord.PassPrefixWitnessed | discrete_lab.py:28-30 | relaxation preserves the invariant that every finite entry is the weight of a walk from the source |
| BellmanFord.PassesWitnessed | discrete_lab.py:24-30 | after any number of passes, every finite entry is the weight of some walk from the source to that node |
| BellmanFord.UnreachableStaysInf | discrete_lab.py:24-30 | a node that no walk from the source reaches stays at +inf |
| BellmanFord.PassesBound | discrete_lab.py:27-30 | after `k` passes, each entry is at most the weight of every walk of at most `k` edges to that node |
| BellmanFord.PassesKeepBound | discrete_lab.py:27-30 | a bound on an entry after `k - 1` passes survives pass `k` |
| BellmanFord.PassesBoundLast | discrete_lab.py:27-30 | the inductive step of that bound: pass `k` extends the bound from walks of `k - 1` edges by the walk's last edge |
| BellmanFord.NoRelaxBound | discrete_lab.py:33-37 | when no edge relaxes, `dist[t] <= dist[x] + weight(p)` for every walk `p` from `x` to `t` |
| BellmanFord.OkIsShortest | discrete_lab.py:33-37 | a normal return holds the shortest walk weight, or +inf, for every key |
| BellmanFord.NegativeCycleIffReachable | discrete_lab.py:33-35 | the extra scan raises if and only if a negative closed walk is reachable from the source |
| BellmanFord.NoReachableCycleWhenOk | discrete_lab.py:33-37 | a normal return means that no negative cycle is reachable from the source |
| BellmanFord.RelaxableMeansCycle | discrete_lab.py:33-35 | an edge that still relaxes after `len(nodes) - 1` passes reveals a reachable negative cycle |
| FloydWarshall.Set | discrete_lab.py:55 | writing one cell changes that cell only, and the matrix stays `n x n` |
| FloydWarshall.InfMatrix | discrete_lab.py:52 | an `n x n` matrix with +inf in every cell |
| FloydWarshall.Spec | discrete_lab.py:51-52 | the result is an `n x n` matrix |
| FloydWarshall.FloydWarshall | discrete_lab.py:42-65 | a fresh `n x n` array whose cells are exactly the in-place fold `Spec` |
| FloydWarshall.RunStages | discrete_lab.py:60-63 | the outer loop runs the stages `k = 0..n-1` in order on the array |
| FloydWarshall.FillEdges | discrete_lab.py:54-55 | the array after the edge loop is the +inf matrix with each yielded weight written at `[u][v]` in order |
| FloydWarshall.FillDiagonal | discrete_lab.py:57-58 | the array after the diagonal loop is the previous matrix with 0 written at every `[i][i]` |
| FloydWarshall.RunStage | discrete_lab.py:61-63 | one value of `k` updates rows `0..n-1` in order, in place |
| FloydWarshall.RunRow | discrete_lab.py:62-63 | one row `i` updates cells `0..n-1` in order, each from the current cells `[i][k]` and `[k][j]` |
| FloydWarshall.EdgeFillLast | discrete_lab.py:54-55 | the `m`-th write of the edge loop sets its own cell to its weight and leaves every other cell alone |
| FloydWarshall.EdgeFillCell | discrete_lab.py:54-55 | a cell with no yielded triple keeps its value. Otherwise it holds the weight of the last triple written there |
| FloydWarshall.LastTripleStep | discrete_lab.py:54-55 | one more write of the edge loop keeps a cell at its old value while no triple names it, and at the last naming triple's weight otherwise |
| FloydWarshall.EdgeFillSource | discrete_lab.py:54-55 | after the edge loop a cell holds its old value or the weight of some triple naming it |
| FloydWarshall.DiagFillCell | discrete_lab.py:57-58 | the first `i` diagonal cells become 0 and every other cell is unchanged |
| FloydWarshall.InitEntries | discrete_lab.py:51-58 | after initialisation the diagonal is 0, even under a self-loop. The cell `[u][v]` holds the last yielded weight for `u -> v`, and every other cell holds +inf |
| FloydWarshall.ColsNeverIncrease | discrete_lab.py:62-63 | more cell updates in a row raise no cell |
| FloydWarshall.RowsNeverIncrease | discrete_lab.py:61-63 | more row updates within a stage raise no cell |
| FloydWarshall.StagesNeverIncreaseFrom | discrete_lab.py:60-63 | more stages raise no cell, from any starting matrix |
| FloydWarshall.StagesNeverIncrease | discrete_lab.py:60-63 | a later outer iteration raises no cell of the initial matrix's fold |
| FloydWarshall.CellUpdateBound | discrete_lab.py:61-63 | at the end of stage `k`, each cell is at most the sum of the `[i][k]` and `[k][j]` values read when it was updated |
| FloydWarshall.LaterRowsBelow | discrete_lab.py:61-63 | cells updated after cell `[a][b]` in stage `k` do not raise it |
| FloydWarshall.ReadBelowStart | discrete_lab.py:61-63 | every value read during stage `k` is at most its value at the start of the stage |
| FloydWarshall.InitWitnessed | discrete_lab.py:51-58 | every finite initial cell is the weight of a walk with no intermediate node |
| FloydWarshall.MinWitnessed | discrete_lab.py:63 | the new value of a cell is attained by a walk with intermediate nodes below `k + 1` when the three cells it is computed from are |
| FloydWarshall.StepWitnessed | discrete_lab.py:63 | one update keeps every finite cell the weight of a walk whose intermediate nodes are below `k + 1` |
| FloydWarshall.ColsWitnessed | discrete_lab.py:62-63 | one row's updates preserve that invariant |
| FloydWarshall.RowsWitnessed | discrete_lab.py:61-63 | a stage's row updates preserve that invariant |
| FloydWarshall.StageWitnessed | discrete_lab.py:61-63 | after stage `k`, every finite cell is the weight of a walk whose intermediate nodes are in `0..k` |
| FloydWarshall.StagesWitnessedFrom | discrete_lab.py:60-63 | after `k` stages, every finite cell is the weight of a walk whose intermediate nodes are below `k` |
| FloydWarshall.StagesWitnessed | discrete_lab.py:60-63 | the same for the algorithm's own initial matrix |
| FloydWarshall.InitPathBound | discrete_lab.py:54-58 | each initial cell is at most the weight of every walk without intermediate nodes, except a lone self-loop |
| FloydWarshall.InitElemBound | discrete_lab.py:51-58 | the same bound for all initial cells |
| FloydWarshall.StagePathBound | discrete_lab.py:61-63 | after stage `k`, a cell is at most the weight of each elementary walk whose intermediate nodes are in `0..k` |
| FloydWarshall.StageElemBound | discrete_lab.py:61-63 | stage `k` carries that bound from intermediate nodes below `k` to those below `k + 1` |
| FloydWarshall.StagesElemBoundFrom | discrete_lab.py:60-63 | after `k` stages the bound holds for intermediate nodes below `k`, from any well-bounded start |
| FloydWarshall.StagesElemBound | discrete_lab.py:60-63 | the same for the algorithm's own initial matrix |
| FloydWarshall.BoundByElementary | discrete_lab.py:60-63 | without negative cycles, a bound over elementary walks is a bound over all walks with the same intermediate nodes |
| FloydWarshall.StageShortest | discrete_lab.py:60-63 | without negative cycles, after `k` outer iterations each cell is the minimum weight of a walk whose intermediate nodes are below `k` |
| FloydWarshall.FinalShortest | discrete_lab.py:42-65 | without negative cycles, every cell of the result is the shortest walk weight, or +inf |
| FloydWarshall.DiagonalNonPositive | discrete_lab.py:57-63 | every diagonal cell of the result is finite and at most 0 |
| FloydWarshall.ZeroDiagonal | discrete_lab.py:57-63 | the diagonal cell of a node that no negative closed walk passes through is 0 |
| FloydWarshall.TriangleInequality | discrete_lab.py:60-65 | without negative cycles, `d[i][j] <= d[i][k] + d[k][j]` for the result |
| FloydWarshall.InfIffNoWalk | discrete_lab.py:42-65 | a cell is +inf exactly when no walk joins the two nodes, whether or not a negative cycle exists |
| FloydWarshall.NegativeCycleShows | discrete_lab.py:54-65 | the graph has a negative cycle if and only if the result has a negative diagonal cell or the graph has a negative self-loop |
| FloydWarshall.NegativeDiagonalIsCycle | discrete_lab.py:57-65 | a negative diagonal cell of the result is the weight of a negative closed walk |
| FloydWarshall.NegativeSelfLoopIsCycle | discrete_lab.py:54-58 | a negative self-loop, which the diagonal assignment hides, is still a negative cycle |
| FloydWarshall.NegativeCycleSeen | discrete_lab.py:54-65 | a negative cycle shows as a negative diagonal cell unless a negative self-loop exists |
| FloydWarshall.SelfLoopHidden | discrete_lab.py:54-58 | a single negative self-loop is a negative cycle that leaves the diagonal at 0 |
| FloydWarshall.AgreesWithBellmanFord | discrete_lab.py:11-65 | without negative cycles, Bellman–Ford from any node succeeds, and its entry for each node equals the matching cell of the Floyd–Warshall result |
| Generator.RandInt | discrete_lab.py:101 | every drawn weight lies in `[-5, 20]` |
| Generator.Target | discrete_lab.py:90-92 | the chosen pair of group `i` joins `i` to a node `j` with `i < j < n` |
| Generator.Weighted | discrete_lab.py:100-101 | one weighted triple per yielded pair |
| Generator.Generate | discrete_lab.py:83-101 | the built graph is exactly `Generated`. It has nodes `0..n-1`, at most one edge per ordered pair, no self-loop and weights in `[-5, 20]`, and its undirected skeleton is connected |
| Generator.AddEdges | discrete_lab.py:90-98 | the group loop leaves exactly the pair list of all groups `0..n-2`, taken in order |
| Generator.AddGroup | discrete_lab.py:91-98 | one group adds its mandatory pair if absent, then each optional pair whose coin fires |
| Generator.AssignWeights | discrete_lab.py:100-101 | each yielded pair gets its own drawn weight, in order |
| Generator.AddKeyFacts | discrete_lab.py:95 | `add_edge` adds the pair only if absent, so the pair list stays duplicate-free |
| Generator.OptionalFacts | discrete_lab.py:96-98 | after the optional loop, the list holds the earlier pairs plus exactly the group's pairs whose coin fired, without duplicates |
| Generator.GroupsFacts | discrete_lab.py:87-98 | after `i` groups, a pair is present exactly when one of those groups added it, without duplicates |
| Generator.WithFirstFacts | discrete_lab.py:100 | a node's yielded pairs are exactly the listed pairs starting at that node |
| Generator.YieldFromFacts | discrete_lab.py:100 | the yield holds exactly the listed pairs, without duplicates, ordered by first node |
| Generator.AddedKeyEnds | discrete_lab.py:90-98 | an added pair joins two different nodes below `n`. In undirected mode the smaller node comes first |
| Generator.EdgeIffPair | discrete_lab.py:100-101 | a triple `u -> v` exists exactly when `(u, v)` was yielded |
| Generator.YieldedShape | discrete_lab.py:87-100 | yielded pairs are distinct, within range, free of loops, ordered by first node, and ascending when undirected |
| Generator.WeightedShape | discrete_lab.py:100-101 | weighting keeps that shape and puts every weight in `[-5, 20]` |
| Generator.GeneratedShape | discrete_lab.py:83-101 | the generated graph has nodes `0..n-1`, at most one edge per ordered pair and no self-loop. Its weights are in `[-5, 20]`, its edges are ascending when undirected, and they are yielded by first node |
| Generator.GeneratedEdges | discrete_lab.py:87-98 | exactly which edges exist. Directed: `i -> target(i)` unless flipped, `target(i) -> i` if flipped, plus each kept `i -> j`. Undirected: `{i, target(i)}` plus each kept pair |
| Generator.MandatoryJoined | discrete_lab.py:92-95 | every node below `n - 1` is joined, in one direction or the other, to its chosen higher node |
| Generator.ForwardEdges | discrete_lab.py:90-95 | every node below `n - 1` has an edge, in either direction, to some higher node |
| Generator.LinkedToLast | discrete_lab.py:90-95 | following those edges upward joins every node to node `n - 1` |
| Generator.LinkedReverse | discrete_lab.py:90-95 | the skeleton's relation "joined by a chain" is symmetric |
| Generator.LinkedJoin | discrete_lab.py:90-95 | the skeleton's relation "joined by a chain" is transitive |
| Generator.GeneratedConnected | discrete_lab.py:90-95 | the undirected skeleton of every generated graph is connected, directed or not, for every outcome of the random choices |
| Generator.ForwardEdgeMayEnter | discrete_lab.py:92-95 | with the flip fired, the only edge of a two-node directed graph enters node 0, so node 0 has no outgoing edge |
| Generator.NotStronglyConnected | discrete_lab.py:77-80 | a generated directed graph need not be strongly connected |
| Scenarios.CycleGraphRaises | discrete_lab.py:33-35 | `0->1 (1)`, `1->2 (-3)`, `2->0 (1)` from source 0 raises the negative-cycle error |
| Scenarios.PathFirstPass | discrete_lab.py:27-30 | on the path graph from source 0, the first pass yields `{0: 0, 1: 4, 2: 7}` |
| Scenarios.PathSecondPass | discrete_lab.py:27-35 | on the path graph, a further pass leaves `{0: 0, 1: 4, 2: 7}` unchanged, and the extra scan finds no edge that relaxes |
| Scenarios.PathCell | discrete_lab.py:11-65 | on the path graph, cell `[0][v]` of the Floyd–Warshall result is Bellman–Ford's distance of `v` from node 0 |
| Scenarios.PathGraphDistances | discrete_lab.py:24-37 | `0->1 (4)`, `1->2 (3)`, `0->2 (10)` from source 0 returns `{0: 0, 1: 4, 2: 7}` |
| Scenarios.PathGraphDiagonal | discrete_lab.py:42-65 | on the same graph, Floyd–Warshall gives the diagonal `[0, 0, 0]` |
| Scenarios.PathGraphRow | discrete_lab.py:42-65 | on the same graph, Floyd–Warshall gives row 0 `[0, 4, 7]`, so `dist[0][2] = 7` |
| Scenarios.UndirectedRunsOneWay | discrete_lab.py:54-55 | on an undirected generated graph there is no negative cycle and Bellman–Ford never raises. Every Floyd–Warshall cell is the shortest distance along the yielded orientation, so every cell below the diagonal is +inf |

## Left out

- The networkx classes become a node count plus the sequence of yielded `(u, v, weight)` triples. `Graphs.Valid` requires node labels `0..n-1`, because the matrix is indexed by label. This holds for every generated graph.
- `Generator.Generated`: the `random` module becomes explicit inputs, namely `pick` for `random.choice`, `flip` for the reversal coin, `keep` for the per-pair coin and `roll` for `randint`. The probabilities and `completeness` are therefore not modelled: the properties hold for every outcome.
- `Generator.Target`: `random.choice` is modelled as `pick(i) % (n - 1 - i)`. Its uniform distribution is not modelled.
- IEEE floating point. `float('inf')` is the `Inf` case of `Dist`, and all weights are integers.
- `ValueError` becomes the `NegativeCycleError` outcome rather than an exception.
- `FloydWarshall.FinalShortest`, `TriangleInequality`, `InfIffNoWalk`, `NegativeCycleShows`, `AgreesWithBellmanFord`: these require `WellFormed`, that is at most one triple per ordered pair. networkx guarantees this, but an arbitrary triple list does not.
- The `matplotlib` drawing block (`discrete_lab.py:103-119`): user interface only.
- The import-time call at `discrete_lab.py:123` and the timing benchmark at `discrete_lab.py:124-138`: side effects, wall-clock time and printing.
