# Steiner trees by shortest paths and simulated annealing

This project models the core of a Steiner-tree heuristic. The system takes an undirected
weighted graph and a set of terminal nodes. It then builds a tree that connects the
terminals at low cost, and improves that tree by local search.

The modelled parts are:

- **graph.py**: the `Graph` container, which holds a neighbour-list dictionary and an edge
  dictionary keyed by both orders of a pair. It also offers Kruskal's spanning forest.
  - `Tree` only lets leaves be deleted.
  - `SteinerTree` protects its terminals and keeps a running `cost`.
- **graph_utils.py**:
  - the union-find of Kruskal's algorithm;
  - the reading of shortest paths out of the predecessor table;
  - the path cost;
  - the H-algorithm: the complete terminal graph, then the substitution of shortest paths,
    then Kruskal, then pruning;
  - the neighbourhood move of the local search.
- **floydwarshall.cpp**: the all-pairs shortest-path tables, on flat `n*n` arrays.
- **simulannealing.py**: the annealing driver, with its acceptance rule, best-tree
  tracking, stagnation stop and cooling.

Files and modules:

| file | module | what it holds |
|---|---|---|
| `base.dfy` | `Base` | `Option`, duplicate-free lists, `list.remove` |
| `edges.dfy` | `Edges` | nodes, edges (with an `id` standing for object identity), the weight of a set of edges |
| `adjacency.dfy` | `Adjacencies` | the pair of dictionaries as a value `Adjacency`, and one pure function per graph mutation, with lemmas about them |
| `sorting.dfy` | `Sorting` | the stable sort of `list.sort(key=...)`, with its stability proved |
| `partition.dfy` | `Partition` | connectivity and acyclicity of a list of edges |
| `forests.dfy` | `Forests` | counting components of forests, and the exchange argument behind Kruskal's minimality |
| `union_find.dfy` | `UnionFinds` | the `UnionFind` class |
| `spanning.dfy` | `Spanning` | how the union-find tracks the components of the forest built so far |
| `graph.dfy` | `Graphs` | the `Graph` class and Kruskal's loop |
| `steiner.dfy` | `SteinerTrees` | the `Tree` and `SteinerTree` classes |
| `floyd_warshall.dfy` | `FloydWarshall` | the C routine on arrays, and the shortest-walk specification it meets |
| `paths.dfy` | `Paths` | `get_min_path`, `__getpath` and `get_path_cost` |
| `heuristics.dfy` | `Heuristics` | `make_tree_from_kruskal`, `HAlgorithm`, `Neighborhood` |
| `annealing.dfy` | `Annealing` | `SimulatedAnnealing` |

The classes keep the source's dictionaries as `map` fields. Each method is proved against a
pure function on the value `Adjacency`. The properties are proved about those functions, so
that the methods inherit them.

The Python methods that raise are modelled with an `ok` result or an `Outcome`.
`Ok | Crash | OutOfFuel` is used for the path recursion.

## Model

| member | source | states |
|---|---|---|
| Base.RemoveFirst | graph.py:154-155 | removes one occurrence of `x` when present (length drops by one), leaves the list alone otherwise; the multiset loses exactly one `x` |
| Base.RemoveFirstNoDup | graph.py:154-155 | on a duplicate-free neighbour list, `remove` keeps it duplicate-free and removes exactly `x` |
| Adjacencies.WithNode | graph.py:103-108 | `add_node` reports True exactly when the node was absent; the node is then present and no other entry changes; consistency and simplicity are kept |
| Adjacencies.WithEdge | graph.py:110-132 | `add_edge` refuses exactly when the same edge object is stored both ways, or the pair is linked in one direction only; otherwise it links |
| Adjacencies.Link | graph.py:126-131 | both keys of the pair now hold `e`; every other key is unchanged; each end's list gains the other end; no other list changes |
| Adjacencies.LinkEdgeSet | graph.py:126-131 | after linking, the edge set is the old one plus `e`, minus the edge that was stored under the pair, if any |
| Adjacencies.LinkConsistent | graph.py:126-131 | linking a proper edge keeps the two dictionaries consistent |
| Adjacencies.WithEdgeFresh | graph.py:110-132 | an edge on a free pair is added; both ends' degrees grow by one; the edge set gains exactly `e`; simplicity is kept |
| Adjacencies.WithEdgeReplaces | graph.py:114-131 | a different edge object on an already linked pair is still added; it overwrites the stored edge and leaves a repeated neighbour, so the graph stops being simple |
| Adjacencies.Drop | graph.py:154-160 | one end's neighbour list loses one entry, and the end is popped when the list becomes empty; other ends are untouched |
| Adjacencies.WithoutEdgeSpec | graph.py:146-164 | `WithoutEdge`, the model of `del_edge`, succeeds exactly when the pair is stored. Then both keys go, the edge set loses exactly that edge and both degrees drop by one. An end vanishes exactly when its degree was one |
| Adjacencies.HalfWithoutEdge | graph.py:149-162 | a `del_edge` that raises leaves the node dictionary alone. It may have popped the key `(u, v)` and nothing else, and every other key keeps its edge |
| Adjacencies.HalfWithoutEdgeHarmless | graph.py:149-151 | on a consistent graph, a refused `del_edge` raises before popping anything, so the graph is unchanged |
| Adjacencies.SelfLoopHalfDeleted | graph.py:152-153 | on a self-loop, `del_edge` pops the one key `(u, u)` and then raises on the second pop. The failed call has still lost the edge, while the neighbour list keeps `u` |
| Adjacencies.QueriesAgree | graph.py:92-101 | `HasEdge` (`has_edge`) holds exactly when `GetEdge` (`get_edge`) finds an edge; both are symmetric and agree with the neighbour lists `Neighbours`; a found edge joins the two nodes and is in `get_edges()` |
| Adjacencies.StoredProper | graph.py:80-83 | every edge of `EdgeSet`, the set `get_edges()` lists, is proper and stored under its own `(u, v)` |
| Adjacencies.WithoutLeafSpec | graph.py:134-144 | `WithoutLeaf`, which deletes a node of degree at most one, keeps the graph simple and removes the node. The edge reported is its only edge, if it had one, and only that edge goes |
| Adjacencies.PruneSpec | graph.py:299-304 | `Prune`, the pass of `del_useless_edges`, keeps the graph simple and only removes edges and nodes; every edge that goes had an end that is not a terminal and is gone |
| Adjacencies.PruneSkip | graph.py:303 | a node that is not a non-terminal leaf at its turn is skipped |
| Adjacencies.PruneTake | graph.py:303-304 | a non-terminal leaf at its turn is deleted |
| Adjacencies.PruneSinglePass | graph.py:299-304 | on the path 0-1-2-3 with terminal 0, the single pass in ascending-degree order leaves the non-terminal leaf 1 in place |
| Adjacencies.PruneCanDropTerminal | graph.py:156-160 | deleting a leaf can pop a terminal from the node dictionary, because `del_edge` pops isolated ends |
| Adjacencies.Path4Cut | graph.py:146-164 | deleting the last edge of the path 0-1-2-3 gives the path 0-1-2 |
| Edges.SumWeightsIsTotal | graph_utils.py:124-125 | `SumWeights`, the running sum over a duplicate-free list of edges is the weight of the set of its edges |
| Edges.SumWeightsAppend | graph_utils.py:124-125 | the running sum over two lists in a row is the sum of the two running sums |
| Edges.TotalSubset | graph.py:299-304 | removing edges with non-negative weights never raises the total weight |
| Sorting.SortBy | graph.py:174 | the result is sorted by the key and is a permutation of the input |
| Sorting.Insert | graph.py:174 | inserting into a sorted list keeps it sorted and adds exactly the new element. The new head is the lighter of the element and the old head |
| Sorting.InsertStable | graph.py:174 | the inserted element goes after every element of its own key, so the elements of each key keep their order |
| Sorting.SortByStable | graph.py:174 | the sort is stable: for every key value, the elements with that key appear in the result in their input order |
| Partition.ConnectedAppend | graph.py:176-179 | after adding an edge, two nodes are connected exactly when they were already connected, or each was connected to one end of the new edge |
| Partition.AcyclicAppend | graph.py:177-178 | adding an edge whose ends are not yet connected keeps the forest acyclic |
| Partition.EdgeConnects | graph.py:176-179 | every edge of the list connects its own ends |
| Partition.AcyclicNoDup | graph.py:176-179 | an acyclic list never repeats an edge |
| Forests.ForestClasses | graph.py:170-172 | an acyclic forest on a node set splits it into exactly as many components as there are nodes, minus the forest's edges |
| Forests.ClassesFewer | graph.py:170-172 | a forest that connects the ends of every edge of another has no more components than that other |
| Forests.Augment | graph.py:170-172 | an acyclic forest that connects the ends of every edge of another acyclic forest has at least as many edges (the exchange property of forests) |
| Forests.LighterAcyclic | graph.py:170-172 | the edges of a forest lighter than any bound still form a forest |
| Forests.SumDominated | graph.py:170-172 | when, for each `i`, at most `i` edges of `t` are lighter than the `i`-th edge of the ascending list `m`, and both lists have the same length, then `m` weighs no more than `t` |
| UnionFinds.RootIsRoot | graph_utils.py:26-31 | following `parent` from any registered object ends at a root; a root other than the object itself has a strictly higher rank |
| UnionFinds.RedirectKeepsRoots | graph_utils.py:33-35 | pointing an object straight at its root changes no object's root |
| UnionFinds.LinkRoots | graph_utils.py:44-50 | hanging root `b` under root `a` sends exactly the objects of `b`'s set to `a` |
| UnionFinds.UnionFind.constructor | graph_utils.py:14-16 | both dictionaries start empty |
| UnionFinds.UnionFind.Find | graph_utils.py:18-37 | an unknown object is registered as its own root with rank 0. A known one gets its root back, with no root of any object and no rank changed. Every object on the walk now points straight at the root, and every other object keeps its parent |
| UnionFinds.UnionFind.WalkToRoot | graph_utils.py:26-31 | the walk starts at the object, follows `parent` and ends at its root |
| UnionFinds.UnionFind.Compress | graph_utils.py:33-35 | every object on the walk points straight at the root; every object off the walk keeps its parent; no root and no rank changes |
| UnionFinds.UnionFind.Union | graph_utils.py:39-50 | the three rank cases of the union, exactly as written. Afterwards the objects of the two sets share one root and every other object keeps its root |
| Spanning.TracksFind | graph.py:177 | a lookup keeps the union-find in step with the components of the forest built so far |
| Spanning.TracksUnion | graph.py:179 | a union after adding an edge keeps the union-find in step with the enlarged forest |
| Graphs.Graph.constructor | graph.py:35-37 | a new graph is empty (and simple) |
| Graphs.Graph.AddNode | graph.py:103-108 | the new state and the result are those of `WithNode` |
| Graphs.Graph.AddEdge | graph.py:110-132 | the new state and the result are those of `WithEdge` |
| Graphs.Graph.DelEdge | graph.py:146-164 | succeeds exactly when `WithoutEdge` is defined, and the state is then its result. Otherwise the state is `HalfWithoutEdge`, the dictionaries as they stand when `del_edge` raises |
| Graphs.Graph.DelNode | graph.py:134-144 | for a node of degree at most one, the state and the removed edge are those of `WithoutLeaf` |
| Graphs.Graph.DelLeafEdge | graph.py:140 | the single `del_edge` of a leaf's edge removes the leaf and reports the edge `WithoutLeaf` names |
| Graphs.Graph.GetEdges | graph.py:80-83 | a duplicate-free list holding exactly the edges of the graph |
| Graphs.Graph.GetNodes | graph.py:72-74 | a duplicate-free list holding exactly the nodes of the graph |
| Graphs.Graph.GetMstKruskal | graph.py:170-180 | the forest holds only edges of the graph, in ascending weight. It is acyclic and connects the ends of every edge of the graph. It weighs no more than any other spanning forest of the graph, which is the minimum the docstring promises |
| Graphs.KruskalLoop | graph.py:175-179 | the loop over the sorted edges picks, in order, an acyclic forest in which every sorted edge's ends are connected. It is greedy: every edge before the `p`-th pick already has its ends connected by the first `p` picks |
| Graphs.KruskalRound | graph.py:177-179 | one round either takes the edge or skips it; it keeps the forest acyclic and in step with the union-find |
| Graphs.KruskalVisit | graph.py:177-179 | the edge is taken exactly when its ends are not yet connected by the forest |
| Graphs.FindTracked | graph.py:177 | a lookup inside the loop returns the representative, and keeps every root and the union-find's invariant |
| Graphs.KruskalStep | graph.py:177-179 | taking an edge between unconnected ends keeps the forest acyclic; either way, every edge seen so far has connected ends |
| Graphs.KruskalResult | graph.py:173-180 | the edges picked from the sorted list ascend in weight, come from the graph and connect every edge's ends |
| Graphs.GreedyStep | graph.py:177-179 | one round keeps the loop greedy, whether it takes the edge (its ends were apart) or skips it (its ends were connected) |
| Graphs.KruskalSameSize | graph.py:170-180 | every spanning forest of the graph has as many edges as the greedy forest |
| Graphs.KruskalFewerLighter | graph.py:170-180 | a spanning forest of the graph has at most `i` edges lighter than the `i`-th edge of the greedy forest |
| Graphs.KruskalMinimal | graph.py:170-180 | the greedy forest weighs no more than any spanning forest of the graph |
| SteinerTrees.Tree.constructor | graph.py:230-231 | a new tree is an empty graph |
| SteinerTrees.Tree.DelNode | graph.py:233-239 | succeeds exactly when the node has degree at most one; the state is then that of `WithoutLeaf`, and is unchanged otherwise |
| SteinerTrees.Tree.GetLeaves | graph.py:241-248 | a duplicate-free list of exactly the nodes of degree one |
| SteinerTrees.SteinerTree.constructor | graph.py:256-259 | an empty tree with no terminal and cost 0 satisfies the cost invariant |
| SteinerTrees.SteinerTree.Copy | graph.py:261-266 | the copy is fresh. It has the same edge map, terminals and cost, and its nodes are the original's or terminals. It keeps the cost invariant |
| SteinerTrees.SteinerTree.AddTerminal | graph.py:271-274 | the node is added if missing and marked terminal; the cost is unchanged and the invariant kept |
| SteinerTrees.SteinerTree.AddTerminals | graph.py:264 | marking a set of terminals adds them to the terminals and changes neither edges nor cost |
| SteinerTrees.SteinerTree.AddEdge | graph.py:276-280 | the cost grows by the weight exactly when the edge is added. On a free pair the cost invariant is kept; on a linked pair the cost counts the overwritten edge too |
| SteinerTrees.SteinerTree.DelTerminal | graph.py:282-286 | succeeds exactly when the node was a terminal, and unmarks it |
| SteinerTrees.SteinerTree.DelEdge | graph.py:295-297 | succeeds exactly when `WithoutEdge` is defined; the state is then its result and the cost drops by the given edge's weight. On failure the state is `HalfWithoutEdge` and the cost is unchanged. The terminals stay. The cost invariant is kept when the pair held no other edge object. Otherwise the cost drifts by the difference of the two weights |
| SteinerTrees.SteinerTree.DelNode | graph.py:288-293 | succeeds exactly for a non-terminal of degree at most one; the cost drops by the weight of the edge removed; the invariant is kept |
| SteinerTrees.SteinerTree.DelUselessEdges | graph.py:299-304 | visits every node once in ascending order of degree. The result is `Prune` of the old state. Terminals are kept, the cost never grows and the invariant is kept |
| SteinerTrees.SteinerTree.PruneVisit | graph.py:302-304 | deletes the node exactly when it is a non-terminal leaf at its turn |
| SteinerTrees.SortedNoDup | graph.py:300-301 | sorting the node list keeps it duplicate-free, with the same elements |
| SteinerTrees.AddedKeepsCost | graph.py:276-280 | adding a proper edge on a free pair raises the weight of the edge set by exactly the amount added to `cost` |
| SteinerTrees.ReplacedDriftsCost | graph.py:114-131 | adding a different edge on a linked pair raises `cost` by its weight, while the edge set also loses the overwritten edge, so `cost` exceeds the edge weights by that edge |
| SteinerTrees.DeletedKeepsCost | graph.py:295-297 | deleting a stored edge lowers the weight of the edge set by exactly the amount taken from `cost` |
| SteinerTrees.DeletedDriftsCost | graph.py:146-153 | deleting by an edge object other than the one stored for its pair removes the stored edge, so the edge set loses the stored edge's weight, not the given one's |
| SteinerTrees.LeafKeepsCost | graph.py:288-293 | deleting a leaf lowers the weight of the edge set by the weight of its edge |
| FloydWarshall.FloydWarshallTables | floydwarshall.cpp:5-43 | the arrays end as the initial tables after all `n` rounds of relaxation |
| FloydWarshall.InitTables | floydwarshall.cpp:11-28 | every cell satisfies `InitCell`: 0 on the diagonal, a nonzero weight copied, otherwise unreachable; `pred` is the row exactly where the distance is positive and finite, and -1 elsewhere |
| FloydWarshall.InitVisit | floydwarshall.cpp:13-25 | one cell is initialised and no other initialised cell is disturbed |
| FloydWarshall.RelaxTables | floydwarshall.cpp:31-41 | the three nested loops compute the `n` rounds of relaxation |
| FloydWarshall.RelaxVisit | floydwarshall.cpp:34-38 | one cell is relaxed through `k` |
| FloydWarshall.RelaxSpec | floydwarshall.cpp:34-38 | `Relax`, relaxing a cell, never raises a distance and no other cell changes. The cell becomes the smaller of its value and the sum through `k`. When it strictly falls, `pred` becomes `k`; otherwise nothing changes |
| FloydWarshall.RoundsDecrease | floydwarshall.cpp:31-41 | no distance ever grows over `Rounds`, the rounds of the outer loop |
| FloydWarshall.RowDecreases | floydwarshall.cpp:35-38 | no distance grows over `Row`, the innermost loop |
| FloydWarshall.RoundDecreases | floydwarshall.cpp:33-38 | no distance grows over `Round`, the two inner loops of one round |
| FloydWarshall.CellIsProduct | floydwarshall.cpp:13 | the flat index is `i*nn+j` |
| FloydWarshall.CellUnique | floydwarshall.cpp:13 | distinct cells have distinct flat indices |
| FloydWarshall.RoundsStep | floydwarshall.cpp:31-41 | after `k` rounds, cell `(i, j)` holds the least weight of a walk from `i` to `j` through intermediates below `k`, and every `pred` entry is sound |
| FloydWarshall.RelaxStep | floydwarshall.cpp:34-38 | relaxing one cell keeps the round's invariant |
| FloydWarshall.Witness | floydwarshall.cpp:31-41 | the least walk weight is attained by an explicit walk |
| FloydWarshall.ShortestOptimal | floydwarshall.cpp:31-41 | no walk through intermediates below `k` is lighter than the least walk weight |
| FloydWarshall.FinalShortest | floydwarshall.cpp:5-43 | for non-negative weights, the final distance is at most the weight of every walk, and equals the weight of one walk |
| FloydWarshall.FinalTriangle | floydwarshall.cpp:5-43 | the final distances satisfy the triangle inequality |
| FloydWarshall.RelaxTight | floydwarshall.cpp:34-38 | relaxing a cell keeps `pred` tight. A `pred` equal to the row marks a direct step of that weight. Any other `pred` splits the cell into two halves that add up to at most its distance |
| FloydWarshall.RoundsTight | floydwarshall.cpp:15-41 | `pred` is tight after the initialisation and after every round |
| FloydWarshall.TightThrough | floydwarshall.cpp:31-41 | where `pred` is tight and the triangle inequality holds, each `pred` splits the distance exactly |
| FloydWarshall.FinalThrough | floydwarshall.cpp:5-43 | in the final tables every `pred` entry splits its distance exactly: a direct step of that weight, or two halves whose distances add up to it |
| FloydWarshall.FinalDiagonal | floydwarshall.cpp:15-41 | the diagonal ends at 0 with `pred` -1; every `pred` entry lies in `-1..n-1`; a `pred` equal to the row marks a direct edge |
| Paths.MinPath | graph_utils.py:92-98 | `get_min_path` frames the result of `InnerPath` (`__getpath`). The empty path is returned exactly when the pair has no entry or a `None` entry. Otherwise the path runs from `i` to `j` with at least two nodes, over direct steps |
| Paths.InnerPathDirect | graph_utils.py:100-110 | the inner nodes `__getpath` returns, framed by the ends, form a path of direct steps |
| Paths.InnerPathFuel | graph_utils.py:100-110 | the recursion's result does not depend on the fuel once it suffices |
| Paths.PredTableExact | graph_utils.py:79-90 | `PredTable`, the `pred` dictionary read off the final tables, splits every distance exactly |
| Paths.InnerPathWeight | graph_utils.py:100-110 | on such a `pred`, the path `__getpath` returns, framed by its ends, weighs exactly the distance between them |
| Paths.MinPathWalk | graph_utils.py:92-98 | a non-empty path read off the final tables is a walk from `i` to `j` |
| Paths.MinPathWeight | graph_utils.py:92-110 | a non-empty path read off the final tables weighs exactly the final distance `dist[i][j]` |
| Paths.MinPathShortest | graph_utils.py:92-110 | for non-negative weights, a non-empty path from `get_min_path` is a walk from `i` to `j` of weight `dist[i][j]`, and no walk from `i` to `j` is lighter |
| Paths.MinPathFollowsEdges | graph_utils.py:79-110 | on the tables Floyd-Warshall computes, every step of a path read out of `pred` is an edge of the input matrix |
| Paths.PathEdges | graph_utils.py:117-118 | when defined, one edge per step |
| Paths.PathEdgesSpec | graph_utils.py:117-118 | `get_edge` finds an edge for each step exactly when every step is linked, and then the `m`-th edge is the one stored for the `m`-th step |
| Paths.PathCostDefined | graph_utils.py:116-118 | `PathCost` is defined exactly for paths of two nodes or more whose steps are all linked (`reduce` raises on an empty list) |
| Paths.PathCostJoin | graph_utils.py:116-118 | the cost of two joined paths is the sum of their costs |
| Paths.PathCostNonNegative | graph_utils.py:116-118 | on a consistent graph, a path costs at least 0 |
| Heuristics.MakeTreeFromKruskal | graph_utils.py:121-127 | a fresh Steiner tree with the given terminals, whose edges are exactly Kruskal's forest of the graph and whose cost is their sum. It keeps the cost invariant and is drawn from the graph |
| Heuristics.InsertForestEdge | graph_utils.py:124-125 | adding the next forest edge keeps the invariant and extends the tree's edges and cost by it |
| Heuristics.Visit | graph_utils.py:232-238 | the marked set grows by the root; every newly marked node is reachable from the root, and the marked set is closed under neighbours |
| Heuristics.Subtree | graph_utils.py:226-229 | exactly the nodes reachable from the root |
| Heuristics.ClosedKeepsWalk | graph_utils.py:236-238 | a walk that starts in a neighbour-closed set stays in it |
| Heuristics.CompleteTerminalGraph | graph_utils.py:160-166 | succeeds exactly when every pair of different terminals has a costed shortest path. The graph then links every such pair, and each edge weighs its path's cost |
| Heuristics.AddShortestEdge | graph_utils.py:163-165 | one pair succeeds exactly when its shortest path is costed; the pair is then linked and no pair is unlinked |
| Heuristics.AddLabelled | graph_utils.py:165 | adding a labelled edge keeps the complete graph consistent and every edge labelled |
| Heuristics.GetSteinerTree | graph_utils.py:147-158 | succeeds exactly when every terminal pair is costed. The tree is then fresh and valid, with exactly the given terminals. Its edges are graph edges, taken from an acyclic forest |
| Heuristics.SubstShortestPaths | graph_utils.py:168-175 | fails exactly when some forest edge's shortest path cannot be read out or has a step that is not a graph edge. Otherwise the tree is simple and drawn from the graph. It links every step of every path and nothing else |
| Heuristics.AddPath | graph_utils.py:171-174 | one path is added exactly when each of its steps is a graph edge |
| Heuristics.AddStep | graph_utils.py:173-174 | one step is added exactly when it is a graph edge. The tree then gains exactly that edge and loses nothing |
| Heuristics.AddStored | graph_utils.py:173-174 | adding an edge of the graph to a simple sub-graph keeps it a simple sub-graph that gains exactly that edge |
| Heuristics.Reconnect | graph_utils.py:202-212 | the search succeeds exactly when every candidate pair is costed and one beats the bound. The path kept is then the shortest path of a candidate pair. It is cheaper than the bound and no dearer than any other candidate |
| Heuristics.CutCopy | graph_utils.py:193-199 | the copy loses exactly the removed edge and its weight, and keeps both of its ends and the terminals |
| Heuristics.AddPathToTree | graph_utils.py:214-217 | the tree gains exactly the graph edges of the path's steps and keeps the cost invariant |
| Heuristics.Rebuild | graph_utils.py:219-221 | Kruskal then pruning gives a fresh valid tree with the same terminals, using only edges of the tree it started from |
| Heuristics.Neighbourhood | graph_utils.py:181-223 | the cut is the tree minus the chosen edge. The move succeeds exactly when every candidate pair has a costed shortest path and one of them beats the cut's cost. It then picks the cheapest such pair. The new tree is valid, keeps the terminals and uses only the cut's edges and the graph edges of that path |
| Annealing.Step | simulannealing.py:47-76 | a zero difference changes nothing. At temperature 0, the first nonzero difference and every dearer neighbour raise `ZeroDivisionError` and change nothing. `k` is fixed by the first nonzero difference. A cheaper neighbour is always accepted, a dearer one exactly when the Metropolis test says so. The best cost only falls, and only to a strictly cheaper accepted cost. The run stops exactly on an overflow or when `count` reaches `stop`; `count` resets on a large change |
| Annealing.Scale | simulannealing.py:53-54 | after an iteration there is a scale `k`, and once there is one it never changes |
| Annealing.Stagnate | simulannealing.py:69-76 | only `count` moves: it grows by one on a change under `percent` of the current cost and is reset otherwise. The run returns exactly when the grown count reaches `stop` |
| Annealing.RunKeepsBest | simulannealing.py:37-61 | along a run that starts with the best tree equal to `current`, the best cost is one of the costs `current` took, and no dearer than any of them or than the final `current` |
| Annealing.Cooled | simulannealing.py:40-77 | with no cooling the temperature stays `t_0`; with `0 <= alfa <= 1` it stays between 0 and `t_0`. It is 0 throughout when `t_0` is 0, and from the second stage on when `alfa` is 0 |
| Annealing.SimulatedAnnealing.constructor | simulannealing.py:10-23 | the settings are stored and there is no best tree yet |
| Annealing.SimulatedAnnealing.Explore | simulannealing.py:45 | a successful move gives a fresh valid tree with the same terminals, drawn from the graph |
| Annealing.SimulatedAnnealing.Update | simulannealing.py:47-76 | `current`, the best tree and the counters follow `Step`, and the loop invariant is kept |
| Annealing.SimulatedAnnealing.GetMinSteinerTree | simulannealing.py:25-78 | fails when the H-algorithm cannot run. On success the trials form a run from the H-algorithm's tree, and the tree returned is `self.optimal`. It is valid, has exactly the given terminals and is drawn from the graph. It is the starting tree or strictly cheaper, and its cost is the least of all costs `current` took. No trial raised. At most `l1*l2` neighbours are evaluated, and exactly that many unless the run returned early |
| Annealing.SimulatedAnnealing.Anneal | simulannealing.py:37-78 | the two loops from a valid starting tree. On success they give the same guarantees, and the starting tree is left valid |
| Annealing.SimulatedAnnealing.Stage | simulannealing.py:44-76 | one temperature stage evaluates at most `l2` neighbours, exactly `l2` unless the run returns, keeps the loop invariant and extends the run by trials of this stage |
| Annealing.SimulatedAnnealing.Evaluate | simulannealing.py:45-76 | one iteration adds one trial whose move is `Step`'s; unless it raised, the loop invariant is kept and the run is extended |

## Left out

- `Graph.copy`, `get_node`, `read`, `write`, `draw`, `__str__`, `GraphGen`, the scripts
  `stein.py` and `teste.py`, and all printing and timing: these are input/output and
  instance generation, outside the core.
- The SWIG marshalling in `FloydWarshall.__init__` (graph_utils.py:55-90), which moves
  the weights into C arrays, renames nodes to indices and back, and builds the `dist` and
  `pred` dictionaries. The Floyd-Warshall tables take
  nodes as the indices `0..n-1`. The `pred` dictionary is a parameter of the heuristics.
  `Paths.PredTable` shows how it is read off the tables, with `-1` as `None`.
- The `memset` calls in floydwarshall.cpp:8-9: every cell they clear is overwritten by the
  initialisation loop.
- Floating point: weights are reals and unreachable is `Inf`. `INFINITY/2` is `+inf` in
  IEEE arithmetic, so the model reads it as `Inf`. Rounding is not modelled. In
  particular a product `k * t` that underflows to 0 after many coolings is not seen as a
  division by zero; only an exact temperature of 0 is.
- `math.log` and `math.exp`: the scale `k` is kept as the pair (first nonzero delta,
  temperature) it is computed from. The Metropolis test is an oracle `draw` that also reports
  `OverflowError`.
- Randomness: `random.choice` of the edge to cut is an oracle `pick` over the tree's edge
  list, and `random.random()` lives inside `draw`. `random.seed()` is not modelled.
- Paths.MinPath: no lemma bounds the fuel that suffices on the final tables, so running
  out of fuel is a failure the source does not have. `Paths.MinPathShortest` speaks of the
  path once one is returned. How the matrix `adj` is built from the graph is the
  marshalling above and is not modelled, so the walks are over `adj`, not over the graph.
- `Paths.InnerPath`: the `__getpath` recursion takes a `fuel` bound. Running out of fuel is
  reported as a failure, like the `TypeError` the source raises on a half-path of `None`;
  callers see both as `ok == false`.
- Graphs.Graph.DelNode: models only nodes of degree at most one, the only case `Tree` and
  `SteinerTree` let through. Deleting a node of higher degree in a plain `Graph` is not
  modelled.
- SteinerTrees.SteinerTree.Copy: requires the tree to be simple, as every tree built by the
  heuristics is. It states the copy's edge map exactly, but not its neighbour-list order,
  and not that isolated non-terminal nodes are dropped.
- SteinerTrees.SteinerTree.AddEdge: the cost invariant is kept only when the pair is free.
  `SteinerTrees.ReplacedDriftsCost` states what happens otherwise.
- UnionFinds.UnionFind.Union: requires `parent[x]` and `parent[y]` to be roots. That is
  how Kruskal's loop calls it, right after looking both up. The source reads
  `parent[x]` without finding the root.
- Heuristics.Neighbourhood: requires the tree to be drawn from the graph, which holds for
  every tree the driver passes. When no candidate pair beats the cut's cost, the source
  slices `None` and raises; the model reports `ok == false`.
- Heuristics.GetSteinerTree: does not state that the tree connects the terminals. For two
  or more terminals it does, because the pruning pass only deletes non-terminal leaves and
  so never cuts the path between two terminals. Proving it would need a connectivity
  invariant through the path substitution, Kruskal's forest of the result and the pruning
  pass, none of which the model carries. The approximation bound `2(1 - 1/l)` is not
  stated either.
- Heuristics.GetSteinerTree: the input graph is assumed to hold no self-loop and no
  negative weight (`requires Consistent(graph.State())`, whose edges are all `Proper`).
  `add_edge` stores a self-loop and a negative weight if asked, and the instance reader
  passes on whatever the file lists. The graphs `GraphGen` builds have neither: it links
  only distinct nodes, with integer weights of at least 1 (graph_utils.py:261-264).
  Shortest paths never step from a node to itself, so a self-loop is never read by the
  heuristics; but the model's graph theory (consistency, simplicity, the tree's cost invariant) is
  stated for proper edges only. Under negative weights the shortest-walk properties of
  the Floyd-Warshall tables do not hold at all.
- Heuristics.Neighbourhood: the same assumption on the input graph: no self-loop and no
  negative weight.
- Annealing.SimulatedAnnealing.GetMinSteinerTree: the same assumption on the input graph:
  no self-loop and no negative weight. It is inherited from the H-algorithm and the
  neighbour move. The same holds for the members of `Heuristics` and `Annealing` that
  take the input graph: `CompleteTerminalGraph`, `SubstShortestPaths`, `AddPath`,
  `AddPathToTree`, `Rebuild`, `Explore`, `Anneal`, `Stage` and `Evaluate`.
- Annealing.SimulatedAnnealing.GetMinSteinerTree: a failed neighbour move, and the
  `ZeroDivisionError` of a temperature of 0, end the run with `ok == false`, where the
  source raises. `ok` is characterised only by its
  consequences and by the H-algorithm's failure.

## Code against its documentation

The model follows the code wherever it departs from its own docstrings.

- `Neighborhood.get` says that afterwards every non-terminal node has degree at least two
  (graph_utils.py:186-190). `del_useless_edges` makes a single pass in ascending order
  of degree (graph.py:299-304).
  - It is not repeated until every leaf is a terminal. `Adjacencies.PruneSinglePass`
    shows a non-terminal leaf that survives.
  - So a second call can still remove edges; the pass is not idempotent.
- `SteinerTree` keeps a total `cost` (graph.py:251-254). It equals the weight of the
  edges only while each edge is added on a free pair and deleted by the object stored
  for it.
  - `SteinerTree.add_edge` on an already linked pair overwrites the stored edge but adds
    the full weight (`SteinerTrees.ReplacedDriftsCost`).
  - `SteinerTree.del_edge` by another edge object on a linked pair removes the stored
    edge but subtracts the given weight (`SteinerTrees.DeletedDriftsCost`).
- A `SteinerTree` "must have" its terminal nodes (graph.py:251-252), but terminals need
  not stay nodes of the tree. `del_edge` pops an end that becomes isolated, even a
  terminal (`Adjacencies.PruneCanDropTerminal`). `Neighborhood.get` re-adds both ends of
  the cut edge for that reason.
- `del_edge` is documented as removing the given edge (graph.py:147-148). On a self-loop
  it pops the one key and then raises on the second pop, leaving the graph half changed
  (`Adjacencies.SelfLoopHalfDeleted`).
- `get_mst_kruskal` is documented as giving a minimum spanning tree (graph.py:171). On a
  disconnected graph it gives a spanning forest; `Graphs.KruskalMinimal` proves that
  forest minimal among spanning forests.
- `get_min_path` returns an empty path only when the pair's own `pred` entry is missing
  or `None`. A missing entry deeper in the recursion raises `TypeError`.
- The stagnation test compares `|delta|` with `percent` of the cost of `current` after
  the acceptance decision, as the code does.
