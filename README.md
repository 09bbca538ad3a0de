# Critical path of a task dependency graph

A Dafny model of the critical-path computation in `Trabalho_Pratico_2.py`. Tasks (course
units) are read as records with a code, a name and a `;`-separated list of the codes they
depend on. The program does four things:

- builds a directed graph with one edge `dependency -> task` of weight 1 per dependency;
- from every task without prerequisites (in-degree 0), runs a bounded Bellman-Ford relaxation
  that maximises distances;
- keeps the start whose farthest task is strictly farthest, and walks the predecessor links
  back from that task;
- reports the names along that path and a duration of the distance plus one.

The model has six modules:

- `Wrappers` (`wrappers.dfy`): `Option` and `Result`, standing for Python's `None` and raised
  exceptions.
- `DiGraph` (`digraph.dfy`): the part of a networkx `DiGraph` the code relies on.
  - Nodes are kept in insertion order.
  - A node carries a `nome` only when a record declared it.
  - Successors are kept in insertion order.
  - `add_node` and `add_edge` are modelled as networkx defines them.
  - Edges are iterated node by node.
  - A topological numbering (`TopoRank`) stands for "acyclic". A graph with one has no cycle
    (`TopoRankAcyclic`); that every acyclic graph has one is the standard fact assumed, not
    proved.
- `GraphBuilder` (`builder.dfy`): the record loop of `construir_grafo`. It includes the
  `split(';')` of the dependency field.
  - `Build` is the loop.
  - `BuildFrom` is its specification.
- `Relaxation` (`relaxation.dfy`): `bellman_ford`.
  - `float('-inf')` is the `NegInf` case of `Dist`.
  - `BellmanFord` and `RelaxPass` are the two nested loops.
  - They are proved equal to `Run`, which is `|V| - 1` folds of `RelaxAll` over the edge
    sequence.
- `Reconstruction` (`reconstruction.dfy`): `reconstruir_caminho`.
  - The loop stops on any falsy code: `None` or `""`.
  - Where the Python loop would never stop, the method returns `Diverges`.
- `CriticalPath` (`critical_path.dfy`): `calcular_caminho_critico`.
  - `ComputeCriticalPath` and its loops are proved equal to `CriticalPathOf`.
  - `CriticalPathOf` scans the candidates of the starts.
  - `Outcome` has four cases:
    - the exception for a missing start;
    - a run that never ends;
    - the `KeyError` of a nameless node;
    - the returned names and duration.

`wrappers.dfy` holds the `Option` and `Result` types.

## Model

| member | source | states |
|---|---|---|
| DiGraph.AddNamedNode | Trabalho_Pratico_2.py:18 | the code is appended only if new, its name is set or overwritten, and the edges are unchanged |
| DiGraph.AppendNew | Trabalho_Pratico_2.py:18 | a node is appended at the end only when it is new; the existing nodes keep their places, and no node is listed twice |
| DiGraph.Appended | Trabalho_Pratico_2.py:13-22 | appending codes one by one keeps the existing nodes in front and yields exactly them and the codes |
| DiGraph.AppendedConcat | Trabalho_Pratico_2.py:13-22 | appending two lists of codes in turn gives the same order as appending their concatenation |
| DiGraph.AddEdge | Trabalho_Pratico_2.py:22 | a missing `u`, then a missing `v`, is appended as a nameless node, after the existing nodes and once each; exactly the edge `u -> v` is added |
| DiGraph.AddEdgeNoRepeats | Trabalho_Pratico_2.py:22 | adding an edge that is already present does not store it twice, and no node is listed twice |
| DiGraph.AppendSuccNoRepeats | Trabalho_Pratico_2.py:22 | appending a successor not yet listed keeps every successor list free of repeats |
| DiGraph.Edges | Trabalho_Pratico_2.py:35 | the edge sequence holds exactly the graph's edges, each once when no edge is stored twice |
| DiGraph.EdgesOrder | Trabalho_Pratico_2.py:35 | the edges come node by node in insertion order, and, where no edge is stored twice, the edges leaving one node come in the insertion order of its successors; this order decides the predecessor a tie records |
| DiGraph.EdgesFromDistinct | Trabalho_Pratico_2.py:35 | distinct nodes with repeat-free successor lists give an edge sequence without repeats |
| DiGraph.ReachedFromSource | Trabalho_Pratico_2.py:54-57 | on an acyclic graph every node is reached from some node of in-degree 0, so a nonempty acyclic graph has a start |
| DiGraph.TopoRankAcyclic | Trabalho_Pratico_2.py:34 | a graph with a topological numbering has no cycle, which is the input the bounded rounds are meant for |
| DiGraph.EdgePathReaches | Trabalho_Pratico_2.py:46-48 | an edge path of `k + 1` nodes is a walk of `k` edges from its first node to its last |
| GraphBuilder.Split | Trabalho_Pratico_2.py:16 | `split(';')` gives at least one piece, and no piece contains `;` |
| GraphBuilder.Dependencies | Trabalho_Pratico_2.py:16 | an empty field gives no dependency; any other field is split at every `;`: at least one piece, none containing `;`, and the pieces joined by `;` give the field back |
| GraphBuilder.JoinSplit | Trabalho_Pratico_2.py:16 | joining the pieces of a split with `;` gives the original string |
| GraphBuilder.SplitJoin | Trabalho_Pratico_2.py:16 | splitting pieces joined by `;`, none containing `;`, gives the pieces back |
| GraphBuilder.AddRecord | Trabalho_Pratico_2.py:14-22 | one record adds its code and its dependencies as nodes, sets the code's name, and adds exactly the edges `dep -> code` |
| GraphBuilder.AddDependenciesOrder | Trabalho_Pratico_2.py:21-22 | the dependencies are appended to the nodes in the order listed, each at its first mention |
| GraphBuilder.AddDependencyOrder | Trabalho_Pratico_2.py:22 | one `add_edge(dep, codigo)` appends `dep` unless it is already a node; the code already is one |
| GraphBuilder.AddRecordOrder | Trabalho_Pratico_2.py:14-22 | one record appends its code, then its dependencies in the order listed, each at its first mention, after the old nodes |
| GraphBuilder.BuildOrder | Trabalho_Pratico_2.py:13-22 | the nodes are in the order the codes and dependencies are first mentioned, record by record |
| GraphBuilder.MentionsDeclared | Trabalho_Pratico_2.py:13-22 | a code is mentioned exactly when some record has it as its code or lists it as a dependency |
| GraphBuilder.Build | Trabalho_Pratico_2.py:5-24 | the record loop produces the graph that folding `AddRecord` over the records in order gives |
| GraphBuilder.AddEdgesTo | Trabalho_Pratico_2.py:21-22 | the inner loop adds one edge per listed dependency, in order |
| GraphBuilder.BuildNoRepeats | Trabalho_Pratico_2.py:13-22 | however codes and dependencies repeat, no node is listed twice and no edge is stored twice |
| GraphBuilder.BuildNodes | Trabalho_Pratico_2.py:13-22 | the nodes are exactly the codes of the records and the dependencies they list |
| GraphBuilder.BuildNames | Trabalho_Pratico_2.py:13-18 | a node has a name exactly when some record has its code, and the name is that of the last such record |
| GraphBuilder.BuildEdges | Trabalho_Pratico_2.py:13-22 | `u -> v` is an edge exactly when some record with code `v` lists `u` as a dependency |
| GraphBuilder.LastNameFound | Trabalho_Pratico_2.py:18 | the last record's name is found exactly when some record carries the code, and some such record has that name |
| GraphBuilder.ImplicitNodeUnnamed | Trabalho_Pratico_2.py:16-22 | a dependency that no record declares is a node without a name |
| Relaxation.Init | Trabalho_Pratico_2.py:29-31 | the start is at 0, every other node at -inf, and no node has a predecessor |
| Relaxation.RelaxEdge | Trabalho_Pratico_2.py:37-39 | only `v` changes: it becomes the larger of its distance and `dist[u] + 1`; when it rises, `u` becomes its predecessor; on a tie nothing changes |
| Relaxation.Run | Trabalho_Pratico_2.py:27-41 | the labels `bellman_ford` returns are keyed by exactly the nodes, and the start is never below 0 |
| Relaxation.BellmanFord | Trabalho_Pratico_2.py:27-41 | the nested loops return the labels of `|V| - 1` rounds from the initial labels, and perform exactly `(|V| - 1) * |E|` comparisons |
| Relaxation.RelaxPass | Trabalho_Pratico_2.py:35-39 | one round relaxes every edge in iteration order with the strict test, one comparison per edge |
| Relaxation.RelaxAllStep | Trabalho_Pratico_2.py:35-39 | relaxing one more edge of the iteration order extends the round by exactly that edge |
| Relaxation.RelaxEdgeKeeps | Trabalho_Pratico_2.py:37-39 | one relaxation keeps the invariant: finite distances are walk lengths, an unlinked node keeps its initial distance, and each predecessor is an in-neighbour at most one closer |
| Relaxation.RelaxEdgeMonotone | Trabalho_Pratico_2.py:37-38 | one relaxation never lowers a distance |
| Relaxation.RelaxAllMonotone | Trabalho_Pratico_2.py:35-39 | a round never lowers a distance |
| Relaxation.RelaxAllReaches | Trabalho_Pratico_2.py:35-39 | after a round, the target of each edge is at least one more than its source was before the round |
| Relaxation.RoundsMonotone | Trabalho_Pratico_2.py:34-39 | later rounds never lower a distance |
| Relaxation.RoundsReach | Trabalho_Pratico_2.py:34-39 | after `d` rounds, a node reached by a walk of `d` edges is at least `d` |
| Relaxation.RunInvariant | Trabalho_Pratico_2.py:29-39 | the result keeps the invariant: each finite distance is a walk length from the start, a node without predecessor keeps its initial value, and each predecessor is an edge source at most one closer |
| Relaxation.RunUnreachable | Trabalho_Pratico_2.py:29-39 | a node that no walk from the start reaches stays at -inf |
| Relaxation.RunCoversWalk | Trabalho_Pratico_2.py:34-39 | on an acyclic graph the rounds cover every walk from the start |
| Relaxation.RunLongestPath | Trabalho_Pratico_2.py:34-39 | on an acyclic graph a distance is -inf exactly when the node is unreachable, and otherwise it is the length of a walk that no walk from the start exceeds |
| Relaxation.RunPredTight | Trabalho_Pratico_2.py:37-39 | on an acyclic graph each recorded predecessor is exactly one closer than its node |
| Relaxation.LinkTight | Trabalho_Pratico_2.py:37-39 | where every walk is covered, a predecessor is exactly one closer than its node |
| Reconstruction.TraceOf | Trabalho_Pratico_2.py:44-49 | the loop's outcome from `end`: a finished path is the chain back to a falsy predecessor, and the loop diverges only when no such chain exists |
| Reconstruction.ReconstructPath | Trabalho_Pratico_2.py:44-49 | the loop returns the unique chain of links from the end back to a falsy predecessor, which repeats no node; it diverges exactly when no such chain exists |
| Reconstruction.TraceOfTrace | Trabalho_Pratico_2.py:44-49 | once a trace is found, it is what the loop returns |
| Reconstruction.ConsChain | Trabalho_Pratico_2.py:47-48 | prepending the current predecessor extends the chain and keeps it free of repeats |
| Reconstruction.CycleClosed | Trabalho_Pratico_2.py:46-48 | when the current predecessor is already on the path, the loop never reaches a falsy code |
| Reconstruction.ClosedNoTrace | Trabalho_Pratico_2.py:46-48 | a set of truthy codes that holds the end and that the links never leave admits no trace |
| Reconstruction.TraceDistinct | Trabalho_Pratico_2.py:46-48 | a finished path repeats no node |
| Reconstruction.TraceUnique | Trabalho_Pratico_2.py:46-48 | the links determine the path: there is at most one |
| Reconstruction.TraceFollowsEdges | Trabalho_Pratico_2.py:44-49 | when every link follows an edge, consecutive entries of the path are joined by edges |
| Reconstruction.TraceExists | Trabalho_Pratico_2.py:44-49 | when every link follows an edge of an acyclic graph, the loop finishes |
| CriticalPath.StartNodes | Trabalho_Pratico_2.py:54 | the start list holds exactly the nodes of in-degree 0 |
| CriticalPath.ArgMax | Trabalho_Pratico_2.py:68 | `max(dist, key=dist.get)` picks a node of largest distance, and every earlier node is strictly smaller: the first maximum wins |
| CriticalPath.EndOf | Trabalho_Pratico_2.py:68 | the end node is the first node, in node order, whose distance no node exceeds |
| CriticalPath.NamesOf | Trabalho_Pratico_2.py:74 | mapping to names succeeds exactly when every node on the path is named, giving their names in order; otherwise it fails on the first nameless node |
| CriticalPath.Step | Trabalho_Pratico_2.py:69-71 | a start replaces the best so far only with a strictly greater distance, which it then holds together with its reconstructed path; the kept distance never falls and is at least the start's; the loop stops for good when that reconstruction diverges |
| CriticalPath.Report | Trabalho_Pratico_2.py:74-76 | the result is the names along the path, one per entry in order, with the distance plus one, exactly when every entry is named; otherwise it fails on a nameless entry of the path |
| CriticalPath.CriticalPathOf | Trabalho_Pratico_2.py:52-76 | the driver raises exactly when no node has in-degree 0, and a returned duration is at least 1 |
| CriticalPath.ScanNonnegative | Trabalho_Pratico_2.py:61-71 | the kept distance never drops below its initial 0 |
| CriticalPath.ComputeCriticalPath | Trabalho_Pratico_2.py:52-76 | the driver raises when no start exists, never ends when a kept reconstruction diverges, and otherwise reports the names along the kept path (or the first missing name) with the kept distance plus one |
| CriticalPath.ScanStarts | Trabalho_Pratico_2.py:60-71 | the loop over the starts ends with the best-so-far that scanning their candidates in order gives |
| CriticalPath.TryStart | Trabalho_Pratico_2.py:65-71 | one start replaces the best so far only when its end node's distance is strictly greater, and only then is the path reconstructed |
| CriticalPath.RunPredClosed | Trabalho_Pratico_2.py:31-39 | every predecessor the relaxation records is itself a node |
| CriticalPath.ScanStaysNone | Trabalho_Pratico_2.py:64-71 | once a reconstruction runs forever, the whole loop does |
| CriticalPath.ScanChoice | Trabalho_Pratico_2.py:60-71 | the kept distance is at least 0 and at least every start's; a kept distance of 0 goes with the empty path; otherwise the path comes from the first start reaching the maximum, because every earlier start is strictly below it |
| CriticalPath.NoEdgesResult | Trabalho_Pratico_2.py:60-76 | a nonempty graph without edges gives the empty path and duration 1 |
| CriticalPath.NoEdgesStart | Trabalho_Pratico_2.py:54-57 | without edges a nonempty graph has a start node |
| CriticalPath.NoEdgesPeak | Trabalho_Pratico_2.py:65-68 | without edges no start reaches beyond distance 0 |
| CriticalPath.RunTrace | Trabalho_Pratico_2.py:65-71 | on an acyclic graph, reconstruction after a relaxation always finishes |
| CriticalPath.ChainDist | Trabalho_Pratico_2.py:46-48 | along a chain of links that are each exactly one closer, the distance drops by one per entry |
| CriticalPath.TraceFromStart | Trabalho_Pratico_2.py:44-49 | on an acyclic graph without the empty code, the path back from a node at distance `n` starts at the start and has `n + 1` entries |
| CriticalPath.KeptPath | Trabalho_Pratico_2.py:65-71 | on an acyclic graph without the empty code, a kept path starts at its start, follows edges, repeats no node, and has one entry more than its distance |
| CriticalPath.PeakCandidate | Trabalho_Pratico_2.py:64-71 | the kept distance and path are those of the relaxation and reconstruction of the start they come from |
| CriticalPath.KeptWalk | Trabalho_Pratico_2.py:65-71 | on an acyclic graph without the empty code, a kept path of positive distance from a start is a walk of that many edges and contains an edge |
| CriticalPath.PeakCoversWalk | Trabalho_Pratico_2.py:65-68 | on an acyclic graph, no walk from a start is longer than the distance of that start's end node |
| CriticalPath.WalkFromStart | Trabalho_Pratico_2.py:54 | on an acyclic graph every walk extends back to one at least as long from a start |
| CriticalPath.WalkBounded | Trabalho_Pratico_2.py:60-71 | no walk of an acyclic graph is longer than a bound that every start's distance meets |
| CriticalPath.ScanFinishes | Trabalho_Pratico_2.py:64-71 | when every reconstruction finishes, so does the loop |
| CriticalPath.DagScan | Trabalho_Pratico_2.py:54-71 | a nonempty acyclic graph has a start, and the loop over the starts finishes |
| CriticalPath.DagLongest | Trabalho_Pratico_2.py:60-71 | on an acyclic graph without the empty code, the kept path is a longest path: its distance bounds every walk, it starts at a start node, is a walk of that many edges, repeats no node, and is empty exactly when there is no edge |
| CriticalPath.DagCriticalPath | Trabalho_Pratico_2.py:52-76 | on a nonempty acyclic graph without the empty code, the driver reports a longest path (or fails only on a missing name), and with an edge the number of names equals the duration |

## Left out

- Opening and parsing the CSV file (lines 9-10). The builder receives the records already
  parsed, and `Record` holds the three fields it reads.
- The networkx library. `DiGraph.Graph` models only what the code uses: node order, the
  `nome` attribute, and successor order. Edge attributes are left out, because every edge has
  `peso=1` and the relaxation adds 1.
- The interactive `main` loop (lines 79-106): prompts, prints, the `'0'` sentinel, and turning
  exceptions into messages.
- Floating point. `float('-inf')` is only a sentinel, modelled as `Dist.NegInf`; finite
  distances are integers.
- Correctness on cyclic graphs. On a cycle the relaxation still runs `|V| - 1` rounds (the
  model states what those rounds compute). The lemmas about longest paths assume a
  topological numbering.
- A reconstruction that never ends is not modelled as a loop. `Reconstruction.ReconstructPath`
  returns `Diverges`, and the driver reports `Hangs`. This is exactly the case where the links
  run into a cycle. An example: edges `A -> B`, `B -> C` and `C -> B` with start `A` leave `B`
  and `C` each other's predecessors.
- The lemmas about the kept path assume that `""` is not a code. `Dependencies` turns a field
  such as `"A;"` into an empty code, and reconstruction stops at such a code as if it were
  `None`. `ReconstructPath` and the driver model that behaviour; the longest-path theorems
  exclude it.
- CriticalPath.StartNodes: the contract states which nodes are starts, not that they keep node
  order. The order is that of the body, which filters `g.nodes` in sequence.
- Relaxation.BellmanFord: the comparison count is a ghost out-parameter. The Python code
  counts nothing; the count only states how many comparisons the loops make.
- Names are never defaulted. A node created only by `add_edge` has no `nome`, and line 74
  raises `KeyError` for it; the model reports `MissingName`.
- Termination: the relaxation always ends, after `|V| - 1` rounds. Reconstruction need not
  end on a cyclic graph (the `Diverges` example above).
