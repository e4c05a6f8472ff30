# SomGraph, modelled in Dafny

`SomGraph` (src/som.h) is the topology graph behind a growing-neural-gas /
self-organising-map learner. A node table maps an unsigned id to a unit that
carries an accumulated `error`; an edge vector holds undirected adjacencies
`Edge{n1, n2, age}`. The learner grows the graph (`add_node`, `add_edge`),
ages and prunes it (`increment_age`, `purge_old_edges`, `purge_orphans`),
reads and writes the two statistics, and picks a winner unit (`find_wpu`).

The model is a state transformer. `SomGraph.Graph` holds `nodes: map<nat, Node>`
and `edges: seq<Edge>`. Each public method of the class is one atomic step
from a graph to a graph. A thrown `std::runtime_error` becomes an `Err` result
that leaves the graph unchanged. `SomGraph.Valid` is the structural invariant:
every edge endpoint is a live node, there are no self-loops, and each
unordered pair has at most one edge. The iteration order of the
`unordered_map` is a parameter `order` holding every key exactly once
(`SomGraph.IsOrder`). Only `purge_orphans` and `find_wpu` depend on it.

Files:
- `som_graph.dfy` (module `SomGraph`): the state and the invariant. It also holds the pair scan
  that `add_edge`, `remove_edge`, `get_edge_age` and `set_edge_age` share, the neighbour scan,
  and the pigeonhole fact behind `add_node`.
- `erase_loop.dfy` (module `EraseLoop`): the loop `for (i...) if (match) erase(i)`. `SkipFilter`
  is what that loop does. `Filter` is the stable "remove every match" pass it is documented as.
  `EraseSkipping` is the loop itself, with the same index behaviour.
- `som_ops.dfy` (module `SomOps`): one member per operation of the class.
- `som_props.dfy` (module `SomProps`): lemmas that relate several operations, plus the findings.

The count accessors `get_node_count` and `get_edge_count` are `SomGraph.NodeCount` and
`SomGraph.EdgeCount` (`|nodes|`, `|edges|`). The other contracts use them.

Four behaviours of the code are easy to miss; the model follows the code:
- `find_wpu` always takes the first node in iteration order, even one with a negative
  error. After that, a node replaces the choice only when its error `e` satisfies
  `0 <= e < min_e`. So a negative first error blocks every other node.
- On an empty table `find_wpu` returns `-1` converted to `unsigned`, that is 0xFFFFFFFF.
- `get_node_error` and `set_node_error` on an unknown id insert a zero-error node, through
  `operator[]`.
- `purge_old_edges` and `remove_node` erase at index `i` and then still increment `i`
  (see Findings).

## Model

| member | source | states |
|---|---|---|
| SomGraph.FindEdgeFrom | src/som.h:100-104 | the pair scan from index `from` returns the first index whose edge joins the pair in either endpoint order; it returns nothing exactly when no later edge joins it |
| SomGraph.FindEdge | src/som.h:188-193 | the first edge joining the pair, or none exactly when no edge joins it |
| SomGraph.NeighboursIn | src/som.h:138-143 | `m` is listed iff some edge joins `n` and `m`; the list is empty iff no edge touches `n` |
| SomGraph.RangeInKeys | src/som.h:80-85 | if every id below `n` is in the table, the table has at least `n` entries (pigeonhole) |
| EraseLoop.Filter | src/som.h:147-149 | the documented pass: the result holds exactly the input edges the criterion does not erase |
| EraseLoop.FilterIsSubseq | src/som.h:147-149 | the documented pass keeps the kept edges in their original order |
| EraseLoop.SkipFilter | src/som.h:152-155 | the exact result of the erase-then-`i++` loop (the same loop as src/som.h:66-68): a matching edge is erased and the next edge is kept unexamined; the result is no longer than the input and holds only input edges |
| EraseLoop.SkipFilterIsSubseq | src/som.h:152-155 | the erase-then-`i++` loop leaves an order-preserving subsequence of the edges |
| EraseLoop.SkipFilterKeepsSurvivors | src/som.h:152-155 | every edge the criterion spares survives the loop, in order, and none is added |
| EraseLoop.SkipFilterNoAdjacent | src/som.h:66-68 | if no two consecutive edges both match, the loop removes every matching edge |
| EraseLoop.SkipFilterNoMatch | src/som.h:176-177 | if nothing matches, the loop leaves the edge vector unchanged |
| EraseLoop.EraseSkipping | src/som.h:152-155 | the while loop with the source's index behaviour computes `SkipFilter`: a subsequence that keeps every non-matching edge, and every match removed when no two matches are adjacent |
| SomOps.AddNode | src/som.h:78-86 | the new id was free, every smaller id was taken, and the id is at most the node count; the new node has error 0; the count grows by 1; other nodes and edges are unchanged; the invariant is kept; the "failed to add node" throw is unreachable |
| SomOps.AddEdge | src/som.h:91-107 | throws "same node" when `a == b`, else "node missing" when an endpoint is not live; a no-op when the pair is already joined either way round; otherwise appends exactly `Edge(a, b, age 0)` |
| SomOps.RemoveNode | src/som.h:62-71 | throws "node missing" iff the node is not live; otherwise the node is erased and all other nodes are kept; the edges are a subsequence that keeps every non-incident edge in order; no incident edge remains when no two incident edges are adjacent (`remove_node` at src/som.h:112-115 is this under the lock) |
| SomOps.RemoveEdge | src/som.h:120-130 | throws "edge not found" iff no edge joins the pair; otherwise deletes exactly the first joining edge, keeps the rest in order, and leaves the nodes alone |
| SomOps.GetNeighbours | src/som.h:135-145 | exactly the ids joined to `n` by an edge; empty iff `n` has no edge, whether or not `n` is live |
| SomOps.PurgeOldEdges | src/som.h:150-156 | nodes untouched; every edge with `age <= max_age` survives in order; the result is a subsequence; no edge older than `max_age` remains when no two old edges are adjacent |
| SomOps.OrphansIn | src/som.h:165-174 | the orphan list holds exactly the ids of `order` with no incident edge; it has no duplicates when `order` has none |
| SomOps.IsOrphan | src/som.h:166-171 | the inner scan with `break` returns true iff no edge touches the node |
| SomOps.CollectOrphans | src/som.h:164-174 | the first loop over the table collects the orphans in iteration order |
| SomOps.RemoveOrphans | src/som.h:176-177 | removing collected orphans never throws; it drops exactly those ids, keeps every other node's error, and leaves the edges as they were |
| SomOps.PurgeOrphans | src/som.h:162-180 | returns exactly the live ids with no edge, in iteration order, without duplicates; afterwards none of them is live; every other node keeps its error; the edges are unchanged; the invariant is kept |
| SomOps.GetEdgeAge | src/som.h:186-194 | the age of the first edge joining the pair in either order, or "edge not found" iff there is none |
| SomOps.SetEdgeAge | src/som.h:196-205 | "edge not found" iff no edge joins the pair; otherwise only the first joining edge's age changes and every other edge stays as it was |
| SomOps.GetNodeError | src/som.h:207-210 | a live id reads its error and leaves the graph alone; an unknown id reads 0 and inserts a zero-error node; the invariant is kept |
| SomOps.SetNodeError | src/som.h:212-215 | the id then has the written error, and is inserted if it was absent; other nodes and edges are unchanged |
| SomOps.IncrementAges | src/som.h:219-220 | every edge in the vector is one older, in place |
| SomOps.IncrementAge | src/som.h:217-221 | every edge's age grows by exactly 1; endpoints, edge order, nodes and the invariant are unchanged |
| SomOps.ResetErrors | src/som.h:231-235 | every node's error is 0; the id set, the edges and the invariant are unchanged |
| SomOps.ScanTake | src/som.h:243-247 | a node that passes the `0 <= e < min_e` test (or is the first one) becomes the choice, and the search state still describes every node visited so far |
| SomOps.ScanKeep | src/som.h:243-247 | a node that fails the test leaves the choice alone, and the search state still describes every node visited so far |
| SomOps.ScanDone | src/som.h:241-249 | once every node is visited, the search state pins the result down as `SomOps.IsWpu` |
| SomOps.FindWpu | src/som.h:237-250 | `SomOps.IsWpu`: 0xFFFFFFFF on an empty table, else a live id; the first node if its error is negative; otherwise a node of minimum error among those with non-negative error that no earlier node in iteration order ties (ties keep the earlier node) |
| SomProps.SubseqKeepsPairInvariants | src/som.h:58 | dropping edges from the vector, keeping the order, cannot create a self-loop or a duplicate pair |
| SomProps.AddEdgeNeighbours | src/som.h:91-107 | after a successful `add_edge(a, b)`, `a` lists `b` as a neighbour and `b` lists `a` |
| SomProps.AddEdgeIdempotent | src/som.h:100-103 | a second `add_edge` of the same pair returns the same graph; the edge count grows by at most 1 |
| SomProps.AddEdgePreservesValid | src/som.h:91-107 | `add_edge` keeps live endpoints, no self-loops and one edge per pair |
| SomProps.RemoveEdgeSymmetric | src/som.h:122-124 | `remove_edge(a, b)` equals `remove_edge(b, a)`, and `get_edge_age` likewise |
| SomProps.RemoveEdgeAfterAddEdge | src/som.h:120-130 | removing a freshly added edge gives back the original graph |
| SomProps.RemoveEdgePreservesValid | src/som.h:120-130 | on a valid graph, after `remove_edge` no edge joins the pair and the invariant holds |
| SomProps.SetEdgeAgeThenGet | src/som.h:196-205 | `get_edge_age` after `set_edge_age` reads the age just written; the invariant is kept |
| SomProps.NeighboursNoDup | src/som.h:138-143 | with no self-loops and no duplicate pairs, the neighbour list has no repeats |
| SomProps.GetNeighboursOfValid | src/som.h:135-145 | on a valid graph the neighbours are distinct live ids other than `n` |
| SomProps.IncrementAgeAddsCount | src/som.h:217-221 | `k` calls of `increment_age` add exactly `k` to every edge's age and change nothing else |
| SomProps.ResetErrorsThenGet | src/som.h:231-235 | after `reset_errors` every live id reads error 0, and the read inserts nothing |
| SomProps.SetNodeErrorThenGet | src/som.h:212-215 | `get_node_error` after `set_node_error` reads the value written |
| SomProps.FindWpuExample | src/som.h:237-250 | any result `SomOps.IsWpu` allows for errors 5, 2 and 7 on ids 0, 1 and 2 visited in that order is id 1, so `find_wpu` returns 1 |
| SomProps.RemoveNodeLeavesDanglingEdge | src/som.h:66-68 | on the valid graph with nodes 0, 1, 2 and edges (0,1), (0,2), the graph `remove_node(0)` leaves (nodes 1, 2; edges `SkipFilter`) has the single edge (0,2), which points at the removed node, so it is not valid; the intended pass would leave no edge |
| SomProps.PurgeOldEdgesKeepsOldEdge | src/som.h:152-155 | on edges (0,1) and (1,2), both of age 5, the loop with `max_age` 1 keeps (1,2), while the intended pass keeps nothing |
| SomProps.RemoveNodeFiltered | src/som.h:62-71 | node removal as intended: the node is gone; an edge survives iff it was present and not incident; no node lists the removed one as a neighbour; the invariant is kept |
| SomProps.RemoveNodeAgrees | src/som.h:66-68 | when no two incident edges are adjacent, the intended removal of a live node returns exactly the nodes and the `SkipFilter` edges that `RemoveNode` returns |
| SomProps.PurgeOldEdgesFiltered | src/som.h:147-156 | age pruning as intended: an edge survives iff it was present and `age <= max_age`; the order is kept; the invariant is kept |
| SomProps.PurgeOldEdgesAgrees | src/som.h:152-155 | when no two old edges are adjacent, the intended pruning returns exactly the graph with the `SkipFilter` edges that `PurgeOldEdges` returns |
| SomProps.PurgeOldEdgesPreservesValid | src/som.h:150-156 | as-written pruning only drops edges, so it keeps the invariant |
| SomProps.RemoveNodePreservesValid | src/som.h:62-71 | as-written removal keeps the invariant when no two incident edges are adjacent |

## Left out

- The `pthread_mutex_t` and every `Lock` guard. Each public method is modelled as one atomic sequential step.
- `add_edge` checks node existence before it takes the lock. That is a time-of-check/time-of-use matter; only the sequential meaning is modelled.
- IEEE `float` and `XFLOAT` behaviour. `error`, `age` and `min_e` are `real`: `age++` adds exactly 1, and rounding and NaN comparisons are not modelled.
- The hashing and the concrete iteration order of `std::unordered_map`. The order is an arbitrary duplicate-free key sequence passed as a parameter.
- The 32-bit width of `unsigned` ids. Ids are unbounded `nat`, so `add_node`'s `i < size + 1` never wraps. The `int wpu` variable is modelled as "no choice yet" or an id. The model therefore does not cover ids of 2^31 and above being converted to `int`. In particular, an id of 0xFFFFFFFF (which `set_node_error` can insert) would compare equal to the `-1` sentinel.
- `get_node_count` and `get_edge_count` are unlocked reads. They are only `NodeCount` and `EdgeCount` (`|nodes|`, `|edges|`), used in other contracts, with no contract of their own.
- The `<iostream>`/`<iomanip>` includes and `src/parallel.h`. src/parallel.h is not part of this model.

## Findings

| source | as written | input that shows it | evidently intended | confidence | as-written member | corrected member |
|---|---|---|---|---|---|---|
| src/som.h:66-68 | `_remove_node` erases edge `i` and then still does `i++`, so the edge that shifts into slot `i` is never examined | nodes 0, 1, 2; edges (0,1), (0,2); `remove_node(0)` leaves (0,2), which references the removed node 0 | every edge incident to the removed node is erased, so endpoints stay live | not executed; high | SomProps.RemoveNodeLeavesDanglingEdge | SomProps.RemoveNodeFiltered |
| src/som.h:152-154 | `purge_old_edges` erases edge `i` and then still does `i++`, skipping the next edge | edges (0,1) and (1,2), both of age 5; `purge_old_edges(1)` keeps (1,2) | "Remove all edges older than max_age": an edge survives iff `age <= max_age` | not executed; high | SomProps.PurgeOldEdgesKeepsOldEdge | SomProps.PurgeOldEdgesFiltered |

The as-written members are stated over `EraseLoop.SkipFilter`, which `SomOps.RemoveNode` and
`SomOps.PurgeOldEdges` are proved to return as their edges.
`EraseLoop.SkipFilterNoAdjacent` gives the side condition under which the two behaviours agree: no two
matching edges are adjacent. `SomOps.PurgeOrphans` goes through the as-written `SomOps.RemoveNode`.
There the skip is harmless, because an orphan has no edge to erase (`EraseLoop.SkipFilterNoMatch`).
