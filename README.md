# ss-graph-rs: a Dafny model of `Graph<T>`

The library is one generic type, `Graph<T>`. It stores a directed or undirected
graph as a map from each node to the set of its neighbours. It offers four
operations: `new` builds an empty graph, `add_edge` inserts an edge, and two
backtracking depth-first searches list the simple paths between two nodes.
`find_all_paths` has no limit. `find_paths_with_max_steps` drops paths that have
more than a given number of nodes.

The model is in four modules:

- `PathSpec` (`paths.dfy`) defines arcs, walks and simple paths. It also defines
  the extensions of a partial path, which are the paths a search standing on that
  partial path can still record. Its lemmas are the facts the searches rest on.
- `Graphs` (`graph.dfy`) holds the class `Graph`. It has a constant
  `isDirected` and a mutable field `adjacency: map<T, set<T>>`. `AddEdge`
  updates that field in place. The two searches are recursive methods with
  loops, like the source's helpers. Rust passes `visited`, `path` and `paths` as
  `&mut`; here each helper takes them and hands them back as values. Each
  helper's contract says that `visited` and `path` come back unchanged, that
  `paths` only grows, and which paths were added.
- `SearchRelations` (`relations.dfy`) relates the two searches on one graph.
- `GraphScenarios` (`scenarios.dfy`) restates the library's own tests as
  methods, and proves what each returns. `UnreachableScenario` checks two cases
  the library's tests do not cover: a node no edge mentions, and a directed edge
  travelled backwards.

The source loops over a `HashSet` of neighbours. The model does the same over a
shrinking set, picking each next neighbour with `:|`. So the order is arbitrary,
and every result is stated as a set of paths. Each search promises three things:

- the result has no duplicates;
- a sequence is in the result exactly when it is a simple path from `start` to
  `end` (one that follows arcs and repeats no node);
- for the step-limited search, the path also has at most `maxSteps` nodes, or is
  the one-node path `[start]`.

The proof follows the search: recording a path, abandoning a branch, and
entering a neighbour are each matched by a lemma about extensions.

## Model

| member | source | states |
|---|---|---|
| `Graphs.Graph.constructor` | src/graph.rs:15-21 | the new graph has an empty adjacency map; it is directed only when the flag is `Some(true)`, so an absent flag means undirected |
| `Graphs.AddArc` | src/graph.rs:25-28 | `entry(x).or_insert(empty).insert(y)`: the keys gain x, and the arcs are the old arcs plus x -> y |
| `Graphs.WithEdge` | src/graph.rs:24-35 | inserting edge (x, y) adds arc x -> y, and y -> x too when undirected; the keys gain x, and y only when undirected; no other arc appears |
| `Graphs.Graph.AddEdge` | src/graph.rs:24-36 | the new adjacency map is `WithEdge` of the old one, and an undirected graph stays symmetric |
| `Graphs.WithEdgeIdempotent` | src/graph.rs:25-34 | inserting the same edge twice leaves the map identical to inserting it once |
| `Graphs.WithEdgeRepeat` | src/graph.rs:25-34 | inserting an edge the map already holds, in both directions when undirected, leaves the map identical, even after other insertions in between |
| `Graphs.WithEdgeKeepsOthers` | src/graph.rs:25-34 | insertion removes no key and no neighbour, and leaves every entry other than x (and y when undirected) unchanged |
| `Graphs.WithEdgeSymmetric` | src/graph.rs:30-35 | an undirected insertion keeps every arc paired with its reverse |
| `Graphs.Graph.FindAllPaths` | src/graph.rs:39-50 | the result has no duplicates; p is in it exactly when p is a simple path from start to end; when start == end the result is exactly `[[start]]` |
| `Graphs.Graph.FindAllPathsHelper` | src/graph.rs:53-77 | `visited` and `path` come back as they went in; `paths` only grows; what is appended has no duplicates and is exactly the set of simple extensions of `path` that end at `end` |
| `Graphs.Graph.FindPathsWithMaxSteps` | src/graph.rs:80-98 | the result has no duplicates; p is in it exactly when p is a simple path from start to end with at most `maxSteps` nodes, or is `[start]`; when start == end the result is exactly `[[start]]` for every limit, 0 included |
| `Graphs.Graph.FindPathsWithMaxStepsHelper` | src/graph.rs:101-137 | as the unbounded helper, but the appended paths are the extensions that have at most `maxSteps` nodes, or are `path` itself when it already ends at `end` (the end test comes before the length guard) |
| `PathSpec.ExtendsFromStart` | src/graph.rs:44-47 | the extensions of the one-node path `[start]` are exactly the simple paths from start to end |
| `PathSpec.SelfPathOnly` | src/graph.rs:61-63 | the only simple path from a node to itself is that node alone |
| `PathSpec.ExtendsAtEnd` | src/graph.rs:61-63 | a search standing on `end` can record only the path it stands on, since end is never expanded |
| `PathSpec.ExtendsLeaveLast` | src/graph.rs:66-67 | every extension of a path not yet at `end` continues along an arc out of its last node, so a node without an entry extends to nothing |
| `PathSpec.ExtendsChild` | src/graph.rs:68-71 | the extensions of `path + [n]` are exactly the extensions of `path` whose next node is n |
| `PathSpec.ExtendsNotVisited` | src/graph.rs:68 | no extension of a simple path steps next onto a node already on it, so skipping visited neighbours loses nothing |
| `PathSpec.SimplePathBound` | src/graph.rs:68-73 | a simple path has at most as many nodes as the graph mentions (the one-node path aside), so a step limit of that many nodes cuts no path (used by `LargeLimitCutsNothing`) |
| `SearchRelations.BoundedIsFilteredAll` | src/graph.rs:110-117 | the step-limited result is the unbounded result minus the paths of more than `maxSteps` nodes; only `[start]`, when start == end, may exceed the limit |
| `SearchRelations.LimitMonotonic` | src/graph.rs:115-117 | a larger limit keeps every path found under the smaller one, and adds only paths longer than the smaller limit |
| `SearchRelations.LargeLimitCutsNothing` | src/graph.rs:115-117 | with a limit at least the number of nodes the graph mentions, both searches find the same paths |
| `GraphScenarios.ChainWalk` | src/graph.rs:160-163 | on the undirected chain 1 - 2 - ... - n, the i-th node of a simple walk from 1 is i + 1 |
| `GraphScenarios.ChainPaths` | src/graph.rs:160-163 | on that chain, the only simple path from 1 to e is 1, 2, ..., e, and there is none when e is outside the chain |
| `GraphScenarios.NewChain` | src/graph.rs:160-163 | the shared setup of the chain scenarios: a fresh graph after `add_edge(1, 2)`, `add_edge(2, 3)`, `add_edge(3, 4)`, with the given directedness; undirected, it is exactly the chain 1 - 2 - 3 - 4; directed, its arcs are exactly 1 -> 2, 2 -> 3, 3 -> 4 |
| `GraphScenarios.AddEdgeScenario` | src/graph.rs:146-156 | after `add_edge(1, 2)`, 2 is a neighbour of 1 in both modes; in the undirected graph 2 gets an entry holding 1 (the check of src/graph.rs:190-194), in the directed one 2 gets no entry |
| `GraphScenarios.FindAllPathsScenario` | src/graph.rs:159-166 | on the chain 1 - 2 - 3 - 4, `find_all_paths(1, 4)` is exactly `[[1, 2, 3, 4]]` |
| `GraphScenarios.FindPathsWithMaxStepsScenario` | src/graph.rs:169-178 | on the same chain, a limit of 3 gives `[]` and a limit of 4 gives `[[1, 2, 3, 4]]` |
| `GraphScenarios.UnreachableScenario` | src/graph.rs:66-76 | on the chain, no path leads from 1 to 5; with the directed edge (1, 2) alone, no path leads from 2 to 1 |

## Left out

- Hashing, and the iteration order of `HashMap` and `HashSet`: neighbours are visited in an arbitrary order, so no order of the returned paths is claimed. (Every path is still returned exactly once.)
- Ownership, borrowing and the cost of `clone`: only value semantics are modelled. Rust passes `visited`, `path` and `paths` as `&mut`; the helpers here take these values and return them. Their contracts state what the mutable borrows would hold on exit.
- The derived `Clone`, `PartialEq` and `Eq` on `Graph` (src/graph.rs:5): these are library-provided structural copies and comparisons.
- Stack depth and memory exhaustion on dense graphs: these are resource limits, not logic.
- `usize`: `max_steps` is a `nat`. A path's length never comes near the `usize` range, so no wrap-around can occur in the length guard.
- The string test cases (src/graph.rs:181-237) are not restated separately; the generic `T` covers both key types. The one check they add, that in an undirected graph `Node1` is a neighbour of `Node2` (src/graph.rs:190-194), is restated with integers in `AddEdgeScenario` and holds in general by `WithEdge`'s `!directed ==> Edge(r, y, x)`.
- `T` is a value type with equality (`T(==,!new)`), matching the source's `Eq + Hash + Clone` bound. A hash consistent with equality is assumed, not modelled.
