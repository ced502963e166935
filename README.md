# Labelled graph stores

This project models the two in-memory graph stores of a small Java graph
library and the `Graph<T>` interface they share. It then proves
properties of the model in Dafny.

A graph has a fixed node space `0..n-1` and is directed or undirected. It
holds at most one labelled edge per ordered pair of nodes, and self-loops
are allowed.

- **`GraphSpec`** (`graph.dfy`) is the interface. The edge relation is a
  map from ordered pairs to labels, so "one edge per pair, whatever its
  label" holds by construction.
  - A label is `Option<T>`. `None` stands for the Java `null` callers may
    pass as a label, and it is distinct from "no edge" (no key).
  - `Add`, `Remove` and `Relabel` are the interface's `add`, `remove` and
    `set`. `Out`, `In` and `Adjacent` are its neighbour queries, and
    `EdgeCount` is its edge count.
  - `Put` is an unconditional write. It is mirrored when the graph is
    undirected.
- **`AdjacencyListStore`** (`adjacency_list.dfy`) is the class
  `AdjacencyList<T>`. It keeps one `neighbour -> label` map per node in an
  array, plus an `edgeCount` field maintained by hand.
  - A ghost field `edges` holds the edge relation the maps represent.
    `Valid()` ties it to the maps: their keys and labels, keys inside the
    node space, and mirrored keys with equal labels when undirected.
  - Every mutator states the new array contents and the new edge count. It
    also states that `edges` moves as the matching `GraphSpec` operation.
  - Key presence decides "edge present" for `add`, `remove` and the
    neighbour queries. `hasEdge` also requires a non-null label.
  - `set` writes without checking that the edge exists (see Findings).
- **`AdjacencyMatrixStore`** (`adjacency_matrix.dfy`) is the class
  `AdjacencyMatrix<T>`. It keeps an `n x n` array of nullable labels, with
  `edgeCount` and `nodeCount` fields.
  - A null cell is "no edge". So `add` with a null label stores nothing,
    yet it still raises `edgeCount`.
  - After an `add`, `nodeCount` is raised once for each scan (row `node1`,
    then column `node2`) that finds no edge. After a `remove`, it is
    lowered by one when row `node1` is empty, or failing that when column
    `node2` is empty.
  - The neighbour queries scan the matrix and then remove duplicates with
    nested loops. `RemoveDuplicates` proves that this dedup pass yields a
    duplicate-free list with the same elements.
- **`Scenarios`** (`scenarios.dfy`) holds short call sequences on both
  stores. They show what a caller can rely on from the contracts alone,
  including the places where a store departs from the interface.

The edge count is proved right under an explicit predicate,
`CountAccurate()`. Each mutator states whether it keeps that predicate.
For the list, every operation except `set` on a missing edge keeps it. For
the matrix, every operation keeps it except `add` with a null label and
`set` with a null label on an existing edge. Such a `set` clears the cell,
so the edge is gone, but `edgeCount` is left as it was.

## Model

| member | source | states |
|---|---|---|
| GraphSpec.Add | src/Graph.java:19-22 | the edge is present afterwards; an existing edge keeps its label and leaves the graph unchanged; a new one gets the given label |
| GraphSpec.Remove | src/Graph.java:24-25 | the edge is absent afterwards and no edge is created |
| GraphSpec.Relabel | src/Graph.java:27-29 | an existing edge carries the new label afterwards; a missing edge is not added and the graph is unchanged |
| GraphSpec.UndirectedSymmetry | src/Graph.java:31-34 | in a well-formed undirected graph (u, v) is an edge exactly when (v, u) is, with the same label |
| GraphSpec.PutWf | src/Graph.java:5-8 | writing a label between two nodes of the node space keeps every edge inside the node space and, when undirected, mirrored |
| GraphSpec.OperationsKeepWf | src/Graph.java:19-29 | add, remove and set keep the edge relation inside the node space and mirrored when undirected |
| GraphSpec.AddCount | src/Graph.java:60-63 | adding a new edge raises the edge count by exactly one, directed or not, so an undirected edge is counted once |
| GraphSpec.RemoveCount | src/Graph.java:60-63 | removing a present edge lowers the edge count by exactly one |
| GraphSpec.RelabelKeepsEdges | src/Graph.java:27-29 | set never changes which pairs are edges, hence never the edge count |
| GraphSpec.PutOnAbsentAddsEdge | src/AdjacencyList.java:128-137 | an unconditional write on a missing pair creates an edge and raises the true edge count by one |
| GraphSpec.RemoveUndoesAdd | src/Graph.java:19-25 | removing a freshly added edge restores the graph |
| GraphSpec.AddUndoesRemove | src/Graph.java:19-25 | adding back a removed edge with its old label restores the graph |
| GraphSpec.AdjacentIsOutUnionIn | src/Graph.java:40-55 | adjacent is out-neighbours union in-neighbours; when undirected, out- and in-neighbours coincide |
| AdjacencyListStore.ConsistentWf | src/AdjacencyList.java:26-27 | maps whose keys name nodes, and are mirrored when undirected, hold a well-formed edge relation |
| AdjacencyListStore.InsertConsistent | src/AdjacencyList.java:128-137 | writing a label into the maps, mirrored when undirected, writes it into the edge relation and keeps the maps consistent |
| AdjacencyListStore.DeleteConsistent | src/AdjacencyList.java:98-118 | deleting a present key, from both maps when undirected, deletes the edge and keeps the maps consistent |
| AdjacencyListStore.InsertStep | src/AdjacencyList.java:69-90 | a write into the maps relabels a present edge, and otherwise adds exactly one edge to the count |
| AdjacencyListStore.DeleteStep | src/AdjacencyList.java:98-118 | deleting a present key removes exactly one edge from the count |
| AdjacencyListStore.AdjacencyList.constructor | src/AdjacencyList.java:36-43 | n empty maps, no edges, edge count 0, node count n |
| AdjacencyListStore.AdjacencyList.Add | src/AdjacencyList.java:69-90 | on an absent key the label is stored (mirrored when undirected) and the count rises by one; on a present key the maps and count are unchanged; edges move as GraphSpec.Add |
| AdjacencyListStore.AdjacencyList.Remove | src/AdjacencyList.java:98-118 | a present key is deleted (both directions when undirected) and the count drops by one; an absent key changes nothing; the label reads null afterwards |
| AdjacencyListStore.AdjacencyList.Set | src/AdjacencyList.java:128-137 | writes the label whether or not the edge exists and keeps the count; the count stays right exactly when the edge existed |
| AdjacencyListStore.AdjacencyList.SetExisting | src/Graph.java:27-29 | relabels an existing edge and does nothing otherwise, keeping the count right |
| AdjacencyListStore.AdjacencyList.Label | src/AdjacencyList.java:151-153 | the stored label of a present key, and null for an absent key |
| AdjacencyListStore.AdjacencyList.HasEdge | src/AdjacencyList.java:169-171 | true exactly when the key is present with a non-null label; symmetric when undirected |
| AdjacencyListStore.AdjacencyList.Adjacent | src/AdjacencyList.java:181-201 | an ascending list of the nodes on out- or in-edges (directed) or on edges (undirected); equals GraphSpec.Adjacent as a set |
| AdjacencyListStore.AdjacencyList.OutNodes | src/AdjacencyList.java:215-224 | an ascending list of exactly the keys of the node's map; equals GraphSpec.Out as a set |
| AdjacencyListStore.AdjacencyList.InNodes | src/AdjacencyList.java:238-248 | an ascending list of exactly the nodes whose map holds the node; equals GraphSpec.In as a set |
| AdjacencyListStore.AdjacencyList.OutInOfMaps | src/AdjacencyList.java:215-248 | the abstract out- and in-neighbours are read off the map keys |
| AdjacencyListStore.AdjacencyList.NodeCount | src/AdjacencyList.java:254-256 | the number of maps, which bounds every edge |
| AdjacencyListStore.AdjacencyList.EdgeCount | src/AdjacencyList.java:265-267 | the number of edges, counting an undirected edge once, while the count is accurate |
| AdjacencyListStore.AdjacencyList.Directed | src/AdjacencyList.java:56-58 | when the graph is undirected, every edge is mirrored with the same label |
| AdjacencyMatrixStore.RemoveDuplicates | src/AdjacencyMatrix.java:315-329 | the result has no duplicates, has exactly the elements of the input, is no longer than it, and is ascending when the input is sorted |
| AdjacencyMatrixStore.AdjacencyMatrix.EdgesWf | src/AdjacencyMatrix.java:25-26 | the non-null cells form a well-formed edge relation |
| AdjacencyMatrixStore.AdjacencyMatrix.CountChange | src/AdjacencyMatrix.java:89 | writing a label on a null cell adds one edge to the count, and relabelling changes nothing |
| AdjacencyMatrixStore.AdjacencyMatrix.constructor | src/AdjacencyMatrix.java:41-45 | every cell null, no edges, edge count 0, node count n |
| AdjacencyMatrixStore.AdjacencyMatrix.WriteCell | src/AdjacencyMatrix.java:72-88 | one cell, and its mirror when undirected, gets the value; every other cell is unchanged |
| AdjacencyMatrixStore.AdjacencyMatrix.Add | src/AdjacencyMatrix.java:69-117 | on a null cell the label is written (mirrored when undirected) and the edge count rises by one; otherwise nothing changes; the node count rises once per empty row or column scan, never with a non-null label |
| AdjacencyMatrixStore.AdjacencyMatrix.Remove | src/AdjacencyMatrix.java:126-189 | a non-null cell is cleared (both mirrors when undirected) and the edge count drops by one; the node count drops by at most one, when row node1 or else column node2 is empty; a null cell changes nothing |
| AdjacencyMatrixStore.AdjacencyMatrix.Set | src/AdjacencyMatrix.java:199-225 | relabels only a non-null cell (mirrored when undirected), leaving both counts unchanged; a null cell is left alone |
| AdjacencyMatrixStore.AdjacencyMatrix.Label | src/AdjacencyMatrix.java:235-250 | the cell's label when an edge is there, and null otherwise |
| AdjacencyMatrixStore.AdjacencyMatrix.HasEdge | src/AdjacencyMatrix.java:262-271 | true exactly when the cell is non-null; symmetric when undirected |
| AdjacencyMatrixStore.AdjacencyMatrix.Adjacent | src/AdjacencyMatrix.java:287-331 | after dedup, an ascending list of exactly the in-range nodes on an edge with the node, in either direction when directed; equals GraphSpec.Adjacent as a set |
| AdjacencyMatrixStore.AdjacencyMatrix.OutNodes | src/AdjacencyMatrix.java:347-384 | after dedup, an ascending list of exactly the nodes on out-edges; equals GraphSpec.Out as a set |
| AdjacencyMatrixStore.AdjacencyMatrix.InNodes | src/AdjacencyMatrix.java:402-439 | after dedup, an ascending list of exactly the nodes on in-edges; equals GraphSpec.In as a set |
| AdjacencyMatrixStore.AdjacencyMatrix.OutInOfMatrix | src/AdjacencyMatrix.java:347-439 | the abstract out- and in-neighbours are the non-null cells of the row and the column |
| AdjacencyMatrixStore.AdjacencyMatrix.NodeCount | src/AdjacencyMatrix.java:446-448 | the drifting counter as written; no contract of its own, its behaviour is stated on Add and Remove |
| AdjacencyMatrixStore.AdjacencyMatrix.NodeSpace | src/AdjacencyMatrix.java:41-45 | the size the graph was built with, which bounds every edge |
| AdjacencyMatrixStore.AdjacencyMatrix.EdgeCount | src/AdjacencyMatrix.java:458-460 | the number of edges, counting an undirected edge once, while the count is accurate |
| AdjacencyMatrixStore.AdjacencyMatrix.Directed | src/AdjacencyMatrix.java:57-59 | when the graph is undirected, every edge is mirrored with the same label |
| Scenarios.TwoNodeUndirectedList | src/AdjacencyList.java:69-90 | after adding 0 - "a" - 1 the edge reads the same from both ends, is counted once, and node 0's only neighbour is 1 |
| Scenarios.ListSetOnMissingEdge | src/AdjacencyList.java:128-137 | set on a missing edge creates it while the edge count stays 0 |
| Scenarios.ListSetExistingOnMissingEdge | src/Graph.java:27-29 | the relabel-only set leaves a missing edge missing and the count 0 |
| Scenarios.ListNullLabel | src/AdjacencyList.java:169-171 | an edge added with a null label is counted and listed, hasEdge denies it, and a second add is refused |
| Scenarios.MatrixNullLabel | src/AdjacencyMatrix.java:72-116 | a null-label add stores nothing, counts one edge and raises the node count from 2 to 4 |
| Scenarios.MatrixSetNullLabel | src/AdjacencyMatrix.java:199-218 | set with a null label on an existing edge removes the edge while the edge count stays 1 |
| Scenarios.MatrixNodeCountDrift | src/AdjacencyMatrix.java:152-188 | adding and removing a self-loop twice on a one-node graph drives the node count to -1 |

## Left out

- `GraphAlgorithms.java` is not part of this model. Every method there is
  an unimplemented stub.
- `GraphGenerator.java` is not part of this model. It builds test graphs
  from a pseudo-random generator and floating-point edge probabilities.
- All diagnostic printing, and the matrix's `DEBUG` flag that guards some
  of it, are left out. They change no state.
- Every mutator and query requires its node indices to lie in `0..n-1`,
  as the interface asks of its callers. The model therefore excludes
  inputs that the Java code does not all reject:
  - In the matrix store, and for `node1` (or `node`) in the list store, an
    index outside `0..n-1` raises `ArrayIndexOutOfBoundsException`. The
    exception is a graph built with n = 0: there the three neighbour
    queries of either store never index and return an empty list.
  - A directed list graph accepts any `node2` in `add`, `remove`, `set`,
    `label` and `hasEdge`, because `node2` is only a map key. For example,
    `add(0, "a", 7)` on a 2-node graph stores key 7 and raises
    `edgeCount` to 1, and `outNodes(0)` never lists 7.
  - An undirected list graph's `remove`, `label` and `hasEdge` accept an
    out-of-range `node2`. `remove` changes nothing, `label` returns null
    and `hasEdge` returns false. That holds unless a faulted undirected
    `add` or `set` left that key in node1's map (see below). Then `label`
    returns the stored label, and `remove` deletes node1's key before
    faulting on node2's map.
  - The list's `inNodes(node)` never indexes with `node`. For an
    out-of-range node it returns the nodes whose map holds that key,
    instead of faulting. The list is empty unless a directed `add` or
    `set` stored the key. For example, after `add(0, "a", 7)`,
    `inNodes(7)` is `[0]`.
  - An undirected list graph's `add` and `set` with `node2` out of range
    write node1's map before faulting on node2's map. They leave a
    half-mirrored edge behind, and `add` leaves `edgeCount` unchanged.
  - A negative size passed to either constructor raises
    `NegativeArraySizeException`. The model takes the size as a `nat`.
- The counters are Java `int`s. The model uses unbounded integers, so
  32-bit wrap-around of `edgeCount` or `nodeCount` is not modelled.
- HashMap hashing and the generic array cast are not modelled. A node's
  map is a Dafny `map`.
- The neighbour queries build a Java `ArrayList`. It is modelled as a
  sequence value that the loops reassign. The in-place `remove(ptr)` of
  the dedup loop is modelled as removing that element from the sequence.
- The interface itself is modelled as a module of functions over the edge
  relation, not as a type the two classes implement. Each class method
  instead states that its ghost `edges` moves as the matching `GraphSpec`
  function.
- `label` is documented as requiring an existing edge. Both stores return
  null for a missing edge, so the model has no such precondition.
- `directed()` is modelled as the getter `Directed()`, and the list's
  `nodeCount` as a constant field, because neither is ever reassigned.
- AdjacencyMatrixStore.AdjacencyMatrix.NodeCount: returns the drifting
  counter as written, with no contract. Its behaviour is stated on `Add`
  and `Remove`.

## Findings

| source | as written | input that shows it | evidently intended | confidence | as-written member | corrected member |
|---|---|---|---|---|---|---|
| src/AdjacencyList.java:128-137 | `set` writes the label whether or not the edge exists, and never touches `edgeCount` | a directed list graph on 2 nodes, then `set(0, "a", 1)`: `hasEdge(0, 1)` is true while `edgeCount()` is 0 | `set` only relabels an existing edge and never creates one, as the interface says | not executed | AdjacencyListStore.AdjacencyList.Set | AdjacencyListStore.AdjacencyList.SetExisting |
| src/AdjacencyMatrix.java:152-188 | `nodeCount` starts at n; `add` with a label never raises it, but `remove` lowers it whenever a row or column empties | a directed matrix graph on 1 node: `add(0, "a", 0)`, `remove(0, 0)`, twice over, leaves `nodeCount()` at -1 | `nodeCount()` returns the number of nodes, n | not executed | Scenarios.MatrixNodeCountDrift | AdjacencyMatrixStore.AdjacencyMatrix.NodeSpace |
