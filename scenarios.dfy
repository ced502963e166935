/** Small fixed call sequences on both stores, showing what a caller can
    rely on from the stores' contracts alone, including the places where the
    two stores part from the `Graph<T>` contract. */
module Scenarios {
  import opened GraphSpec
  import opened AdjacencyListStore
  import opened AdjacencyMatrixStore

  /** A two-node undirected list graph with the edge 0 - "a" - 1 reads the
      same from both ends. */
  method TwoNodeUndirectedList() returns (nodes: nat, count: int, there: bool, back: bool,
                                          backLabel: Option<string>, adj: seq<nat>)
    ensures nodes == 2 && count == 1
    ensures there && back && backLabel == Some("a")
    ensures Ascending(adj) && forall x :: x in adj <==> x == 1
  {
    var g := new AdjacencyList<string>(2, false);
    g.Add(0, Some("a"), 1);
    nodes := g.NodeCount();
    count := g.EdgeCount();
    there := g.HasEdge(0, 1);
    back := g.HasEdge(1, 0);
    backLabel := g.Label(1, 0);
    adj := g.Adjacent(0);
  }

  /** `set` on a missing edge of the list store creates it, yet the edge
      count stays 0 although node 0 now has an out-neighbour. */
  method ListSetOnMissingEdge() returns (there: bool, count: int, out: seq<nat>)
    ensures there && count == 0
    ensures Ascending(out) && forall x :: x in out <==> x == 1
  {
    var g := new AdjacencyList<string>(2, true);
    g.Set(0, Some("a"), 1);
    there := g.HasEdge(0, 1);
    count := g.EdgeCount();
    out := g.OutNodes(0);
  }

  /** The relabel-only `set` leaves a missing edge missing and the count right. */
  method ListSetExistingOnMissingEdge() returns (there: bool, count: int, out: seq<nat>)
    ensures !there && count == 0 && forall x :: x !in out
  {
    var g := new AdjacencyList<string>(2, true);
    g.SetExisting(0, Some("a"), 1);
    there := g.HasEdge(0, 1);
    count := g.EdgeCount();
    out := g.OutNodes(0);
  }

  /** In the list store an edge added with a null label is held and counted
      and listed as an out-neighbour, yet `hasEdge` denies it, and a second
      `add` is still refused. */
  method ListNullLabel() returns (there: bool, count: int, out: seq<nat>)
    ensures !there && count == 1
    ensures Ascending(out) && forall x :: x in out <==> x == 1
  {
    var g := new AdjacencyList<string>(2, true);
    g.Add(0, None, 1);
    g.Add(0, Some("b"), 1);
    there := g.HasEdge(0, 1);
    count := g.EdgeCount();
    out := g.OutNodes(0);
  }

  /** In the matrix store an `add` with a null label stores nothing but
      counts an edge, and both scans then find an empty row and column, so
      `nodeCount` rises from 2 to 4. */
  method MatrixNullLabel() returns (there: bool, edgeCount: int, nodeCount: int)
    ensures !there && edgeCount == 1 && nodeCount == 4
  {
    var g := new AdjacencyMatrix<string>(2, true);
    g.Add(0, None, 1);
    there := g.HasEdge(0, 1);
    edgeCount := g.EdgeCount();
    nodeCount := g.NodeCount();
  }

  /** In the matrix store adding and removing the same self-loop twice on a
      one-node graph lowers `nodeCount` each time, to -1,
      while the node space stays 1. */
  method MatrixNodeCountDrift() returns (nodeCount: int, edgeCount: int, space: nat)
    ensures nodeCount == -1 && edgeCount == 0 && space == 1
  {
    var g := new AdjacencyMatrix<string>(1, true);
    g.Add(0, Some("a"), 0);
    g.Remove(0, 0);
    g.Add(0, Some("a"), 0);
    g.Remove(0, 0);
    nodeCount := g.NodeCount();
    edgeCount := g.EdgeCount();
    space := g.NodeSpace();
  }

  /** In the matrix store `set` with a null label on an existing edge clears
      the cell, so the edge is gone, yet the edge count stays 1. */
  method MatrixSetNullLabel() returns (there: bool, edgeCount: int, out: seq<nat>)
    ensures !there && edgeCount == 1 && forall x :: x !in out
  {
    var g := new AdjacencyMatrix<string>(2, true);
    g.Add(0, Some("a"), 1);
    g.Set(0, None, 1);
    there := g.HasEdge(0, 1);
    edgeCount := g.EdgeCount();
    out := g.OutNodes(0);
  }
}
