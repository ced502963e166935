/** The adjacency-matrix store (`AdjacencyMatrix<T>`): an n×n matrix of
    nullable labels, where a non-null cell (i, j) is the edge from i to j.
    `edgeCount` is kept by hand; `nodeCount` starts at n and is then adjusted
    by row and column scans after each `add` and `remove`. A null label
    cannot be stored as an edge: `add` with one still counts an edge. */
module AdjacencyMatrixStore {
  import opened GraphSpec

  /** Never decreasing from left to right. */
  predicate NonDecreasing(s: seq<nat>) {
    forall i, j :: 0 <= i < j < |s| ==> s[i] <= s[j]
  }

  /** The duplicate-removal pass the neighbour queries run on their list:
      for each position, every later copy of its value is removed in place.
      The contract pins the order only for a sorted input, which is what the
      neighbour queries pass. */
  method RemoveDuplicates(list: seq<nat>) returns (nodes: seq<nat>)
    ensures Distinct(nodes)
    ensures forall x :: x in nodes <==> x in list
    ensures |nodes| <= |list|
    ensures NonDecreasing(list) ==> Ascending(nodes)
  {
    nodes := list;
    var index := 0;
    while index < |nodes|
      invariant 0 <= index <= |nodes| <= |list|
      invariant forall a, b :: 0 <= a < index && a < b < |nodes| ==> nodes[a] != nodes[b]
      invariant forall x :: x in nodes <==> x in list
      invariant NonDecreasing(list) ==> NonDecreasing(nodes)
      decreases |nodes| - index
    {
      ghost var size := |nodes|;
      var ptr := index + 1;
      while ptr < |nodes|
        invariant index < |nodes| <= size
        invariant index + 1 <= ptr <= |nodes| + 1
        invariant forall b :: index < b < ptr && b < |nodes| ==> nodes[b] != nodes[index]
        invariant forall a, b :: 0 <= a < index && a < b < |nodes| ==> nodes[a] != nodes[b]
        invariant forall x :: x in nodes <==> x in list
        invariant NonDecreasing(list) ==> NonDecreasing(nodes)
        decreases |nodes| + 1 - ptr
      {
        while nodes[index] == nodes[ptr]
          invariant index < ptr < |nodes| <= size
          invariant forall b :: index < b < ptr ==> nodes[b] != nodes[index]
          invariant forall a, b :: 0 <= a < index && a < b < |nodes| ==> nodes[a] != nodes[b]
          invariant forall x :: x in nodes <==> x in list
          invariant NonDecreasing(list) ==> NonDecreasing(nodes)
          decreases |nodes|
        {
          ghost var was := nodes;
          nodes := nodes[..ptr] + nodes[ptr + 1..];
          assert forall b :: 0 <= b < |nodes| ==> nodes[b] == if b < ptr then was[b] else was[b + 1];
          assert forall x :: x in nodes <==> x in was by {
            assert was[ptr] == nodes[index];
            assert was == nodes[..ptr] + [was[ptr]] + nodes[ptr..];
          }
          if ptr >= |nodes| {
            break;
          }
        }
        ptr := ptr + 1;
      }
      index := index + 1;
    }
  }

  class AdjacencyMatrix<T> {
    var nodeCount: int
    var edgeCount: int
    const directed: bool
    /** matrix[i, j] is the label of the edge from i to j, or null (None)
        when there is no such edge. */
    const matrix: array2<Option<T>>

    /** The edge relation the matrix holds: one edge per non-null cell. */
    ghost var edges: EdgeMap<T>

    /** A square matrix whose non-null cells are exactly `edges`, symmetric
        when undirected. */
    ghost predicate Valid()
      reads this, matrix
    {
      matrix.Length0 == matrix.Length1 &&
      (forall u: nat, v: nat :: (u, v) in edges <==>
         u < matrix.Length0 && v < matrix.Length1 && matrix[u, v].Some?) &&
      (forall u: nat, v: nat :: (u, v) in edges ==> edges[(u, v)] == matrix[u, v]) &&
      (!directed ==> forall u, v :: 0 <= u < matrix.Length0 && 0 <= v < matrix.Length0 ==>
                       matrix[u, v] == matrix[v, u])
    }

    /** `edgeCount` agrees with the edges the matrix holds. */
    ghost predicate CountAccurate()
      reads this, matrix
    {
      edgeCount == GraphSpec.EdgeCount(edges, directed)
    }

    /** Row u holds no edge. */
    ghost predicate RowEmpty(u: nat)
      reads this, matrix
      requires u < matrix.Length0
    {
      forall j :: 0 <= j < matrix.Length1 ==> matrix[u, j].None?
    }

    /** Column v holds no edge. */
    ghost predicate ColumnEmpty(v: nat)
      reads this, matrix
      requires v < matrix.Length1
    {
      forall i :: 0 <= i < matrix.Length0 ==> matrix[i, v].None?
    }

    /** The matrix holds a well-formed edge relation. */
    lemma EdgesWf()
      requires Valid()
      ensures Wf(edges, matrix.Length0, directed)
    {
      forall p | p in edges ensures p.0 < matrix.Length0 && p.1 < matrix.Length0 {
        assert p == (p.0, p.1);
      }
      if !directed {
        forall u: nat, v: nat | (u, v) in edges
          ensures (v, u) in edges && edges[(v, u)] == edges[(u, v)]
        {
          assert matrix[v, u] == matrix[u, v];
        }
      }
    }

    /** How writing (u, v) changes the number of edges, in the current state. */
    lemma CountChange(u: nat, l: Option<T>, v: nat)
      requires Valid() && u < matrix.Length0 && v < matrix.Length0
      ensures (u, v) !in edges ==>
                GraphSpec.EdgeCount(GraphSpec.Add(edges, directed, u, l, v), directed)
                  == GraphSpec.EdgeCount(edges, directed) + 1
      ensures (u, v) in edges ==>
                GraphSpec.EdgeCount(GraphSpec.Remove(edges, directed, u, v), directed)
                  == GraphSpec.EdgeCount(edges, directed) - 1
      ensures GraphSpec.EdgeCount(Relabel(edges, directed, u, l, v), directed)
                == GraphSpec.EdgeCount(edges, directed)
    {
      EdgesWf();
      if (u, v) !in edges {
        AddCount(edges, matrix.Length0, directed, u, l, v);
      } else {
        RemoveCount(edges, matrix.Length0, directed, u, v);
      }
      RelabelKeepsEdges(edges, matrix.Length0, directed, u, l, v);
    }

    constructor (nodeCount: nat, directed: bool)
      ensures Valid() && CountAccurate()
      ensures this.nodeCount == nodeCount && this.directed == directed && edgeCount == 0
      ensures matrix.Length0 == nodeCount && fresh(matrix)
      ensures forall i, j :: 0 <= i < nodeCount && 0 <= j < nodeCount ==> matrix[i, j] == None
      ensures edges == map[]
    {
      this.nodeCount := nodeCount;
      this.directed := directed;
      matrix := new Option<T>[nodeCount, nodeCount]((i, j) => None);
      edgeCount := 0;
      edges := map[];
      new;
      assert Counted(edges, directed) == {};
    }

    /** Writes `x` into cell (node1, node2), and into (node2, node1) too when
        undirected: the write that `add`, `remove` and `set` each make. */
    method WriteCell(node1: nat, x: Option<T>, node2: nat)
      requires Valid() && node1 < matrix.Length0 && node2 < matrix.Length0
      modifies this`edges, matrix
      ensures Valid()
      ensures forall i, j :: 0 <= i < matrix.Length0 && 0 <= j < matrix.Length0 ==>
                matrix[i, j] == if (i == node1 && j == node2) || (!directed && i == node2 && j == node1)
                                then x else old(matrix[i, j])
      ensures edges == if x.Some? then Put(old(edges), directed, node1, x, node2)
                       else old(edges) - {(node1, node2), if directed then (node1, node2) else (node2, node1)}
    {
      if directed {
        matrix[node1, node2] := x;
      } else {
        matrix[node1, node2] := x;
        matrix[node2, node1] := x;
      }
      edges := if x.Some? then Put(edges, directed, node1, x, node2)
               else edges - {(node1, node2), if directed then (node1, node2) else (node2, node1)};
      forall u: nat, v: nat
        ensures (u, v) in edges <==> u < matrix.Length0 && v < matrix.Length1 && matrix[u, v].Some?
        ensures (u, v) in edges ==> edges[(u, v)] == matrix[u, v]
      {
        if u < matrix.Length0 && v < matrix.Length0 &&
           !((u == node1 && v == node2) || (!directed && u == node2 && v == node1)) {
          assert matrix[u, v] == old(matrix[u, v]);
        }
      }
    }

    /** Stores the label when the cell is null (mirrored when undirected) and
        counts an edge; then raises `nodeCount` once for row node1 and once
        for column node2 if either is still entirely null. A non-null cell
        leaves everything unchanged. */
    method Add(node1: nat, l: Option<T>, node2: nat)
      requires Valid() && node1 < matrix.Length0 && node2 < matrix.Length0
      modifies this, matrix
      ensures Valid()
      ensures forall i, j :: 0 <= i < matrix.Length0 && 0 <= j < matrix.Length0 ==>
                matrix[i, j] == if old(matrix[node1, node2]).None? &&
                                   ((i == node1 && j == node2) || (!directed && i == node2 && j == node1))
                                then l else old(matrix[i, j])
      ensures edges == if l.Some? then GraphSpec.Add(old(edges), directed, node1, l, node2) else old(edges)
      ensures edgeCount == old(edgeCount) + (if old(matrix[node1, node2]).Some? then 0 else 1)
      ensures nodeCount == old(nodeCount) +
                if old(matrix[node1, node2]).Some? then 0
                else (if RowEmpty(node1) then 1 else 0) + (if ColumnEmpty(node2) then 1 else 0)
      ensures l.Some? ==> nodeCount == old(nodeCount)
      ensures old(CountAccurate()) ==>
                (CountAccurate() <==> old(matrix[node1, node2]).Some? || l.Some?)
    {
      ghost var before := edges;
      CountChange(node1, l, node2);
      var isNewNode := true;
      if matrix[node1, node2].None? {
        WriteCell(node1, l, node2);
        edgeCount := edgeCount + 1;
      } else {
        return;
      }
      assert (node1, node2) !in before;
      assert !directed ==> (node2, node1) !in before;

      for index := 0 to matrix.Length0
        invariant isNewNode <==> forall j :: 0 <= j < index ==> matrix[node1, j].None?
      {
        if matrix[node1, index].Some? {
          isNewNode := false;
          break;
        }
      }
      assert isNewNode == RowEmpty(node1);
      if isNewNode {
        nodeCount := nodeCount + 1;
      }

      isNewNode := true;
      for index := 0 to matrix.Length0
        invariant isNewNode <==> forall i :: 0 <= i < index ==> matrix[i, node2].None?
      {
        if matrix[index, node2].Some? {
          isNewNode := false;
          break;
        }
      }
      assert isNewNode == ColumnEmpty(node2);
      if isNewNode {
        nodeCount := nodeCount + 1;
      }
    }

    /** Clears a non-null cell (both mirrors when undirected) and uncounts the
        edge; then lowers `nodeCount` by one if row node1 is now entirely
        null, or else if column node2 is. A null cell leaves everything
        unchanged. */
    method Remove(node1: nat, node2: nat)
      requires Valid() && node1 < matrix.Length0 && node2 < matrix.Length0
      modifies this, matrix
      ensures Valid()
      ensures forall i, j :: 0 <= i < matrix.Length0 && 0 <= j < matrix.Length0 ==>
                matrix[i, j] == if old(matrix[node1, node2]).Some? &&
                                   ((i == node1 && j == node2) || (!directed && i == node2 && j == node1))
                                then None else old(matrix[i, j])
      ensures edges == GraphSpec.Remove(old(edges), directed, node1, node2)
      ensures edgeCount == old(edgeCount) - (if old(matrix[node1, node2]).Some? then 1 else 0)
      ensures nodeCount == old(nodeCount) -
                if old(matrix[node1, node2]).Some? && (RowEmpty(node1) || ColumnEmpty(node2)) then 1 else 0
      ensures old(CountAccurate()) ==> CountAccurate()
    {
      ghost var before := edges;
      CountChange(node1, None, node2);
      var isNode := true;
      if matrix[node1, node2].Some? {
        WriteCell(node1, None, node2);
        edgeCount := edgeCount - 1;
      } else {
        return;
      }

      for index := 0 to matrix.Length0
        invariant isNode <==> forall j :: 0 <= j < index ==> matrix[node1, j].None?
      {
        if matrix[node1, index].Some? {
          isNode := false;
          break;
        }
      }
      assert isNode == RowEmpty(node1);
      if isNode {
        nodeCount := nodeCount - 1;
        return;
      }
      isNode := true;

      for index := 0 to matrix.Length0
        invariant isNode <==> forall i :: 0 <= i < index ==> matrix[i, node2].None?
      {
        if matrix[index, node2].Some? {
          isNode := false;
          break;
        }
      }
      assert isNode == ColumnEmpty(node2);
      if isNode {
        nodeCount := nodeCount - 1;
      }
    }

    /** Overwrites a non-null cell (both mirrors when undirected); a null cell
        is left alone. A null label therefore deletes the edge without
        uncounting it. */
    method Set(node1: nat, l: Option<T>, node2: nat)
      requires Valid() && node1 < matrix.Length0 && node2 < matrix.Length0
      modifies this, matrix
      ensures Valid()
      ensures forall i, j :: 0 <= i < matrix.Length0 && 0 <= j < matrix.Length0 ==>
                matrix[i, j] == if old(matrix[node1, node2]).Some? &&
                                   ((i == node1 && j == node2) || (!directed && i == node2 && j == node1))
                                then l else old(matrix[i, j])
      ensures l.Some? ==> edges == Relabel(old(edges), directed, node1, l, node2)
      ensures l.None? ==> edges == GraphSpec.Remove(old(edges), directed, node1, node2)
      ensures edgeCount == old(edgeCount) && nodeCount == old(nodeCount)
      ensures old(CountAccurate()) ==>
                (CountAccurate() <==> old(matrix[node1, node2]).None? || l.Some?)
    {
      ghost var before := edges;
      CountChange(node1, l, node2);
      if matrix[node1, node2].Some? {
        WriteCell(node1, l, node2);
      }
    }

    /** The cell's label, null when there is no edge. */
    function Label(node1: nat, node2: nat): (r: Option<T>)
      reads this, matrix
      requires Valid() && node1 < matrix.Length0 && node2 < matrix.Length0
      ensures r.Some? <==> (node1, node2) in edges
      ensures (node1, node2) in edges ==> r == edges[(node1, node2)]
    {
      if matrix[node1, node2].Some? then matrix[node1, node2] else None
    }

    /** True exactly when the cell is non-null. */
    function HasEdge(node1: nat, node2: nat): (r: bool)
      reads this, matrix
      requires Valid() && node1 < matrix.Length0 && node2 < matrix.Length0
      ensures r <==> (node1, node2) in edges
      ensures !directed ==> (r <==> (node2, node1) in edges)
    {
      matrix[node1, node2].Some?
    }

    /** Scans the column and the row of the node (only the row when
        undirected), then removes the duplicates that a two-way edge or a
        self-loop leaves. */
    method Adjacent(node: nat) returns (adjacentNodes: seq<nat>)
      requires Valid() && node < matrix.Length0
      ensures Ascending(adjacentNodes)
      ensures forall x: nat :: x in adjacentNodes <==>
                x < matrix.Length0 && (HasEdge(node, x) || (directed && HasEdge(x, node)))
      ensures Elements(adjacentNodes) == GraphSpec.Adjacent(edges, directed, node)
    {
      adjacentNodes := [];
      for index := 0 to matrix.Length0
        invariant NonDecreasing(adjacentNodes)
        invariant forall i :: 0 <= i < |adjacentNodes| ==> adjacentNodes[i] < index
        invariant forall x: nat :: x in adjacentNodes <==>
                    x < index && (HasEdge(node, x) || (directed && HasEdge(x, node)))
      {
        if directed {
          if HasEdge(index, node) {
            adjacentNodes := adjacentNodes + [index];
          }
          if HasEdge(node, index) {
            adjacentNodes := adjacentNodes + [index];
          }
        } else {
          if HasEdge(node, index) {
            adjacentNodes := adjacentNodes + [index];
          }
        }
      }
      adjacentNodes := RemoveDuplicates(adjacentNodes);
      OutInOfMatrix(node);
    }

    /** Scans the row of the node, then runs the duplicate-removal pass. */
    method OutNodes(node: nat) returns (outNodes: seq<nat>)
      requires Valid() && node < matrix.Length0
      ensures Ascending(outNodes)
      ensures forall x: nat :: x in outNodes <==> x < matrix.Length0 && HasEdge(node, x)
      ensures Elements(outNodes) == Out(edges, node)
    {
      outNodes := [];
      // The source's directed and undirected branches run the same scan.
      for index := 0 to matrix.Length0
        invariant NonDecreasing(outNodes)
        invariant forall i :: 0 <= i < |outNodes| ==> outNodes[i] < index
        invariant forall x: nat :: x in outNodes <==> x < index && HasEdge(node, x)
      {
        if HasEdge(node, index) {
          outNodes := outNodes + [index];
        }
      }
      outNodes := RemoveDuplicates(outNodes);
      OutInOfMatrix(node);
    }

    /** Scans the column of the node, then runs the duplicate-removal pass. */
    method InNodes(node: nat) returns (inNodes: seq<nat>)
      requires Valid() && node < matrix.Length0
      ensures Ascending(inNodes)
      ensures forall x: nat :: x in inNodes <==> x < matrix.Length0 && HasEdge(x, node)
      ensures Elements(inNodes) == In(edges, node)
    {
      inNodes := [];
      // The source's directed and undirected branches run the same scan.
      for index := 0 to matrix.Length0
        invariant NonDecreasing(inNodes)
        invariant forall i :: 0 <= i < |inNodes| ==> inNodes[i] < index
        invariant forall x: nat :: x in inNodes <==> x < index && HasEdge(x, node)
      {
        if HasEdge(index, node) {
          inNodes := inNodes + [index];
        }
      }
      inNodes := RemoveDuplicates(inNodes);
      OutInOfMatrix(node);
    }

    /** The out- and in-neighbours of the abstract graph are read off the
        row and the column of the node. */
    lemma OutInOfMatrix(node: nat)
      requires Valid() && node < matrix.Length0
      ensures forall x: nat :: x in Out(edges, node) <==> x < matrix.Length0 && matrix[node, x].Some?
      ensures forall x: nat :: x in In(edges, node) <==> x < matrix.Length0 && matrix[x, node].Some?
    {
      forall x: nat | x in Out(edges, node) ensures x < matrix.Length0 && matrix[node, x].Some? {
        var p :| p in edges && p.0 == node && p.1 == x;
        assert (node, x) in edges;
      }
      forall x: nat | x < matrix.Length0 && matrix[node, x].Some? ensures x in Out(edges, node) {
        assert (node, x) in edges;
      }
      forall x: nat | x in In(edges, node) ensures x < matrix.Length0 && matrix[x, node].Some? {
        var p :| p in edges && p.1 == node && p.0 == x;
        assert (x, node) in edges;
      }
      forall x: nat | x < matrix.Length0 && matrix[x, node].Some? ensures x in In(edges, node) {
        assert (x, node) in edges;
      }
    }

    /** The counter `nodeCount()` returns as written: it starts at the size of
        the matrix and is moved by `add` and `remove`. */
    function NodeCount(): int
      reads this
    {
      nodeCount
    }

    /** The number of nodes the graph was built with, which `nodeCount()` is
        meant to return: every edge joins two nodes below it. */
    function NodeSpace(): (r: nat)
      reads this, matrix
      ensures Valid() ==> InRange(edges, r)
    {
      matrix.Length0
    }

    /** The edge count, which is the number of edges while no `add` has
        carried a null label and no `set` has written a null label on an
        existing edge. The contract only unfolds `CountAccurate()`; the
        mutators' contracts say when that predicate is kept. */
    function EdgeCount(): (r: int)
      reads this, matrix
      ensures CountAccurate() ==> r == GraphSpec.EdgeCount(edges, directed)
    {
      edgeCount
    }

    /** Whether the graph is directed; when it is not, every edge reads the
        same from both ends. */
    function Directed(): (r: bool)
      reads this, matrix
      ensures Valid() && !r ==> Symmetric(edges)
    {
      directed
    }
  }
}
