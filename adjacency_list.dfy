/** The adjacency-list store (`AdjacencyList<T>`): one map from neighbour to
    label per node, an edge count kept by hand, and a node count fixed at
    construction. An undirected edge is stored in the maps of both ends.
    Key presence decides "edge present" for `add`, `remove` and the neighbour
    queries, while `hasEdge` also wants a non-null label. */
module AdjacencyListStore {
  import opened GraphSpec

  /** The per-node maps as a value: entry u maps each out-neighbour of u to
      the edge's label. */
  type Maps<T> = seq<map<nat, Option<T>>>

  /** Every key names a node. */
  ghost predicate Closed<T>(m: Maps<T>) {
    forall u, v :: 0 <= u < |m| && v in m[u] ==> v < |m|
  }

  /** Every key is mirrored in the neighbour's map with the same label. */
  ghost predicate Mirrored<T>(m: Maps<T>) {
    forall u, v :: 0 <= u < |m| && v in m[u] ==> v < |m| && u in m[v] && m[v][u] == m[u][v]
  }

  /** `e` is exactly the keys of the maps, with their labels. */
  ghost predicate Holds<T>(m: Maps<T>, e: EdgeMap<T>) {
    (forall u: nat, v: nat :: (u, v) in e <==> u < |m| && v in m[u]) &&
    (forall u: nat, v: nat :: (u, v) in e ==> e[(u, v)] == m[u][v])
  }

  ghost predicate Consistent<T>(m: Maps<T>, e: EdgeMap<T>, directed: bool) {
    Holds(m, e) && Closed(m) && (!directed ==> Mirrored(m))
  }

  /** `put(node2, label)` on the map of node1, then, when undirected,
      `put(node1, label)` on the map of node2. */
  function Insert<T>(m: Maps<T>, directed: bool, u: nat, l: Option<T>, v: nat): (r: Maps<T>)
    requires u < |m| && v < |m|
    ensures |r| == |m|
  {
    var row1: map<nat, Option<T>> := m[u][v := l];
    var m1 := m[u := row1];
    var row2: map<nat, Option<T>> := m1[v][u := l];
    if directed then m1 else m1[v := row2]
  }

  /** `remove(node2)` on the map of node1, then, when undirected,
      `remove(node1)` on the map of node2. */
  function Delete<T>(m: Maps<T>, directed: bool, u: nat, v: nat): (r: Maps<T>)
    requires u < |m| && v < |m|
    ensures |r| == |m|
  {
    var row1: map<nat, Option<T>> := m[u] - {v};
    var m1 := m[u := row1];
    var row2: map<nat, Option<T>> := m1[v] - {u};
    if directed then m1 else m1[v := row2]
  }

  /** Maps kept consistent hold a well-formed edge relation. */
  lemma ConsistentWf<T>(m: Maps<T>, e: EdgeMap<T>, directed: bool)
    requires Consistent(m, e, directed)
    ensures Wf(e, |m|, directed)
  {
    forall p | p in e ensures p.0 < |m| && p.1 < |m| {
      assert p == (p.0, p.1);
    }
    if !directed {
      forall u: nat, v: nat | (u, v) in e
        ensures (v, u) in e && e[(v, u)] == e[(u, v)]
      {
        assert u in m[v];
      }
    }
  }

  /** Writing a label into the maps writes it into the edge relation. */
  lemma InsertConsistent<T>(m: Maps<T>, e: EdgeMap<T>, directed: bool, u: nat, l: Option<T>, v: nat)
    requires Consistent(m, e, directed) && u < |m| && v < |m|
    ensures Consistent(Insert(m, directed, u, l, v), Put(e, directed, u, l, v), directed)
  {
    var r, e' := Insert(m, directed, u, l, v), Put(e, directed, u, l, v);
    forall a: nat, b: nat ensures (a, b) in e' <==> a < |r| && b in r[a] {
      if (a, b) != (u, v) && (!directed ==> (a, b) != (v, u)) {
        assert (a, b) in e' <==> (a, b) in e;
        assert a < |r| ==> (b in r[a] <==> b in m[a]);
      }
    }
    forall a: nat, b: nat | (a, b) in e' ensures e'[(a, b)] == r[a][b] {
      if (a, b) != (u, v) && (!directed ==> (a, b) != (v, u)) {
        assert e'[(a, b)] == e[(a, b)];
      }
    }
    assert Closed(r);
    if !directed {
      forall a, b | 0 <= a < |r| && b in r[a]
        ensures b < |r| && a in r[b] && r[b][a] == r[a][b]
      {
        if (a, b) != (u, v) && (a, b) != (v, u) {
          assert b in m[a];
        }
      }
    }
  }

  /** Deleting a present key from the maps deletes the edge. */
  lemma DeleteConsistent<T>(m: Maps<T>, e: EdgeMap<T>, directed: bool, u: nat, v: nat)
    requires Consistent(m, e, directed) && u < |m| && v < |m| && (u, v) in e
    ensures Consistent(Delete(m, directed, u, v), Remove(e, directed, u, v), directed)
  {
    var r, e' := Delete(m, directed, u, v), Remove(e, directed, u, v);
    forall a: nat, b: nat ensures (a, b) in e' <==> a < |r| && b in r[a] {
      if (a, b) != (u, v) && (!directed ==> (a, b) != (v, u)) {
        assert (a, b) in e' <==> (a, b) in e;
        assert a < |r| ==> (b in r[a] <==> b in m[a]);
      }
    }
    forall a: nat, b: nat | (a, b) in e' ensures e'[(a, b)] == r[a][b] {
      assert e'[(a, b)] == e[(a, b)];
    }
    if !directed {
      forall a, b | 0 <= a < |r| && b in r[a]
        ensures b < |r| && a in r[b] && r[b][a] == r[a][b]
      {
        assert b in m[a];
      }
    }
  }

  /** Writing a label into the maps, as `set` does and as `add` does on an
      absent key: the edge relation gets the label, and the edge count
      grows by one exactly when the key was absent. */
  lemma InsertStep<T>(m: Maps<T>, e: EdgeMap<T>, directed: bool, u: nat, l: Option<T>, v: nat)
    requires Consistent(m, e, directed) && u < |m| && v < |m|
    ensures Consistent(Insert(m, directed, u, l, v), Put(e, directed, u, l, v), directed)
    ensures (u, v) in e ==> Put(e, directed, u, l, v) == Relabel(e, directed, u, l, v)
    ensures EdgeCount(Put(e, directed, u, l, v), directed)
              == EdgeCount(e, directed) + (if (u, v) in e then 0 else 1)
  {
    ConsistentWf(m, e, directed);
    InsertConsistent(m, e, directed, u, l, v);
    if (u, v) in e {
      RelabelKeepsEdges(e, |m|, directed, u, l, v);
    } else {
      PutOnAbsentAddsEdge(e, |m|, directed, u, l, v);
    }
  }

  /** Deleting a present key from the maps removes one edge. */
  lemma DeleteStep<T>(m: Maps<T>, e: EdgeMap<T>, directed: bool, u: nat, v: nat)
    requires Consistent(m, e, directed) && u < |m| && v < |m| && (u, v) in e
    ensures Consistent(Delete(m, directed, u, v), Remove(e, directed, u, v), directed)
    ensures EdgeCount(Remove(e, directed, u, v), directed) == EdgeCount(e, directed) - 1
  {
    ConsistentWf(m, e, directed);
    DeleteConsistent(m, e, directed, u, v);
    RemoveCount(e, |m|, directed, u, v);
  }

  class AdjacencyList<T> {
    /** Number of nodes, numbered 0..nodeCount-1; never reassigned. */
    const nodeCount: nat
    const directed: bool
    var edgeCount: int
    /** Per node, the map from each neighbour on an out-edge to its label. */
    const adjList: array<map<nat, Option<T>>>

    /** The edge relation the maps hold: one edge per key. */
    ghost var edges: EdgeMap<T>

    /** One map per node, `edges` holding exactly their keys and labels, keys
        inside the node space, and undirected edges mirrored with equal labels. */
    ghost predicate Valid()
      reads this, adjList
    {
      adjList.Length == nodeCount && Consistent(adjList[..], edges, directed)
    }

    /** `edgeCount` agrees with the edges the maps hold. */
    ghost predicate CountAccurate()
      reads this, adjList
    {
      edgeCount == GraphSpec.EdgeCount(edges, directed)
    }

    constructor (nodeCount: nat, directed: bool)
      ensures Valid() && CountAccurate()
      ensures this.nodeCount == nodeCount && this.directed == directed
      ensures edgeCount == 0 && edges == map[] && fresh(adjList)
      ensures forall i :: 0 <= i < nodeCount ==> adjList[i] == map[]
    {
      this.nodeCount := nodeCount;
      this.directed := directed;
      edgeCount := 0;
      var maps := new map<nat, Option<T>>[nodeCount];
      for i := 0 to nodeCount
        invariant forall k :: 0 <= k < i ==> maps[k] == map[]
      {
        maps[i] := map[];
      }
      adjList := maps;
      edges := map[];
      new;
      assert Counted(edges, directed) == {};
    }

    /** Adds the edge when its key is absent, mirrored when undirected;
        otherwise nothing changes. */
    method Add(node1: nat, l: Option<T>, node2: nat)
      requires Valid() && node1 < nodeCount && node2 < nodeCount
      modifies this, adjList
      ensures Valid()
      ensures adjList[..] == if node2 in old(adjList[node1]) then old(adjList[..])
                             else Insert(old(adjList[..]), directed, node1, l, node2)
      ensures edges == GraphSpec.Add(old(edges), directed, node1, l, node2)
      ensures edgeCount == old(edgeCount) + (if (node1, node2) in old(edges) then 0 else 1)
      ensures old(CountAccurate()) ==> CountAccurate()
    {
      ghost var m, before := adjList[..], edges;
      if directed {
        if node2 !in adjList[node1] {
          adjList[node1] := adjList[node1][node2 := l];
          edgeCount := edgeCount + 1;
        }
      } else {
        if node2 !in adjList[node1] {
          adjList[node1] := adjList[node1][node2 := l];
          adjList[node2] := adjList[node2][node1 := l];
          edgeCount := edgeCount + 1;
        }
      }
      edges := GraphSpec.Add(before, directed, node1, l, node2);
      if (node1, node2) !in before {
        assert adjList[..] == Insert(m, directed, node1, l, node2);
        InsertStep(m, before, directed, node1, l, node2);
      } else {
        assert adjList[..] == m;
      }
    }

    /** Deletes the edge when its key is present, from both maps when
        undirected; otherwise nothing changes. */
    method Remove(node1: nat, node2: nat)
      requires Valid() && node1 < nodeCount && node2 < nodeCount
      modifies this, adjList
      ensures Valid()
      ensures adjList[..] == if node2 in old(adjList[node1]) then Delete(old(adjList[..]), directed, node1, node2)
                             else old(adjList[..])
      ensures edges == GraphSpec.Remove(old(edges), directed, node1, node2)
      ensures edgeCount == old(edgeCount) - (if (node1, node2) in old(edges) then 1 else 0)
      ensures Label(node1, node2) == None
      ensures old(CountAccurate()) ==> CountAccurate()
    {
      ghost var m, before := adjList[..], edges;
      if directed {
        if node2 in adjList[node1] {
          adjList[node1] := adjList[node1] - {node2};
          edgeCount := edgeCount - 1;
        }
      } else {
        if node2 in adjList[node1] {
          adjList[node1] := adjList[node1] - {node2};
          adjList[node2] := adjList[node2] - {node1};
          edgeCount := edgeCount - 1;
        }
      }
      edges := GraphSpec.Remove(before, directed, node1, node2);
      if (node1, node2) in before {
        assert adjList[..] == Delete(m, directed, node1, node2);
        DeleteStep(m, before, directed, node1, node2);
      } else {
        assert adjList[..] == m;
      }
    }

    /** Writes the label without checking that the edge exists, mirrored when
        undirected, and leaves `edgeCount` alone: on an absent key this
        creates an edge that the count misses. */
    method Set(node1: nat, l: Option<T>, node2: nat)
      requires Valid() && node1 < nodeCount && node2 < nodeCount
      modifies this, adjList
      ensures Valid()
      ensures adjList[..] == Insert(old(adjList[..]), directed, node1, l, node2)
      ensures edges == Put(old(edges), directed, node1, l, node2)
      ensures (node1, node2) in old(edges) ==>
                edges == Relabel(old(edges), directed, node1, l, node2)
      ensures edgeCount == old(edgeCount)
      ensures old(CountAccurate()) ==> (CountAccurate() <==> (node1, node2) in old(edges))
    {
      ghost var m, before := adjList[..], edges;
      if directed {
        adjList[node1] := adjList[node1][node2 := l];
      } else {
        adjList[node1] := adjList[node1][node2 := l];
        adjList[node2] := adjList[node2][node1 := l];
      }
      edges := Put(before, directed, node1, l, node2);
      assert adjList[..] == Insert(m, directed, node1, l, node2);
      InsertStep(m, before, directed, node1, l, node2);
    }

    /** `set` as the interface describes it: relabels an existing edge and
        does nothing when the key is absent, so the edge count stays right. */
    method SetExisting(node1: nat, l: Option<T>, node2: nat)
      requires Valid() && node1 < nodeCount && node2 < nodeCount
      modifies this, adjList
      ensures Valid()
      ensures adjList[..] == if node2 in old(adjList[node1]) then Insert(old(adjList[..]), directed, node1, l, node2)
                             else old(adjList[..])
      ensures edges == Relabel(old(edges), directed, node1, l, node2)
      ensures edgeCount == old(edgeCount)
      ensures old(CountAccurate()) ==> CountAccurate()
    {
      if node2 in adjList[node1] {
        Set(node1, l, node2);
      }
    }

    /** The stored label, or null when the key is absent. */
    function Label(node1: nat, node2: nat): (r: Option<T>)
      reads this, adjList
      requires Valid() && node1 < nodeCount && node2 < nodeCount
      ensures (node1, node2) in edges ==> r == edges[(node1, node2)]
      ensures (node1, node2) !in edges ==> r == None
    {
      if node2 in adjList[node1] then adjList[node1][node2] else None
    }

    /** True exactly when the key is present with a non-null label. */
    function HasEdge(node1: nat, node2: nat): (r: bool)
      reads this, adjList
      requires Valid() && node1 < nodeCount && node2 < nodeCount
      ensures r <==> (node1, node2) in edges && edges[(node1, node2)].Some?
      ensures !directed ==> (r <==> node1 in adjList[node2] && adjList[node2][node1].Some?)
    {
      Label(node1, node2).Some?
    }

    /** Neighbours on out- or in-edges when directed, on edges otherwise. */
    method Adjacent(node: nat) returns (nodesList: seq<nat>)
      requires Valid() && node < nodeCount
      ensures Ascending(nodesList)
      ensures forall x: nat :: x in nodesList <==>
                x < nodeCount && (x in adjList[node] || (directed && node in adjList[x]))
      ensures Elements(nodesList) == GraphSpec.Adjacent(edges, directed, node)
    {
      nodesList := [];
      if directed {
        for index := 0 to nodeCount
          invariant Ascending(nodesList)
          invariant forall i :: 0 <= i < |nodesList| ==> nodesList[i] < index
            invariant forall x: nat :: x in nodesList <==>
                      x < index && (x in adjList[node] || node in adjList[x])
        {
          if (index in adjList[node] || node in adjList[index]) && index !in nodesList {
            nodesList := nodesList + [index];
          }
        }
      } else {
        for index := 0 to nodeCount
          invariant Ascending(nodesList)
          invariant forall i :: 0 <= i < |nodesList| ==> nodesList[i] < index
            invariant forall x: nat :: x in nodesList <==> x < index && x in adjList[node]
        {
          if index in adjList[node] && index !in nodesList {
            nodesList := nodesList + [index];
          }
        }
      }
      OutInOfMaps(node);
    }

    /** Neighbours on out-edges. */
    method OutNodes(node: nat) returns (nodesList: seq<nat>)
      requires Valid() && node < nodeCount
      ensures Ascending(nodesList)
      ensures forall x: nat :: x in nodesList <==> x < nodeCount && x in adjList[node]
      ensures Elements(nodesList) == Out(edges, node)
    {
      nodesList := [];
      for index := 0 to nodeCount
        invariant Ascending(nodesList)
        invariant forall i :: 0 <= i < |nodesList| ==> nodesList[i] < index
        invariant forall x: nat :: x in nodesList <==> x < index && x in adjList[node]
      {
        if index in adjList[node] && index !in nodesList {
          nodesList := nodesList + [index];
        }
      }
      OutInOfMaps(node);
    }

    /** Neighbours on in-edges. */
    method InNodes(node: nat) returns (nodesList: seq<nat>)
      requires Valid() && node < nodeCount
      ensures Ascending(nodesList)
      ensures forall x: nat :: x in nodesList <==> x < nodeCount && node in adjList[x]
      ensures Elements(nodesList) == In(edges, node)
    {
      nodesList := [];
      for index := 0 to nodeCount
        invariant Ascending(nodesList)
        invariant forall i :: 0 <= i < |nodesList| ==> nodesList[i] < index
        invariant forall x: nat :: x in nodesList <==> x < index && node in adjList[x]
      {
        if node in adjList[index] && index !in nodesList {
          nodesList := nodesList + [index];
        }
      }
      OutInOfMaps(node);
    }

    /** The out- and in-neighbours of the abstract graph are read off the maps. */
    lemma OutInOfMaps(node: nat)
      requires Valid() && node < nodeCount
      ensures forall x: nat :: x in Out(edges, node) <==> x < nodeCount && x in adjList[node]
      ensures forall x: nat :: x in In(edges, node) <==> x < nodeCount && node in adjList[x]
    {
      var e := edges;
      forall x | x in Out(e, node) ensures x < nodeCount && x in adjList[node] {
        var p :| p in e && p.0 == node && p.1 == x;
      }
      forall x: nat | x < nodeCount && x in adjList[node] ensures x in Out(e, node) {
        assert (node, x) in e;
      }
      forall x | x in In(e, node) ensures x < nodeCount && node in adjList[x] {
        var p :| p in e && p.1 == node && p.0 == x;
      }
      forall x: nat | x < nodeCount && node in adjList[x] ensures x in In(e, node) {
        assert (x, node) in e;
      }
    }

    /** The node count is the number of maps, fixed at construction. */
    function NodeCount(): (r: nat)
      reads this, adjList
      ensures Valid() ==> r == adjList.Length && InRange(edges, r)
    {
      nodeCount
    }

    /** The edge count, which is the number of edges while every `set` has
        hit an existing edge. The contract only unfolds `CountAccurate()`;
        the mutators' contracts say when that predicate is kept. */
    function EdgeCount(): (r: int)
      reads this, adjList
      ensures CountAccurate() ==> r == GraphSpec.EdgeCount(edges, directed)
    {
      edgeCount
    }

    /** Whether the graph is directed; when it is not, every edge reads the
        same from both ends. */
    function Directed(): (r: bool)
      reads this, adjList
      ensures Valid() && !r ==> Symmetric(edges)
    {
      directed
    }
  }
}
