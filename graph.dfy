/** The contract shared by both graph stores (the `Graph<T>` interface).
    A graph has a fixed node space 0..n-1, is directed or undirected, and holds
    at most one labelled edge per ordered pair of nodes. The edge relation is a
    map from ordered pairs to labels, so "at most one edge per pair, whatever
    its label" holds by construction; self-loops are ordinary keys (u, u).
    A label is `Option<T>`: `None` is the Java null that callers use for
    unlabelled edges, and it is distinct from "no edge" (no key). */
module GraphSpec {

  datatype Option<T> = None | Some(value: T)

  /** An ordered pair of node indices. */
  type Edge = (nat, nat)

  /** The edge relation: every present ordered pair with its (possibly null) label. */
  type EdgeMap<T> = map<Edge, Option<T>>

  /** Every edge joins two nodes of the node space 0..n-1. */
  ghost predicate InRange<T>(e: EdgeMap<T>, n: nat) {
    forall p :: p in e ==> p.0 < n && p.1 < n
  }

  /** An undirected graph stores each edge in both directions with one label. */
  ghost predicate Symmetric<T>(e: EdgeMap<T>) {
    forall u: nat, v: nat :: (u, v) in e ==> (v, u) in e && e[(v, u)] == e[(u, v)]
  }

  ghost predicate Wf<T>(e: EdgeMap<T>, n: nat, directed: bool) {
    InRange(e, n) && (!directed ==> Symmetric(e))
  }

  /** Writes the label on (u, v), and on (v, u) too when undirected, whether
      or not an edge was there. */
  function Put<T>(e: EdgeMap<T>, directed: bool, u: nat, l: Option<T>, v: nat): (r: EdgeMap<T>)
  {
    if directed then e[(u, v) := l] else e[(u, v) := l][(v, u) := l]
  }

  /** `add`: inserts the edge only when none exists (Graph.java:19-22). */
  function Add<T>(e: EdgeMap<T>, directed: bool, u: nat, l: Option<T>, v: nat): (r: EdgeMap<T>)
    ensures (u, v) in r && r[(u, v)] == (if (u, v) in e then e[(u, v)] else l)
    ensures (u, v) in e ==> r == e
  {
    if (u, v) in e then e else Put(e, directed, u, l, v)
  }

  /** `remove`: deletes the edge if present, otherwise changes nothing (Graph.java:24-25). */
  function Remove<T>(e: EdgeMap<T>, directed: bool, u: nat, v: nat): (r: EdgeMap<T>)
    ensures (u, v) !in r
    ensures r.Keys <= e.Keys
  {
    if (u, v) !in e then e
    else if directed then e - {(u, v)}
    else e - {(u, v), (v, u)}
  }

  /** `set`: relabels an existing edge and never creates one (Graph.java:27-29). */
  function Relabel<T>(e: EdgeMap<T>, directed: bool, u: nat, l: Option<T>, v: nat): (r: EdgeMap<T>)
    ensures (u, v) in e ==> (u, v) in r && r[(u, v)] == l
    ensures (u, v) !in e ==> r == e
  {
    if (u, v) in e then Put(e, directed, u, l, v) else e
  }

  /** Nodes on an out-edge of u. */
  function Out<T>(e: EdgeMap<T>, u: nat): set<nat> {
    set p | p in e && p.0 == u :: p.1
  }

  /** Nodes on an in-edge of v. */
  function In<T>(e: EdgeMap<T>, v: nat): set<nat> {
    set p | p in e && p.1 == v :: p.0
  }

  /** `adjacent`: out- and in-neighbours when directed, the neighbours otherwise. */
  function Adjacent<T>(e: EdgeMap<T>, directed: bool, u: nat): set<nat> {
    if directed then Out(e, u) + In(e, u) else Out(e, u)
  }

  /** The pairs counted once each: every ordered pair when directed, and only
      the pair with the smaller node first when undirected. */
  function Counted<T>(e: EdgeMap<T>, directed: bool): set<Edge> {
    set p | p in e && (directed || p.0 <= p.1)
  }

  /** `edgeCount`: directed edges, or undirected edges counted once (Graph.java:60-63). */
  function EdgeCount<T>(e: EdgeMap<T>, directed: bool): nat {
    |Counted(e, directed)|
  }

  /** Strictly ascending, hence duplicate-free, list of node indices. */
  predicate Ascending(s: seq<nat>) {
    forall i, j :: 0 <= i < j < |s| ==> s[i] < s[j]
  }

  predicate Distinct(s: seq<nat>) {
    forall i, j :: 0 <= i < j < |s| ==> s[i] != s[j]
  }

  /** The set of elements of a list. */
  function Elements(s: seq<nat>): set<nat> {
    set x | x in s
  }

  // ---------------------------------------------------------------------
  // Properties of the contract
  // ---------------------------------------------------------------------

  /** In an undirected graph an edge reads the same from both ends (Graph.java:31-33). */
  lemma UndirectedSymmetry<T>(e: EdgeMap<T>, n: nat, u: nat, v: nat)
    requires Wf(e, n, false)
    ensures (u, v) in e <==> (v, u) in e
    ensures (u, v) in e ==> e[(u, v)] == e[(v, u)]
  {
    if (v, u) in e {
      assert e[(u, v)] == e[(v, u)];
    }
  }

  lemma PutWf<T>(e: EdgeMap<T>, n: nat, directed: bool, u: nat, l: Option<T>, v: nat)
    requires Wf(e, n, directed) && u < n && v < n
    ensures Wf(Put(e, directed, u, l, v), n, directed)
  {
    var r := Put(e, directed, u, l, v);
    if !directed {
      forall a: nat, b: nat | (a, b) in r
        ensures (b, a) in r && r[(b, a)] == r[(a, b)]
      {
        if (a, b) != (u, v) && (a, b) != (v, u) {
          assert (a, b) in e;
        }
      }
    }
  }

  /** `add`, `remove` and `set` keep edges inside the node space and, when
      undirected, mirrored. */
  lemma OperationsKeepWf<T>(e: EdgeMap<T>, n: nat, directed: bool, u: nat, l: Option<T>, v: nat)
    requires Wf(e, n, directed) && u < n && v < n
    ensures Wf(Add(e, directed, u, l, v), n, directed)
    ensures Wf(Remove(e, directed, u, v), n, directed)
    ensures Wf(Relabel(e, directed, u, l, v), n, directed)
  {
    PutWf(e, n, directed, u, l, v);
    var r := Remove(e, directed, u, v);
    if !directed && (u, v) in e {
      forall a: nat, b: nat | (a, b) in r
        ensures (b, a) in r && r[(b, a)] == r[(a, b)]
      {
        assert (a, b) in e;
      }
    }
  }

  /** An edge that is added is counted once: `add` of a new edge raises
      `edgeCount` by exactly one, directed or not (Graph.java:60-63). */
  lemma AddCount<T>(e: EdgeMap<T>, n: nat, directed: bool, u: nat, l: Option<T>, v: nat)
    requires Wf(e, n, directed) && (u, v) !in e
    ensures EdgeCount(Add(e, directed, u, l, v), directed) == EdgeCount(e, directed) + 1
  {
    var r := Add(e, directed, u, l, v);
    var key: Edge := if directed || u <= v then (u, v) else (v, u);
    if !directed {
      UndirectedSymmetry(e, n, u, v);
    }
    assert key !in Counted(e, directed);
    forall p | p in Counted(r, directed)
      ensures p in Counted(e, directed) + {key}
    {
      if p != (u, v) && p != (v, u) {
        assert p in e;
      }
    }
    assert Counted(r, directed) == Counted(e, directed) + {key};
  }

  /** Removing a present edge lowers `edgeCount` by exactly one. */
  lemma RemoveCount<T>(e: EdgeMap<T>, n: nat, directed: bool, u: nat, v: nat)
    requires Wf(e, n, directed) && (u, v) in e
    ensures EdgeCount(Remove(e, directed, u, v), directed) == EdgeCount(e, directed) - 1
  {
    var r := Remove(e, directed, u, v);
    var key: Edge := if directed || u <= v then (u, v) else (v, u);
    if !directed {
      UndirectedSymmetry(e, n, u, v);
    }
    assert key in Counted(e, directed);
    forall p | p in Counted(e, directed) - {key}
      ensures p in Counted(r, directed)
    {
    }
    assert Counted(r, directed) == Counted(e, directed) - {key};
  }

  /** Relabelling never changes which pairs are edges, so never `edgeCount`. */
  lemma RelabelKeepsEdges<T>(e: EdgeMap<T>, n: nat, directed: bool, u: nat, l: Option<T>, v: nat)
    requires Wf(e, n, directed)
    ensures Relabel(e, directed, u, l, v).Keys == e.Keys
    ensures EdgeCount(Relabel(e, directed, u, l, v), directed) == EdgeCount(e, directed)
  {
    if (u, v) in e && !directed {
      UndirectedSymmetry(e, n, u, v);
    }
    assert Relabel(e, directed, u, l, v).Keys == e.Keys;
    assert Counted(Relabel(e, directed, u, l, v), directed) == Counted(e, directed);
  }

  /** Writing a label on an absent pair creates an edge, one more than the
      graph had. */
  lemma PutOnAbsentAddsEdge<T>(e: EdgeMap<T>, n: nat, directed: bool, u: nat, l: Option<T>, v: nat)
    requires Wf(e, n, directed) && (u, v) !in e
    ensures (u, v) in Put(e, directed, u, l, v)
    ensures EdgeCount(Put(e, directed, u, l, v), directed) == EdgeCount(e, directed) + 1
  {
    AddCount(e, n, directed, u, l, v);
  }

  /** `remove` undoes an `add` of a new edge. */
  lemma RemoveUndoesAdd<T>(e: EdgeMap<T>, n: nat, directed: bool, u: nat, l: Option<T>, v: nat)
    requires Wf(e, n, directed) && (u, v) !in e
    ensures Remove(Add(e, directed, u, l, v), directed, u, v) == e
  {
    if !directed {
      UndirectedSymmetry(e, n, u, v);
    }
    var r := Remove(Add(e, directed, u, l, v), directed, u, v);
    assert r.Keys == e.Keys;
  }

  /** `add` with the old label undoes a `remove` of a present edge. */
  lemma AddUndoesRemove<T>(e: EdgeMap<T>, n: nat, directed: bool, u: nat, v: nat)
    requires Wf(e, n, directed) && (u, v) in e
    ensures Add(Remove(e, directed, u, v), directed, u, e[(u, v)], v) == e
  {
    if !directed {
      UndirectedSymmetry(e, n, u, v);
    }
    var r := Add(Remove(e, directed, u, v), directed, u, e[(u, v)], v);
    assert r.Keys == e.Keys;
  }

  /** In an undirected graph out-, in- and adjacent neighbours coincide, so
      `adjacent` is out ∪ in in both kinds of graph (Graph.java:40-55). */
  lemma AdjacentIsOutUnionIn<T>(e: EdgeMap<T>, n: nat, directed: bool, u: nat)
    requires Wf(e, n, directed)
    ensures Adjacent(e, directed, u) == Out(e, u) + In(e, u)
    ensures !directed ==> Out(e, u) == In(e, u)
  {
    if !directed {
      forall x | x in In(e, u) ensures x in Out(e, u) {
        var p :| p in e && p.1 == u && p.0 == x;
        UndirectedSymmetry(e, n, x, u);
        assert (u, x) in e;
      }
      forall x | x in Out(e, u) ensures x in In(e, u) {
        var p :| p in e && p.0 == u && p.1 == x;
        UndirectedSymmetry(e, n, u, x);
        assert (x, u) in e;
      }
    }
  }
}
