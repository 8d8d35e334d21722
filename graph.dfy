/**
  The weighted undirected graph the solvers work on (a networkx `Graph` built
  from an edge list), and the length of a walk through it.
*/
module Graphs {
  import opened Base

  /** Node ids in insertion order, and one non-negative weight per undirected
      edge, stored under the key (smaller id, larger id). */
  datatype Graph = Graph(nodes: seq<int>, weights: map<(int, int), nat>)

  function Key(u: int, v: int): (k: (int, int))
    ensures k.0 <= k.1
    ensures k == (u, v) || k == (v, u)
  {
    if u <= v then (u, v) else (v, u)
  }

  /** `G.has_edge(u, v)`; also whether `G[u][v]` succeeds rather than raising KeyError. */
  predicate HasEdge(g: Graph, u: int, v: int) {
    Key(u, v) in g.weights
  }

  /** `G[u][v]['weight']`. */
  function W(g: Graph, u: int, v: int): nat
    requires HasEdge(g, u, v)
  {
    g.weights[Key(u, v)]
  }

  /** Node ids are unique and every edge joins two nodes of the graph. */
  predicate Valid(g: Graph) {
    && Distinct(g.nodes)
    && forall k :: k in g.weights ==> k.0 in g.nodes && k.1 in g.nodes
  }

  /** Every two distinct nodes are joined by an edge. */
  predicate Complete(g: Graph) {
    forall u, v :: u in g.nodes && v in g.nodes && u != v ==> HasEdge(g, u, v)
  }

  /** Every consecutive pair of the path is an edge, so `G[p[i]][p[i+1]]` never raises. */
  predicate Walkable(g: Graph, p: seq<int>) {
    forall i :: 0 <= i < |p| - 1 ==> HasEdge(g, p[i], p[i + 1])
  }

  /** The sum of the weights of the consecutive pairs of p: no closing edge. */
  function OpenLength(g: Graph, p: seq<int>): nat
    requires Walkable(g, p)
  {
    if |p| < 2 then 0 else W(g, p[0], p[1]) + OpenLength(g, p[1..])
  }

  /** Extending a walk by x keeps it walkable exactly when the last node and x are joined. */
  lemma WalkableAppend(g: Graph, p: seq<int>, x: int)
    requires p != []
    ensures Walkable(g, p + [x]) <==> Walkable(g, p) && HasEdge(g, p[|p| - 1], x)
  {
    var q := p + [x];
    if Walkable(g, q) {
      assert HasEdge(g, q[|p| - 1], q[|p|]);
      forall i | 0 <= i < |p| - 1 ensures HasEdge(g, p[i], p[i + 1]) {
        assert q[i] == p[i] && q[i + 1] == p[i + 1];
      }
    }
  }

  /** Appending x to a walk adds exactly the weight of its last edge. */
  lemma {:induction false} OpenLengthAppend(g: Graph, p: seq<int>, x: int)
    requires p != [] && Walkable(g, p) && HasEdge(g, p[|p| - 1], x)
    ensures Walkable(g, p + [x])
    ensures OpenLength(g, p + [x]) == OpenLength(g, p) + W(g, p[|p| - 1], x)
  {
    WalkableAppend(g, p, x);
    if |p| >= 2 {
      assert (p + [x])[1..] == p[1..] + [x];
      OpenLengthAppend(g, p[1..], x);
    }
  }

  /** The path is not empty and every consecutive pair and the closing pair are edges. */
  predicate TourWalkable(g: Graph, p: seq<int>) {
    p != [] && Walkable(g, p) && HasEdge(g, p[|p| - 1], p[0])
  }

  /** The weight of the round trip along p: consecutive pairs plus the closing edge. */
  function TourWeight(g: Graph, p: seq<int>): nat
    requires TourWalkable(g, p)
  {
    OpenLength(g, p) + W(g, p[|p| - 1], p[0])
  }

  /** A candidate of least weight from current, the first one when several tie: Python's
      `min` keyed on the weight of the edge from current. */
  function Lightest(g: Graph, current: int, cands: seq<int>): (r: int)
    requires cands != []
    requires forall k :: 0 <= k < |cands| ==> HasEdge(g, current, cands[k])
    ensures r in cands
    ensures forall k :: 0 <= k < |cands| ==> W(g, current, r) <= W(g, current, cands[k])
  {
    if |cands| == 1 then cands[0] else
      var m := Lightest(g, current, cands[1..]);
      if W(g, current, cands[0]) <= W(g, current, m) then cands[0] else m
  }
}
