/**
  Depth-first branch and bound: the lower bound of a partial tour (the weight of a
  spanning tree of the unvisited nodes plus the two lightest edges that join them
  to the ends of the path), the recursive worker, and the driver that runs the
  worker on the root item and keeps its result.

  The search is specified by total functions that read weights through Wt; the
  worker method runs on items whose lookups all succeed, where Wt is W.
*/
module BranchAndBound {
  import opened Base
  import opened Graphs

  /** The weight the search reads for the pair u, v: `G[u][v]['weight']` when the edge exists. */
  function Wt(g: Graph, u: int, v: int): nat {
    if HasEdge(g, u, v) then W(g, u, v) else 0
  }

  /** The node of vs nearest to u, the first one when several tie. */
  function Nearest(g: Graph, u: int, vs: seq<int>): (r: int)
    requires vs != []
    ensures r in vs
    ensures forall k :: 0 <= k < |vs| ==> Wt(g, u, r) <= Wt(g, u, vs[k])
  {
    if |vs| == 1 then vs[0] else
      var m := Nearest(g, u, vs[1..]);
      if Wt(g, u, vs[0]) <= Wt(g, u, m) then vs[0] else m
  }

  /** `min(G.edges[u, v]['weight'] for v in vs)`. */
  function MinTo(g: Graph, u: int, vs: seq<int>): (m: nat)
    requires vs != []
    ensures forall k :: 0 <= k < |vs| ==> m <= Wt(g, u, vs[k])
    ensures exists k :: 0 <= k < |vs| && m == Wt(g, u, vs[k])
  {
    var r := Nearest(g, u, vs);
    assert exists k :: 0 <= k < |vs| && vs[k] == r;
    Wt(g, u, r)
  }

  /** The position of a least element, the first one when several tie. */
  function ArgMin(xs: seq<nat>): (j: nat)
    requires xs != []
    ensures j < |xs|
    ensures forall k :: 0 <= k < |xs| ==> xs[j] <= xs[k]
    ensures forall k :: 0 <= k < j ==> xs[j] < xs[k]
  {
    if |xs| == 1 then 0 else
      var j := ArgMin(xs[1..]);
      if xs[0] <= xs[1..][j] then 0 else j + 1
  }

  /** For each node left, the weight of its lightest edge into the tree. */
  function JoinCosts(g: Graph, tree: seq<int>, rest: seq<int>): (cs: seq<nat>)
    requires tree != []
    ensures |cs| == |rest|
    ensures forall k :: 0 <= k < |rest| ==> cs[k] == MinTo(g, rest[k], tree)
  {
    if rest == [] then [] else [MinTo(g, rest[0], tree)] + JoinCosts(g, tree, rest[1..])
  }

  /** The index in rest of a node that is cheapest to join to the tree, the first one on ties. */
  function CheapestJoin(g: Graph, tree: seq<int>, rest: seq<int>): (j: nat)
    requires tree != [] && rest != []
    ensures j < |rest|
    ensures forall k :: 0 <= k < |rest| ==> MinTo(g, rest[j], tree) <= MinTo(g, rest[k], tree)
  {
    ArgMin(JoinCosts(g, tree, rest))
  }

  /** Prim's algorithm: grow the tree from `tree` by the cheapest attachment until `rest` is
      used up; the edges (tree node, new node, weight) in the order they are added. */
  function PrimEdges(g: Graph, tree: seq<int>, rest: seq<int>): (es: seq<(int, int, nat)>)
    requires tree != []
    ensures |es| == |rest|
    decreases |rest|
  {
    if rest == [] then [] else
      var j := CheapestJoin(g, tree, rest);
      var v := rest[j];
      [(Nearest(g, v, tree), v, MinTo(g, v, tree))] + PrimEdges(g, tree + [v], RemoveAt(rest, j))
  }

  /** The sum of the weights of a list of edges. */
  function EdgeSum(es: seq<(int, int, nat)>): nat {
    if es == [] then 0 else es[0].2 + EdgeSum(es[1..])
  }

  /** `sum(edge weights of nx.minimum_spanning_edges(G.subgraph(vs)))`, computed with Prim's
      algorithm from the first node of vs. */
  function MstWeight(g: Graph, vs: seq<int>): nat {
    if vs == [] then 0 else EdgeSum(PrimEdges(g, [vs[0]], vs[1..]))
  }

  /** The second ends of the edges: the nodes in the order Prim's algorithm adds them. */
  function Targets(es: seq<(int, int, nat)>): (r: seq<int>)
    ensures |r| == |es| && forall k :: 0 <= k < |es| ==> r[k] == es[k].1
  {
    if es == [] then [] else [es[0].1] + Targets(es[1..])
  }

  /** Prim's edges form a spanning tree hanging from the start tree: each adds a new node of
      rest, every node of rest is added exactly once, each edge starts at a node of the start
      tree or at a node added before it, and its weight is that of the edge. */
  lemma {:induction false} PrimSpans(g: Graph, tree: seq<int>, rest: seq<int>)
    requires tree != []
    ensures var es := PrimEdges(g, tree, rest);
      && multiset(Targets(es)) == multiset(rest)
      && (forall k :: 0 <= k < |es| ==> es[k].0 in tree || es[k].0 in Targets(es)[..k])
      && (forall k :: 0 <= k < |es| ==> es[k].2 == Wt(g, es[k].1, es[k].0))
    decreases |rest|
  {
    if rest != [] {
      var j := CheapestJoin(g, tree, rest);
      var v := rest[j];
      var rest' := RemoveAt(rest, j);
      PrimSpans(g, tree + [v], rest');
      var es := PrimEdges(g, tree, rest);
      var es' := PrimEdges(g, tree + [v], rest');
      assert es == [(Nearest(g, v, tree), v, MinTo(g, v, tree))] + es';
      PrimSpansStep(g, tree, v, es, es');
    }
  }

  /** The induction step of PrimSpans, on the edge lists alone. */
  lemma PrimSpansStep(g: Graph, tree: seq<int>, v: int, es: seq<(int, int, nat)>, es': seq<(int, int, nat)>)
    requires es != [] && es[0].0 in tree && es[0].1 == v && es[1..] == es'
    requires es[0].2 == Wt(g, es[0].1, es[0].0)
    requires forall k :: 0 <= k < |es'| ==> es'[k].0 in tree + [v] || es'[k].0 in Targets(es')[..k]
    requires forall k :: 0 <= k < |es'| ==> es'[k].2 == Wt(g, es'[k].1, es'[k].0)
    ensures Targets(es) == [v] + Targets(es')
    ensures forall k :: 0 <= k < |es| ==> es[k].0 in tree || es[k].0 in Targets(es)[..k]
    ensures forall k :: 0 <= k < |es| ==> es[k].2 == Wt(g, es[k].1, es[k].0)
  {
    assert Targets(es) == [v] + Targets(es');
    forall k | 0 < k < |es| ensures es[k].0 in tree || es[k].0 in Targets(es)[..k] {
      assert es[k] == es'[k - 1];
      assert Targets(es)[..k] == [v] + Targets(es')[..k - 1];
    }
    forall k | 0 < k < |es| ensures es[k].2 == Wt(g, es[k].1, es[k].0) {
      assert es[k] == es'[k - 1];
    }
  }

  /** `calculate_lower_bound`: 0 when nothing is left; otherwise the weight of a minimum
      spanning tree of the unvisited nodes plus the lightest edge from the last node of the path
      into them plus the lightest edge from the first node of the path into them. */
  function LowerBound(g: Graph, path: seq<int>, unvisited: seq<int>): nat
    requires path != []
  {
    if unvisited == [] then 0 else
      MstWeight(g, unvisited) + MinTo(g, path[|path| - 1], unvisited) + MinTo(g, path[0], unvisited)
  }

  /** With one node left the bound is exact: it is the weight of going to that node and
      closing the tour from it. */
  lemma LowerBoundLast(g: Graph, path: seq<int>, v: int)
    requires path != []
    ensures LowerBound(g, path, [v]) == Wt(g, path[|path| - 1], v) + Wt(g, path[0], v)
  {
    assert [v][1..] == [];
    assert MstWeight(g, [v]) == 0;
  }

  /** The result of a search: Python's pair (best_cost, best_path), where the cost may be
      float('inf') and the path None. */
  datatype Outcome = Outcome(cost: Cost, path: Option<seq<int>>)

  /** The outcome is a finite cost of at least `cost` and a path that extends `path` by the
      unvisited nodes in some order. */
  predicate Completes(o: Outcome, cost: nat, path: seq<int>, unvisited: seq<int>) {
    && o.cost.Fin? && o.cost.n >= cost
    && o.path.Some? && path <= o.path.value
    && multiset(o.path.value[|path|..]) == multiset(unvisited)
  }

  /** `branch_and_bound_worker(G, (cost, path, unvisited))`, as written: a full path is closed
      with its last edge; otherwise each unvisited node v is tried in turn, its bound is the
      cost so far plus the edge to v plus the lower bound of what is left, and when that bound
      is below the best cost so far the search below v runs with the bound as its cost and its
      result replaces the best without a further comparison. */
  function Search(g: Graph, cost: nat, path: seq<int>, unvisited: seq<int>): (o: Outcome)
    requires path != []
    ensures Completes(o, cost, path, unvisited)
    decreases |unvisited|, 1
  {
    if unvisited == [] then
      assert path[|path|..] == [];
      Outcome(Fin(cost + Wt(g, path[|path| - 1], path[0])), Some(path))
    else
      Expand(g, cost, path, unvisited, 0, Outcome(Inf, None))
  }

  /** The loop of the worker from index i on, with best as the best (cost, path) so far. */
  function Expand(g: Graph, cost: nat, path: seq<int>, unvisited: seq<int>, i: nat, best: Outcome): (o: Outcome)
    requires path != [] && i <= |unvisited|
    ensures Completes(best, cost, path, unvisited) || (best.cost == Inf && i < |unvisited|) ==>
      Completes(o, cost, path, unvisited)
    decreases |unvisited|, 0, |unvisited| - i
  {
    if i == |unvisited| then best else
      var bound := Bound(g, cost, path, unvisited, i);
      var best' := if Fin(bound).Below(best.cost) then Search(g, bound, path + [unvisited[i]], RemoveAt(unvisited, i)) else best;
      CompletesChild(best', cost, bound, path, unvisited, i);
      Expand(g, cost, path, unvisited, i + 1, best')
  }

  /** The bound of the child that visits the unvisited node at index i: the cost so far, the
      edge to that node, and the lower bound of what is then left. */
  function Bound(g: Graph, cost: nat, path: seq<int>, unvisited: seq<int>, i: nat): (b: nat)
    requires path != [] && i < |unvisited|
    ensures b >= cost + Wt(g, path[|path| - 1], unvisited[i])
  {
    cost + Wt(g, path[|path| - 1], unvisited[i]) + LowerBound(g, path + [unvisited[i]], RemoveAt(unvisited, i))
  }

  /** A completion of the child item is a completion of the parent item. */
  lemma CompletesChild(o: Outcome, cost: nat, bound: nat, path: seq<int>, unvisited: seq<int>, i: nat)
    requires i < |unvisited| && cost <= bound
    ensures Completes(o, bound, path + [unvisited[i]], RemoveAt(unvisited, i)) ==>
      Completes(o, cost, path, unvisited)
  {
    if Completes(o, bound, path + [unvisited[i]], RemoveAt(unvisited, i)) {
      var p := o.path.value;
      assert p[|path|..] == [unvisited[i]] + p[|path| + 1..];
      assert multiset(RemoveAt(unvisited, i)) + multiset{unvisited[i]} == multiset(unvisited);
    }
  }

  /** One turn of the worker's loop, as Expand sees it. */
  lemma ExpandStep(g: Graph, cost: nat, path: seq<int>, unvisited: seq<int>, i: nat, best: Outcome)
    requires path != [] && i < |unvisited|
    ensures var bound := Bound(g, cost, path, unvisited, i);
      Expand(g, cost, path, unvisited, i, best) == Expand(g, cost, path, unvisited, i + 1,
        if Fin(bound).Below(best.cost) then Search(g, bound, path + [unvisited[i]], RemoveAt(unvisited, i)) else best)
  {
  }

  /** The nodes of xs are distinct nodes of g, and g joins every two distinct nodes. */
  ghost predicate Joined(g: Graph, xs: seq<int>) {
    Complete(g) && Distinct(xs) && forall k :: 0 <= k < |xs| ==> xs[k] in g.nodes
  }

  /** A queue item (cost, path, unvisited) on which every lookup of the worker succeeds: the
      path and the unvisited nodes are distinct nodes of a complete graph, and a path of one node
      with nothing left has the self-loop `G[n][n]` the worker reads. */
  ghost predicate Item(g: Graph, path: seq<int>, unvisited: seq<int>) {
    && path != []
    && Joined(g, path + unvisited)
    && (|path| + |unvisited| == 1 ==> HasEdge(g, path[0], path[0]))
  }

  /** A rearrangement of a sequence without repeats has no repeats. */
  lemma DistinctByMultiset(a: seq<int>, b: seq<int>)
    requires Distinct(a) && multiset(a) == multiset(b)
    ensures Distinct(b)
  {
    forall i, j | 0 <= i < j < |b| ensures b[i] != b[j] {
      if b[i] == b[j] {
        var x := b[i];
        assert multiset(b)[x] >= 2 by {
          assert b == b[..j] + b[j..];
          assert x in b[..j];
          assert multiset(b[..j])[x] >= 1 && multiset(b[j..])[x] >= 1;
        }
        DistinctCount(a, x);
      }
    }
  }

  /** In a sequence without repeats every element occurs once. */
  lemma {:induction false} DistinctCount(a: seq<int>, x: int)
    requires Distinct(a)
    ensures multiset(a)[x] <= 1
  {
    if a != [] {
      var t := a[..|a| - 1];
      assert a == t + [a[|a| - 1]];
      assert Distinct(t);
      DistinctCount(t, x);
      if x == a[|a| - 1] {
        assert x !in t;
      }
    }
  }

  /** Two distinct nodes of a joined sequence have an edge. */
  lemma JoinedEdge(g: Graph, xs: seq<int>, i: nat, j: nat)
    requires Joined(g, xs) && i < |xs| && j < |xs| && i != j
    ensures HasEdge(g, xs[i], xs[j])
  {
  }

  /** Moving the node at index i of b to the end of a keeps the nodes distinct nodes of g. */
  lemma JoinedMove(g: Graph, a: seq<int>, b: seq<int>, i: nat)
    requires i < |b| && Joined(g, a + b)
    ensures Joined(g, a + [b[i]] + RemoveAt(b, i))
  {
    var all := a + b;
    var next := a + [b[i]] + RemoveAt(b, i);
    assert multiset(next) == multiset(all) by {
      assert multiset(RemoveAt(b, i)) + multiset{b[i]} == multiset(b);
    }
    DistinctByMultiset(all, next);
    forall k | 0 <= k < |next| ensures next[k] in g.nodes {
      assert next[k] in multiset(all);
    }
  }

  /** The closing edge of a full path exists. */
  lemma LeafEdge(g: Graph, path: seq<int>)
    requires Item(g, path, [])
    ensures HasEdge(g, path[|path| - 1], path[0])
  {
    assert path + [] == path;
    if |path| > 1 {
      JoinedEdge(g, path, |path| - 1, 0);
    }
  }

  /** Visiting the unvisited node at index i gives an item again, along an edge of g. */
  lemma ChildItem(g: Graph, path: seq<int>, unvisited: seq<int>, i: nat)
    requires Item(g, path, unvisited) && i < |unvisited|
    ensures HasEdge(g, path[|path| - 1], unvisited[i])
    ensures Item(g, path + [unvisited[i]], RemoveAt(unvisited, i))
  {
    var all := path + unvisited;
    assert all[|path| - 1] == path[|path| - 1] && all[|path| + i] == unvisited[i];
    JoinedEdge(g, all, |path| - 1, |path| + i);
    JoinedMove(g, path, unvisited, i);
  }

  /** The worker, recursive as in the source, computes exactly Search. */
  method BranchAndBoundWorker(g: Graph, cost: nat, path: seq<int>, unvisited: seq<int>)
    returns (bestCost: Cost, bestPath: Option<seq<int>>)
    requires Item(g, path, unvisited)
    ensures Outcome(bestCost, bestPath) == Search(g, cost, path, unvisited)
    decreases |unvisited|
  {
    if unvisited == [] {
      LeafEdge(g, path);
      return Fin(cost + W(g, path[|path| - 1], path[0])), Some(path);
    }
    bestCost, bestPath := Inf, None;
    for i := 0 to |unvisited|
      invariant Expand(g, cost, path, unvisited, i, Outcome(bestCost, bestPath)) == Search(g, cost, path, unvisited)
    {
      var v := unvisited[i];
      var nextPath := path + [v];
      var nextUnvisited := RemoveAt(unvisited, i);
      ChildItem(g, path, unvisited, i);
      var nextCost := cost + W(g, path[|path| - 1], v);
      var lowerBound := nextCost + LowerBound(g, nextPath, nextUnvisited);
      ghost var best := Outcome(bestCost, bestPath);
      ghost var best' := if Fin(lowerBound).Below(bestCost) then Search(g, lowerBound, nextPath, nextUnvisited) else best;
      WorkerStep(g, cost, path, unvisited, i, best, lowerBound, best');
      if Fin(lowerBound).Below(bestCost) {
        bestCost, bestPath := BranchAndBoundWorker(g, lowerBound, nextPath, nextUnvisited);
      }
      assert Outcome(bestCost, bestPath) == best';
    }
  }

  /** One turn of the worker's loop: the bound the worker computes is Bound, and the
      loop moves on as Expand does. */
  lemma WorkerStep(g: Graph, cost: nat, path: seq<int>, unvisited: seq<int>, i: nat, best: Outcome, lowerBound: nat, best': Outcome)
    requires path != [] && i < |unvisited|
    requires HasEdge(g, path[|path| - 1], unvisited[i])
    requires lowerBound == cost + W(g, path[|path| - 1], unvisited[i]) + LowerBound(g, path + [unvisited[i]], RemoveAt(unvisited, i))
    requires best' == if Fin(lowerBound).Below(best.cost) then Search(g, lowerBound, path + [unvisited[i]], RemoveAt(unvisited, i)) else best
    ensures Expand(g, cost, path, unvisited, i, best) == Expand(g, cost, path, unvisited, i + 1, best')
  {
    assert lowerBound == Bound(g, cost, path, unvisited, i);
    ExpandStep(g, cost, path, unvisited, i, best);
  }

  /** The cost a search reports is finite and never below the weight of the tour it reports. */
  predicate Overestimates(g: Graph, o: Outcome) {
    && o.cost.Fin? && o.path.Some? && TourWalkable(g, o.path.value)
    && o.cost.n >= TourWeight(g, o.path.value)
  }

  /** On an item whose cost covers the path so far, the search reports a tour of the graph and a
      cost no lower than that tour's weight. */
  lemma {:induction false} SearchOverestimates(g: Graph, cost: nat, path: seq<int>, unvisited: seq<int>)
    requires Item(g, path, unvisited) && Walkable(g, path) && cost >= OpenLength(g, path)
    ensures Overestimates(g, Search(g, cost, path, unvisited))
    decreases |unvisited|, 1
  {
    if unvisited == [] {
      LeafEdge(g, path);
    } else {
      ExpandOverestimates(g, cost, path, unvisited, 0, Outcome(Inf, None));
    }
  }

  lemma {:induction false} ExpandOverestimates(g: Graph, cost: nat, path: seq<int>, unvisited: seq<int>, i: nat, best: Outcome)
    requires Item(g, path, unvisited) && i <= |unvisited|
    requires Walkable(g, path) && cost >= OpenLength(g, path)
    requires Overestimates(g, best) || (best.cost == Inf && i < |unvisited|)
    ensures Overestimates(g, Expand(g, cost, path, unvisited, i, best))
    decreases |unvisited|, 0, |unvisited| - i
  {
    if i < |unvisited| {
      ChildItem(g, path, unvisited, i);
      var v := unvisited[i];
      OpenLengthAppend(g, path, v);
      var bound := Bound(g, cost, path, unvisited, i);
      ExpandStep(g, cost, path, unvisited, i, best);
      if Fin(bound).Below(best.cost) {
        SearchOverestimates(g, bound, path + [v], RemoveAt(unvisited, i));
      }
      var best' := if Fin(bound).Below(best.cost) then Search(g, bound, path + [v], RemoveAt(unvisited, i)) else best;
      ExpandOverestimates(g, cost, path, unvisited, i + 1, best');
    }
  }

  /** `(cost, path, unvisited)`, an entry of the driver's queue. */
  datatype QueueItem = QueueItem(cost: nat, path: seq<int>, unvisited: seq<int>)

  /** The reduction over finished workers, in order: a result replaces the best only when its
      cost is strictly below the best cost so far. */
  function KeepBest(best: Outcome, results: seq<Outcome>): (o: Outcome)
    ensures o == best || o in results
    ensures o.cost == best.cost || o.cost.Below(best.cost)
    ensures forall k :: 0 <= k < |results| ==> !results[k].cost.Below(o.cost)
    decreases |results|
  {
    if results == [] then best
    else KeepBest(if results[0].cost.Below(best.cost) then results[0] else best, results[1..])
  }

  /** The driver's loop over finished futures, with the best (cost, path) so far. */
  method Collect(results: seq<Outcome>, bestCost: Cost, bestPath: Option<seq<int>>)
    returns (newCost: Cost, newPath: Option<seq<int>>)
    ensures Outcome(newCost, newPath) == KeepBest(Outcome(bestCost, bestPath), results)
  {
    newCost, newPath := bestCost, bestPath;
    for k := 0 to |results|
      invariant KeepBest(Outcome(newCost, newPath), results[k..]) == KeepBest(Outcome(bestCost, bestPath), results)
    {
      assert results[k..][1..] == results[k + 1..];
      if results[k].cost.Below(newCost) {
        newCost, newPath := results[k].cost, results[k].path;
      }
    }
  }

  /** The first node followed by the others is an item when the graph is a valid complete graph
      and, for a single node, has the self-loop the worker reads. */
  lemma RootItem(g: Graph)
    requires Valid(g) && Complete(g) && g.nodes != []
    requires |g.nodes| > 1 || HasEdge(g, g.nodes[0], g.nodes[0])
    ensures Item(g, [g.nodes[0]], g.nodes[1..])
  {
    assert [g.nodes[0]] + g.nodes[1..] == g.nodes;
  }

  /** What the search from the first node returns is a tour of the graph: it starts at the
      first node, holds every node exactly once, and each of its edges exists. */
  lemma RootTour(g: Graph)
    requires Valid(g) && Complete(g) && g.nodes != []
    requires |g.nodes| > 1 || HasEdge(g, g.nodes[0], g.nodes[0])
    ensures var o := Search(g, 0, [g.nodes[0]], g.nodes[1..]);
      && o.path.Some? && o.path.value[0] == g.nodes[0]
      && multiset(o.path.value) == multiset(g.nodes)
      && TourWalkable(g, o.path.value)
  {
    var n0 := g.nodes[0];
    RootItem(g);
    SearchOverestimates(g, 0, [n0], g.nodes[1..]);
    var p := Search(g, 0, [n0], g.nodes[1..]).path.value;
    assert p == [n0] + p[1..];
    assert g.nodes == [n0] + g.nodes[1..];
  }

  /** `branch_and_bound_tsp_optimized`, run sequentially: the queue holds only the root item
      (cost 0, the first node, the other nodes); its worker result is collected, immediately
      when `max_workers` is 1 and after the loop otherwise, and its path is returned. An empty
      graph raises IndexError (`nodes[0]`), a worker count below 1 raises ValueError
      (`ThreadPoolExecutor`), and a single node without a self-loop raises the worker's KeyError. */
  method BranchAndBoundTsp(g: Graph, maxWorkers: int) returns (r: Result<Option<seq<int>>>)
    requires Valid(g) && Complete(g)
    ensures g.nodes == [] ==> r == Err(IndexError)
    ensures g.nodes != [] && maxWorkers < 1 ==> r == Err(ValueError)
    ensures g.nodes != [] && maxWorkers >= 1 && |g.nodes| == 1 && !HasEdge(g, g.nodes[0], g.nodes[0]) ==>
      r == Err(KeyError)
    ensures r.Ok? <==> g.nodes != [] && maxWorkers >= 1 && (|g.nodes| > 1 || HasEdge(g, g.nodes[0], g.nodes[0]))
    ensures r.Ok? ==> r.value == Search(g, 0, [g.nodes[0]], g.nodes[1..]).path
    ensures r.Ok? ==> (r.value.Some? && r.value.value[0] == g.nodes[0]
      && multiset(r.value.value) == multiset(g.nodes) && TourWalkable(g, r.value.value))
  {
    var nodes := g.nodes;
    if |nodes| == 0 {
      return Err(IndexError);
    }
    var root := QueueItem(0, [nodes[0]], nodes[1..]);
    var queue := [root];
    var bestCost: Cost := Inf;
    var bestPath: Option<seq<int>> := None;
    if maxWorkers < 1 {
      return Err(ValueError);
    }
    if |nodes| == 1 && !HasEdge(g, nodes[0], nodes[0]) {
      return Err(KeyError);
    }
    RootItem(g);
    RootTour(g);
    ghost var found := Search(g, 0, [nodes[0]], nodes[1..]);
    var futures: seq<Outcome> := [];
    while queue != []
      invariant queue == [] || queue == [root]
      invariant queue == [root] ==> futures == [] && bestCost == Inf && bestPath == None
      invariant queue == [] ==>
        ((futures == [found] && bestCost == Inf && bestPath == None) || (futures == [] && Outcome(bestCost, bestPath) == found))
      decreases |queue|
    {
      var item := queue[0];
      queue := queue[1..];
      var cost, path := BranchAndBoundWorker(g, item.cost, item.path, item.unvisited);
      futures := futures + [Outcome(cost, path)];
      if |futures| >= maxWorkers {
        bestCost, bestPath := Collect(futures, bestCost, bestPath);
        futures := [];
      }
    }
    bestCost, bestPath := Collect(futures, bestCost, bestPath);
    return Ok(bestPath);
  }

  /** The children from index i on, all but the last, have bounds above b. */
  predicate BoundsAbove(g: Graph, cost: nat, path: seq<int>, unvisited: seq<int>, i: nat, b: nat)
    requires path != []
    decreases |unvisited| - i
  {
    i + 1 >= |unvisited| || (Bound(g, cost, path, unvisited, i) > b && BoundsAbove(g, cost, path, unvisited, i + 1, b))
  }

  /** The worker keeps the result of the last child it explores: when the bound of the last
      unvisited node is below the bounds of all the others, the search returns exactly what the
      search below that last node returns, whatever the others found. */
  lemma LastChildWins(g: Graph, cost: nat, path: seq<int>, unvisited: seq<int>, bound: nat, next: seq<int>, rest: seq<int>)
    requires path != [] && unvisited != []
    requires bound == Bound(g, cost, path, unvisited, |unvisited| - 1)
    requires BoundsAbove(g, cost, path, unvisited, 0, bound)
    requires next == path + [unvisited[|unvisited| - 1]] && rest == unvisited[..|unvisited| - 1]
    ensures Search(g, cost, path, unvisited) == Search(g, bound, next, rest)
  {
    assert RemoveAt(unvisited, |unvisited| - 1) == rest;
    BoundsAboveAll(g, cost, path, unvisited, 0, bound);
    ExpandUpToLast(g, cost, path, unvisited, 0, Outcome(Inf, None), bound);
  }

  lemma {:induction false} BoundsAboveAll(g: Graph, cost: nat, path: seq<int>, unvisited: seq<int>, i: nat, b: nat)
    requires path != [] && BoundsAbove(g, cost, path, unvisited, i, b)
    ensures forall k :: i <= k < |unvisited| - 1 ==> Bound(g, cost, path, unvisited, k) > b
    decreases |unvisited| - i
  {
    if i + 1 < |unvisited| {
      BoundsAboveAll(g, cost, path, unvisited, i + 1, b);
    }
  }

  lemma {:induction false} ExpandUpToLast(g: Graph, cost: nat, path: seq<int>, unvisited: seq<int>, i: nat, best: Outcome, bound: nat)
    requires path != [] && i < |unvisited|
    requires bound == Bound(g, cost, path, unvisited, |unvisited| - 1)
    requires forall k :: i <= k < |unvisited| - 1 ==> Bound(g, cost, path, unvisited, k) > bound
    requires best.cost == Inf || (best.cost.Fin? && best.cost.n > bound)
    ensures Expand(g, cost, path, unvisited, i, best) ==
      Search(g, bound, path + [unvisited[|unvisited| - 1]], RemoveAt(unvisited, |unvisited| - 1))
    decreases |unvisited| - i
  {
    ExpandStep(g, cost, path, unvisited, i, best);
    var b := Bound(g, cost, path, unvisited, i);
    var best' := if Fin(b).Below(best.cost) then Search(g, b, path + [unvisited[i]], RemoveAt(unvisited, i)) else best;
    if i < |unvisited| - 1 {
      assert b > bound;
      assert best'.cost.Fin? && best'.cost.n > bound by {
        if Fin(b).Below(best.cost) {
          assert Completes(best', b, path + [unvisited[i]], RemoveAt(unvisited, i));
        }
      }
      ExpandUpToLast(g, cost, path, unvisited, i + 1, best', bound);
    } else {
      assert i == |unvisited| - 1 && b == bound;
      assert Expand(g, cost, path, unvisited, i + 1, best') == best';
    }
  }

  /** The lightest edge from u into two nodes. */
  lemma MinToTwo(g: Graph, u: int, a: int, b: int)
    ensures MinTo(g, u, [a, b]) == if Wt(g, u, a) <= Wt(g, u, b) then Wt(g, u, a) else Wt(g, u, b)
  {
    assert [a, b][1..] == [b];
  }

  /** The spanning tree of two nodes is their edge. */
  lemma MstTwo(g: Graph, a: int, b: int)
    ensures MstWeight(g, [a, b]) == Wt(g, b, a)
  {
    assert [a, b][1..] == [b];
    assert JoinCosts(g, [a], [b]) == [MinTo(g, b, [a])];
    assert CheapestJoin(g, [a], [b]) == 0;
    assert RemoveAt([b], 0) == [];
    assert PrimEdges(g, [a], [b]) == [(a, b, Wt(g, b, a))] + PrimEdges(g, [a, b], []);
    assert PrimEdges(g, [a], [b]) == [(a, b, Wt(g, b, a))];
    assert EdgeSum([(a, b, Wt(g, b, a))]) == Wt(g, b, a) + EdgeSum([]);
  }

  /** The bound of a child after which the two nodes a and b are left. */
  lemma BoundTwoLeft(g: Graph, cost: nat, path: seq<int>, unvisited: seq<int>, i: nat, a: int, b: int)
    requires path != [] && i < |unvisited| && RemoveAt(unvisited, i) == [a, b]
    ensures var v := unvisited[i];
      Bound(g, cost, path, unvisited, i) == cost + Wt(g, path[|path| - 1], v) + Wt(g, b, a)
        + (if Wt(g, v, a) <= Wt(g, v, b) then Wt(g, v, a) else Wt(g, v, b))
        + (if Wt(g, path[0], a) <= Wt(g, path[0], b) then Wt(g, path[0], a) else Wt(g, path[0], b))
  {
    var v := unvisited[i];
    var p := path + [v];
    assert p[|p| - 1] == v && p[0] == path[0];
    MstTwo(g, a, b);
    MinToTwo(g, v, a, b);
    MinToTwo(g, path[0], a, b);
  }

  /** With one node left the search visits it and closes the tour. */
  lemma SearchOneLeft(g: Graph, cost: nat, path: seq<int>, v: int)
    requires path != []
    ensures Search(g, cost, path, [v]) ==
      Outcome(Fin(cost + Wt(g, path[|path| - 1], v) + Wt(g, v, path[0])), Some(path + [v]))
  {
    var p := path + [v];
    assert [v][0] == v && RemoveAt([v], 0) == [];
    assert p[|p| - 1] == v && p[0] == path[0];
    LowerBoundLast(g, p, v);
    ExpandStep(g, cost, path, [v], 0, Outcome(Inf, None));
  }

  /** The bound of a child after which the single node a is left. */
  lemma BoundOneLeft(g: Graph, cost: nat, path: seq<int>, unvisited: seq<int>, i: nat, a: int)
    requires path != [] && i < |unvisited| && RemoveAt(unvisited, i) == [a]
    ensures var v := unvisited[i];
      Bound(g, cost, path, unvisited, i) == cost + Wt(g, path[|path| - 1], v) + Wt(g, v, a) + Wt(g, path[0], a)
  {
    var v := unvisited[i];
    var p := path + [v];
    assert p[|p| - 1] == v && p[0] == path[0];
    LowerBoundLast(g, p, a);
  }

  /** A small complete graph on which the worker returns a tour that is not a shortest one. */
  const Square := Graph([1, 2, 3, 4], map[(1, 2) := 4, (1, 3) := 1, (1, 4) := 3, (2, 3) := 4, (2, 4) := 5, (3, 4) := 1])

  /** The weights of Square on the nodes a < b < c < d (1, 2, 3, 4 in Square), read through Wt
      in both directions, with every edge present. */
  predicate SquareLike(g: Graph, a: int, b: int, c: int, d: int) {
    && a < b < c < d
    && HasEdge(g, a, b) && HasEdge(g, a, c) && HasEdge(g, a, d)
    && HasEdge(g, b, c) && HasEdge(g, b, d) && HasEdge(g, c, d)
    && HasEdge(g, b, a) && HasEdge(g, c, a) && HasEdge(g, d, a)
    && HasEdge(g, c, b) && HasEdge(g, d, b) && HasEdge(g, d, c)
    && Wt(g, a, b) == 4 && Wt(g, a, c) == 1 && Wt(g, a, d) == 3
    && Wt(g, b, c) == 4 && Wt(g, b, d) == 5 && Wt(g, c, d) == 1
    && Wt(g, b, a) == 4 && Wt(g, c, a) == 1 && Wt(g, d, a) == 3
    && Wt(g, c, b) == 4 && Wt(g, d, b) == 5 && Wt(g, d, c) == 1
  }

  lemma SquareWeights()
    ensures SquareLike(Square, 1, 2, 3, 4)
  {
  }

  /** The bounds of the three children of the root: 10, 10 and 9. */
  lemma SquareRootBounds(g: Graph, a: int, b: int, c: int, d: int)
    requires SquareLike(g, a, b, c, d)
    ensures Bound(g, 0, [a], [b, c, d], 0) == 10
    ensures Bound(g, 0, [a], [b, c, d], 1) == 10
    ensures Bound(g, 0, [a], [b, c, d], 2) == 9
  {
    SquareRootBound(g, a, b, c, d, 0, c, d);
    SquareRootBound(g, a, b, c, d, 1, b, d);
    SquareRootBound(g, a, b, c, d, 2, b, c);
  }

  lemma SquareRootBound(g: Graph, a: int, b: int, c: int, d: int, i: nat, x: int, y: int)
    requires SquareLike(g, a, b, c, d) && i < 3
    requires [x, y] == if i == 0 then [c, d] else if i == 1 then [b, d] else [b, c]
    ensures Bound(g, 0, [a], [b, c, d], i) == if i == 2 then 9 else 10
  {
    var unv := [b, c, d];
    assert RemoveAt(unv, i) == [x, y];
    BoundTwoLeft(g, 0, [a], unv, i, x, y);
  }

  lemma SquareRootAbove(g: Graph, a: int, b: int, c: int, d: int)
    requires SquareLike(g, a, b, c, d)
    ensures Bound(g, 0, [a], [b, c, d], 2) == 9
    ensures BoundsAbove(g, 0, [a], [b, c, d], 0, 9)
  {
    SquareRootBounds(g, a, b, c, d);
    assert BoundsAbove(g, 0, [a], [b, c, d], 2, 9);
    assert BoundsAbove(g, 0, [a], [b, c, d], 1, 9);
  }

  /** At the root the child d has the lowest bound, 9 against 10 and 10, so it decides. */
  lemma SquareRoot(g: Graph, a: int, b: int, c: int, d: int)
    requires SquareLike(g, a, b, c, d)
    ensures Search(g, 0, [a], [b, c, d]) == Search(g, 9, [a, d], [b, c])
  {
    var unv := [b, c, d];
    assert |unv| - 1 == 2 && unv[2] == d;
    assert unv[..2] == [b, c] && [a] + [d] == [a, d];
    SquareRootAbove(g, a, b, c, d);
    LastChildWins(g, 0, [a], [b, c, d], 9, [a, d], [b, c]);
  }

  /** Below [a, d] the child c has bound 18 against 19 for the child b, so it decides. */
  lemma SquareInner(g: Graph, a: int, b: int, c: int, d: int)
    requires SquareLike(g, a, b, c, d)
    ensures Search(g, 9, [a, d], [b, c]) == Search(g, 18, [a, d, c], [b])
  {
    var left := [b, c];
    assert left[..1] == [b] && [a, d] + [c] == [a, d, c];
    assert Bound(g, 9, [a, d], left, 0) == 19 by {
      assert RemoveAt(left, 0) == [c];
      BoundOneLeft(g, 9, [a, d], left, 0, c);
    }
    assert Bound(g, 9, [a, d], left, 1) == 18 by {
      assert RemoveAt(left, 1) == [b];
      BoundOneLeft(g, 9, [a, d], left, 1, b);
    }
    assert BoundsAbove(g, 9, [a, d], left, 1, 18);
    assert BoundsAbove(g, 9, [a, d], left, 0, 18);
    LastChildWins(g, 9, [a, d], left, 18, [a, d, c], [b]);
  }

  lemma SquareLeaf(g: Graph, a: int, b: int, c: int, d: int)
    requires SquareLike(g, a, b, c, d)
    ensures Search(g, 18, [a, d, c], [b]) == Outcome(Fin(26), Some([a, d, c, b]))
  {
    SearchOneLeft(g, 18, [a, d, c], b);
    assert [a, d, c] + [b] == [a, d, c, b];
  }

  /** The weight of a round trip through four nodes joined by edges. */
  lemma TourOfFour(g: Graph, a: int, b: int, c: int, d: int)
    requires HasEdge(g, a, b) && HasEdge(g, b, c) && HasEdge(g, c, d) && HasEdge(g, d, a)
    ensures TourWalkable(g, [a, b, c, d])
    ensures TourWeight(g, [a, b, c, d]) == Wt(g, a, b) + Wt(g, b, c) + Wt(g, c, d) + Wt(g, d, a)
  {
    assert [a] + [b] == [a, b] && [a, b] + [c] == [a, b, c] && [a, b, c] + [d] == [a, b, c, d];
    OpenLengthAppend(g, [a], b);
    OpenLengthAppend(g, [a, b], c);
    OpenLengthAppend(g, [a, b, c], d);
  }

  /** On Square, or on any graph with its weights between four nodes a, b, c, d, the search from
      a returns the tour a, d, c, b of weight 12, reporting the cost 26, while the tour
      a, b, d, c weighs 11. */
  lemma SquareSearch(g: Graph, a: int, b: int, c: int, d: int)
    requires SquareLike(g, a, b, c, d)
    ensures Search(g, 0, [a], [b, c, d]) == Outcome(Fin(26), Some([a, d, c, b]))
    ensures TourWalkable(g, [a, d, c, b]) && TourWeight(g, [a, d, c, b]) == 12
    ensures TourWalkable(g, [a, b, d, c]) && TourWeight(g, [a, b, d, c]) == 11
  {
    SquareRoot(g, a, b, c, d);
    SquareInner(g, a, b, c, d);
    SquareLeaf(g, a, b, c, d);
    TourOfFour(g, a, d, c, b);
    TourOfFour(g, a, b, d, c);
  }
}
