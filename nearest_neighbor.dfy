/**
  The greedy nearest-neighbour tour: from a start node, repeatedly walk to the
  lightest edge leading to a node not yet visited; and the best such tour over
  all start nodes.
*/
module NearestNeighbor {
  import opened Base
  import opened Graphs

  /** The neighbours of current that are not in visited, in the order of nodes:
      the nodes of `possible_edges`. */
  function UnvisitedNeighbors(g: Graph, nodes: seq<int>, current: int, visited: set<int>): (r: seq<int>)
    ensures forall x :: x in r <==> x in nodes && HasEdge(g, current, x) && x !in visited
  {
    if nodes == [] then []
    else if HasEdge(g, current, nodes[0]) && nodes[0] !in visited then
      [nodes[0]] + UnvisitedNeighbors(g, nodes[1..], current, visited)
    else UnvisitedNeighbors(g, nodes[1..], current, visited)
  }

  /** Ties go to the earliest candidate: the choice sits at an index before which every
      candidate is strictly heavier. */
  lemma LightestIsFirst(g: Graph, current: int, cands: seq<int>)
    requires cands != []
    requires forall k :: 0 <= k < |cands| ==> HasEdge(g, current, cands[k])
    ensures exists i :: (0 <= i < |cands| && cands[i] == Lightest(g, current, cands)
      && forall k :: 0 <= k < i ==> W(g, current, cands[k]) > W(g, current, cands[i]))
  {
    var i := LightestIndex(g, current, cands);
  }

  lemma {:induction false} LightestIndex(g: Graph, current: int, cands: seq<int>) returns (i: nat)
    requires cands != []
    requires forall k :: 0 <= k < |cands| ==> HasEdge(g, current, cands[k])
    ensures i < |cands| && cands[i] == Lightest(g, current, cands)
    ensures forall k :: 0 <= k < i ==> W(g, current, cands[k]) > W(g, current, cands[i])
  {
    if |cands| == 1 || W(g, current, cands[0]) <= W(g, current, Lightest(g, current, cands[1..])) {
      i := 0;
    } else {
      var j := LightestIndex(g, current, cands[1..]);
      i := j + 1;
      assert cands[i] == cands[1..][j];
      forall k | 0 <= k < i ensures W(g, current, cands[k]) > W(g, current, cands[i]) {
        if k > 0 {
          assert cands[k] == cands[1..][k - 1];
        }
      }
    }
  }

  /** The choice is the first candidate of least weight: it is listed, and each candidate
      before its first occurrence is strictly heavier. */
  lemma LightestFirstOfLeast(g: Graph, current: int, cands: seq<int>)
    requires cands != []
    requires forall k :: 0 <= k < |cands| ==> HasEdge(g, current, cands[k])
    ensures Lightest(g, current, cands) in cands
    ensures var next := Lightest(g, current, cands);
      forall k :: 0 <= k < IndexOf(cands, next) ==> W(g, current, cands[k]) > W(g, current, next)
  {
    var i := LightestIndex(g, current, cands);
    var next := Lightest(g, current, cands);
    assert IndexOf(cands, next) <= i by {
      if IndexOf(cands, next) > i {
        assert cands[i] == next;
      }
    }
  }

  /** The path the loop of `nearest_neighbor_fixed` builds from path: while fewer nodes are
      visited than the graph has, step to the lightest unvisited neighbour of the last node,
      and stop early when there is none. */
  function GreedyTour(g: Graph, path: seq<int>): (r: seq<int>)
    requires path != [] && Walkable(g, path)
    requires forall k :: 0 <= k < |path| ==> path[k] in g.nodes
    ensures path <= r
    ensures Walkable(g, r)
    decreases Elements(g.nodes) - Elements(path)
  {
    var visited := Elements(path);
    if |visited| >= |g.nodes| then path else
      var current := path[|path| - 1];
      var cands := UnvisitedNeighbors(g, g.nodes, current, visited);
      if cands == [] then path else
        var next := Lightest(g, current, cands);
        GreedyStepFacts(g, path, next);
        GreedyTour(g, path + [next])
  }

  /** What one step of the walk keeps: the path stays a walk among the nodes of the graph,
      its length grows by the edge taken, and one more node is visited. */
  lemma GreedyStepFacts(g: Graph, path: seq<int>, next: int)
    requires path != [] && Walkable(g, path)
    requires forall k :: 0 <= k < |path| ==> path[k] in g.nodes
    requires next in UnvisitedNeighbors(g, g.nodes, path[|path| - 1], Elements(path))
    ensures Walkable(g, path + [next])
    ensures OpenLength(g, path + [next]) == OpenLength(g, path) + W(g, path[|path| - 1], next)
    ensures forall k :: 0 <= k < |path + [next]| ==> (path + [next])[k] in g.nodes
    ensures Elements(path + [next]) == Elements(path) + {next}
    ensures Elements(g.nodes) - Elements(path + [next]) < Elements(g.nodes) - Elements(path)
  {
    ElementsAppend(path, next);
    OpenLengthAppend(g, path, next);
    assert next in Elements(g.nodes) - Elements(path);
  }

  /** `nearest_neighbor_fixed`: the path from startNode and the sum of the weights along it
      (no closing edge). */
  method NearestNeighborFixed(g: Graph, startNode: int) returns (path: seq<int>, totalWeight: int)
    requires startNode in g.nodes
    ensures path == GreedyTour(g, [startNode])
    ensures Walkable(g, path) && totalWeight == OpenLength(g, path)
  {
    path := [startNode];
    totalWeight := 0;
    var visited: set<int> := {startNode};
    while |visited| < |g.nodes|
      invariant path != [] && forall k :: 0 <= k < |path| ==> path[k] in g.nodes
      invariant visited == Elements(path)
      invariant Walkable(g, path) && totalWeight == OpenLength(g, path)
      invariant GreedyTour(g, path) == GreedyTour(g, [startNode])
      decreases Elements(g.nodes) - visited
    {
      var currentNode := path[|path| - 1];
      var possibleEdges := UnvisitedNeighbors(g, g.nodes, currentNode, visited);
      if possibleEdges == [] {
        break;
      }
      var nextNode := Lightest(g, currentNode, possibleEdges);
      var weight := W(g, currentNode, nextNode);
      GreedyStepFacts(g, path, nextNode);
      path := path + [nextNode];
      totalWeight := totalWeight + weight;
      visited := visited + {nextNode};
    }
  }

  /** Walking from prefix to next is greedy: next is an unvisited neighbour of the last node
      of prefix, of least weight, and every candidate listed before it is strictly heavier
      (ties go to the first one). */
  ghost predicate GreedyStep(g: Graph, prefix: seq<int>, next: int)
    requires prefix != []
  {
    var current := prefix[|prefix| - 1];
    var cands := UnvisitedNeighbors(g, g.nodes, current, Elements(prefix));
    && next in cands
    && (forall u :: u in cands ==> W(g, current, next) <= W(g, current, u))
    && forall k :: 0 <= k < IndexOf(cands, next) ==> W(g, current, cands[k]) > W(g, current, next)
  }

  /** The step into index i of p was greedy. */
  ghost predicate GreedyStepAt(g: Graph, p: seq<int>, i: nat)
    requires 0 < i < |p|
  {
    GreedyStep(g, p[..i], p[i])
  }

  /** The loop condition fails, or the last node has no unvisited neighbour. */
  ghost predicate Stopped(g: Graph, p: seq<int>)
    requires p != []
  {
    |Elements(p)| >= |g.nodes| || UnvisitedNeighbors(g, g.nodes, p[|p| - 1], Elements(p)) == []
  }

  /** The greedy walk never revisits a node and stays among the nodes of the graph. */
  lemma {:induction false} GreedyTourDistinct(g: Graph, path: seq<int>)
    requires path != [] && Walkable(g, path) && Distinct(path)
    requires forall k :: 0 <= k < |path| ==> path[k] in g.nodes
    ensures var r := GreedyTour(g, path);
      Distinct(r) && forall k :: 0 <= k < |r| ==> r[k] in g.nodes
    decreases Elements(g.nodes) - Elements(path)
  {
    var visited := Elements(path);
    if |visited| < |g.nodes| {
      var current := path[|path| - 1];
      var cands := UnvisitedNeighbors(g, g.nodes, current, visited);
      if cands != [] {
        var next := Lightest(g, current, cands);
        GreedyStepFacts(g, path, next);
        GreedyTourDistinct(g, path + [next]);
      }
    }
  }

  /** Every step the walk adds after path is greedy. */
  lemma {:induction false} GreedyTourGreedy(g: Graph, path: seq<int>)
    requires path != [] && Walkable(g, path)
    requires forall k :: 0 <= k < |path| ==> path[k] in g.nodes
    ensures var r := GreedyTour(g, path);
      forall i :: |path| <= i < |r| ==> GreedyStepAt(g, r, i)
    decreases Elements(g.nodes) - Elements(path)
  {
    var visited := Elements(path);
    if |visited| < |g.nodes| {
      var current := path[|path| - 1];
      var cands := UnvisitedNeighbors(g, g.nodes, current, visited);
      if cands != [] {
        var next := Lightest(g, current, cands);
        var q := path + [next];
        GreedyStepFacts(g, path, next);
        GreedyTourGreedy(g, q);
        assert forall i :: |q| <= i < |GreedyTour(g, q)| ==> GreedyStepAt(g, GreedyTour(g, q), i);
        var r := GreedyTour(g, q);
        assert forall i :: |q| <= i < |r| ==> GreedyStepAt(g, r, i);
        assert r == GreedyTour(g, path);
        LightestFirstOfLeast(g, current, cands);
        assert GreedyStep(g, path, next);
        GreedyStepsExtend(g, path, next, r);
      }
    }
  }

  lemma GreedyStepsExtend(g: Graph, path: seq<int>, next: int, r: seq<int>)
    requires path != [] && path + [next] <= r
    requires GreedyStep(g, path, next)
    requires forall i :: |path| + 1 <= i < |r| ==> GreedyStepAt(g, r, i)
    ensures forall i :: |path| <= i < |r| ==> GreedyStepAt(g, r, i)
  {
    assert r[..|path|] == path && r[|path|] == next by {
      assert (path + [next])[|path|] == next;
    }
  }

  /** The walk ends only where the loop stops. */
  lemma {:induction false} GreedyTourStops(g: Graph, path: seq<int>)
    requires path != [] && Walkable(g, path)
    requires forall k :: 0 <= k < |path| ==> path[k] in g.nodes
    ensures Stopped(g, GreedyTour(g, path))
    decreases Elements(g.nodes) - Elements(path)
  {
    var visited := Elements(path);
    if |visited| < |g.nodes| {
      var current := path[|path| - 1];
      var cands := UnvisitedNeighbors(g, g.nodes, current, visited);
      if cands != [] {
        var next := Lightest(g, current, cands);
        GreedyStepFacts(g, path, next);
        GreedyTourStops(g, path + [next]);
      }
    }
  }

  /** On a complete graph the walk visits every node exactly once. */
  lemma GreedyTourVisitsAll(g: Graph, startNode: int)
    requires Valid(g) && Complete(g) && startNode in g.nodes
    ensures var r := GreedyTour(g, [startNode]);
      Distinct(r) && Elements(r) == Elements(g.nodes) && |r| == |g.nodes|
  {
    var r := GreedyTour(g, [startNode]);
    GreedyTourDistinct(g, [startNode]);
    GreedyTourStops(g, [startNode]);
    DistinctCard(r);
    DistinctCard(g.nodes);
    assert Elements(r) <= Elements(g.nodes);
    var last := r[|r| - 1];
    if UnvisitedNeighbors(g, g.nodes, last, Elements(r)) == [] {
      forall x | x in Elements(g.nodes) ensures x in Elements(r) {
        if x !in r {
          MissingNodeIsCandidate(g, r, x);
        }
      }
    } else if Elements(r) != Elements(g.nodes) {
      StrictSubsetCard(Elements(r), Elements(g.nodes));
    }
  }

  /** On a complete graph a node the walk has not reached is a candidate for its next step. */
  lemma MissingNodeIsCandidate(g: Graph, r: seq<int>, x: int)
    requires Complete(g) && r != [] && r[|r| - 1] in g.nodes && x in g.nodes && x !in r
    ensures x in UnvisitedNeighbors(g, g.nodes, r[|r| - 1], Elements(r))
  {
  }

  /** The weight `nearest_neighbor_fixed` reports for a start node. */
  function GreedyWeight(g: Graph, startNode: int): nat
    requires startNode in g.nodes
  {
    OpenLength(g, GreedyTour(g, [startNode]))
  }

  /** The start at index k gives the least greedy weight, and every earlier start a larger one. */
  ghost predicate FirstBestStart(g: Graph, k: nat)
    requires k < |g.nodes|
  {
    && (forall j :: 0 <= j < |g.nodes| ==> GreedyWeight(g, g.nodes[k]) <= GreedyWeight(g, g.nodes[j]))
    && (forall j :: 0 <= j < k ==> GreedyWeight(g, g.nodes[j]) > GreedyWeight(g, g.nodes[k]))
  }

  /** After the starts before index i: the kept start is the first of least weight among
      them, and nothing is kept yet when i is 0. */
  ghost predicate BestStartSoFar(g: Graph, i: nat, bestStartingNode: Option<int>, bestPath: seq<int>,
                                 bestWeight: Cost, best: nat)
  {
    && i <= |g.nodes|
    && (i == 0 ==> bestStartingNode == None && bestPath == [] && bestWeight == Inf)
    && (i > 0 ==> (best < i && bestStartingNode == Some(g.nodes[best])
      && bestPath == GreedyTour(g, [g.nodes[best]])
      && bestWeight == Fin(GreedyWeight(g, g.nodes[best]))
      && (forall j :: 0 <= j < i ==> GreedyWeight(g, g.nodes[best]) <= GreedyWeight(g, g.nodes[j]))
      && (forall j :: 0 <= j < best ==> GreedyWeight(g, g.nodes[j]) > GreedyWeight(g, g.nodes[best]))))
  }

  lemma BestStartStep(g: Graph, i: nat, bestStartingNode: Option<int>, bestPath: seq<int>, bestWeight: Cost, best: nat)
    requires i < |g.nodes| && BestStartSoFar(g, i, bestStartingNode, bestPath, bestWeight, best)
    ensures var node := g.nodes[i];
      var w := Fin(GreedyWeight(g, node));
      if w.Below(bestWeight) then BestStartSoFar(g, i + 1, Some(node), GreedyTour(g, [node]), w, i)
      else BestStartSoFar(g, i + 1, bestStartingNode, bestPath, bestWeight, best)
  {
  }

  /** `all_nearest_neighbor`: the greedy walk from every node in order, keeping a start only
      when its weight is strictly smaller; `(None, [], inf)` for a graph without nodes. */
  method AllNearestNeighbor(g: Graph) returns (bestStartingNode: Option<int>, bestPath: seq<int>, bestWeight: Cost)
    ensures g.nodes == [] ==> bestStartingNode == None && bestPath == [] && bestWeight == Inf
    ensures g.nodes != [] ==> exists k :: (0 <= k < |g.nodes| && FirstBestStart(g, k)
      && bestStartingNode == Some(g.nodes[k])
      && bestPath == GreedyTour(g, [g.nodes[k]])
      && bestWeight == Fin(GreedyWeight(g, g.nodes[k])))
  {
    bestPath := [];
    bestWeight := Inf;
    bestStartingNode := None;
    ghost var best: nat := 0;
    for i := 0 to |g.nodes|
      invariant BestStartSoFar(g, i, bestStartingNode, bestPath, bestWeight, best)
    {
      var node := g.nodes[i];
      var path, weight := NearestNeighborFixed(g, node);
      BestStartStep(g, i, bestStartingNode, bestPath, bestWeight, best);
      if Fin(weight).Below(bestWeight) {
        bestPath := path;
        bestWeight := Fin(weight);
        bestStartingNode := Some(node);
        best := i;
      }
    }
    if g.nodes != [] {
      assert FirstBestStart(g, best);
    }
  }
}
