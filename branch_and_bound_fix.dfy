/**
  The lower bound of the branch-and-bound search is admissible: it never exceeds the weight of
  any way of finishing the tour. On that, a corrected search that hands each child the cost of
  its path (not its bound) and keeps a child's result only when it is strictly better returns a
  lightest tour.
*/
module CorrectedBranchAndBound {
  import opened Base
  import opened Graphs
  import opened BranchAndBound

  /** Wt reads one weight per undirected edge. */
  lemma WtSymmetric(g: Graph, u: int, v: int)
    ensures Wt(g, u, v) == Wt(g, v, u)
  {
  }

  /** The sum of the weights, read through Wt, of the consecutive pairs of p. */
  function PathLen(g: Graph, p: seq<int>): nat {
    if |p| < 2 then 0 else Wt(g, p[0], p[1]) + PathLen(g, p[1..])
  }

  /** Joining two paths adds the weight of the edge between them. */
  lemma {:induction false} PathLenConcat(g: Graph, a: seq<int>, b: seq<int>)
    requires a != [] && b != []
    ensures PathLen(g, a + b) == PathLen(g, a) + Wt(g, a[|a| - 1], b[0]) + PathLen(g, b)
  {
    var ab := a + b;
    if |a| == 1 {
      assert ab[0] == a[0] && ab[1] == b[0] && ab[1..] == b;
    } else {
      assert ab[0] == a[0] && ab[1] == a[1] && ab[1..] == a[1..] + b;
      PathLenConcat(g, a[1..], b);
    }
  }

  /** On a walkable path PathLen is the length the graph gives it. */
  lemma {:induction false} PathLenOfWalk(g: Graph, p: seq<int>)
    requires Walkable(g, p)
    ensures OpenLength(g, p) == PathLen(g, p)
  {
    if |p| >= 2 {
      assert HasEdge(g, p[0], p[1]);
      assert Walkable(g, p[1..]) by {
        forall i | 0 <= i < |p[1..]| - 1 ensures HasEdge(g, p[1..][i], p[1..][i + 1]) {
          assert p[1..][i] == p[i + 1] && p[1..][i + 1] == p[i + 2];
        }
      }
      PathLenOfWalk(g, p[1..]);
    }
  }

  /** A path of nodes hung from the anchor by one edge: from its first node, or from its last
      node when fromEnd holds. */
  datatype Hang = Hang(anchor: int, nodes: seq<int>, fromEnd: bool)

  /** The node of h joined to the anchor. */
  function Tip(h: Hang): int
    requires h.nodes != []
  {
    if h.fromEnd then h.nodes[|h.nodes| - 1] else h.nodes[0]
  }

  function HangCost(g: Graph, h: Hang): nat {
    if h.nodes == [] then 0 else Wt(g, h.anchor, Tip(h)) + PathLen(g, h.nodes)
  }

  function HangsCost(g: Graph, hs: seq<Hang>): nat {
    if hs == [] then 0 else HangCost(g, hs[0]) + HangsCost(g, hs[1..])
  }

  /** The nodes of all the paths, one path after the other. */
  function HangsNodes(hs: seq<Hang>): seq<int> {
    if hs == [] then [] else hs[0].nodes + HangsNodes(hs[1..])
  }

  /** hs hangs the nodes of rest, each exactly as often as rest holds it, from nodes of tree. */
  ghost predicate Hung(tree: seq<int>, rest: seq<int>, hs: seq<Hang>) {
    && (forall k :: 0 <= k < |hs| ==> hs[k].nodes != [] && hs[k].anchor in tree)
    && multiset(HangsNodes(hs)) == multiset(rest)
  }

  lemma HangsAppend(g: Graph, a: seq<Hang>, b: seq<Hang>)
    ensures HangsCost(g, a + b) == HangsCost(g, a) + HangsCost(g, b)
    ensures HangsNodes(a + b) == HangsNodes(a) + HangsNodes(b)
  {
    HangsCostAppend(g, a, b);
    HangsNodesAppend(a, b);
  }

  lemma {:induction false} HangsCostAppend(g: Graph, a: seq<Hang>, b: seq<Hang>)
    ensures HangsCost(g, a + b) == HangsCost(g, a) + HangsCost(g, b)
  {
    if a == [] {
      assert a + b == b;
    } else {
      assert (a + b)[0] == a[0] && (a + b)[1..] == a[1..] + b;
      HangsCostAppend(g, a[1..], b);
    }
  }

  lemma {:induction false} HangsNodesAppend(a: seq<Hang>, b: seq<Hang>)
    ensures HangsNodes(a + b) == HangsNodes(a) + HangsNodes(b)
  {
    if a == [] {
      assert a + b == b;
    } else {
      assert (a + b)[0] == a[0] && (a + b)[1..] == a[1..] + b;
      HangsNodesAppend(a[1..], b);
    }
  }

  /** The node at index k of p in pieces: what lies before it hung from it by its last node,
      what lies after it hung from it by its first node. */
  function Pieces(p: seq<int>, k: nat): (hs: seq<Hang>)
    requires k < |p|
    ensures forall m :: 0 <= m < |hs| ==> hs[m].anchor == p[k] && hs[m].nodes != []
  {
    (if k > 0 then [Hang(p[k], p[..k], true)] else []) + (if k + 1 < |p| then [Hang(p[k], p[k + 1..], false)] else [])
  }

  /** Cutting p at one node keeps all its edges: the pieces cost what p costs. */
  lemma PiecesCost(g: Graph, p: seq<int>, k: nat)
    requires k < |p|
    ensures HangsCost(g, Pieces(p, k)) == PathLen(g, p)
  {
    var before := p[..k];
    var after := p[k + 1..];
    var v := p[k];
    assert p == before + [v] + after;
    var hb: seq<Hang> := if k > 0 then [Hang(v, before, true)] else [];
    var ha: seq<Hang> := if k + 1 < |p| then [Hang(v, after, false)] else [];
    HangsAppend(g, hb, ha);
    assert HangsCost(g, hb) == if k > 0 then Wt(g, v, before[k - 1]) + PathLen(g, before) else 0;
    assert HangsCost(g, ha) == if k + 1 < |p| then Wt(g, v, after[0]) + PathLen(g, after) else 0;
    if k > 0 {
      PathLenConcat(g, before, [v]);
      WtSymmetric(g, v, before[k - 1]);
      assert (before + [v])[|before + [v]| - 1] == v;
    }
    if k + 1 < |p| {
      PathLenConcat(g, before + [v], after);
    } else {
      assert p == before + [v];
    }
  }

  /** The pieces hold the nodes of p but the one it is cut at. */
  lemma PiecesNodes(p: seq<int>, k: nat)
    requires k < |p|
    ensures multiset(HangsNodes(Pieces(p, k))) + multiset{p[k]} == multiset(p)
  {
    var before := p[..k];
    var after := p[k + 1..];
    assert p == before + [p[k]] + after;
    var hb: seq<Hang> := if k > 0 then [Hang(p[k], before, true)] else [];
    var ha: seq<Hang> := if k + 1 < |p| then [Hang(p[k], after, false)] else [];
    HangsAppend(Graph([], map[]), hb, ha);
    assert HangsNodes(hb) == before && HangsNodes(ha) == after;
  }

  /** The position of x among the nodes of hs. */
  lemma {:induction false} FindHang(hs: seq<Hang>, x: int) returns (m: nat, i: nat)
    requires x in HangsNodes(hs)
    ensures m < |hs| && i < |hs[m].nodes| && hs[m].nodes[i] == x
  {
    if x in hs[0].nodes {
      m, i := 0, IndexOf(hs[0].nodes, x);
    } else {
      m, i := FindHang(hs[1..], x);
      m := m + 1;
    }
  }

  /** Every node of a hung path is among the nodes of hs. */
  lemma {:induction false} HangNodesIn(hs: seq<Hang>, m: nat, x: int)
    requires m < |hs| && x in hs[m].nodes
    ensures x in HangsNodes(hs)
  {
    if m > 0 {
      HangNodesIn(hs[1..], m - 1, x);
    }
  }

  /** Replacing the path at index m by other paths. */
  lemma ReplaceCost(g: Graph, hs: seq<Hang>, m: nat, ps: seq<Hang>)
    requires m < |hs|
    ensures HangsCost(g, hs[..m] + ps + hs[m + 1..]) + HangCost(g, hs[m]) == HangsCost(g, hs) + HangsCost(g, ps)
  {
    assert hs == hs[..m] + [hs[m]] + hs[m + 1..];
    HangsAppend(g, hs[..m] + [hs[m]], hs[m + 1..]);
    HangsAppend(g, hs[..m], [hs[m]]);
    HangsAppend(g, hs[..m] + ps, hs[m + 1..]);
    HangsAppend(g, hs[..m], ps);
    assert HangsCost(g, [hs[m]]) == HangCost(g, hs[m]);
  }

  lemma ReplaceNodes(hs: seq<Hang>, m: nat, ps: seq<Hang>)
    requires m < |hs|
    ensures HangsNodes(hs[..m] + ps + hs[m + 1..]) == HangsNodes(hs[..m]) + HangsNodes(ps) + HangsNodes(hs[m + 1..])
    ensures HangsNodes(hs) == HangsNodes(hs[..m]) + hs[m].nodes + HangsNodes(hs[m + 1..])
  {
    var g := Graph([], map[]);
    assert hs == hs[..m] + [hs[m]] + hs[m + 1..];
    HangsAppend(g, hs[..m] + [hs[m]], hs[m + 1..]);
    HangsAppend(g, hs[..m], [hs[m]]);
    HangsAppend(g, hs[..m] + ps, hs[m + 1..]);
    HangsAppend(g, hs[..m], ps);
    assert HangsNodes([hs[m]]) == hs[m].nodes;
  }

  /** Prim's algorithm is a minimum: the edges it adds to join rest to the tree weigh no more
      than any way of hanging the nodes of rest from the tree by paths. The node v Prim adds next
      lies on one of the paths; cutting that path at v and hanging the two halves from v, now a
      tree node, drops the edge that joined the path to the tree, and that edge weighs at least
      the cheapest join, which is the weight Prim pays for v. */
  lemma {:induction false} PrimBelowHangs(g: Graph, tree: seq<int>, rest: seq<int>, hs: seq<Hang>)
    requires tree != [] && Hung(tree, rest, hs)
    ensures EdgeSum(PrimEdges(g, tree, rest)) <= HangsCost(g, hs)
    decreases |rest|
  {
    if rest != [] {
      var j := CheapestJoin(g, tree, rest);
      var v := rest[j];
      var rest' := RemoveAt(rest, j);
      var c := MinTo(g, v, tree);
      assert EdgeSum(PrimEdges(g, tree, rest)) == c + EdgeSum(PrimEdges(g, tree + [v], rest'));
      assert v in multiset(HangsNodes(hs));
      var m, i := FindHang(hs, v);
      var h := hs[m];
      var ps := Pieces(h.nodes, i);
      var hs' := hs[..m] + ps + hs[m + 1..];
      PiecesCost(g, h.nodes, i);
      ReplaceCost(g, hs, m, ps);
      assert Wt(g, h.anchor, Tip(h)) >= c by {
        JoinBelowAnchor(g, tree, rest, hs, m);
      }
      HungAfterCut(tree, rest, hs, m, i, j);
      PrimBelowHangs(g, tree + [v], rest', hs');
    }
  }

  /** The edge that joins a hung path to the tree weighs at least the cheapest join. */
  lemma JoinBelowAnchor(g: Graph, tree: seq<int>, rest: seq<int>, hs: seq<Hang>, m: nat)
    requires tree != [] && rest != [] && Hung(tree, rest, hs) && m < |hs|
    ensures Wt(g, hs[m].anchor, Tip(hs[m])) >= MinTo(g, rest[CheapestJoin(g, tree, rest)], tree)
  {
    var h := hs[m];
    var t := Tip(h);
    HangNodesIn(hs, m, t);
    assert t in multiset(rest);
    var a := IndexOf(rest, t);
    var b := IndexOf(tree, h.anchor);
    assert MinTo(g, t, tree) <= Wt(g, t, tree[b]);
    WtSymmetric(g, h.anchor, t);
  }

  /** Cutting the path at index m at its node i, the node rest[j], and hanging the halves from
      that node hangs the other nodes of rest from the grown tree. */
  lemma HungAfterCut(tree: seq<int>, rest: seq<int>, hs: seq<Hang>, m: nat, i: nat, j: nat)
    requires Hung(tree, rest, hs) && m < |hs| && i < |hs[m].nodes| && j < |rest| && hs[m].nodes[i] == rest[j]
    ensures Hung(tree + [rest[j]], RemoveAt(rest, j), hs[..m] + Pieces(hs[m].nodes, i) + hs[m + 1..])
  {
    var v := rest[j];
    var ps := Pieces(hs[m].nodes, i);
    var hs' := hs[..m] + ps + hs[m + 1..];
    var before := multiset(HangsNodes(hs[..m]));
    var after := multiset(HangsNodes(hs[m + 1..]));
    PiecesNodes(hs[m].nodes, i);
    ReplaceNodes(hs, m, ps);
    assert multiset(HangsNodes(hs')) == before + multiset(HangsNodes(ps)) + after;
    assert multiset(rest) == before + multiset(hs[m].nodes) + after;
    assert multiset(HangsNodes(ps)) + multiset{v} == multiset(hs[m].nodes);
    assert multiset(RemoveAt(rest, j)) + multiset{v} == multiset(rest);
    assert multiset(HangsNodes(hs')) + multiset{v} == multiset(RemoveAt(rest, j)) + multiset{v};
    assert multiset(HangsNodes(hs')) == multiset(RemoveAt(rest, j)) by {
      MultisetCancel(multiset(HangsNodes(hs')), multiset(RemoveAt(rest, j)), v);
    }
    AnchorsAfterCut(tree, hs, m, ps, v);
  }

  lemma MultisetCancel(a: multiset<int>, b: multiset<int>, v: int)
    requires a + multiset{v} == b + multiset{v}
    ensures a == b
  {
    assert a == (a + multiset{v}) - multiset{v};
    assert b == (b + multiset{v}) - multiset{v};
  }

  lemma AnchorsAfterCut(tree: seq<int>, hs: seq<Hang>, m: nat, ps: seq<Hang>, v: int)
    requires m < |hs| && forall k :: 0 <= k < |hs| ==> hs[k].nodes != [] && hs[k].anchor in tree
    requires forall k :: 0 <= k < |ps| ==> ps[k].nodes != [] && ps[k].anchor == v
    ensures var hs' := hs[..m] + ps + hs[m + 1..];
      forall k :: 0 <= k < |hs'| ==> hs'[k].nodes != [] && hs'[k].anchor in tree + [v]
  {
    var hs' := hs[..m] + ps + hs[m + 1..];
    forall k | 0 <= k < |hs'| ensures hs'[k].nodes != [] && hs'[k].anchor in tree + [v] {
      if k < m {
        assert hs'[k] == hs[k];
      } else if k < m + |ps| {
        assert hs'[k] == ps[k - m];
      } else {
        assert hs'[k] == hs[k - |ps| + 1];
      }
    }
  }

  /** The spanning tree the bound uses weighs no more than any path through the same nodes:
      cut the path at the first node, where Prim's algorithm starts, and hang the halves from it. */
  lemma MstBelowPath(g: Graph, vs: seq<int>, q: seq<int>)
    requires vs != [] && multiset(q) == multiset(vs)
    ensures MstWeight(g, vs) <= PathLen(g, q)
  {
    var s := vs[0];
    assert s in multiset(q);
    var k := IndexOf(q, s);
    var hs := Pieces(q, k);
    PiecesCost(g, q, k);
    PiecesNodes(q, k);
    assert vs == [s] + vs[1..];
    assert multiset(HangsNodes(hs)) == multiset(vs[1..]) by {
      MultisetCancel(multiset(HangsNodes(hs)), multiset(vs[1..]), s);
    }
    PrimBelowHangs(g, [s], vs[1..], hs);
  }

  /** `calculate_lower_bound` is admissible: for any order q of the unvisited nodes, going from
      the end of the path through q and back to the start costs at least the bound. */
  lemma LowerBoundAdmissible(g: Graph, path: seq<int>, unvisited: seq<int>, q: seq<int>)
    requires path != [] && unvisited != [] && multiset(q) == multiset(unvisited)
    ensures q != []
    ensures LowerBound(g, path, unvisited) <=
      Wt(g, path[|path| - 1], q[0]) + PathLen(g, q) + Wt(g, q[|q| - 1], path[0])
  {
    assert unvisited[0] in multiset(q);
    MstBelowPath(g, unvisited, q);
    assert q[0] in multiset(unvisited);
    var a := IndexOf(unvisited, q[0]);
    assert q[|q| - 1] in multiset(unvisited);
    var b := IndexOf(unvisited, q[|q| - 1]);
    assert MinTo(g, path[|path| - 1], unvisited) <= Wt(g, path[|path| - 1], unvisited[a]);
    assert MinTo(g, path[0], unvisited) <= Wt(g, path[0], unvisited[b]);
    WtSymmetric(g, path[0], q[|q| - 1]);
  }

  /** c finishes the partial tour: it extends path by the unvisited nodes in some order. */
  predicate Completion(path: seq<int>, unvisited: seq<int>, c: seq<int>) {
    && |c| == |path| + |unvisited|
    && c[..|path|] == path
    && multiset(c[|path|..]) == multiset(unvisited)
  }

  /** The weight of the round trip along c, read through Wt. */
  function TourCost(g: Graph, c: seq<int>): nat {
    if c == [] then 0 else PathLen(g, c) + Wt(g, c[|c| - 1], c[0])
  }

  /** o reports a tour that completes the item, at exactly that tour's weight. */
  predicate Exact(g: Graph, o: Outcome, path: seq<int>, unvisited: seq<int>) {
    && o.cost.Fin? && o.path.Some?
    && Completion(path, unvisited, o.path.value)
    && o.cost.n == TourCost(g, o.path.value)
  }

  /** o is exact and no completion of the item is lighter. */
  ghost predicate Optimal(g: Graph, o: Outcome, path: seq<int>, unvisited: seq<int>) {
    && Exact(g, o, path, unvisited)
    && forall c :: Completion(path, unvisited, c) ==> o.cost.n <= TourCost(g, c)
  }

  /** The worker with both slips corrected: a child is searched with the cost of its path, and
      its result replaces the best only when it is strictly cheaper. The pruning test is the
      source's: the child's cost plus the lower bound of what it leaves, against the best cost. */
  function ExactSearch(g: Graph, cost: nat, path: seq<int>, unvisited: seq<int>): Outcome
    requires path != []
    decreases |unvisited|, 1
  {
    if unvisited == [] then Outcome(Fin(cost + Wt(g, path[|path| - 1], path[0])), Some(path))
    else ExactExpand(g, cost, path, unvisited, 0, Outcome(Inf, None))
  }

  function ExactExpand(g: Graph, cost: nat, path: seq<int>, unvisited: seq<int>, i: nat, best: Outcome): Outcome
    requires path != [] && i <= |unvisited|
    decreases |unvisited|, 0, |unvisited| - i, 1
  {
    if i == |unvisited| then best
    else ExactExpand(g, cost, path, unvisited, i + 1, ExactNext(g, cost, path, unvisited, i, best))
  }

  /** The cost handed to the child that visits v next: the cost so far and the edge to v. */
  function ChildCost(g: Graph, cost: nat, path: seq<int>, v: int): nat
    requires path != []
  {
    cost + Wt(g, path[|path| - 1], v)
  }

  /** One turn of the corrected loop: the best after looking at the child that visits
      unvisited[i] next. */
  function ExactNext(g: Graph, cost: nat, path: seq<int>, unvisited: seq<int>, i: nat, best: Outcome): Outcome
    requires path != [] && i < |unvisited|
    decreases |unvisited|, 0, |unvisited| - i, 0
  {
    if Fin(Bound(g, cost, path, unvisited, i)).Below(best.cost) then
      var child := ExactSearch(g, ChildCost(g, cost, path, unvisited[i]), path + [unvisited[i]], RemoveAt(unvisited, i));
      if child.cost.Below(best.cost) then child else best
    else best
  }

  /** The completions of the child that visits unvisited[i] next are the completions of the item
      that visit unvisited[i] next. */
  lemma CompletionChild(path: seq<int>, unvisited: seq<int>, i: nat, c: seq<int>)
    requires i < |unvisited|
    ensures Completion(path + [unvisited[i]], RemoveAt(unvisited, i), c) <==>
      Completion(path, unvisited, c) && c[|path|] == unvisited[i]
  {
    var v := unvisited[i];
    var rest := RemoveAt(unvisited, i);
    if Completion(path + [v], rest, c) {
      assert c[|path|..] == [v] + c[|path| + 1..];
      assert c[..|path|] == (path + [v])[..|path|];
    }
    if Completion(path, unvisited, c) && c[|path|] == v {
      assert c[|path|..] == [v] + c[|path| + 1..];
      assert c[..|path| + 1] == c[..|path|] + [v];
      assert multiset(c[|path| + 1..]) + multiset{v} == multiset(rest) + multiset{v};
      MultisetCancel(multiset(c[|path| + 1..]), multiset(rest), v);
    }
  }

  /** Every completion of an item with nodes left visits one of them next. */
  lemma CompletionNext(path: seq<int>, unvisited: seq<int>, c: seq<int>)
    requires unvisited != [] && Completion(path, unvisited, c)
    ensures c[|path|] in unvisited
  {
    assert c[|path|..][0] == c[|path|];
    assert c[|path|] in multiset(c[|path|..]);
  }

  /** A completion weighs the path so far, the edge into the rest, the rest and the closing edge. */
  lemma CompletionCost(g: Graph, path: seq<int>, unvisited: seq<int>, c: seq<int>)
    requires path != [] && unvisited != [] && Completion(path, unvisited, c)
    ensures var q := c[|path|..];
      q != [] && multiset(q) == multiset(unvisited)
      && TourCost(g, c) == PathLen(g, path) + Wt(g, path[|path| - 1], q[0]) + PathLen(g, q) + Wt(g, q[|q| - 1], path[0])
  {
    var q := c[|path|..];
    assert c == path + q;
    PathLenConcat(g, path, q);
  }

  /** The bound the search computes for a child never exceeds the weight of a completion of that
      child, when the cost handed in is the weight of the path. */
  lemma ChildBoundBelow(g: Graph, path: seq<int>, unvisited: seq<int>, i: nat, c: seq<int>)
    requires path != [] && i < |unvisited|
    requires Completion(path + [unvisited[i]], RemoveAt(unvisited, i), c)
    ensures PathLen(g, path + [unvisited[i]]) + LowerBound(g, path + [unvisited[i]], RemoveAt(unvisited, i)) <= TourCost(g, c)
  {
    var v := unvisited[i];
    var p := path + [v];
    var rest := RemoveAt(unvisited, i);
    if rest == [] {
      assert c == p by {
        assert c[..|p|] == p;
      }
      assert LowerBound(g, p, rest) == 0;
      assert PathLen(g, p) <= TourCost(g, c);
    } else {
      CompletionCost(g, p, rest, c);
      var q := c[|p|..];
      LowerBoundAdmissible(g, p, rest, q);
      assert LowerBound(g, p, rest) <= Wt(g, p[|p| - 1], q[0]) + PathLen(g, q) + Wt(g, q[|q| - 1], p[0]);
      assert TourCost(g, c) == PathLen(g, p) + Wt(g, p[|p| - 1], q[0]) + PathLen(g, q) + Wt(g, q[|q| - 1], p[0]);
    }
  }

  /** A tour that completes the child item completes the item. */
  lemma ExactChild(g: Graph, o: Outcome, path: seq<int>, unvisited: seq<int>, i: nat)
    requires i < |unvisited| && Exact(g, o, path + [unvisited[i]], RemoveAt(unvisited, i))
    ensures Exact(g, o, path, unvisited)
  {
    CompletionChild(path, unvisited, i, o.path.value);
  }

  /** The search on an item whose cost is the weight of its path returns a lightest completion. */
  lemma {:induction false} ExactSearchOptimal(g: Graph, cost: nat, path: seq<int>, unvisited: seq<int>)
    requires path != [] && cost == PathLen(g, path)
    ensures Optimal(g, ExactSearch(g, cost, path, unvisited), path, unvisited)
    decreases |unvisited|, 1
  {
    if unvisited == [] {
      assert Completion(path, [], path);
      forall c | Completion(path, [], c) ensures c == path {
        assert c == c[..|path|];
      }
    } else {
      ExactExpandOptimal(g, cost, path, unvisited, 0, Outcome(Inf, None));
    }
  }

  /** The completions that visit one of unvisited[..i] next all weigh at least best's cost. */
  ghost predicate Covers(g: Graph, best: Outcome, path: seq<int>, unvisited: seq<int>, i: nat)
    requires i <= |unvisited|
  {
    forall c :: Completion(path, unvisited, c) && |c| > |path| && c[|path|] in unvisited[..i] ==>
      best.cost.Fin? && best.cost.n <= TourCost(g, c)
  }

  lemma {:induction false} ExactExpandOptimal(g: Graph, cost: nat, path: seq<int>, unvisited: seq<int>, i: nat, best: Outcome)
    requires path != [] && unvisited != [] && cost == PathLen(g, path) && i <= |unvisited|
    requires Exact(g, best, path, unvisited) || (best == Outcome(Inf, None) && i == 0)
    requires Covers(g, best, path, unvisited, i)
    ensures Optimal(g, ExactExpand(g, cost, path, unvisited, i, best), path, unvisited)
    decreases |unvisited|, 0, |unvisited| - i, 2
  {
    if i == |unvisited| {
      forall c | Completion(path, unvisited, c) ensures best.cost.n <= TourCost(g, c) {
        CompletionNext(path, unvisited, c);
        assert unvisited[..i] == unvisited;
      }
    } else {
      ExactStep(g, cost, path, unvisited, i, best);
      ExactExpandOptimal(g, cost, path, unvisited, i + 1, ExactNext(g, cost, path, unvisited, i, best));
    }
  }

  /** One turn of the corrected loop keeps the best exact and covering one more child. */
  lemma ExactStep(g: Graph, cost: nat, path: seq<int>, unvisited: seq<int>, i: nat, best: Outcome)
    requires path != [] && cost == PathLen(g, path) && i < |unvisited|
    requires Exact(g, best, path, unvisited) || (best == Outcome(Inf, None) && i == 0)
    requires Covers(g, best, path, unvisited, i)
    ensures var best' := ExactNext(g, cost, path, unvisited, i, best);
      Exact(g, best', path, unvisited) && Covers(g, best', path, unvisited, i + 1)
    decreases |unvisited|, 0, |unvisited| - i, 1
  {
    var best' := ExactNext(g, cost, path, unvisited, i, best);
    ExactNextFacts(g, cost, path, unvisited, i, best);
    forall c | Completion(path, unvisited, c) && |c| > |path| && c[|path|] in unvisited[..i + 1]
      ensures best'.cost.Fin? && best'.cost.n <= TourCost(g, c)
    {
      PrefixNext(unvisited, i, c[|path|]);
    }
  }

  lemma PrefixNext(s: seq<int>, i: nat, x: int)
    requires i < |s| && x in s[..i + 1]
    ensures x in s[..i] || x == s[i]
  {
    assert s[..i + 1] == s[..i] + [s[i]];
  }

  /** The best after one turn is exact, no dearer than before, and no dearer than any completion
      that visits unvisited[i] next: either that child was searched, or its bound already
      reached the best cost. */
  lemma ExactNextFacts(g: Graph, cost: nat, path: seq<int>, unvisited: seq<int>, i: nat, best: Outcome)
    requires path != [] && cost == PathLen(g, path) && i < |unvisited|
    requires Exact(g, best, path, unvisited) || best == Outcome(Inf, None)
    ensures var best' := ExactNext(g, cost, path, unvisited, i, best);
      && Exact(g, best', path, unvisited)
      && (best.cost.Fin? ==> best'.cost.n <= best.cost.n)
      && forall c :: Completion(path, unvisited, c) && |c| > |path| && c[|path|] == unvisited[i] ==>
        best'.cost.n <= TourCost(g, c)
    decreases |unvisited|, 0, |unvisited| - i, 0
  {
    var v := unvisited[i];
    var p := path + [v];
    var rest := RemoveAt(unvisited, i);
    var nextCost := ChildCost(g, cost, path, v);
    assert nextCost == PathLen(g, p) by {
      PathLenConcat(g, path, [v]);
    }
    var bound := Bound(g, cost, path, unvisited, i);
    assert bound == nextCost + LowerBound(g, p, rest);
    var child := ExactSearch(g, nextCost, p, rest);
    var best' := ExactNext(g, cost, path, unvisited, i, best);
    if Fin(bound).Below(best.cost) {
      ExactNextExplored(g, cost, path, unvisited, i, best, bound, child);
      ExactSearchOptimal(g, nextCost, p, rest);
      ExactChild(g, child, path, unvisited, i);
      forall c | Completion(path, unvisited, c) && |c| > |path| && c[|path|] == v
        ensures best'.cost.n <= TourCost(g, c)
      {
        CompletionChild(path, unvisited, i, c);
      }
    } else {
      ExactNextPruned(g, cost, path, unvisited, i, best, bound);
      forall c | Completion(path, unvisited, c) && |c| > |path| && c[|path|] == v
        ensures best'.cost.n <= TourCost(g, c)
      {
        CompletionChild(path, unvisited, i, c);
        ChildBoundBelow(g, path, unvisited, i, c);
      }
    }
  }

  /** A child whose bound reaches the best cost is skipped. */
  lemma ExactNextPruned(g: Graph, cost: nat, path: seq<int>, unvisited: seq<int>, i: nat, best: Outcome, bound: nat)
    requires path != [] && i < |unvisited|
    requires bound == Bound(g, cost, path, unvisited, i)
    ensures !Fin(bound).Below(best.cost) ==> ExactNext(g, cost, path, unvisited, i, best) == best
  {
  }

  /** A child whose bound is below the best cost is searched, and its result is kept when it is
      strictly cheaper. */
  lemma ExactNextExplored(g: Graph, cost: nat, path: seq<int>, unvisited: seq<int>, i: nat, best: Outcome, bound: nat, child: Outcome)
    requires path != [] && i < |unvisited|
    requires bound == Bound(g, cost, path, unvisited, i)
    requires child == ExactSearch(g, ChildCost(g, cost, path, unvisited[i]), path + [unvisited[i]], RemoveAt(unvisited, i))
    ensures Fin(bound).Below(best.cost) ==>
      ExactNext(g, cost, path, unvisited, i, best) == if child.cost.Below(best.cost) then child else best
  {
  }

  /** The completions of the root item are the sequences that start at the first node and hold
      every node as often as the graph does. */
  lemma RootCompletion(nodes: seq<int>, t: seq<int>)
    requires nodes != []
    ensures Completion([nodes[0]], nodes[1..], t) <==> t != [] && t[0] == nodes[0] && multiset(t) == multiset(nodes)
  {
    assert nodes == [nodes[0]] + nodes[1..];
    if Completion([nodes[0]], nodes[1..], t) {
      assert t == t[..1] + t[1..];
    }
    if t != [] && t[0] == nodes[0] && multiset(t) == multiset(nodes) {
      assert multiset(t) == multiset(t[1..]) + multiset{t[0]} by {
        assert t == [t[0]] + t[1..];
      }
      assert multiset(nodes) == multiset(nodes[1..]) + multiset{nodes[0]};
      MultisetCancel(multiset(t[1..]), multiset(nodes[1..]), nodes[0]);
      assert |t| == |multiset(t)| == |multiset(nodes)| == |nodes|;
    }
  }

  /** A tour through every node of a complete graph exactly once is walkable, and its weight is
      the one TourCost reads. */
  lemma TourOfNodes(g: Graph, t: seq<int>)
    requires Distinct(g.nodes) && Complete(g) && g.nodes != []
    requires |g.nodes| > 1 || HasEdge(g, g.nodes[0], g.nodes[0])
    requires t != [] && t[0] == g.nodes[0] && multiset(t) == multiset(g.nodes)
    ensures TourWalkable(g, t) && TourWeight(g, t) == TourCost(g, t)
  {
    DistinctByMultiset(g.nodes, t);
    assert |t| == |multiset(t)| == |multiset(g.nodes)| == |g.nodes|;
    forall k | 0 <= k < |t| ensures t[k] in g.nodes {
      assert t[k] in multiset(t);
    }
    forall k | 0 <= k < |t| - 1 ensures HasEdge(g, t[k], t[k + 1]) {
    }
    if |t| == 1 {
      assert t[|t| - 1] == g.nodes[0];
    }
    PathLenOfWalk(g, t);
  }

  /** The corrected search from the first node of a complete graph returns a lightest tour: it
      starts at that node, holds every node once, reports exactly its weight, and no tour from
      that node through every node weighs less. */
  lemma ExactRoot(g: Graph)
    requires Distinct(g.nodes) && Complete(g) && g.nodes != []
    requires |g.nodes| > 1 || HasEdge(g, g.nodes[0], g.nodes[0])
    ensures var o := ExactSearch(g, 0, [g.nodes[0]], g.nodes[1..]);
      && o.cost.Fin? && o.path.Some? && o.path.value != [] && o.path.value[0] == g.nodes[0]
      && multiset(o.path.value) == multiset(g.nodes)
      && TourWalkable(g, o.path.value) && o.cost.n == TourWeight(g, o.path.value)
      && forall t :: TourWalkable(g, t) && t[0] == g.nodes[0] && multiset(t) == multiset(g.nodes) ==>
        o.cost.n <= TourWeight(g, t)
  {
    var n0 := g.nodes[0];
    var o := ExactSearch(g, 0, [n0], g.nodes[1..]);
    ExactSearchOptimal(g, 0, [n0], g.nodes[1..]);
    RootCompletion(g.nodes, o.path.value);
    TourOfNodes(g, o.path.value);
    forall t | TourWalkable(g, t) && t[0] == n0 && multiset(t) == multiset(g.nodes)
      ensures o.cost.n <= TourWeight(g, t)
    {
      RootCompletion(g.nodes, t);
      TourOfNodes(g, t);
    }
  }

  /** On Square, or any graph with its weights on the nodes a, b, c, d, a lightest completion
      of the root item weighs at most 11, the weight of the tour a, b, d, c, where the search
      as written returns a tour of weight 12 (SquareSearch); ExactSearchOptimal makes the
      corrected search's result such a completion. */
  lemma SquareCorrected(g: Graph, a: int, b: int, c: int, d: int, o: Outcome)
    requires SquareLike(g, a, b, c, d) && Optimal(g, o, [a], [b, c, d])
    ensures o.cost.Fin? && o.cost.n <= 11
  {
    var t := [a, b, d, c];
    TourOfFour(g, a, b, d, c);
    assert Completion([a], [b, c, d], t) by {
      assert t[..1] == [a] && t[1..] == [b, d, c];
      assert multiset([b, d, c]) == multiset([b, c, d]);
    }
    PathLenOfWalk(g, t);
  }
}
