/**
  Exhaustive search: the weight of a closed tour, the permutations of the nodes
  after the first (in the order `itertools.permutations` yields them), and the
  sequential fold that keeps the first tour of least weight.
*/
module BruteForce {
  import opened Base
  import opened Graphs

  /** The closed weight is the open length of the path with its first node appended. */
  lemma TourWeightIsClosedLength(g: Graph, p: seq<int>)
    requires p != []
    ensures TourWalkable(g, p) <==> Walkable(g, p + [p[0]])
    ensures TourWalkable(g, p) ==> TourWeight(g, p) == OpenLength(g, p + [p[0]])
  {
    WalkableAppend(g, p, p[0]);
    if TourWalkable(g, p) {
      OpenLengthAppend(g, p, p[0]);
    }
  }

  /** A one-node tour needs the self-loop `G[n][n]`. */
  lemma SingleNodeTour(g: Graph, n: int)
    ensures TourWalkable(g, [n]) <==> HasEdge(g, n, n)
    ensures HasEdge(g, n, n) ==> TourWeight(g, [n]) == W(g, n, n)
  {
  }

  /** `calculate_path_weight`: IndexError on an empty path, KeyError on a missing edge. */
  method CalculatePathWeight(g: Graph, path: seq<int>) returns (r: Result<int>)
    ensures TourWalkable(g, path) ==> r == Ok(TourWeight(g, path))
    ensures !TourWalkable(g, path) ==> r == Err(if path == [] then IndexError else KeyError)
  {
    if path == [] {
      return Err(IndexError);
    }
    var weight := 0;
    for i := 0 to |path| - 1
      invariant Walkable(g, path[..i + 1])
      invariant weight == OpenLength(g, path[..i + 1])
    {
      if !HasEdge(g, path[i], path[i + 1]) {
        return Err(KeyError);
      }
      assert path[..i + 2] == path[..i + 1] + [path[i + 1]];
      OpenLengthAppend(g, path[..i + 1], path[i + 1]);
      weight := weight + W(g, path[i], path[i + 1]);
    }
    assert path[..|path|] == path;
    if !HasEdge(g, path[|path| - 1], path[0]) {
      return Err(KeyError);
    }
    weight := weight + W(g, path[|path| - 1], path[0]);
    return Ok(weight);
  }

  /** `brute_force_path_worker`: the path, unchanged, with its closed weight. */
  method BruteForcePathWorker(g: Graph, path: seq<int>) returns (r: Result<(seq<int>, int)>)
    ensures r.Ok? <==> TourWalkable(g, path)
    ensures r.Ok? ==> r.value.0 == path && r.value.1 == TourWeight(g, path)
    ensures r.Err? ==> r.error == (if path == [] then IndexError else KeyError)
  {
    var weight := CalculatePathWeight(g, path);
    match weight
    case Ok(w) => return Ok((path, w));
    case Err(e) => return Err(e);
  }

  /** x put in front of every sequence of ps. */
  function Prepend(x: int, ps: seq<seq<int>>): (r: seq<seq<int>>)
    ensures |r| == |ps|
    ensures forall k :: 0 <= k < |ps| ==> r[k] == [x] + ps[k]
  {
    if ps == [] then [] else [[x] + ps[0]] + Prepend(x, ps[1..])
  }

  /** `itertools.permutations(s)`: for each position i in order, s[i] followed by every
      permutation of the other elements. */
  function Permutations(s: seq<int>): seq<seq<int>>
    decreases |s|, 1, 0
  {
    if s == [] then [[]] else PermutationsFrom(s, 0)
  }

  /** The permutations of s whose first element comes from position i or later. */
  function PermutationsFrom(s: seq<int>, i: nat): seq<seq<int>>
    requires i <= |s|
    decreases |s|, 0, |s| - i
  {
    if i == |s| then [] else Prepend(s[i], Permutations(RemoveAt(s, i))) + PermutationsFrom(s, i + 1)
  }

  /** There are |s|! permutations. */
  lemma {:induction false} PermutationsCount(s: seq<int>)
    ensures |Permutations(s)| == Factorial(|s|)
    decreases |s|, 1, 0
  {
    if s != [] {
      PermutationsFromCount(s, 0);
    }
  }

  lemma {:induction false} PermutationsFromCount(s: seq<int>, i: nat)
    requires 0 < |s| && i <= |s|
    ensures |PermutationsFrom(s, i)| == (|s| - i) * Factorial(|s| - 1)
    decreases |s|, 0, |s| - i
  {
    if i < |s| {
      var f := Factorial(|s| - 1);
      PermutationsCount(RemoveAt(s, i));
      PermutationsFromCount(s, i + 1);
      assert |PermutationsFrom(s, i)| == f + (|s| - i - 1) * f;
      assert (|s| - i) * f == f + (|s| - i - 1) * f by {
        assert |s| - i == 1 + (|s| - i - 1);
      }
    }
  }

  /** Every permutation holds exactly the elements of s. */
  lemma {:induction false} PermutationsSound(s: seq<int>, p: seq<int>)
    requires p in Permutations(s)
    ensures multiset(p) == multiset(s)
    decreases |s|, 1, 0
  {
    if s != [] {
      PermutationsFromSound(s, 0, p);
    }
  }

  lemma {:induction false} PermutationsFromSound(s: seq<int>, i: nat, p: seq<int>)
    requires i <= |s| && p in PermutationsFrom(s, i)
    ensures multiset(p) == multiset(s)
    decreases |s|, 0, |s| - i
  {
    if i < |s| {
      var block := Prepend(s[i], Permutations(RemoveAt(s, i)));
      if p in block {
        var k :| 0 <= k < |block| && block[k] == p;
        var q := Permutations(RemoveAt(s, i))[k];
        PermutationsSound(RemoveAt(s, i), q);
        assert p == [s[i]] + q;
      } else {
        PermutationsFromSound(s, i + 1, p);
      }
    }
  }

  /** Every arrangement of the elements of s is among its permutations. */
  lemma {:induction false} PermutationsComplete(s: seq<int>, p: seq<int>)
    requires multiset(p) == multiset(s)
    ensures p in Permutations(s)
    decreases |s|, 1, 0
  {
    if s == [] {
      assert |p| == |multiset(p)| == 0;
    } else {
      assert |p| == |multiset(p)| == |s|;
      assert p[0] in multiset(s);
      var i := IndexOf(s, p[0]);
      var rest := RemoveAt(s, i);
      assert p == [p[0]] + p[1..];
      assert multiset(p) == multiset{p[0]} + multiset(p[1..]);
      assert multiset(rest) + multiset{p[0]} == multiset(p[1..]) + multiset{p[0]};
      assert multiset(p[1..]) == multiset(rest) by {
        forall x ensures multiset(p[1..])[x] == multiset(rest)[x] {
          assert (multiset(rest) + multiset{p[0]})[x] == (multiset(p[1..]) + multiset{p[0]})[x];
        }
      }
      PermutationsComplete(rest, p[1..]);
      var k :| 0 <= k < |Permutations(rest)| && Permutations(rest)[k] == p[1..];
      assert Prepend(s[i], Permutations(rest))[k] == p;
      PermutationsFromHasBlock(s, 0, i, p);
    }
  }

  lemma {:induction false} PermutationsFromHasBlock(s: seq<int>, j: nat, i: nat, p: seq<int>)
    requires j <= i < |s|
    requires p in Prepend(s[i], Permutations(RemoveAt(s, i)))
    ensures p in PermutationsFrom(s, j)
    decreases i - j
  {
    if j < i {
      PermutationsFromHasBlock(s, j + 1, i, p);
    }
  }

  /** With distinct elements no permutation is listed twice. */
  lemma {:induction false} PermutationsDistinct(s: seq<int>)
    requires Distinct(s)
    ensures Distinct(Permutations(s))
    decreases |s|, 1, 0
  {
    if s != [] {
      PermutationsFromDistinct(s, 0);
    }
  }

  lemma {:induction false} PermutationsFromDistinct(s: seq<int>, i: nat)
    requires Distinct(s) && 0 < |s| && i <= |s|
    ensures Distinct(PermutationsFrom(s, i))
    ensures forall p :: p in PermutationsFrom(s, i) ==> p != [] && p[0] in s[i..]
    decreases |s|, 0, |s| - i
  {
    if i < |s| {
      var rest := RemoveAt(s, i);
      RemoveAtDistinct(s, i);
      PermutationsDistinct(rest);
      PermutationsFromDistinct(s, i + 1);
      var block := Prepend(s[i], Permutations(rest));
      var tail := PermutationsFrom(s, i + 1);
      assert Distinct(block) by {
        forall a, b | 0 <= a < b < |block| ensures block[a] != block[b] {
          assert block[a][1..] == Permutations(rest)[a];
          assert block[b][1..] == Permutations(rest)[b];
        }
      }
      forall p | p in tail ensures p[0] != s[i] {
        assert p[0] in s[i + 1..];
      }
      forall a, b | 0 <= a < b < |block + tail| ensures (block + tail)[a] != (block + tail)[b] {
        if b >= |block| && a < |block| {
          assert (block + tail)[a][0] == s[i];
          assert (block + tail)[b] in tail;
        } else if a >= |block| {
          assert (block + tail)[a] == tail[a - |block|];
          assert (block + tail)[b] == tail[b - |block|];
        }
      }
      forall p | p in block + tail ensures p != [] && p[0] in s[i..] {
        if p in block {
          var k :| 0 <= k < |block| && block[k] == p;
          assert p[0] == s[i];
        } else {
          assert p[0] in s[i + 1..];
        }
      }
    }
  }

  /** The tours brute_force examines: the first node followed by each permutation of the rest. */
  function Candidates(nodes: seq<int>): seq<seq<int>>
    requires nodes != []
  {
    Prepend(nodes[0], Permutations(nodes[1..]))
  }

  /** The candidates are exactly the tours that start at the first node and visit every node
      once; there are (n-1)! of them, none listed twice. */
  lemma CandidatesAreTours(nodes: seq<int>)
    requires nodes != [] && Distinct(nodes)
    ensures |Candidates(nodes)| == Factorial(|nodes| - 1)
    ensures Distinct(Candidates(nodes))
    ensures forall p :: p in Candidates(nodes) <==> IsTourFrom(nodes, p)
  {
    PermutationsCount(nodes[1..]);
    CandidatesDistinct(nodes);
    forall p ensures p in Candidates(nodes) <==> IsTourFrom(nodes, p) {
      CandidateIff(nodes, p);
    }
  }

  /** p starts at the first node and holds every node exactly as often as nodes does. */
  predicate IsTourFrom(nodes: seq<int>, p: seq<int>)
    requires nodes != []
  {
    p != [] && p[0] == nodes[0] && multiset(p) == multiset(nodes)
  }

  lemma CandidatesDistinct(nodes: seq<int>)
    requires nodes != [] && Distinct(nodes)
    ensures Distinct(Candidates(nodes))
  {
    var rest := nodes[1..];
    var cs := Candidates(nodes);
    assert Distinct(rest);
    PermutationsDistinct(rest);
    forall a, b | 0 <= a < b < |cs| ensures cs[a] != cs[b] {
      assert cs[a][1..] == Permutations(rest)[a];
      assert cs[b][1..] == Permutations(rest)[b];
    }
  }

  lemma CandidateIff(nodes: seq<int>, p: seq<int>)
    requires nodes != []
    ensures p in Candidates(nodes) <==> IsTourFrom(nodes, p)
  {
    if p in Candidates(nodes) {
      CandidateSound(nodes, p);
    }
    if IsTourFrom(nodes, p) {
      CandidateComplete(nodes, p);
    }
  }

  lemma CandidateSound(nodes: seq<int>, p: seq<int>)
    requires nodes != [] && p in Candidates(nodes)
    ensures IsTourFrom(nodes, p)
  {
    var rest := nodes[1..];
    var cs := Candidates(nodes);
    assert nodes == [nodes[0]] + rest;
    var k :| 0 <= k < |cs| && cs[k] == p;
    var q := Permutations(rest)[k];
    PermutationsSound(rest, q);
    assert p == [nodes[0]] + q;
    assert multiset(p) == multiset{nodes[0]} + multiset(q);
  }

  lemma CandidateComplete(nodes: seq<int>, p: seq<int>)
    requires nodes != [] && IsTourFrom(nodes, p)
    ensures p in Candidates(nodes)
  {
    var rest := nodes[1..];
    var cs := Candidates(nodes);
    assert nodes == [nodes[0]] + rest;
    assert p == [p[0]] + p[1..];
    assert multiset(p[1..]) == multiset(rest) by {
      assert multiset(nodes) == multiset{nodes[0]} + multiset(rest);
      assert multiset(p) == multiset{p[0]} + multiset(p[1..]);
      forall x ensures multiset(p[1..])[x] == multiset(rest)[x] {
        assert multiset(p)[x] == multiset(nodes)[x];
      }
    }
    PermutationsComplete(rest, p[1..]);
    var k :| 0 <= k < |Permutations(rest)| && Permutations(rest)[k] == p[1..];
    assert cs[k] == p;
  }

  /** p is the first candidate of least closed weight, and every candidate is a walkable tour. */
  predicate FirstLightest(g: Graph, cs: seq<seq<int>>, p: seq<int>) {
    && (forall k :: 0 <= k < |cs| ==> TourWalkable(g, cs[k]))
    && exists k :: (0 <= k < |cs| && cs[k] == p
      && (forall j :: 0 <= j < |cs| ==> TourWeight(g, p) <= TourWeight(g, cs[j]))
      && (forall j :: 0 <= j < k ==> TourWeight(g, cs[j]) > TourWeight(g, p)))
  }

  /** After the first n candidates: each was walkable; the best is the first of least weight
      among them, at index best, and there is one exactly when n > 0. */
  ghost predicate BestOfPrefix(g: Graph, cs: seq<seq<int>>, n: nat, optimalPath: Option<seq<int>>,
                               optimalWeight: Cost, best: nat)
  {
    && n <= |cs|
    && (forall k :: 0 <= k < n ==> TourWalkable(g, cs[k]))
    && (optimalPath.None? <==> n == 0)
    && (optimalPath.None? ==> optimalWeight == Inf)
    && (optimalPath.Some? ==> (best < n && cs[best] == optimalPath.value
      && optimalWeight == Fin(TourWeight(g, cs[best]))
      && (forall j :: 0 <= j < n ==> TourWeight(g, cs[best]) <= TourWeight(g, cs[j]))
      && (forall j :: 0 <= j < best ==> TourWeight(g, cs[j]) > TourWeight(g, cs[best]))))
  }

  /** One step of the fold: a strictly lighter candidate replaces the best, any other is skipped. */
  lemma ScanStep(g: Graph, cs: seq<seq<int>>, n: nat, optimalPath: Option<seq<int>>, optimalWeight: Cost, best: nat)
    requires n < |cs| && TourWalkable(g, cs[n])
    requires BestOfPrefix(g, cs, n, optimalPath, optimalWeight, best)
    ensures var w := Fin(TourWeight(g, cs[n]));
      if w.Below(optimalWeight) then BestOfPrefix(g, cs, n + 1, Some(cs[n]), w, n)
      else BestOfPrefix(g, cs, n + 1, optimalPath, optimalWeight, best)
  {
  }

  lemma ScanDone(g: Graph, cs: seq<seq<int>>, p: seq<int>, optimalWeight: Cost, best: nat)
    requires BestOfPrefix(g, cs, |cs|, Some(p), optimalWeight, best)
    ensures FirstLightest(g, cs, p)
  {
    assert cs[best] == p;
  }

  /** One batch of the fold: each permutation of the batch, with the first node put in front,
      goes through `brute_force_path_worker` in order; false for the KeyError of the first
      candidate that is not a walkable tour. */
  method ScanBatch(g: Graph, first: int, batch: seq<seq<int>>, ghost cs: seq<seq<int>>, pos: nat,
                   optimalPath: Option<seq<int>>, optimalWeight: Cost, ghost best: nat)
    returns (ok: bool, newPath: Option<seq<int>>, newWeight: Cost, ghost newBest: nat)
    requires pos + |batch| <= |cs|
    requires forall j :: 0 <= j < |batch| ==> cs[pos + j] == [first] + batch[j]
    requires BestOfPrefix(g, cs, pos, optimalPath, optimalWeight, best)
    ensures ok ==> BestOfPrefix(g, cs, pos + |batch|, newPath, newWeight, newBest)
    ensures !ok ==> exists j :: pos <= j < pos + |batch| && !TourWalkable(g, cs[j])
  {
    newPath, newWeight, newBest := optimalPath, optimalWeight, best;
    for j := 0 to |batch|
      invariant BestOfPrefix(g, cs, pos + j, newPath, newWeight, newBest)
    {
      var result := BruteForcePathWorker(g, [first] + batch[j]);
      if result.Err? {
        return false, newPath, newWeight, newBest;
      }
      ScanStep(g, cs, pos + j, newPath, newWeight, newBest);
      var (path, weight) := result.value;
      if Fin(weight).Below(newWeight) {
        newPath, newWeight, newBest := Some(path), Fin(weight), pos + j;
      }
    }
    ok := true;
  }

  /** `brute_force`, run sequentially: batches of `batchSize` permutations in order, each
      candidate's weight computed, the best replaced only on a strictly smaller weight.
      An empty graph raises ValueError (`math.factorial(-1)`), so does a negative batch
      size (`islice`) and, once there is a batch to hand out, a worker count below 1
      (`ThreadPoolExecutor`); a batch size of 0 reads no candidate and returns None. */
  method BruteForce(g: Graph, maxWorkers: int, batchSize: int) returns (r: Result<Option<seq<int>>>)
    ensures g.nodes == [] ==> r == Err(ValueError)
    ensures g.nodes != [] && batchSize < 0 ==> r == Err(ValueError)
    ensures g.nodes != [] && batchSize == 0 ==> r == Ok(None)
    ensures g.nodes != [] && batchSize > 0 && maxWorkers < 1 ==> r == Err(ValueError)
    ensures g.nodes != [] && batchSize > 0 && maxWorkers >= 1 ==>
      (r.Err? <==> exists c :: c in Candidates(g.nodes) && !TourWalkable(g, c))
    ensures g.nodes != [] && batchSize > 0 && maxWorkers >= 1 && r.Err? ==> r.error == KeyError
    ensures g.nodes != [] && batchSize > 0 && maxWorkers >= 1 && r.Ok? ==>
      r.value.Some? && FirstLightest(g, Candidates(g.nodes), r.value.value)
  {
    var nodes := g.nodes;
    if |nodes| == 0 {
      return Err(ValueError);
    }
    if batchSize < 0 {
      return Err(ValueError);
    }
    var permutations := Permutations(nodes[1..]);
    ghost var cs := Candidates(nodes);
    PermutationsCount(nodes[1..]);
    var optimalPath: Option<seq<int>> := None;
    var optimalWeight: Cost := Inf;
    ghost var best := 0;
    var pos := 0;
    while true
      invariant pos <= |permutations| == |cs|
      invariant batchSize == 0 || maxWorkers < 1 ==> pos == 0
      invariant BestOfPrefix(g, cs, pos, optimalPath, optimalWeight, best)
      decreases |permutations| - pos
    {
      var end := if pos + batchSize < |permutations| then pos + batchSize else |permutations|;
      var batch := permutations[pos..end];
      if batch == [] {
        break;
      }
      if maxWorkers < 1 {
        return Err(ValueError);
      }
      var ok;
      ok, optimalPath, optimalWeight, best := ScanBatch(g, nodes[0], batch, cs, pos, optimalPath, optimalWeight, best);
      if !ok {
        return Err(KeyError);
      }
      pos := end;
    }
    if optimalPath.None? {
      return Ok(None);
    }
    assert batchSize > 0 && pos == |cs|;
    ScanDone(g, cs, optimalPath.value, optimalWeight, best);
    return Ok(Some(optimalPath.value));
  }
}
