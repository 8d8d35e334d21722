/**
  Tour utilities: reading `.edges` files and TSPLIB `.opt.tour` files line by
  line, the length of an open path, and closing a path into a round trip.
*/
module TsplibNwxUtils {
  import opened Base
  import opened Graphs
  import opened Text

  /** One line of an `.edges` file: two node ids and a weight. */
  type EdgeRow = (int, int, Decimal)

  /** `node1, node2, weight = line.strip().split()` followed by `int`, `int`, `float`.
      The unpacking and the conversions all raise ValueError. */
  function ParseEdgeLine(line: string): (r: Result<EdgeRow>)
    ensures |Split(Strip(line))| != 3 ==> r == Err(ValueError)
    ensures r.Err? ==> r.error == ValueError
  {
    var parts := Split(Strip(line));
    if |parts| != 3 then Err(ValueError) else
      match (ParseInt(parts[0]), ParseInt(parts[1]), ParseDecimal(parts[2]))
      case (Some(a), Some(b), Some(w)) => Ok((a, b, w))
      case _ => Err(ValueError)
  }

  /** `parse_edges_file`: one row per line, in file order; the first line that does
      not parse makes the whole call raise. */
  method ParseEdgesFile(lines: seq<string>) returns (r: Result<seq<EdgeRow>>)
    ensures r.Ok? <==> forall k :: 0 <= k < |lines| ==> ParseEdgeLine(lines[k]).Ok?
    ensures r.Ok? ==> |r.value| == |lines|
    ensures r.Ok? ==> forall k :: 0 <= k < |lines| ==> r.value[k] == ParseEdgeLine(lines[k]).value
    ensures r.Err? ==> r.error == ValueError
  {
    var edges: seq<EdgeRow> := [];
    for i := 0 to |lines|
      invariant |edges| == i
      invariant forall k :: 0 <= k < i ==> ParseEdgeLine(lines[k]).Ok? && edges[k] == ParseEdgeLine(lines[k]).value
    {
      var row := ParseEdgeLine(lines[i]);
      if row.Err? {
        return Err(ValueError);
      }
      edges := edges + [row.value];
    }
    return Ok(edges);
  }

  /** The line that opens the node list of a `.opt.tour` file, matched exactly. */
  const TourSection: string := "TOUR_SECTION\n"

  /** `line.strip() in ('-1', 'EOF')`. */
  predicate IsTourEnd(line: string) {
    Strip(line) == "-1" || Strip(line) == "EOF"
  }

  /** `map(int, tokens)`, all of it, or None for the ValueError of the first bad token. */
  function ParseInts(tokens: seq<string>): (r: Option<seq<int>>)
    ensures r.Some? <==> forall k :: 0 <= k < |tokens| ==> ParseInt(tokens[k]).Some?
    ensures r.Some? ==> |r.value| == |tokens|
    ensures r.Some? ==> forall k :: 0 <= k < |tokens| ==> r.value[k] == ParseInt(tokens[k]).value
  {
    if tokens == [] then Some([]) else
      match (ParseInt(tokens[0]), ParseInts(tokens[1..]))
      case (Some(x), Some(xs)) => Some([x] + xs)
      case _ => None
  }

  /** Prefix xs to the result of a parse, or keep its error. */
  function Prefixed(xs: seq<int>, r: Result<seq<int>>): Result<seq<int>> {
    match r
    case Ok(ys) => Ok(xs + ys)
    case Err(e) => Err(e)
  }

  /** The node ids that the lines after TOUR_SECTION contribute: every integer of every
      line, in order, up to the first end marker; a token that is not an integer raises. */
  function TourEntries(lines: seq<string>): Result<seq<int>> {
    if lines == [] || IsTourEnd(lines[0]) then Ok([]) else
      match ParseInts(Split(Strip(lines[0])))
      case None => Err(ValueError)
      case Some(xs) => Prefixed(xs, TourEntries(lines[1..]))
  }

  /** The entries after the first line that is exactly "TOUR_SECTION\n"; ValueError when there is none. */
  function TourFile(lines: seq<string>): Result<seq<int>> {
    if TourSection in lines then TourEntries(lines[IndexOf(lines, TourSection) + 1..]) else Err(ValueError)
  }

  /** `parse_opt_tour_file`. */
  method ParseOptTourFile(lines: seq<string>) returns (r: Result<seq<int>>)
    ensures r == TourFile(lines)
  {
    if TourSection !in lines {
      return Err(ValueError);
    }
    var start := IndexOf(lines, TourSection) + 1;
    r := ReadTourEntries(lines, start);
  }

  /** The reading loop of `parse_opt_tour_file`, from the line after TOUR_SECTION. */
  method ReadTourEntries(lines: seq<string>, start: nat) returns (r: Result<seq<int>>)
    requires start <= |lines|
    ensures r == TourEntries(lines[start..])
  {
    ghost var expected := TourEntries(lines[start..]);
    var tour: seq<int> := [];
    PrefixedEmpty(expected);
    for i := start to |lines|
      invariant Prefixed(tour, TourEntries(lines[i..])) == expected
    {
      var stop := IsTourEnd(lines[i]);
      var values := if stop then None else ParseInts(Split(Strip(lines[i])));
      TourLineStep(lines, i, stop, values, tour, expected);
      if stop {
        return Ok(tour);
      }
      if values.None? {
        return Err(ValueError);
      }
      tour := tour + values.value;
    }
    TourLinesDone(lines, tour, expected);
    return Ok(tour);
  }

  /** Reading stops at the end of the file with the integers read so far. */
  lemma TourLinesDone(lines: seq<string>, tour: seq<int>, expected: Result<seq<int>>)
    requires Prefixed(tour, TourEntries(lines[|lines|..])) == expected
    ensures expected == Ok(tour)
  {
    assert lines[|lines|..] == [];
    assert tour + [] == tour;
  }

  /** What reading line i does to the invariant of the reading loop. */
  lemma TourLineStep(lines: seq<string>, i: nat, stop: bool, values: Option<seq<int>>,
                     tour: seq<int>, expected: Result<seq<int>>)
    requires i < |lines| && Prefixed(tour, TourEntries(lines[i..])) == expected
    requires stop == IsTourEnd(lines[i])
    requires values == if stop then None else ParseInts(Split(Strip(lines[i])))
    ensures stop ==> expected == Ok(tour)
    ensures !stop && values.None? ==> expected == Err(ValueError)
    ensures !stop && values.Some? ==> Prefixed(tour + values.value, TourEntries(lines[i + 1..])) == expected
  {
    TourEntriesStep(lines[i..], stop, values);
    assert tour + [] == tour;
    if !stop && values.Some? {
      assert lines[i..][1..] == lines[i + 1..];
      PrefixedTwice(tour, values.value, TourEntries(lines[i + 1..]));
    }
  }

  /** One step of the reading loop, as TourEntries sees it. */
  lemma TourEntriesStep(lines: seq<string>, stop: bool, values: Option<seq<int>>)
    requires lines != []
    requires stop == IsTourEnd(lines[0])
    requires values == if stop then None else ParseInts(Split(Strip(lines[0])))
    ensures stop ==> TourEntries(lines) == Ok([])
    ensures !stop && values.None? ==> TourEntries(lines) == Err(ValueError)
    ensures !stop && values.Some? ==> TourEntries(lines) == Prefixed(values.value, TourEntries(lines[1..]))
  {
  }

  /** Lines after an end marker have no effect. */
  lemma {:induction false} TourStopsAtEnd(lines: seq<string>, k: nat)
    requires k < |lines| && IsTourEnd(lines[k])
    ensures TourEntries(lines) == TourEntries(lines[..k])
  {
    if k > 0 && !IsTourEnd(lines[0]) {
      assert lines[1..][..k - 1] == lines[..k][1..];
      TourStopsAtEnd(lines[1..], k - 1);
    }
  }

  /** A blank line contributes no entries. */
  lemma TourSkipsBlankLine(line: string, rest: seq<string>)
    requires AllSpace(line)
    ensures TourEntries([line] + rest) == TourEntries(rest)
  {
    StripAllSpace(line);
    assert !IsTourEnd(line);
    SplitAllSpace([]);
    assert ([line] + rest)[1..] == rest;
    PrefixedEmpty(TourEntries(rest));
  }

  lemma StripAllSpace(line: string)
    requires AllSpace(line)
    ensures Strip(line) == []
  {
  }

  lemma PrefixedEmpty(r: Result<seq<int>>)
    ensures Prefixed([], r) == r
  {
    if r.Ok? {
      assert [] + r.value == r.value;
    }
  }

  lemma PrefixedTwice(xs: seq<int>, ys: seq<int>, r: Result<seq<int>>)
    ensures Prefixed(xs, Prefixed(ys, r)) == Prefixed(xs + ys, r)
  {
    if r.Ok? {
      assert xs + (ys + r.value) == (xs + ys) + r.value;
    }
  }

  /** The result of reading one block of lines followed by another. */
  function Chain(first: Result<seq<int>>, second: Result<seq<int>>): Result<seq<int>> {
    match first
    case Ok(xs) => Prefixed(xs, second)
    case Err(e) => Err(e)
  }

  /** Reading is line by line and in order: the entries of a+b are those of a followed
      by those of b, when a holds no end marker. */
  lemma {:induction false} TourEntriesAppend(a: seq<string>, b: seq<string>)
    requires forall k :: 0 <= k < |a| ==> !IsTourEnd(a[k])
    ensures TourEntries(a + b) == Chain(TourEntries(a), TourEntries(b))
  {
    if a == [] {
      assert a + b == b;
      PrefixedEmpty(TourEntries(b));
    } else {
      assert (a + b)[0] == a[0];
      assert (a + b)[1..] == a[1..] + b;
      TourEntriesAppend(a[1..], b);
      var values := ParseInts(Split(Strip(a[0])));
      if values.Some? {
        var rest := TourEntries(a[1..]);
        if rest.Ok? {
          PrefixedTwice(values.value, rest.value, TourEntries(b));
        }
      }
    }
  }

  /** `calculate_path_length`: the sum of the weights of consecutive pairs; None for the
      KeyError raised at the first missing edge. */
  method CalculatePathLength(g: Graph, path: seq<int>) returns (r: Option<int>)
    ensures Walkable(g, path) ==> r == Some(OpenLength(g, path))
    ensures !Walkable(g, path) ==> r == None
    ensures |path| < 2 ==> r == Some(0)
  {
    if |path| < 2 {
      return Some(0);
    }
    var pathLength := 0;
    for i := 0 to |path| - 1
      invariant Walkable(g, path[..i + 1])
      invariant pathLength == OpenLength(g, path[..i + 1])
    {
      if !HasEdge(g, path[i], path[i + 1]) {
        assert !Walkable(g, path);
        return None;
      }
      assert path[..i + 2] == path[..i + 1] + [path[i + 1]];
      OpenLengthAppend(g, path[..i + 1], path[i + 1]);
      pathLength := pathLength + W(g, path[i], path[i + 1]);
    }
    assert path[..|path|] == path;
    return Some(pathLength);
  }

  /** `close_path`: a path that does not end where it starts gets its first node
      appended, with the weight of that closing edge (0 when the edge is missing);
      a closed path is returned as it is, with weight 0. IndexError on an empty path. */
  function ClosePath(g: Graph, path: seq<int>): (r: Result<(seq<int>, nat)>)
    ensures r.Err? <==> path == []
    ensures r.Err? ==> r.error == IndexError
    ensures r.Ok? ==> var closed := r.value.0;
      && |path| <= |closed| <= |path| + 1
      && closed[..|path|] == path
      && closed[|closed| - 1] == path[0]
    ensures path != [] && path[0] == path[|path| - 1] ==> r == Ok((path, 0))
    ensures path != [] && path[0] != path[|path| - 1] ==> var last := path[|path| - 1];
      && r.Ok? && r.value.0 == path + [path[0]]
      && (HasEdge(g, last, path[0]) ==> r.value.1 == W(g, last, path[0]))
      && (!HasEdge(g, last, path[0]) ==> r.value.1 == 0)
  {
    if path == [] then Err(IndexError)
    else if path[0] != path[|path| - 1] then
      var weight := if HasEdge(g, path[|path| - 1], path[0]) then W(g, path[|path| - 1], path[0]) else 0;
      Ok((path + [path[0]], weight))
    else Ok((path, 0))
  }

  /** Closing twice changes nothing more: the second call returns the same path and weight 0. */
  lemma ClosePathIdempotent(g: Graph, path: seq<int>)
    requires path != []
    ensures var closed := ClosePath(g, path).value.0;
      ClosePath(g, closed) == Ok((closed, 0))
  {
  }

  /** The weight close_path reports is exactly the length the closing step adds to the walk
      when the closing edge exists; without the edge the weight is 0 and the closed path is
      not a walk of the graph. */
  lemma ClosePathAddsItsWeight(g: Graph, path: seq<int>)
    requires path != [] && Walkable(g, path)
    ensures var (closed, weight) := ClosePath(g, path).value;
      if path[0] == path[|path| - 1] || HasEdge(g, path[|path| - 1], path[0]) then
        Walkable(g, closed) && OpenLength(g, closed) == OpenLength(g, path) + weight
      else
        weight == 0 && !Walkable(g, closed)
  {
    if path[0] != path[|path| - 1] {
      WalkableAppend(g, path, path[0]);
      if HasEdge(g, path[|path| - 1], path[0]) {
        OpenLengthAppend(g, path, path[0]);
      }
    }
  }
}
