/**
  The second, simpler TSPLIB converter: it reads only the edge weight type and the node
  coordinates of an instance file, accepts the ATT and GEO types, and writes one
  space-separated line per pair of node ids i < j. The distance formulas are floating-point
  code and enter as a parameter, as in the first converter.
*/
module ParseTspFiles {
  import opened Base
  import opened Text
  import P = TspFileParser
  import TsplibNwxUtils

  const TypeKey: string := "EDGE_WEIGHT_TYPE"

  /** The first loop of `parse_tsp_file` from line i on, with the type read so far: every line
      that starts with the key replaces the type by its text after the first colon, and one
      without a colon raises IndexError. */
  function TypeFrom(lines: seq<string>, i: nat, current: string): Result<string>
    decreases |lines| - i
  {
    if i >= |lines| then Ok(current)
    else if StartsWith(lines[i], TypeKey) then
      match FieldAfterColon(lines[i])
      case Err(e) => Err(e)
      case Ok(v) => TypeFrom(lines, i + 1, v)
    else TypeFrom(lines, i + 1, current)
  }

  /** The exact header lines that open the coordinates, with a Unix and a Windows line end. */
  const CoordHeader: string := "NODE_COORD_SECTION\n"
  const CoordHeaderCrLf: string := "NODE_COORD_SECTION\r\n"

  /** `lines.index(...) + 1`, trying the Unix header first; ValueError when neither occurs. */
  function CoordStart(lines: seq<string>): (r: Result<nat>)
    ensures r.Err? <==> CoordHeader !in lines && CoordHeaderCrLf !in lines
    ensures r.Err? ==> r.error == ValueError
    ensures r.Ok? ==> 1 <= r.value <= |lines|
    ensures r.Ok? && CoordHeader in lines ==>
      lines[r.value - 1] == CoordHeader && CoordHeader !in lines[..r.value - 1]
    ensures r.Ok? && CoordHeader !in lines ==>
      lines[r.value - 1] == CoordHeaderCrLf && CoordHeaderCrLf !in lines[..r.value - 1]
  {
    if CoordHeader in lines then Ok(IndexOf(lines, CoordHeader) + 1)
    else if CoordHeaderCrLf in lines then Ok(IndexOf(lines, CoordHeaderCrLf) + 1)
    else Err(ValueError)
  }

  /** The outcome of one line of the coordinate loop: the break, the dict after the line (the
      same dict when a ValueError was caught), or the IndexError that escapes. */
  datatype LineOutcome = Done | Keep(coords: P.Coords) | Raise(error: Error)

  /** A line ends the loop when it mentions EOF or is blank. */
  predicate StopLine(line: string) {
    Contains(line, "EOF") || Strip(line) == ""
  }

  /** The node a coordinate line describes: a line that is not a stop line and whose first three
      tokens read as an int and two floats. */
  function CoordOf(line: string): Option<(int, P.Point)> {
    var parts := Split(Strip(line));
    if StopLine(line) || |parts| < 3 then None
    else match (ParseInt(parts[0]), ParseDecimal(parts[1]), ParseDecimal(parts[2]))
      case (Some(id), Some(x), Some(y)) => Some((id, (x, y)))
      case _ => None
  }

  /** One turn of the coordinate loop. The conversions run in the order the code writes them:
      int of the first token, then float of the second, then float of the third; a token that
      does not convert is a caught ValueError, and a token that is missing when its turn comes is
      an uncaught IndexError. Tokens after the third are ignored. */
  function CoordLine(c: P.Coords, line: string): (r: LineOutcome)
    requires P.CoordsValid(c)
    ensures r == Done <==> StopLine(line)
    ensures r.Raise? ==> r.error == IndexError && |Split(Strip(line))| < 3
    ensures r.Keep? ==> P.CoordsValid(r.coords)
    ensures r.Keep? && r.coords != c ==> |Split(Strip(line))| >= 3
    ensures !StopLine(line) && |Split(Strip(line))| >= 3 ==> r.Keep?
  {
    if StopLine(line) then Done
    else
      var parts := Split(Strip(line));
      if |parts| < 1 then Raise(IndexError)
      else
        match ParseInt(parts[0])
        case None => Keep(c)
        case Some(id) =>
          if |parts| < 2 then Raise(IndexError)
          else
            match ParseDecimal(parts[1])
            case None => Keep(c)
            case Some(x) =>
              if |parts| < 3 then Raise(IndexError)
              else
                match ParseDecimal(parts[2])
                case None => Keep(c)
                case Some(y) =>
                  P.PutValid(c, id, (x, y));
                  Keep(P.Put(c, id, (x, y)))
  }

  /** The coordinate loop from line i on, with the dict built so far. */
  function CoordsFrom(lines: seq<string>, i: nat, c: P.Coords): (r: Result<P.Coords>)
    requires P.CoordsValid(c)
    ensures r.Ok? ==> P.CoordsValid(r.value)
    decreases |lines| - i
  {
    if i >= |lines| then Ok(c)
    else
      match CoordLine(c, lines[i])
      case Done => Ok(c)
      case Raise(e) => Err(e)
      case Keep(d) => CoordsFrom(lines, i + 1, d)
  }

  /** `parse_tsp_file` on the lines `readlines()` returns: the coordinates and the type. */
  function ParseFile(lines: seq<string>): (r: Result<(P.Coords, string)>)
    ensures r.Ok? ==> P.CoordsValid(r.value.0)
  {
    match TypeFrom(lines, 0, "")
    case Err(e) => Err(e)
    case Ok(t) =>
      match CoordStart(lines)
      case Err(e) => Err(e)
      case Ok(start) =>
        match CoordsFrom(lines, start, P.NoCoords)
        case Err(e) => Err(e)
        case Ok(c) => Ok((c, t))
  }

  /** The body of the coordinate loop for one line: the break test, then the try block, whose
      caught ValueError leaves the dict as it was. */
  method ReadCoordLine(nodeCoordinates: P.Coords, line: string) returns (outcome: LineOutcome)
    requires P.CoordsValid(nodeCoordinates)
    ensures outcome == CoordLine(nodeCoordinates, line)
  {
    if Contains(line, "EOF") || Strip(line) == "" {
      return Done;
    }
    var parts := Split(Strip(line));
    if |parts| < 1 {
      return Raise(IndexError);
    }
    var nodeId := ParseInt(parts[0]);
    if nodeId.None? {
      return Keep(nodeCoordinates);
    }
    if |parts| < 2 {
      return Raise(IndexError);
    }
    var x := ParseDecimal(parts[1]);
    if x.None? {
      return Keep(nodeCoordinates);
    }
    if |parts| < 3 {
      return Raise(IndexError);
    }
    var y := ParseDecimal(parts[2]);
    if y.None? {
      return Keep(nodeCoordinates);
    }
    return Keep(P.Put(nodeCoordinates, nodeId.value, (x.value, y.value)));
  }

  /** The first loop of `parse_tsp_file`: the edge weight type, read from every line. */
  method ReadEdgeWeightType(lines: seq<string>) returns (r: Result<string>)
    ensures r == TypeFrom(lines, 0, "")
  {
    var edgeWeightType := "";
    for i := 0 to |lines|
      invariant TypeFrom(lines, i, edgeWeightType) == TypeFrom(lines, 0, "")
    {
      if StartsWith(lines[i], TypeKey) {
        var field := FieldAfterColon(lines[i]);
        if field.Err? {
          return Err(field.error);
        }
        edgeWeightType := field.value;
      }
    }
    return Ok(edgeWeightType);
  }

  /** The second loop of `parse_tsp_file`: the coordinates, from the line after the header up to
      the first stop line. */
  method ReadCoordinates(lines: seq<string>, start: nat) returns (r: Result<P.Coords>)
    ensures r == CoordsFrom(lines, start, P.NoCoords)
  {
    var nodeCoordinates := P.NoCoords;
    var i := start;
    while i < |lines|
      invariant P.CoordsValid(nodeCoordinates)
      invariant CoordsFrom(lines, i, nodeCoordinates) == CoordsFrom(lines, start, P.NoCoords)
      decreases |lines| - i
    {
      var outcome := ReadCoordLine(nodeCoordinates, lines[i]);
      if outcome.Done? {
        break;
      }
      if outcome.Raise? {
        return Err(outcome.error);
      }
      nodeCoordinates := outcome.coords;
      i := i + 1;
    }
    return Ok(nodeCoordinates);
  }

  /** `parse_tsp_file(filename)`: the type, the search for the header, and the coordinates. */
  method ParseTspFile(lines: seq<string>) returns (r: Result<(P.Coords, string)>)
    ensures r == ParseFile(lines)
  {
    var edgeWeightType := ReadEdgeWeightType(lines);
    if edgeWeightType.Err? {
      return Err(edgeWeightType.error);
    }
    var start := CoordStart(lines);
    if start.Err? {
      return Err(start.error);
    }
    var nodeCoordinates := ReadCoordinates(lines, start.value);
    if nodeCoordinates.Err? {
      return Err(nodeCoordinates.error);
    }
    return Ok((nodeCoordinates.value, edgeWeightType.value));
  }

  /** The type loop raises exactly when a line from i on starts with the key and has no colon. */
  lemma {:induction false} TypeRaises(lines: seq<string>, i: nat, current: string)
    ensures TypeFrom(lines, i, current).Err? <==>
      exists k :: i <= k < |lines| && StartsWith(lines[k], TypeKey) && ':' !in lines[k]
    ensures TypeFrom(lines, i, current).Err? ==> TypeFrom(lines, i, current).error == IndexError
    decreases |lines| - i
  {
    if i < |lines| {
      if StartsWith(lines[i], TypeKey) && ':' !in lines[i] {
      } else {
        var next := if StartsWith(lines[i], TypeKey) then FieldAfterColon(lines[i]).value else current;
        TypeRaises(lines, i + 1, next);
        if exists k :: i <= k < |lines| && StartsWith(lines[k], TypeKey) && ':' !in lines[k] {
          var k :| i <= k < |lines| && StartsWith(lines[k], TypeKey) && ':' !in lines[k];
          assert k != i;
        }
      }
    }
  }

  /** The type the loop ends with comes from the last line that starts with the key, or stays
      as it was when no line from i on does. */
  lemma {:induction false} TypeLastWins(lines: seq<string>, i: nat, current: string)
    ensures TypeFrom(lines, i, current).Ok? ==>
      || (TypeFrom(lines, i, current).value == current
          && forall m :: i <= m < |lines| ==> !StartsWith(lines[m], TypeKey))
      || exists k :: i <= k < |lines| && StartsWith(lines[k], TypeKey) && ':' in lines[k]
          && TypeFrom(lines, i, current).value == FieldAfterColon(lines[k]).value
          && forall m :: k < m < |lines| ==> !StartsWith(lines[m], TypeKey)
    decreases |lines| - i
  {
    if i < |lines| {
      if StartsWith(lines[i], TypeKey) {
        if ':' in lines[i] {
          TypeLastWins(lines, i + 1, FieldAfterColon(lines[i]).value);
        }
      } else {
        TypeLastWins(lines, i + 1, current);
      }
    }
  }

  /** The edge weight type of a parsed file is the text after the colon of the last line that
      starts with EDGE_WEIGHT_TYPE, or "" when there is none. */
  lemma ParsedType(lines: seq<string>, k: nat)
    requires k < |lines| && StartsWith(lines[k], TypeKey)
    requires forall m :: k < m < |lines| ==> !StartsWith(lines[m], TypeKey)
    ensures ParseFile(lines).Ok? ==> ':' in lines[k] && ParseFile(lines).value.1 == FieldAfterColon(lines[k]).value
  {
    TypeLastWins(lines, 0, "");
    TypeRaises(lines, 0, "");
  }

  /** The two errors the parse raises before any coordinate is read: IndexError for a type line
      without a colon, and otherwise ValueError when neither header line is present. */
  lemma ParseFailures(lines: seq<string>)
    ensures (exists k :: 0 <= k < |lines| && StartsWith(lines[k], TypeKey) && ':' !in lines[k]) ==>
      ParseFile(lines) == Err(IndexError)
    ensures
      && (forall k :: 0 <= k < |lines| && StartsWith(lines[k], TypeKey) ==> ':' in lines[k])
      && CoordHeader !in lines && CoordHeaderCrLf !in lines
      ==> ParseFile(lines) == Err(ValueError)
  {
    TypeRaises(lines, 0, "");
  }

  /** A stop line ends the coordinate loop: the lines after it are never read. */
  lemma {:induction false} StopIgnoresRest(lines: seq<string>, i: nat, c: P.Coords, k: nat)
    requires P.CoordsValid(c) && i <= k < |lines| && StopLine(lines[k])
    ensures CoordsFrom(lines, i, c) == CoordsFrom(lines[..k + 1], i, c)
    decreases k - i
  {
    var cut := lines[..k + 1];
    assert cut[i] == lines[i];
    var outcome := CoordLine(c, lines[i]);
    if outcome.Keep? {
      StopIgnoresRest(lines, i + 1, outcome.coords, k);
    }
  }

  /** A line changes the dict exactly when it describes a node, and then sets that node's point;
      every other line that does not stop or raise is skipped. */
  lemma CoordLineEffect(c: P.Coords, line: string)
    requires P.CoordsValid(c)
    ensures CoordOf(line).Some? ==>
      CoordLine(c, line) == Keep(P.Put(c, CoordOf(line).value.0, CoordOf(line).value.1))
    ensures CoordOf(line).None? && CoordLine(c, line).Keep? ==> CoordLine(c, line).coords == c
  {
  }

  /** The IndexError escapes exactly when a token is missing at the moment its conversion comes:
      no token, or only an int, or only an int and a float. */
  lemma CoordLineRaises(c: P.Coords, line: string)
    requires P.CoordsValid(c)
    ensures var parts := Split(Strip(line));
      CoordLine(c, line).Raise? <==>
        && !StopLine(line)
        && (|parts| == 0
            || (|parts| == 1 && ParseInt(parts[0]).Some?)
            || (|parts| == 2 && ParseInt(parts[0]).Some? && ParseDecimal(parts[1]).Some?))
  {
  }

  /** A node no later line describes keeps its point to the end of the loop. */
  lemma {:induction false} KeepsNode(lines: seq<string>, i: nat, d: P.Coords, id: int)
    requires P.CoordsValid(d) && id in d.at
    requires forall m :: i <= m < |lines| && CoordOf(lines[m]).Some? ==> CoordOf(lines[m]).value.0 != id
    ensures CoordsFrom(lines, i, d).Ok? ==>
      id in CoordsFrom(lines, i, d).value.at && CoordsFrom(lines, i, d).value.at[id] == d.at[id]
    decreases |lines| - i
  {
    if i < |lines| {
      CoordLineEffect(d, lines[i]);
      var outcome := CoordLine(d, lines[i]);
      if outcome.Keep? {
        if CoordOf(lines[i]).Some? {
          P.PutValid(d, CoordOf(lines[i]).value.0, CoordOf(lines[i]).value.1);
        }
        KeepsNode(lines, i + 1, outcome.coords, id);
      }
    }
  }

  /** A repeated node id keeps the point of its last line: when line k describes a node, no line
      before it stops the loop and no line after it describes the same id, the dict the loop
      returns maps that id to line k's point. */
  lemma {:induction false} LastCoordWins(lines: seq<string>, i: nat, c: P.Coords, k: nat)
    requires P.CoordsValid(c) && i <= k < |lines| && CoordOf(lines[k]).Some?
    requires forall m :: i <= m < k ==> !StopLine(lines[m])
    requires forall m :: k < m < |lines| && CoordOf(lines[m]).Some? ==>
      CoordOf(lines[m]).value.0 != CoordOf(lines[k]).value.0
    ensures CoordsFrom(lines, i, c).Ok? ==>
      var (id, p) := CoordOf(lines[k]).value;
      id in CoordsFrom(lines, i, c).value.at && CoordsFrom(lines, i, c).value.at[id] == p
    decreases k - i
  {
    CoordLineEffect(c, lines[i]);
    var outcome := CoordLine(c, lines[i]);
    if i < k {
      if outcome.Keep? {
        LastCoordWins(lines, i + 1, outcome.coords, k);
      }
    } else {
      var (id, p) := CoordOf(lines[k]).value;
      P.PutValid(c, id, p);
      KeepsNode(lines, k + 1, outcome.coords, id);
    }
  }

  /** Which edge weight types `choose_distance_calculator` accepts: ATT and GEO, with the formula
      of the same name, and nothing else. */
  function ChooseCalculator(edgeWeightType: string): (r: Result<P.WeightType>)
    ensures r.Ok? <==> edgeWeightType == "ATT" || edgeWeightType == "GEO"
    ensures r.Err? ==> r.error == ValueError
    ensures r.Ok? ==> P.WeightTypeOf(edgeWeightType) == Some(r.value)
  {
    if edgeWeightType == "ATT" then Ok(P.Att)
    else if edgeWeightType == "GEO" then Ok(P.Geo)
    else Err(ValueError)
  }

  /** The types this converter accepts are the ones the first converter weighs, less EUC_2D. */
  lemma ChooserRejectsEuclid(edgeWeightType: string)
    ensures ChooseCalculator(edgeWeightType).Ok? <==>
      P.WeightTypeOf(edgeWeightType).Some? && edgeWeightType != "EUC_2D"
  {
  }

  /** The edge loop of `main`: both loops run over the dict in insertion order and keep the
      pairs with i < j, weighed by the chosen formula. */
  method BuildEdges(c: P.Coords, w: P.WeightType, dist: P.Distance) returns (edges: seq<P.Edge<int>>)
    requires P.CoordsValid(c)
    ensures P.PairWalk(c, Some(w), dist, 0, 0, []) == Ok(edges)
  {
    edges := [];
    for a := 0 to |c.ids|
      invariant P.PairWalk(c, Some(w), dist, a, 0, edges) == P.PairWalk(c, Some(w), dist, 0, 0, [])
    {
      var i := c.ids[a];
      var coord1 := c.at[i];
      for b := 0 to |c.ids|
        invariant P.PairWalk(c, Some(w), dist, a, b, edges) == P.PairWalk(c, Some(w), dist, 0, 0, [])
      {
        var j := c.ids[b];
        var coord2 := c.at[j];
        if i < j {
          edges := edges + [(i, j, dist(w, coord1, coord2))];
        }
      }
    }
  }

  /** The edges of `main` join every pair of distinct node ids once, smaller id first, each
      weighed by the chosen formula. */
  lemma BuiltEdges(c: P.Coords, w: P.WeightType, dist: P.Distance)
    requires P.CoordsValid(c)
    ensures P.PairWalk(c, Some(w), dist, 0, 0, []).Ok?
    ensures P.PairsDone(c, w, dist, P.PairWalk(c, Some(w), dist, 0, 0, []).value)
  {
    P.PairWalkPairs(c, w, dist, 0, 0, []);
  }

  /** The line `save_edges_file` writes for one edge: the three ints separated by spaces. */
  function EdgesLine(e: P.Edge<int>): string {
    IntToString(e.0) + " " + IntToString(e.1) + " " + IntToString(e.2) + "\n"
  }

  /** `save_edges_file`: one line per edge, in list order. */
  method SaveEdgesFile(edges: seq<P.Edge<int>>) returns (written: seq<string>)
    ensures |written| == |edges|
    ensures forall k :: 0 <= k < |edges| ==> written[k] == EdgesLine(edges[k])
  {
    written := [];
    for k := 0 to |edges|
      invariant |written| == k
      invariant forall l :: 0 <= l < k ==> written[l] == EdgesLine(edges[l])
    {
      var (i, j, d) := edges[k];
      var line := IntToString(i) + " " + IntToString(j) + " " + IntToString(d) + "\n";
      assert line == EdgesLine(edges[k]);
      LinesSnoc(edges, written, k, EdgesLine);
      written := written + [line];
    }
  }

  /** Writing the line of edge k after the lines of the edges before it. */
  lemma LinesSnoc<E>(edges: seq<E>, written: seq<string>, k: nat, format: E -> string)
    requires k < |edges| && |written| == k
    requires forall l :: 0 <= l < k ==> written[l] == format(edges[l])
    ensures forall l :: 0 <= l <= k ==> (written + [format(edges[k])])[l] == format(edges[l])
  {
  }

  /** A written line reads back with `parse_edges_file` as its own edge, the weight as a float
      with no fraction. */
  lemma EdgesLineRoundTrip(e: P.Edge<int>)
    ensures TsplibNwxUtils.ParseEdgeLine(EdgesLine(e)) == Ok((e.0, e.1, Decimal(e.2, 0)))
  {
    SplitLine(IntToString(e.0), IntToString(e.1), IntToString(e.2), " ");
    ParseIntToString(e.0);
    ParseIntToString(e.1);
    ParseDecimalOfInt(e.2);
  }

  /** The whole of `main` on one instance file: parse it, choose the formula, build the edges
      and format the lines to write. */
  function Convert(lines: seq<string>, dist: P.Distance): Result<seq<string>> {
    match ParseFile(lines)
    case Err(e) => Err(e)
    case Ok((c, t)) =>
      match ChooseCalculator(t)
      case Err(e) => Err(e)
      case Ok(w) =>
        match P.PairWalk(c, Some(w), dist, 0, 0, [])
        case Err(e) => Err(e)
        case Ok(edges) => Ok(seq(|edges|, k requires 0 <= k < |edges| => EdgesLine(edges[k])))
  }

  /** `main`, given the lines of the instance file. */
  method ConvertFile(lines: seq<string>, dist: P.Distance) returns (r: Result<seq<string>>)
    ensures r == Convert(lines, dist)
  {
    var parsed := ParseTspFile(lines);
    if parsed.Err? {
      return Err(parsed.error);
    }
    var (nodeCoordinates, edgeWeightType) := parsed.value;
    var chosen := ChooseCalculator(edgeWeightType);
    if chosen.Err? {
      return Err(chosen.error);
    }
    BuiltEdges(nodeCoordinates, chosen.value, dist);
    var edges := BuildEdges(nodeCoordinates, chosen.value, dist);
    var written := SaveEdgesFile(edges);
    assert written == seq(|edges|, k requires 0 <= k < |edges| => EdgesLine(edges[k]));
    return Ok(written);
  }

  /** What `main` writes is an edge file the solvers can read: every line parses, and the lines
      join every pair of distinct node ids of the instance once, smaller id first. */
  lemma ConvertReadsBack(lines: seq<string>, dist: P.Distance)
    requires Convert(lines, dist).Ok?
    ensures var out := Convert(lines, dist).value;
      var c := ParseFile(lines).value.0;
      && (forall k :: 0 <= k < |out| ==> TsplibNwxUtils.ParseEdgeLine(out[k]).Ok?)
      && (forall k :: 0 <= k < |out| ==>
            var row := TsplibNwxUtils.ParseEdgeLine(out[k]).value;
            row.0 in c.ids && row.1 in c.ids && row.0 < row.1)
      && (forall k, l :: 0 <= k < l < |out| ==>
            TsplibNwxUtils.ParseEdgeLine(out[k]).value.0 != TsplibNwxUtils.ParseEdgeLine(out[l]).value.0
            || TsplibNwxUtils.ParseEdgeLine(out[k]).value.1 != TsplibNwxUtils.ParseEdgeLine(out[l]).value.1)
  {
    var (c, t) := ParseFile(lines).value;
    var w := ChooseCalculator(t).value;
    BuiltEdges(c, w, dist);
    var edges := P.PairWalk(c, Some(w), dist, 0, 0, []).value;
    var out := Convert(lines, dist).value;
    forall k | 0 <= k < |out|
      ensures TsplibNwxUtils.ParseEdgeLine(out[k]) == Ok((edges[k].0, edges[k].1, Decimal(edges[k].2, 0)))
    {
      EdgesLineRoundTrip(edges[k]);
    }
  }
}
