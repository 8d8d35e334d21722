/**
  Reading a TSPLIB instance file into its header fields, its node coordinates and its explicit
  weights, and turning either into a list of (i, j, weight) edges with i < j: the line-driven
  state machine of `parse_tsp_file`, the unpacking of explicit FULL_MATRIX and LOWER_DIAG_ROW
  matrices, the pair loop of `calculate_distances`, and the line format of `save_edge_file`.
  The distance formulas are floating-point code and enter as a parameter.
*/
module TspFileParser {
  import opened Base
  import opened Text
  import TsplibNwxUtils

  /** A coordinate pair, as float() reads it. */
  type Point = (Decimal, Decimal)

  /** A Python dict from node id to point: the keys in insertion order, and the values. */
  datatype Coords = Coords(ids: seq<int>, at: map<int, Point>)

  /** The keys are listed once each, and exactly the keys of the map are listed. */
  predicate CoordsValid(c: Coords) {
    Distinct(c.ids) && c.at.Keys == Elements(c.ids)
  }

  const NoCoords: Coords := Coords([], map[])

  /** `d[id] = p`: a new key goes last, a known key keeps its place and takes the new value. */
  function Put(c: Coords, id: int, p: Point): Coords {
    Coords(if id in c.at then c.ids else c.ids + [id], c.at[id := p])
  }

  /** Storing under an id keeps the dict well formed, makes the id map to the new point, leaves
      every other id as it was, and adds the id at the end exactly when it is new. */
  lemma PutValid(c: Coords, id: int, p: Point)
    requires CoordsValid(c)
    ensures var r := Put(c, id, p);
      && CoordsValid(r) && r.at[id] == p
      && (forall k :: k != id && k in c.at ==> k in r.at && r.at[k] == c.at[k])
      && (id in c.ids ==> r.ids == c.ids)
      && (id !in c.ids ==> r.ids == c.ids + [id])
  {
    if id !in c.ids {
      var r := Put(c, id, p);
      forall i, j | 0 <= i < j < |r.ids| ensures r.ids[i] != r.ids[j] {
        if j == |c.ids| {
          assert r.ids[i] == c.ids[i];
        }
      }
    }
  }

  /** Which section of the file the lines belong to. */
  datatype Section = Outside | NodeCoord | EdgeWeight

  /** The locals of `parse_tsp_file` between two lines. */
  datatype State = State(
    section: Section,
    coords: Coords,
    edgeWeightType: string,
    edgeWeightFormat: string,
    explicit: seq<Decimal>,
    dimension: int)

  const Start: State := State(Outside, NoCoords, "", "", [], 0)

  /** What `parse_tsp_file` returns. */
  datatype Instance = Instance(
    coords: Coords,
    edgeWeightType: string,
    edgeWeightFormat: string,
    explicit: seq<Decimal>,
    dimension: int)

  function InstanceOf(st: State): Instance {
    Instance(st.coords, st.edgeWeightType, st.edgeWeightFormat, st.explicit, st.dimension)
  }

  /** `list.extend(map(float, tokens))`: the values of the tokens before the first one float()
      rejects. CPython keeps what extend appended before the ValueError, which the caller then
      catches. */
  function Floats(tokens: seq<string>): (r: seq<Decimal>)
    ensures |r| <= |tokens|
  {
    if tokens == [] then [] else
      match ParseDecimal(tokens[0])
      case None => []
      case Some(d) => [d] + Floats(tokens[1..])
  }

  /** Floats holds the values of the longest prefix of tokens that float() accepts. */
  lemma {:induction false} FloatsPrefix(tokens: seq<string>)
    ensures forall k :: 0 <= k < |Floats(tokens)| ==> ParseDecimal(tokens[k]) == Some(Floats(tokens)[k])
    ensures |Floats(tokens)| < |tokens| ==> ParseDecimal(tokens[|Floats(tokens)|]).None?
  {
    if tokens != [] && ParseDecimal(tokens[0]).Some? {
      var rest := tokens[1..];
      FloatsPrefix(rest);
      var r := Floats(tokens);
      assert r == [ParseDecimal(tokens[0]).value] + Floats(rest);
      forall k | 0 < k < |r| ensures ParseDecimal(tokens[k]) == Some(r[k]) {
        assert tokens[k] == rest[k - 1] && r[k] == Floats(rest)[k - 1];
      }
      if |r| < |tokens| {
        assert tokens[|r|] == rest[|r| - 1];
      }
    }
  }

  /** The outcome of one line: the next state, the EOF line that ends the loop, or an exception
      that leaves the function. */
  datatype Step = Next(state: State) | Stop | Fail(error: Error)

  const TypeKey: string := "EDGE_WEIGHT_TYPE"
  const FormatKey: string := "EDGE_WEIGHT_FORMAT"
  const DimensionKey: string := "DIMENSION"

  /** The line mentions one of the three header keys. */
  predicate HeaderLine(line: string) {
    Contains(line, TypeKey) || Contains(line, FormatKey) || Contains(line, DimensionKey)
  }

  /** Which header field a line sets, in the order of the elif chain: a line that mentions
      several keys sets only the first. */
  predicate SetsType(line: string) {
    Contains(line, TypeKey)
  }

  predicate SetsFormat(line: string) {
    !Contains(line, TypeKey) && Contains(line, FormatKey)
  }

  predicate SetsDimension(line: string) {
    !Contains(line, TypeKey) && !Contains(line, FormatKey) && Contains(line, DimensionKey)
  }

  /** The line names no header key and is none of the three marker lines, so the section it
      falls in decides what it does. */
  predicate BodyLine(line: string) {
    && !HeaderLine(line)
    && Strip(line) != "NODE_COORD_SECTION"
    && Strip(line) != "EDGE_WEIGHT_SECTION"
    && Strip(line) != "EOF"
  }

  /** The node a coordinate line describes: exactly three tokens that read as an int and two
      floats. None for a line the loop skips. */
  function NodeLine(line: string): Option<(int, Point)> {
    var parts := Split(Strip(line));
    if |parts| != 3 then None else
      match (ParseInt(parts[0]), ParseDecimal(parts[1]), ParseDecimal(parts[2]))
      case (Some(id), Some(x), Some(y)) => Some((id, (x, y)))
      case _ => None
  }

  /** One turn of the loop of `parse_tsp_file`. */
  function StepLine(st: State, line: string): (r: Step)
    ensures r.Stop? <==> !HeaderLine(line) && Strip(line) == "EOF"
    ensures r.Fail? ==>
      || (r.error == IndexError && HeaderLine(line) && ':' !in line)
      || (r.error == ValueError && SetsDimension(line) && ':' in line
          && ParseInt(FieldAfterColon(line).value).None?)
    // each header line sets its own field and nothing else
    ensures SetsType(line) && ':' in line ==> r == Next(st.(edgeWeightType := FieldAfterColon(line).value))
    ensures SetsFormat(line) && ':' in line ==> r == Next(st.(edgeWeightFormat := FieldAfterColon(line).value))
    ensures SetsDimension(line) && ':' in line ==>
      && (r == Fail(ValueError) <==> ParseInt(FieldAfterColon(line).value).None?)
      && (ParseInt(FieldAfterColon(line).value).Some? ==>
            r == Next(st.(dimension := ParseInt(FieldAfterColon(line).value).value)))
    ensures !HeaderLine(line) && Strip(line) == "NODE_COORD_SECTION" ==> r == Next(st.(section := NodeCoord))
    ensures !HeaderLine(line) && Strip(line) == "EDGE_WEIGHT_SECTION" ==> r == Next(st.(section := EdgeWeight))
    // and no other line changes a header field
    ensures r.Next? && r.state.edgeWeightType != st.edgeWeightType ==> SetsType(line)
    ensures r.Next? && r.state.edgeWeightFormat != st.edgeWeightFormat ==> SetsFormat(line)
    ensures r.Next? && r.state.dimension != st.dimension ==> SetsDimension(line)
    // a coordinate line is stored under its id, overwriting an earlier point, or skipped
    ensures BodyLine(line) && st.section == NodeCoord && st.edgeWeightType != "EXPLICIT" ==>
      && (NodeLine(line).Some? ==>
            r == Next(st.(coords := Put(st.coords, NodeLine(line).value.0, NodeLine(line).value.1))))
      && (NodeLine(line).None? ==> r == Next(st))
    ensures r.Next? && r.state.coords != st.coords ==>
      && st.section == NodeCoord && st.edgeWeightType != "EXPLICIT" && NodeLine(line).Some?
      && r.state.coords == Put(st.coords, NodeLine(line).value.0, NodeLine(line).value.1)
    // a line of an explicit weight section appends the floats it starts with
    ensures BodyLine(line) && st.section == EdgeWeight && st.edgeWeightType == "EXPLICIT" ==>
      r == Next(st.(explicit := st.explicit + Floats(Split(Strip(line)))))
    ensures r.Next? ==> (r.state.explicit == st.explicit
      || (st.section == EdgeWeight && st.edgeWeightType == "EXPLICIT"
          && r.state.explicit == st.explicit + Floats(Split(Strip(line)))))
    // any other line is ignored
    ensures BodyLine(line) && st.section == Outside ==> r == Next(st)
    ensures BodyLine(line) && st.section != Outside && (st.edgeWeightType == "EXPLICIT" <==> st.section == NodeCoord) ==>
      r == Next(st)
  {
    if Contains(line, TypeKey) then
      match FieldAfterColon(line)
      case Err(e) => Fail(e)
      case Ok(v) => Next(st.(edgeWeightType := v))
    else if Contains(line, FormatKey) then
      match FieldAfterColon(line)
      case Err(e) => Fail(e)
      case Ok(v) => Next(st.(edgeWeightFormat := v))
    else if Contains(line, DimensionKey) then
      match FieldAfterColon(line)
      case Err(e) => Fail(e)
      case Ok(v) =>
        match ParseInt(v)
        case None => Fail(ValueError)
        case Some(d) => Next(st.(dimension := d))
    else if Strip(line) == "NODE_COORD_SECTION" then Next(st.(section := NodeCoord))
    else if Strip(line) == "EDGE_WEIGHT_SECTION" then Next(st.(section := EdgeWeight))
    else if Strip(line) == "EOF" then Stop
    else if st.section == NodeCoord && st.edgeWeightType != "EXPLICIT" then
      match NodeLine(line)
      case Some((id, p)) => Next(st.(coords := Put(st.coords, id, p)))
      case None => Next(st)
    else if st.section == EdgeWeight && st.edgeWeightType == "EXPLICIT" then
      Next(st.(explicit := st.explicit + Floats(Split(Strip(line)))))
    else Next(st)
  }

  /** The loop run over some lines: the state after them and whether an EOF line ended it, or
      the exception one of them raised. */
  datatype Run = Ran(state: State, stopped: bool) | Failed(error: Error)

  function RunLines(st: State, lines: seq<string>): Run
    decreases |lines|
  {
    if lines == [] then Ran(st, false) else
      match StepLine(st, lines[0])
      case Stop => Ran(st, true)
      case Fail(e) => Failed(e)
      case Next(s) => RunLines(s, lines[1..])
  }

  /** `parse_tsp_file` on the lines of a file. */
  function ParseTsp(lines: seq<string>): Result<Instance> {
    match RunLines(Start, lines)
    case Ran(st, _) => Ok(InstanceOf(st))
    case Failed(e) => Err(e)
  }

  /** `parse_tsp_file(filename)`, given the lines `readlines()` returns. */
  method ParseTspFile(lines: seq<string>) returns (r: Result<Instance>)
    ensures r == ParseTsp(lines)
  {
    var st := Start;
    var i := 0;
    while i < |lines|
      invariant i <= |lines|
      invariant RunLines(st, lines[i..]) == RunLines(Start, lines)
    {
      assert lines[i..][0] == lines[i] && lines[i..][1..] == lines[i + 1..];
      var step := ReadLine(st, lines[i]);
      match step
      case Stop => break;
      case Fail(e) => return Err(e);
      case Next(s) => st := s;
      i := i + 1;
    }
    return Ok(InstanceOf(st));
  }

  /** The body of the loop of `parse_tsp_file` for one line: the elif chain over the locals
      edge_weight_type, edge_weight_format, node_coords, explicit_distances, reading_section and
      dimension, here the fields of st. */
  method ReadLine(st: State, line: string) returns (r: Step)
    ensures r == StepLine(st, line)
  {
    var edgeWeightType, edgeWeightFormat := st.edgeWeightType, st.edgeWeightFormat;
    var nodeCoords, explicitDistances := st.coords, st.explicit;
    var readingSection := st.section;
    var dimension := st.dimension;
    if Contains(line, TypeKey) {
      var field := FieldAfterColon(line);
      if field.Err? {
        return Fail(field.error);
      }
      edgeWeightType := field.value;
    } else if Contains(line, FormatKey) {
      var field := FieldAfterColon(line);
      if field.Err? {
        return Fail(field.error);
      }
      edgeWeightFormat := field.value;
    } else if Contains(line, DimensionKey) {
      var field := FieldAfterColon(line);
      if field.Err? {
        return Fail(field.error);
      }
      var d := ParseInt(field.value);
      if d.None? {
        return Fail(ValueError);
      }
      dimension := d.value;
    } else if Strip(line) == "NODE_COORD_SECTION" {
      readingSection := NodeCoord;
    } else if Strip(line) == "EDGE_WEIGHT_SECTION" {
      readingSection := EdgeWeight;
    } else if Strip(line) == "EOF" {
      return Stop;
    } else if readingSection == NodeCoord && edgeWeightType != "EXPLICIT" {
      var parts := Split(Strip(line));
      if |parts| == 3 {
        var nodeId, x, y := ParseInt(parts[0]), ParseDecimal(parts[1]), ParseDecimal(parts[2]);
        if nodeId.Some? && x.Some? && y.Some? {
          nodeCoords := Put(nodeCoords, nodeId.value, (x.value, y.value));
        }
      }
    } else if readingSection == EdgeWeight && edgeWeightType == "EXPLICIT" {
      explicitDistances := explicitDistances + Floats(Split(Strip(line)));
    }
    return Next(State(readingSection, nodeCoords, edgeWeightType, edgeWeightFormat, explicitDistances, dimension));
  }

  /** Running on after a run that ended neither at EOF nor with an exception. */
  function Then(r: Run, lines: seq<string>): Run {
    if r.Ran? && !r.stopped then RunLines(r.state, lines) else r
  }

  /** Reading a + b is reading a, then b from where a left off, unless a stopped or failed. */
  lemma {:induction false} RunAppend(st: State, a: seq<string>, b: seq<string>)
    ensures RunLines(st, a + b) == Then(RunLines(st, a), b)
    decreases |a|
  {
    if a == [] {
      assert a + b == b;
    } else {
      assert (a + b)[0] == a[0] && (a + b)[1..] == a[1..] + b;
      match StepLine(st, a[0])
      case Stop =>
      case Fail(_) =>
      case Next(s) => RunAppend(s, a[1..], b);
    }
  }

  /** Every character of a substring occurs in the string. */
  lemma {:induction false} ContainsChars(s: string, sub: string, k: nat)
    requires Contains(s, sub) && k < |sub|
    ensures sub[k] in s
    decreases |s|
  {
    if |sub| <= |s| && s[..|sub|] == sub {
      assert s[k] == sub[k];
    } else {
      ContainsChars(s[1..], sub, k);
    }
  }

  /** A line that strips to "EOF" holds no 'D', so it mentions no header key and ends the loop. */
  lemma EofLine(st: State, line: string)
    requires Strip(line) == "EOF"
    ensures StepLine(st, line) == Stop
  {
    EofHasNoD(line);
    NoDNoHeader(line);
  }

  lemma EofHasNoD(line: string)
    requires Strip(line) == "EOF"
    ensures 'D' !in line
  {
    StripShape(line);
    var i, j :| 0 <= i <= j <= |line| && Strip(line) == line[i..j] && AllSpace(line[..i]) && AllSpace(line[j..]);
    forall k | 0 <= k < |line| ensures line[k] != 'D' {
      if k < i {
        assert IsSpace(line[..i][k]);
      } else if k < j {
        assert line[k] == line[i..j][k - i];
      } else {
        assert IsSpace(line[j..][k - j]);
      }
    }
  }

  /** Each header key holds a 'D'. */
  lemma NoDNoHeader(line: string)
    requires 'D' !in line
    ensures !HeaderLine(line)
  {
    if Contains(line, TypeKey) {
      ContainsChars(line, TypeKey, 1);
    }
    if Contains(line, FormatKey) {
      ContainsChars(line, FormatKey, 1);
    }
    if Contains(line, DimensionKey) {
      ContainsChars(line, DimensionKey, 0);
    }
  }

  /** Once a line strips to "EOF" and the loop reaches it, the lines after it change nothing. */
  lemma EofIgnoresRest(lines: seq<string>, k: nat, more: seq<string>)
    requires k < |lines| && Strip(lines[k]) == "EOF"
    ensures ParseTsp(lines[..k + 1] + more) == ParseTsp(lines[..k + 1])
  {
    var before := lines[..k];
    assert lines[..k + 1] == before + [lines[k]];
    assert lines[..k + 1] + more == before + ([lines[k]] + more);
    RunAppend(Start, before, [lines[k]] + more);
    RunAppend(Start, before, [lines[k]]);
    var r := RunLines(Start, before);
    if r.Ran? && !r.stopped {
      EofLine(r.state, lines[k]);
      assert ([lines[k]] + more)[0] == lines[k];
    }
  }

  /** Lines that do not mention EDGE_WEIGHT_TYPE leave the edge weight type as it was. */
  lemma {:induction false} TypeKept(st: State, lines: seq<string>)
    requires forall k :: 0 <= k < |lines| ==> !Contains(lines[k], TypeKey)
    ensures RunLines(st, lines).Ran? ==> RunLines(st, lines).state.edgeWeightType == st.edgeWeightType
    decreases |lines|
  {
    if lines != [] {
      match StepLine(st, lines[0])
      case Stop =>
      case Fail(_) =>
      case Next(s) =>
        assert forall k :: 0 <= k < |lines[1..]| ==> lines[1..][k] == lines[k + 1];
        TypeKept(s, lines[1..]);
    }
  }

  /** The last line that mentions EDGE_WEIGHT_TYPE sets the type the parse returns: its text
      after the first colon, stripped. */
  lemma LastTypeWins(lines: seq<string>, k: nat)
    requires k < |lines| && Contains(lines[k], TypeKey) && ':' in lines[k]
    requires forall m :: k < m < |lines| ==> !Contains(lines[m], TypeKey)
    requires RunLines(Start, lines[..k]).Ran? && !RunLines(Start, lines[..k]).stopped
    ensures ParseTsp(lines).Ok? ==> ParseTsp(lines).value.edgeWeightType == FieldAfterColon(lines[k]).value
  {
    var st := RunLines(Start, lines[..k]).state;
    var rest := lines[k + 1..];
    SplitAround(lines, k);
    RunAppend(Start, lines[..k], [lines[k]] + rest);
    var s := st.(edgeWeightType := FieldAfterColon(lines[k]).value);
    RunCons(st, lines[k], rest);
    TypeKept(s, rest);
  }

  /** Lines that set no EDGE_WEIGHT_FORMAT leave the format as it was. */
  lemma {:induction false} FormatKept(st: State, lines: seq<string>)
    requires forall k :: 0 <= k < |lines| ==> !SetsFormat(lines[k])
    ensures RunLines(st, lines).Ran? ==> RunLines(st, lines).state.edgeWeightFormat == st.edgeWeightFormat
    decreases |lines|
  {
    if lines != [] {
      match StepLine(st, lines[0])
      case Stop =>
      case Fail(_) =>
      case Next(s) =>
        assert forall k :: 0 <= k < |lines[1..]| ==> lines[1..][k] == lines[k + 1];
        FormatKept(s, lines[1..]);
    }
  }

  /** The last line that sets EDGE_WEIGHT_FORMAT decides the format the parse returns: its text
      after the first colon, stripped. */
  lemma LastFormatWins(lines: seq<string>, k: nat)
    requires k < |lines| && SetsFormat(lines[k]) && ':' in lines[k]
    requires forall m :: k < m < |lines| ==> !SetsFormat(lines[m])
    requires RunLines(Start, lines[..k]).Ran? && !RunLines(Start, lines[..k]).stopped
    ensures ParseTsp(lines).Ok? ==> ParseTsp(lines).value.edgeWeightFormat == FieldAfterColon(lines[k]).value
  {
    var st := RunLines(Start, lines[..k]).state;
    var rest := lines[k + 1..];
    SplitAround(lines, k);
    RunAppend(Start, lines[..k], [lines[k]] + rest);
    RunCons(st, lines[k], rest);
    FormatKept(StepLine(st, lines[k]).state, rest);
  }

  /** Lines that set no DIMENSION leave the dimension as it was. */
  lemma {:induction false} DimensionKept(st: State, lines: seq<string>)
    requires forall k :: 0 <= k < |lines| ==> !SetsDimension(lines[k])
    ensures RunLines(st, lines).Ran? ==> RunLines(st, lines).state.dimension == st.dimension
    decreases |lines|
  {
    if lines != [] {
      match StepLine(st, lines[0])
      case Stop =>
      case Fail(_) =>
      case Next(s) =>
        assert forall k :: 0 <= k < |lines[1..]| ==> lines[1..][k] == lines[k + 1];
        DimensionKept(s, lines[1..]);
    }
  }

  /** The last line that sets DIMENSION decides the dimension the parse returns: the int of its
      text after the first colon. */
  lemma LastDimensionWins(lines: seq<string>, k: nat)
    requires k < |lines| && SetsDimension(lines[k]) && ':' in lines[k]
    requires ParseInt(FieldAfterColon(lines[k]).value).Some?
    requires forall m :: k < m < |lines| ==> !SetsDimension(lines[m])
    requires RunLines(Start, lines[..k]).Ran? && !RunLines(Start, lines[..k]).stopped
    ensures ParseTsp(lines).Ok? ==>
      ParseTsp(lines).value.dimension == ParseInt(FieldAfterColon(lines[k]).value).value
  {
    var st := RunLines(Start, lines[..k]).state;
    var rest := lines[k + 1..];
    SplitAround(lines, k);
    RunAppend(Start, lines[..k], [lines[k]] + rest);
    RunCons(st, lines[k], rest);
    DimensionKept(StepLine(st, lines[k]).state, rest);
  }

  /** A DIMENSION line that the loop reaches and whose field is not an int makes the parse raise
      ValueError. */
  lemma DimensionRaises(lines: seq<string>, k: nat)
    requires k < |lines| && SetsDimension(lines[k]) && ':' in lines[k]
    requires ParseInt(FieldAfterColon(lines[k]).value).None?
    requires RunLines(Start, lines[..k]).Ran? && !RunLines(Start, lines[..k]).stopped
    ensures ParseTsp(lines) == Err(ValueError)
  {
    var rest := lines[k + 1..];
    SplitAround(lines, k);
    RunAppend(Start, lines[..k], [lines[k]] + rest);
    assert ([lines[k]] + rest)[0] == lines[k];
  }

  /** A node that no later coordinate line names keeps its point to the end of the run. */
  lemma {:induction false} KeepsNode(st: State, lines: seq<string>, id: int)
    requires id in st.coords.at
    requires forall m :: 0 <= m < |lines| && NodeLine(lines[m]).Some? ==> NodeLine(lines[m]).value.0 != id
    ensures RunLines(st, lines).Ran? ==>
      id in RunLines(st, lines).state.coords.at && RunLines(st, lines).state.coords.at[id] == st.coords.at[id]
    decreases |lines|
  {
    if lines != [] {
      match StepLine(st, lines[0])
      case Stop =>
      case Fail(_) =>
      case Next(s) =>
        assert forall m :: 0 <= m < |lines[1..]| ==> lines[1..][m] == lines[m + 1];
        KeepsNode(s, lines[1..], id);
    }
  }

  /** A repeated node id keeps the point of its last line: when the loop reaches line k inside a
      coordinate section of a non-EXPLICIT instance, line k describes a node, and no later line
      names the same id, the dict the parse returns maps that id to line k's point. */
  lemma LastCoordWins(lines: seq<string>, k: nat)
    requires k < |lines| && BodyLine(lines[k]) && NodeLine(lines[k]).Some?
    requires RunLines(Start, lines[..k]).Ran? && !RunLines(Start, lines[..k]).stopped
    requires var st := RunLines(Start, lines[..k]).state;
      st.section == NodeCoord && st.edgeWeightType != "EXPLICIT"
    requires forall m :: k < m < |lines| && NodeLine(lines[m]).Some? ==>
      NodeLine(lines[m]).value.0 != NodeLine(lines[k]).value.0
    ensures ParseTsp(lines).Ok? ==>
      var (id, p) := NodeLine(lines[k]).value;
      id in ParseTsp(lines).value.coords.at && ParseTsp(lines).value.coords.at[id] == p
  {
    var st := RunLines(Start, lines[..k]).state;
    var rest := lines[k + 1..];
    SplitAround(lines, k);
    RunAppend(Start, lines[..k], [lines[k]] + rest);
    RunCons(st, lines[k], rest);
    var (id, p) := NodeLine(lines[k]).value;
    KeepsNode(StepLine(st, lines[k]).state, rest, id);
  }

  lemma SplitAround<T>(s: seq<T>, k: nat)
    requires k < |s|
    ensures s == s[..k] + ([s[k]] + s[k + 1..])
    ensures forall m :: k < m < |s| ==> s[k + 1..][m - k - 1] == s[m]
  {
  }

  /** Reading a line that moves on, then the rest. */
  lemma RunCons(st: State, line: string, rest: seq<string>)
    requires StepLine(st, line).Next?
    ensures RunLines(st, [line] + rest) == RunLines(StepLine(st, line).state, rest)
  {
    assert ([line] + rest)[0] == line && ([line] + rest)[1..] == rest;
  }

  /** One line keeps the coordinate dict well formed and only appends explicit weights. */
  lemma StepKeeps(st: State, line: string)
    requires CoordsValid(st.coords) && StepLine(st, line).Next?
    ensures CoordsValid(StepLine(st, line).state.coords)
    ensures st.explicit <= StepLine(st, line).state.explicit
  {
    var s := StepLine(st, line).state;
    if s.coords != st.coords {
      var parts := Split(Strip(line));
      var id, x, y := ParseInt(parts[0]), ParseDecimal(parts[1]), ParseDecimal(parts[2]);
      PutValid(st.coords, id.value, (x.value, y.value));
    }
  }

  /** Each parse keeps the coordinate dict well formed and only appends explicit weights. */
  lemma {:induction false} RunKeeps(st: State, lines: seq<string>)
    requires CoordsValid(st.coords)
    ensures RunLines(st, lines).Ran? ==> CoordsValid(RunLines(st, lines).state.coords)
    ensures RunLines(st, lines).Ran? ==> st.explicit <= RunLines(st, lines).state.explicit
    decreases |lines|
  {
    if lines != [] {
      match StepLine(st, lines[0])
      case Stop =>
      case Fail(_) =>
      case Next(s) =>
        StepKeeps(st, lines[0]);
        RunKeeps(s, lines[1..]);
    }
  }

  /** What `parse_tsp_file` returns has a well-formed coordinate dict. */
  lemma ParseValid(lines: seq<string>)
    ensures ParseTsp(lines).Ok? ==> CoordsValid(ParseTsp(lines).value.coords)
  {
    RunKeeps(Start, lines);
  }

  /** An edge as the edge lists hold it: two node ids and a weight. */
  type Edge<W> = (int, int, W)

  /** `range(dimension)` is empty for a dimension below 1. */
  function Rows(dimension: int): nat {
    if dimension < 0 then 0 else dimension
  }

  /** Where cell (i, j) of a dim x dim matrix sits when its rows are laid out one after the other. */
  function FullIndex(dim: int, p: (int, int)): (index: int)
    ensures 0 <= p.0 && 0 <= p.1 && 0 <= dim ==> 0 <= index
  {
    p.0 * dim + p.1
  }

  /** The number of cells in rows 0 to n - 1 of a lower triangle with its diagonal. */
  function Tri(n: nat): nat {
    if n == 0 then 0 else Tri(n - 1) + n
  }

  /** Tri(n) is the triangular number n * (n + 1) / 2. */
  lemma {:induction false} TriClosed(n: nat)
    ensures 2 * Tri(n) == n * (n + 1)
  {
    if n > 0 {
      TriClosed(n - 1);
    }
  }

  /** The FULL_MATRIX walk from cell (i, j) on, with the triples acc already collected: row by
      row, cell (i, j) above the diagonal is read at i * dim + j and becomes (i + 1, j + 1, weight);
      a read past the end raises IndexError. */
  function FullWalk(m: seq<Decimal>, dim: int, i: int, j: int, acc: seq<Edge<Decimal>>): Result<seq<Edge<Decimal>>>
    decreases dim - i, dim - j
  {
    if i >= dim then Ok(acc)
    else if j >= dim then FullWalk(m, dim, i + 1, i + 2, acc)
    else
      var index := FullIndex(dim, (i, j));
      if 0 <= index < |m| then FullWalk(m, dim, i, j + 1, acc + [(i + 1, j + 1, m[index])])
      else Err(IndexError)
  }

  /** The edges of a FULL_MATRIX section: the walk from the first cell above the diagonal. */
  function FullMatrix(m: seq<Decimal>, dim: int): Result<seq<Edge<Decimal>>> {
    FullWalk(m, dim, 0, 1, [])
  }

  /** The LOWER_DIAG_ROW walk from cell (i, j) on, reading at the running index: row by row,
      every cell up to and including the diagonal advances the index, and a cell below the
      diagonal is read and becomes (j + 1, i + 1, weight). */
  function LowerWalk(m: seq<Decimal>, dim: int, i: int, j: int, index: int, acc: seq<Edge<Decimal>>)
    : Result<seq<Edge<Decimal>>>
    decreases dim - i, i - j + 1
  {
    if i >= dim then Ok(acc)
    else if j > i then LowerWalk(m, dim, i + 1, 0, index, acc)
    else if i == j then LowerWalk(m, dim, i, j + 1, index + 1, acc)
    else if 0 <= index < |m| then LowerWalk(m, dim, i, j + 1, index + 1, acc + [(j + 1, i + 1, m[index])])
    else Err(IndexError)
  }

  /** The edges of a LOWER_DIAG_ROW section: the walk from the top-left cell and index 0. */
  function LowerDiagRow(m: seq<Decimal>, dim: int): Result<seq<Edge<Decimal>>> {
    LowerWalk(m, dim, 0, 0, 0, [])
  }

  /** The edges an explicit section stands for, by its format. */
  function ExplicitEdges(m: seq<Decimal>, format: string, dimension: int): Result<seq<Edge<Decimal>>> {
    if format == "FULL_MATRIX" then FullMatrix(m, dimension)
    else if format == "LOWER_DIAG_ROW" then LowerDiagRow(m, dimension)
    else Ok([])
  }

  /** `parse_explicit_distances`: FULL_MATRIX and LOWER_DIAG_ROW are unpacked, any other
      format gives no edges. */
  method ParseExplicitDistances(explicit: seq<Decimal>, format: string, dimension: int)
    returns (r: Result<seq<Edge<Decimal>>>)
    ensures r == ExplicitEdges(explicit, format, dimension)
  {
    if format == "FULL_MATRIX" {
      r := FullMatrixEdges(explicit, dimension);
    } else if format == "LOWER_DIAG_ROW" {
      r := LowerDiagRowEdges(explicit, dimension);
    } else {
      r := Ok([]);
    }
  }

  /** The FULL_MATRIX branch: for each row i, for each j above the diagonal, read i * dim + j. */
  method FullMatrixEdges(explicit: seq<Decimal>, dimension: int) returns (r: Result<seq<Edge<Decimal>>>)
    ensures r == FullMatrix(explicit, dimension)
  {
    var n := Rows(dimension);
    var distances: seq<Edge<Decimal>> := [];
    for i := 0 to n
      invariant FullWalk(explicit, dimension, i, i + 1, distances) == FullMatrix(explicit, dimension)
    {
      for j := i + 1 to n
        invariant FullWalk(explicit, dimension, i, j, distances) == FullMatrix(explicit, dimension)
      {
        var index := FullIndex(dimension, (i, j));
        if index >= |explicit| {
          return Err(IndexError);
        }
        distances := distances + [(i + 1, j + 1, explicit[index])];
      }
    }
    return Ok(distances);
  }

  /** The LOWER_DIAG_ROW branch: walk the lower triangle row by row with a running index,
      reading every cell below the diagonal and skipping the diagonal. */
  method LowerDiagRowEdges(explicit: seq<Decimal>, dimension: int) returns (r: Result<seq<Edge<Decimal>>>)
    ensures r == LowerDiagRow(explicit, dimension)
  {
    var n := Rows(dimension);
    var distances: seq<Edge<Decimal>> := [];
    var index := 0;
    for i := 0 to n
      invariant 0 <= index
      invariant LowerWalk(explicit, dimension, i, 0, index, distances) == LowerDiagRow(explicit, dimension)
    {
      for j := 0 to i + 1
        invariant 0 <= index
        invariant LowerWalk(explicit, dimension, i, j, index, distances) == LowerDiagRow(explicit, dimension)
      {
        if i != j {
          if index >= |explicit| {
            return Err(IndexError);
          }
          distances := distances + [(j + 1, i + 1, explicit[index])];
        }
        index := index + 1;
      }
    }
    return Ok(distances);
  }

  /** Cell (r, c) comes before cell (i, j) in a row-by-row walk. */
  predicate Before(r: int, c: int, i: int, j: int) {
    r < i || (r == i && c < j)
  }

  /** Some triple of ts joins a and b, in that order. */
  predicate HasPair<W>(ts: seq<Edge<W>>, a: int, b: int) {
    exists k :: 0 <= k < |ts| && ts[k].0 == a && ts[k].1 == b
  }

  /** Every pair of distinct nodes among 1 to dim is joined by exactly one triple of ts,
      smaller id first, and no triple joins anything else. */
  predicate EachPairOnce<W>(ts: seq<Edge<W>>, dim: int) {
    && (forall k :: 0 <= k < |ts| ==> 1 <= ts[k].0 < ts[k].1 <= dim)
    && (forall k, l :: 0 <= k < l < |ts| ==> (ts[k].0, ts[k].1) != (ts[l].0, ts[l].1))
    && (forall a, b :: 1 <= a < b <= dim ==> HasPair(ts, a, b))
  }

  /** The weight of FULL_MATRIX triple e is the matrix entry of its row a - 1 and column b - 1. */
  predicate FullRead(m: seq<Decimal>, dim: int, e: Edge<Decimal>) {
    var index := FullIndex(dim, (e.0 - 1, e.1 - 1));
    0 <= index < |m| && e.2 == m[index]
  }

  /** What the FULL_MATRIX walk has collected on reaching cell (i, j): one triple for each cell
      above the diagonal before (i, j), each holding its own matrix entry. */
  predicate FullSoFar(m: seq<Decimal>, dim: int, i: int, j: int, acc: seq<Edge<Decimal>>) {
    && (forall k :: 0 <= k < |acc| ==>
          1 <= acc[k].0 < acc[k].1 <= dim && Before(acc[k].0 - 1, acc[k].1 - 1, i, j) && FullRead(m, dim, acc[k]))
    && (forall k, l :: 0 <= k < l < |acc| ==> (acc[k].0, acc[k].1) != (acc[l].0, acc[l].1))
    && (forall a, b :: 1 <= a < b <= dim && Before(a - 1, b - 1, i, j) ==> HasPair(acc, a, b))
  }

  /** Reading cell (i, j) above the diagonal keeps FullSoFar, one cell on. */
  lemma FullSoFarRead(m: seq<Decimal>, dim: int, i: int, j: int, acc: seq<Edge<Decimal>>)
    requires 0 <= i < j < dim && FullSoFar(m, dim, i, j, acc)
    requires 0 <= FullIndex(dim, (i, j)) < |m|
    ensures FullSoFar(m, dim, i, j + 1, acc + [(i + 1, j + 1, m[FullIndex(dim, (i, j))])])
  {
    var e := (i + 1, j + 1, m[FullIndex(dim, (i, j))]);
    var acc' := acc + [e];
    forall a, b | 1 <= a < b <= dim && Before(a - 1, b - 1, i, j + 1)
      ensures HasPair(acc', a, b)
    {
      if Before(a - 1, b - 1, i, j) {
        assert HasPair(acc, a, b);
        var k :| 0 <= k < |acc| && acc[k].0 == a && acc[k].1 == b;
        assert acc'[k] == acc[k];
      } else {
        assert acc'[|acc|] == e;
      }
    }
  }

  /** Past the last column the walk moves to the next row without losing anything. */
  lemma FullSoFarRow(m: seq<Decimal>, dim: int, i: int, j: int, acc: seq<Edge<Decimal>>)
    requires 0 <= i < dim <= j && FullSoFar(m, dim, i, j, acc)
    ensures FullSoFar(m, dim, i + 1, i + 2, acc)
  {
  }

  /** The edges of a finished FULL_MATRIX walk: every pair once, each with its entry. */
  predicate FullDone(m: seq<Decimal>, dim: int, ts: seq<Edge<Decimal>>) {
    EachPairOnce(ts, dim) && forall k :: 0 <= k < |ts| ==> FullRead(m, dim, ts[k])
  }

  lemma FullSoFarDone(m: seq<Decimal>, dim: int, i: int, j: int, acc: seq<Edge<Decimal>>)
    requires dim <= i && FullSoFar(m, dim, i, j, acc)
    ensures FullDone(m, dim, acc)
  {
  }

  /** A FULL_MATRIX walk that finishes has collected every pair once, each with its entry. */
  lemma {:induction false} FullWalkPairs(m: seq<Decimal>, dim: int, i: int, j: int, acc: seq<Edge<Decimal>>)
    requires 0 <= i < j && FullSoFar(m, dim, i, j, acc)
    ensures FullWalk(m, dim, i, j, acc).Ok? ==> FullDone(m, dim, FullWalk(m, dim, i, j, acc).value)
    decreases dim - i, dim - j
  {
    if i >= dim {
      FullSoFarDone(m, dim, i, j, acc);
    } else if j >= dim {
      FullSoFarRow(m, dim, i, j, acc);
      FullWalkPairs(m, dim, i + 1, i + 2, acc);
    } else if 0 <= FullIndex(dim, (i, j)) < |m| {
      FullSoFarRead(m, dim, i, j, acc);
      FullWalkPairs(m, dim, i, j + 1, acc + [(i + 1, j + 1, m[FullIndex(dim, (i, j))])]);
    }
  }

  /** The FULL_MATRIX walk from (i, j) raises exactly when some cell above the diagonal, at or
      after (i, j), lies past the end of the matrix. */
  lemma {:induction false} FullWalkOk(m: seq<Decimal>, dim: int, i: int, j: int, acc: seq<Edge<Decimal>>)
    requires 0 <= i < j
    ensures FullWalk(m, dim, i, j, acc).Ok? <==>
      forall r, c :: 0 <= r < c < dim && !Before(r, c, i, j) ==> FullIndex(dim, (r, c)) < |m|
    decreases dim - i, dim - j
  {
    if i >= dim {
    } else if j >= dim {
      FullWalkOk(m, dim, i + 1, i + 2, acc);
      assert forall r, c :: 0 <= r < c < dim ==> (!Before(r, c, i, j) <==> !Before(r, c, i + 1, i + 2));
    } else if 0 <= FullIndex(dim, (i, j)) < |m| {
      FullWalkOk(m, dim, i, j + 1, acc + [(i + 1, j + 1, m[FullIndex(dim, (i, j))])]);
    }
  }

  /** A FULL_MATRIX section gives one edge per pair of distinct nodes, weighted by the entry
      above the diagonal, and raises exactly when one of those entries is missing. */
  lemma FullMatrixPairs(m: seq<Decimal>, dim: int)
    ensures FullMatrix(m, dim).Ok? <==> forall r, c :: 0 <= r < c < dim ==> FullIndex(dim, (r, c)) < |m|
    ensures FullMatrix(m, dim).Ok? ==> FullDone(m, dim, FullMatrix(m, dim).value)
  {
    FullWalkPairs(m, dim, 0, 1, []);
    FullWalkOk(m, dim, 0, 1, []);
  }

  /** The running index at cell (r, c) of the LOWER_DIAG_ROW walk: the cells of rows 0 to r - 1,
      diagonal included, come before it. */
  function LowerCell(r: nat, c: int): int {
    Tri(r) + c
  }

  /** The running index of the LOWER_DIAG_ROW triple joining column a - 1 to row b - 1. */
  function LowerIndex(a: int, b: int): int {
    if b < 1 then -1 else LowerCell(b - 1, a - 1)
  }

  /** The weight of LOWER_DIAG_ROW triple e is the entry read at its running index. */
  predicate LowerRead(m: seq<Decimal>, e: Edge<Decimal>) {
    var index := LowerIndex(e.0, e.1);
    0 <= index < |m| && e.2 == m[index]
  }

  /** What the LOWER_DIAG_ROW walk has collected on reaching cell (i, j): one triple for each
      cell below the diagonal before (i, j), each holding the entry at its running index. */
  predicate LowerSoFar(m: seq<Decimal>, dim: int, i: int, j: int, acc: seq<Edge<Decimal>>) {
    && (forall k :: 0 <= k < |acc| ==>
          1 <= acc[k].0 < acc[k].1 <= dim && Before(acc[k].1 - 1, acc[k].0 - 1, i, j) && LowerRead(m, acc[k]))
    && (forall k, l :: 0 <= k < l < |acc| ==> (acc[k].0, acc[k].1) != (acc[l].0, acc[l].1))
    && (forall a, b :: 1 <= a < b <= dim && Before(b - 1, a - 1, i, j) ==> HasPair(acc, a, b))
  }

  /** Reading cell (i, j) below the diagonal keeps LowerSoFar, one cell on. */
  lemma LowerSoFarRead(m: seq<Decimal>, dim: int, i: nat, j: nat, acc: seq<Edge<Decimal>>)
    requires j < i < dim && LowerSoFar(m, dim, i, j, acc)
    requires Tri(i) + j < |m|
    ensures LowerSoFar(m, dim, i, j + 1, acc + [(j + 1, i + 1, m[Tri(i) + j])])
  {
    var e := (j + 1, i + 1, m[Tri(i) + j]);
    var acc' := acc + [e];
    assert LowerRead(m, e);
    forall a, b | 1 <= a < b <= dim && Before(b - 1, a - 1, i, j + 1)
      ensures HasPair(acc', a, b)
    {
      if Before(b - 1, a - 1, i, j) {
        assert HasPair(acc, a, b);
        var k :| 0 <= k < |acc| && acc[k].0 == a && acc[k].1 == b;
        assert acc'[k] == acc[k];
      } else {
        assert acc'[|acc|] == e;
      }
    }
  }

  /** The diagonal cell, and the end of a row, add nothing and lose nothing. */
  lemma LowerSoFarSkip(m: seq<Decimal>, dim: int, i: nat, j: nat, acc: seq<Edge<Decimal>>)
    requires i < dim && i <= j <= i + 1 && LowerSoFar(m, dim, i, j, acc)
    ensures j == i ==> LowerSoFar(m, dim, i, j + 1, acc)
    ensures j > i ==> LowerSoFar(m, dim, i + 1, 0, acc)
  {
  }

  /** The edges of a finished LOWER_DIAG_ROW walk: every pair once, each with the entry at its
      running index. */
  predicate LowerDone(m: seq<Decimal>, dim: int, ts: seq<Edge<Decimal>>) {
    EachPairOnce(ts, dim) && forall k :: 0 <= k < |ts| ==> LowerRead(m, ts[k])
  }

  lemma LowerSoFarDone(m: seq<Decimal>, dim: int, i: nat, j: nat, acc: seq<Edge<Decimal>>)
    requires dim <= i && LowerSoFar(m, dim, i, j, acc)
    ensures LowerDone(m, dim, acc)
  {
  }

  /** A LOWER_DIAG_ROW walk that finishes has collected every pair once, each with the entry at
      its running index; the index at cell (i, j) is Tri(i) + j. */
  lemma {:induction false} LowerWalkPairs(m: seq<Decimal>, dim: int, i: nat, j: nat, acc: seq<Edge<Decimal>>)
    requires j <= i + 1 && LowerSoFar(m, dim, i, j, acc)
    ensures LowerWalk(m, dim, i, j, Tri(i) + j, acc).Ok? ==> LowerDone(m, dim, LowerWalk(m, dim, i, j, Tri(i) + j, acc).value)
    decreases dim - i, i - j + 1
  {
    if i >= dim {
      LowerSoFarDone(m, dim, i, j, acc);
    } else if j > i {
      assert Tri(i + 1) + 0 == Tri(i) + j;
      LowerSoFarSkip(m, dim, i, j, acc);
      LowerWalkPairs(m, dim, i + 1, 0, acc);
    } else if i == j {
      LowerSoFarSkip(m, dim, i, j, acc);
      LowerWalkPairs(m, dim, i, j + 1, acc);
    } else if Tri(i) + j < |m| {
      LowerSoFarRead(m, dim, i, j, acc);
      LowerWalkPairs(m, dim, i, j + 1, acc + [(j + 1, i + 1, m[Tri(i) + j])]);
    }
  }

  /** The LOWER_DIAG_ROW walk from (i, j) raises exactly when some cell below the diagonal, at
      or after (i, j), has its running index past the end of the section. */
  lemma {:induction false} LowerWalkOk(m: seq<Decimal>, dim: int, i: nat, j: nat, acc: seq<Edge<Decimal>>)
    requires j <= i + 1
    ensures LowerWalk(m, dim, i, j, Tri(i) + j, acc).Ok? <==>
      forall r: nat, c :: 0 <= c < r < dim && !Before(r, c, i, j) ==> LowerCell(r, c) < |m|
    decreases dim - i, i - j + 1
  {
    if i >= dim {
    } else if j > i {
      assert Tri(i + 1) + 0 == Tri(i) + j;
      LowerWalkOk(m, dim, i + 1, 0, acc);
      assert forall r: nat, c :: 0 <= c < r < dim ==> (!Before(r, c, i, j) <==> !Before(r, c, i + 1, 0));
    } else if i == j {
      LowerWalkOk(m, dim, i, j + 1, acc);
      assert forall r: nat, c :: 0 <= c < r < dim ==> (!Before(r, c, i, j) <==> !Before(r, c, i, j + 1));
    } else if Tri(i) + j < |m| {
      LowerWalkOk(m, dim, i, j + 1, acc + [(j + 1, i + 1, m[Tri(i) + j])]);
      assert LowerCell(i, j) < |m|;
      assert forall r: nat, c :: 0 <= c < r < dim && !Before(r, c, i, j) ==> (r == i && c == j) || !Before(r, c, i, j + 1);
    } else {
      assert !Before(i, j, i, j) && LowerCell(i, j) >= |m|;
    }
  }

  /** A LOWER_DIAG_ROW section gives one edge per pair of distinct nodes, weighted by the entry
      at its running index, and raises exactly when one of those entries is missing. */
  lemma LowerDiagRowPairs(m: seq<Decimal>, dim: int)
    ensures LowerDiagRow(m, dim).Ok? <==> forall r: nat, c :: 0 <= c < r < dim ==> LowerCell(r, c) < |m|
    ensures LowerDiagRow(m, dim).Ok? ==> LowerDone(m, dim, LowerDiagRow(m, dim).value)
  {
    LowerWalkPairs(m, dim, 0, 0, []);
    LowerWalkOk(m, dim, 0, 0, []);
  }

  /** A FULL_MATRIX section is unpacked exactly when it holds dim * (dim - 1) numbers: the
      largest index read is that of cell (dim - 2, dim - 1), so the last row is never read. */
  lemma FullMatrixNeeds(m: seq<Decimal>, dim: int)
    ensures FullMatrix(m, dim).Ok? <==> dim < 2 || dim * (dim - 1) <= |m|
  {
    FullMatrixPairs(m, dim);
    if dim >= 2 {
      FullLastRead(dim, dim - 2, dim - 1);
      if dim * (dim - 1) <= |m| {
        forall r, c | 0 <= r < c < dim ensures FullIndex(dim, (r, c)) < |m| {
          FullLastRead(dim, r, c);
        }
      } else {
        assert FullIndex(dim, (dim - 2, dim - 1)) >= |m|;
      }
    }
  }

  /** Cell (dim - 2, dim - 1) is the last one above the diagonal in row-major order. */
  lemma FullLastRead(dim: int, r: int, c: int)
    requires 0 <= r < c < dim
    ensures FullIndex(dim, (r, c)) <= dim * (dim - 1) - 1
    ensures r == dim - 2 && c == dim - 1 ==> FullIndex(dim, (r, c)) == dim * (dim - 1) - 1
  {
    MulLe(r, dim - 2, dim);
  }

  lemma MulLe(a: int, b: int, k: nat)
    requires a <= b
    ensures a * k <= b * k
  {
  }

  lemma {:induction false} TriGrows(a: nat, b: nat)
    requires a <= b
    ensures Tri(a) + b - a <= Tri(b)
    decreases b
  {
    if a < b {
      TriGrows(a, b - 1);
    }
  }

  /** A LOWER_DIAG_ROW section is unpacked exactly when it holds all but the last of the
      Tri(dim) cells of the triangle: the last diagonal cell is never read. */
  lemma LowerDiagRowNeeds(m: seq<Decimal>, dim: int)
    ensures LowerDiagRow(m, dim).Ok? <==> dim < 2 || Tri(dim) - 1 <= |m|
  {
    LowerDiagRowPairs(m, dim);
    if dim >= 2 {
      if Tri(dim) - 1 <= |m| {
        forall r: nat, c | 0 <= c < r < dim ensures LowerCell(r, c) < |m| {
          TriGrows(r, dim - 1);
        }
      } else {
        assert LowerCell(dim - 1, dim - 2) >= |m|;
      }
    }
  }

  /** Before cell (i, j) the FULL_MATRIX walk has passed FullIndex(dim, (i, j)) cells, of which
      Tri(i) + i + 1 lie on or below the diagonal; the others each gave one triple. */
  lemma {:induction false} FullWalkCount(m: seq<Decimal>, dim: int, i: int, j: int, acc: seq<Edge<Decimal>>)
    requires 0 <= i <= dim && i < j && (i < dim ==> j <= dim) && (i == dim ==> j == dim + 1)
    requires |acc| + Tri(i) + i + 1 == FullIndex(dim, (i, j))
    ensures FullWalk(m, dim, i, j, acc).Ok? ==> 2 * |FullWalk(m, dim, i, j, acc).value| == dim * (dim - 1)
    decreases dim - i, dim - j
  {
    if i >= dim {
      TriClosed(dim);
      assert FullIndex(dim, (i, j)) == dim * dim + dim + 1;
    } else if j >= dim {
      assert FullIndex(dim, (i + 1, i + 2)) == FullIndex(dim, (i, j)) + i + 2;
      FullWalkCount(m, dim, i + 1, i + 2, acc);
    } else if 0 <= FullIndex(dim, (i, j)) < |m| {
      FullWalkCount(m, dim, i, j + 1, acc + [(i + 1, j + 1, m[FullIndex(dim, (i, j))])]);
    }
  }

  /** A FULL_MATRIX section that is unpacked gives dim * (dim - 1) / 2 edges. */
  lemma FullMatrixCount(m: seq<Decimal>, dim: int)
    ensures FullMatrix(m, dim).Ok? ==> 2 * |FullMatrix(m, dim).value| == Rows(dim) * (Rows(dim) - 1)
  {
    if dim >= 0 {
      FullWalkCount(m, dim, 0, 1, []);
    }
  }

  /** Before cell (i, j) the LOWER_DIAG_ROW walk has passed Tri(i) + j cells, of which i, or
      i + 1 once past the diagonal, lie on the diagonal; the others each gave one triple. */
  lemma {:induction false} LowerWalkCount(m: seq<Decimal>, dim: int, i: nat, j: nat, acc: seq<Edge<Decimal>>)
    requires i <= dim && j <= i + 1 && (i == dim ==> j == 0)
    requires |acc| + i == Tri(i) + (if j <= i then j else i)
    ensures LowerWalk(m, dim, i, j, Tri(i) + j, acc).Ok? ==>
      2 * |LowerWalk(m, dim, i, j, Tri(i) + j, acc).value| == dim * (dim - 1)
    decreases dim - i, i - j + 1
  {
    if i >= dim {
      LowerCountEnd(i, |acc|);
    } else if j > i {
      assert Tri(i + 1) == Tri(i) + j;
      LowerWalkCount(m, dim, i + 1, 0, acc);
    } else if i == j {
      LowerWalkCount(m, dim, i, j + 1, acc);
    } else if Tri(i) + j < |m| {
      LowerWalkCount(m, dim, i, j + 1, acc + [(j + 1, i + 1, m[Tri(i) + j])]);
    }
  }

  lemma LowerCountEnd(dim: nat, n: nat)
    requires n + dim == Tri(dim)
    ensures 2 * n == dim * (dim - 1)
  {
    TriClosed(dim);
    assert dim * (dim + 1) == dim * (dim - 1) + 2 * dim;
  }

  /** A LOWER_DIAG_ROW section that is unpacked gives dim * (dim - 1) / 2 edges. */
  lemma LowerDiagRowCount(m: seq<Decimal>, dim: int)
    ensures LowerDiagRow(m, dim).Ok? ==> 2 * |LowerDiagRow(m, dim).value| == Rows(dim) * (Rows(dim) - 1)
  {
    if dim >= 0 {
      LowerWalkCount(m, dim, 0, 0, []);
    }
  }

  /** The edge weight types `calculate_distances` dispatches on. */
  datatype WeightType = Euc2D | Geo | Att

  /** The type named in the header, or None for a name no branch of the dispatch matches. */
  function WeightTypeOf(name: string): (r: Option<WeightType>)
    ensures r == Some(Euc2D) <==> name == "EUC_2D"
    ensures r == Some(Geo) <==> name == "GEO"
    ensures r == Some(Att) <==> name == "ATT"
  {
    if name == "EUC_2D" then Some(Euc2D)
    else if name == "GEO" then Some(Geo)
    else if name == "ATT" then Some(Att)
    else None
  }

  /** The three distance formulas, rounded to an int; they are floating-point code and are not
      part of this model. */
  type Distance = (WeightType, Point, Point) -> int

  /** The pair loop of `calculate_distances` from position (a, b) of the two walks over the dict,
      with the triples acc already collected: every pair of ids i < j is weighed by the formula
      of type t, and when t names no formula the first such pair raises UnboundLocalError. */
  function PairWalk(c: Coords, t: Option<WeightType>, dist: Distance, a: nat, b: nat, acc: seq<Edge<int>>)
    : Result<seq<Edge<int>>>
    requires CoordsValid(c)
    decreases |c.ids| - a, |c.ids| - b
  {
    if a >= |c.ids| then Ok(acc)
    else if b >= |c.ids| then PairWalk(c, t, dist, a + 1, 0, acc)
    else
      var i, j := c.ids[a], c.ids[b];
      if i < j then
        match t
        case None => Err(UnboundLocalError)
        case Some(w) => PairWalk(c, t, dist, a, b + 1, acc + [(i, j, dist(w, c.at[i], c.at[j]))])
      else PairWalk(c, t, dist, a, b + 1, acc)
  }

  /** The edges `calculate_distances` returns. */
  function CoordEdges(c: Coords, edgeWeightType: string, dist: Distance): Result<seq<Edge<int>>>
    requires CoordsValid(c)
  {
    PairWalk(c, WeightTypeOf(edgeWeightType), dist, 0, 0, [])
  }

  /** `calculate_distances`: both loops run over the dict in insertion order and keep the pairs
      with i < j. */
  method CalculateDistances(c: Coords, edgeWeightType: string, dist: Distance) returns (r: Result<seq<Edge<int>>>)
    requires CoordsValid(c)
    ensures r == CoordEdges(c, edgeWeightType, dist)
  {
    ghost var t := WeightTypeOf(edgeWeightType);
    var distances: seq<Edge<int>> := [];
    for a := 0 to |c.ids|
      invariant PairWalk(c, t, dist, a, 0, distances) == CoordEdges(c, edgeWeightType, dist)
    {
      var i := c.ids[a];
      var p1 := c.at[i];
      for b := 0 to |c.ids|
        invariant PairWalk(c, t, dist, a, b, distances) == CoordEdges(c, edgeWeightType, dist)
      {
        var j := c.ids[b];
        var p2 := c.at[j];
        if i < j {
          var d: int;
          if edgeWeightType == "EUC_2D" {
            d := dist(Euc2D, p1, p2);
          } else if edgeWeightType == "GEO" {
            d := dist(Geo, p1, p2);
          } else if edgeWeightType == "ATT" {
            d := dist(Att, p1, p2);
          } else {
            return Err(UnboundLocalError);
          }
          distances := distances + [(i, j, d)];
        }
      }
    }
    return Ok(distances);
  }

  /** Triple e joins two ids of the dict, smaller first, weighed by the formula of type w. */
  predicate CoordEdge(c: Coords, w: WeightType, dist: Distance, e: Edge<int>)
    requires CoordsValid(c)
  {
    e.0 in c.ids && e.1 in c.ids && e.0 < e.1 && e.2 == dist(w, c.at[e.0], c.at[e.1])
  }

  /** No two triples of ts join the same two ids in the same order. */
  predicate DistinctPairs<W>(ts: seq<Edge<W>>) {
    forall k, l :: 0 <= k < l < |ts| ==> (ts[k].0, ts[k].1) != (ts[l].0, ts[l].1)
  }

  lemma HasPairSnoc<W>(ts: seq<Edge<W>>, e: Edge<W>, x: int, y: int)
    ensures HasPair(ts + [e], x, y) <==> HasPair(ts, x, y) || (e.0 == x && e.1 == y)
  {
    var ts' := ts + [e];
    if HasPair(ts, x, y) {
      var k :| 0 <= k < |ts| && ts[k].0 == x && ts[k].1 == y;
      assert ts'[k] == ts[k];
    }
    if e.0 == x && e.1 == y {
      assert ts'[|ts|] == e;
    }
    if HasPair(ts', x, y) {
      var k :| 0 <= k < |ts'| && ts'[k].0 == x && ts'[k].1 == y;
      if k < |ts| {
        assert ts'[k] == ts[k];
      }
    }
  }

  lemma DistinctPairsSnoc<W>(ts: seq<Edge<W>>, e: Edge<W>)
    requires DistinctPairs(ts) && !HasPair(ts, e.0, e.1)
    ensures DistinctPairs(ts + [e])
  {
    var ts' := ts + [e];
    forall k, l | 0 <= k < l < |ts'| ensures (ts'[k].0, ts'[k].1) != (ts'[l].0, ts'[l].1) {
      if l == |ts| {
        assert ts'[k] == ts[k] && ts'[l] == e;
      } else {
        assert ts'[k] == ts[k] && ts'[l] == ts[l];
      }
    }
  }

  /** Every triple of acc is a CoordEdge whose ids sit at positions before (a, b). */
  predicate PairEntries(c: Coords, w: WeightType, dist: Distance, a: int, b: int, acc: seq<Edge<int>>)
    requires CoordsValid(c)
  {
    forall k :: 0 <= k < |acc| ==>
      CoordEdge(c, w, dist, acc[k]) && Before(IndexOf(c.ids, acc[k].0), IndexOf(c.ids, acc[k].1), a, b)
  }

  /** Every increasing pair of ids at positions before (a, b) has its triple in acc. */
  predicate PairsCovered(ids: seq<int>, a: int, b: int, acc: seq<Edge<int>>) {
    forall r, q :: 0 <= r < |ids| && 0 <= q < |ids| && ids[r] < ids[q] && Before(r, q, a, b) ==>
      HasPair(acc, ids[r], ids[q])
  }

  /** What the pair loop has collected on reaching position (a, b): one triple for each pair of
      positions before (a, b) whose ids are in increasing order. */
  predicate PairSoFar(c: Coords, w: WeightType, dist: Distance, a: int, b: int, acc: seq<Edge<int>>)
    requires CoordsValid(c)
  {
    PairEntries(c, w, dist, a, b, acc) && DistinctPairs(acc) && PairsCovered(c.ids, a, b, acc)
  }

  /** Weighing the pair at position (a, b) keeps PairSoFar, one position on. */
  lemma PairSoFarRead(c: Coords, w: WeightType, dist: Distance, a: nat, b: nat, acc: seq<Edge<int>>)
    requires CoordsValid(c) && a < |c.ids| && b < |c.ids| && c.ids[a] < c.ids[b]
    requires PairSoFar(c, w, dist, a, b, acc)
    ensures PairSoFar(c, w, dist, a, b + 1, acc + [(c.ids[a], c.ids[b], dist(w, c.at[c.ids[a]], c.at[c.ids[b]]))])
  {
    var ids := c.ids;
    var e := (ids[a], ids[b], dist(w, c.at[ids[a]], c.at[ids[b]]));
    var acc' := acc + [e];
    assert IndexOf(ids, ids[a]) == a && IndexOf(ids, ids[b]) == b;
    PairEntriesRead(c, w, dist, a, b, acc, e);
    forall k | 0 <= k < |acc| ensures acc[k].0 != e.0 || acc[k].1 != e.1 {
      assert Before(IndexOf(ids, acc[k].0), IndexOf(ids, acc[k].1), a, b);
    }
    DistinctPairsSnoc(acc, e);
    PairsCoveredRead(ids, a, b, acc, e);
  }

  lemma PairsCoveredRead(ids: seq<int>, a: nat, b: nat, acc: seq<Edge<int>>, e: Edge<int>)
    requires a < |ids| && b < |ids| && e.0 == ids[a] && e.1 == ids[b]
    requires PairsCovered(ids, a, b, acc)
    ensures PairsCovered(ids, a, b + 1, acc + [e])
  {
    forall r, q | 0 <= r < |ids| && 0 <= q < |ids| && ids[r] < ids[q] && Before(r, q, a, b + 1)
      ensures HasPair(acc + [e], ids[r], ids[q])
    {
      HasPairSnoc(acc, e, ids[r], ids[q]);
    }
  }

  lemma PairEntriesRead(c: Coords, w: WeightType, dist: Distance, a: nat, b: nat, acc: seq<Edge<int>>, e: Edge<int>)
    requires CoordsValid(c) && a < |c.ids| && b < |c.ids|
    requires PairEntries(c, w, dist, a, b, acc)
    requires CoordEdge(c, w, dist, e) && IndexOf(c.ids, e.0) == a && IndexOf(c.ids, e.1) == b
    ensures PairEntries(c, w, dist, a, b + 1, acc + [e])
  {
    var acc' := acc + [e];
    forall k | 0 <= k < |acc'|
      ensures CoordEdge(c, w, dist, acc'[k]) && Before(IndexOf(c.ids, acc'[k].0), IndexOf(c.ids, acc'[k].1), a, b + 1)
    {
      if k < |acc| {
        assert acc'[k] == acc[k];
      }
    }
  }

  /** The edges of the pair loop once it has finished: every increasing pair of ids once, each
      weighed by the formula of type w. */
  predicate PairsDone(c: Coords, w: WeightType, dist: Distance, ts: seq<Edge<int>>)
    requires CoordsValid(c)
  {
    && (forall k :: 0 <= k < |ts| ==> CoordEdge(c, w, dist, ts[k]))
    && DistinctPairs(ts)
    && (forall x, y :: x in c.ids && y in c.ids && x < y ==> HasPair(ts, x, y))
  }

  /** Past the last row every position lies before (a, b), so the loop has everything. */
  lemma PairSoFarDone(c: Coords, w: WeightType, dist: Distance, a: nat, b: nat, acc: seq<Edge<int>>)
    requires CoordsValid(c) && a >= |c.ids| && PairSoFar(c, w, dist, a, b, acc)
    ensures PairsDone(c, w, dist, acc)
  {
    var ids := c.ids;
    forall x, y | x in ids && y in ids && x < y ensures HasPair(acc, x, y) {
      var r, q := IndexOf(ids, x), IndexOf(ids, y);
      assert ids[r] < ids[q] && Before(r, q, a, b);
    }
  }

  /** A pair out of order, or the end of a row, adds nothing and loses nothing. */
  lemma PairSoFarSkip(c: Coords, w: WeightType, dist: Distance, a: nat, b: nat, acc: seq<Edge<int>>)
    requires CoordsValid(c) && a < |c.ids| && PairSoFar(c, w, dist, a, b, acc)
    requires b < |c.ids| ==> c.ids[a] >= c.ids[b]
    ensures b < |c.ids| ==> PairSoFar(c, w, dist, a, b + 1, acc)
    ensures b >= |c.ids| ==> PairSoFar(c, w, dist, a + 1, 0, acc)
  {
  }

  /** A pair loop that finishes has collected every increasing pair of ids once, each weighed by
      the formula of type w. */
  lemma {:induction false} PairWalkPairs(c: Coords, w: WeightType, dist: Distance, a: nat, b: nat, acc: seq<Edge<int>>)
    requires CoordsValid(c) && PairSoFar(c, w, dist, a, b, acc)
    ensures PairWalk(c, Some(w), dist, a, b, acc).Ok?
    ensures PairsDone(c, w, dist, PairWalk(c, Some(w), dist, a, b, acc).value)
    decreases |c.ids| - a, |c.ids| - b
  {
    var ids := c.ids;
    if a >= |ids| {
      PairSoFarDone(c, w, dist, a, b, acc);
    } else if b >= |ids| {
      PairSoFarSkip(c, w, dist, a, b, acc);
      PairWalkPairs(c, w, dist, a + 1, 0, acc);
    } else if ids[a] < ids[b] {
      PairSoFarRead(c, w, dist, a, b, acc);
      PairWalkPairs(c, w, dist, a, b + 1, acc + [(ids[a], ids[b], dist(w, c.at[ids[a]], c.at[ids[b]]))]);
    } else {
      PairSoFarSkip(c, w, dist, a, b, acc);
      PairWalkPairs(c, w, dist, a, b + 1, acc);
    }
  }

  /** No pair of positions at or after (a, b) holds ids in increasing order. */
  predicate NoIncreasingFrom(ids: seq<int>, a: int, b: int) {
    forall r, q :: 0 <= r < |ids| && 0 <= q < |ids| && !Before(r, q, a, b) ==> ids[r] >= ids[q]
  }

  lemma NoIncreasingStep(ids: seq<int>, a: nat, b: nat)
    requires a < |ids|
    ensures b >= |ids| ==> (NoIncreasingFrom(ids, a, b) <==> NoIncreasingFrom(ids, a + 1, 0))
    ensures b < |ids| ==> (NoIncreasingFrom(ids, a, b) <==> ids[a] >= ids[b] && NoIncreasingFrom(ids, a, b + 1))
  {
    if b < |ids| {
      assert !Before(a, b, a, b);
    }
  }

  /** Without a formula the pair loop raises exactly when some increasing pair of ids lies at or
      after position (a, b), and otherwise adds nothing. */
  lemma {:induction false} PairWalkRaises(c: Coords, dist: Distance, a: nat, b: nat, acc: seq<Edge<int>>)
    requires CoordsValid(c)
    ensures PairWalk(c, None, dist, a, b, acc) ==
      if NoIncreasingFrom(c.ids, a, b) then Ok(acc) else Err(UnboundLocalError)
    decreases |c.ids| - a, |c.ids| - b
  {
    if a >= |c.ids| {
    } else if b >= |c.ids| {
      NoIncreasingStep(c.ids, a, b);
      PairWalkRaises(c, dist, a + 1, 0, acc);
    } else {
      NoIncreasingStep(c.ids, a, b);
      if c.ids[a] >= c.ids[b] {
        PairWalkRaises(c, dist, a, b + 1, acc);
      }
    }
  }

  /** `calculate_distances` gives one edge per pair of distinct node ids, smaller id first,
      weighed by the formula the type names; with a type no branch matches it raises
      UnboundLocalError as soon as there are two nodes, and returns [] otherwise. */
  lemma CoordEdgesPairs(c: Coords, edgeWeightType: string, dist: Distance)
    requires CoordsValid(c)
    ensures WeightTypeOf(edgeWeightType).None? ==>
      CoordEdges(c, edgeWeightType, dist) == if |c.ids| >= 2 then Err(UnboundLocalError) else Ok([])
    ensures WeightTypeOf(edgeWeightType).Some? ==>
      CoordEdges(c, edgeWeightType, dist).Ok? &&
      PairsDone(c, WeightTypeOf(edgeWeightType).value, dist, CoordEdges(c, edgeWeightType, dist).value)
  {
    if WeightTypeOf(edgeWeightType).Some? {
      PairWalkPairs(c, WeightTypeOf(edgeWeightType).value, dist, 0, 0, []);
    } else {
      PairWalkRaises(c, dist, 0, 0, []);
      if |c.ids| >= 2 {
        if c.ids[0] < c.ids[1] {
          assert !Before(0, 1, 0, 0);
        } else {
          assert c.ids[1] < c.ids[0] && !Before(1, 0, 0, 0);
        }
      } else {
        assert NoIncreasingFrom(c.ids, 0, 0);
      }
    }
  }

  /** The line `save_edge_file` writes for one triple: the two ids and the weight, separated by
      tabs; render is how the weight prints (`str` of an int, or of a float for explicit weights). */
  function EdgeLine<W>(e: Edge<W>, render: W -> string): string {
    IntToString(e.0) + "\t" + IntToString(e.1) + "\t" + render(e.2) + "\n"
  }

  /** `save_edge_file`: one line per triple, in list order. */
  method SaveEdgeFile<W>(distances: seq<Edge<W>>, render: W -> string) returns (written: seq<string>)
    ensures |written| == |distances|
    ensures forall k :: 0 <= k < |distances| ==> written[k] == EdgeLine(distances[k], render)
  {
    written := [];
    for k := 0 to |distances|
      invariant |written| == k
      invariant forall l :: 0 <= l < k ==> written[l] == EdgeLine(distances[l], render)
    {
      var (i, j, d) := distances[k];
      written := written + [IntToString(i) + "\t" + IntToString(j) + "\t" + render(d) + "\n"];
    }
  }

  /** Reading a written line back with `parse_edges_file` gives the two ids and the weight as
      float() reads its printed form, provided it prints as one token. */
  lemma EdgeLineRoundTrip<W>(e: Edge<W>, render: W -> string)
    requires render(e.2) != [] && NoSpace(render(e.2))
    ensures TsplibNwxUtils.ParseEdgeLine(EdgeLine(e, render)) ==
      match ParseDecimal(render(e.2))
      case Some(w) => Ok((e.0, e.1, w))
      case None => Err(ValueError)
  {
    SplitLine(IntToString(e.0), IntToString(e.1), render(e.2), "\t");
    ParseIntToString(e.0);
    ParseIntToString(e.1);
  }

  /** The edges `calculate_distances` computes survive the trip through an `.edges` file: every
      line written reads back as its own triple, the int weight as a float with no fraction. */
  lemma CoordEdgeFileRoundTrip(ts: seq<Edge<int>>, written: seq<string>)
    requires |written| == |ts|
    requires forall k :: 0 <= k < |ts| ==> written[k] == EdgeLine(ts[k], IntToString)
    ensures forall k :: 0 <= k < |ts| ==>
      TsplibNwxUtils.ParseEdgeLine(written[k]) == Ok((ts[k].0, ts[k].1, Decimal(ts[k].2, 0)))
  {
    forall k | 0 <= k < |ts|
      ensures TsplibNwxUtils.ParseEdgeLine(written[k]) == Ok((ts[k].0, ts[k].1, Decimal(ts[k].2, 0)))
    {
      EdgeLineRoundTrip(ts[k], IntToString);
      ParseDecimalOfInt(ts[k].2);
    }
  }
}
