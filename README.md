# TSPLIB for NetworkX, modelled in Dafny

This project models the core of TSPLIB-for-NetworkX, a small Python toolkit for the travelling
salesman problem. The toolkit converts TSPLIB instance files into `.edges` files (one weighted
edge per line), loads them into a NetworkX graph, and solves them in three ways: an exhaustive
search over permutations, a nearest-neighbour heuristic, and a branch-and-bound search.

The modules follow the source files:

| Dafny file | module | source |
|---|---|---|
| `base.dfy` | `Base` | shared datatypes: `Option`, `Result`, the Python exceptions, `float('inf')` |
| `graph.dfy` | `Graphs` | the weighted undirected graph and the length of a walk |
| `text.dfy` | `Text` | `str.strip`, `str.split`, `in`, `startswith`, `str(int)`, `int()` and `float()` |
| `utils.dfy` | `TsplibNwxUtils` | `scripts/TsplibNwxUtils.py` |
| `brute_force.dfy` | `BruteForce` | `scripts/BruteForce.py` |
| `nearest_neighbor.dfy` | `NearestNeighbor` | `scripts/NearestNeighbor.py` |
| `branch_and_bound.dfy` | `BranchAndBound` | `scripts/BranchAndBound.py`, as written |
| `branch_and_bound_fix.dfy` | `CorrectedBranchAndBound` | the corrected search (see Findings) |
| `tsp_file_parser.dfy` | `TspFileParser` | `scripts/TspFileParser.py` |
| `parse_tsp_files.dfy` | `ParseTspFiles` | `scripts/ParseTspFiles.py` |

Loops in the source become methods with loop invariants. Each method is proved equal to a
specification function, and the properties the code promises are lemmas about those functions.
Files are sequences of lines, exactly as `readlines()` returns them. The output of a writer is
the sequence of strings it passes to `write`.

A graph is a sequence of node ids (NetworkX insertion order) and a map from each ordered pair
(smaller id, larger id) to a non-negative weight. A Python dict filled in a loop is a sequence of
keys in insertion order plus a map.

## Model

| member | source | states |
|---|---|---|
| Graphs.OpenLengthAppend | scripts/TsplibNwxUtils.py:95-99 | extending a walk by a node joined to its last node adds exactly the weight of that edge |
| Graphs.Lightest | scripts/NearestNeighbor.py:14 | the chosen candidate is one of the candidates and no candidate is joined to the current node by a lighter edge |
| Text.FieldAfterColon | scripts/TspFileParser.py:23 | `line.split(":")[1].strip()` raises IndexError exactly when the line has no colon |
| TsplibNwxUtils.ParseEdgeLine | scripts/TsplibNwxUtils.py:15-16 | a line that does not split into exactly three tokens raises ValueError; ValueError is the only error a line can raise |
| TsplibNwxUtils.ParseEdgesFile | scripts/TsplibNwxUtils.py:12-17 | succeeds iff every line parses; then it yields one triple per line, in file order, each the parse of its line; otherwise ValueError |
| TsplibNwxUtils.ParseInts | scripts/TsplibNwxUtils.py:40 | `map(int, tokens)` succeeds iff every token is an int literal, and then gives one value per token, in order |
| TsplibNwxUtils.ParseOptTourFile | scripts/TsplibNwxUtils.py:29-42 | gives ValueError when no line is exactly "TOUR_SECTION\n"; otherwise gives the ints of the lines after the first such line, up to the first end marker |
| TsplibNwxUtils.ReadTourEntries | scripts/TsplibNwxUtils.py:36-40 | the reading loop gives the ints of every line in order up to the first line that strips to "-1" or "EOF", or ValueError at the first token that is not an int |
| TsplibNwxUtils.TourStopsAtEnd | scripts/TsplibNwxUtils.py:37-39 | lines after a line that strips to "-1" or "EOF" have no effect |
| TsplibNwxUtils.TourSkipsBlankLine | scripts/TsplibNwxUtils.py:40 | a blank line adds no node |
| TsplibNwxUtils.TourEntriesAppend | scripts/TsplibNwxUtils.py:37-40 | reading a + b, when a holds no end marker, is reading a and then b: the nodes concatenate and the first error wins |
| TsplibNwxUtils.CalculatePathLength | scripts/TsplibNwxUtils.py:93-101 | gives the sum of the weights of the consecutive pairs when every pair is an edge, and a KeyError otherwise; a path shorter than 2 has length 0 |
| TsplibNwxUtils.ClosePath | scripts/TsplibNwxUtils.py:115-124 | raises IndexError exactly on the empty path; an already closed path comes back unchanged with weight 0; otherwise the first node is appended and the weight is that of the closing edge, or 0 when the edge is missing |
| TsplibNwxUtils.ClosePathIdempotent | scripts/TsplibNwxUtils.py:115-122 | closing a closed path returns it unchanged with weight 0 |
| TsplibNwxUtils.ClosePathAddsItsWeight | scripts/TsplibNwxUtils.py:115-119 | when the closing edge exists, or the path is already closed, the closed path is as long as the path plus the returned weight; otherwise the weight is 0 and the closed path is not a walk of the graph |
| BruteForce.TourWeightIsClosedLength | scripts/BruteForce.py:13-15 | the weight of a round trip is the length of the path with its first node appended, and each is defined exactly when the other is |
| BruteForce.SingleNodeTour | scripts/BruteForce.py:15 | a one-node tour needs the self-loop `G[n][n]` and weighs exactly that edge |
| BruteForce.CalculatePathWeight | scripts/BruteForce.py:11-16 | gives the round-trip weight when every consecutive pair and the closing pair are edges; otherwise IndexError on the empty path and KeyError on any other path |
| BruteForce.BruteForcePathWorker | scripts/BruteForce.py:18-19 | returns the path unchanged with its round-trip weight, with the errors of `calculate_path_weight` |
| BruteForce.PermutationsCount | scripts/BruteForce.py:24 | there are \|s\|! permutations, the count `math.factorial` announces |
| BruteForce.PermutationsSound | scripts/BruteForce.py:24 | every permutation holds exactly the elements of s |
| BruteForce.PermutationsComplete | scripts/BruteForce.py:24 | every rearrangement of s is among its permutations |
| BruteForce.PermutationsDistinct | scripts/BruteForce.py:24 | with distinct elements, no permutation is listed twice |
| BruteForce.CandidatesAreTours | scripts/BruteForce.py:22-38 | with distinct nodes there are (n-1)! candidate tours and none is listed twice; p is a candidate iff it starts at the first node and holds every node exactly once |
| BruteForce.CandidateIff | scripts/BruteForce.py:38 | p is a candidate iff it starts at the first node and rearranges the nodes |
| BruteForce.ScanStep | scripts/BruteForce.py:41-44 | a strictly lighter candidate replaces the best; a candidate that ties keeps the earlier one |
| BruteForce.ScanDone | scripts/BruteForce.py:40-44 | after the last candidate, the best is the first candidate of least weight |
| BruteForce.ScanBatch | scripts/BruteForce.py:37-44 | a batch either extends the best-so-far invariant over its candidates or holds a candidate with a missing edge |
| BruteForce.BruteForce | scripts/BruteForce.py:21-52 | gives ValueError for an empty graph, a negative batch size or (with a batch) a worker count below 1, and None for batch size 0; otherwise KeyError iff some candidate misses an edge, else the first candidate tour of least weight |
| NearestNeighbor.UnvisitedNeighbors | scripts/NearestNeighbor.py:11 | gives exactly the neighbours of the current node that are not yet visited |
| NearestNeighbor.LightestIsFirst | scripts/NearestNeighbor.py:14 | `min` with a key returns the first of the lightest candidates |
| NearestNeighbor.LightestFirstOfLeast | scripts/NearestNeighbor.py:14 | the chosen neighbour is a candidate, and every candidate listed before its first occurrence is strictly heavier |
| NearestNeighbor.NearestNeighborFixed | scripts/NearestNeighbor.py:4-19 | the path is the greedy walk from the start node; it is a walk of the graph and the total weight is its length |
| NearestNeighbor.GreedyTourDistinct | scripts/NearestNeighbor.py:7-17 | the greedy walk never revisits a node and stays among the nodes of the graph |
| NearestNeighbor.GreedyTourGreedy | scripts/NearestNeighbor.py:10-17 | every step goes to an unvisited neighbour of least weight, the first one on ties |
| NearestNeighbor.GreedyTourStops | scripts/NearestNeighbor.py:9-13 | the walk ends only when every node is visited or the last node has no unvisited neighbour |
| NearestNeighbor.GreedyTourVisitsAll | scripts/NearestNeighbor.py:9-17 | on a complete graph the walk visits every node exactly once |
| NearestNeighbor.BestStartStep | scripts/NearestNeighbor.py:27-31 | a start node with a strictly lighter greedy walk replaces the best; a tie keeps the earlier one |
| NearestNeighbor.AllNearestNeighbor | scripts/NearestNeighbor.py:21-33 | an empty graph gives (None, [], inf); otherwise the result is the first start node of least greedy weight, with its path and weight |
| BranchAndBound.MinTo | scripts/BranchAndBound.py:14-15 | the minimum is no larger than any weight in the range and equal to one of them |
| BranchAndBound.PrimSpans | scripts/BranchAndBound.py:11-12 | the spanning edges add each unvisited node exactly once, each joined to a node already in the tree, and each carries the weight of its edge |
| BranchAndBound.LowerBoundLast | scripts/BranchAndBound.py:11-16 | with one unvisited node v, the spanning tree weighs 0 and the bound is w(last, v) + w(start, v) |
| BranchAndBound.Search | scripts/BranchAndBound.py:18-33 | the search returns a path that extends the item's path by the unvisited nodes, at a cost no lower than the item's |
| BranchAndBound.Bound | scripts/BranchAndBound.py:27-30 | a child's bound is at least the cost so far plus the edge to the child |
| BranchAndBound.BranchAndBoundWorker | scripts/BranchAndBound.py:18-33 | the recursive worker computes exactly the search |
| BranchAndBound.SearchOverestimates | scripts/BranchAndBound.py:18-33 | the reported path is a round trip of the graph and the reported cost is never below its weight |
| BranchAndBound.KeepBest | scripts/BranchAndBound.py:54-58 | the best changes only to a result of strictly lower cost, and no result is strictly lower than the one kept |
| BranchAndBound.Collect | scripts/BranchAndBound.py:66-70 | the collecting loop computes exactly KeepBest |
| BranchAndBound.RootTour | scripts/BranchAndBound.py:36-37 | the search from the root item returns a round trip through all nodes that starts at the first node |
| BranchAndBound.BranchAndBoundTsp | scripts/BranchAndBound.py:35-74 | gives IndexError on an empty graph, ValueError for fewer than one worker, and KeyError for a single node without a self-loop; otherwise it returns the root search's path, a round trip through all nodes from the first node |
| BranchAndBound.LastChildWins | scripts/BranchAndBound.py:26-33 | when every earlier child's bound lies above the last child's, the last child's search decides the result |
| BranchAndBound.SearchOneLeft | scripts/BranchAndBound.py:20-22 | with one node left, the search visits it and closes the tour |
| BranchAndBound.BoundTwoLeft | scripts/BranchAndBound.py:11-16 | gives the bound of a child after which two nodes are left, as an explicit sum of edge weights |
| BranchAndBound.SquareRootBounds | scripts/BranchAndBound.py:30 | on the four-node example, the root's three children have bounds 10, 10 and 9 |
| BranchAndBound.SquareRoot | scripts/BranchAndBound.py:26-32 | on the example, the root's search is the search below the child with bound 9 |
| BranchAndBound.SquareInner | scripts/BranchAndBound.py:26-32 | one level down, the child with bound 18 decides |
| BranchAndBound.SquareLeaf | scripts/BranchAndBound.py:20-22 | the leaf closes the tour [a, d, c, b] at reported cost 26 |
| BranchAndBound.SquareSearch | scripts/BranchAndBound.py:29-32 | the worker returns [a, d, c, b], which weighs 12, although [a, b, d, c] weighs 11 |
| CorrectedBranchAndBound.MstBelowPath | scripts/BranchAndBound.py:11-12 | the spanning-tree weight of a node set is at most the length of any path through those nodes |
| CorrectedBranchAndBound.LowerBoundAdmissible | scripts/BranchAndBound.py:6-16 | the lower bound never exceeds the weight of any way of finishing the tour through the unvisited nodes |
| CorrectedBranchAndBound.ExactSearchOptimal | scripts/BranchAndBound.py:18-33 | the corrected search, given the weight of the path so far, returns a completion of least round-trip weight at exactly that weight |
| CorrectedBranchAndBound.ExactStep | scripts/BranchAndBound.py:26-32 | one turn of the corrected loop keeps the best exact and covers one more child |
| CorrectedBranchAndBound.ExactRoot | scripts/BranchAndBound.py:35-74 | from the root, the corrected search returns a round trip through all nodes from the first node, at its exact weight, and no such round trip is lighter |
| CorrectedBranchAndBound.SquareCorrected | scripts/BranchAndBound.py:29-32 | on the four-node example, the optimal result reports at most 11 |
| TspFileParser.PutValid | scripts/TspFileParser.py:39 | `d[id] = p` sets id to p and leaves the other keys alone; a new key goes last and a known key keeps its place |
| TspFileParser.FloatsPrefix | scripts/TspFileParser.py:44 | `list.extend(map(float, ...))` keeps the values of the longest prefix of tokens that float() accepts, and stops at the first token it rejects |
| TspFileParser.StepLine | scripts/TspFileParser.py:21-46 | one turn of the loop, branch by branch. A line that names EDGE_WEIGHT_TYPE, else EDGE_WEIGHT_FORMAT, else DIMENSION sets that field to the stripped text after its first colon and changes nothing else; it raises IndexError without a colon, and a DIMENSION field that is not an int raises ValueError (iff). A section marker sets the section. An "EOF" line without a header key stops the loop (iff). In a coordinate section of a non-EXPLICIT instance, a line of exactly three tokens that read as int, float, float stores its point under its id, overwriting an earlier one, and any other line is skipped. In a weight section of an EXPLICIT instance, a line appends the floats it starts with. Every other line changes nothing. Conversely, no other line changes a header field, the dict or the weight list |
| TspFileParser.ParseTspFile | scripts/TspFileParser.py:4-47 | the loop computes exactly the fold of StepLine over the lines, returning the locals at the end or at the "EOF" line, or the first exception |
| TspFileParser.ReadLine | scripts/TspFileParser.py:22-46 | the elif chain on the locals computes exactly StepLine |
| TspFileParser.RunAppend | scripts/TspFileParser.py:21 | reading a + b is reading a and then b from where a left off, unless a stopped or failed |
| TspFileParser.EofLine | scripts/TspFileParser.py:32-33 | a line that strips to "EOF" holds no header key and ends the loop |
| TspFileParser.EofIgnoresRest | scripts/TspFileParser.py:32-33 | lines after an "EOF" line that the loop reaches change nothing |
| TspFileParser.TypeKept | scripts/TspFileParser.py:22-23 | lines that do not mention EDGE_WEIGHT_TYPE leave the type unchanged |
| TspFileParser.LastTypeWins | scripts/TspFileParser.py:22-23 | the type returned is the text after the colon of the last line that mentions EDGE_WEIGHT_TYPE |
| TspFileParser.FormatKept | scripts/TspFileParser.py:24-25 | lines that do not set EDGE_WEIGHT_FORMAT leave the format unchanged |
| TspFileParser.LastFormatWins | scripts/TspFileParser.py:24-25 | the format returned is the text after the colon of the last line that sets EDGE_WEIGHT_FORMAT |
| TspFileParser.DimensionKept | scripts/TspFileParser.py:26-27 | lines that do not set DIMENSION leave the dimension unchanged |
| TspFileParser.LastDimensionWins | scripts/TspFileParser.py:26-27 | the dimension returned is the int of the last line that sets DIMENSION |
| TspFileParser.DimensionRaises | scripts/TspFileParser.py:26-27 | a DIMENSION line the loop reaches, with a colon and a field that is not an int, makes the parse raise ValueError |
| TspFileParser.KeepsNode | scripts/TspFileParser.py:34-41 | a node that no later coordinate line names keeps its point to the end of the loop |
| TspFileParser.LastCoordWins | scripts/TspFileParser.py:34-41 | when the loop reaches a coordinate line in a coordinate section of a non-EXPLICIT instance, and no later line names the same id, the dict returned maps that id to the line's point |
| TspFileParser.RunKeeps | scripts/TspFileParser.py:21-46 | every run keeps the coordinate dict well formed and only appends to the explicit weights |
| TspFileParser.ParseValid | scripts/TspFileParser.py:4-47 | the coordinate dict returned is well formed |
| TspFileParser.TriClosed | scripts/TspFileParser.py:126-131 | the number of lower-triangle cells in rows 0 to n-1 is n(n+1)/2 |
| TspFileParser.ParseExplicitDistances | scripts/TspFileParser.py:108-132 | dispatches on the format: FULL_MATRIX, LOWER_DIAG_ROW, and an empty list for any other format |
| TspFileParser.FullMatrixEdges | scripts/TspFileParser.py:121-124 | the nested loops compute exactly the FULL_MATRIX walk, with IndexError on an index past the list |
| TspFileParser.LowerDiagRowEdges | scripts/TspFileParser.py:125-131 | the nested loops with the running index compute exactly the LOWER_DIAG_ROW walk |
| TspFileParser.FullMatrixPairs | scripts/TspFileParser.py:121-124 | the unpacking succeeds iff every index i*dim+j above the diagonal is in range; it then yields every pair 1 <= a < b <= dim exactly once, each weighed by its matrix entry |
| TspFileParser.FullMatrixNeeds | scripts/TspFileParser.py:121-124 | the unpacking succeeds iff dim < 2 or the list holds at least dim(dim-1) values |
| TspFileParser.FullMatrixCount | scripts/TspFileParser.py:121-124 | it yields dim(dim-1)/2 edges |
| TspFileParser.LowerDiagRowPairs | scripts/TspFileParser.py:125-131 | the unpacking succeeds iff every running index below the diagonal is in range; it then yields every pair exactly once, smaller id first, each weighed by the entry at its running index |
| TspFileParser.LowerDiagRowNeeds | scripts/TspFileParser.py:125-131 | the unpacking succeeds iff dim < 2 or the list holds at least dim(dim+1)/2 - 1 values |
| TspFileParser.LowerDiagRowCount | scripts/TspFileParser.py:125-131 | it yields dim(dim-1)/2 edges |
| TspFileParser.WeightTypeOf | scripts/TspFileParser.py:149-154 | the three branches of the dispatch: EUC_2D, GEO and ATT, each iff its name |
| TspFileParser.CalculateDistances | scripts/TspFileParser.py:134-156 | the nested loops over the dict compute exactly the pair walk |
| TspFileParser.PairWalkPairs | scripts/TspFileParser.py:146-155 | for a known type, the result holds every pair of ids i < j exactly once, weighed by that type's formula |
| TspFileParser.PairWalkRaises | scripts/TspFileParser.py:148-155 | for an unknown type, the loops raise UnboundLocalError iff some pair of ids is increasing |
| TspFileParser.CoordEdgesPairs | scripts/TspFileParser.py:134-156 | an unknown type raises UnboundLocalError exactly when the dict has two or more ids; a known type gives every pair i < j exactly once |
| TspFileParser.SaveEdgeFile | scripts/TspFileParser.py:166-168 | writes one tab-separated line per triple, in list order |
| TspFileParser.EdgeLineRoundTrip | scripts/TspFileParser.py:168 | `parse_edges_file` reads a written line back as its own two ids and the float of its printed weight |
| TspFileParser.CoordEdgeFileRoundTrip | scripts/TspFileParser.py:166-168 | every line written for integer weights reads back as its own triple |
| ParseTspFiles.TypeRaises | scripts/ParseTspFiles.py:19-21 | the type loop raises IndexError exactly when some line starts with EDGE_WEIGHT_TYPE and has no colon |
| ParseTspFiles.TypeLastWins | scripts/ParseTspFiles.py:19-21 | the type is the text after the colon of the last line that starts with the key, or "" when there is no such line |
| ParseTspFiles.ParsedType | scripts/ParseTspFiles.py:19-21 | the parsed type comes from the last line that starts with EDGE_WEIGHT_TYPE |
| ParseTspFiles.CoordStart | scripts/ParseTspFiles.py:24-27 | reading starts after the first "NODE_COORD_SECTION\n" line, or else after the first CRLF variant; ValueError when neither exists |
| ParseTspFiles.CoordLine | scripts/ParseTspFiles.py:31-41 | a line stops the loop iff it mentions EOF or is blank; only IndexError escapes, and only from a line of fewer than three tokens; every other line keeps the dict well formed |
| ParseTspFiles.CoordLineEffect | scripts/ParseTspFiles.py:33-41 | a line that describes a node sets that node's point; any other line that neither stops nor raises is skipped |
| ParseTspFiles.CoordLineRaises | scripts/ParseTspFiles.py:33-38 | IndexError escapes exactly when a token is missing at the moment its conversion comes |
| ParseTspFiles.CoordsFrom | scripts/ParseTspFiles.py:30-41 | the coordinate loop returns a well-formed dict |
| ParseTspFiles.KeepsNode | scripts/ParseTspFiles.py:37 | a node that no later line describes keeps its point |
| ParseTspFiles.LastCoordWins | scripts/ParseTspFiles.py:37 | a repeated node id keeps the point of its last line |
| ParseTspFiles.StopIgnoresRest | scripts/ParseTspFiles.py:31-32 | lines after a stop line are never read |
| ParseTspFiles.ParseFile | scripts/ParseTspFiles.py:12-43 | a successful parse returns a well-formed dict |
| ParseTspFiles.ParseFailures | scripts/ParseTspFiles.py:19-27 | a type line without a colon raises IndexError; otherwise a file with neither header line raises ValueError |
| ParseTspFiles.ReadEdgeWeightType | scripts/ParseTspFiles.py:19-21 | the type loop computes exactly TypeFrom |
| ParseTspFiles.ReadCoordLine | scripts/ParseTspFiles.py:31-41 | the loop body computes exactly CoordLine |
| ParseTspFiles.ReadCoordinates | scripts/ParseTspFiles.py:30-41 | the coordinate loop computes exactly CoordsFrom |
| ParseTspFiles.ParseTspFile | scripts/ParseTspFiles.py:3-43 | `parse_tsp_file` computes exactly ParseFile |
| ParseTspFiles.ChooseCalculator | scripts/ParseTspFiles.py:46-52 | accepts exactly ATT and GEO, each with its own formula, and raises ValueError for anything else |
| ParseTspFiles.ChooserRejectsEuclid | scripts/ParseTspFiles.py:46-52 | the types accepted are those the first converter weighs, less EUC_2D |
| ParseTspFiles.BuildEdges | scripts/ParseTspFiles.py:127-132 | the edge loop of `main` computes exactly the pair walk for the chosen type |
| ParseTspFiles.BuiltEdges | scripts/ParseTspFiles.py:127-132 | the edges join every pair of distinct node ids exactly once, smaller id first, each weighed by the chosen formula |
| ParseTspFiles.SaveEdgesFile | scripts/ParseTspFiles.py:106-110 | writes one space-separated line per edge, in list order |
| ParseTspFiles.EdgesLineRoundTrip | scripts/ParseTspFiles.py:110 | `parse_edges_file` reads a written line back as its own edge, with the weight as a float with no fraction |
| ParseTspFiles.ConvertFile | scripts/ParseTspFiles.py:113-135 | `main` computes exactly Convert: parse, choose the formula, build the edges, format the lines |
| ParseTspFiles.ConvertReadsBack | scripts/ParseTspFiles.py:113-135 | every output line parses, joins two node ids of the instance with the smaller first, and no pair appears twice |

## Left out

- File, console and OS I/O are not modelled. `open`, `readlines`, `write`, `os.listdir`, `os.makedirs`, `print`, tqdm progress bars and the `main` functions of the solver scripts all fall here. So does `main` of `scripts/TspFileParser.py` (lines 170-184): its loop over the `.tsp` files of a folder, and its per-file dispatch to `parse_explicit_distances` for an EXPLICIT instance and to `calculate_distances` otherwise. Both targets of that dispatch are modelled; the dispatch itself is not. A file is the sequence of its lines; a writer returns the lines it writes.
- `ThreadPoolExecutor` and `as_completed` are not modelled. Results are collected sequentially in submission order, so which of several tied results wins under completion order is not modelled.
- The `KeyboardInterrupt` handler of `brute_force` is not modelled.
- BranchAndBound.PrimSpans: the networkx `minimum_spanning_edges` call is replaced by Prim's algorithm. The model makes no claim about networkx internals. No lemma proves that `PrimEdges` gives a minimum spanning tree: `PrimSpans` proves only that it gives a spanning tree with the edge weights, and `MstBelowPath` proves only that its weight is at most the length of any path through the same nodes. The worked example in Findings is unaffected, because each tree there spans at most two nodes.
- Python set iteration order in the branch-and-bound worker is modelled as a fixed sequence order: the node order, with removal keeping the order of the rest.
- NearestNeighbor.UnvisitedNeighbors: neighbour order in `nearest_neighbor_fixed` is the graph's node order, not networkx's adjacency order, so `min` can break a tie between equally light neighbours differently. The two orders agree when the instance lists its node ids in ascending order. That covers the FULL_MATRIX and LOWER_DIAG_ROW edge files and coordinate sections listed 1..n. They can differ otherwise: coordinates listed as 3, 1, 4, 2 give networkx node order [3, 4, 1, 2], and node 2's neighbours come as [1, 3, 4] in networkx but as [3, 4, 1] here.
- The floating-point distance formulas (`euclidean_distance`, `geo_distance`, `att_distance`) are a parameter `dist` of the edge builders. The model proves which pairs get weighed and with which type, not the values.
- `float()` and `int()` are partial parsers of decimal literals: sign, ASCII digits, optional point and exponent. `inf`, `nan`, underscores and non-ASCII decimal digits (which Python's `int()` and `float()` accept) are left out. A coordinate or matrix line written with such digits therefore fails to parse here, while Python reads it.
- The printed form of a float weight (`str(float)`) is a parameter `render` of `TspFileParser.SaveEdgeFile`. The round trip is proved for any rendering that prints as one token, and in full for integer weights.
- `draw_graph` and `scripts/Benchmark.py` are not part of this model (plotting and timing).
- BranchAndBound.BranchAndBoundTsp: requires a complete graph with unique node ids. On an incomplete graph the source raises KeyError from `G.edges[...]` inside `calculate_lower_bound`, and that error path is not modelled.
- BranchAndBound.Search: reads a missing edge through `Wt` as weight 0. The KeyError a missing edge raises is modelled only at the driver, which requires a complete graph.
- ParseTspFiles.ConvertFile: the output file name and the fixed input name `ulysses16` are not modelled; the method takes the lines of the instance.

## Findings

| source | as written | input that shows it | evidently intended | confidence | as-written member | corrected member |
|---|---|---|---|---|---|---|
| scripts/BranchAndBound.py:29-32 | the child search receives `lower_bound` as its cost, so costs compound bound on bound; the child's result replaces the best without comparing its cost | complete graph on nodes 1-4 with weights w(1,2)=4, w(1,3)=1, w(1,4)=3, w(2,3)=4, w(2,4)=5, w(3,4)=1: the worker returns [1, 4, 3, 2] (weight 12, reported 26), but [1, 2, 4, 3] weighs 11 | pass `next_cost` (the path's weight) to the child and keep its result only when its cost is strictly lower, so the search returns a lightest tour | not executed | BranchAndBound.SquareSearch | CorrectedBranchAndBound.ExactRoot |
