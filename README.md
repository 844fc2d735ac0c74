# Subway shortest path: station table and Dijkstra solver

This project models the two services behind a subway route finder.

- **The station table** (`Matrix.java`). It reads the station names line by line and sets the station count N. It allocates an N x N table of `Integer.MAX_VALUE` ("no edge") sentinels. Then it applies every `name1,name2,weight` edge line in file order, writing the weight into both directions of the pair. At the end it zeroes the diagonal. It also answers name-to-index lookups.
- **The solver** (`Dijkstra.java`). It runs N rounds of "select the unvisited station with the strictly smallest finite label, mark it, relax its unvisited neighbours" over `distances` and `visited` arrays. It returns the arrival's label as decimal text.

The modules:

- `Wrappers`: `Option` and `Result`. Every exception the source throws becomes a `Failure` value.
- `Decimal`: `Integer.parseInt` with radix 10 (`ParseInt`) and `Integer.toString` (`IntToString`), with the round trip between them.
- `Graph`: the shared vocabulary. `INF` is `Integer.MAX_VALUE`. `Cells` is the contents of a two-dimensional array. It also defines symmetry, the zero diagonal, non-negative weights, paths, path weights and reachability.
- `StationMatrix`: the table as values and as an object.
  - As values, `Load` is the whole of `fillMatrix` as a function of the station lines and the edge lines. The lemmas about it state what a load guarantees.
  - As an object, class `Matrix` has the fields `numOfTheStations`, `stationsNames` and `adjacencyMatrix`. Its methods are proved against the value-level model:
    - The methods named after source methods are `FillMatrix`, `SetStationNamesFromFile`, `SetNumOfTheStations`, `InitMatrix`, `GetIndexOfTheStationForInit`, `GetIndexOfTheStation` and `AddEdge`.
    - Three are inline steps of the source made into methods: `FillWithSentinel` (the allocation and fill in `fillMatrix`), `ReadEdge` (the split, the two lookups and the parse in `initMatrix`'s loop) and `ZeroTheDiagonal` (`initMatrix`'s last loop).
    - `Create` stands for the constructor.
  - What each method is proved against:
    - `Create` and `FillMatrix`: `Load`.
    - `SetStationNamesFromFile`: the line list.
    - `SetNumOfTheStations`: the list's size.
    - `FillWithSentinel`: `EmptyMatrix`.
    - `InitMatrix`: `ApplyEdges`, then `WithZeroDiagonal`.
    - `ZeroTheDiagonal`: `WithZeroDiagonal`.
    - `ReadEdge`: `ParseEdge`.
    - The two lookups: `IndexOf`.
    - `AddEdge`: `SetEdge`.
- `DijkstraSpec`: the solver as a pure round-by-round model.
  - `Rounds(g, src, k)` is the state after k rounds, or `None` once a round selected nothing.
  - `Solve` is the label of the arrival after N rounds.
  - The lemmas cover the invariant of every round (soundness, the visited count, freedom from overflow), that visited labels are final, optimality for non-negative weights, and exactly when a run fails.
- `Dijkstra`: the solver over arrays, method for method. The driver is proved to return `Answer`: the text of `Solve`'s value, or its failure.

Behaviour of the code that the model keeps as written:

- When any station cannot be reached from the departure, some round selects -1. The next statement indexes `visited[-1]` and throws. So the whole call fails, even when the arrival itself is reachable (`DijkstraSpec.SolveFailsIffUnreachable`). The model returns `Failure(NoStationSelected)` there.
- `Integer.parseInt` accepts a sign, so negative weights are stored. Optimality is proved only for tables whose weights are not negative.
- Every line of the station file becomes a station, blank lines included, and names are neither trimmed nor case-folded.
- `getIndexOfTheStation` refuses only the empty name. A blank name is searched for like any other.
- `String.split(",")` drops trailing empty fields, so `"A,B,"` has two fields and fails on the missing third. A line of only commas has none and fails on the first.
- Edge line errors come in the order the source evaluates them:
  1. field 0 missing;
  2. field 0 not a station;
  3. field 1 missing;
  4. field 1 not a station;
  5. field 2 missing;
  6. field 2 not an integer.

  Fields after the third are ignored.
- An edge line that names the same station twice writes a diagonal cell, and the final zeroing overwrites it.

## Model

| member | source | states |
|---|---|---|
| `Decimal.ParseIntValue` | src/main/java/org/example/services/Matrix.java:91 | `Integer.parseInt` reads an unsigned, '+' or '-' digit string as its signed value when that fits in 32 bits. It refuses such a string out of range (such as "2147483648") and every other text |
| `Decimal.IntToString` | src/main/java/org/example/services/Dijkstra.java:51 | the rendered answer is non-empty and starts with '-' exactly when the value is negative |
| `Decimal.ParseIntOfIntToString` | src/main/java/org/example/services/Dijkstra.java:51 | `Integer.parseInt` reads every rendered 32-bit value back as the same value |
| `Graph.MaxWeightBound` | src/main/java/org/example/services/Dijkstra.java:104-105 | the per-edge weight bound assumed against overflow is exactly the largest w with N * w < `Integer.MAX_VALUE` |
| `Graph.ReversePath` | src/main/java/org/example/services/Matrix.java:158-159 | on a symmetric table a path read backwards is a path of the same weight between the same stations |
| `StationMatrix.FieldsOfJoin` | src/main/java/org/example/services/Matrix.java:87 | splitting a line at commas gives back the fields it was joined from (no commas inside, last one non-empty) |
| `StationMatrix.IndexOf` | src/main/java/org/example/services/Matrix.java:112 | `indexOf`: -1 exactly when the name is absent, otherwise an index holding the name with no earlier one holding it |
| `StationMatrix.ParseEdgeSucceedsIff` | src/main/java/org/example/services/Matrix.java:87-91 | a line yields an edge if and only if it has at least three fields, the first two name stations and the third parses. The edge joins the names' first indices with the parsed weight |
| `StationMatrix.ParseEdgeOfLine` | src/main/java/org/example/services/Matrix.java:87-91 | the line "a,b,w", written from two comma-free station names and a 32-bit weight, reads back as the edge between their first indices with weight w |
| `StationMatrix.LoadOfWrittenLines` | src/main/java/org/example/services/Matrix.java:86-96 | an edge file whose every line is written that way always loads |
| `StationMatrix.SetEdgeCells` | src/main/java/org/example/services/Matrix.java:156-161 | `addEdge` with both indices in range sets exactly cells (s1, s2) and (s2, s1) to the weight, and with either out of range changes nothing |
| `StationMatrix.SetEdgeSymmetric` | src/main/java/org/example/services/Matrix.java:158-159 | `addEdge` keeps a symmetric table symmetric |
| `StationMatrix.LoadSymmetric` | src/main/java/org/example/services/Matrix.java:46-52 | a loaded table is symmetric and every diagonal cell is 0 |
| `StationMatrix.LoadSucceedsIff` | src/main/java/org/example/services/Matrix.java:86-95 | a load succeeds if and only if every edge line parses |
| `StationMatrix.LoadFailsAtFirstBadLine` | src/main/java/org/example/services/Matrix.java:86-95 | a load fails with the error of the first edge line that does not parse, whatever follows it |
| `StationMatrix.ApplyParsedLastWins` | src/main/java/org/example/services/Matrix.java:86-92 | applying edges in order, the cell of a pair ends with the weight of the last edge joining the pair |
| `StationMatrix.LoadLastLineWins` | src/main/java/org/example/services/Matrix.java:86-92 | off the diagonal, a loaded cell holds the weight of the last edge line joining its pair, in either order of the names |
| `StationMatrix.LoadNoLineNoEdge` | src/main/java/org/example/services/Matrix.java:49-50 | off the diagonal, a pair that no edge line joins keeps the `Integer.MAX_VALUE` sentinel |
| `StationMatrix.Matrix.Empty` | src/main/java/org/example/services/Matrix.java:22-24 | the object before loading: no stations and an empty table |
| `StationMatrix.Matrix.Create` | src/main/java/org/example/services/Matrix.java:33-37 | the constructor yields an object exactly when the load succeeds. Its names are the station lines and its table is the loaded one; otherwise it yields the load's error |
| `StationMatrix.Matrix.FillMatrix` | src/main/java/org/example/services/Matrix.java:46-52 | after `fillMatrix` the count equals the number of names, the names are the station lines in order, and the table is count x count. The table equals `Load`'s result, or the error is `Load`'s error |
| `StationMatrix.Matrix.SetStationNamesFromFile` | src/main/java/org/example/services/Matrix.java:60-68 | the name list becomes every line, in order, and nothing else changes |
| `StationMatrix.Matrix.SetNumOfTheStations` | src/main/java/org/example/services/Matrix.java:73-76 | the count becomes the size of the name list, and nothing else changes |
| `StationMatrix.Matrix.FillWithSentinel` | src/main/java/org/example/services/Matrix.java:49-50 | a fresh N x N table with every cell `Integer.MAX_VALUE`, before any edge is applied |
| `StationMatrix.ApplyEdgesStep` | src/main/java/org/example/services/Matrix.java:86-95 | one more edge line is applied to the table of the lines before it, or its error becomes the error of the whole load |
| `StationMatrix.Matrix.InitMatrix` | src/main/java/org/example/services/Matrix.java:83-102 | the edge lines applied in file order to the current table, then the diagonal zeroed; the first bad line ends it with that line's error |
| `StationMatrix.Matrix.ZeroTheDiagonal` | src/main/java/org/example/services/Matrix.java:99-100 | every diagonal cell becomes 0, and every other cell keeps its value |
| `StationMatrix.Matrix.ReadEdge` | src/main/java/org/example/services/Matrix.java:87-91 | one line split, both names looked up and the weight parsed, with `ParseEdge`'s outcome and errors |
| `StationMatrix.Matrix.GetIndexOfTheStationForInit` | src/main/java/org/example/services/Matrix.java:111-117 | succeeds exactly when the name is a station. It returns the first index holding the name; otherwise it fails with the unknown name |
| `StationMatrix.Matrix.GetIndexOfTheStation` | src/main/java/org/example/services/Matrix.java:127-140 | an empty name fails before any search, and an unknown name fails. Otherwise it returns the first index holding the name |
| `StationMatrix.Matrix.AddEdge` | src/main/java/org/example/services/Matrix.java:156-161 | the array changes exactly as `SetEdge` says: two cells, or none when an index is out of range |
| `DijkstraSpec.CountMark` | src/main/java/org/example/services/Dijkstra.java:47 | marking an unvisited station raises the number of visited stations by one |
| `DijkstraSpec.ScanMinFindsNearest` | src/main/java/org/example/services/Dijkstra.java:83-88 | after scanning a prefix, the kept index is -1 with every unvisited label INF, or an unvisited finite label that is minimal with the lowest index winning ties |
| `DijkstraSpec.SelectMinSpec` | src/main/java/org/example/services/Dijkstra.java:79-90 | the selection is -1 if and only if every unvisited label is INF. Otherwise it is an unvisited station of least finite label, and no earlier unvisited station has the same label |
| `DijkstraSpec.RelaxSpec` | src/main/java/org/example/services/Dijkstra.java:100-108 | relaxation lowers no label. It leaves visited stations, stations without an edge and everything alone when the current label is INF. A changed label is the current label plus the edge, and afterwards no unvisited neighbour can improve through the current station |
| `DijkstraSpec.InitialInv` | src/main/java/org/example/services/Dijkstra.java:62-69 | before the first round the invariant of the run holds |
| `DijkstraSpec.StepSound` | src/main/java/org/example/services/Dijkstra.java:105 | a round keeps every finite label equal to the weight of some path from the departure |
| `DijkstraSpec.StepInv` | src/main/java/org/example/services/Dijkstra.java:46-48 | a round that selects a station selects an unvisited finite one, none of its sums overflows, and the invariant holds after k + 1 rounds |
| `DijkstraSpec.RoundsInv` | src/main/java/org/example/services/Dijkstra.java:45-49 | after k rounds exactly k stations are visited, the departure's label is 0, the labels are sound and no label has overflowed |
| `DijkstraSpec.RoundsFit` | src/main/java/org/example/services/Dijkstra.java:104-105 | in every round no label plus edge weight leaves the 32-bit range |
| `DijkstraSpec.RoundProgress` | src/main/java/org/example/services/Dijkstra.java:45-49 | a successful round marks exactly one previously unvisited station, lowers no label and leaves visited stations as they were |
| `DijkstraSpec.VisitedLabelsFinal` | src/main/java/org/example/services/Dijkstra.java:101-106 | once a station is visited its label never changes in later rounds |
| `DijkstraSpec.FinalLabelsBelow` | src/main/java/org/example/services/Dijkstra.java:100-108 | labels only go down from round to round |
| `DijkstraSpec.SelectedIsShortest` | src/main/java/org/example/services/Dijkstra.java:46 | with non-negative weights the selected station's label is at most the weight of any path to it |
| `DijkstraSpec.RoundsSettled` | src/main/java/org/example/services/Dijkstra.java:45-49 | with non-negative weights, after any number of rounds every visited label is at most the weight of any path to its station |
| `DijkstraSpec.RoundsStayFailed` | src/main/java/org/example/services/Dijkstra.java:45-49 | once a round has thrown, the run stays failed |
| `DijkstraSpec.FirstFailure` | src/main/java/org/example/services/Dijkstra.java:46-47 | a failed run has a first round whose selection was -1 |
| `DijkstraSpec.StuckUnreachable` | src/main/java/org/example/services/Dijkstra.java:80-89 | a selection of -1 means some station is unreachable from the departure |
| `DijkstraSpec.CompleteRun` | src/main/java/org/example/services/Dijkstra.java:45-49 | after N successful rounds every station is visited with a finite label |
| `DijkstraSpec.FirstRound` | src/main/java/org/example/services/Dijkstra.java:46-48 | the first round visits the departure and brings every neighbour down to at most its edge weight |
| `DijkstraSpec.SolveFailsIffUnreachable` | src/main/java/org/example/services/Dijkstra.java:45-49 | the run fails if and only if some station cannot be reached from the departure |
| `DijkstraSpec.SolveIsPathWeight` | src/main/java/org/example/services/Dijkstra.java:42-51 | the result is the weight of a path from the departure to the arrival |
| `DijkstraSpec.SolveIsShortest` | src/main/java/org/example/services/Dijkstra.java:39-51 | with non-negative weights the result is at most the weight of every path from the departure to the arrival |
| `DijkstraSpec.SolveSameStation` | src/main/java/org/example/services/Dijkstra.java:46-48 | the result from a station to itself is 0 |
| `DijkstraSpec.SolveAtMostEdge` | src/main/java/org/example/services/Dijkstra.java:100-108 | the result is never above the direct edge from the departure to the arrival |
| `DijkstraSpec.SolveMonotone` | src/main/java/org/example/services/Dijkstra.java:39-51 | with non-negative weights, adding edges never raises an answer: a run that succeeds on a table succeeds on every extension of it, with a result no greater |
| `DijkstraSpec.SolveSymmetric` | src/main/java/org/example/services/Dijkstra.java:39-51 | on a symmetric table with non-negative weights, swapping the departure and the arrival gives the same outcome |
| `DijkstraSpec.SolveFits` | src/main/java/org/example/services/Dijkstra.java:51 | the result is a 32-bit value below `Integer.MAX_VALUE` in size |
| `Dijkstra.InitializeDistances` | src/main/java/org/example/services/Dijkstra.java:62-69 | a fresh array of N labels: 0 at the departure and `Integer.MAX_VALUE` everywhere else |
| `Dijkstra.FindMinDistanceStation` | src/main/java/org/example/services/Dijkstra.java:79-90 | -1 if and only if every unvisited label is `Integer.MAX_VALUE`. Otherwise an unvisited station with a finite label that is minimal among the unvisited, the lowest index winning ties |
| `Dijkstra.UpdateDistances` | src/main/java/org/example/services/Dijkstra.java:100-108 | the array becomes `Relax` of its old contents, whose properties `RelaxSpec` states |
| `Dijkstra.VisitNearest` | src/main/java/org/example/services/Dijkstra.java:46-48 | one loop body: the arrays become the next state of `Round`, or the round fails because the selection is -1 and both arrays are left as they were |
| `Dijkstra.RunRound` | src/main/java/org/example/services/Dijkstra.java:45-49 | round k takes the arrays from the state after k rounds to the state after k + 1, or the run fails |
| `Dijkstra.Dijkstra` | src/main/java/org/example/services/Dijkstra.java:39-52 | the returned text is `Answer`: the decimal rendering of the arrival's label after N rounds, or the failure of a round that selected -1 |
| `Dijkstra.AnswerParses` | src/main/java/org/example/services/Dijkstra.java:51 | the returned text reads back with `Integer.parseInt` as the solver's value |
| `Dijkstra.AnswerIsShortestPath` | src/main/java/org/example/services/Dijkstra.java:39-51 | the returned text is the weight of a path from the departure to the arrival, and with non-negative weights no path is lighter |
| `Dijkstra.AnswerFailsIffUnreachable` | src/main/java/org/example/services/Dijkstra.java:45-49 | the call fails if and only if some station is unreachable from the departure |
| `Dijkstra.AnswerSameStation` | src/main/java/org/example/services/Dijkstra.java:46-48 | from a station to itself the returned text is "0" |

## Left out

- The user interface (`SubwayApp`), the error dialogs (`ErrorHandler`) and the entry point (`Launcher`): window layout and presentation only. `SubwayApp` upper-cases the names before lookup; that normalisation is the caller's, and Unicode case mapping is not modelled.
- File access: the station file and the edge file are given as their lines. `Scanner`, `getResourceAsStream` and the missing-file exception are not modelled.
- The log4j logging calls, which have no effect on results.
- `IntStream` and `AtomicInteger` are plain loops and local variables: the streams are sequential, so there is no concurrency to model.
- Exceptions are `Failure` values. `StationMatrix.LoadError` distinguishes a missing field, an unknown station and a bad weight, and `DijkstraSpec.SolveError` stands for the `visited[-1]` exception. The exception classes and their messages are not modelled.
- `int[][]` is a two-dimensional array: rows cannot be ragged or shared between indices.
- `StationMatrix.Matrix.Create`: stands for the constructor, which takes file names and loads them; it takes the lines instead.
- `StationMatrix.Matrix.FillMatrix`: after a failed load, the contents of the partly filled table are not stated, because the constructor throws and the object is never used.
- `StationMatrix.Matrix.InitMatrix`: when an edge line fails, the table is not stated. The source leaves the earlier lines applied and the diagonal not zeroed; the constructor throws, so no caller sees it.
- `Decimal.ParseInt`: accepts ASCII digits only. `Integer.parseInt` also accepts the other Unicode decimal digits.
- `Dijkstra.Dijkstra`: requires every edge weight to be small enough (N * |w| < `Integer.MAX_VALUE`) that no label sum can overflow. The bound is sufficient, not necessary. It also excludes tables the source handles without overflow: two stations joined by weight 1500000000 give "1500000000". Where sums really overflow, the 32-bit wrap-around the source would silently perform is not modelled.
- `Dijkstra.Dijkstra`: requires the departure and arrival indices to be stations. The source's callers obtain them from the lookups, and an index out of range would throw.
- `Dijkstra.UpdateDistances`: requires each sum it may compute to fit in 32 bits, instead of modelling wrap-around.
- `Dijkstra.VisitNearest`: requires the same of every sum in the round.
- The station count is not bounded by the 32-bit size of Java arrays.
