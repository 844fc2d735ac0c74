/** The solver of Dijkstra.java over arrays, step for step: initializeDistances,
    findMinDistanceStation, updateDistances and the N-round driver, each proved
    against the round-by-round model of DijkstraSpec. */
module Dijkstra {
  import opened Wrappers
  import opened Graph
  import opened Decimal
  import opened DijkstraSpec

  /** What dijkstra returns: the decimal text of the arrival's final label, or
      the failure of a round that found no station to select. */
  function Answer(g: seq<seq<int>>, src: nat, dst: nat): Result<string, SolveError>
    requires Square(g) && src < |g| && dst < |g|
  {
    match Solve(g, src, dst)
    case Success(x) => Success(IntToString(x))
    case Failure(e) => Failure(e)
  }

  /** The answer once the run is known: the text of the arrival's label after N
      rounds, or the failure when some round selected nothing. */
  lemma AnswerOfRun(g: seq<seq<int>>, src: nat, dst: nat)
    requires Square(g) && src < |g| && dst < |g|
    ensures Rounds(g, src, |g|) == None ==> Answer(g, src, dst) == Failure(NoStationSelected)
    ensures Rounds(g, src, |g|).Some? ==>
      Answer(g, src, dst) == Success(IntToString(Rounds(g, src, |g|).value.dist[dst]))
  {
  }

  /** The returned text reads back, with Integer.parseInt, as the arrival's
      final label; so it names the weight of a path from the departure, and with
      non-negative weights the least such weight. */
  lemma AnswerParses(g: seq<seq<int>>, src: nat, dst: nat)
    requires Square(g) && src < |g| && dst < |g| && NoOverflow(g)
    requires Answer(g, src, dst).Success?
    ensures Solve(g, src, dst).Success?
    ensures ParseInt(Answer(g, src, dst).value) == Some(Solve(g, src, dst).value)
  {
    SolveFits(g, src, dst);
    ParseIntOfIntToString(Solve(g, src, dst).value);
  }

  /** The answer is a path weight from the departure to the arrival, the least
      one when no weight is negative. */
  lemma AnswerIsShortestPath(g: seq<seq<int>>, src: nat, dst: nat)
    requires Square(g) && src < |g| && dst < |g| && NoOverflow(g)
    requires Answer(g, src, dst).Success?
    ensures exists p :: IsPath(g, p, src, dst) && ParseInt(Answer(g, src, dst).value) == Some(PathWeight(g, p))
    ensures NonNegative(g) ==> forall p :: IsPath(g, p, src, dst) ==>
      exists w :: ParseInt(Answer(g, src, dst).value) == Some(w) && w <= PathWeight(g, p)
  {
    AnswerParses(g, src, dst);
    SolveIsPathWeight(g, src, dst);
    if NonNegative(g) {
      SolveIsShortest(g, src, dst);
    }
  }

  /** The run fails exactly when some station cannot be reached from the
      departure, whatever the arrival. */
  lemma AnswerFailsIffUnreachable(g: seq<seq<int>>, src: nat, dst: nat)
    requires Square(g) && src < |g| && dst < |g| && NoOverflow(g)
    ensures Answer(g, src, dst).Failure? <==> exists v :: 0 <= v < |g| && !Reachable(g, src, v)
  {
    SolveFailsIffUnreachable(g, src, dst);
  }

  /** Asking for the departure itself gives "0". */
  lemma AnswerSameStation(g: seq<seq<int>>, src: nat)
    requires Square(g) && src < |g| && NoOverflow(g)
    requires Answer(g, src, src).Success?
    ensures Answer(g, src, src).value == "0"
  {
    SolveSameStation(g, src);
  }

  /** A fresh array of N labels: 0 at the departure, INF everywhere else. */
  method InitializeDistances(numOfStations: nat, departureIdx: nat) returns (distances: array<int>)
    requires departureIdx < numOfStations
    ensures fresh(distances)
    ensures distances.Length == numOfStations
    ensures distances[departureIdx] == 0
    ensures forall v :: 0 <= v < numOfStations && v != departureIdx ==> distances[v] == INF
    ensures distances[..] == Initial(numOfStations, departureIdx)
  {
    distances := new int[numOfStations];
    for i := 0 to numOfStations
      invariant forall v :: 0 <= v < i ==> distances[v] == INF
    {
      distances[i] := INF;
    }
    distances[departureIdx] := 0;
  }

  /** The left-to-right scan for the unvisited station of least label below INF;
      the strict comparison makes the lowest index win ties, and -1 comes back
      when every unvisited label is INF. */
  method FindMinDistanceStation(distances: array<int>, visited: array<bool>) returns (r: int)
    requires distances.Length == visited.Length
    ensures r == SelectMin(distances[..], visited[..])
    ensures r == -1 <==> forall u :: 0 <= u < distances.Length && !visited[u] ==> distances[u] >= INF
    ensures r != -1 ==>
      && 0 <= r < distances.Length && !visited[r] && distances[r] < INF
      && (forall u :: 0 <= u < distances.Length && !visited[u] ==> distances[r] <= distances[u])
      && (forall u :: 0 <= u < r && !visited[u] ==> distances[r] < distances[u])
  {
    var minIndex, minValue := -1, INF;
    for i := 0 to distances.Length
      invariant (minIndex, minValue) == ScanMin(distances[..], visited[..], i)
    {
      if !visited[i] && distances[i] < minValue {
        minValue := distances[i];
        minIndex := i;
      }
    }
    r := minIndex;
    ScanMinFindsNearest(distances[..], visited[..], distances.Length);
  }

  /** Relaxes the unvisited neighbours of the current station in place. The
      current station is visited, so its own label does not move during the
      loop; the sums are assumed not to overflow. */
  method UpdateDistances(adjacencyMatrix: array2<int>, distances: array<int>, visited: array<bool>, currentStation: nat)
    requires adjacencyMatrix.Length0 == adjacencyMatrix.Length1 == distances.Length == visited.Length
    requires currentStation < distances.Length && visited[currentStation]
    requires forall j ::
      (0 <= j < distances.Length && adjacencyMatrix[currentStation, j] != INF && distances[currentStation] != INF)
      ==> IsInt32(distances[currentStation] + adjacencyMatrix[currentStation, j])
    modifies distances
    ensures distances[..] == Relax(Cells(adjacencyMatrix), old(distances[..]), visited[..], currentStation)
  {
    ghost var relaxed := Relax(Cells(adjacencyMatrix), distances[..], visited[..], currentStation);
    ghost var before := distances[..];
    RelaxPrefixIndex(Cells(adjacencyMatrix), before, visited[..], currentStation, distances.Length);
    for j := 0 to adjacencyMatrix.Length0
      invariant distances[currentStation] == before[currentStation]
      invariant forall i :: 0 <= i < j ==> distances[i] == relaxed[i]
      invariant forall i :: j <= i < distances.Length ==> distances[i] == before[i]
    {
      if !visited[j] && adjacencyMatrix[currentStation, j] != INF
        && distances[currentStation] != INF
        && distances[currentStation] + adjacencyMatrix[currentStation, j] < distances[j]
      {
        distances[j] := distances[currentStation] + adjacencyMatrix[currentStation, j];
      }
    }
  }

  /** One round, the body of the driver's loop: select the nearest unvisited
      station, mark it and relax its neighbours. It returns false, changing
      nothing, when the selection is -1 (where the source indexes visited[-1]
      and throws). */
  method VisitNearest(adjacencyMatrix: array2<int>, distances: array<int>, visited: array<bool>) returns (selected: bool)
    requires adjacencyMatrix.Length0 == adjacencyMatrix.Length1 == distances.Length == visited.Length
    requires SumsFit(Cells(adjacencyMatrix), Labels(distances[..], visited[..]))
    modifies distances, visited
    ensures Round(Cells(adjacencyMatrix), old(Labels(distances[..], visited[..]))) ==
      if selected then Some(Labels(distances[..], visited[..])) else None
    ensures !selected ==> distances[..] == old(distances[..]) && visited[..] == old(visited[..])
  {
    ghost var s := Labels(distances[..], visited[..]);
    var currentStation := FindMinDistanceStation(distances, visited);
    if currentStation == -1 {
      return false;
    }
    visited[currentStation] := true;
    assert visited[..] == s.visited[currentStation := true];
    UpdateDistances(adjacencyMatrix, distances, visited, currentStation);
    selected := true;
  }

  /** Round k of the run from src: the array round of VisitNearest, taken from
      the state after k rounds to the state after k + 1, or to a run that ends
      in failure. */
  method RunRound(adjacencyMatrix: array2<int>, distances: array<int>, visited: array<bool>,
                  ghost g: seq<seq<int>>, ghost src: nat, ghost k: nat) returns (selected: bool)
    requires adjacencyMatrix.Length0 == adjacencyMatrix.Length1 == distances.Length == visited.Length
    requires g == Cells(adjacencyMatrix) && src < |g| && NoOverflow(g) && k < |g|
    requires Rounds(g, src, k) == Some(Labels(distances[..], visited[..]))
    modifies distances, visited
    ensures selected ==> Rounds(g, src, k + 1) == Some(Labels(distances[..], visited[..]))
    ensures !selected ==> Rounds(g, src, |g|) == None
  {
    ghost var s := Labels(distances[..], visited[..]);
    RoundsFit(g, src, k, s);
    RoundsNext(g, src, k, s);
    selected := VisitNearest(adjacencyMatrix, distances, visited);
    if !selected {
      RoundsStayFailed(g, src, k + 1, |g|);
    }
  }

  /** N rounds of select, mark, relax; then the arrival's label as text. A round
      that selects -1 would index visited[-1] and throw: that is the failure. */
  method Dijkstra(adjacencyMatrix: array2<int>, departureIdx: nat, arrivalIdx: nat) returns (r: Result<string, SolveError>)
    requires adjacencyMatrix.Length0 == adjacencyMatrix.Length1
    requires departureIdx < adjacencyMatrix.Length0 && arrivalIdx < adjacencyMatrix.Length0
    requires NoOverflow(Cells(adjacencyMatrix))
    ensures r == Answer(Cells(adjacencyMatrix), departureIdx, arrivalIdx)
  {
    var numOfStations := adjacencyMatrix.Length0;
    ghost var g := Cells(adjacencyMatrix);
    var distances := InitializeDistances(numOfStations, departureIdx);
    var visited := new bool[numOfStations](_ => false);
    assert visited[..] == seq(numOfStations, _ => false);
    var selected := true;
    for k := 0 to numOfStations
      invariant distances.Length == numOfStations == visited.Length
      invariant Rounds(g, departureIdx, k) == Some(Labels(distances[..], visited[..]))
    {
      selected := RunRound(adjacencyMatrix, distances, visited, g, departureIdx, k);
      if !selected {
        break;
      }
    }
    AnswerOfRun(g, departureIdx, arrivalIdx);
    if selected {
      r := Success(IntToString(distances[arrivalIdx]));
    } else {
      r := Failure(NoStationSelected);
    }
  }
}
