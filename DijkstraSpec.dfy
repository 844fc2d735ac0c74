/** The solver of Dijkstra.java as a pure, round-by-round model: the labels and
    visited flags after k rounds of "select the nearest unvisited station, mark
    it, relax its unvisited neighbours", and what the final labels mean. */
module DijkstraSpec {
  import opened Wrappers
  import opened Graph

  /** The one way a run can fail: a round in which no unvisited station has a
      finite label, so the selection yields -1 and visited[-1] throws. */
  datatype SolveError = NoStationSelected

  /** The solver's state between rounds: one distance label and one visited flag
      per station. */
  datatype Labels = Labels(dist: seq<int>, visited: seq<bool>)

  /** Labels before the first round: 0 at the departure, INF elsewhere. */
  function Initial(n: nat, src: nat): seq<int>
    requires src < n
  {
    seq(n, v => if v == src then 0 else INF)
  }

  /** The number of visited flags that are set. */
  function Count(s: seq<bool>): (c: nat)
    ensures c <= |s|
  {
    if |s| == 0 then 0 else Count(s[..|s| - 1]) + (if s[|s| - 1] then 1 else 0)
  }

  lemma {:induction false} CountMark(s: seq<bool>, c: nat)
    requires c < |s| && !s[c]
    ensures Count(s[c := true]) == Count(s) + 1
  {
    var t := s[c := true];
    if c < |s| - 1 {
      CountMark(s[..|s| - 1], c);
      assert t[..|t| - 1] == s[..|s| - 1][c := true];
    } else {
      assert t[..|t| - 1] == s[..|s| - 1];
    }
  }

  lemma {:induction false} CountAllSet(s: seq<bool>)
    requires forall i :: 0 <= i < |s| ==> s[i]
    ensures Count(s) == |s|
  {
    if |s| > 0 {
      CountAllSet(s[..|s| - 1]);
    }
  }

  lemma {:induction false} CountNoneSet(n: nat)
    ensures Count(seq(n, _ => false)) == 0
  {
    if n > 0 {
      CountNoneSet(n - 1);
      assert seq(n, _ => false)[..n - 1] == seq(n - 1, _ => false);
    }
  }

  /** The (index, value) pair that the left-to-right scan of findMinDistanceStation
      holds after examining the first k stations: a station replaces the current
      choice only when it is unvisited and its label is strictly smaller. */
  function ScanMin(d: seq<int>, visited: seq<bool>, k: nat): (m: (int, int))
    requires k <= |d| == |visited|
    ensures -1 <= m.0 < k
  {
    if k == 0 then (-1, INF)
    else
      var m := ScanMin(d, visited, k - 1);
      if !visited[k - 1] && d[k - 1] < m.1 then (k - 1, d[k - 1]) else m
  }

  /** What the scan finds: -1 when no unvisited station among the first k has a
      label below INF; otherwise an unvisited station whose label is below INF
      and minimal, and strictly below that of every unvisited station before it
      (ties go to the lowest index). */
  lemma {:induction false} ScanMinFindsNearest(d: seq<int>, visited: seq<bool>, k: nat)
    requires k <= |d| == |visited|
    ensures var m := ScanMin(d, visited, k);
      && (m.0 == -1 ==> m.1 == INF && forall u :: 0 <= u < k && !visited[u] ==> d[u] >= INF)
      && (m.0 != -1 ==>
        && !visited[m.0] && m.1 == d[m.0] < INF
        && (forall u :: 0 <= u < k && !visited[u] ==> d[m.0] <= d[u])
        && (forall u :: 0 <= u < m.0 && !visited[u] ==> d[m.0] < d[u]))
  {
    if k > 0 {
      ScanMinFindsNearest(d, visited, k - 1);
    }
  }

  /** The station that a round selects, or -1. */
  function SelectMin(d: seq<int>, visited: seq<bool>): int
    requires |d| == |visited|
  {
    ScanMin(d, visited, |d|).0
  }

  /** Over 32-bit labels: the selection is -1 exactly when every unvisited label
      is INF, and otherwise the lowest-indexed unvisited station of least label. */
  lemma SelectMinSpec(d: seq<int>, visited: seq<bool>)
    requires |d| == |visited|
    requires forall i :: 0 <= i < |d| ==> d[i] <= INF
    ensures var c := SelectMin(d, visited);
      && (c == -1 <==> forall u :: 0 <= u < |d| && !visited[u] ==> d[u] == INF)
      && (c != -1 ==>
        && 0 <= c < |d| && !visited[c] && d[c] < INF
        && (forall u :: 0 <= u < |d| && !visited[u] ==> d[c] <= d[u])
        && (forall u :: 0 <= u < c && !visited[u] ==> d[c] < d[u]))
  {
    ScanMinFindsNearest(d, visited, |d|);
  }

  /** The label of station j after relaxing the edges of cur (updateDistances):
      it drops to d[cur] + w(cur, j) when that is smaller, and only when j is
      unvisited, the edge exists and d[cur] is finite. */
  function RelaxedLabel(g: seq<seq<int>>, d: seq<int>, visited: seq<bool>, cur: nat, j: nat): int
    requires Square(g) && |d| == |g| && |visited| == |g| && cur < |g| && j < |g|
  {
    if !visited[j] && g[cur][j] != INF && d[cur] != INF && d[cur] + g[cur][j] < d[j]
    then d[cur] + g[cur][j] else d[j]
  }

  /** The relaxed labels of stations 0 .. n - 1. */
  function RelaxPrefix(g: seq<seq<int>>, d: seq<int>, visited: seq<bool>, cur: nat, n: nat): (r: seq<int>)
    requires Square(g) && |d| == |g| && |visited| == |g| && cur < |g| && n <= |g|
    ensures |r| == n
  {
    if n == 0 then [] else RelaxPrefix(g, d, visited, cur, n - 1) + [RelaxedLabel(g, d, visited, cur, n - 1)]
  }

  /** All labels after relaxing the edges of cur. */
  function Relax(g: seq<seq<int>>, d: seq<int>, visited: seq<bool>, cur: nat): (d': seq<int>)
    requires Square(g) && |d| == |g| && |visited| == |g| && cur < |g|
    ensures |d'| == |d|
  {
    RelaxPrefix(g, d, visited, cur, |d|)
  }

  lemma {:induction false} RelaxPrefixIndex(g: seq<seq<int>>, d: seq<int>, visited: seq<bool>, cur: nat, n: nat)
    requires Square(g) && |d| == |g| && |visited| == |g| && cur < |g| && n <= |g|
    ensures forall j :: 0 <= j < n ==> RelaxPrefix(g, d, visited, cur, n)[j] == RelaxedLabel(g, d, visited, cur, j)
  {
    if n > 0 {
      RelaxPrefixIndex(g, d, visited, cur, n - 1);
    }
  }

  lemma RelaxSpec(g: seq<seq<int>>, d: seq<int>, visited: seq<bool>, cur: nat)
    requires Square(g) && |d| == |g| && |visited| == |g| && cur < |g|
    ensures var d' := Relax(g, d, visited, cur);
      // no label grows
      && (forall j :: 0 <= j < |d| ==> d'[j] <= d[j])
      // visited stations, stations without an edge from cur, and everything when
      // cur's own label is INF keep their labels
      && (forall j :: 0 <= j < |d| && (visited[j] || g[cur][j] == INF || d[cur] == INF) ==> d'[j] == d[j])
      // a changed label is one edge above cur's label
      && (forall j :: 0 <= j < |d| ==> d'[j] == d[j] || d'[j] == d[cur] + g[cur][j])
      // afterwards no unvisited neighbour of cur can be improved through cur
      && (d[cur] != INF ==>
            forall j :: 0 <= j < |d| && !visited[j] && g[cur][j] != INF ==> d'[j] <= d[cur] + g[cur][j])
  {
    RelaxPrefixIndex(g, d, visited, cur, |d|);
  }

  /** The successor of s when a round selects c: c is marked, then relaxed. */
  function Next(g: seq<seq<int>>, s: Labels, c: nat): Labels
    requires Square(g) && |s.dist| == |g| && |s.visited| == |g| && c < |g|
  {
    Labels(Relax(g, s.dist, s.visited[c := true], c), s.visited[c := true])
  }

  /** One round from s: select the nearest unvisited station and relax its
      edges, or None when no station can be selected. */
  function Round(g: seq<seq<int>>, s: Labels): (r: Option<Labels>)
    requires Square(g) && |s.dist| == |g| && |s.visited| == |g|
    ensures r.Some? ==> |r.value.dist| == |g| && |r.value.visited| == |g|
  {
    var c := SelectMin(s.dist, s.visited);
    if c == -1 then None else Some(Next(g, s, c))
  }

  /** The state after k rounds from departure src, or None once a round has
      found no station to select. */
  function Rounds(g: seq<seq<int>>, src: nat, k: nat): (r: Option<Labels>)
    requires Square(g) && src < |g|
    ensures r.Some? ==> |r.value.dist| == |g| && |r.value.visited| == |g|
  {
    if k == 0 then Some(Labels(Initial(|g|, src), seq(|g|, _ => false)))
    else
      match Rounds(g, src, k - 1)
      case None => None
      case Some(s) => Round(g, s)
  }

  /** The solver's answer: the label of dst after |g| rounds, or the failure. */
  function Solve(g: seq<seq<int>>, src: nat, dst: nat): Result<int, SolveError>
    requires Square(g) && src < |g| && dst < |g|
  {
    match Rounds(g, src, |g|)
    case None => Failure(NoStationSelected)
    case Some(s) => Success(s.dist[dst])
  }

  // ---------------------------------------------------------------------------
  // The invariant kept by every round, for any weights small enough not to
  // overflow.

  ghost predicate Shaped(g: seq<seq<int>>, s: Labels) {
    |s.dist| == |g| && |s.visited| == |g|
  }

  /** Labels stay far enough from the 32-bit limits: after k rounds a finite
      label is at most k / |g| of INF - 1 in size. */
  ghost predicate Bounded(g: seq<seq<int>>, s: Labels, k: nat)
    requires Shaped(g, s)
  {
    forall v :: 0 <= v < |g| ==> s.dist[v] == INF || |g| * Abs(s.dist[v]) <= k * (INF - 1)
  }

  ghost predicate VisitedFinite(g: seq<seq<int>>, s: Labels)
    requires Shaped(g, s)
  {
    forall v :: 0 <= v < |g| && s.visited[v] ==> s.dist[v] != INF
  }

  /** Every finite label is the weight of some path from the departure. */
  ghost predicate Sound(g: seq<seq<int>>, src: nat, s: Labels)
    requires Square(g) && Shaped(g, s)
  {
    forall v :: 0 <= v < |g| && s.dist[v] != INF ==>
      exists p :: IsPath(g, p, src, v) && PathWeight(g, p) == s.dist[v]
  }

  /** Every neighbour of a visited station has a finite label. */
  ghost predicate Closed(g: seq<seq<int>>, s: Labels)
    requires Square(g) && Shaped(g, s)
  {
    forall u, v :: 0 <= u < |g| && 0 <= v < |g| && s.visited[u] && g[u][v] != INF ==> s.dist[v] != INF
  }

  ghost predicate Inv(g: seq<seq<int>>, src: nat, s: Labels, k: nat)
    requires Square(g) && src < |g|
  {
    && Shaped(g, s) && Count(s.visited) == k
    && s.dist[src] == 0
    && (k == 0 ==> forall v :: 0 <= v < |g| && v != src ==> s.dist[v] == INF)
    && (k > 0 ==> s.visited[src])
    && Bounded(g, s, k)
    && VisitedFinite(g, s)
    && Sound(g, src, s)
    && Closed(g, s)
  }

  /** The one piece of arithmetic behind "no overflow": adding an edge weight to
      a label of round k gives a label within the bound of round k + 1. */
  lemma SumBound(n: nat, k: nat, a: int, w: int)
    requires k < n
    requires n * Abs(a) <= k * (INF - 1)
    requires Abs(w) <= MaxWeight(n)
    ensures n * Abs(a + w) <= (k + 1) * (INF - 1)
    ensures Abs(a + w) < INF
  {
    MaxWeightBound(n, Abs(w));
    MulMono(n, Abs(a + w), Abs(a) + Abs(w));
    assert n * (Abs(a) + Abs(w)) == n * Abs(a) + n * Abs(w);
    assert (k + 1) * (INF - 1) == k * (INF - 1) + (INF - 1);
    LabelBound(n, k + 1, a + w);
  }

  lemma LabelBound(n: nat, k: nat, a: int)
    requires 0 < n && k <= n
    requires n * Abs(a) <= k * (INF - 1)
    ensures Abs(a) < INF
  {
    assert k * (INF - 1) <= n * (INF - 1) by { MulMono(INF - 1, k, n); }
    if Abs(a) >= INF {
      MulMono(n, INF - 1, Abs(a) - 1);
    }
  }

  lemma StepSound(g: seq<seq<int>>, src: nat, s: Labels, c: nat)
    requires Square(g) && Shaped(g, s) && c < |g| && Sound(g, src, s)
    ensures Sound(g, src, Next(g, s, c))
  {
    var d' := Next(g, s, c).dist;
    RelaxSpec(g, s.dist, s.visited[c := true], c);
    forall v | 0 <= v < |g| && d'[v] != INF
      ensures exists p :: IsPath(g, p, src, v) && PathWeight(g, p) == d'[v]
    {
      if d'[v] != s.dist[v] {
        var p :| IsPath(g, p, src, c) && PathWeight(g, p) == s.dist[c];
        PathExtend(g, p, src, c, v);
      }
    }
  }

  lemma StepBounded(g: seq<seq<int>>, s: Labels, k: nat, c: nat)
    requires Square(g) && Shaped(g, s) && NoOverflow(g) && k < |g| && c < |g|
    requires Bounded(g, s, k) && s.dist[c] != INF
    ensures forall j :: 0 <= j < |g| && g[c][j] != INF ==> Abs(s.dist[c] + g[c][j]) < INF
    ensures Bounded(g, Next(g, s, c), k + 1)
  {
    var n := |g|;
    var d' := Next(g, s, c).dist;
    RelaxSpec(g, s.dist, s.visited[c := true], c);
    forall j | 0 <= j < n && g[c][j] != INF
      ensures n * Abs(s.dist[c] + g[c][j]) <= (k + 1) * (INF - 1)
      ensures Abs(s.dist[c] + g[c][j]) < INF
    {
      SumBound(n, k, s.dist[c], g[c][j]);
    }
    MulMono(INF - 1, k, k + 1);
    forall v | 0 <= v < n
      ensures d'[v] == INF || n * Abs(d'[v]) <= (k + 1) * (INF - 1)
    {
    }
  }

  lemma StepClosed(g: seq<seq<int>>, s: Labels, c: nat)
    requires Square(g) && Shaped(g, s) && c < |g| && !s.visited[c] && s.dist[c] != INF
    requires VisitedFinite(g, s) && Closed(g, s)
    requires forall j :: 0 <= j < |g| && g[c][j] != INF ==> Abs(s.dist[c] + g[c][j]) < INF
    ensures VisitedFinite(g, Next(g, s, c)) && Closed(g, Next(g, s, c))
  {
    RelaxSpec(g, s.dist, s.visited[c := true], c);
  }

  lemma StepInv(g: seq<seq<int>>, src: nat, s: Labels, k: nat, c: int)
    requires Square(g) && src < |g| && NoOverflow(g)
    requires Inv(g, src, s, k) && k < |g|
    requires c == SelectMin(s.dist, s.visited) && c != -1
    ensures 0 <= c < |g| && !s.visited[c] && s.dist[c] != INF
    ensures forall j :: 0 <= j < |g| && g[c][j] != INF ==> Abs(s.dist[c] + g[c][j]) < INF
    ensures Inv(g, src, Next(g, s, c), k + 1)
  {
    ScanMinFindsNearest(s.dist, s.visited, |g|);
    RelaxSpec(g, s.dist, s.visited[c := true], c);
    StepBounded(g, s, k, c);
    StepSound(g, src, s, c);
    StepClosed(g, s, c);
    CountMark(s.visited, c);
    if k == 0 {
      assert c == src;
    }
  }

  lemma InitialInv(g: seq<seq<int>>, src: nat)
    requires Square(g) && src < |g|
    ensures Rounds(g, src, 0).Some? && Inv(g, src, Rounds(g, src, 0).value, 0)
  {
    var s := Rounds(g, src, 0).value;
    CountNoneSet(|g|);
    assert IsPath(g, [src], src, src) && PathWeight(g, [src]) == 0;
    assert Sound(g, src, s);
  }

  /** One round, unfolded: the state after k + 1 rounds is the successor of the
      state after k rounds under the station that round k selects. */
  lemma RoundsUnfold(g: seq<seq<int>>, src: nat, k: nat)
    requires Square(g) && src < |g| && Rounds(g, src, k + 1).Some?
    ensures Rounds(g, src, k).Some?
    ensures SelectMin(Rounds(g, src, k).value.dist, Rounds(g, src, k).value.visited) != -1
    ensures Rounds(g, src, k + 1).value ==
      Next(g, Rounds(g, src, k).value, SelectMin(Rounds(g, src, k).value.dist, Rounds(g, src, k).value.visited))
  {
  }

  lemma RoundInv(g: seq<seq<int>>, src: nat, k: nat)
    requires Square(g) && src < |g| && NoOverflow(g) && 0 < k <= |g|
    requires Rounds(g, src, k - 1).Some? ==> Inv(g, src, Rounds(g, src, k - 1).value, k - 1)
    ensures Rounds(g, src, k).Some? ==> Inv(g, src, Rounds(g, src, k).value, k)
  {
    if Rounds(g, src, k).Some? {
      RoundsUnfold(g, src, k - 1);
      var s := Rounds(g, src, k - 1).value;
      StepInv(g, src, s, k - 1, SelectMin(s.dist, s.visited));
    }
  }

  /** The invariant holds after every round that the run reaches. */
  lemma {:induction false} RoundsInv(g: seq<seq<int>>, src: nat, k: nat)
    requires Square(g) && src < |g| && NoOverflow(g) && k <= |g|
    ensures Rounds(g, src, k).Some? ==> Inv(g, src, Rounds(g, src, k).value, k)
  {
    if k == 0 {
      InitialInv(g, src);
    } else {
      RoundsInv(g, src, k - 1);
      RoundInv(g, src, k);
    }
  }

  // ---------------------------------------------------------------------------
  // With non-negative weights, visited labels are shortest-path weights.

  ghost predicate Settled(g: seq<seq<int>>, src: nat, s: Labels)
    requires Square(g) && Shaped(g, s)
  {
    // a visited station's label is at most the weight of any path to it
    && (forall u, p :: 0 <= u < |g| && s.visited[u] && IsPath(g, p, src, u) ==> s.dist[u] <= PathWeight(g, p))
    // an unvisited neighbour's label is at most one edge above a visited label
    && (forall u, v :: 0 <= u < |g| && 0 <= v < |g| && s.visited[u] && !s.visited[v] && g[u][v] != INF ==>
          s.dist[v] <= s.dist[u] + g[u][v])
  }

  /** The first station of p that is not yet visited. */
  lemma FirstUnvisited(g: seq<seq<int>>, p: seq<int>, visited: seq<bool>) returns (i: nat)
    requires OnGraph(g, p) && |visited| == |g| && |p| > 0 && !visited[p[|p| - 1]]
    ensures i < |p| && !visited[p[i]]
    ensures forall k :: 0 <= k < i ==> visited[p[k]]
  {
    i := 0;
    while visited[p[i]]
      invariant i < |p|
      invariant forall k :: 0 <= k < i ==> visited[p[k]]
      decreases |p| - i
    {
      i := i + 1;
    }
  }

  /** Along a path to an unvisited station c whose label is minimal among the
      unvisited, the first unvisited station x already has a label no larger
      than the path's weight, hence so does c. */
  lemma PathThroughFrontier(g: seq<seq<int>>, src: nat, s: Labels, c: nat, p: seq<int>)
    requires Square(g) && Shaped(g, s) && NonNegative(g) && src < |g| && c < |g|
    requires s.dist[src] == 0 && !s.visited[c] && Settled(g, src, s)
    requires forall v :: 0 <= v < |g| && !s.visited[v] ==> s.dist[c] <= s.dist[v]
    requires IsPath(g, p, src, c)
    ensures s.dist[c] <= PathWeight(g, p)
  {
    var i := FirstUnvisited(g, p, s.visited);
    if i == 0 {
      NonNegativeWeight(g, p, src, c);
    } else {
      FrontierEdge(g, src, s, p, c, i);
      PrefixWeighsLess(g, p, src, c, i);
    }
  }

  /** The edge by which a path leaves the visited stations gives the station it
      enters a label no larger than the weight of the path so far. */
  lemma FrontierEdge(g: seq<seq<int>>, src: nat, s: Labels, p: seq<int>, c: nat, i: nat)
    requires Square(g) && Shaped(g, s) && IsPath(g, p, src, c) && 0 < i < |p|
    requires s.visited[p[i - 1]] && !s.visited[p[i]] && Settled(g, src, s)
    ensures s.dist[p[i]] <= PathWeight(g, p[..i + 1])
  {
    PrefixStep(g, p, src, c, i);
    var y, x := p[i - 1], p[i];
    assert s.dist[y] <= PathWeight(g, p[..i]);
    assert s.dist[x] <= s.dist[y] + g[y][x];
  }

  /** The heart of Dijkstra's argument: the station a round selects has a label
      no larger than the weight of any path to it. */
  lemma SelectedIsShortest(g: seq<seq<int>>, src: nat, s: Labels, k: nat, c: int)
    requires Square(g) && src < |g| && NonNegative(g)
    requires Inv(g, src, s, k) && Settled(g, src, s)
    requires c == SelectMin(s.dist, s.visited) && c != -1
    ensures 0 <= c < |g|
    ensures forall p :: IsPath(g, p, src, c) ==> s.dist[c] <= PathWeight(g, p)
  {
    ScanMinFindsNearest(s.dist, s.visited, |g|);
    forall p | IsPath(g, p, src, c)
      ensures s.dist[c] <= PathWeight(g, p)
    {
      PathThroughFrontier(g, src, s, c, p);
    }
  }

  lemma StepSettled(g: seq<seq<int>>, src: nat, s: Labels, k: nat, c: int)
    requires Square(g) && src < |g| && NonNegative(g)
    requires Inv(g, src, s, k) && Settled(g, src, s)
    requires c == SelectMin(s.dist, s.visited) && c != -1
    ensures 0 <= c < |g|
    ensures Settled(g, src, Next(g, s, c))
  {
    ScanMinFindsNearest(s.dist, s.visited, |g|);
    SelectedIsShortest(g, src, s, k, c);
    StepSettledPaths(g, src, s, c);
    StepSettledEdges(g, src, s, c);
  }

  /** Marking c keeps every visited label a lower bound on path weights. */
  lemma StepSettledPaths(g: seq<seq<int>>, src: nat, s: Labels, c: nat)
    requires Square(g) && Shaped(g, s) && c < |g| && !s.visited[c] && Settled(g, src, s)
    requires forall p :: IsPath(g, p, src, c) ==> s.dist[c] <= PathWeight(g, p)
    ensures forall u, p :: 0 <= u < |g| && Next(g, s, c).visited[u] && IsPath(g, p, src, u) ==>
      Next(g, s, c).dist[u] <= PathWeight(g, p)
  {
    var t := Next(g, s, c);
    RelaxSpec(g, s.dist, t.visited, c);
    forall u, p | 0 <= u < |g| && t.visited[u] && IsPath(g, p, src, u)
      ensures t.dist[u] <= PathWeight(g, p)
    {
      if u != c {
        assert s.visited[u] && t.dist[u] == s.dist[u];
      }
    }
  }

  /** Relaxing c's edges keeps every unvisited neighbour within one edge of a
      visited label. */
  lemma StepSettledEdges(g: seq<seq<int>>, src: nat, s: Labels, c: nat)
    requires Square(g) && Shaped(g, s) && c < |g| && !s.visited[c] && Settled(g, src, s)
    requires s.dist[c] != INF
    ensures forall u, v ::
      (0 <= u < |g| && 0 <= v < |g| && Next(g, s, c).visited[u] && !Next(g, s, c).visited[v] && g[u][v] != INF)
      ==> Next(g, s, c).dist[v] <= Next(g, s, c).dist[u] + g[u][v]
  {
    var t := Next(g, s, c);
    RelaxSpec(g, s.dist, t.visited, c);
    forall u, v | 0 <= u < |g| && 0 <= v < |g| && t.visited[u] && !t.visited[v] && g[u][v] != INF
      ensures t.dist[v] <= t.dist[u] + g[u][v]
    {
      if u != c {
        assert s.visited[u] && !s.visited[v] && t.dist[u] == s.dist[u];
        assert s.dist[v] <= s.dist[u] + g[u][v];
      }
    }
  }

  lemma RoundSettled(g: seq<seq<int>>, src: nat, k: nat)
    requires Square(g) && src < |g| && NoOverflow(g) && NonNegative(g) && k < |g|
    requires Rounds(g, src, k).Some? ==> Settled(g, src, Rounds(g, src, k).value)
    ensures Rounds(g, src, k + 1).Some? ==> Settled(g, src, Rounds(g, src, k + 1).value)
  {
    if Rounds(g, src, k).Some? {
      SettledFrom(g, src, k, Rounds(g, src, k).value);
    }
  }

  lemma SettledFrom(g: seq<seq<int>>, src: nat, k: nat, s: Labels)
    requires Square(g) && src < |g| && NoOverflow(g) && NonNegative(g) && k < |g|
    requires Rounds(g, src, k) == Some(s) && Settled(g, src, s)
    ensures Rounds(g, src, k + 1).Some? ==> Settled(g, src, Rounds(g, src, k + 1).value)
  {
    RoundsNext(g, src, k, s);
    var c := SelectMin(s.dist, s.visited);
    if c != -1 {
      RoundsInv(g, src, k);
      StepSettled(g, src, s, k, c);
    }
  }

  lemma InitialSettled(g: seq<seq<int>>, src: nat)
    requires Square(g) && src < |g|
    ensures Rounds(g, src, 0).Some? && Settled(g, src, Rounds(g, src, 0).value)
  {
  }

  /** With non-negative weights, every visited label is a shortest-path weight
      bound after every round. */
  lemma {:induction false} RoundsSettled(g: seq<seq<int>>, src: nat, k: nat)
    requires Square(g) && src < |g| && NoOverflow(g) && NonNegative(g) && k <= |g|
    ensures Rounds(g, src, k).Some? ==> Settled(g, src, Rounds(g, src, k).value)
  {
    if k == 0 {
      InitialSettled(g, src);
    } else {
      RoundsSettled(g, src, k - 1);
      RoundSettled(g, src, k - 1);
    }
  }

  // ---------------------------------------------------------------------------
  // Round by round: progress, monotone labels, failure.

  /** The round after a successful round k is one Round step from its state. */
  lemma RoundsNext(g: seq<seq<int>>, src: nat, k: nat, s: Labels)
    requires Square(g) && src < |g| && Rounds(g, src, k) == Some(s)
    ensures Rounds(g, src, k + 1) == Round(g, s)
  {
  }

  /** Each successful round marks exactly one station that was unvisited, lowers
      no label, and leaves the labels of visited stations as they were. */
  lemma RoundProgress(g: seq<seq<int>>, src: nat, s: Labels, t: Labels)
    requires Square(g) && Shaped(g, s) && Round(g, s) == Some(t)
    ensures exists c :: 0 <= c < |g| && !s.visited[c] && t.visited == s.visited[c := true]
    ensures forall j :: 0 <= j < |g| ==> t.dist[j] <= s.dist[j]
    ensures forall u :: 0 <= u < |g| && s.visited[u] ==> t.visited[u] && t.dist[u] == s.dist[u]
  {
    var c := SelectMin(s.dist, s.visited);
    ScanMinFindsNearest(s.dist, s.visited, |g|);
    RelaxSpec(g, s.dist, s.visited[c := true], c);
  }

  /** Settled labels are final: a station visited after round k keeps its label
      in every later round. */
  lemma {:induction false} VisitedLabelsFinal(g: seq<seq<int>>, src: nat, k: nat, m: nat, s: Labels, t: Labels)
    requires Square(g) && src < |g| && k <= m
    requires Rounds(g, src, k) == Some(s) && Rounds(g, src, m) == Some(t)
    ensures forall u :: 0 <= u < |g| && s.visited[u] ==> t.visited[u] && t.dist[u] == s.dist[u]
    decreases m - k
  {
    if k < m {
      var s' := LaterRound(g, src, k, m, s);
      RoundProgress(g, src, s, s');
      VisitedLabelsFinal(g, src, k + 1, m, s', t);
    }
  }

  /** A round between two successful rounds was successful, and so was the one
      right after it. */
  lemma LaterRound(g: seq<seq<int>>, src: nat, k: nat, m: nat, s: Labels) returns (s': Labels)
    requires Square(g) && src < |g| && k < m && Rounds(g, src, k) == Some(s) && Rounds(g, src, m).Some?
    ensures Round(g, s) == Some(s') && Rounds(g, src, k + 1) == Some(s')
  {
    if Rounds(g, src, k + 1).None? {
      RoundsStayFailed(g, src, k + 1, m);
    }
    RoundsNext(g, src, k, s);
    s' := Rounds(g, src, k + 1).value;
  }

  /** Once a round fails, every later count of rounds fails too. */
  lemma {:induction false} RoundsStayFailed(g: seq<seq<int>>, src: nat, k: nat, m: nat)
    requires Square(g) && src < |g| && k <= m && Rounds(g, src, k).None?
    ensures Rounds(g, src, m).None?
    decreases m - k
  {
    if k < m {
      RoundsStayFailed(g, src, k + 1, m);
    }
  }

  /** A failed run has a last good round whose selection was -1. */
  lemma {:induction false} FirstFailure(g: seq<seq<int>>, src: nat, k: nat) returns (j: nat, s: Labels)
    requires Square(g) && src < |g| && Rounds(g, src, k).None?
    ensures j < k && Rounds(g, src, j) == Some(s) && SelectMin(s.dist, s.visited) == -1
  {
    match Rounds(g, src, k - 1)
    case None =>
      j, s := FirstFailure(g, src, k - 1);
    case Some(s0) =>
      j, s := k - 1, s0;
  }

  lemma {:induction false} CountFull(s: seq<bool>)
    requires Count(s) == |s|
    ensures forall i :: 0 <= i < |s| ==> s[i]
  {
    if |s| > 0 {
      var s' := s[..|s| - 1];
      CountFull(s');
      assert forall i :: 0 <= i < |s'| ==> s[i] == s'[i];
    }
  }

  /** Every label of a reachable state is INF or a 32-bit value below INF. */
  lemma LabelsBelowInf(g: seq<seq<int>>, src: nat, s: Labels, k: nat)
    requires Square(g) && src < |g| && 0 < |g| && k <= |g| && Inv(g, src, s, k)
    ensures forall v :: 0 <= v < |g| ==> s.dist[v] == INF || Abs(s.dist[v]) < INF
  {
    forall v | 0 <= v < |g| && s.dist[v] != INF
      ensures Abs(s.dist[v]) < INF
    {
      LabelBound(|g|, k, s.dist[v]);
    }
  }

  /** No path crosses from the visited stations to an unvisited station when
      every unvisited label is INF and the visited ones are closed under edges. */
  lemma NoPathOut(g: seq<seq<int>>, src: nat, s: Labels, v: nat, p: seq<int>)
    requires Square(g) && Shaped(g, s) && src < |g| && v < |g| && Closed(g, s)
    requires s.visited[src] && !s.visited[v]
    requires forall u :: 0 <= u < |g| && !s.visited[u] ==> s.dist[u] == INF
    ensures !IsPath(g, p, src, v)
  {
    if IsPath(g, p, src, v) {
      var i := FirstUnvisited(g, p, s.visited);
      assert i > 0;
      PrefixStep(g, p, src, v, i);
    }
  }

  /** A round that selects -1 before all stations are visited shows a station
      the departure cannot reach. */
  lemma StuckUnreachable(g: seq<seq<int>>, src: nat, j: nat, s: Labels) returns (v: nat)
    requires Square(g) && src < |g| && NoOverflow(g) && j < |g|
    requires Rounds(g, src, j) == Some(s) && SelectMin(s.dist, s.visited) == -1
    ensures v < |g| && !Reachable(g, src, v)
  {
    RoundsInv(g, src, j);
    LabelsBelowInf(g, src, s, j);
    SelectMinSpec(s.dist, s.visited);
    if forall u :: 0 <= u < |g| ==> s.visited[u] {
      CountAllSet(s.visited);
    }
    var u :| 0 <= u < |g| && !s.visited[u];
    v := u;
    forall p | true
      ensures !IsPath(g, p, src, v)
    {
      NoPathOut(g, src, s, v, p);
    }
  }

  /** After |g| successful rounds every station is visited, so every label is
      finite and hence the weight of a path. */
  lemma CompleteRun(g: seq<seq<int>>, src: nat, s: Labels)
    requires Square(g) && src < |g| && NoOverflow(g) && Rounds(g, src, |g|) == Some(s)
    ensures forall v :: 0 <= v < |g| ==> s.visited[v] && s.dist[v] != INF
  {
    RoundsInv(g, src, |g|);
    CountFull(s.visited);
  }

  // ---------------------------------------------------------------------------
  // What the answer means.

  /** The run fails exactly when some station cannot be reached from the
      departure, whichever the arrival. */
  lemma SolveFailsIffUnreachable(g: seq<seq<int>>, src: nat, dst: nat)
    requires Square(g) && src < |g| && dst < |g| && NoOverflow(g)
    ensures Solve(g, src, dst).Failure? <==> exists v :: 0 <= v < |g| && !Reachable(g, src, v)
  {
    match Rounds(g, src, |g|)
    case None =>
      var j, s := FirstFailure(g, src, |g|);
      var v := StuckUnreachable(g, src, j, s);
    case Some(s) =>
      CompleteRun(g, src, s);
      RoundsInv(g, src, |g|);
      forall v | 0 <= v < |g|
        ensures Reachable(g, src, v)
      {
        assert s.dist[v] != INF;
      }
  }

  /** A successful answer is the weight of some path from departure to arrival. */
  lemma SolveIsPathWeight(g: seq<seq<int>>, src: nat, dst: nat)
    requires Square(g) && src < |g| && dst < |g| && NoOverflow(g)
    requires Solve(g, src, dst).Success?
    ensures exists p :: IsPath(g, p, src, dst) && PathWeight(g, p) == Solve(g, src, dst).value
  {
    var s := Rounds(g, src, |g|).value;
    CompleteRun(g, src, s);
    RoundsInv(g, src, |g|);
    assert s.dist[dst] != INF;
  }

  /** With non-negative weights a successful answer is no larger than the weight
      of any path from departure to arrival: it is the shortest distance. */
  lemma SolveIsShortest(g: seq<seq<int>>, src: nat, dst: nat)
    requires Square(g) && src < |g| && dst < |g| && NoOverflow(g) && NonNegative(g)
    requires Solve(g, src, dst).Success?
    ensures forall p :: IsPath(g, p, src, dst) ==> Solve(g, src, dst).value <= PathWeight(g, p)
  {
    var s := Rounds(g, src, |g|).value;
    CompleteRun(g, src, s);
    RoundsSettled(g, src, |g|);
    assert s.visited[dst];
  }

  /** From a station to itself the answer is 0, with any weights. */
  lemma SolveSameStation(g: seq<seq<int>>, src: nat)
    requires Square(g) && src < |g| && NoOverflow(g)
    requires Solve(g, src, src).Success?
    ensures Solve(g, src, src).value == 0
  {
    RoundsInv(g, src, |g|);
  }

  /** The first round selects the departure and relaxes its direct edges. */
  lemma FirstRound(g: seq<seq<int>>, src: nat, s1: Labels)
    requires Square(g) && src < |g| && Rounds(g, src, 1) == Some(s1)
    ensures s1.visited[src]
    ensures forall v :: 0 <= v < |g| && v != src && g[src][v] != INF ==> s1.dist[v] <= g[src][v]
  {
    var s0 := Rounds(g, src, 0).value;
    RoundsNext(g, src, 0, s0);
    var c := SelectMin(s0.dist, s0.visited);
    ScanMinFindsNearest(s0.dist, s0.visited, |g|);
    assert c == src;
    RelaxSpec(g, s0.dist, s0.visited[c := true], c);
  }

  /** A successful answer never exceeds the weight of a direct edge, with any
      weights: the departure is selected first and labels only go down. */
  lemma SolveAtMostEdge(g: seq<seq<int>>, src: nat, dst: nat)
    requires Square(g) && src < |g| && dst < |g| && src != dst
    requires Solve(g, src, dst).Success? && g[src][dst] != INF
    ensures Solve(g, src, dst).value <= g[src][dst]
  {
    var s0 := Rounds(g, src, 0).value;
    var s1 := LaterRound(g, src, 0, |g|, s0);
    FirstRound(g, src, s1);
    var t := Rounds(g, src, |g|).value;
    FinalLabelsBelow(g, src, 1, |g|, s1, t);
  }

  /** Labels never go up from one round to a later one. */
  lemma {:induction false} FinalLabelsBelow(g: seq<seq<int>>, src: nat, k: nat, m: nat, s: Labels, t: Labels)
    requires Square(g) && src < |g| && k <= m
    requires Rounds(g, src, k) == Some(s) && Rounds(g, src, m) == Some(t)
    ensures forall v :: 0 <= v < |g| ==> t.dist[v] <= s.dist[v]
    decreases m - k
  {
    if k < m {
      var s' := LaterRound(g, src, k, m, s);
      RoundProgress(g, src, s, s');
      FinalLabelsBelow(g, src, k + 1, m, s', t);
    }
  }

  /** In a symmetric table with non-negative weights the answer does not depend
      on the direction of travel. */
  lemma SolveSymmetric(g: seq<seq<int>>, a: nat, b: nat)
    requires Square(g) && a < |g| && b < |g| && NoOverflow(g) && NonNegative(g) && Symmetric(g)
    ensures Solve(g, a, b) == Solve(g, b, a)
  {
    SolveFailsIffUnreachable(g, a, b);
    SolveFailsIffUnreachable(g, b, a);
    if forall v :: 0 <= v < |g| ==> Reachable(g, a, v) {
      ReachableFromEither(g, a, b);
    }
    if forall v :: 0 <= v < |g| ==> Reachable(g, b, v) {
      ReachableFromEither(g, b, a);
    }
    if Solve(g, a, b).Success? {
      ReverseNoShorter(g, a, b);
      ReverseNoShorter(g, b, a);
    }
  }

  /** With non-negative weights, adding edges never raises an answer: a run
      that succeeds on g succeeds on every extension of g, with a label no
      greater. */
  lemma SolveMonotone(g: seq<seq<int>>, g2: seq<seq<int>>, a: nat, b: nat)
    requires Square(g) && Square(g2) && Extends(g, g2) && a < |g| && b < |g|
    requires NoOverflow(g) && NoOverflow(g2) && NonNegative(g2)
    requires Solve(g, a, b).Success?
    ensures Solve(g2, a, b).Success?
    ensures Solve(g2, a, b).value <= Solve(g, a, b).value
  {
    SolveFailsIffUnreachable(g, a, b);
    SolveFailsIffUnreachable(g2, a, b);
    forall v | 0 <= v < |g2|
      ensures Reachable(g2, a, v)
    {
      assert Reachable(g, a, v);
      var p :| IsPath(g, p, a, v);
      PathInExtension(g, g2, p, a, v);
    }
    SolveIsPathWeight(g, a, b);
    var p :| IsPath(g, p, a, b) && PathWeight(g, p) == Solve(g, a, b).value;
    PathInExtension(g, g2, p, a, b);
    SolveIsShortest(g2, a, b);
  }

  /** Reading the answer's path backwards bounds the answer the other way. */
  lemma ReverseNoShorter(g: seq<seq<int>>, a: nat, b: nat)
    requires Square(g) && a < |g| && b < |g| && NoOverflow(g) && NonNegative(g) && Symmetric(g)
    requires Solve(g, a, b).Success? && Solve(g, b, a).Success?
    ensures Solve(g, b, a).value <= Solve(g, a, b).value
  {
    SolveIsPathWeight(g, a, b);
    SolveIsShortest(g, b, a);
    var p :| IsPath(g, p, a, b) && PathWeight(g, p) == Solve(g, a, b).value;
    ReversePath(g, p, a, b);
  }

  /** In a symmetric table, if a reaches every station then so does any b. */
  lemma ReachableFromEither(g: seq<seq<int>>, a: nat, b: nat)
    requires Square(g) && a < |g| && b < |g| && Symmetric(g)
    requires forall v :: 0 <= v < |g| ==> Reachable(g, a, v)
    ensures forall v :: 0 <= v < |g| ==> Reachable(g, b, v)
  {
    assert Reachable(g, a, b);
    var p :| IsPath(g, p, a, b);
    ReversePath(g, p, a, b);
    forall v | 0 <= v < |g|
      ensures Reachable(g, b, v)
    {
      assert Reachable(g, a, v);
      var q :| IsPath(g, q, a, v);
      PathConcat(g, Reverse(p), q, b, a, v);
    }
  }

  /** A successful answer is a 32-bit value below INF in size. */
  lemma SolveFits(g: seq<seq<int>>, src: nat, dst: nat)
    requires Square(g) && src < |g| && dst < |g| && NoOverflow(g)
    requires Solve(g, src, dst).Success?
    ensures Abs(Solve(g, src, dst).value) < INF
  {
    var s := Rounds(g, src, |g|).value;
    CompleteRun(g, src, s);
    RoundsInv(g, src, |g|);
    LabelsBelowInf(g, src, s, |g|);
  }

  /** Every relaxation sum from state s stays strictly between -INF and INF,
      so the 32-bit additions of a round from s cannot overflow. */
  ghost predicate SumsFit(g: seq<seq<int>>, s: Labels)
    requires Square(g) && Shaped(g, s)
  {
    forall c, j :: 0 <= c < |g| && 0 <= j < |g| && s.dist[c] != INF && g[c][j] != INF ==>
      Abs(s.dist[c] + g[c][j]) < INF
  }

  /** Before each of the N rounds of a run on weights within NoOverflow, every
      relaxation sum fits. */
  lemma RoundsFit(g: seq<seq<int>>, src: nat, k: nat, s: Labels)
    requires Square(g) && src < |g| && NoOverflow(g) && k < |g|
    requires Rounds(g, src, k) == Some(s)
    ensures Shaped(g, s) && SumsFit(g, s)
  {
    RoundsInv(g, src, k);
    forall c, j | 0 <= c < |g| && 0 <= j < |g| && s.dist[c] != INF && g[c][j] != INF
      ensures Abs(s.dist[c] + g[c][j]) < INF
    {
      SumBound(|g|, k, s.dist[c], g[c][j]);
    }
  }
}
