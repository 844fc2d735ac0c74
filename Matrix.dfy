/** The graph store of Matrix.java: the station list read line by line, the
    N x N table of weights filled with the no-edge sentinel, the edge lines
    "a,b,w" applied in file order, the diagonal forced to 0, and the two
    name-to-index lookups. The pure functions say what a load computes; the
    class Matrix does it step by step, in place, as the source does. */
module StationMatrix {
  import opened Wrappers
  import opened Graph
  import opened Decimal

  // ---------------------------------------------------------------------------
  // Splitting an edge line: String.split(",").

  /** Every comma-separated piece of s, empty pieces included. */
  function Pieces(s: string): (p: seq<string>)
    ensures |p| > 0
  {
    if |s| == 0 then [""]
    else
      var rest := Pieces(s[1..]);
      if s[0] == ',' then [""] + rest else [[s[0]] + rest[0]] + rest[1..]
  }

  function DropTrailingEmpty(p: seq<string>): (q: seq<string>)
    ensures |q| <= |p| && q == p[..|q|]
    ensures |q| > 0 ==> q[|q| - 1] != ""
    ensures forall i :: |q| <= i < |p| ==> p[i] == ""
  {
    if |p| > 0 && p[|p| - 1] == "" then DropTrailingEmpty(p[..|p| - 1]) else p
  }

  /** line.split(","): the pieces without the trailing empty ones, except that
      the empty line splits into one empty field. */
  function Fields(line: string): seq<string> {
    if |line| == 0 then [""] else DropTrailingEmpty(Pieces(line))
  }

  /** The pieces joined back with commas. */
  function Join(p: seq<string>): string
    requires |p| > 0
  {
    if |p| == 1 then p[0] else p[0] + "," + Join(p[1..])
  }

  predicate NoComma(s: string) {
    forall i :: 0 <= i < |s| ==> s[i] != ','
  }

  lemma {:induction false} PiecesOfJoin(p: seq<string>)
    requires |p| > 0 && forall k :: 0 <= k < |p| ==> NoComma(p[k])
    ensures Pieces(Join(p)) == p
    decreases |p|, |p[0]|
  {
    if |p| == 1 {
      PiecesOfField(p[0]);
    } else if |p[0]| == 0 {
      var s := Join(p);
      assert s == "," + Join(p[1..]);
      assert s[1..] == Join(p[1..]);
      PiecesOfJoin(p[1..]);
      assert Pieces(s) == [""] + p[1..];
    } else {
      var s := Join(p);
      var p' := p[0 := p[0][1..]];
      assert NoComma(p'[0]);
      assert forall k :: 0 <= k < |p'| ==> NoComma(p'[k]) by {
        forall k | 0 <= k < |p'| ensures NoComma(p'[k]) {
          if k > 0 { assert p'[k] == p[k]; }
        }
      }
      assert p'[1..] == p[1..];
      assert s[1..] == Join(p') by {
        assert s == p[0] + "," + Join(p[1..]);
        assert Join(p') == p[0][1..] + "," + Join(p[1..]);
      }
      PiecesOfJoin(p');
      assert s[0] == p[0][0];
      assert [s[0]] + p'[0] == p[0];
    }
  }

  lemma {:induction false} PiecesOfField(s: string)
    requires NoComma(s)
    ensures Pieces(s) == [s]
  {
    if |s| > 0 {
      assert NoComma(s[1..]) by {
        forall i | 0 <= i < |s[1..]| ensures s[1..][i] != ',' {
          assert s[1..][i] == s[i + 1];
        }
      }
      PiecesOfField(s[1..]);
      assert [s[0]] + s[1..] == s;
    }
  }

  /** Splitting undoes joining: fields without commas and a non-empty last
      field come back as they were. */
  lemma FieldsOfJoin(p: seq<string>)
    requires |p| > 0 && p[|p| - 1] != ""
    requires forall k :: 0 <= k < |p| ==> NoComma(p[k])
    ensures Fields(Join(p)) == p
  {
    PiecesOfJoin(p);
    JoinNotEmpty(p);
  }

  lemma {:induction false} JoinNotEmpty(p: seq<string>)
    requires |p| > 0 && p[|p| - 1] != ""
    ensures |Join(p)| > 0
  {
    if |p| > 1 {
      JoinNotEmpty(p[1..]);
    }
  }

  // ---------------------------------------------------------------------------
  // Looking a station up by name: ArrayList.indexOf.

  /** The first index holding name, or -1. */
  function IndexOf(names: seq<string>, name: string): (r: int)
    ensures -1 <= r < |names|
    ensures r == -1 <==> name !in names
    ensures r != -1 ==> names[r] == name && forall i :: 0 <= i < r ==> names[i] != name
  {
    if |names| == 0 then -1
    else if names[0] == name then 0
    else
      var k := IndexOf(names[1..], name);
      assert forall i :: 1 <= i < |names| ==> names[i] == names[1..][i - 1];
      if k == -1 then -1 else k + 1
  }

  /** Why a load stops: an edge line with fewer than three fields (the index of
      the first missing one), a name that is not a station, or a weight that is
      not a 32-bit decimal integer. */
  datatype LoadError = MissingField(index: nat) | UnknownStation(name: string) | InvalidWeight(text: string)

  /** Why a lookup from the user interface fails. */
  datatype LookupError = EmptyName | StationNotFound(name: string)

  /** getIndexOfTheStationForInit: the first index of name, or UnknownStation. */
  function Lookup(names: seq<string>, name: string): (r: Result<nat, LoadError>) {
    var i := IndexOf(names, name);
    if i == -1 then Failure(UnknownStation(name)) else Success(i)
  }

  // ---------------------------------------------------------------------------
  // One edge line.

  datatype Edge = Edge(from: nat, to: nat, weight: int)

  /** The edge of one line, checked in the order the source evaluates it:
      field 0 exists, names a station; field 1 exists, names a station; field 2
      exists, parses. Fields after the third are ignored. */
  function ParseEdge(names: seq<string>, line: string): (r: Result<Edge, LoadError>)
    ensures r.Success? ==>
      var node := Fields(line);
      && |node| >= 3
      && r.value.from == IndexOf(names, node[0]) && r.value.from < |names|
      && r.value.to == IndexOf(names, node[1]) && r.value.to < |names|
      && ParseInt(node[2]) == Some(r.value.weight)
  {
    var node := Fields(line);
    if |node| < 1 then Failure(MissingField(0))
    else match Lookup(names, node[0])
      case Failure(e) => Failure(e)
      case Success(s1) =>
        if |node| < 2 then Failure(MissingField(1))
        else match Lookup(names, node[1])
          case Failure(e) => Failure(e)
          case Success(s2) =>
            if |node| < 3 then Failure(MissingField(2))
            else match ParseInt(node[2])
              case None => Failure(InvalidWeight(node[2]))
              case Some(w) => Success(Edge(s1, s2, w))
  }

  /** A line yields an edge exactly when it has at least three fields, the
      first two name stations and the third parses; the edge then joins the
      first indices of the two names with the parsed weight. */
  lemma ParseEdgeSucceedsIff(names: seq<string>, line: string)
    ensures ParseEdge(names, line).Success? <==>
      var node := Fields(line);
      |node| >= 3 && node[0] in names && node[1] in names && ParseInt(node[2]).Some?
    ensures ParseEdge(names, line).Success? ==>
      var node := Fields(line);
      ParseEdge(names, line).value == Edge(IndexOf(names, node[0]), IndexOf(names, node[1]), ParseInt(node[2]).value)
  {
  }

  /** The edge line "a,b,w" as the edge file writes it. */
  function EdgeLine(a: string, b: string, w: int): string {
    Join([a, b, IntToString(w)])
  }

  lemma IntToStringNoComma(x: int)
    ensures NoComma(IntToString(x))
  {
    var s := IntToString(x);
    if x < 0 {
      assert forall i :: 1 <= i < |s| ==> s[i] == NatToString(-x)[i - 1];
    }
  }

  /** A line written from two station names without commas and a 32-bit weight
      reads back as the edge between their first indices with that weight. */
  lemma ParseEdgeOfLine(names: seq<string>, a: string, b: string, w: int)
    requires a in names && b in names && NoComma(a) && NoComma(b) && IsInt32(w)
    ensures ParseEdge(names, EdgeLine(a, b, w)) == Success(Edge(IndexOf(names, a), IndexOf(names, b), w))
  {
    IntToStringNoComma(w);
    FieldsOfJoin([a, b, IntToString(w)]);
    ParseIntOfIntToString(w);
  }

  /** Edge e joins stations a and b, in either direction. */
  predicate Joins(e: Edge, a: nat, b: nat) {
    (e.from == a && e.to == b) || (e.from == b && e.to == a)
  }

  /** A parsed line that is an edge joining a and b. */
  predicate EdgeJoins(r: Result<Edge, LoadError>, a: nat, b: nat) {
    r.Success? && Joins(r.value, a, b)
  }

  predicate LineJoins(names: seq<string>, line: string, a: nat, b: nat) {
    EdgeJoins(ParseEdge(names, line), a, b)
  }

  // ---------------------------------------------------------------------------
  // The table.

  /** The table right after allocation and fill: N x N sentinels. */
  function EmptyMatrix(n: nat): (m: seq<seq<int>>)
    ensures Square(m) && |m| == n
  {
    seq(n, _ => seq(n, _ => INF))
  }

  /** addEdge on a table: both cells (s1, s2) and (s2, s1) take the weight when
      both indices are stations, and nothing changes otherwise. */
  function SetEdge(m: seq<seq<int>>, s1: int, s2: int, w: int): (m': seq<seq<int>>)
    requires Square(m)
    ensures Square(m') && |m'| == |m|
  {
    if 0 <= s1 && 0 <= s2 && s1 < |m| && s2 < |m| then
      var m1 := m[s1 := m[s1][s2 := w]];
      m1[s2 := m1[s2][s1 := w]]
    else m
  }

  /** The table with every diagonal cell set to 0. */
  function WithZeroDiagonal(m: seq<seq<int>>): (m': seq<seq<int>>)
    requires Square(m)
    ensures Square(m') && |m'| == |m|
  {
    seq(|m|, i requires 0 <= i < |m| => m[i][i := 0])
  }

  /** f applied to every line, in order. */
  function MapLines<T>(f: string -> T, lines: seq<string>): (r: seq<T>)
    ensures |r| == |lines|
    decreases |lines|
  {
    if |lines| == 0 then [] else MapLines(f, lines[..|lines| - 1]) + [f(lines[|lines| - 1])]
  }

  lemma {:induction false} MapLinesIndex<T>(f: string -> T, lines: seq<string>)
    ensures forall k :: 0 <= k < |lines| ==> MapLines(f, lines)[k] == f(lines[k])
    decreases |lines|
  {
    if |lines| > 0 {
      var prefix := lines[..|lines| - 1];
      MapLinesIndex(f, prefix);
      assert forall k :: 0 <= k < |prefix| ==> prefix[k] == lines[k];
    }
  }

  lemma MapLinesStep<T>(f: string -> T, lines: seq<string>, i: nat)
    requires i < |lines|
    ensures MapLines(f, lines[..i + 1]) == MapLines(f, lines[..i]) + [f(lines[i])]
  {
    assert lines[..i + 1][..i] == lines[..i];
  }

  lemma MapLinesPrefix<T>(f: string -> T, lines: seq<string>, i: nat)
    requires i <= |lines|
    ensures MapLines(f, lines)[..i] == MapLines(f, lines[..i])
  {
    MapLinesIndex(f, lines);
    MapLinesIndex(f, lines[..i]);
  }

  function Parser(names: seq<string>): string -> Result<Edge, LoadError> {
    line => ParseEdge(names, line)
  }

  /** Every edge line parsed, in file order. */
  function ParseAll(names: seq<string>, lines: seq<string>): (ps: seq<Result<Edge, LoadError>>)
    ensures |ps| == |lines|
  {
    MapLines(Parser(names), lines)
  }

  /** Parsed lines applied in order to m; the first error ends the load. */
  function ApplyParsed(m: seq<seq<int>>, ps: seq<Result<Edge, LoadError>>): (r: Result<seq<seq<int>>, LoadError>)
    requires Square(m)
    ensures r.Success? ==> Square(r.value) && |r.value| == |m|
    decreases |ps|
  {
    if |ps| == 0 then Success(m)
    else match ApplyParsed(m, ps[..|ps| - 1])
      case Failure(e) => Failure(e)
      case Success(m') =>
        match ps[|ps| - 1]
        case Failure(e) => Failure(e)
        case Success(e) => Success(SetEdge(m', e.from, e.to, e.weight))
  }

  /** The edge lines applied in file order to m; the first line that does not
      parse ends the load with its error. */
  function ApplyEdges(names: seq<string>, m: seq<seq<int>>, lines: seq<string>): (r: Result<seq<seq<int>>, LoadError>)
    requires Square(m)
    ensures r.Success? ==> Square(r.value) && |r.value| == |m|
  {
    ApplyParsed(m, ParseAll(names, lines))
  }

  /** fillMatrix as a whole: the table loaded from the station lines and the
      edge lines. */
  function Load(stations: seq<string>, edges: seq<string>): (r: Result<seq<seq<int>>, LoadError>)
    ensures r.Success? ==> Square(r.value) && |r.value| == |stations|
  {
    match ApplyEdges(stations, EmptyMatrix(|stations|), edges)
    case Failure(e) => Failure(e)
    case Success(m) => Success(WithZeroDiagonal(m))
  }

  // ---------------------------------------------------------------------------
  // What a load guarantees.

  /** addEdge sets exactly the two cells of the pair when both indices are in
      range, and changes nothing when one is not. */
  lemma SetEdgeCells(m: seq<seq<int>>, s1: int, s2: int, w: int)
    requires Square(m)
    ensures var m' := SetEdge(m, s1, s2, w);
      if 0 <= s1 < |m| && 0 <= s2 < |m| then
        && m'[s1][s2] == w && m'[s2][s1] == w
        && forall i, j :: 0 <= i < |m| && 0 <= j < |m| && !(i == s1 && j == s2) && !(i == s2 && j == s1) ==>
             m'[i][j] == m[i][j]
      else m' == m
  {
  }

  lemma SetEdgeSymmetric(m: seq<seq<int>>, s1: int, s2: int, w: int)
    requires Square(m) && Symmetric(m)
    ensures Symmetric(SetEdge(m, s1, s2, w))
  {
    SetEdgeCells(m, s1, s2, w);
  }

  lemma ParseAllAt(names: seq<string>, lines: seq<string>, k: nat)
    requires k < |lines|
    ensures ParseAll(names, lines)[k] == ParseEdge(names, lines[k])
  {
    ParseAllIndex(names, lines);
  }

  lemma ParseAllIndex(names: seq<string>, lines: seq<string>)
    ensures forall k :: 0 <= k < |lines| ==> ParseAll(names, lines)[k] == ParseEdge(names, lines[k])
  {
    MapLinesIndex(Parser(names), lines);
  }

  lemma ApplyParsedStep(m: seq<seq<int>>, ps: seq<Result<Edge, LoadError>>, p: Result<Edge, LoadError>)
    requires Square(m)
    ensures ApplyParsed(m, ps + [p]) ==
      match ApplyParsed(m, ps)
      case Failure(e) => Failure(e)
      case Success(m') =>
        match p
        case Failure(e) => Failure(e)
        case Success(e) => Success(SetEdge(m', e.from, e.to, e.weight))
  {
    assert (ps + [p])[..|ps|] == ps;
  }

  lemma {:induction false} ApplyParsedSymmetric(m: seq<seq<int>>, ps: seq<Result<Edge, LoadError>>)
    requires Square(m) && Symmetric(m) && ApplyParsed(m, ps).Success?
    ensures Symmetric(ApplyParsed(m, ps).value)
    decreases |ps|
  {
    if |ps| > 0 {
      var prefix := ps[..|ps| - 1];
      ApplyParsedSymmetric(m, prefix);
      var e := ps[|ps| - 1].value;
      SetEdgeSymmetric(ApplyParsed(m, prefix).value, e.from, e.to, e.weight);
    }
  }

  /** A loaded table is symmetric with a zero diagonal. */
  lemma LoadSymmetric(stations: seq<string>, edges: seq<string>)
    requires Load(stations, edges).Success?
    ensures Symmetric(Load(stations, edges).value)
    ensures ZeroDiagonal(Load(stations, edges).value)
  {
    var n := |stations|;
    assert Symmetric(EmptyMatrix(n));
    ApplyParsedSymmetric(EmptyMatrix(n), ParseAll(stations, edges));
  }

  lemma {:induction false} ApplyParsedSucceedsIff(m: seq<seq<int>>, ps: seq<Result<Edge, LoadError>>)
    requires Square(m)
    ensures ApplyParsed(m, ps).Success? <==> forall k :: 0 <= k < |ps| ==> ps[k].Success?
    decreases |ps|
  {
    if |ps| > 0 {
      var prefix := ps[..|ps| - 1];
      ApplyParsedSucceedsIff(m, prefix);
      assert forall k :: 0 <= k < |prefix| ==> prefix[k] == ps[k];
    }
  }

  /** The load succeeds exactly when every edge line parses. */
  lemma LoadSucceedsIff(stations: seq<string>, edges: seq<string>)
    ensures Load(stations, edges).Success? <==>
      forall k :: 0 <= k < |edges| ==> ParseEdge(stations, edges[k]).Success?
  {
    ApplyParsedSucceedsIff(EmptyMatrix(|stations|), ParseAll(stations, edges));
    ParseAllIndex(stations, edges);
  }

  /** Once a prefix of the parsed lines fails, every longer prefix fails the
      same way. */
  lemma {:induction false} ApplyParsedFailureSticks(m: seq<seq<int>>, ps: seq<Result<Edge, LoadError>>, i: nat)
    requires Square(m) && i <= |ps| && ApplyParsed(m, ps[..i]).Failure?
    ensures ApplyParsed(m, ps) == ApplyParsed(m, ps[..i])
    decreases |ps| - i
  {
    if i < |ps| {
      ApplyParsedStep(m, ps[..i], ps[i]);
      assert ps[..i] + [ps[i]] == ps[..i + 1];
      ApplyParsedFailureSticks(m, ps, i + 1);
    } else {
      assert ps[..i] == ps;
    }
  }

  lemma ApplyParsedFirstFailure(m: seq<seq<int>>, ps: seq<Result<Edge, LoadError>>, k: nat)
    requires Square(m) && k < |ps| && ps[k].Failure?
    requires forall l :: 0 <= l < k ==> ps[l].Success?
    ensures ApplyParsed(m, ps) == Failure(ps[k].error)
  {
    ApplyParsedSucceedsIff(m, ps[..k]);
    ApplyParsedStep(m, ps[..k], ps[k]);
    assert ps[..k] + [ps[k]] == ps[..k + 1];
    ApplyParsedFailureSticks(m, ps, k + 1);
  }

  /** Loading is fail-fast: the first line that does not parse decides the
      error, whatever follows it. */
  lemma LoadFailsAtFirstBadLine(stations: seq<string>, edges: seq<string>, k: nat)
    requires k < |edges| && ParseEdge(stations, edges[k]).Failure?
    requires forall l :: 0 <= l < k ==> ParseEdge(stations, edges[l]).Success?
    ensures Load(stations, edges) == Failure(ParseEdge(stations, edges[k]).error)
  {
    ParseAllIndex(stations, edges);
    ApplyParsedFirstFailure(EmptyMatrix(|stations|), ParseAll(stations, edges), k);
  }

  /** Off the diagonal, the cell of a pair is the weight of the last parsed
      line that joins the pair. */
  lemma {:induction false} ApplyParsedLastWins(m: seq<seq<int>>, ps: seq<Result<Edge, LoadError>>, a: nat, b: nat, k: nat)
    requires Square(m) && a < |m| && b < |m| && a != b
    requires ApplyParsed(m, ps).Success?
    requires k < |ps| && EdgeJoins(ps[k], a, b)
    requires forall l :: k < l < |ps| ==> !EdgeJoins(ps[l], a, b)
    ensures ApplyParsed(m, ps).value[a][b] == ps[k].value.weight
    decreases |ps|
  {
    var prefix := ps[..|ps| - 1];
    var m' := ApplyParsed(m, prefix).value;
    var e := ps[|ps| - 1].value;
    SetEdgeCells(m', e.from, e.to, e.weight);
    if k < |ps| - 1 {
      assert forall l :: k < l < |prefix| ==> prefix[l] == ps[l];
      ApplyParsedLastWins(m, prefix, a, b, k);
    }
  }

  /** A pair that no parsed line joins keeps its cell. */
  lemma {:induction false} ApplyParsedUntouched(m: seq<seq<int>>, ps: seq<Result<Edge, LoadError>>, a: nat, b: nat)
    requires Square(m) && a < |m| && b < |m| && a != b
    requires ApplyParsed(m, ps).Success?
    requires forall l :: 0 <= l < |ps| ==> !EdgeJoins(ps[l], a, b)
    ensures ApplyParsed(m, ps).value[a][b] == m[a][b]
    decreases |ps|
  {
    if |ps| > 0 {
      var prefix := ps[..|ps| - 1];
      var e := ps[|ps| - 1].value;
      SetEdgeCells(ApplyParsed(m, prefix).value, e.from, e.to, e.weight);
      assert forall l :: 0 <= l < |prefix| ==> prefix[l] == ps[l];
      ApplyParsedUntouched(m, prefix, a, b);
    }
  }

  /** Off the diagonal of a loaded table, the cell of a pair holds the weight
      of the last edge line that joins the pair. */
  lemma LoadLastLineWins(stations: seq<string>, edges: seq<string>, a: nat, b: nat, k: nat)
    requires Load(stations, edges).Success? && a < |stations| && b < |stations| && a != b
    requires k < |edges| && LineJoins(stations, edges[k], a, b)
    requires forall l :: k < l < |edges| ==> !LineJoins(stations, edges[l], a, b)
    ensures Load(stations, edges).value[a][b] == ParseEdge(stations, edges[k]).value.weight
  {
    var ps := ParseAll(stations, edges);
    forall l | k < l < |ps|
      ensures !EdgeJoins(ps[l], a, b)
    {
      ParseAllAt(stations, edges, l);
    }
    ParseAllAt(stations, edges, k);
    var m := ApplyParsed(EmptyMatrix(|stations|), ps).value;
    ApplyParsedLastWins(EmptyMatrix(|stations|), ps, a, b, k);
    assert Load(stations, edges).value == WithZeroDiagonal(m);
  }

  /** Off the diagonal of a loaded table, a pair that no edge line joins keeps
      the no-edge sentinel. */
  lemma LoadNoLineNoEdge(stations: seq<string>, edges: seq<string>, a: nat, b: nat)
    requires Load(stations, edges).Success? && a < |stations| && b < |stations| && a != b
    requires forall l :: 0 <= l < |edges| ==> !LineJoins(stations, edges[l], a, b)
    ensures Load(stations, edges).value[a][b] == INF
  {
    var ps := ParseAll(stations, edges);
    forall l | 0 <= l < |ps|
      ensures !EdgeJoins(ps[l], a, b)
    {
      ParseAllAt(stations, edges, l);
    }
    var m := ApplyParsed(EmptyMatrix(|stations|), ps).value;
    ApplyParsedUntouched(EmptyMatrix(|stations|), ps, a, b);
    assert Load(stations, edges).value == WithZeroDiagonal(m);
  }

  /** One more edge line: it is applied to the table of the lines before it, or
      its error ends the whole load. */
  lemma ApplyEdgesStep(names: seq<string>, m: seq<seq<int>>, lines: seq<string>, i: nat)
    requires Square(m) && i < |lines| && ApplyEdges(names, m, lines[..i]).Success?
    ensures var e := ParseEdge(names, lines[i]);
      e.Success? ==>
        ApplyEdges(names, m, lines[..i + 1]) ==
        Success(SetEdge(ApplyEdges(names, m, lines[..i]).value, e.value.from, e.value.to, e.value.weight))
    ensures var e := ParseEdge(names, lines[i]);
      e.Failure? ==> ApplyEdges(names, m, lines) == Failure(e.error)
  {
    var e := ParseEdge(names, lines[i]);
    MapLinesStep(Parser(names), lines, i);
    ApplyParsedStep(m, ParseAll(names, lines[..i]), e);
    if e.Failure? {
      MapLinesPrefix(Parser(names), lines, i + 1);
      ApplyParsedFailureSticks(m, ParseAll(names, lines), i + 1);
    }
  }

  /** A file of edge lines, each written from two station names without commas
      and a 32-bit weight, always loads. */
  lemma LoadOfWrittenLines(stations: seq<string>, edges: seq<string>, written: seq<(string, string, int)>)
    requires |edges| == |written|
    requires forall k :: 0 <= k < |written| ==>
      && written[k].0 in stations && written[k].1 in stations
      && NoComma(written[k].0) && NoComma(written[k].1) && IsInt32(written[k].2)
      && edges[k] == EdgeLine(written[k].0, written[k].1, written[k].2)
    ensures Load(stations, edges).Success?
  {
    forall k | 0 <= k < |edges|
      ensures ParseEdge(stations, edges[k]).Success?
    {
      ParseEdgeOfLine(stations, written[k].0, written[k].1, written[k].2);
    }
    LoadSucceedsIff(stations, edges);
  }

  // ---------------------------------------------------------------------------
  // The object.

  class Matrix {
    var numOfTheStations: nat
    var stationsNames: seq<string>
    var adjacencyMatrix: array2<int>

    /** The count, the list and both dimensions of the table agree. */
    ghost predicate Valid()
      reads this
    {
      numOfTheStations == |stationsNames| == adjacencyMatrix.Length0 == adjacencyMatrix.Length1
    }

    /** The object before fillMatrix runs: no stations, an empty table. */
    constructor Empty()
      ensures Valid() && stationsNames == [] && fresh(adjacencyMatrix)
    {
      numOfTheStations := 0;
      stationsNames := [];
      adjacencyMatrix := new int[0, 0];
    }

    /** new Matrix(fileStations, fileEdges): the loaded object, or the error that
        makes the constructor throw. */
    static method Create(stationLines: seq<string>, edgeLines: seq<string>) returns (r: Result<Matrix, LoadError>)
      ensures r.Success? <==> Load(stationLines, edgeLines).Success?
      ensures r.Failure? ==> Load(stationLines, edgeLines) == Failure(r.error)
      ensures r.Success? ==>
        && fresh(r.value) && fresh(r.value.adjacencyMatrix) && r.value.Valid()
        && r.value.stationsNames == stationLines
        && Cells(r.value.adjacencyMatrix) == Load(stationLines, edgeLines).value
    {
      var m := new Matrix.Empty();
      var err := m.FillMatrix(stationLines, edgeLines);
      if err.Some? {
        return Failure(err.value);
      }
      return Success(m);
    }

    /** fillMatrix: the names, their count, the sentinel table, then the edges
        and the diagonal. */
    method FillMatrix(stationLines: seq<string>, edgeLines: seq<string>) returns (err: Option<LoadError>)
      modifies this
      ensures fresh(adjacencyMatrix) && Valid() && stationsNames == stationLines
      ensures match Load(stationLines, edgeLines)
        case Failure(e) => err == Some(e)
        case Success(m) => err == None && Cells(adjacencyMatrix) == m
    {
      SetStationNamesFromFile(stationLines);
      SetNumOfTheStations();
      FillWithSentinel();
      err := InitMatrix(edgeLines);
    }

    /** setStationNamesFromFile over the lines of the file: every line, blank
        ones included, in order. */
    method SetStationNamesFromFile(lines: seq<string>)
      modifies this
      ensures stationsNames == lines
      ensures numOfTheStations == old(numOfTheStations) && adjacencyMatrix == old(adjacencyMatrix)
    {
      stationsNames := [];
      var i := 0;
      while i < |lines|
        invariant i <= |lines| && stationsNames == lines[..i]
        invariant numOfTheStations == old(numOfTheStations) && adjacencyMatrix == old(adjacencyMatrix)
      {
        stationsNames := stationsNames + [lines[i]];
        i := i + 1;
      }
    }

    method SetNumOfTheStations()
      modifies this
      ensures numOfTheStations == |stationsNames|
      ensures stationsNames == old(stationsNames) && adjacencyMatrix == old(adjacencyMatrix)
    {
      numOfTheStations := |stationsNames|;
    }

    /** A new N x N table with every cell set to the sentinel, row by row. */
    method FillWithSentinel()
      modifies this
      ensures fresh(adjacencyMatrix)
      ensures adjacencyMatrix.Length0 == adjacencyMatrix.Length1 == numOfTheStations
      ensures forall i, j :: 0 <= i < numOfTheStations && 0 <= j < numOfTheStations ==> adjacencyMatrix[i, j] == INF
      ensures Cells(adjacencyMatrix) == EmptyMatrix(numOfTheStations)
      ensures numOfTheStations == old(numOfTheStations) && stationsNames == old(stationsNames)
    {
      var n := numOfTheStations;
      var a := new int[n, n];
      for i := 0 to n
        invariant numOfTheStations == n && stationsNames == old(stationsNames)
        invariant forall r, c :: 0 <= r < i && 0 <= c < n ==> a[r, c] == INF
      {
        for j := 0 to n
          invariant numOfTheStations == n && stationsNames == old(stationsNames)
          invariant forall r, c :: 0 <= r < i && 0 <= c < n ==> a[r, c] == INF
          invariant forall c :: 0 <= c < j ==> a[i, c] == INF
        {
          a[i, j] := INF;
        }
      }
      CellsAre(a, EmptyMatrix(n));
      adjacencyMatrix := a;
    }

    /** initMatrix over the lines of the edge file: each line is read and
        applied; the first bad line ends the load; then the diagonal is zeroed. */
    method InitMatrix(edgeLines: seq<string>) returns (err: Option<LoadError>)
      requires Valid()
      modifies adjacencyMatrix
      ensures match ApplyEdges(stationsNames, old(Cells(adjacencyMatrix)), edgeLines)
        case Failure(e) => err == Some(e)
        case Success(m) => err == None && Cells(adjacencyMatrix) == WithZeroDiagonal(m)
    {
      ghost var start := Cells(adjacencyMatrix);
      for i := 0 to |edgeLines|
        invariant ApplyEdges(stationsNames, start, edgeLines[..i]) == Success(Cells(adjacencyMatrix))
      {
        var edge := ReadEdge(edgeLines[i]);
        ApplyEdgesStep(stationsNames, start, edgeLines, i);
        if edge.Failure? {
          return Some(edge.error);
        }
        AddEdge(edge.value.from, edge.value.to, edge.value.weight);
      }
      assert edgeLines[..|edgeLines|] == edgeLines;
      ZeroTheDiagonal();
      err := None;
    }

    /** The last step of initMatrix: every diagonal cell becomes 0, whatever the
        edge lines wrote there. */
    method ZeroTheDiagonal()
      requires Valid()
      modifies adjacencyMatrix
      ensures Cells(adjacencyMatrix) == WithZeroDiagonal(old(Cells(adjacencyMatrix)))
    {
      ghost var loaded := Cells(adjacencyMatrix);
      for i := 0 to numOfTheStations
        invariant forall r, c :: 0 <= r < numOfTheStations && 0 <= c < numOfTheStations ==>
          adjacencyMatrix[r, c] == if r == c && r < i then 0 else loaded[r][c]
      {
        adjacencyMatrix[i, i] := 0;
      }
      CellsAre(adjacencyMatrix, WithZeroDiagonal(loaded));
    }

    /** The body of initMatrix's loop up to addEdge: split the line, look both
        names up, parse the weight. */
    method ReadEdge(line: string) returns (r: Result<Edge, LoadError>)
      ensures r == ParseEdge(stationsNames, line)
    {
      var node := Fields(line);
      if |node| < 1 {
        return Failure(MissingField(0));
      }
      var station1Index := GetIndexOfTheStationForInit(node[0]);
      if station1Index.Failure? {
        return Failure(station1Index.error);
      }
      if |node| < 2 {
        return Failure(MissingField(1));
      }
      var station2Index := GetIndexOfTheStationForInit(node[1]);
      if station2Index.Failure? {
        return Failure(station2Index.error);
      }
      if |node| < 3 {
        return Failure(MissingField(2));
      }
      var weight := ParseInt(node[2]);
      if weight.None? {
        return Failure(InvalidWeight(node[2]));
      }
      r := Success(Edge(station1Index.value, station2Index.value, weight.value));
    }

    /** getIndexOfTheStationForInit: the first index holding the name, or the
        error for a name that is not a station. */
    method GetIndexOfTheStationForInit(stationName: string) returns (r: Result<nat, LoadError>)
      ensures r.Success? <==> stationName in stationsNames
      ensures r.Success? ==>
        && r.value < |stationsNames| && stationsNames[r.value] == stationName
        && forall i :: 0 <= i < r.value ==> stationsNames[i] != stationName
      ensures r.Failure? ==> r.error == UnknownStation(stationName)
      ensures r == Lookup(stationsNames, stationName)
    {
      var index := IndexOf(stationsNames, stationName);
      if index == -1 {
        return Failure(UnknownStation(stationName));
      }
      return Success(index);
    }

    /** getIndexOfTheStation: an empty name is refused before any search; then
        the first index holding the name, or the error for an unknown one. */
    method GetIndexOfTheStation(stationName: string) returns (r: Result<nat, LookupError>)
      ensures stationName == "" ==> r == Failure(EmptyName)
      ensures stationName != "" && stationName !in stationsNames ==> r == Failure(StationNotFound(stationName))
      ensures stationName != "" && stationName in stationsNames ==>
        && r.Success? && r.value < |stationsNames| && stationsNames[r.value] == stationName
        && forall i :: 0 <= i < r.value ==> stationsNames[i] != stationName
    {
      if |stationName| == 0 {
        return Failure(EmptyName);
      }
      var index := IndexOf(stationsNames, stationName);
      if index == -1 {
        return Failure(StationNotFound(stationName));
      }
      return Success(index);
    }

    /** addEdge: both directions of the pair take the weight when both indices
        are stations; otherwise nothing changes. */
    method AddEdge(station1: int, station2: int, weight: int)
      requires Valid()
      modifies adjacencyMatrix
      ensures Cells(adjacencyMatrix) == SetEdge(old(Cells(adjacencyMatrix)), station1, station2, weight)
    {
      ghost var before := Cells(adjacencyMatrix);
      if station1 >= 0 && station2 >= 0 && station1 < numOfTheStations && station2 < numOfTheStations {
        adjacencyMatrix[station1, station2] := weight;
        adjacencyMatrix[station2, station1] := weight;
      }
      SetEdgeCells(before, station1, station2, weight);
      CellsAre(adjacencyMatrix, SetEdge(before, station1, station2, weight));
    }
  }

  /** Two tables with the same dimensions and the same cells are equal. */
  lemma CellsAre(a: array2<int>, m: seq<seq<int>>)
    requires |m| == a.Length0 && forall i :: 0 <= i < |m| ==> |m[i]| == a.Length1
    requires forall i, j :: 0 <= i < a.Length0 && 0 <= j < a.Length1 ==> a[i, j] == m[i][j]
    ensures Cells(a) == m
  {
    var g := Cells(a);
    forall i | 0 <= i < |m|
      ensures g[i] == m[i]
    {
      assert g[i] == m[i];
    }
  }
}
