/** The weighted graph both components share: a square table of 32-bit weights in
    which Integer.MAX_VALUE means "no direct edge", and the paths through it. */
module Graph {

  /** Integer.MAX_VALUE: the "no edge" cell value and the "not yet reached"
      distance label. */
  const INF: int := 0x7fff_ffff

  predicate Square(g: seq<seq<int>>) {
    forall i :: 0 <= i < |g| ==> |g[i]| == |g|
  }

  /** The contents of a two-dimensional array, row by row. */
  ghost function Cells(a: array2<int>): (g: seq<seq<int>>)
    reads a
    ensures |g| == a.Length0
    ensures forall i :: 0 <= i < a.Length0 ==> |g[i]| == a.Length1
    ensures forall i, j :: 0 <= i < a.Length0 && 0 <= j < a.Length1 ==> g[i][j] == a[i, j]
  {
    seq(a.Length0, i requires 0 <= i < a.Length0 reads a =>
      seq(a.Length1, j requires 0 <= j < a.Length1 reads a => a[i, j]))
  }

  ghost predicate Symmetric(g: seq<seq<int>>)
    requires Square(g)
  {
    forall i, j :: 0 <= i < |g| && 0 <= j < |g| ==> g[i][j] == g[j][i]
  }

  ghost predicate ZeroDiagonal(g: seq<seq<int>>)
    requires Square(g)
  {
    forall i :: 0 <= i < |g| ==> g[i][i] == 0
  }

  /** Every edge weight is at least zero. */
  ghost predicate NonNegative(g: seq<seq<int>>)
    requires Square(g)
  {
    forall i, j :: 0 <= i < |g| && 0 <= j < |g| && g[i][j] != INF ==> 0 <= g[i][j]
  }

  function Abs(x: int): nat {
    if x < 0 then -x else x
  }

  /** The largest edge weight magnitude w with n * w < INF. */
  function MaxWeight(n: nat): nat
    requires 0 < n
  {
    (INF - 1) / n
  }

  lemma MaxWeightBound(n: nat, w: nat)
    requires 0 < n
    ensures w <= MaxWeight(n) <==> n * w < INF
  {
    var q, r := MaxWeight(n), (INF - 1) % n;
    assert INF - 1 == n * q + r && r < n;
    if w <= q {
      MulMono(n, w, q);
    } else {
      MulMono(n, q + 1, w);
      assert n * (q + 1) == n * q + n;
    }
  }

  lemma MulMono(n: nat, x: int, y: int)
    requires x <= y
    ensures n * x <= n * y
  {
    assert n * y - n * x == n * (y - x);
  }

  /** Edge weights small enough that no label sum of the solver can leave the
      32-bit range: |g| * |w| < INF for every edge weight w (see MaxWeightBound). */
  ghost predicate NoOverflow(g: seq<seq<int>>)
    requires Square(g)
  {
    forall i, j :: 0 <= i < |g| && 0 <= j < |g| && g[i][j] != INF ==> Abs(g[i][j]) <= MaxWeight(|g|)
  }

  predicate OnGraph(g: seq<seq<int>>, p: seq<int>) {
    forall k :: 0 <= k < |p| ==> 0 <= p[k] < |g|
  }

  /** p is a walk from s to t that follows only existing edges. */
  ghost predicate IsPath(g: seq<seq<int>>, p: seq<int>, s: int, t: int)
    requires Square(g)
  {
    && |p| > 0 && p[0] == s && p[|p| - 1] == t
    && OnGraph(g, p)
    && forall k :: 0 <= k < |p| - 1 ==> g[p[k]][p[k + 1]] != INF
  }

  /** The total weight of the edges of p. */
  ghost function PathWeight(g: seq<seq<int>>, p: seq<int>): int
    requires Square(g) && OnGraph(g, p)
  {
    if |p| <= 1 then 0
    else PathWeight(g, p[..|p| - 1]) + g[p[|p| - 2]][p[|p| - 1]]
  }

  ghost predicate Reachable(g: seq<seq<int>>, s: int, t: int)
    requires Square(g)
  {
    exists p :: IsPath(g, p, s, t)
  }

  /** g2 has every edge of g with the same weight, and possibly more edges. */
  ghost predicate Extends(g: seq<seq<int>>, g2: seq<seq<int>>)
    requires Square(g) && Square(g2)
  {
    |g| == |g2| && forall i, j :: 0 <= i < |g| && 0 <= j < |g| && g[i][j] != INF ==> g2[i][j] == g[i][j]
  }

  /** A path of g is a path of every extension of g, with the same weight. */
  lemma {:induction false} PathInExtension(g: seq<seq<int>>, g2: seq<seq<int>>, p: seq<int>, s: int, t: int)
    requires Square(g) && Square(g2) && Extends(g, g2) && IsPath(g, p, s, t)
    ensures IsPath(g2, p, s, t) && PathWeight(g2, p) == PathWeight(g, p)
    decreases |p|
  {
    if |p| > 1 {
      PathPrefix(g, p, s, t, |p| - 2);
      assert p[..|p| - 2 + 1] == p[..|p| - 1];
      PathInExtension(g, g2, p[..|p| - 1], s, p[|p| - 2]);
    }
  }

  lemma PathPrefix(g: seq<seq<int>>, p: seq<int>, s: int, t: int, i: nat)
    requires Square(g) && IsPath(g, p, s, t) && i < |p|
    ensures IsPath(g, p[..i + 1], s, p[i])
  {
  }

  /** The prefix of a path that ends at its i-th station is one edge longer
      than the prefix that ends at station i - 1. */
  lemma PrefixStep(g: seq<seq<int>>, p: seq<int>, s: int, t: int, i: nat)
    requires Square(g) && IsPath(g, p, s, t) && 0 < i < |p|
    ensures IsPath(g, p[..i], s, p[i - 1])
    ensures g[p[i - 1]][p[i]] != INF
    ensures PathWeight(g, p[..i + 1]) == PathWeight(g, p[..i]) + g[p[i - 1]][p[i]]
  {
    PathPrefix(g, p, s, t, i - 1);
    assert p[..i - 1 + 1] == p[..i];
    assert p[..i + 1][..i] == p[..i];
  }

  /** Appending an edge to a path adds the edge's weight. */
  lemma PathExtend(g: seq<seq<int>>, p: seq<int>, s: int, t: int, v: int)
    requires Square(g) && IsPath(g, p, s, t) && 0 <= v < |g| && g[t][v] != INF
    ensures IsPath(g, p + [v], s, v)
    ensures PathWeight(g, p + [v]) == PathWeight(g, p) + g[t][v]
  {
    assert (p + [v])[..|p|] == p;
  }

  lemma {:induction false} NonNegativeWeight(g: seq<seq<int>>, p: seq<int>, s: int, t: int)
    requires Square(g) && NonNegative(g) && IsPath(g, p, s, t)
    ensures PathWeight(g, p) >= 0
  {
    if |p| > 1 {
      PathPrefix(g, p, s, t, |p| - 2);
      assert p[..|p| - 2 + 1] == p[..|p| - 1];
      NonNegativeWeight(g, p[..|p| - 1], s, p[|p| - 2]);
    }
  }

  /** With non-negative weights a prefix of a path weighs no more than the path. */
  lemma {:induction false} PrefixWeighsLess(g: seq<seq<int>>, p: seq<int>, s: int, t: int, i: nat)
    requires Square(g) && NonNegative(g) && IsPath(g, p, s, t) && i < |p|
    ensures PathWeight(g, p[..i + 1]) <= PathWeight(g, p)
    decreases |p| - i
  {
    if i < |p| - 1 {
      var q := p[..|p| - 1];
      PathPrefix(g, p, s, t, |p| - 2);
      assert p[..|p| - 2 + 1] == q;
      PrefixWeighsLess(g, q, s, p[|p| - 2], i);
      assert q[..i + 1] == p[..i + 1];
      assert g[p[|p| - 2]][p[|p| - 1]] != INF;
      assert 0 <= g[p[|p| - 2]][p[|p| - 1]];
    } else {
      assert p[..i + 1] == p;
    }
  }

  /** Prepending an edge to a path adds the edge's weight. */
  lemma {:induction false} PathWeightCons(g: seq<seq<int>>, a: int, q: seq<int>)
    requires Square(g) && 0 <= a < |g| && |q| > 0 && OnGraph(g, q)
    ensures OnGraph(g, [a] + q)
    ensures PathWeight(g, [a] + q) == g[a][q[0]] + PathWeight(g, q)
  {
    if |q| > 1 {
      var q' := q[..|q| - 1];
      PathWeightCons(g, a, q');
      assert ([a] + q)[..|q|] == [a] + q';
    }
  }

  function Reverse(p: seq<int>): (r: seq<int>)
    ensures |r| == |p|
    ensures forall k :: 0 <= k < |p| ==> r[k] == p[|p| - 1 - k]
  {
    if |p| == 0 then [] else [p[|p| - 1]] + Reverse(p[..|p| - 1])
  }

  /** In a symmetric table a path read backwards is a path of the same weight. */
  lemma {:induction false} ReversePath(g: seq<seq<int>>, p: seq<int>, s: int, t: int)
    requires Square(g) && Symmetric(g) && IsPath(g, p, s, t)
    ensures IsPath(g, Reverse(p), t, s)
    ensures PathWeight(g, Reverse(p)) == PathWeight(g, p)
  {
    var r := Reverse(p);
    forall k | 0 <= k < |r| - 1
      ensures g[r[k]][r[k + 1]] != INF
    {
      assert g[p[|p| - 2 - k]][p[|p| - 1 - k]] != INF;
    }
    if |p| > 1 {
      var q := p[..|p| - 1];
      PathPrefix(g, p, s, t, |p| - 2);
      assert p[..|p| - 2 + 1] == q;
      ReversePath(g, q, s, p[|p| - 2]);
      PathWeightCons(g, p[|p| - 1], Reverse(q));
    }
  }

  /** A path from s to t followed by a path from t to u is a path from s to u. */
  lemma {:induction false} PathConcat(g: seq<seq<int>>, p: seq<int>, q: seq<int>, s: int, t: int, u: int)
    requires Square(g) && IsPath(g, p, s, t) && IsPath(g, q, t, u)
    ensures IsPath(g, p + q[1..], s, u)
  {
    if |q| > 1 {
      var q' := q[..|q| - 1];
      PathPrefix(g, q, t, u, |q| - 2);
      assert q[..|q| - 2 + 1] == q';
      PathConcat(g, p, q', s, t, q[|q| - 2]);
      PathExtend(g, p + q'[1..], s, q[|q| - 2], u);
      assert p + q'[1..] + [u] == p + q[1..];
    } else {
      assert p + q[1..] == p;
    }
  }
}
