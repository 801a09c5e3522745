/**
 * `floyd_warshall(graph)` of discrete_lab.py: the all-pairs distance matrix.
 *
 * The list of lists the source mutates is an `array2`.  Its contents are
 * specified by a fold over `seq<seq<Dist>>` that performs exactly the
 * source's writes in the source's order (`EdgeFill`, `DiagFill`, then
 * `Stages` of `Rows` of `Cols` of single `Step`s), so the in-place reads of
 * cells already rewritten in the current stage are part of the specification.
 * What that fold computes is then proved about the fold.
 */
module FloydWarshall {
  import opened ExtInt
  import opened Graphs
  import BellmanFord

  type Matrix = seq<seq<Dist>>

  /** An `n x n` matrix. */
  predicate Square(M: Matrix, n: nat)
  {
    |M| == n && forall i :: 0 <= i < n ==> |M[i]| == n
  }

  /** The assignment `distances[i][j] = x`. */
  function Set(M: Matrix, n: nat, i: nat, j: nat, x: Dist): (r: Matrix)
    requires Square(M, n) && i < n && j < n
    ensures Square(r, n)
    ensures forall a, b :: 0 <= a < n && 0 <= b < n ==> r[a][b] == if a == i && b == j then x else M[a][b]
  {
    M[i := M[i][j := x]]
  }

  /** The `n x n` matrix of +inf the source starts from. */
  function InfMatrix(n: nat): (M: Matrix)
    ensures Square(M, n)
    ensures forall a, b :: 0 <= a < n && 0 <= b < n ==> M[a][b] == Inf
  {
    seq(n, _ => seq(n, _ => Inf))
  }

  /** The matrix after `distances[u][v] = weight` for the first `m` yielded triples. */
  function EdgeFill(M: Matrix, g: Graph, m: nat): (r: Matrix)
    requires Valid(g) && Square(M, g.n) && m <= |g.edges|
    ensures Square(r, g.n)
  {
    if m == 0 then M
    else
      var e := g.edges[m - 1];
      Set(EdgeFill(M, g, m - 1), g.n, e.u, e.v, Fin(e.w))
  }

  /** The matrix after `distances[i][i] = 0` for the first `i` nodes. */
  function DiagFill(M: Matrix, n: nat, i: nat): (r: Matrix)
    requires Square(M, n) && i <= n
    ensures Square(r, n)
  {
    if i == 0 then M else Set(DiagFill(M, n, i - 1), n, i - 1, i - 1, Fin(0))
  }

  /** The matrix when the triple loop starts. */
  function InitMatrix(g: Graph): (M: Matrix)
    requires Valid(g)
    ensures Square(M, g.n)
  {
    DiagFill(EdgeFill(InfMatrix(g.n), g, |g.edges|), g.n, g.n)
  }

  /** The innermost update: cell (i, j) becomes the smaller of itself and the route through `k`. */
  function Step(M: Matrix, n: nat, k: nat, i: nat, j: nat): (r: Matrix)
    requires Square(M, n) && k < n && i < n && j < n
    ensures Square(r, n)
  {
    Set(M, n, i, j, Min(M[i][j], Add(M[i][k], M[k][j])))
  }

  /** Row `i` of stage `k`, after its first `j` columns. */
  function Cols(M: Matrix, n: nat, k: nat, i: nat, j: nat): (r: Matrix)
    requires Square(M, n) && k < n && i < n && j <= n
    ensures Square(r, n)
  {
    if j == 0 then M else Step(Cols(M, n, k, i, j - 1), n, k, i, j - 1)
  }

  /** Stage `k`, after its first `i` rows. */
  function Rows(M: Matrix, n: nat, k: nat, i: nat): (r: Matrix)
    requires Square(M, n) && k < n && i <= n
    ensures Square(r, n)
  {
    if i == 0 then M else Cols(Rows(M, n, k, i - 1), n, k, i - 1, n)
  }

  /** The matrix after the first `k` stages of the outer loop. */
  function Stages(M: Matrix, n: nat, k: nat): (r: Matrix)
    requires Square(M, n) && k <= n
    ensures Square(r, n)
  {
    if k == 0 then M else Rows(Stages(M, n, k - 1), n, k - 1, n)
  }

  /** What `floyd_warshall` returns. */
  function Spec(g: Graph): (M: Matrix)
    requires Valid(g)
    ensures Square(M, g.n)
  {
    Stages(InitMatrix(g), g.n, g.n)
  }

  /** The array holds the square matrix `M`. */
  predicate Matches(d: array2<Dist>, M: Matrix)
    reads d
  {
    && d.Length0 == |M| && d.Length1 == |M| && Square(M, |M|)
    && forall a, b :: 0 <= a < |M| && 0 <= b < |M| ==> d[a, b] == M[a][b]
  }

  /** Lines 51-65: build the matrix, then run the triple loop on it in place. */
  method FloydWarshall(g: Graph) returns (d: array2<Dist>)
    requires Valid(g)
    ensures fresh(d) && Matches(d, Spec(g))
  {
    d := new Dist[g.n, g.n]((_, _) => Inf);
    assert Matches(d, InfMatrix(g.n));
    FillEdges(d, g);
    FillDiagonal(d, EdgeFill(InfMatrix(g.n), g, |g.edges|));
    RunStages(d, InitMatrix(g));
  }

  /** Lines 60-63: the outer loop over `k`. */
  method RunStages(d: array2<Dist>, ghost M: Matrix)
    requires Matches(d, M)
    modifies d
    ensures Matches(d, Stages(M, |M|, |M|))
  {
    var k := 0;
    while k < d.Length0
      invariant 0 <= k <= |M|
      invariant Matches(d, Stages(M, |M|, k))
    {
      RunStage(d, k, Stages(M, |M|, k));
      k := k + 1;
    }
  }

  /** Lines 54-55: one assignment per yielded triple, later triples overwriting earlier ones. */
  method FillEdges(d: array2<Dist>, g: Graph)
    requires Valid(g) && Matches(d, InfMatrix(g.n))
    modifies d
    ensures Matches(d, EdgeFill(InfMatrix(g.n), g, |g.edges|))
  {
    var m := 0;
    while m < |g.edges|
      invariant 0 <= m <= |g.edges|
      invariant Matches(d, EdgeFill(InfMatrix(g.n), g, m))
    {
      var e := g.edges[m];
      assert e in g.edges;
      d[e.u, e.v] := Fin(e.w);
      m := m + 1;
    }
  }

  /** Lines 57-58: the diagonal is set to 0 after the edge fill. */
  method FillDiagonal(d: array2<Dist>, ghost M: Matrix)
    requires Matches(d, M)
    modifies d
    ensures Matches(d, DiagFill(M, |M|, |M|))
  {
    var i := 0;
    while i < d.Length0
      invariant 0 <= i <= |M|
      invariant Matches(d, DiagFill(M, |M|, i))
    {
      d[i, i] := Fin(0);
      i := i + 1;
    }
  }

  /** Lines 61-63 for one `k`: every row, every column, in place. */
  method RunStage(d: array2<Dist>, k: nat, ghost M: Matrix)
    requires Matches(d, M) && k < |M|
    modifies d
    ensures Matches(d, Rows(M, |M|, k, |M|))
  {
    var i := 0;
    while i < d.Length0
      invariant 0 <= i <= |M|
      invariant Matches(d, Rows(M, |M|, k, i))
    {
      RunRow(d, k, i, Rows(M, |M|, k, i));
      i := i + 1;
    }
  }

  /** Lines 62-63 for one `k` and one `i`. */
  method RunRow(d: array2<Dist>, k: nat, i: nat, ghost M: Matrix)
    requires Matches(d, M) && k < |M| && i < |M|
    modifies d
    ensures Matches(d, Cols(M, |M|, k, i, |M|))
  {
    var j := 0;
    while j < d.Length1
      invariant 0 <= j <= |M|
      invariant Matches(d, Cols(M, |M|, k, i, j))
    {
      d[i, j] := Min(d[i, j], Add(d[i, k], d[k, j]));
      j := j + 1;
    }
  }

  // ---------------------------------------------------------------------
  // The matrix before the triple loop (lines 51-58)

  /** Triple `x` joins `a` to `b`, and no later triple before index `m` does. */
  predicate LastTriple(edges: seq<Edge>, m: nat, x: int, a: int, b: int)
    requires m <= |edges|
  {
    && 0 <= x < m && edges[x].u == a && edges[x].v == b
    && forall y :: x < y < m ==> edges[y].u != a || edges[y].v != b
  }

  /** No triple before index `m` joins `a` to `b`. */
  predicate NoTriple(edges: seq<Edge>, m: nat, a: int, b: int)
    requires m <= |edges|
  {
    forall x :: 0 <= x < m ==> edges[x].u != a || edges[x].v != b
  }

  /** The `m`-th write of the edge fill sets its own cell and no other. */
  lemma EdgeFillLast(M: Matrix, g: Graph, m: nat, a: nat, b: nat)
    requires Valid(g) && Square(M, g.n) && 0 < m <= |g.edges| && a < g.n && b < g.n
    ensures EdgeFill(M, g, m)[a][b] ==
      if g.edges[m - 1].u == a && g.edges[m - 1].v == b then Fin(g.edges[m - 1].w) else EdgeFill(M, g, m - 1)[a][b]
  {
    assert g.edges[m - 1] in g.edges;
  }

  /** The edge fill leaves a cell alone unless a triple names it; then the last such triple wins. */
  lemma {:induction false} EdgeFillCell(M: Matrix, g: Graph, m: nat, a: nat, b: nat)
    requires Valid(g) && Square(M, g.n) && m <= |g.edges| && a < g.n && b < g.n
    ensures NoTriple(g.edges, m, a, b) ==> EdgeFill(M, g, m)[a][b] == M[a][b]
    ensures forall x :: LastTriple(g.edges, m, x, a, b) ==> EdgeFill(M, g, m)[a][b] == Fin(g.edges[x].w)
  {
    if m > 0 {
      EdgeFillCell(M, g, m - 1, a, b);
      EdgeFillLast(M, g, m, a, b);
      LastTripleStep(g.edges, m, a, b, EdgeFill(M, g, m - 1)[a][b], EdgeFill(M, g, m)[a][b], M[a][b]);
    }
  }

  /** One more write keeps "no triple: the old value; else the last triple's weight". */
  lemma LastTripleStep(edges: seq<Edge>, m: nat, a: int, b: int, before: Dist, after: Dist, start: Dist)
    requires 0 < m <= |edges|
    requires after == if edges[m - 1].u == a && edges[m - 1].v == b then Fin(edges[m - 1].w) else before
    requires NoTriple(edges, m - 1, a, b) ==> before == start
    requires forall x :: LastTriple(edges, m - 1, x, a, b) ==> before == Fin(edges[x].w)
    ensures NoTriple(edges, m, a, b) ==> after == start
    ensures forall x :: LastTriple(edges, m, x, a, b) ==> after == Fin(edges[x].w)
  {
    if edges[m - 1].u == a && edges[m - 1].v == b {
      forall x | LastTriple(edges, m, x, a, b)
        ensures x == m - 1
      {
      }
    } else {
      forall x | LastTriple(edges, m, x, a, b)
        ensures LastTriple(edges, m - 1, x, a, b)
      {
        assert x != m - 1;
      }
    }
  }

  /** After the edge fill a cell holds its old value or the weight of some triple naming it. */
  lemma {:induction false} EdgeFillSource(M: Matrix, g: Graph, m: nat, a: nat, b: nat)
    requires Valid(g) && Square(M, g.n) && m <= |g.edges| && a < g.n && b < g.n
    ensures EdgeFill(M, g, m)[a][b] == M[a][b] ||
      exists x :: 0 <= x < m && g.edges[x].u == a && g.edges[x].v == b && EdgeFill(M, g, m)[a][b] == Fin(g.edges[x].w)
  {
    if m > 0 {
      EdgeFillSource(M, g, m - 1, a, b);
      EdgeFillLast(M, g, m, a, b);
    }
  }

  /** The diagonal fill overwrites the first `i` diagonal cells with 0 and nothing else. */
  lemma {:induction false} DiagFillCell(M: Matrix, n: nat, i: nat, a: nat, b: nat)
    requires Square(M, n) && i <= n && a < n && b < n
    ensures DiagFill(M, n, i)[a][b] == if a == b && a < i then Fin(0) else M[a][b]
  {
    if i > 0 {
      DiagFillCell(M, n, i - 1, a, b);
    }
  }

  /**
   * The initial matrix: 0 on the diagonal even under a self-loop, the weight
   * of the last triple from `a` to `b` off the diagonal, +inf where there is none.
   */
  lemma InitEntries(g: Graph, a: nat, b: nat)
    requires Valid(g) && a < g.n && b < g.n
    ensures a == b ==> InitMatrix(g)[a][b] == Fin(0)
    ensures a != b && NoTriple(g.edges, |g.edges|, a, b) ==> InitMatrix(g)[a][b] == Inf
    ensures forall x :: a != b && LastTriple(g.edges, |g.edges|, x, a, b) ==> InitMatrix(g)[a][b] == Fin(g.edges[x].w)
  {
    EdgeFillCell(InfMatrix(g.n), g, |g.edges|, a, b);
    DiagFillCell(EdgeFill(InfMatrix(g.n), g, |g.edges|), g.n, g.n, a, b);
  }

  // ---------------------------------------------------------------------
  // Entries never increase (lines 60-63)

  /** Every entry of `A` is at most the same entry of `B`. */
  predicate LeMat(A: Matrix, B: Matrix, n: nat)
    requires Square(A, n) && Square(B, n)
  {
    forall a, b :: 0 <= a < n && 0 <= b < n ==> LessEq(A[a][b], B[a][b])
  }

  lemma LeMatTrans(A: Matrix, B: Matrix, C: Matrix, n: nat)
    requires Square(A, n) && Square(B, n) && Square(C, n)
    requires LeMat(A, B, n) && LeMat(B, C, n)
    ensures LeMat(A, C, n)
  {
    forall a, b | 0 <= a < n && 0 <= b < n
      ensures LessEq(A[a][b], C[a][b])
    {
      LessEqTrans(A[a][b], B[a][b], C[a][b]);
    }
  }

  lemma {:induction false} ColsNeverIncrease(M: Matrix, n: nat, k: nat, i: nat, j: nat, j': nat)
    requires Square(M, n) && k < n && i < n && j <= j' <= n
    ensures LeMat(Cols(M, n, k, i, j'), Cols(M, n, k, i, j), n)
  {
    if j < j' {
      var P := Cols(M, n, k, i, j' - 1);
      assert Cols(M, n, k, i, j') == Step(P, n, k, i, j' - 1);
      ColsNeverIncrease(M, n, k, i, j, j' - 1);
      LeMatTrans(Cols(M, n, k, i, j'), P, Cols(M, n, k, i, j), n);
    }
  }

  lemma {:induction false} RowsNeverIncrease(M: Matrix, n: nat, k: nat, i: nat, i': nat)
    requires Square(M, n) && k < n && i <= i' <= n
    ensures LeMat(Rows(M, n, k, i'), Rows(M, n, k, i), n)
  {
    if i < i' {
      var P := Rows(M, n, k, i' - 1);
      assert Rows(M, n, k, i') == Cols(P, n, k, i' - 1, n);
      assert Cols(P, n, k, i' - 1, 0) == P;
      RowsNeverIncrease(M, n, k, i, i' - 1);
      ColsNeverIncrease(P, n, k, i' - 1, 0, n);
      LeMatTrans(Rows(M, n, k, i'), P, Rows(M, n, k, i), n);
    }
  }

  lemma {:induction false} StagesNeverIncreaseFrom(M: Matrix, n: nat, k: nat, k': nat)
    requires Square(M, n) && k <= k' <= n
    ensures LeMat(Stages(M, n, k'), Stages(M, n, k), n)
  {
    if k < k' {
      var P := Stages(M, n, k' - 1);
      assert Stages(M, n, k') == Rows(P, n, k' - 1, n);
      assert Rows(P, n, k' - 1, 0) == P;
      StagesNeverIncreaseFrom(M, n, k, k' - 1);
      RowsNeverIncrease(P, n, k' - 1, 0, n);
      LeMatTrans(Stages(M, n, k'), P, Stages(M, n, k), n);
    }
  }

  /** No entry of the matrix increases from one outer iteration to a later one. */
  lemma StagesNeverIncrease(g: Graph, k: nat, k': nat)
    requires Valid(g) && k <= k' <= g.n
    ensures LeMat(Stages(InitMatrix(g), g.n, k'), Stages(InitMatrix(g), g.n, k), g.n)
  {
    StagesNeverIncreaseFrom(InitMatrix(g), g.n, k, k');
  }

  /** At the end of stage `k`, cell (a, b) is at most what the update of (a, b) wrote. */
  lemma CellUpdateBound(S: Matrix, n: nat, k: nat, a: nat, b: nat)
    requires Square(S, n) && k < n && a < n && b < n
    ensures LessEq(Rows(S, n, k, n)[a][b], Add(Cols(Rows(S, n, k, a), n, k, a, b)[a][k], Cols(Rows(S, n, k, a), n, k, a, b)[k][b]))
  {
    var R := Rows(S, n, k, a);
    var C := Cols(R, n, k, a, b);
    var W := Cols(R, n, k, a, b + 1);
    LaterRowsBelow(S, n, k, a, b);
    assert LessEq(W[a][b], Add(C[a][k], C[k][b]));
    LessEqTrans(Rows(S, n, k, n)[a][b], W[a][b], Add(C[a][k], C[k][b]));
  }

  /** The end of stage `k` is below every intermediate matrix of row `a`. */
  lemma LaterRowsBelow(S: Matrix, n: nat, k: nat, a: nat, b: nat)
    requires Square(S, n) && k < n && a < n && b < n
    ensures LeMat(Rows(S, n, k, n), Cols(Rows(S, n, k, a), n, k, a, b + 1), n)
  {
    var R := Rows(S, n, k, a);
    RowsNeverIncrease(S, n, k, a + 1, n);
    ColsNeverIncrease(R, n, k, a, b + 1, n);
    LeMatTrans(Rows(S, n, k, n), Rows(S, n, k, a + 1), Cols(R, n, k, a, b + 1), n);
  }

  /** The matrix the update of (a, b) reads is below the stage's start. */
  lemma ReadBelowStart(S: Matrix, n: nat, k: nat, a: nat, b: nat)
    requires Square(S, n) && k < n && a < n && b < n
    ensures LeMat(Cols(Rows(S, n, k, a), n, k, a, b), S, n)
  {
    var R := Rows(S, n, k, a);
    ColsNeverIncrease(R, n, k, a, 0, b);
    RowsNeverIncrease(S, n, k, 0, a);
    LeMatTrans(Cols(R, n, k, a, b), R, S, n);
  }

  // ---------------------------------------------------------------------
  // Soundness: every finite entry is the weight of a walk

  /** A finite `d` is the weight of a walk from `s` to `t` whose intermediate vertices are below `k`. */
  ghost predicate AttainedBelow(edges: seq<Edge>, s: int, t: int, k: int, d: Dist)
  {
    d.Fin? ==> exists p :: IsWalk(edges, s, t, p) && InterBelow(s, p, k) && Weight(p) == d.val
  }

  /** `d` is at most the weight of every walk from `s` to `t` whose intermediate vertices are below `k`. */
  ghost predicate BoundsBelow(edges: seq<Edge>, s: int, t: int, k: int, d: Dist)
  {
    forall p :: IsWalk(edges, s, t, p) && InterBelow(s, p, k) ==> LessEq(d, Fin(Weight(p)))
  }

  /** Every finite entry of `M` is attained by a walk through vertices below `k`. */
  ghost predicate WitnessedBelow(edges: seq<Edge>, M: Matrix, n: nat, k: int)
    requires Square(M, n)
  {
    forall a, b :: 0 <= a < n && 0 <= b < n ==> AttainedBelow(edges, a, b, k, M[a][b])
  }

  lemma InitWitnessed(g: Graph)
    requires Valid(g)
    ensures WitnessedBelow(g.edges, InitMatrix(g), g.n, 0)
  {
    var M := InitMatrix(g);
    forall a, b | 0 <= a < g.n && 0 <= b < g.n
      ensures AttainedBelow(g.edges, a, b, 0, M[a][b])
    {
      var E := EdgeFill(InfMatrix(g.n), g, |g.edges|);
      EdgeFillSource(InfMatrix(g.n), g, |g.edges|, a, b);
      DiagFillCell(E, g.n, g.n, a, b);
      if a == b {
        assert IsWalk(g.edges, a, b, []) && Weight([]) == 0;
      } else if M[a][b].Fin? {
        var x :| 0 <= x < |g.edges| && g.edges[x].u == a && g.edges[x].v == b && E[a][b] == Fin(g.edges[x].w);
        var p := [g.edges[x]];
        assert VertexAt(a, p, 0) == a;
        assert IsWalk(g.edges, a, b, p) && Weight(p) == g.edges[x].w;
      }
    }
  }

  /** Joining a walk to `k` with a walk from `k` keeps the intermediate vertices below `k + 1`. */
  lemma ConcatBelow(edges: seq<Edge>, i: int, k: int, j: int, p: seq<Edge>, q: seq<Edge>)
    requires IsWalk(edges, i, k, p) && InterBelow(i, p, k + 1)
    requires IsWalk(edges, k, j, q) && InterBelow(k, q, k + 1)
    ensures IsWalk(edges, i, j, p + q) && InterBelow(i, p + q, k + 1)
    ensures Weight(p + q) == Weight(p) + Weight(q)
  {
    WalkConcat(edges, i, k, j, p, q);
    WeightAppend(p, q);
    forall x | 0 < x < |p + q|
      ensures VertexAt(i, p + q, x) < k + 1
    {
      if x <= |p| {
        assert VertexAt(i, p + q, x) == VertexAt(i, p, x);
      } else {
        assert VertexAt(i, p + q, x) == VertexAt(k, q, x - |p|);
      }
    }
  }

  /** The new value of one cell is attained when the three cells it is computed from are. */
  lemma MinWitnessed(edges: seq<Edge>, i: int, k: int, j: int, dij: Dist, dik: Dist, dkj: Dist)
    requires AttainedBelow(edges, i, j, k + 1, dij)
    requires AttainedBelow(edges, i, k, k + 1, dik) && AttainedBelow(edges, k, j, k + 1, dkj)
    ensures AttainedBelow(edges, i, j, k + 1, Min(dij, Add(dik, dkj)))
  {
    if Less(Add(dik, dkj), dij) {
      SumAttained(edges, i, k, j, dik, dkj);
    }
  }

  /** A walk to `k` followed by a walk from `k` attains the sum of their weights. */
  lemma ConcatAttained(edges: seq<Edge>, i: int, k: int, j: int, p: seq<Edge>, q: seq<Edge>)
    requires IsWalk(edges, i, k, p) && InterBelow(i, p, k + 1)
    requires IsWalk(edges, k, j, q) && InterBelow(k, q, k + 1)
    ensures AttainedBelow(edges, i, j, k + 1, Fin(Weight(p) + Weight(q)))
  {
    ConcatBelow(edges, i, k, j, p, q);
  }

  /** Two attained entries meeting at `k` attain their sum. */
  lemma SumAttained(edges: seq<Edge>, i: int, k: int, j: int, dik: Dist, dkj: Dist)
    requires AttainedBelow(edges, i, k, k + 1, dik) && AttainedBelow(edges, k, j, k + 1, dkj)
    ensures AttainedBelow(edges, i, j, k + 1, Add(dik, dkj))
  {
    if dik.Fin? && dkj.Fin? {
      var p :| IsWalk(edges, i, k, p) && InterBelow(i, p, k + 1) && Weight(p) == dik.val;
      var q :| IsWalk(edges, k, j, q) && InterBelow(k, q, k + 1) && Weight(q) == dkj.val;
      ConcatAttained(edges, i, k, j, p, q);
    }
  }

  lemma StepWitnessed(edges: seq<Edge>, M: Matrix, n: nat, k: nat, i: nat, j: nat)
    requires Square(M, n) && k < n && i < n && j < n
    requires WitnessedBelow(edges, M, n, k + 1)
    ensures WitnessedBelow(edges, Step(M, n, k, i, j), n, k + 1)
  {
    MinWitnessed(edges, i, k, j, M[i][j], M[i][k], M[k][j]);
    var R := Step(M, n, k, i, j);
    forall a, b | 0 <= a < n && 0 <= b < n
      ensures AttainedBelow(edges, a, b, k + 1, R[a][b])
    {
      if a != i || b != j {
        assert R[a][b] == M[a][b];
      }
    }
  }

  /** Restates the invariant for a matrix given by another expression. */
  lemma WitnessedSame(edges: seq<Edge>, A: Matrix, B: Matrix, n: nat, k: int)
    requires Square(A, n) && A == B && WitnessedBelow(edges, A, n, k)
    ensures WitnessedBelow(edges, B, n, k)
  {
  }

  lemma {:induction false} ColsWitnessed(edges: seq<Edge>, M: Matrix, n: nat, k: nat, i: nat, j: nat)
    requires Square(M, n) && k < n && i < n && j <= n
    requires WitnessedBelow(edges, M, n, k + 1)
    ensures WitnessedBelow(edges, Cols(M, n, k, i, j), n, k + 1)
  {
    if j > 0 {
      var P := Cols(M, n, k, i, j - 1);
      assert Cols(M, n, k, i, j) == Step(P, n, k, i, j - 1);
      ColsWitnessed(edges, M, n, k, i, j - 1);
      StepWitnessed(edges, P, n, k, i, j - 1);
      WitnessedSame(edges, Step(P, n, k, i, j - 1), Cols(M, n, k, i, j), n, k + 1);
    }
  }

  /** Updating row `i` of a matrix `P` into `R` keeps the invariant. */
  lemma RowWitnessed(edges: seq<Edge>, P: Matrix, R: Matrix, n: nat, k: nat, i: nat)
    requires Square(P, n) && k < n && i < n && R == Cols(P, n, k, i, n)
    requires WitnessedBelow(edges, P, n, k + 1)
    ensures WitnessedBelow(edges, R, n, k + 1)
  {
    ColsWitnessed(edges, P, n, k, i, n);
  }

  lemma {:induction false} RowsWitnessed(edges: seq<Edge>, M: Matrix, n: nat, k: nat, i: nat)
    requires Square(M, n) && k < n && i <= n
    requires WitnessedBelow(edges, M, n, k + 1)
    ensures WitnessedBelow(edges, Rows(M, n, k, i), n, k + 1)
  {
    if i > 0 {
      RowsWitnessed(edges, M, n, k, i - 1);
      RowWitnessed(edges, Rows(M, n, k, i - 1), Rows(M, n, k, i), n, k, i - 1);
    }
  }

  /** A walk whose intermediate vertices are below `k` has them below any larger bound. */
  lemma WitnessedWiden(edges: seq<Edge>, M: Matrix, n: nat, k: int)
    requires Square(M, n) && WitnessedBelow(edges, M, n, k)
    ensures WitnessedBelow(edges, M, n, k + 1)
  {
    forall a, b | 0 <= a < n && 0 <= b < n
      ensures AttainedBelow(edges, a, b, k + 1, M[a][b])
    {
      if M[a][b].Fin? {
        var p :| IsWalk(edges, a, b, p) && InterBelow(a, p, k) && Weight(p) == M[a][b].val;
      }
    }
  }

  /** After `k` outer iterations every finite entry is attained by a walk through `0 .. k-1`. */
  lemma StagesWitnessed(g: Graph, k: nat)
    requires Valid(g) && k <= g.n
    ensures WitnessedBelow(g.edges, Stages(InitMatrix(g), g.n, k), g.n, k)
  {
    InitWitnessed(g);
    StagesWitnessedFrom(g.edges, InitMatrix(g), g.n, k);
  }

  lemma {:induction false} StagesWitnessedFrom(edges: seq<Edge>, M: Matrix, n: nat, k: nat)
    requires Square(M, n) && k <= n && WitnessedBelow(edges, M, n, 0)
    ensures WitnessedBelow(edges, Stages(M, n, k), n, k)
  {
    if k > 0 {
      StagesWitnessedFrom(edges, M, n, k - 1);
      StageWitnessed(edges, Stages(M, n, k - 1), n, k - 1);
    }
  }

  /** One outer iteration takes "attained below `k`" to "attained below `k + 1`". */
  lemma StageWitnessed(edges: seq<Edge>, S: Matrix, n: nat, k: nat)
    requires Square(S, n) && k < n && WitnessedBelow(edges, S, n, k)
    ensures WitnessedBelow(edges, Rows(S, n, k, n), n, k + 1)
  {
    WitnessedWiden(edges, S, n, k);
    RowsWitnessed(edges, S, n, k, n);
  }

  // ---------------------------------------------------------------------
  // Completeness: every entry is at most the weight of each elementary walk

  /** The walk is one self-loop triple, which the diagonal assignment hides. */
  predicate IsSelfLoop(s: int, t: int, p: seq<Edge>)
  {
    |p| == 1 && s == t
  }

  /** `d` is at most the weight of every elementary walk from `s` to `t` through vertices below `k`, self-loops aside. */
  ghost predicate ElemBounded(edges: seq<Edge>, s: int, t: int, k: int, d: Dist)
  {
    forall p :: IsWalk(edges, s, t, p) && Elementary(s, p) && InterBelow(s, p, k) && !IsSelfLoop(s, t, p) ==>
      LessEq(d, Fin(Weight(p)))
  }

  ghost predicate ElemBound(edges: seq<Edge>, M: Matrix, n: nat, k: int)
    requires Square(M, n)
  {
    forall a, b :: 0 <= a < n && 0 <= b < n ==> ElemBounded(edges, a, b, k, M[a][b])
  }

  /** Before the triple loop a walk with no intermediate vertex is empty or a single triple. */
  lemma InitPathBound(g: Graph, a: nat, b: nat, p: seq<Edge>)
    requires WellFormed(g) && a < g.n && b < g.n
    requires IsWalk(g.edges, a, b, p) && InterBelow(a, p, 0) && !IsSelfLoop(a, b, p)
    ensures LessEq(InitMatrix(g)[a][b], Fin(Weight(p)))
  {
    InitEntries(g, a, b);
    if |p| == 0 {
      assert VertexAt(a, p, 0) == b;
    } else if |p| == 1 {
      assert p[0] in g.edges;
      var x :| 0 <= x < |g.edges| && g.edges[x] == p[0];
      assert p[0].u == VertexAt(a, p, 0) && p[0].v == VertexAt(a, p, 1);
      assert LastTriple(g.edges, |g.edges|, x, a, b);
      assert p[..0] == [];
    } else {
      VertexIsNode(g, a, b, p, 1);
    }
  }

  lemma InitElemBound(g: Graph)
    requires WellFormed(g)
    ensures ElemBound(g.edges, InitMatrix(g), g.n, 0)
  {
    forall a, b | 0 <= a < g.n && 0 <= b < g.n
      ensures ElemBounded(g.edges, a, b, 0, InitMatrix(g)[a][b])
    {
      forall p | IsWalk(g.edges, a, b, p) && Elementary(a, p) && InterBelow(a, p, 0) && !IsSelfLoop(a, b, p)
        ensures LessEq(InitMatrix(g)[a][b], Fin(Weight(p)))
      {
        InitPathBound(g, a, b, p);
      }
    }
  }

  /** The part of an elementary walk before its visit to `k` avoids `k` and stays elementary. */
  lemma SplitPrefix(edges: seq<Edge>, a: int, b: int, p: seq<Edge>, m: int, k: int)
    requires IsWalk(edges, a, b, p) && Elementary(a, p) && InterBelow(a, p, k + 1)
    requires 0 < m < |p| && VertexAt(a, p, m) == k
    ensures IsWalk(edges, a, k, p[..m]) && Elementary(a, p[..m]) && InterBelow(a, p[..m], k)
    ensures !IsSelfLoop(a, k, p[..m])
  {
    WalkSlice(edges, a, b, p, 0, m);
    assert p[0..m] == p[..m];
    var q := p[..m];
    forall x, y | 0 <= x < y <= |q| && y - x < |q|
      ensures VertexAt(a, q, x) != VertexAt(a, q, y)
    {
      assert VertexAt(a, q, x) == VertexAt(a, p, x) && VertexAt(a, q, y) == VertexAt(a, p, y);
    }
    forall x | 0 < x < |q|
      ensures VertexAt(a, q, x) < k
    {
      assert VertexAt(a, q, x) == VertexAt(a, p, x);
    }
    assert VertexAt(a, p, 0) != VertexAt(a, p, m);
  }

  /** The part of an elementary walk after its visit to `k` avoids `k` and stays elementary. */
  lemma SplitSuffix(edges: seq<Edge>, a: int, b: int, p: seq<Edge>, m: int, k: int)
    requires IsWalk(edges, a, b, p) && Elementary(a, p) && InterBelow(a, p, k + 1)
    requires 0 < m < |p| && VertexAt(a, p, m) == k
    ensures IsWalk(edges, k, b, p[m..]) && Elementary(k, p[m..]) && InterBelow(k, p[m..], k)
    ensures !IsSelfLoop(k, b, p[m..])
  {
    WalkSlice(edges, a, b, p, m, |p|);
    assert p[m..|p|] == p[m..];
    var q := p[m..];
    forall x, y | 0 <= x < y <= |q| && y - x < |q|
      ensures VertexAt(k, q, x) != VertexAt(k, q, y)
    {
      assert VertexAt(k, q, x) == VertexAt(a, p, m + x) && VertexAt(k, q, y) == VertexAt(a, p, m + y);
    }
    forall x | 0 < x < |q|
      ensures VertexAt(k, q, x) < k
    {
      assert VertexAt(k, q, x) == VertexAt(a, p, m + x);
    }
    assert VertexAt(a, p, m) != VertexAt(a, p, |p|);
  }

  /** Stage `k` bounds cell (a, b) by an elementary walk through vertices up to `k`. */
  lemma StagePathBound(edges: seq<Edge>, S: Matrix, n: nat, k: nat, a: nat, b: nat, p: seq<Edge>)
    requires Square(S, n) && k < n && a < n && b < n && ElemBound(edges, S, n, k)
    requires IsWalk(edges, a, b, p) && Elementary(a, p) && InterBelow(a, p, k + 1) && !IsSelfLoop(a, b, p)
    ensures LessEq(Rows(S, n, k, n)[a][b], Fin(Weight(p)))
  {
    var R := Rows(S, n, k, n);
    if InterBelow(a, p, k) {
      assert ElemBounded(edges, a, b, k, S[a][b]);
      RowsNeverIncrease(S, n, k, 0, n);
      LessEqTrans(R[a][b], S[a][b], Fin(Weight(p)));
    } else {
      var m :| 0 < m < |p| && VertexAt(a, p, m) >= k;
      SplitPrefix(edges, a, b, p, m, k);
      SplitSuffix(edges, a, b, p, m, k);
      assert p == p[..m] + p[m..];
      WeightAppend(p[..m], p[m..]);
      assert ElemBounded(edges, a, k, k, S[a][k]) && ElemBounded(edges, k, b, k, S[k][b]);
      var C := Cols(Rows(S, n, k, a), n, k, a, b);
      CellUpdateBound(S, n, k, a, b);
      ReadBelowStart(S, n, k, a, b);
      LessEqTrans(C[a][k], S[a][k], Fin(Weight(p[..m])));
      LessEqTrans(C[k][b], S[k][b], Fin(Weight(p[m..])));
      AddMono(C[a][k], Fin(Weight(p[..m])), C[k][b], Fin(Weight(p[m..])));
      LessEqTrans(R[a][b], Add(C[a][k], C[k][b]), Fin(Weight(p)));
    }
  }

  lemma StageElemBound(edges: seq<Edge>, S: Matrix, n: nat, k: nat)
    requires Square(S, n) && k < n && ElemBound(edges, S, n, k)
    ensures ElemBound(edges, Rows(S, n, k, n), n, k + 1)
  {
    forall a, b | 0 <= a < n && 0 <= b < n
      ensures ElemBounded(edges, a, b, k + 1, Rows(S, n, k, n)[a][b])
    {
      forall p | IsWalk(edges, a, b, p) && Elementary(a, p) && InterBelow(a, p, k + 1) && !IsSelfLoop(a, b, p)
        ensures LessEq(Rows(S, n, k, n)[a][b], Fin(Weight(p)))
      {
        StagePathBound(edges, S, n, k, a, b, p);
      }
    }
  }

  lemma {:induction false} StagesElemBoundFrom(edges: seq<Edge>, M: Matrix, n: nat, k: nat)
    requires Square(M, n) && k <= n && ElemBound(edges, M, n, 0)
    ensures ElemBound(edges, Stages(M, n, k), n, k)
  {
    if k > 0 {
      StagesElemBoundFrom(edges, M, n, k - 1);
      StageElemBound(edges, Stages(M, n, k - 1), n, k - 1);
    }
  }

  /** After `k` outer iterations no entry exceeds an elementary walk through `0 .. k-1`, self-loops aside. */
  lemma StagesElemBound(g: Graph, k: nat)
    requires WellFormed(g) && k <= g.n
    ensures ElemBound(g.edges, Stages(InitMatrix(g), g.n, k), g.n, k)
  {
    InitElemBound(g);
    StagesElemBoundFrom(g.edges, InitMatrix(g), g.n, k);
  }

  // ---------------------------------------------------------------------
  // Shortest distances

  /** `d` is the least weight of a walk from `s` to `t` through vertices below `k`; +inf when there is none. */
  ghost predicate ShortestBelow(edges: seq<Edge>, s: int, t: int, k: int, d: Dist)
  {
    AttainedBelow(edges, s, t, k, d) && BoundsBelow(edges, s, t, k, d)
  }

  /** Without negative closed walks, the elementary bound covers every walk. */
  lemma BoundByElementary(g: Graph, a: nat, b: nat, k: int, p: seq<Edge>, d: Dist)
    requires Valid(g) && !NegativeCycle(g.edges) && a < g.n && b < g.n
    requires IsWalk(g.edges, a, b, p) && InterBelow(a, p, k) && ElemBounded(g.edges, a, b, k, d)
    ensures LessEq(d, Fin(Weight(p)))
  {
    assert !NegCycleReachable(g.edges, a);
    var q := ToSimple(g.edges, a, b, p, k);
    assert |q| == 1 ==> VertexAt(a, q, 0) != VertexAt(a, q, 1);
    assert Elementary(a, q);
    LessEqTrans(d, Fin(Weight(q)), Fin(Weight(p)));
  }

  /**
   * The dynamic-programming invariant: with no negative cycle, after `k`
   * outer iterations `d[a][b]` is the least weight of a walk from `a` to `b`
   * whose intermediate vertices all lie in `0 .. k-1`.
   */
  lemma StageShortest(g: Graph, k: nat, a: nat, b: nat)
    requires WellFormed(g) && !NegativeCycle(g.edges) && k <= g.n && a < g.n && b < g.n
    ensures ShortestBelow(g.edges, a, b, k, Stages(InitMatrix(g), g.n, k)[a][b])
  {
    var D := Stages(InitMatrix(g), g.n, k);
    StagesWitnessed(g, k);
    StagesElemBound(g, k);
    assert AttainedBelow(g.edges, a, b, k, D[a][b]);
    assert ElemBounded(g.edges, a, b, k, D[a][b]);
    forall p | IsWalk(g.edges, a, b, p) && InterBelow(a, p, k)
      ensures LessEq(D[a][b], Fin(Weight(p)))
    {
      BoundByElementary(g, a, b, k, p, D[a][b]);
    }
  }

  /** With no negative cycle every entry of the result is the shortest distance. */
  lemma FinalShortest(g: Graph, a: nat, b: nat)
    requires WellFormed(g) && !NegativeCycle(g.edges) && a < g.n && b < g.n
    ensures IsShortest(g.edges, a, b, Spec(g)[a][b])
  {
    var d := Spec(g)[a][b];
    StageShortest(g, g.n, a, b);
    if d.Fin? {
      var p :| IsWalk(g.edges, a, b, p) && InterBelow(a, p, g.n) && Weight(p) == d.val;
    }
    forall p | IsWalk(g.edges, a, b, p)
      ensures LessEq(d, Fin(Weight(p)))
    {
      WalkInterBelowN(g, a, b, p);
    }
  }

  /** Every diagonal entry of the result is finite and at most 0. */
  lemma DiagonalNonPositive(g: Graph, a: nat)
    requires Valid(g) && a < g.n
    ensures Spec(g)[a][a].Fin? && Spec(g)[a][a].val <= 0
  {
    InitEntries(g, a, a);
    StagesNeverIncrease(g, 0, g.n);
    assert LessEq(Spec(g)[a][a], InitMatrix(g)[a][a]);
  }

  /** No closed walk of negative weight passes through `a`. */
  ghost predicate NoNegativeCycleAt(edges: seq<Edge>, a: int)
  {
    forall c :: IsWalk(edges, a, a, c) ==> Weight(c) >= 0
  }

  /** With no negative cycle through node `a`, the diagonal entry of `a` in the result is 0. */
  lemma ZeroDiagonal(g: Graph, a: nat)
    requires Valid(g) && NoNegativeCycleAt(g.edges, a) && a < g.n
    ensures Spec(g)[a][a] == Fin(0)
  {
    var d := Spec(g)[a][a];
    DiagonalNonPositive(g, a);
    StagesWitnessed(g, g.n);
    assert AttainedBelow(g.edges, a, a, g.n, d);
    var c :| IsWalk(g.edges, a, a, c) && InterBelow(a, c, g.n) && Weight(c) == d.val;
  }

  /** With no negative cycle the result satisfies the triangle inequality. */
  lemma TriangleInequality(g: Graph, i: nat, j: nat, k: nat)
    requires WellFormed(g) && !NegativeCycle(g.edges) && i < g.n && j < g.n && k < g.n
    ensures LessEq(Spec(g)[i][j], Add(Spec(g)[i][k], Spec(g)[k][j]))
  {
    var D: Matrix := Spec(g);
    FinalShortest(g, i, k);
    FinalShortest(g, k, j);
    FinalShortest(g, i, j);
    BoundThrough(g.edges, i, k, j, D[i][j], D[i][k], D[k][j]);
  }

  /** A bound on all walks from `i` to `j` bounds the sum of two attained distances meeting at `k`. */
  lemma BoundThrough(edges: seq<Edge>, i: int, k: int, j: int, dij: Dist, dik: Dist, dkj: Dist)
    requires Bounds(edges, i, j, dij) && Attained(edges, i, k, dik) && Attained(edges, k, j, dkj)
    ensures LessEq(dij, Add(dik, dkj))
  {
    if dik.Fin? && dkj.Fin? {
      var p :| IsWalk(edges, i, k, p) && Weight(p) == dik.val;
      var q :| IsWalk(edges, k, j, q) && Weight(q) == dkj.val;
      WalkConcat(edges, i, k, j, p, q);
      WeightAppend(p, q);
      assert LessEq(dij, Fin(Weight(p + q)));
    }
  }

  /** An entry of the result is +inf exactly when no walk joins its two nodes, negative cycles or not. */
  lemma InfIffNoWalk(g: Graph, a: nat, b: nat)
    requires WellFormed(g) && a < g.n && b < g.n
    ensures Spec(g)[a][b] == Inf <==> forall p :: !IsWalk(g.edges, a, b, p)
  {
    var d := Spec(g)[a][b];
    StagesWitnessed(g, g.n);
    StagesElemBound(g, g.n);
    assert AttainedBelow(g.edges, a, b, g.n, d) && ElemBounded(g.edges, a, b, g.n, d);
    if p :| IsWalk(g.edges, a, b, p) {
      var q := ToSimple(g.edges, a, b, p, g.n);
      WalkInterBelowN(g, a, b, q);
      assert |q| == 1 ==> VertexAt(a, q, 0) != VertexAt(a, q, 1);
      assert Elementary(a, q);
      assert LessEq(d, Fin(Weight(q)));
    }
    if d.Fin? {
      var p :| IsWalk(g.edges, a, b, p) && InterBelow(a, p, g.n) && Weight(p) == d.val;
    }
  }

  /** Some triple is a self-loop of negative weight. */
  ghost predicate NegativeSelfLoop(edges: seq<Edge>)
  {
    exists e :: e in edges && e.u == e.v && e.w < 0
  }

  /** Some diagonal entry of the matrix is below 0. */
  ghost predicate NegativeDiagonal(M: Matrix, n: nat)
    requires Square(M, n)
  {
    exists a :: 0 <= a < n && Less(M[a][a], Fin(0))
  }

  /**
   * A negative cycle shows on the diagonal of the result unless its only
   * negative elementary cycles are self-loops, which the assignment of 0 hides.
   */
  lemma NegativeCycleShows(g: Graph)
    requires WellFormed(g)
    ensures NegativeCycle(g.edges) <==> NegativeDiagonal(Spec(g), g.n) || NegativeSelfLoop(g.edges)
  {
    NegativeCycleSeen(g);
    NegativeDiagonalIsCycle(g);
    NegativeSelfLoopIsCycle(g.edges);
  }

  /** A negative diagonal entry of the result is the weight of a negative closed walk. */
  lemma NegativeDiagonalIsCycle(g: Graph)
    requires Valid(g)
    ensures NegativeDiagonal(Spec(g), g.n) ==> NegativeCycle(g.edges)
  {
    if NegativeDiagonal(Spec(g), g.n) {
      var a :| 0 <= a < g.n && Less(Spec(g)[a][a], Fin(0));
      StagesWitnessed(g, g.n);
      assert AttainedBelow(g.edges, a, a, g.n, Spec(g)[a][a]);
      var c :| IsWalk(g.edges, a, a, c) && InterBelow(a, c, g.n) && Weight(c) == Spec(g)[a][a].val;
    }
  }

  /** A negative self-loop is a negative cycle. */
  lemma NegativeSelfLoopIsCycle(edges: seq<Edge>)
    ensures NegativeSelfLoop(edges) ==> NegativeCycle(edges)
  {
    if NegativeSelfLoop(edges) {
      var e :| e in edges && e.u == e.v && e.w < 0;
      assert [e][..0] == [];
      assert IsWalk(edges, e.u, e.u, [e]) && Weight([e]) == e.w;
    }
  }

  lemma NegativeCycleSeen(g: Graph)
    requires WellFormed(g)
    ensures NegativeCycle(g.edges) ==> NegativeDiagonal(Spec(g), g.n) || NegativeSelfLoop(g.edges)
  {
    if NegativeCycle(g.edges) {
      var x, c :| IsWalk(g.edges, x, x, c) && Weight(c) < 0;
      var y, e := ElementaryNegativeCycle(g.edges, x, c);
      assert e != [];
      WalkInterBelowN(g, y, y, e);
      if |e| == 1 {
        assert e[0] in g.edges && e[0].u == VertexAt(y, e, 0) && e[..0] == [];
        assert e[0].u == e[0].v && e[0].w < 0;
      } else {
        StagesElemBound(g, g.n);
        assert ElemBounded(g.edges, y, y, g.n, Spec(g)[y][y]);
        assert LessEq(Spec(g)[y][y], Fin(Weight(e)));
      }
    }
  }

  /** A single negative self-loop: a negative cycle the result does not show. */
  lemma SelfLoopHidden()
    ensures var g := Graph(1, [Edge(0, 0, -1)]);
      WellFormed(g) && NegativeCycle(g.edges) && !NegativeDiagonal(Spec(g), g.n)
  {
    var g := Graph(1, [Edge(0, 0, -1)]);
    var c := [Edge(0, 0, -1)];
    assert c[..0] == [];
    assert IsWalk(g.edges, 0, 0, c) && Weight(c) == -1;
    var M0 := InitMatrix(g);
    assert EdgeFill(InfMatrix(1), g, 1)[0][0] == Fin(-1);
    assert M0[0][0] == Fin(0);
    assert Spec(g) == Step(M0, 1, 0, 0, 0);
    assert Spec(g)[0][0] == Fin(0);
  }

  /** With no negative cycle, Bellman-Ford from `s` succeeds and agrees with row `s` of the result. */
  lemma AgreesWithBellmanFord(g: Graph, s: nat, v: nat)
    requires WellFormed(g) && !NegativeCycle(g.edges) && s < g.n && v < g.n
    ensures BellmanFord.Spec(g, s).Distances?
    ensures v in BellmanFord.Spec(g, s).dist && BellmanFord.Spec(g, s).dist[v] == Spec(g)[s][v]
  {
    BellmanFord.SpecFacts(g, s);
    assert !NegCycleReachable(g.edges, s);
    var dist := BellmanFord.Spec(g, s).dist;
    assert dist.Keys == BellmanFord.Initial(g.n, s).Keys;
    assert v in dist;
    FinalShortest(g, s, v);
    ShortestUnique(g.edges, s, v, dist[v], Spec(g)[s][v]);
  }
}
