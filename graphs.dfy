/**
 * The graph both shortest-path engines read, and the walks they are about.
 *
 * A graph is its node count `n` (the nodes are 0 .. n-1) together with the
 * sequence of `(u, v, weight)` triples that `graph.edges(data='weight')`
 * yields.  The engines follow each triple only in the orientation it is
 * yielded in, so a walk here is a sequence of yielded triples, head to tail.
 */
module Graphs {
  import opened ExtInt

  datatype Edge = Edge(u: int, v: int, w: int)

  datatype Graph = Graph(n: nat, edges: seq<Edge>)

  /** Every edge joins two of the graph's nodes. */
  predicate Valid(g: Graph)
  {
    forall e :: e in g.edges ==> 0 <= e.u < g.n && 0 <= e.v < g.n
  }

  /** The networkx invariant: at most one yielded triple per ordered pair. */
  predicate WellFormed(g: Graph)
  {
    && Valid(g)
    && forall a, b :: 0 <= a < b < |g.edges| ==>
         g.edges[a].u != g.edges[b].u || g.edges[a].v != g.edges[b].v
  }

  /** The i-th vertex visited by the walk `p` that starts at `s`. */
  function VertexAt(s: int, p: seq<Edge>, i: int): int
    requires 0 <= i <= |p|
  {
    if i == 0 then s else p[i - 1].v
  }

  /** `p` is a walk from `s` to `t` along triples of `edges`. */
  ghost predicate IsWalk(edges: seq<Edge>, s: int, t: int, p: seq<Edge>)
  {
    && (forall i :: 0 <= i < |p| ==> p[i] in edges)
    && (forall i {:trigger VertexAt(s, p, i)} :: 0 <= i < |p| ==> p[i].u == VertexAt(s, p, i))
    && VertexAt(s, p, |p|) == t
  }

  /** The summed weight of a walk. */
  function Weight(p: seq<Edge>): int
  {
    if p == [] then 0 else Weight(p[..|p| - 1]) + p[|p| - 1].w
  }

  /** No vertex is visited twice (so a simple walk from `s` to `s` is empty). */
  ghost predicate Simple(s: int, p: seq<Edge>)
  {
    forall a, b :: 0 <= a < b <= |p| ==> VertexAt(s, p, a) != VertexAt(s, p, b)
  }

  /** A simple path, or a simple cycle: only the first and the last vertex may coincide. */
  ghost predicate Elementary(s: int, p: seq<Edge>)
  {
    forall a, b :: 0 <= a < b <= |p| && b - a < |p| ==> VertexAt(s, p, a) != VertexAt(s, p, b)
  }

  /** Every intermediate vertex (neither the first nor the last) is below `k`. */
  ghost predicate InterBelow(s: int, p: seq<Edge>, k: int)
  {
    forall i :: 0 < i < |p| ==> VertexAt(s, p, i) < k
  }

  /** Some closed walk of negative weight can be reached from `s`. */
  ghost predicate NegCycleReachable(edges: seq<Edge>, s: int)
  {
    exists x, pr, c :: IsWalk(edges, s, x, pr) && IsWalk(edges, x, x, c) && Weight(c) < 0
  }

  /** The graph has a closed walk of negative weight. */
  ghost predicate NegativeCycle(edges: seq<Edge>)
  {
    exists x, c :: IsWalk(edges, x, x, c) && Weight(c) < 0
  }

  /** `d` is the weight of some walk from `s` to `t`, if it is finite. */
  ghost predicate Attained(edges: seq<Edge>, s: int, t: int, d: Dist)
  {
    d.Fin? ==> exists p :: IsWalk(edges, s, t, p) && Weight(p) == d.val
  }

  /** `d` is no greater than the weight of any walk from `s` to `t`. */
  ghost predicate Bounds(edges: seq<Edge>, s: int, t: int, d: Dist)
  {
    forall p :: IsWalk(edges, s, t, p) ==> LessEq(d, Fin(Weight(p)))
  }

  /** `d` is the shortest distance from `s` to `t`: +inf exactly when there is no walk. */
  ghost predicate IsShortest(edges: seq<Edge>, s: int, t: int, d: Dist)
  {
    Attained(edges, s, t, d) && Bounds(edges, s, t, d)
  }

  lemma ShortestUnique(edges: seq<Edge>, s: int, t: int, d1: Dist, d2: Dist)
    requires IsShortest(edges, s, t, d1) && IsShortest(edges, s, t, d2)
    ensures d1 == d2
  {
    if d1.Fin? {
      var p :| IsWalk(edges, s, t, p) && Weight(p) == d1.val;
      assert LessEq(d2, Fin(Weight(p)));
    }
    if d2.Fin? {
      var p :| IsWalk(edges, s, t, p) && Weight(p) == d2.val;
      assert LessEq(d1, Fin(Weight(p)));
    }
  }

  /** A shortest distance is +inf exactly when no walk exists. */
  lemma ShortestInfIffNoWalk(edges: seq<Edge>, s: int, t: int, d: Dist)
    requires IsShortest(edges, s, t, d)
    ensures d == Inf <==> forall p :: !IsWalk(edges, s, t, p)
  {
    if d.Fin? {
      var p :| IsWalk(edges, s, t, p) && Weight(p) == d.val;
    }
  }

  lemma {:induction false} WeightAppend(a: seq<Edge>, b: seq<Edge>)
    ensures Weight(a + b) == Weight(a) + Weight(b)
    decreases |b|
  {
    if b == [] {
      assert a + b == a;
    } else {
      var b' := b[..|b| - 1];
      assert (a + b)[..|a + b| - 1] == a + b';
      WeightAppend(a, b');
    }
  }

  /** Weight splits at every position "a" and "b" of "p". */
  lemma WeightSplit3(p: seq<Edge>, a: int, b: int)
    requires 0 <= a <= b <= |p|
    ensures Weight(p) == Weight(p[..a]) + Weight(p[a..b]) + Weight(p[b..])
    ensures Weight(p[..a] + p[b..]) == Weight(p[..a]) + Weight(p[b..])
  {
    assert p == p[..a] + p[a..b] + p[b..];
    WeightAppend(p[..a] + p[a..b], p[b..]);
    WeightAppend(p[..a], p[a..b]);
    WeightAppend(p[..a], p[b..]);
  }

  lemma WalkConcat(edges: seq<Edge>, s: int, x: int, t: int, p: seq<Edge>, q: seq<Edge>)
    requires IsWalk(edges, s, x, p) && IsWalk(edges, x, t, q)
    ensures IsWalk(edges, s, t, p + q)
    ensures forall i :: 0 <= i <= |p| ==> VertexAt(s, p + q, i) == VertexAt(s, p, i)
    ensures forall i :: |p| <= i <= |p| + |q| ==> VertexAt(s, p + q, i) == VertexAt(x, q, i - |p|)
  {
    forall i | 0 <= i <= |p|
      ensures VertexAt(s, p + q, i) == VertexAt(s, p, i)
    {
    }
    forall i | |p| <= i <= |p| + |q|
      ensures VertexAt(s, p + q, i) == VertexAt(x, q, i - |p|)
    {
    }
  }

  lemma WalkSlice(edges: seq<Edge>, s: int, t: int, p: seq<Edge>, a: int, b: int)
    requires IsWalk(edges, s, t, p) && 0 <= a <= b <= |p|
    ensures IsWalk(edges, VertexAt(s, p, a), VertexAt(s, p, b), p[a..b])
    ensures forall i :: 0 <= i <= b - a ==> VertexAt(VertexAt(s, p, a), p[a..b], i) == VertexAt(s, p, a + i)
  {
    var x := VertexAt(s, p, a);
    forall i | 0 <= i <= b - a
      ensures VertexAt(x, p[a..b], i) == VertexAt(s, p, a + i)
    {
    }
  }

  /** The vertices of a walk with the stretch between positions `a` and `b` cut out. */
  lemma CutVertices(s: int, p: seq<Edge>, a: int, b: int)
    requires 0 <= a < b <= |p| && VertexAt(s, p, a) == VertexAt(s, p, b)
    ensures forall i :: 0 <= i <= a ==> VertexAt(s, p[..a] + p[b..], i) == VertexAt(s, p, i)
    ensures forall i :: a <= i <= |p| - (b - a) ==> VertexAt(s, p[..a] + p[b..], i) == VertexAt(s, p, i + b - a)
  {
    var r := p[..a] + p[b..];
    forall i | 0 <= i <= a
      ensures VertexAt(s, r, i) == VertexAt(s, p, i)
    {
      if i > 0 {
        assert r[i - 1] == p[i - 1];
      }
    }
    forall i | a <= i <= |r|
      ensures VertexAt(s, r, i) == VertexAt(s, p, i + b - a)
    {
      if i > a {
        assert r[i - 1] == p[i - 1 + b - a];
      } else if a > 0 {
        assert r[a - 1] == p[a - 1];
      }
    }
  }

  /** Cutting the closed stretch between positions `a` and `b` out of a walk leaves a walk. */
  lemma CutCycle(edges: seq<Edge>, s: int, t: int, p: seq<Edge>, a: int, b: int)
    requires IsWalk(edges, s, t, p) && 0 <= a < b <= |p| && VertexAt(s, p, a) == VertexAt(s, p, b)
    ensures IsWalk(edges, s, VertexAt(s, p, a), p[..a])
    ensures IsWalk(edges, VertexAt(s, p, a), VertexAt(s, p, a), p[a..b])
    ensures IsWalk(edges, s, t, p[..a] + p[b..])
    ensures forall i :: 0 <= i <= a ==> VertexAt(s, p[..a] + p[b..], i) == VertexAt(s, p, i)
    ensures forall i :: a <= i <= |p| - (b - a) ==> VertexAt(s, p[..a] + p[b..], i) == VertexAt(s, p, i + b - a)
    ensures Weight(p) == Weight(p[..a] + p[b..]) + Weight(p[a..b])
  {
    WalkSlice(edges, s, t, p, 0, a);
    assert p[0..a] == p[..a];
    WalkSlice(edges, s, t, p, a, b);
    CutWalk(edges, s, t, p, a, b);
    WeightSplit3(p, a, b);
  }

  lemma CutWalk(edges: seq<Edge>, s: int, t: int, p: seq<Edge>, a: int, b: int)
    requires IsWalk(edges, s, t, p) && 0 <= a < b <= |p| && VertexAt(s, p, a) == VertexAt(s, p, b)
    ensures IsWalk(edges, s, t, p[..a] + p[b..])
    ensures forall i :: 0 <= i <= a ==> VertexAt(s, p[..a] + p[b..], i) == VertexAt(s, p, i)
    ensures forall i :: a <= i <= |p| - (b - a) ==> VertexAt(s, p[..a] + p[b..], i) == VertexAt(s, p, i + b - a)
  {
    var r := p[..a] + p[b..];
    CutVertices(s, p, a, b);
    forall i | 0 <= i < |r|
      ensures r[i] in edges
    {
      if i < a {
        assert r[i] == p[i];
      } else {
        assert r[i] == p[i + b - a];
      }
    }
    forall i | 0 <= i < |r|
      ensures r[i].u == VertexAt(s, r, i)
    {
      if i < a {
        assert r[i] == p[i];
      } else {
        assert r[i] == p[i + b - a];
      }
    }
    assert VertexAt(s, r, |r|) == VertexAt(s, p, |p|);
  }

  /**
   * Cycle removal: every walk contains a simple walk between the same ends
   * whose intermediate vertices are among the original's, and which is no
   * heavier when no negative closed walk can be reached from the start.
   */
  lemma ToSimple(edges: seq<Edge>, s: int, t: int, p: seq<Edge>, k: int) returns (q: seq<Edge>)
    requires IsWalk(edges, s, t, p)
    ensures IsWalk(edges, s, t, q) && Simple(s, q) && |q| <= |p|
    ensures InterBelow(s, p, k) ==> InterBelow(s, q, k)
    ensures !NegCycleReachable(edges, s) ==> Weight(q) <= Weight(p)
    decreases |p|
  {
    if Simple(s, p) {
      return p;
    }
    var a, b :| 0 <= a < b <= |p| && VertexAt(s, p, a) == VertexAt(s, p, b);
    var x := VertexAt(s, p, a);
    CutCycle(edges, s, t, p, a, b);
    var r := p[..a] + p[b..];
    if !NegCycleReachable(edges, s) {
      assert IsWalk(edges, s, x, p[..a]) && IsWalk(edges, x, x, p[a..b]);
    }
    if InterBelow(s, p, k) {
      forall i | 0 < i < |r|
        ensures VertexAt(s, r, i) < k
      {
        if i <= a {
          assert VertexAt(s, r, i) == VertexAt(s, p, i);
        } else {
          assert VertexAt(s, r, i) == VertexAt(s, p, i + b - a);
        }
      }
    }
    q := ToSimple(edges, s, t, r, k);
  }

  /** No value repeats in `vs` and all lie in [0, n), so there are at most `n` of them. */
  lemma {:induction false} DistinctBelow(vs: seq<int>, n: nat)
    requires forall i :: 0 <= i < |vs| ==> 0 <= vs[i] < n
    requires forall i, j :: 0 <= i < j < |vs| ==> vs[i] != vs[j]
    ensures |vs| <= n
    decreases n
  {
    if |vs| == 0 {
      return;
    }
    assert 0 <= vs[0] < n;
    if idx :| 0 <= idx < |vs| && vs[idx] == n - 1 {
      var ws := vs[..idx] + vs[idx + 1..];
      assert forall i :: 0 <= i < |ws| ==> ws[i] == if i < idx then vs[i] else vs[i + 1];
      DistinctBelow(ws, n - 1);
    } else {
      DistinctBelow(vs, n - 1);
    }
  }

  /** A non-empty simple walk in a valid graph visits at most `n` vertices. */
  lemma SimpleWalkShort(g: Graph, s: int, t: int, q: seq<Edge>)
    requires Valid(g) && IsWalk(g.edges, s, t, q) && Simple(s, q) && |q| > 0
    ensures |q| < g.n
  {
    var vs := seq(|q| + 1, i requires 0 <= i <= |q| => VertexAt(s, q, i));
    forall i | 0 <= i < |vs|
      ensures 0 <= vs[i] < g.n
    {
      if i == 0 {
        assert q[0] in g.edges;
      } else {
        assert q[i - 1] in g.edges;
      }
    }
    DistinctBelow(vs, g.n);
  }

  /** A non-empty walk leaves its start along its first triple. */
  lemma FirstEdgeLeavesStart(edges: seq<Edge>, s: int, t: int, p: seq<Edge>)
    requires IsWalk(edges, s, t, p) && |p| > 0
    ensures p[0] in edges && p[0].u == s
  {
    assert p[0].u == VertexAt(s, p, 0);
  }

  /** In a valid graph every vertex a walk reaches after its start is a node. */
  lemma VertexIsNode(g: Graph, s: int, t: int, p: seq<Edge>, i: int)
    requires Valid(g) && IsWalk(g.edges, s, t, p) && 0 < i <= |p|
    ensures 0 <= VertexAt(s, p, i) < g.n
  {
    assert p[i - 1] in g.edges;
  }

  /** In a valid graph every intermediate vertex of a walk is a node. */
  lemma WalkInterBelowN(g: Graph, s: int, t: int, p: seq<Edge>)
    requires Valid(g) && IsWalk(g.edges, s, t, p)
    ensures InterBelow(s, p, g.n)
    ensures |p| > 0 ==> 0 <= s < g.n && 0 <= t < g.n
  {
    forall i | 0 < i < |p|
      ensures VertexAt(s, p, i) < g.n
    {
      assert p[i - 1] in g.edges;
    }
    if |p| > 0 {
      assert p[0] in g.edges && p[0].u == VertexAt(s, p, 0);
      assert p[|p| - 1] in g.edges;
    }
  }

  /** A negative closed walk contains a negative simple cycle. */
  lemma ElementaryNegativeCycle(edges: seq<Edge>, x: int, c: seq<Edge>) returns (y: int, e: seq<Edge>)
    requires IsWalk(edges, x, x, c) && Weight(c) < 0
    ensures IsWalk(edges, y, y, e) && Elementary(y, e) && Weight(e) < 0
    decreases |c|
  {
    if Elementary(x, c) {
      return x, c;
    }
    var a, b :| 0 <= a < b <= |c| && b - a < |c| && VertexAt(x, c, a) == VertexAt(x, c, b);
    var z := VertexAt(x, c, a);
    CutCycle(edges, x, x, c, a, b);
    if Weight(c[a..b]) < 0 {
      y, e := ElementaryNegativeCycle(edges, z, c[a..b]);
    } else {
      y, e := ElementaryNegativeCycle(edges, x, c[..a] + c[b..]);
    }
  }

  /** Every triple goes from a smaller node to a larger one. */
  predicate Ascending(edges: seq<Edge>)
  {
    forall e :: e in edges ==> e.u < e.v
  }

  /** Along ascending triples a non-empty walk ends above where it starts. */
  lemma {:induction false} WalkClimbs(edges: seq<Edge>, s: int, t: int, p: seq<Edge>)
    requires Ascending(edges) && IsWalk(edges, s, t, p)
    ensures s <= t
    ensures |p| > 0 ==> s < t
    decreases |p|
  {
    if |p| > 0 {
      var m := VertexAt(s, p, |p| - 1);
      WalkSlice(edges, s, t, p, 0, |p| - 1);
      WalkClimbs(edges, s, m, p[0..|p| - 1]);
      assert p[|p| - 1] in edges && p[|p| - 1].u == m;
    }
  }

  /** Ascending triples close no walk, so in particular no negative one. */
  lemma AscendingHasNoNegativeCycle(edges: seq<Edge>)
    requires Ascending(edges)
    ensures !NegativeCycle(edges)
  {
    forall x, c | IsWalk(edges, x, x, c)
      ensures Weight(c) >= 0
    {
      WalkClimbs(edges, x, x, c);
    }
  }
}
