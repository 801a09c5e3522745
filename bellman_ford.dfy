/**
 * `bellman_ford(graph, source)` of discrete_lab.py: single-source shortest
 * distances by |V|-1 rounds of edge relaxation, then one more scan that
 * raises `ValueError` if an edge can still be relaxed.
 *
 * The distance table is a map, like the Python dict: it holds every node at
 * +inf and then the source at 0, inserting the source even when it is not
 * one of the graph's nodes.
 */
module BellmanFord {
  import opened ExtInt
  import opened Graphs

  /** The `ValueError` raised for a negative cycle, or the returned dict. */
  datatype Outcome = NegativeCycleError | Distances(dist: map<int, Dist>)

  /** Every node at +inf, then the source set to 0 (inserted if it is not a node). */
  function Initial(n: nat, source: int): (d: map<int, Dist>)
    ensures forall v :: v in d <==> 0 <= v < n || v == source
    ensures d[source] == Fin(0)
    ensures forall v :: v in d && v != source ==> d[v] == Inf
  {
    AllInf(n)[source := Fin(0)]
  }

  /** The nodes `0 .. n-1`, each at +inf. */
  function AllInf(n: nat): (d: map<int, Dist>)
    ensures forall v :: v in d <==> 0 <= v < n
    ensures forall v :: v in d ==> d[v] == Inf
  {
    if n == 0 then map[] else AllInf(n - 1)[n - 1 := Inf]
  }

  /** Every endpoint of every edge has an entry. */
  predicate Covers(d: map<int, Dist>, edges: seq<Edge>)
  {
    forall e :: e in edges ==> e.u in d && e.v in d
  }

  /** The test `distances[u] + weight < distances[v]`. */
  predicate CanRelax(d: map<int, Dist>, e: Edge)
    requires e.u in d && e.v in d
  {
    Less(Add(d[e.u], Fin(e.w)), d[e.v])
  }

  /** One relaxation of one yielded triple. */
  function Relax(d: map<int, Dist>, e: Edge): (r: map<int, Dist>)
    requires e.u in d && e.v in d
    ensures r.Keys == d.Keys
  {
    if CanRelax(d, e) then d[e.v := Add(d[e.u], Fin(e.w))] else d
  }

  /** The table after relaxing the first `i` triples of one pass, in order. */
  function PassPrefix(d: map<int, Dist>, edges: seq<Edge>, i: nat): (r: map<int, Dist>)
    requires Covers(d, edges) && i <= |edges|
    ensures r.Keys == d.Keys
  {
    if i == 0 then d else Relax(PassPrefix(d, edges, i - 1), edges[i - 1])
  }

  /** The table after `k` full passes over the edges. */
  function Passes(d: map<int, Dist>, edges: seq<Edge>, k: nat): (r: map<int, Dist>)
    requires Covers(d, edges)
    ensures r.Keys == d.Keys
  {
    if k == 0 then d else PassPrefix(Passes(d, edges, k - 1), edges, |edges|)
  }

  /** `range(len(graph.nodes()) - 1)` has this many elements. */
  function PassCount(n: nat): nat
  {
    if n == 0 then 0 else n - 1
  }

  lemma InitialCovers(g: Graph, source: int)
    requires Valid(g)
    ensures Covers(Initial(g.n, source), g.edges)
  {
  }

  /** The table once the relaxation passes are done. */
  function Relaxed(g: Graph, source: int): map<int, Dist>
    requires Valid(g)
  {
    InitialCovers(g, source);
    Passes(Initial(g.n, source), g.edges, PassCount(g.n))
  }

  /** What `bellman_ford` returns or raises. */
  function Spec(g: Graph, source: int): Outcome
    requires Valid(g)
  {
    var d := Relaxed(g, source);
    if exists e :: e in g.edges && CanRelax(d, e) then NegativeCycleError else Distances(d)
  }

  /** The algorithm as the source runs it: relaxation passes, then the extra scan. */
  method BellmanFord(g: Graph, source: int) returns (r: Outcome)
    requires Valid(g)
    ensures r == Spec(g, source)
    ensures r.Distances? ==> forall v :: v in r.dist <==> 0 <= v < g.n || v == source
    ensures r.Distances? ==> forall e :: e in g.edges ==> !CanRelax(r.dist, e)
    ensures r.NegativeCycleError? <==> NegCycleReachable(g.edges, source)
    ensures r.Distances? ==> forall v :: v in r.dist ==> IsShortest(g.edges, source, v, r.dist[v])
  {
    var d := RelaxationPasses(g, source);
    var i := 0;
    while i < |g.edges|
      invariant 0 <= i <= |g.edges|
      invariant forall j :: 0 <= j < i ==> !CanRelax(d, g.edges[j])
    {
      var e := g.edges[i];
      if Less(Add(d[e.u], Fin(e.w)), d[e.v]) {
        assert e in g.edges && CanRelax(d, e);
        SpecFacts(g, source);
        return NegativeCycleError;
      }
      i := i + 1;
    }
    forall e | e in g.edges
      ensures !CanRelax(d, e)
    {
      var j :| 0 <= j < |g.edges| && g.edges[j] == e;
    }
    SpecFacts(g, source);
    return Distances(d);
  }

  /** Lines 24-30: the dict comprehension, then |V|-1 passes over the triples. */
  method RelaxationPasses(g: Graph, source: int) returns (d: map<int, Dist>)
    requires Valid(g)
    ensures d == Relaxed(g, source)
  {
    InitialCovers(g, source);
    ghost var d0 := Initial(g.n, source);
    d := Initial(g.n, source);
    var pass := 0;
    while pass < g.n - 1
      invariant 0 <= pass <= PassCount(g.n)
      invariant d == Passes(d0, g.edges, pass)
    {
      d := RelaxPass(g.edges, d);
      pass := pass + 1;
    }
    assert pass == PassCount(g.n);
  }

  /** Lines 27-30: one pass relaxing every yielded triple, in order, in place. */
  method RelaxPass(edges: seq<Edge>, d0: map<int, Dist>) returns (d: map<int, Dist>)
    requires Covers(d0, edges)
    ensures d == PassPrefix(d0, edges, |edges|)
  {
    d := d0;
    var i := 0;
    while i < |edges|
      invariant 0 <= i <= |edges|
      invariant d == PassPrefix(d0, edges, i)
    {
      var e := edges[i];
      if Less(Add(d[e.u], Fin(e.w)), d[e.v]) {
        d := d[e.v := Add(d[e.u], Fin(e.w))];
      }
      i := i + 1;
    }
  }

  /** The properties of the outcome, gathered for the method's contract. */
  lemma SpecFacts(g: Graph, source: int)
    requires Valid(g)
    ensures Spec(g, source).Distances? ==> forall e :: e in g.edges ==> !CanRelax(Spec(g, source).dist, e)
    ensures Spec(g, source).NegativeCycleError? <==> NegCycleReachable(g.edges, source)
    ensures Spec(g, source).Distances? ==>
      forall v :: v in Spec(g, source).dist ==> IsShortest(g.edges, source, v, Spec(g, source).dist[v])
  {
    NegativeCycleIffReachable(g, source);
    if Spec(g, source).Distances? {
      OkIsShortest(g, source);
    }
  }

  lemma RelaxNeverIncreases(d: map<int, Dist>, e: Edge)
    requires e.u in d && e.v in d
    ensures forall x :: x in d ==> LessEq(Relax(d, e)[x], d[x])
    ensures LessEq(Relax(d, e)[e.v], Add(d[e.u], Fin(e.w)))
  {
  }

  lemma {:induction false} PassPrefixNeverIncreases(d: map<int, Dist>, edges: seq<Edge>, i: nat)
    requires Covers(d, edges) && i <= |edges|
    ensures forall x :: x in d ==> LessEq(PassPrefix(d, edges, i)[x], d[x])
  {
    if i > 0 {
      PassPrefixNeverIncreases(d, edges, i - 1);
      var m := PassPrefix(d, edges, i - 1);
      RelaxNeverIncreases(m, edges[i - 1]);
      forall x | x in d
        ensures LessEq(PassPrefix(d, edges, i)[x], d[x])
      {
        LessEqTrans(PassPrefix(d, edges, i)[x], m[x], d[x]);
      }
    }
  }

  /** Entries never increase from one pass to the next. */
  lemma PassesNeverIncrease(g: Graph, source: int, k: nat)
    requires Valid(g)
    ensures forall x :: x in Initial(g.n, source) ==>
      LessEq(Passes(Initial(g.n, source), g.edges, k + 1)[x], Passes(Initial(g.n, source), g.edges, k)[x])
  {
    InitialCovers(g, source);
    PassPrefixNeverIncreases(Passes(Initial(g.n, source), g.edges, k), g.edges, |g.edges|);
  }

  /** After the first `i` triples of a pass, each of them is no longer relaxable against the pass's start. */
  lemma {:induction false} PassPrefixBound(d: map<int, Dist>, edges: seq<Edge>, i: nat)
    requires Covers(d, edges) && i <= |edges|
    ensures forall j :: 0 <= j < i ==>
      LessEq(PassPrefix(d, edges, i)[edges[j].v], Add(d[edges[j].u], Fin(edges[j].w)))
  {
    if i > 0 {
      PassPrefixBound(d, edges, i - 1);
      PassPrefixNeverIncreases(d, edges, i - 1);
      var m := PassPrefix(d, edges, i - 1);
      var e := edges[i - 1];
      RelaxNeverIncreases(m, e);
      AddMono(m[e.u], d[e.u], Fin(e.w), Fin(e.w));
      LessEqTrans(Relax(m, e)[e.v], Add(m[e.u], Fin(e.w)), Add(d[e.u], Fin(e.w)));
      forall j | 0 <= j < i - 1
        ensures LessEq(PassPrefix(d, edges, i)[edges[j].v], Add(d[edges[j].u], Fin(edges[j].w)))
      {
        LessEqTrans(Relax(m, e)[edges[j].v], m[edges[j].v], Add(d[edges[j].u], Fin(edges[j].w)));
      }
    }
  }

  /** Every finite entry is the weight of some walk from the source. */
  ghost predicate Witnessed(edges: seq<Edge>, source: int, d: map<int, Dist>)
  {
    forall x :: x in d ==> Attained(edges, source, x, d[x])
  }

  lemma SingleEdgeWalk(edges: seq<Edge>, e: Edge)
    requires e in edges
    ensures IsWalk(edges, e.u, e.v, [e]) && Weight([e]) == e.w
  {
    assert [e][..0] == [];
    assert VertexAt(e.u, [e], 0) == e.u;
  }

  /** A walk to `e.u` followed by `e` is a walk to `e.v`. */
  lemma ExtendWalk(edges: seq<Edge>, s: int, p: seq<Edge>, e: Edge)
    requires e in edges && IsWalk(edges, s, e.u, p)
    ensures IsWalk(edges, s, e.v, p + [e]) && Weight(p + [e]) == Weight(p) + e.w
  {
    SingleEdgeWalk(edges, e);
    WalkConcat(edges, s, e.u, e.v, p, [e]);
    WeightAppend(p, [e]);
  }

  /** The walk `p` without its last edge ends where that edge starts. */
  lemma DropLast(edges: seq<Edge>, s: int, t: int, p: seq<Edge>)
    requires IsWalk(edges, s, t, p) && |p| > 0
    ensures IsWalk(edges, s, p[|p| - 1].u, p[..|p| - 1])
    ensures p[|p| - 1] in edges && p[|p| - 1].v == t
    ensures Weight(p) == Weight(p[..|p| - 1]) + p[|p| - 1].w
  {
    WalkSlice(edges, s, t, p, 0, |p| - 1);
    assert p[0..|p| - 1] == p[..|p| - 1];
    assert p[|p| - 1].u == VertexAt(s, p, |p| - 1);
  }

  lemma {:induction false} PassPrefixWitnessed(edges: seq<Edge>, source: int, d: map<int, Dist>, i: nat)
    requires Covers(d, edges) && i <= |edges| && Witnessed(edges, source, d)
    ensures Witnessed(edges, source, PassPrefix(d, edges, i))
  {
    if i > 0 {
      PassPrefixWitnessed(edges, source, d, i - 1);
      var m := PassPrefix(d, edges, i - 1);
      var e := edges[i - 1];
      if CanRelax(m, e) && m[e.u].Fin? {
        assert Attained(edges, source, e.u, m[e.u]);
        var p :| IsWalk(edges, source, e.u, p) && Weight(p) == m[e.u].val;
        ExtendWalk(edges, source, p, e);
        assert Attained(edges, source, e.v, Relax(m, e)[e.v]);
      }
      assert Relax(m, e) == PassPrefix(d, edges, i);
    }
  }

  /** Every finite entry, after any number of passes, is the weight of some walk from the source. */
  lemma {:induction false} PassesWitnessed(g: Graph, source: int, k: nat)
    requires Valid(g)
    ensures forall x :: x in Initial(g.n, source) ==>
      Attained(g.edges, source, x, Passes(Initial(g.n, source), g.edges, k)[x])
  {
    InitialCovers(g, source);
    var d0 := Initial(g.n, source);
    if k == 0 {
      assert IsWalk(g.edges, source, source, []);
      assert Witnessed(g.edges, source, d0);
    } else {
      PassesWitnessed(g, source, k - 1);
      var m := Passes(d0, g.edges, k - 1);
      assert Witnessed(g.edges, source, m);
      PassPrefixWitnessed(g.edges, source, m, |g.edges|);
    }
  }

  /** A node that no walk from the source reaches keeps its +inf. */
  lemma UnreachableStaysInf(g: Graph, source: int, k: nat, v: int)
    requires Valid(g) && 0 <= v < g.n
    requires forall p :: !IsWalk(g.edges, source, v, p)
    ensures Passes(Initial(g.n, source), g.edges, k)[v] == Inf
  {
    PassesWitnessed(g, source, k);
    assert Attained(g.edges, source, v, Passes(Initial(g.n, source), g.edges, k)[v]);
  }

  /** After `k` passes no entry exceeds the weight of a walk of at most `k` edges. */
  lemma {:induction false} PassesBound(g: Graph, source: int, k: nat, v: int, p: seq<Edge>)
    requires Valid(g) && IsWalk(g.edges, source, v, p) && |p| <= k
    ensures v in Initial(g.n, source)
    ensures LessEq(Passes(Initial(g.n, source), g.edges, k)[v], Fin(Weight(p)))
  {
    InitialCovers(g, source);
    var d0 := Initial(g.n, source);
    if |p| > 0 {
      assert p[|p| - 1] in g.edges;
    }
    if k == 0 {
      assert v == source;
    } else if |p| <= k - 1 {
      PassesBound(g, source, k - 1, v, p);
      PassesKeepBound(g, source, k, v, Fin(Weight(p)));
    } else {
      DropLast(g.edges, source, v, p);
      PassesBound(g, source, k - 1, p[|p| - 1].u, p[..|p| - 1]);
      PassesBoundLast(g, source, k, v, p);
    }
  }

  /** A bound on an entry after `k - 1` passes still holds after `k`. */
  lemma PassesKeepBound(g: Graph, source: int, k: nat, v: int, x: Dist)
    requires Valid(g) && k > 0 && v in Initial(g.n, source)
    requires LessEq(Passes(Initial(g.n, source), g.edges, k - 1)[v], x)
    ensures LessEq(Passes(Initial(g.n, source), g.edges, k)[v], x)
  {
    var d0 := Initial(g.n, source);
    PassesNeverIncrease(g, source, k - 1);
    LessEqTrans(Passes(d0, g.edges, k)[v], Passes(d0, g.edges, k - 1)[v], x);
  }

  /** The inductive step of PassesBound for a walk of exactly `k` edges. */
  lemma PassesBoundLast(g: Graph, source: int, k: nat, v: int, p: seq<Edge>)
    requires Valid(g) && k > 0 && |p| == k && IsWalk(g.edges, source, v, p)
    requires p[|p| - 1] in g.edges && p[|p| - 1].v == v
    requires Weight(p) == Weight(p[..|p| - 1]) + p[|p| - 1].w
    requires p[|p| - 1].u in Initial(g.n, source)
    requires LessEq(Passes(Initial(g.n, source), g.edges, k - 1)[p[|p| - 1].u], Fin(Weight(p[..|p| - 1])))
    ensures v in Initial(g.n, source)
    ensures LessEq(Passes(Initial(g.n, source), g.edges, k)[v], Fin(Weight(p)))
  {
    InitialCovers(g, source);
    var d0 := Initial(g.n, source);
    var m := Passes(d0, g.edges, k - 1);
    var e := p[|p| - 1];
    var j :| 0 <= j < |g.edges| && g.edges[j] == e;
    PassPrefixBound(m, g.edges, |g.edges|);
    AddMono(m[e.u], Fin(Weight(p[..|p| - 1])), Fin(e.w), Fin(e.w));
    LessEqTrans(Passes(d0, g.edges, k)[v], Add(m[e.u], Fin(e.w)), Fin(Weight(p)));
  }

  /** With no relaxable edge, an entry is at most the start's entry plus the weight of any walk. */
  lemma {:induction false} NoRelaxBound(edges: seq<Edge>, d: map<int, Dist>, x0: int, t: int, p: seq<Edge>)
    requires Covers(d, edges) && x0 in d && IsWalk(edges, x0, t, p)
    requires forall e :: e in edges ==> !CanRelax(d, e)
    ensures t in d && LessEq(d[t], Add(d[x0], Fin(Weight(p))))
    decreases |p|
  {
    if |p| > 0 {
      var q := p[..|p| - 1];
      var e := p[|p| - 1];
      DropLast(edges, x0, t, p);
      NoRelaxBound(edges, d, x0, e.u, q);
      assert !CanRelax(d, e);
      AddMono(d[e.u], Add(d[x0], Fin(Weight(q))), Fin(e.w), Fin(e.w));
      LessEqTrans(d[t], Add(d[e.u], Fin(e.w)), Add(d[x0], Fin(Weight(p))));
    }
  }

  /** When no error is raised, each entry is the exact shortest distance from the source. */
  lemma OkIsShortest(g: Graph, source: int)
    requires Valid(g) && Spec(g, source).Distances?
    ensures forall v :: v in Spec(g, source).dist ==> IsShortest(g.edges, source, v, Spec(g, source).dist[v])
  {
    InitialCovers(g, source);
    var d := Relaxed(g, source);
    PassesWitnessed(g, source, PassCount(g.n));
    assert IsWalk(g.edges, source, source, []);
    PassesBound(g, source, PassCount(g.n), source, []);
    forall v | v in d
      ensures IsShortest(g.edges, source, v, d[v])
    {
      forall p | IsWalk(g.edges, source, v, p)
        ensures LessEq(d[v], Fin(Weight(p)))
      {
        NoRelaxBound(g.edges, d, source, v, p);
        AddMono(d[source], Fin(0), Fin(Weight(p)), Fin(Weight(p)));
        LessEqTrans(d[v], Add(d[source], Fin(Weight(p))), Fin(Weight(p)));
      }
    }
  }

  /** The extra scan raises exactly when a negative cycle can be reached from the source. */
  lemma NegativeCycleIffReachable(g: Graph, source: int)
    requires Valid(g)
    ensures Spec(g, source).NegativeCycleError? <==> NegCycleReachable(g.edges, source)
  {
    InitialCovers(g, source);
    var d := Relaxed(g, source);
    if Spec(g, source).Distances? {
      NoReachableCycleWhenOk(g, source);
    } else {
      var e :| e in g.edges && CanRelax(d, e);
      RelaxableMeansCycle(g, source, e);
    }
  }

  lemma NoReachableCycleWhenOk(g: Graph, source: int)
    requires Valid(g) && Spec(g, source).Distances?
    ensures !NegCycleReachable(g.edges, source)
  {
    InitialCovers(g, source);
    var d := Relaxed(g, source);
    assert IsWalk(g.edges, source, source, []);
    PassesBound(g, source, PassCount(g.n), source, []);
    if NegCycleReachable(g.edges, source) {
      var x, pr, c :| IsWalk(g.edges, source, x, pr) && IsWalk(g.edges, x, x, c) && Weight(c) < 0;
      NoRelaxBound(g.edges, d, source, x, pr);
      NoRelaxBound(g.edges, d, x, x, c);
      assert false;
    }
  }

  lemma RelaxableMeansCycle(g: Graph, source: int, e: Edge)
    requires Valid(g) && e in g.edges
    requires Covers(Relaxed(g, source), g.edges) && CanRelax(Relaxed(g, source), e)
    ensures NegCycleReachable(g.edges, source)
  {
    var d := Relaxed(g, source);
    if !NegCycleReachable(g.edges, source) {
      PassesWitnessed(g, source, PassCount(g.n));
      assert Attained(g.edges, source, e.u, d[e.u]);
      var pu :| IsWalk(g.edges, source, e.u, pu) && Weight(pu) == d[e.u].val;
      ExtendWalk(g.edges, source, pu, e);
      var q := ToSimple(g.edges, source, e.v, pu + [e], 0);
      if |q| > 0 {
        SimpleWalkShort(g, source, e.v, q);
      }
      PassesBound(g, source, PassCount(g.n), e.v, q);
      assert false;
    }
  }
}
