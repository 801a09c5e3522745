/**
 * Concrete runs of the two engines, and what they compute on the graphs the
 * generator builds.
 *
 * A DiGraph built by adding 0->1, 1->2, 0->2 yields its edges node by node,
 * so the fixture below lists the triples in that order: (0, 1), (0, 2), (1, 2).
 */
module Scenarios {
  import opened ExtInt
  import opened Graphs
  import BellmanFord
  import FloydWarshall
  import Generator

  /** Edges 0->1 (1), 1->2 (-3), 2->0 (1): a cycle of weight -1 through the source. */
  function CycleGraph(): Graph
  {
    Graph(3, [Edge(0, 1, 1), Edge(1, 2, -3), Edge(2, 0, 1)])
  }

  /** Edges 0->1 (4), 1->2 (3), 0->2 (10), in the order the DiGraph yields them. */
  function PathGraph(): Graph
  {
    Graph(3, [Edge(0, 1, 4), Edge(0, 2, 10), Edge(1, 2, 3)])
  }

  /** The whole cycle graph, taken from node 0, is a closed walk of weight -1. */
  lemma CycleWalk()
    ensures IsWalk(CycleGraph().edges, 0, 0, CycleGraph().edges)
    ensures Weight(CycleGraph().edges) == -1
  {
    var c := CycleGraph().edges;
    var c1 := [Edge(0, 1, 1)];
    var c2 := c1 + [Edge(1, 2, -3)];
    assert c == c2 + [Edge(2, 0, 1)];
    assert c[..2] == c2 && c2[..1] == c1 && c1[..0] == [];
    assert Weight(c1) == 1;
    assert Weight(c2) == -2;
    assert VertexAt(0, c, 1) == 1;
    assert VertexAt(0, c, 2) == 2;
    assert VertexAt(0, c, 3) == 0;
  }

  /** Bellman-Ford from 0 on the cycle graph raises the negative-cycle error. */
  lemma CycleGraphRaises()
    ensures Valid(CycleGraph())
    ensures BellmanFord.Spec(CycleGraph(), 0) == BellmanFord.NegativeCycleError
  {
    var g := CycleGraph();
    CycleWalk();
    assert IsWalk(g.edges, 0, 0, []);
    assert NegCycleReachable(g.edges, 0);
    BellmanFord.SpecFacts(g, 0);
  }

  /** The table `{0: 0, 1: 4, 2: 7}`. */
  function PathDistances(): map<int, Dist>
  {
    map[0 := Fin(0), 1 := Fin(4), 2 := Fin(7)]
  }

  /** The first pass over the path graph takes the initial table to `{0: 0, 1: 4, 2: 7}`. */
  lemma PathFirstPass()
    ensures BellmanFord.Covers(BellmanFord.Initial(3, 0), PathGraph().edges)
    ensures BellmanFord.PassPrefix(BellmanFord.Initial(3, 0), PathGraph().edges, 3) == PathDistances()
  {
    var es := PathGraph().edges;
    var d0 := BellmanFord.Initial(3, 0);
    assert d0 == map[0 := Fin(0), 1 := Inf, 2 := Inf];
    assert BellmanFord.PassPrefix(d0, es, 1) == map[0 := Fin(0), 1 := Fin(4), 2 := Inf];
    assert BellmanFord.PassPrefix(d0, es, 2) == map[0 := Fin(0), 1 := Fin(4), 2 := Fin(10)];
  }

  /** A second pass changes nothing, and no edge can relax any more. */
  lemma PathSecondPass()
    ensures BellmanFord.Covers(PathDistances(), PathGraph().edges)
    ensures BellmanFord.PassPrefix(PathDistances(), PathGraph().edges, 3) == PathDistances()
    ensures forall e :: e in PathGraph().edges ==> !BellmanFord.CanRelax(PathDistances(), e)
  {
    var es := PathGraph().edges;
    var d := PathDistances();
    assert BellmanFord.PassPrefix(d, es, 1) == d;
    assert BellmanFord.PassPrefix(d, es, 2) == d;
  }

  /** Bellman-Ford from 0 on the path graph returns {0: 0, 1: 4, 2: 7}. */
  lemma PathGraphDistances()
    ensures Valid(PathGraph())
    ensures BellmanFord.Spec(PathGraph(), 0) == BellmanFord.Distances(PathDistances())
  {
    var g := PathGraph();
    var d0 := BellmanFord.Initial(3, 0);
    PathFirstPass();
    PathSecondPass();
    assert BellmanFord.Passes(d0, g.edges, 1) == PathDistances();
    assert BellmanFord.Relaxed(g, 0) == PathDistances();
  }

  /** The path graph has one triple per ordered pair and no negative cycle. */
  lemma PathGraphShape()
    ensures WellFormed(PathGraph()) && !NegativeCycle(PathGraph().edges)
  {
    assert Ascending(PathGraph().edges);
    AscendingHasNoNegativeCycle(PathGraph().edges);
  }

  /** Floyd-Warshall on the path graph leaves a zero diagonal. */
  lemma PathGraphDiagonal()
    ensures Valid(PathGraph())
    ensures forall a :: 0 <= a < 3 ==> FloydWarshall.Spec(PathGraph())[a][a] == Fin(0)
  {
    var g := PathGraph();
    PathGraphShape();
    forall a | 0 <= a < 3
      ensures FloydWarshall.Spec(g)[a][a] == Fin(0)
    {
      FloydWarshall.ZeroDiagonal(g, a);
    }
  }

  /** Floyd-Warshall on the path graph gives row 0 as `[0, 4, 7]`, as Bellman-Ford from 0 does. */
  lemma PathGraphRow()
    ensures Valid(PathGraph())
    ensures FloydWarshall.Spec(PathGraph())[0] == [Fin(0), Fin(4), Fin(7)]
  {
    PathCell(0);
    PathCell(1);
    PathCell(2);
    var row := FloydWarshall.Spec(PathGraph())[0];
    assert |row| == 3 && row[0] == Fin(0) && row[1] == Fin(4) && row[2] == Fin(7);
  }

  /** Cell `[0][v]` of the Floyd-Warshall result is Bellman-Ford's distance of `v` from 0. */
  lemma PathCell(v: nat)
    requires v < 3
    ensures Valid(PathGraph())
    ensures v in PathDistances() && FloydWarshall.Spec(PathGraph())[0][v] == PathDistances()[v]
  {
    PathGraphShape();
    PathGraphDistances();
    FloydWarshall.AgreesWithBellmanFord(PathGraph(), 0, v);
  }

  /**
   * Both engines follow each triple only as yielded, and an undirected
   * generated graph yields every edge smaller end first.  So on such a graph
   * there is no negative cycle, Bellman-Ford never raises, every entry of the
   * Floyd-Warshall matrix is a shortest distance along ascending walks, and
   * every entry below the diagonal is +inf.
   */
  lemma UndirectedRunsOneWay(n: nat, r: Generator.Randomness)
    ensures WellFormed(Generator.Generated(n, false, r))
    ensures !NegativeCycle(Generator.Generated(n, false, r).edges)
    ensures forall s :: BellmanFord.Spec(Generator.Generated(n, false, r), s).Distances?
    ensures forall a, b :: 0 <= a < n && 0 <= b < n ==>
      IsShortest(Generator.Generated(n, false, r).edges, a, b, FloydWarshall.Spec(Generator.Generated(n, false, r))[a][b])
    ensures forall a, b :: 0 <= b < a < n ==> FloydWarshall.Spec(Generator.Generated(n, false, r))[a][b] == Inf
  {
    var G := Generator.Generated(n, false, r);
    Generator.GeneratedShape(n, false, r);
    AscendingHasNoNegativeCycle(G.edges);
    forall s
      ensures BellmanFord.Spec(G, s).Distances?
    {
      BellmanFord.SpecFacts(G, s);
    }
    forall a, b | 0 <= a < n && 0 <= b < n
      ensures IsShortest(G.edges, a, b, FloydWarshall.Spec(G)[a][b])
    {
      FloydWarshall.FinalShortest(G, a, b);
    }
    forall a, b | 0 <= b < a < n
      ensures FloydWarshall.Spec(G)[a][b] == Inf
    {
      forall p | IsWalk(G.edges, a, b, p)
        ensures false
      {
        WalkClimbs(G.edges, a, b, p);
      }
      FloydWarshall.InfIffNoWalk(G, a, b);
    }
  }
}
