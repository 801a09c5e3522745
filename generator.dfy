/**
 * The structural part of `gnp_random_connected_graph` in discrete_lab.py:
 * which edges it adds, in which orientation, in which order the graph then
 * yields them, and which weights they get.
 *
 * Every random outcome is an input (`Randomness`), so each property below
 * holds for every possible run.  `networkx` is replaced by an explicit list
 * of edge keys in insertion order: re-adding an existing edge changes
 * nothing, and an undirected edge is keyed by (smaller end, larger end).
 */
module Generator {
  import opened ExtInt
  import opened Graphs

  /**
   * The random outcomes of one run:
   *   `pick(i)`    the index `random.choice` returns for group `i`;
   *   `flip(i)`    whether `random.random() < 0.5` fires for group `i`;
   *   `keep(i, j)` whether `random.random() < completeness` fires for the pair (i, j);
   *   `roll(t)`    the draw behind `random.randint(-5, 20)` for the `t`-th yielded edge.
   */
  datatype Randomness = Randomness(pick: nat -> nat, flip: nat -> bool, keep: (nat, nat) -> bool, roll: nat -> nat)

  type Key = (nat, nat)

  /** The smallest and largest weight `random.randint(-5, 20)` can return. */
  const MinWeight := -5
  const MaxWeight := 20

  /** `random.randint(-5, 20)` as a function of its draw. */
  function RandInt(draw: nat): (w: int)
    ensures MinWeight <= w <= MaxWeight
  {
    MinWeight + draw % (MaxWeight - MinWeight + 1)
  }

  /** `combinations(range(n), 2)` grouped by first element has this many groups. */
  function GroupCount(n: nat): nat
  {
    if n < 2 then 0 else n - 1
  }

  /** The other end of the pair `random.choice` picks from group `i`: (i, i+1) .. (i, n-1). */
  function Target(n: nat, r: Randomness, i: nat): (j: nat)
    requires i + 1 < n
    ensures i < j < n
  {
    i + 1 + r.pick(i) % (n - 1 - i)
  }

  /** The key `add_edge(a, b)` stores: ordered for a DiGraph, unordered for a Graph. */
  function KeyOf(directed: bool, a: nat, b: nat): Key
  {
    if directed || a <= b then (a, b) else (b, a)
  }

  /** No key occurs twice. */
  predicate Distinct(keys: seq<Key>)
  {
    forall x, y :: 0 <= x < y < |keys| ==> keys[x] != keys[y]
  }

  /** `G.add_edge(a, b)` on the insertion-ordered key list: present keys keep their place. */
  function AddKey(keys: seq<Key>, k: Key): seq<Key>
  {
    if k in keys then keys else keys + [k]
  }

  /** The mandatory edge of group `i`, reversed when the coin fires. */
  function MandatoryKey(n: nat, directed: bool, r: Randomness, i: nat): Key
    requires i + 1 < n
  {
    var j := Target(n, r, i);
    if r.flip(i) then KeyOf(directed, j, i) else KeyOf(directed, i, j)
  }

  /** Group `i`'s optional pass over its first `m` pairs (i, i+1) .. (i, i+m), each kept unreversed. */
  function Optional(keys: seq<Key>, directed: bool, r: Randomness, i: nat, m: nat): seq<Key>
  {
    if m == 0 then keys
    else
      var ks := Optional(keys, directed, r, i, m - 1);
      if r.keep(i, i + m) then AddKey(ks, KeyOf(directed, i, i + m)) else ks
  }

  /** Group `g` adds key `k`: its mandatory edge, or one of its pairs whose coin fired. */
  ghost predicate AddedBy(n: nat, directed: bool, r: Randomness, g: nat, k: Key)
    requires g + 1 < n
  {
    k == MandatoryKey(n, directed, r, g) || (k.0 == g && g < k.1 < n && r.keep(g, k.1))
  }

  /** The keys after the first `i` groups: exactly what those groups add, each once. */
  function Groups(n: nat, directed: bool, r: Randomness, i: nat): seq<Key>
    requires i <= GroupCount(n)
  {
    if i == 0 then []
    else
      var ks := AddKey(Groups(n, directed, r, i - 1), MandatoryKey(n, directed, r, i - 1));
      Optional(ks, directed, r, i - 1, n - i)
  }

  /** The keys whose first node is `u`, in insertion order. */
  function WithFirst(keys: seq<Key>, u: nat): seq<Key>
  {
    if keys == [] then []
    else
      var rest := WithFirst(keys[..|keys| - 1], u);
      if keys[|keys| - 1].0 == u then rest + [keys[|keys| - 1]] else rest
  }

  /**
   * `G.edges()`: node by node from `u` up to `n - 1`, each node's edges in
   * the order they were first added.
   */
  function YieldFrom(keys: seq<Key>, u: nat, n: nat): seq<Key>
    decreases n - u
  {
    if u >= n then [] else WithFirst(keys, u) + YieldFrom(keys, u + 1, n)
  }

  /** The yielded edges with the `t`-th one weighted by `roll(t)`. */
  function Weighted(pairs: seq<Key>, r: Randomness): (es: seq<Edge>)
    ensures |es| == |pairs|
  {
    seq(|pairs|, t requires 0 <= t < |pairs| => Edge(pairs[t].0, pairs[t].1, RandInt(r.roll(t))))
  }

  /** The graph one run builds. */
  function Generated(n: nat, directed: bool, r: Randomness): Graph
  {
    Graph(n, Weighted(YieldFrom(Groups(n, directed, r, GroupCount(n)), 0, n), r))
  }

  /** Lines 87-101: the group loop, then one weight per yielded edge. */
  method Generate(n: nat, directed: bool, r: Randomness) returns (g: Graph)
    ensures g == Generated(n, directed, r)
    ensures g.n == n && WellFormed(g) && SkeletonConnected(g)
    ensures forall e :: e in g.edges ==> e.u != e.v && MinWeight <= e.w <= MaxWeight
  {
    var keys := AddEdges(n, directed, r);
    var edges := AssignWeights(YieldFrom(keys, 0, n), r);
    g := Graph(n, edges);
    GeneratedShape(n, directed, r);
    GeneratedConnected(n, directed, r);
  }

  /** Lines 90-98: the groups of pairs `(i, j)`, `i < j`, one after another. */
  method AddEdges(n: nat, directed: bool, r: Randomness) returns (keys: seq<Key>)
    ensures keys == Groups(n, directed, r, GroupCount(n))
  {
    keys := [];
    var i := 0;
    while i < GroupCount(n)
      invariant 0 <= i <= GroupCount(n)
      invariant keys == Groups(n, directed, r, i)
    {
      keys := AddGroup(n, directed, r, i, keys);
      i := i + 1;
    }
  }

  /** Lines 91-98 for group `i`: the mandatory edge, then each pair of the group by its own coin. */
  method AddGroup(n: nat, directed: bool, r: Randomness, i: nat, keys0: seq<Key>) returns (keys: seq<Key>)
    requires i + 1 < n
    ensures keys == Optional(AddKey(keys0, MandatoryKey(n, directed, r, i)), directed, r, i, n - 1 - i)
  {
    keys := keys0;
    var j := i + 1 + r.pick(i) % (n - 1 - i);
    var a, b := i, j;
    if r.flip(i) {
      a, b := j, i;
    }
    var k := KeyOf(directed, a, b);
    if k !in keys {
      keys := keys + [k];
    }
    ghost var start := keys;
    var m := 0;
    while i + 1 + m < n
      invariant 0 <= m <= n - 1 - i
      invariant keys == Optional(start, directed, r, i, m)
    {
      if r.keep(i, i + 1 + m) {
        k := KeyOf(directed, i, i + 1 + m);
        if k !in keys {
          keys := keys + [k];
        }
      }
      m := m + 1;
    }
  }

  /** Lines 100-101: a fresh random weight for each yielded edge in turn. */
  method AssignWeights(pairs: seq<Key>, r: Randomness) returns (edges: seq<Edge>)
    ensures edges == Weighted(pairs, r)
  {
    edges := [];
    var t := 0;
    while t < |pairs|
      invariant 0 <= t <= |pairs|
      invariant edges == Weighted(pairs, r)[..t]
    {
      edges := edges + [Edge(pairs[t].0, pairs[t].1, MinWeight + r.roll(t) % (MaxWeight - MinWeight + 1))];
      t := t + 1;
    }
    assert Weighted(pairs, r)[..t] == Weighted(pairs, r);
  }

  // ---------------------------------------------------------------------
  // The key list

  lemma AddKeyFacts(keys: seq<Key>, k: Key)
    ensures forall x :: x in AddKey(keys, k) <==> x in keys || x == k
    ensures Distinct(keys) ==> Distinct(AddKey(keys, k))
  {
    if k !in keys {
      var ks := keys + [k];
      forall x, y | 0 <= x < y < |ks|
        ensures Distinct(keys) ==> ks[x] != ks[y]
      {
        if y == |keys| {
          assert ks[x] == keys[x];
        }
      }
    }
  }

  /** The optional pass adds each kept pair of the group, unreversed, and nothing else. */
  lemma {:induction false} OptionalFacts(keys: seq<Key>, directed: bool, r: Randomness, i: nat, m: nat)
    ensures forall x :: x in Optional(keys, directed, r, i, m) <==>
      x in keys || (x.0 == i && i < x.1 <= i + m && r.keep(i, x.1))
    ensures Distinct(keys) ==> Distinct(Optional(keys, directed, r, i, m))
  {
    if m > 0 {
      OptionalFacts(keys, directed, r, i, m - 1);
      AddKeyFacts(Optional(keys, directed, r, i, m - 1), KeyOf(directed, i, i + m));
    }
  }

  /** After `i` groups the list holds exactly the keys those groups add, each once. */
  lemma {:induction false} GroupsFacts(n: nat, directed: bool, r: Randomness, i: nat)
    requires i <= GroupCount(n)
    ensures forall x :: x in Groups(n, directed, r, i) <==> exists g :: 0 <= g < i && AddedBy(n, directed, r, g, x)
    ensures Distinct(Groups(n, directed, r, i))
  {
    if i > 0 {
      GroupsFacts(n, directed, r, i - 1);
      var prev := Groups(n, directed, r, i - 1);
      var ks := AddKey(prev, MandatoryKey(n, directed, r, i - 1));
      AddKeyFacts(prev, MandatoryKey(n, directed, r, i - 1));
      OptionalFacts(ks, directed, r, i - 1, n - i);
      forall x
        ensures x in Groups(n, directed, r, i) <==> exists g :: 0 <= g < i && AddedBy(n, directed, r, g, x)
      {
        if x in Groups(n, directed, r, i) {
          if x in prev {
            var g :| 0 <= g < i - 1 && AddedBy(n, directed, r, g, x);
          } else {
            assert AddedBy(n, directed, r, i - 1, x);
          }
        }
        if g :| 0 <= g < i && AddedBy(n, directed, r, g, x) {
          if g < i - 1 {
            assert x in prev;
          }
        }
      }
    }
  }

  lemma {:induction false} WithFirstFacts(keys: seq<Key>, u: nat)
    ensures forall x :: x in WithFirst(keys, u) <==> x in keys && x.0 == u
    ensures Distinct(keys) ==> Distinct(WithFirst(keys, u))
    decreases |keys|
  {
    if keys != [] {
      var init := keys[..|keys| - 1];
      var last := keys[|keys| - 1];
      WithFirstFacts(init, u);
      assert keys == init + [last];
      if Distinct(keys) {
        assert Distinct(init);
        assert last !in init;
        var rest := WithFirst(init, u);
        if last.0 == u {
          var ks := rest + [last];
          forall x, y | 0 <= x < y < |ks|
            ensures ks[x] != ks[y]
          {
            if y == |rest| {
              assert ks[x] == rest[x] && rest[x] in rest;
            }
          }
        }
      }
    }
  }

  /** `G.edges()` visits every key once, grouped by first node in increasing order. */
  lemma {:induction false} YieldFromFacts(keys: seq<Key>, u: nat, n: nat)
    ensures forall x :: x in YieldFrom(keys, u, n) <==> x in keys && u <= x.0 < n
    ensures Distinct(keys) ==> Distinct(YieldFrom(keys, u, n))
    ensures forall x :: 0 <= x < |YieldFrom(keys, u, n)| ==> u <= YieldFrom(keys, u, n)[x].0
    ensures forall x, y :: 0 <= x < y < |YieldFrom(keys, u, n)| ==> YieldFrom(keys, u, n)[x].0 <= YieldFrom(keys, u, n)[y].0
    decreases n - u
  {
    if u < n {
      YieldFromFacts(keys, u + 1, n);
      WithFirstFacts(keys, u);
      var A := WithFirst(keys, u);
      var B := YieldFrom(keys, u + 1, n);
      var ks := A + B;
      forall x | 0 <= x < |ks|
        ensures ks[x].0 == u || (x >= |A| && u + 1 <= ks[x].0)
      {
        if x < |A| {
          assert ks[x] == A[x] && A[x] in A;
        } else {
          assert ks[x] == B[x - |A|];
        }
      }
      forall x, y | 0 <= x < y < |ks|
        ensures ks[x].0 <= ks[y].0
        ensures Distinct(keys) ==> ks[x] != ks[y]
      {
        if y < |A| {
          assert ks[x] == A[x] && ks[y] == A[y];
        } else if x >= |A| {
          assert ks[x] == B[x - |A|] && ks[y] == B[y - |A|];
        }
      }
    }
  }

  // ---------------------------------------------------------------------
  // The generated graph

  /** Some yielded triple goes from `a` to `b`. */
  ghost predicate HasEdge(g: Graph, a: int, b: int)
  {
    exists e :: e in g.edges && e.u == a && e.v == b
  }

  /** A key a group adds joins two distinct nodes, smaller end first in a Graph. */
  lemma AddedKeyEnds(n: nat, directed: bool, r: Randomness, g: nat, k: Key)
    requires g + 1 < n && AddedBy(n, directed, r, g, k)
    ensures k.0 < n && k.1 < n && k.0 != k.1
    ensures !directed ==> k.0 < k.1
  {
  }

  /** Every yielded pair carries a triple, and every triple a yielded pair. */
  lemma EdgeIffPair(pairs: seq<Key>, r: Randomness, a: nat, b: nat)
    ensures (exists e :: e in Weighted(pairs, r) && e.u == a && e.v == b) <==> (a, b) in pairs
  {
    var es := Weighted(pairs, r);
    if e :| e in es && e.u == a && e.v == b {
      var t :| 0 <= t < |es| && es[t] == e;
      assert pairs[t] == (a, b);
    }
    if (a, b) in pairs {
      var t :| 0 <= t < |pairs| && pairs[t] == (a, b);
      assert es[t] in es;
    }
  }

  /** The yielded pairs: two distinct nodes each, smaller first in a Graph, no repeats, by first node. */
  predicate PairsShape(pairs: seq<Key>, n: nat, directed: bool)
  {
    && (forall t :: 0 <= t < |pairs| ==> pairs[t].0 < n && pairs[t].1 < n && pairs[t].0 != pairs[t].1)
    && (!directed ==> forall t :: 0 <= t < |pairs| ==> pairs[t].0 < pairs[t].1)
    && Distinct(pairs)
    && (forall x, y :: 0 <= x < y < |pairs| ==> pairs[x].0 <= pairs[y].0)
  }

  lemma YieldedShape(n: nat, directed: bool, r: Randomness)
    ensures PairsShape(YieldFrom(Groups(n, directed, r, GroupCount(n)), 0, n), n, directed)
  {
    var ks := Groups(n, directed, r, GroupCount(n));
    GroupsFacts(n, directed, r, GroupCount(n));
    var pairs := YieldFrom(ks, 0, n);
    YieldFromFacts(ks, 0, n);
    forall t | 0 <= t < |pairs|
      ensures pairs[t].0 < n && pairs[t].1 < n && pairs[t].0 != pairs[t].1
      ensures !directed ==> pairs[t].0 < pairs[t].1
    {
      assert pairs[t] in pairs;
      var g :| 0 <= g < GroupCount(n) && AddedBy(n, directed, r, g, pairs[t]);
      AddedKeyEnds(n, directed, r, g, pairs[t]);
    }
  }

  lemma WeightedShape(pairs: seq<Key>, n: nat, directed: bool, r: Randomness)
    requires PairsShape(pairs, n, directed)
    ensures WellFormed(Graph(n, Weighted(pairs, r)))
    ensures forall e :: e in Weighted(pairs, r) ==> e.u != e.v && MinWeight <= e.w <= MaxWeight
    ensures !directed ==> forall e :: e in Weighted(pairs, r) ==> e.u < e.v
    ensures forall x, y :: 0 <= x < y < |pairs| ==> Weighted(pairs, r)[x].u <= Weighted(pairs, r)[y].u
  {
    var es := Weighted(pairs, r);
    forall t | 0 <= t < |es|
      ensures es[t].u != es[t].v && MinWeight <= es[t].w <= MaxWeight
      ensures !directed ==> es[t].u < es[t].v
    {
      assert es[t].w == RandInt(r.roll(t));
    }
    forall x, y | 0 <= x < y < |es|
      ensures es[x].u != es[y].u || es[x].v != es[y].v
    {
      assert pairs[x] != pairs[y];
    }
  }

  /**
   * Lines 87-101: the graph has nodes 0 .. n-1, at most one triple per
   * ordered pair, no self-loop, weights in [-5, 20], each undirected edge
   * yielded smaller end first, and the triples in order of their first node.
   */
  lemma GeneratedShape(n: nat, directed: bool, r: Randomness)
    ensures Generated(n, directed, r).n == n
    ensures WellFormed(Generated(n, directed, r))
    ensures forall e :: e in Generated(n, directed, r).edges ==> e.u != e.v && MinWeight <= e.w <= MaxWeight
    ensures !directed ==> forall e :: e in Generated(n, directed, r).edges ==> e.u < e.v
    ensures forall x, y :: 0 <= x < y < |Generated(n, directed, r).edges| ==>
      Generated(n, directed, r).edges[x].u <= Generated(n, directed, r).edges[y].u
  {
    YieldedShape(n, directed, r);
    WeightedShape(YieldFrom(Groups(n, directed, r, GroupCount(n)), 0, n), n, directed, r);
  }

  /**
   * Lines 90-98: which edges a run adds.  In a DiGraph, group `a`'s
   * mandatory edge leaves `a` unless its coin fired, in which case it enters
   * `a`; every optional edge keeps its (smaller, larger) orientation.  In a
   * Graph the coin changes nothing.
   */
  lemma GeneratedEdges(n: nat, directed: bool, r: Randomness, a: nat, b: nat)
    requires a < n && b < n
    ensures directed ==> (HasEdge(Generated(n, directed, r), a, b) <==>
      || (a + 1 < n && !r.flip(a) && b == Target(n, r, a))
      || (b + 1 < n && r.flip(b) && a == Target(n, r, b))
      || (a < b && r.keep(a, b)))
    ensures !directed ==> (HasEdge(Generated(n, directed, r), a, b) <==>
      a < b && (b == Target(n, r, a) || r.keep(a, b)))
  {
    var ks := Groups(n, directed, r, GroupCount(n));
    GroupsFacts(n, directed, r, GroupCount(n));
    var pairs := YieldFrom(ks, 0, n);
    YieldFromFacts(ks, 0, n);
    EdgeIffPair(pairs, r, a, b);
    assert HasEdge(Generated(n, directed, r), a, b) <==> exists g :: 0 <= g < GroupCount(n) && AddedBy(n, directed, r, g, (a, b));
    if a + 1 < n {
      assert AddedBy(n, directed, r, a, (a, b)) <==>
        (a, b) == MandatoryKey(n, directed, r, a) || (a < b && r.keep(a, b));
    }
    if b + 1 < n {
      assert AddedBy(n, directed, r, b, (a, b)) <==> (a, b) == MandatoryKey(n, directed, r, b);
    }
  }

  // ---------------------------------------------------------------------
  // Connectivity of the undirected skeleton

  /** A triple joins `a` and `b` in one direction or the other. */
  ghost predicate Joined(g: Graph, a: int, b: int)
  {
    HasEdge(g, a, b) || HasEdge(g, b, a)
  }

  /** Consecutive vertices of `vs` are joined. */
  ghost predicate Chain(g: Graph, vs: seq<int>)
  {
    forall x :: 0 <= x < |vs| - 1 ==> Joined(g, vs[x], vs[x + 1])
  }

  /** `a` and `b` are in the same component of the undirected skeleton. */
  ghost predicate Linked(g: Graph, a: int, b: int)
  {
    exists vs :: |vs| > 0 && vs[0] == a && vs[|vs| - 1] == b && Chain(g, vs)
  }

  /** The undirected skeleton has one component. */
  ghost predicate SkeletonConnected(g: Graph)
  {
    forall a, b :: 0 <= a < g.n && 0 <= b < g.n ==> Linked(g, a, b)
  }

  /** Node `i` is joined to some higher node. */
  ghost predicate HasHigherNeighbour(g: Graph, i: int)
  {
    exists j :: i < j < g.n && Joined(g, i, j)
  }

  /** Every node but the last is joined to a higher node. */
  ghost predicate ForwardJoined(g: Graph)
  {
    forall i :: 0 <= i && i + 1 < g.n ==> HasHigherNeighbour(g, i)
  }

  /** Group `i`'s mandatory edge joins `i` to a higher node. */
  lemma MandatoryJoined(n: nat, directed: bool, r: Randomness, i: nat)
    requires i + 1 < n
    ensures Joined(Generated(n, directed, r), i, Target(n, r, i))
  {
    var j := Target(n, r, i);
    GeneratedEdges(n, directed, r, i, j);
    GeneratedEdges(n, directed, r, j, i);
  }

  lemma ForwardEdges(n: nat, directed: bool, r: Randomness)
    ensures ForwardJoined(Generated(n, directed, r))
  {
    var G := Generated(n, directed, r);
    forall i | 0 <= i && i + 1 < n
      ensures HasHigherNeighbour(G, i)
    {
      MandatoryJoined(n, directed, r, i);
      assert i < Target(n, r, i) < n;
    }
  }

  /** Following higher neighbours from any node reaches the last one. */
  lemma {:induction false} LinkedToLast(g: Graph, i: nat)
    requires ForwardJoined(g) && i < g.n
    ensures Linked(g, i, g.n - 1)
    decreases g.n - i
  {
    if i + 1 < g.n {
      assert HasHigherNeighbour(g, i);
      var j :| i < j < g.n && Joined(g, i, j);
      LinkedToLast(g, j);
      assert Linked(g, j, g.n - 1);
      var vs: seq<int> :| |vs| > 0 && vs[0] == j && vs[|vs| - 1] == g.n - 1 && Chain(g, vs);
      var ws := [i] + vs;
      forall x | 0 <= x < |ws| - 1
        ensures Joined(g, ws[x], ws[x + 1])
      {
        if x > 0 {
          assert ws[x] == vs[x - 1] && ws[x + 1] == vs[x];
        }
      }
      assert ws[|ws| - 1] == vs[|vs| - 1];
    } else {
      assert Chain(g, [i]);
    }
  }

  lemma LinkedReverse(g: Graph, a: int, b: int)
    requires Linked(g, a, b)
    ensures Linked(g, b, a)
  {
    var vs :| |vs| > 0 && vs[0] == a && vs[|vs| - 1] == b && Chain(g, vs);
    var ws := seq(|vs|, x requires 0 <= x < |vs| => vs[|vs| - 1 - x]);
    forall x | 0 <= x < |ws| - 1
      ensures Joined(g, ws[x], ws[x + 1])
    {
      assert Joined(g, vs[|vs| - 2 - x], vs[|vs| - 1 - x]);
    }
    assert ws[0] == b && ws[|ws| - 1] == a && Chain(g, ws);
  }

  lemma LinkedJoin(g: Graph, a: int, b: int, c: int)
    requires Linked(g, a, b) && Linked(g, b, c)
    ensures Linked(g, a, c)
  {
    var vs :| |vs| > 0 && vs[0] == a && vs[|vs| - 1] == b && Chain(g, vs);
    var us :| |us| > 0 && us[0] == b && us[|us| - 1] == c && Chain(g, us);
    var ws := vs + us[1..];
    forall x | 0 <= x < |ws| - 1
      ensures Joined(g, ws[x], ws[x + 1])
    {
      if x < |vs| - 1 {
        assert ws[x] == vs[x] && ws[x + 1] == vs[x + 1];
      } else {
        assert ws[x] == us[x - |vs| + 1] && ws[x + 1] == us[x - |vs| + 2];
      }
    }
    if |us| == 1 {
      assert ws == vs;
    } else {
      assert ws[|ws| - 1] == us[|us| - 1];
    }
  }

  /** Lines 90-95: whatever the coins, the undirected skeleton of the result is connected. */
  lemma GeneratedConnected(n: nat, directed: bool, r: Randomness)
    ensures SkeletonConnected(Generated(n, directed, r))
  {
    var G := Generated(n, directed, r);
    ForwardEdges(n, directed, r);
    forall a, b | 0 <= a < n && 0 <= b < n
      ensures Linked(G, a, b)
    {
      LinkedToLast(G, a);
      LinkedToLast(G, b);
      LinkedReverse(G, b, n - 1);
      LinkedJoin(G, a, n - 1, b);
    }
  }

  // ---------------------------------------------------------------------
  // What the directed variant does not guarantee

  /** Two nodes, the coin fires: the only edge enters node 0, which has no outgoing edge. */
  lemma ForwardEdgeMayEnter()
    ensures var G := Generated(2, true, Randomness(_ => 0, _ => true, (_, _) => false, _ => 0));
      G.edges == [Edge(1, 0, MinWeight)] && !exists e :: e in G.edges && e.u == 0
  {
    var r := Randomness(_ => 0, _ => true, (_, _) => false, _ => 0);
    assert Groups(2, true, r, 1) == [(1, 0)];
    assert WithFirst([(1, 0)], 0) == [];
    assert WithFirst([(1, 0)], 1) == [(1, 0)];
    assert YieldFrom([(1, 0)], 0, 2) == [(1, 0)];
  }

  /** Two nodes, the coin does not fire: there is no walk from node 1 back to node 0. */
  lemma NotStronglyConnected()
    ensures var G := Generated(2, true, Randomness(_ => 0, _ => false, (_, _) => false, _ => 0));
      G.edges == [Edge(0, 1, MinWeight)] && forall p :: !IsWalk(G.edges, 1, 0, p)
  {
    var r := Randomness(_ => 0, _ => false, (_, _) => false, _ => 0);
    assert Groups(2, true, r, 1) == [(0, 1)];
    assert WithFirst([(0, 1)], 0) == [(0, 1)];
    assert WithFirst([(0, 1)], 1) == [];
    assert YieldFrom([(0, 1)], 0, 2) == [(0, 1)];
    var G := Generated(2, true, r);
    forall p | IsWalk(G.edges, 1, 0, p)
      ensures false
    {
      if |p| > 0 {
        FirstEdgeLeavesStart(G.edges, 1, 0, p);
      }
    }
  }
}
