/** Adjacency as the interactive front end collects it: each vertex's
    neighbours are chosen on their own, so `u` may list `w` without `w`
    listing `u`, while the drawing treats every listed pair as an undirected
    edge. The colouring routine looks only at a vertex's own list. */
module UndirectedInput {
  import opened Coloring
  import Dsatur

  /** A one-sided listing: vertex 0 lists 1, vertex 1 lists nothing. */
  function OneSided(): Graph {
    [[1], []]
  }

  /** Coloured as written, both ends of the listed edge 0-1 get colour 1. */
  lemma OneSidedEdgeClash(order: seq<nat>, m: Colouring)
    requires IsDsaturRun(OneSided(), order, m)
    ensures 1 in OneSided()[0] && m[0] == 1 && m[1] == 1
  {
    var g := OneSided();
    SeedGetsColourOne(g, order, m);
    assert order[0] == 0 by {
      assert Degree(g, order[0]) >= Degree(g, 0) == 1;
    }
    assert order[1] == 1 by {
      assert order[1] != order[0];
      assert order[1] < 2;
    }
    StepColour(g, order, m, 1);
    assert UsedColours(g, Before(order, m, 1), 1) == {};
    LeastFreeOfNone(UsedColours(g, Before(order, m, 1), 1), m[1]);
  }

  /** With no colour taken, the least free colour is 1. */
  lemma LeastFreeOfNone(used: set<nat>, c: nat)
    requires used == {} && IsLeastFree(used, c)
    ensures c == 1
  {
    assert 1 !in used;
  }

  /** The vertices `w < k` that list `u` although `u` does not list them. */
  function Missing(g: Graph, u: nat, k: nat): (r: seq<nat>)
    requires u < |g| && k <= |g|
    ensures forall w: nat :: w in r <==> w < k && u in g[w] && w !in g[u]
    ensures forall i :: 0 <= i < |r| ==> r[i] < k && u in g[r[i]] && r[i] !in g[u]
  {
    if k == 0 then []
    else if u in g[k - 1] && k - 1 !in g[u] then Missing(g, u, k - 1) + [k - 1]
    else Missing(g, u, k - 1)
  }

  /** Every listed pair made two-sided: `u` also lists each vertex that lists
      it. */
  function Undirected(g: Graph): (h: Graph)
    ensures |h| == |g|
  {
    seq(|g|, u requires 0 <= u < |g| => g[u] + Missing(g, u, |g|))
  }

  /** Making a closed, loop-free listing two-sided gives a simple graph that
      keeps every listed pair. */
  lemma UndirectedIsValid(g: Graph)
    requires Closed(g) && LoopFree(g)
    ensures ValidGraph(Undirected(g))
    ensures forall u, w :: 0 <= u < |g| && w in g[u] ==> w in Undirected(g)[u]
  {
  }

  /** In a symmetric graph no vertex lists `u` without `u` listing it back. */
  lemma {:induction false} NothingMissing(g: Graph, u: nat, k: nat)
    requires Symmetric(g) && u < |g| && k <= |g|
    ensures Missing(g, u, k) == []
  {
    if k > 0 {
      NothingMissing(g, u, k - 1);
    }
  }

  /** A listing that is already two-sided is left as it is. */
  lemma UndirectedKeepsSymmetric(g: Graph)
    requires Symmetric(g)
    ensures Undirected(g) == g
  {
    forall u | 0 <= u < |g|
      ensures Undirected(g)[u] == g[u]
    {
      NothingMissing(g, u, |g|);
    }
  }

  /** Colours the graph the front end collects: no listed pair, in either
      direction, gets one colour at both ends. */
  method RunOnListing(g: Graph) returns (colors: Colouring)
    requires |g| > 0 && Closed(g) && LoopFree(g)
    ensures ColoursAll(g, colors)
    ensures forall u, w :: 0 <= u < |g| && w in g[u] ==> colors[u] != colors[w]
  {
    UndirectedIsValid(g);
    var h := Undirected(g);
    ghost var order;
    colors, order := Dsatur.Run(h);
    forall u, w | 0 <= u < |g| && w in g[u]
      ensures colors[u] != colors[w]
    {
      assert w in h[u] && w < |g|;
    }
  }
}
