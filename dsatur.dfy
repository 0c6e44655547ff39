/** The DSATUR greedy colouring routine: the seed of maximum degree gets
    colour 1, then the uncoloured vertex of greatest (saturation, degree) is
    coloured with the least colour its coloured neighbours do not use, and the
    saturation of its uncoloured neighbours is recomputed, until every vertex
    is coloured. */
module Dsatur {
  import opened Coloring

  /** The first vertex, in vertex order, of maximum degree. */
  method SelectSeed(g: Graph, degree: seq<nat>) returns (s: nat)
    requires |g| > 0 && |degree| == |g|
    requires forall v :: 0 <= v < |g| ==> degree[v] == Degree(g, v)
    ensures IsSeed(g, s)
  {
    s := 0;
    var v := 1;
    while v < |g|
      invariant 1 <= v <= |g| && s < v
      invariant forall u :: 0 <= u < v ==> degree[u] <= degree[s] && (u < s ==> degree[u] < degree[s])
    {
      if degree[v] > degree[s] {
        s := v;
      }
      v := v + 1;
    }
  }

  /** Some uncoloured vertex whose (dsat, degree) pair is lexicographically
      greatest; among equals, the one met first while scanning the set, in an
      order the model leaves open. */
  method SelectNext(uncolored: set<nat>, dsat: seq<nat>, degree: seq<nat>) returns (v: nat)
    requires uncolored != {}
    requires forall u :: u in uncolored ==> u < |dsat| && u < |degree|
    ensures v in uncolored
    ensures forall u :: u in uncolored ==> !LexGreater(dsat[u], degree[u], dsat[v], degree[v])
  {
    v :| v in uncolored;
    var rest := uncolored - {v};
    while rest != {}
      invariant rest <= uncolored && v in uncolored
      invariant forall u :: u in uncolored && u !in rest ==> !LexGreater(dsat[u], degree[u], dsat[v], degree[v])
      decreases rest
    {
      var u :| u in rest;
      if LexGreater(dsat[u], degree[u], dsat[v], degree[v]) {
        v := u;
      }
      rest := rest - {u};
    }
  }

  /** The least positive colour not in `used`, found by counting up from 1;
      the count stops after at most `|used|` steps. */
  method LeastFreeColour(used: set<nat>) returns (c: nat)
    ensures IsLeastFree(used, c)
    ensures c <= |used| + 1
  {
    c := 1;
    while c in used
      invariant 1 <= c <= |used| + 1
      invariant forall k :: 1 <= k < c ==> k in used
      decreases |used| + 1 - c
    {
      CoversBelow(used, c + 1);
      c := c + 1;
    }
  }

  /** Recomputes `dsat` for every neighbour of the newly coloured `v` that is
      still uncoloured; every other entry is kept. */
  method RefreshSaturation(g: Graph, m: Colouring, uncolored: set<nat>, dsat: seq<nat>, v: nat)
    returns (dsat': seq<nat>)
    requires Closed(g) && v < |g| && |dsat| == |g|
    requires forall u :: u in uncolored ==> u < |g|
    ensures |dsat'| == |g|
    ensures forall u :: u in uncolored && u in g[v] ==> dsat'[u] == Saturation(g, m, u)
    ensures forall u :: 0 <= u < |g| && !(u in uncolored && u in g[v]) ==> dsat'[u] == dsat[u]
  {
    dsat' := dsat;
    var j := 0;
    while j < |g[v]|
      invariant 0 <= j <= |g[v]| && |dsat'| == |g|
      invariant forall u :: u in uncolored && u in g[v][..j] ==> dsat'[u] == Saturation(g, m, u)
      invariant forall u :: 0 <= u < |g| && !(u in uncolored && u in g[v][..j]) ==> dsat'[u] == dsat[u]
    {
      var w := g[v][j];
      assert g[v][..j + 1] == g[v][..j] + [w];
      if w in uncolored {
        dsat' := dsat'[w := Saturation(g, m, w)];
      }
      j := j + 1;
    }
    assert g[v][..j] == g[v];
  }

  /** After colouring `v`, saturations of uncoloured vertices that are not
      neighbours of `v` are still correct. */
  lemma SaturationKeptAwayFrom(g: Graph, m: Colouring, v: nat, c: nat, uncolored: set<nat>, dsat: seq<nat>)
    requires Symmetric(g) && v < |g| && |dsat| == |g|
    requires forall u :: u in uncolored ==> u < |g| && dsat[u] == Saturation(g, m, u)
    ensures forall u :: u in uncolored && u !in g[v] ==> dsat[u] == Saturation(g, m[v := c], u)
  {
    forall u | u in uncolored && u !in g[v]
      ensures dsat[u] == Saturation(g, m[v := c], u)
    {
      UsedColoursUnaffected(g, m, v, c, u);
    }
  }

  /** The tables the routine starts from: every degree, every saturation 0,
      every vertex uncoloured. */
  method InitialState(g: Graph) returns (degree: seq<nat>, dsat: seq<nat>, uncolored: set<nat>)
    ensures |degree| == |g| && |dsat| == |g|
    ensures forall u :: 0 <= u < |g| ==> degree[u] == Degree(g, u) && dsat[u] == 0
    ensures forall u :: u in uncolored <==> 0 <= u < |g|
    ensures |uncolored| == |g|
  {
    degree, dsat, uncolored := [], [], {};
    var v := 0;
    while v < |g|
      invariant v <= |g| && |degree| == v && |dsat| == v
      invariant forall u :: 0 <= u < v ==> degree[u] == Degree(g, u) && dsat[u] == 0
      invariant forall u :: u in uncolored <==> 0 <= u < v
      invariant |uncolored| == v
    {
      degree := degree + [|g[v]|];
      dsat := dsat + [0];
      uncolored := uncolored + {v};
      v := v + 1;
    }
  }

  /** Colours every vertex of a non-empty simple graph. `order` is the order
      in which the vertices were coloured. */
  method Run(g: Graph) returns (colors: Colouring, ghost order: seq<nat>)
    requires |g| > 0 && ValidGraph(g)
    ensures IsDsaturRun(g, order, colors)
    ensures ColoursAll(g, colors)
    ensures Proper(g, colors)
    ensures ContiguousFromOne(colors.Values)
    ensures forall v :: v in colors ==> 1 <= colors[v] <= Degree(g, v) + 1
  {
    var degree, dsat, uncolored := InitialState(g);
    var first := SelectSeed(g, degree);
    colors := map[first := 1];
    uncolored := uncolored - {first};
    order := [first];
    SeedRun(g, first);
    SaturationKeptAwayFrom(g, map[], first, 1, uncolored, dsat);
    dsat := RefreshSaturation(g, colors, uncolored, dsat, first);

    while uncolored != {}
      invariant PartialRun(g, order, colors) && |order| > 0
      invariant forall u :: u in uncolored <==> 0 <= u < |g| && u !in colors
      invariant |uncolored| + |order| == |g|
      invariant |degree| == |g| && |dsat| == |g|
      invariant forall u :: 0 <= u < |g| ==> degree[u] == Degree(g, u)
      invariant forall u :: u in uncolored ==> dsat[u] == Saturation(g, colors, u)
      decreases uncolored
    {
      var next := SelectNext(uncolored, dsat, degree);
      var used := UsedColours(g, colors, next);
      var color := LeastFreeColour(used);
      ExtendRun(g, order, colors, next, color);
      uncolored := uncolored - {next};
      SaturationKeptAwayFrom(g, colors, next, color, uncolored, dsat);
      colors := colors[next := color];
      order := order + [next];
      dsat := RefreshSaturation(g, colors, uncolored, dsat, next);
    }

    forall u | 0 <= u < |g|
      ensures u in colors
    {
      assert u !in uncolored;
    }
    RunCoversAll(g, order, colors);
    RunIsGoodColouring(g, order, colors);
  }
}
