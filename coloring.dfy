/** Graphs, colourings and the DSATUR selection and colouring rules, stated as
    functions and predicates over values. The vertices of a graph `g` are
    `0 .. |g|-1` and `g[v]` lists the neighbours of `v`; a colouring is a map
    from vertex to colour, and a vertex that is not a key is uncoloured. */
module Coloring {

  type Graph = seq<seq<nat>>
  type Colouring = map<nat, nat>

  /** Every listed neighbour is itself a vertex. */
  predicate Closed(g: Graph) {
    forall u, w :: 0 <= u < |g| && w in g[u] ==> w < |g|
  }

  /** Adjacency is symmetric: if `u` lists `w`, then `w` lists `u`. */
  predicate Symmetric(g: Graph) {
    forall u, w :: 0 <= u < |g| && w in g[u] ==> w < |g| && u in g[w]
  }

  /** No vertex is its own neighbour. */
  predicate LoopFree(g: Graph) {
    forall v :: 0 <= v < |g| ==> v !in g[v]
  }

  /** A simple undirected graph, as the colouring routine expects it. */
  predicate ValidGraph(g: Graph) {
    Closed(g) && Symmetric(g) && LoopFree(g)
  }

  function Degree(g: Graph, v: nat): nat
    requires v < |g|
  {
    |g[v]|
  }

  /** The colours of those vertices of `s` that `m` colours. */
  function ColoursOf(s: seq<nat>, m: Colouring): set<nat> {
    set w | w in s && w in m :: m[w]
  }

  /** The colours used by the coloured neighbours of `v`. */
  function UsedColours(g: Graph, m: Colouring, v: nat): set<nat>
    requires v < |g|
  {
    ColoursOf(g[v], m)
  }

  /** Saturation degree: the number of distinct colours among the coloured
      neighbours of `v`. */
  function Saturation(g: Graph, m: Colouring, v: nat): nat
    requires v < |g|
  {
    |UsedColours(g, m, v)|
  }

  /** `c` is the least positive colour that is not in `used`. */
  predicate IsLeastFree(used: set<nat>, c: nat) {
    1 <= c && c !in used && forall k :: 1 <= k < c ==> k in used
  }

  /** The pair `(s1, d1)` is lexicographically greater than `(s2, d2)`. */
  predicate LexGreater(s1: nat, d1: nat, s2: nat, d2: nat) {
    s1 > s2 || (s1 == s2 && d1 > d2)
  }

  /** The seed is the first vertex, in vertex order, of maximum degree. */
  predicate IsSeed(g: Graph, v: nat) {
    v < |g| &&
    forall u :: 0 <= u < |g| ==> Degree(g, u) <= Degree(g, v) && (u < v ==> Degree(g, u) < Degree(g, v))
  }

  /** `v` is an uncoloured vertex whose (saturation, degree) pair no other
      uncoloured vertex exceeds. */
  predicate IsPriorityChoice(g: Graph, m: Colouring, v: nat) {
    v < |g| && v !in m &&
    forall u :: 0 <= u < |g| && u !in m ==>
      !LexGreater(Saturation(g, m, u), Degree(g, u), Saturation(g, m, v), Degree(g, v))
  }

  /** The colours that `m` had given when the first `i` vertices of `order`
      were coloured. */
  function Before(order: seq<nat>, m: Colouring, i: nat): Colouring
    requires i <= |order|
  {
    map w | w in order[..i] && w in m :: m[w]
  }

  /** `order` lists without repetition exactly the vertices that `m` colours. */
  ghost predicate Listed(g: Graph, order: seq<nat>, m: Colouring) {
    (forall i :: 0 <= i < |order| ==> order[i] < |g| && order[i] in m) &&
    (forall i, j :: 0 <= i < j < |order| ==> order[i] != order[j]) &&
    (forall w :: w in m ==> w in order)
  }

  /** Step `i` of `order` followed the selection rule. */
  ghost predicate ChoiceRuleAt(g: Graph, order: seq<nat>, m: Colouring, i: nat) {
    0 < i < |order| && IsPriorityChoice(g, Before(order, m, i), order[i])
  }

  /** Step `i` of `order` followed the colouring rule. */
  ghost predicate ColourRuleAt(g: Graph, order: seq<nat>, m: Colouring, i: nat) {
    i < |order| && order[i] < |g| && order[i] in m &&
    IsLeastFree(UsedColours(g, Before(order, m, i), order[i]), m[order[i]])
  }

  /** Every vertex after the first was a priority choice at its turn. */
  ghost predicate ChoicesFollowPriority(g: Graph, order: seq<nat>, m: Colouring) {
    forall i: nat :: 0 < i < |order| ==> ChoiceRuleAt(g, order, m, i)
  }

  /** Every vertex got the least colour its neighbours coloured before it did
      not use. */
  ghost predicate ColoursLeastFree(g: Graph, order: seq<nat>, m: Colouring) {
    forall i: nat :: i < |order| ==> ColourRuleAt(g, order, m, i)
  }

  /** `order` lists the vertices coloured so far, without repetition, and
      `m` colours exactly those; the first is the seed, every later one was a
      priority choice at its turn, and each got the least colour that its
      neighbours coloured before it did not use. */
  ghost predicate PartialRun(g: Graph, order: seq<nat>, m: Colouring) {
    Listed(g, order, m) &&
    (|order| > 0 ==> IsSeed(g, order[0])) &&
    ChoicesFollowPriority(g, order, m) &&
    ColoursLeastFree(g, order, m)
  }

  /** `m` colours exactly the vertices of `g`. */
  ghost predicate ColoursAll(g: Graph, m: Colouring) {
    forall v: nat :: v in m <==> v < |g|
  }

  /** A complete DSATUR run: every vertex is coloured, once. */
  ghost predicate IsDsaturRun(g: Graph, order: seq<nat>, m: Colouring) {
    PartialRun(g, order, m) && |order| == |g| && ColoursAll(g, m)
  }

  /** No edge has both ends of the same colour. */
  ghost predicate Proper(g: Graph, m: Colouring) {
    forall u, w :: 0 <= u < |g| && w in g[u] && u in m && w in m ==> m[u] != m[w]
  }

  /** The colours used are exactly `1 .. k` for some `k`. */
  ghost predicate ContiguousFromOne(colours: set<nat>) {
    0 !in colours && forall c, k :: c in colours && 1 <= k <= c ==> k in colours
  }

  /** At most one colour per listed neighbour. */
  lemma {:induction false} ColoursOfBound(s: seq<nat>, m: Colouring)
    ensures |ColoursOf(s, m)| <= |s|
  {
    if s != [] {
      var init := s[..|s| - 1];
      var last := s[|s| - 1];
      ColoursOfBound(init, m);
      assert s == init + [last];
      if last in m {
        assert ColoursOf(s, m) == ColoursOf(init, m) + {m[last]};
      } else {
        assert ColoursOf(s, m) == ColoursOf(init, m);
      }
    }
  }

  /** A set holding every colour `1 .. c-1` has at least `c - 1` elements. */
  lemma {:induction false} CoversBelow(used: set<nat>, c: nat)
    requires forall k :: 1 <= k < c ==> k in used
    ensures c <= |used| + 1
  {
    if c > 1 {
      CoversBelow(used - {c - 1}, c - 1);
    }
  }

  /** The least free colour exceeds the number of used colours by at most one. */
  lemma LeastFreeBound(used: set<nat>, c: nat)
    requires IsLeastFree(used, c)
    ensures c <= |used| + 1
  {
    CoversBelow(used, c);
  }

  /** Colouring `v` leaves the used colours of a vertex that does not list `v`
      unchanged. */
  lemma UsedColoursUnaffected(g: Graph, m: Colouring, v: nat, c: nat, u: nat)
    requires u < |g| && v !in g[u]
    ensures UsedColours(g, m[v := c], u) == UsedColours(g, m, u)
  {
  }

  /** Recording one more vertex does not change the colours seen at an
      earlier step. */
  lemma BeforeExtend(order: seq<nat>, m: Colouring, v: nat, c: nat, i: nat)
    requires i <= |order| && v !in m
    requires forall j :: 0 <= j < |order| ==> order[j] in m
    ensures Before(order + [v], m[v := c], i) == Before(order, m, i)
  {
    assert (order + [v])[..i] == order[..i];
  }

  /** After the last step, the colours seen are all of `m`. */
  lemma BeforeAll(order: seq<nat>, m: Colouring)
    requires forall w :: w in m ==> w in order
    ensures Before(order, m, |order|) == m
  {
  }

  /** The colouring rule at step `i` of a run. */
  lemma StepColour(g: Graph, order: seq<nat>, m: Colouring, i: nat)
    requires PartialRun(g, order, m) && i < |order|
    ensures order[i] < |g| && order[i] in m
    ensures IsLeastFree(UsedColours(g, Before(order, m, i), order[i]), m[order[i]])
  {
    assert ColourRuleAt(g, order, m, i);
  }

  /** The selection rule at step `i > 0` of a run. */
  lemma StepChoice(g: Graph, order: seq<nat>, m: Colouring, i: nat)
    requires PartialRun(g, order, m) && 0 < i < |order|
    ensures IsPriorityChoice(g, Before(order, m, i), order[i])
  {
    assert ChoiceRuleAt(g, order, m, i);
  }

  /** One more priority choice keeps every step a priority choice. */
  lemma ExtendChoices(g: Graph, order: seq<nat>, m: Colouring, v: nat, c: nat)
    requires Listed(g, order, m) && ChoicesFollowPriority(g, order, m)
    requires IsPriorityChoice(g, m, v)
    ensures ChoicesFollowPriority(g, order + [v], m[v := c])
  {
    var order', m' := order + [v], m[v := c];
    BeforeAll(order, m);
    forall i: nat | 0 < i < |order'|
      ensures ChoiceRuleAt(g, order', m', i)
    {
      BeforeExtend(order, m, v, c, i);
      if i < |order| {
        assert ChoiceRuleAt(g, order, m, i);
        assert order'[i] == order[i];
      }
    }
  }

  /** One more least-free colouring keeps every step a least-free colouring. */
  lemma ExtendColours(g: Graph, order: seq<nat>, m: Colouring, v: nat, c: nat)
    requires Listed(g, order, m) && ColoursLeastFree(g, order, m)
    requires v < |g| && v !in m
    requires IsLeastFree(UsedColours(g, m, v), c)
    ensures Listed(g, order + [v], m[v := c])
    ensures ColoursLeastFree(g, order + [v], m[v := c])
  {
    var order', m' := order + [v], m[v := c];
    BeforeAll(order, m);
    assert forall i :: 0 <= i < |order'| ==> order'[i] < |g| && order'[i] in m';
    assert forall w :: w in m' ==> w in order';
    forall i: nat | i < |order'|
      ensures ColourRuleAt(g, order', m', i)
    {
      BeforeExtend(order, m, v, c, i);
      if i < |order| {
        assert ColourRuleAt(g, order, m, i);
        assert order'[i] == order[i] && order[i] in m;
        assert m'[order'[i]] == m[order[i]];
      }
    }
  }

  /** Colouring the seed with colour 1 starts a run. */
  lemma SeedRun(g: Graph, s: nat)
    requires IsSeed(g, s)
    ensures PartialRun(g, [s], map[s := 1])
  {
  }

  /** Colouring a priority choice `v` with its least free colour extends a run. */
  lemma ExtendRun(g: Graph, order: seq<nat>, m: Colouring, v: nat, c: nat)
    requires PartialRun(g, order, m) && |order| > 0
    requires IsPriorityChoice(g, m, v)
    requires IsLeastFree(UsedColours(g, m, v), c)
    ensures PartialRun(g, order + [v], m[v := c])
  {
    ExtendChoices(g, order, m, v, c);
    ExtendColours(g, order, m, v, c);
  }

  /** The vertex coloured at step `i` is seen, with its final colour, at every
      later step `j`. */
  lemma BeforeHas(order: seq<nat>, m: Colouring, i: nat, j: nat)
    requires i < j <= |order| && order[i] in m
    ensures order[i] in Before(order, m, j) && Before(order, m, j)[order[i]] == m[order[i]]
  {
  }

  /** A run of DSATUR on a simple graph never gives two neighbours the same
      colour. */
  lemma RunIsProper(g: Graph, order: seq<nat>, m: Colouring)
    requires Symmetric(g) && LoopFree(g)
    requires PartialRun(g, order, m)
    ensures Proper(g, m)
  {
    forall u, w | 0 <= u < |g| && w in g[u] && u in m && w in m
      ensures m[u] != m[w]
    {
      var i :| 0 <= i < |order| && order[i] == u;
      var j :| 0 <= j < |order| && order[j] == w;
      if i < j {
        StepColour(g, order, m, j);
        BeforeHas(order, m, i, j);
        assert m[u] in UsedColours(g, Before(order, m, j), w);
      } else {
        assert j < i;
        StepColour(g, order, m, i);
        BeforeHas(order, m, j, i);
        assert m[w] in UsedColours(g, Before(order, m, i), u);
      }
    }
  }

  /** The colours seen after `i` steps, seen again from a prefix of `order`. */
  lemma BeforePrefix(order: seq<nat>, m: Colouring, i: nat, j: nat)
    requires j <= i <= |order|
    ensures Before(order[..i], Before(order, m, i), j) == Before(order, m, j)
  {
  }

  /** The state after any number of steps of a run is itself a run, and the
      final colouring keeps every colour given in it: a colour, once given, is
      never changed. */
  lemma RunPrefix(g: Graph, order: seq<nat>, m: Colouring, i: nat)
    requires PartialRun(g, order, m) && i <= |order|
    ensures PartialRun(g, order[..i], Before(order, m, i))
    ensures forall w :: w in Before(order, m, i) ==> w in m && Before(order, m, i)[w] == m[w]
  {
    var p, b := order[..i], Before(order, m, i);
    forall k | 0 <= k < |p|
      ensures p[k] < |g| && p[k] in b
    {
      StepColour(g, order, m, k);
      assert p[k] == order[k];
    }
    forall j: nat | j < |p|
      ensures ColourRuleAt(g, p, b, j)
    {
      StepColour(g, order, m, j);
      BeforePrefix(order, m, i, j);
      assert p[j] == order[j];
    }
    forall j: nat | 0 < j < |p|
      ensures ChoiceRuleAt(g, p, b, j)
    {
      StepChoice(g, order, m, j);
      BeforePrefix(order, m, i, j);
      assert p[j] == order[j];
    }
  }

  /** A run that has coloured every vertex colours nothing else. */
  lemma RunCoversAll(g: Graph, order: seq<nat>, m: Colouring)
    requires Listed(g, order, m)
    requires forall v :: 0 <= v < |g| ==> v in m
    ensures ColoursAll(g, m)
  {
  }

  /** The seed of a run gets colour 1. */
  lemma SeedGetsColourOne(g: Graph, order: seq<nat>, m: Colouring)
    requires PartialRun(g, order, m) && |order| > 0
    ensures IsSeed(g, order[0]) && m[order[0]] == 1
  {
    StepColour(g, order, m, 0);
    assert Before(order, m, 0) == map[];
    assert UsedColours(g, map[], order[0]) == {};
    assert 1 !in UsedColours(g, Before(order, m, 0), order[0]);
  }

  /** Every colour below the colour of `v` is the colour of a neighbour of `v`
      (one coloured before `v`). */
  lemma RunLowerColoursAtNeighbours(g: Graph, order: seq<nat>, m: Colouring, v: nat, k: nat)
    requires PartialRun(g, order, m)
    requires v in m && 1 <= k < m[v]
    ensures v < |g| && exists w :: w in g[v] && w in m && m[w] == k
  {
    var i :| 0 <= i < |order| && order[i] == v;
    StepColour(g, order, m, i);
    var before := Before(order, m, i);
    assert k in UsedColours(g, before, v);
    var w :| w in g[v] && w in before && before[w] == k;
    assert w in m && m[w] == k;
  }

  /** A colouring with positive colours, where every colour below a vertex's
      colour is used somewhere, uses the colours `1 .. k` for some `k`. */
  lemma ContiguousWhenLowerColoursUsed(m: Colouring)
    requires forall v :: v in m ==> m[v] >= 1
    requires forall v, k :: v in m && 1 <= k < m[v] ==> k in m.Values
    ensures ContiguousFromOne(m.Values)
  {
  }

  /** The colours of a run are exactly `1 .. k` for some `k`. */
  lemma RunUsesContiguousColours(g: Graph, order: seq<nat>, m: Colouring)
    requires PartialRun(g, order, m)
    ensures ContiguousFromOne(m.Values)
  {
    forall v | v in m
      ensures m[v] >= 1
    {
      var i :| 0 <= i < |order| && order[i] == v;
      StepColour(g, order, m, i);
    }
    forall v, k | v in m && 1 <= k < m[v]
      ensures k in m.Values
    {
      RunLowerColoursAtNeighbours(g, order, m, v, k);
      var w :| w in g[v] && w in m && m[w] == k;
      assert m[w] in m.Values;
    }
    ContiguousWhenLowerColoursUsed(m);
  }

  /** No vertex gets a colour above its degree plus one. */
  lemma RunColourBound(g: Graph, order: seq<nat>, m: Colouring, v: nat)
    requires PartialRun(g, order, m) && v in m
    ensures v < |g| && 1 <= m[v] <= Degree(g, v) + 1
  {
    var i :| 0 <= i < |order| && order[i] == v;
    StepColour(g, order, m, i);
    var before := Before(order, m, i);
    LeastFreeBound(UsedColours(g, before, v), m[v]);
    ColoursOfBound(g[v], before);
  }

  /** A complete run on a simple graph is a proper colouring with the colours
      `1 .. k`, where no vertex's colour exceeds its degree plus one. */
  lemma RunIsGoodColouring(g: Graph, order: seq<nat>, m: Colouring)
    requires ValidGraph(g) && IsDsaturRun(g, order, m)
    ensures Proper(g, m)
    ensures ContiguousFromOne(m.Values)
    ensures forall v :: v in m ==> 1 <= m[v] <= Degree(g, v) + 1
  {
    RunIsProper(g, order, m);
    RunUsesContiguousColours(g, order, m);
    forall v | v in m
      ensures 1 <= m[v] <= Degree(g, v) + 1
    {
      RunColourBound(g, order, m, v);
    }
  }
}
