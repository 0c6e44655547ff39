/** Small graphs whose DSATUR colouring is determined by the rules alone.
    Vertices are numbered from 0, so the graph of vertices `1 .. n` in the
    interactive front end is shifted down by one. */
module Scenarios {
  import opened Coloring

  /** One isolated vertex gets colour 1. */
  lemma SingleVertex(order: seq<nat>, m: Colouring)
    requires IsDsaturRun([[]], order, m)
    ensures m == map[0 := 1]
  {
    SeedGetsColourOne([[]], order, m);
    assert order[0] == 0;
  }

  function Triangle(): Graph {
    [[1, 2], [0, 2], [0, 1]]
  }

  /** The triangle is a simple graph. */
  lemma TriangleIsValid()
    ensures ValidGraph(Triangle())
  {
  }

  /** The three corners of a triangle get the three colours 1, 2 and 3. */
  lemma TriangleUsesThreeColours(order: seq<nat>, m: Colouring)
    requires IsDsaturRun(Triangle(), order, m)
    ensures m.Values == {1, 2, 3}
  {
    var g := Triangle();
    TriangleIsValid();
    RunIsProper(g, order, m);
    forall v | v in m
      ensures 1 <= m[v] <= 3
    {
      RunColourBound(g, order, m, v);
    }
    assert 0 in m && 1 in m && 2 in m;
    assert m[0] != m[1] && m[1] != m[2] && m[0] != m[2] by {
      assert 1 in g[0] && 2 in g[1] && 2 in g[0];
    }
    ThreeDistinctColours(m);
  }

  /** Three vertices with distinct colours in `1 .. 3` use all three. */
  lemma ThreeDistinctColours(m: Colouring)
    requires forall v: nat :: v in m <==> v < 3
    requires forall v :: v in m ==> 1 <= m[v] <= 3
    requires m[0] != m[1] && m[1] != m[2] && m[0] != m[2]
    ensures m.Values == {1, 2, 3}
  {
  }

  function Star(): Graph {
    [[1, 2, 3, 4], [0], [0], [0], [0]]
  }

  /** The star is a simple graph. */
  lemma StarIsValid()
    ensures ValidGraph(Star())
  {
  }

  /** The centre of a star gets colour 1 and every leaf colour 2. */
  lemma StarColouring(order: seq<nat>, m: Colouring)
    requires IsDsaturRun(Star(), order, m)
    ensures m == map[0 := 1, 1 := 2, 2 := 2, 3 := 2, 4 := 2]
  {
    var g := Star();
    StarIsValid();
    SeedGetsColourOne(g, order, m);
    assert order[0] == 0 by {
      assert Degree(g, order[0]) >= Degree(g, 0) == 4;
    }
    RunIsProper(g, order, m);
    forall v | 1 <= v <= 4
      ensures m[v] == 2
    {
      assert v in m;
      RunColourBound(g, order, m, v);
      assert 0 in g[v];
    }
    MapOfStar(m);
  }

  /** The star colouring, written out. */
  lemma MapOfStar(m: Colouring)
    requires forall v: nat :: v in m <==> v < 5
    requires m[0] == 1 && m[1] == 2 && m[2] == 2 && m[3] == 2 && m[4] == 2
    ensures m == map[0 := 1, 1 := 2, 2 := 2, 3 := 2, 4 := 2]
  {
  }

  function Path(): Graph {
    [[1], [0, 2], [1, 3], [2]]
  }

  /** The path is a simple graph. */
  lemma PathIsValid()
    ensures ValidGraph(Path())
  {
  }

  /** On the path 0-1-2-3 the seed is vertex 1 (the first of degree 2), the
      next choice is vertex 2 (same saturation as 0, higher degree), and the
      colouring alternates. */
  lemma PathColouring(order: seq<nat>, m: Colouring)
    requires IsDsaturRun(Path(), order, m)
    ensures order[0] == 1 && order[1] == 2
    ensures m == map[0 := 2, 1 := 1, 2 := 2, 3 := 1]
  {
    var g := Path();
    PathIsValid();
    SeedGetsColourOne(g, order, m);
    assert order[0] == 1 by {
      assert Degree(g, order[0]) >= Degree(g, 1) == 2;
    }
    var seen := Before(order, m, 1);
    assert seen == map[1 := 1] by {
      assert order[..1] == [1];
    }
    assert UsedColours(g, seen, 0) == {1};
    assert UsedColours(g, seen, 2) == {1};
    assert UsedColours(g, seen, 3) == {};
    StepChoice(g, order, m, 1);
    assert order[1] == 2 by {
      assert !LexGreater(Saturation(g, seen, 2), Degree(g, 2), Saturation(g, seen, order[1]), Degree(g, order[1]));
    }
    StepColour(g, order, m, 1);
    LeastFreeAfterOne(UsedColours(g, seen, 2), m[2]);
    RunIsProper(g, order, m);
    RunColourBound(g, order, m, 0);
    RunColourBound(g, order, m, 3);
    assert 0 in m && 3 in m;
    assert m[0] != m[1] by { assert 1 in g[0]; }
    assert m[3] != m[2] by { assert 2 in g[3]; }
    MapOfPath(m);
  }

  /** With only colour 1 taken, the least free colour is 2. */
  lemma LeastFreeAfterOne(used: set<nat>, c: nat)
    requires used == {1} && IsLeastFree(used, c)
    ensures c == 2
  {
    assert 2 !in used;
  }

  /** The path colouring, written out. */
  lemma MapOfPath(m: Colouring)
    requires forall v: nat :: v in m <==> v < 4
    requires 1 <= m[0] <= 2 && m[1] == 1 && m[2] == 2 && 1 <= m[3] <= 2
    requires m[0] != m[1] && m[3] != m[2]
    ensures m == map[0 := 2, 1 := 1, 2 := 2, 3 := 1]
  {
  }
}
