# DSATUR graph colouring

A model of `dsatur` from `dst.py`, the DSATUR ("degree of saturation") greedy
colouring routine of a small interactive graph-colouring tool. The routine
takes an adjacency map from vertex to neighbour list and fills in a colour map
one vertex at a time:

- it tabulates every vertex's degree, sets every saturation to 0 and marks
  every vertex uncoloured;
- it gives colour 1 to the first vertex of maximum degree (the seed);
- while some vertex is uncoloured, it picks an uncoloured vertex whose
  (saturation, degree) pair is lexicographically greatest;
- it gives that vertex the least positive colour that none of its coloured
  neighbours has, counting up from 1;
- it recomputes the saturation (the number of distinct colours among the
  coloured neighbours) of each uncoloured neighbour of that vertex.

Vertices are `0 .. n-1`, a graph is `seq<seq<nat>>` (`g[v]` lists the
neighbours of `v`), and a colouring is a `map<nat, nat>` whose keys are the
coloured vertices, as with the source's `colors` dict. The front end numbers
vertices `1 .. n`, so every vertex here is one lower.

Files:

- `coloring.dfy`, module `Coloring`: graph validity, used colours,
  saturation, the seed rule, the selection rule and the least-free-colour rule
  as functions and predicates. `PartialRun(g, order, m)` states that colouring
  the vertices in `order` by those rules yields `m`, and `IsDsaturRun` states
  that the run is complete. The lemmas derive what a run guarantees.
- `dsatur.dfy`, module `Dsatur`: the routine itself as methods with loops.
  `Run` has the outer `while uncolored` loop. `LeastFreeColour` has the inner
  counting loop. `SelectSeed` and `SelectNext` scan for the `max` calls.
  `RefreshSaturation` loops over the new vertex's neighbours. `Run` returns the
  colour map and, as a ghost result, the order in which vertices were coloured.
  Its loop invariant keeps `dsat[u]` equal to the saturation of every
  uncoloured `u`.
- `scenarios.dfy`, module `Scenarios`: small graphs whose colouring the rules
  fix: a single vertex, a triangle, a star and a path.
- `undirected.dfy`, module `UndirectedInput`: adjacency as the front end
  collects it (see Findings).

## Model

| member | source | states |
|---|---|---|
| `Dsatur.Run` | dst.py:9-41 | For a non-empty, closed, symmetric, loop-free graph, every vertex and nothing else gets a colour. The result is a complete DSATUR run in the order returned. It is proper, uses exactly the colours `1 .. k`, and gives each vertex a colour between 1 and its degree plus one. |
| `Dsatur.InitialState` | dst.py:13-19 | The degree table holds `len` of every neighbour list. Every saturation is 0. The uncoloured set is exactly the `n` vertices. |
| `Dsatur.SelectSeed` | dst.py:21 | The seed has maximum degree, and every vertex before it in key order has strictly smaller degree. So it is the maximiser that `max` over the keys returns. |
| `Dsatur.SelectNext` | dst.py:30 | The chosen vertex is uncoloured, and no uncoloured vertex has a lexicographically greater `(dsat, degree)` pair. |
| `Dsatur.LeastFreeColour` | dst.py:32-34 | The result is the least positive colour not in `used`: it is not in `used` and every colour below it is. It exceeds the size of `used` by at most one, so the counting loop stops after at most that many increments. |
| `Dsatur.RefreshSaturation` | dst.py:37-40 | Every uncoloured neighbour of the new vertex gets its saturation recomputed. Every other entry of `dsat` is left unchanged. |
| `Dsatur.SaturationKeptAwayFrom` | dst.py:37-40 | On a symmetric graph, colouring `v` leaves the saturation of every uncoloured non-neighbour of `v` correct. So recomputing only `v`'s neighbours keeps the saturation invariant. |
| `Coloring.SeedRun` | dst.py:21-23 | Giving the seed colour 1 is a one-step run, and colour 1 is the least free colour for it. |
| `Coloring.ExtendRun` | dst.py:29-36 | Colouring a priority choice with its least free colour extends a run by one step. This is the invariant of the main loop. |
| `Coloring.SeedGetsColourOne` | dst.py:21-23 | The first vertex of a run has maximum degree (the first such in key order) and colour 1. |
| `Coloring.RunPrefix` | dst.py:35-36 | The state after any number of steps is itself a run, and the final colouring keeps each colour given in it. So a colour, once given, never changes. |
| `Coloring.RunIsProper` | dst.py:31-35 | On a symmetric, loop-free graph, no edge of a run has both ends the same colour. |
| `Coloring.RunLowerColoursAtNeighbours` | dst.py:31-34 | Every colour between 1 and a vertex's colour minus one is the colour of one of its neighbours. |
| `Coloring.RunUsesContiguousColours` | dst.py:31-35 | The colours a run uses are exactly `1 .. k` for some `k`. |
| `Coloring.RunColourBound` | dst.py:31-35 | Every colour of a run is between 1 and the vertex's degree plus one. |
| `Coloring.RunIsGoodColouring` | dst.py:9-41 | A complete run on a simple graph is proper, uses the colours `1 .. k`, and gives each vertex at most its degree plus one. |
| `Coloring.ColoursOfBound` | dst.py:27 | A vertex's saturation never exceeds its degree. |
| `Coloring.LeastFreeBound` | dst.py:33-34 | The least free colour is at most one more than the number of used colours. |
| `Scenarios.SingleVertex` | dst.py:21-23 | A lone vertex gets colour 1. |
| `Scenarios.TriangleUsesThreeColours` | dst.py:29-36 | A triangle's corners get the colours 1, 2 and 3. |
| `Scenarios.StarColouring` | dst.py:21-36 | A star's centre is the seed and gets colour 1, and every leaf gets colour 2. |
| `Scenarios.PathColouring` | dst.py:21-36 | On the path 0-1-2-3, vertex 1 is the seed (the first of degree 2) and vertex 2 comes next. The colouring is `{0: 2, 1: 1, 2: 2, 3: 1}`. |
| `UndirectedInput.OneSidedEdgeClash` | dst.py:80-92 | When vertex 0 lists 1 and vertex 1 lists nothing, both vertices get colour 1. |
| `UndirectedInput.UndirectedIsValid` | dst.py:48-50 | Making every listed pair two-sided turns a closed, loop-free listing into a simple graph that keeps every listed pair. |
| `UndirectedInput.UndirectedKeepsSymmetric` | dst.py:48-50 | A listing that is already symmetric is left unchanged. |
| `UndirectedInput.RunOnListing` | dst.py:80-92 | Colouring the two-sided version of a closed, loop-free listing colours every vertex. No listed pair, in either direction, gets the same colour at both ends. |

## Left out

- `visualize_graph` (dst.py:43-59), the palette (dst.py:7, 52) and `main` (dst.py:61-103): networkx/matplotlib drawing, seaborn colours and Streamlit widgets are display and user input. Only the way `main` builds the adjacency map is modelled, in `UndirectedInput`.
- Input validation: `dsatur` checks nothing. Symmetry, loop-freeness and "every neighbour is a vertex" are preconditions of `Dsatur.Run`, not a rejection path. The routine's written design asks for an eager "invalid graph" error instead; the code has none, and the model follows the code.
- The empty graph: `max` over no keys raises in the source (dst.py:21), and the front end only calls `dsatur` when some vertex has a neighbour (dst.py:91). So `Dsatur.Run` requires at least one vertex. The written design returns an empty map here; the model follows the code.
- Dsatur.SelectNext: Python's `max` over a set returns the first maximiser in the set's hash iteration order. The model promises only some maximiser (`:|` picks where the scan starts and continues). The written design breaks such ties by smallest identifier; the code does not, and the model follows the code. Repeatability of a run and colour classes under vertex relabelling are therefore not modelled.
- Dsatur.SelectSeed: `max` over the dict keys follows insertion order. The model assumes the keys were inserted as `0 .. n-1`, as the front end inserts `1 .. n`.
- Vertex identifiers are the integers `0 .. n-1`, not arbitrary hashable keys.
- Dsatur.Run: the saturation invariant for `dsat` is a loop invariant of `Run` and is not part of its result. The source discards `dsat` too. The stale `dsat` entries of coloured vertices are kept but not described.

## Findings

| source | as written | input that shows it | evidently intended | confidence | as-written member | corrected member |
|---|---|---|---|---|---|---|
| dst.py:80-92 | `main` lets each vertex's neighbours be chosen on their own and passes the lists to `dsatur` unchanged. `dsatur` only avoids the colours of the chosen vertex's own list (dst.py:31). | Two vertices: vertex 1 selects 2, vertex 2 selects nothing. Both get colour 1, yet the drawing (dst.py:48-50) shows the edge 1-2. | Every selected pair is an undirected edge, as the drawing treats it, so its ends differ in colour. | high; not executed | `UndirectedInput.OneSidedEdgeClash` | `UndirectedInput.RunOnListing` |
