/**
 * The graph model and shortest-path engine of the router: vertices with
 * weighted neighbour maps, a weighted graph with a designated source, and a
 * Dijkstra pass that assigns every vertex a tentative distance and a
 * predecessor, from which the path back to the source is read.
 *
 * The Python objects refer to each other directly (a vertex's `nears` is
 * keyed by vertex objects and `prev` is a vertex). Here every vertex lives in
 * an arena, `nodes: map<int, Vertex>`, under a stable id (the router's port
 * number), and all references between vertices are ids into that arena.
 */
module Dijkstra {
  import opened Wrappers
  import opened Sets

  /**
   * A vertex (Python's `Vertex` and its subclass `Node` in one): its name,
   * the weight of the edge to each neighbour, its tentative distance from the
   * source (-1 while unreached) and its predecessor on the best known path.
   */
  datatype Vertex = Vertex(name: string, nears: map<int, int>, dist: int, prev: Option<int>)

  /** A vertex as `Node(name, port)` creates it: no neighbours, unreached, no predecessor. */
  function NewVertex(name: string): (v: Vertex)
    ensures v.name == name && v.nears == map[] && v.dist == -1 && v.prev.None?
  {
    Vertex(name, map[], -1, None)
  }

  /** Every neighbour a vertex of the arena names is itself in the arena. */
  ghost predicate Closed(nodes: map<int, Vertex>) {
    forall id | id in nodes :: nodes[id].nears.Keys <= nodes.Keys
  }

  // ---------------------------------------------------------------------
  // Paths and their weights, over the adjacency of an arena.
  // ---------------------------------------------------------------------

  /** The adjacency of an arena: each vertex id with its neighbour-weight map. */
  function Edges(nodes: map<int, Vertex>): map<int, map<int, int>> {
    map id | id in nodes :: nodes[id].nears
  }

  ghost predicate IsPath(edges: map<int, map<int, int>>, p: seq<int>) {
    && |p| >= 1
    && (forall i :: 0 <= i < |p| ==> p[i] in edges)
    && (forall i :: 0 <= i < |p| - 1 ==> p[i + 1] in edges[p[i]])
  }

  /** The sum of the edge weights along a path. */
  ghost function PathWeight(edges: map<int, map<int, int>>, p: seq<int>): int
    requires IsPath(edges, p)
    decreases |p|
  {
    if |p| == 1 then 0
    else
      assert IsPath(edges, p[..|p| - 1]);
      PathWeight(edges, p[..|p| - 1]) + edges[p[|p| - 2]][p[|p| - 1]]
  }

  ghost predicate Reachable(edges: map<int, map<int, int>>, s: int, v: int) {
    exists p :: IsPath(edges, p) && p[0] == s && p[|p| - 1] == v
  }

  ghost predicate PositiveWeights(edges: map<int, map<int, int>>) {
    forall id, k | id in edges && k in edges[id] :: edges[id][k] > 0
  }

  // ---------------------------------------------------------------------
  // What a finished pass establishes.
  // ---------------------------------------------------------------------

  /** The relaxed edge from `u` to `v` is tight: `v`'s distance is `u`'s plus the edge. */
  ghost predicate Tight(nodes: map<int, Vertex>, u: int, v: int)
    requires v in nodes
  {
    u in nodes && v in nodes[u].nears && nodes[v].dist == nodes[u].dist + nodes[u].nears[v]
  }

  /**
   * The arena holds a shortest-path tree rooted at `source` over the reached
   * vertices (those with a distance of 0 or more): the source is at distance
   * 0 with no predecessor, every edge out of a reached vertex leads to a
   * reached vertex and cannot improve its distance, and every other reached
   * vertex hangs off a reached predecessor by a tight edge.
   */
  ghost predicate ShortestPathTree(nodes: map<int, Vertex>, source: int) {
    && source in nodes
    && nodes[source].dist == 0
    && nodes[source].prev.None?
    && (forall x, y | x in nodes && nodes[x].dist >= 0 && y in nodes[x].nears ::
          y in nodes && 0 <= nodes[y].dist <= nodes[x].dist + nodes[x].nears[y])
    && (forall v | v in nodes && v != source && nodes[v].dist >= 0 ::
          nodes[v].prev.Some? && Tight(nodes, nodes[v].prev.value, v) && nodes[nodes[v].prev.value].dist >= 0)
  }

  /** Every vertex of the arena has a distance. */
  ghost predicate AllReached(nodes: map<int, Vertex>) {
    forall v | v in nodes :: nodes[v].dist >= 0
  }

  /**
   * The case in which the pass computes shortest paths: the vertex set is the
   * whole arena, every vertex is fresh (as `Node` creates it), every weight is
   * positive and every vertex can be reached from the source.
   */
  ghost predicate FirstRun(nodes: map<int, Vertex>, vertices: set<int>, source: int) {
    && vertices == nodes.Keys
    && source in nodes
    && (forall v | v in nodes :: nodes[v].dist == -1 && nodes[v].prev.None?)
    && PositiveWeights(Edges(nodes))
    && (forall v | v in nodes :: Reachable(Edges(nodes), source, v))
  }

  /** Same vertices, names and neighbour maps: only distances and predecessors may differ. */
  ghost predicate SameShape(nodes: map<int, Vertex>, nodes0: map<int, Vertex>) {
    && nodes.Keys == nodes0.Keys
    && (forall id | id in nodes :: nodes[id].name == nodes0[id].name && nodes[id].nears == nodes0[id].nears)
  }

  /**
   * The neighbour table is symmetric: whenever `y` is a neighbour of `x`,
   * `x` is a neighbour of `y` at the same weight, so every link is recorded
   * at both ends.
   */
  ghost predicate Symmetric(nodes: map<int, Vertex>) {
    forall x, y | x in nodes && y in nodes[x].nears ::
      y in nodes && x in nodes[y].nears && nodes[y].nears[x] == nodes[x].nears[y]
  }

  /** A pass that keeps every neighbour map keeps the table symmetric. */
  lemma SameShapeSymmetric(nodes: map<int, Vertex>, nodes0: map<int, Vertex>)
    requires SameShape(nodes, nodes0) && Symmetric(nodes0)
    ensures Symmetric(nodes)
  {
  }

  // ---------------------------------------------------------------------
  // One relaxation step (Dijkstra.py:57-62) as a function of the arena.
  // ---------------------------------------------------------------------

  /**
   * Vertex `id` after relaxing the edge from `u` to it, if there is one: its
   * name and neighbours stay, its distance ends no higher than `u`'s plus
   * the edge and never rises once set, and if it changes at all it now
   * hangs off `u` at exactly that distance. It changes only when the new
   * distance is strictly lower or it had none, and a neighbour with no
   * distance always takes the new one, whatever its sign.
   */
  function RelaxVertex(nodes: map<int, Vertex>, u: int, id: int): (r: Vertex)
    requires u in nodes && id in nodes
    ensures r.name == nodes[id].name && r.nears == nodes[id].nears
    ensures id in nodes[u].nears ==> r.dist <= nodes[u].dist + nodes[u].nears[id]
    ensures nodes[id].dist >= 0 ==> r.dist <= nodes[id].dist
    ensures r != nodes[id] ==>
      id in nodes[u].nears && r.prev == Some(u) && r.dist == nodes[u].dist + nodes[u].nears[id]
    ensures r != nodes[id] ==>
      nodes[u].dist + nodes[u].nears[id] < nodes[id].dist || nodes[id].dist < 0
    ensures id in nodes[u].nears && nodes[id].dist < 0 ==>
      r.dist == nodes[u].dist + nodes[u].nears[id] && r.prev == Some(u)
  {
    var v := nodes[id];
    if id in nodes[u].nears then
      var alt := nodes[u].dist + nodes[u].nears[id];
      if alt < v.dist || v.dist < 0 then v.(dist := alt, prev := Some(u)) else v
    else v
  }

  /**
   * The arena after relaxing every edge out of `u` against `u`'s current
   * distance: only distances and predecessors change, only at neighbours of
   * `u`, and afterwards no edge out of `u` can improve its endpoint.
   */
  function Relaxed(nodes: map<int, Vertex>, u: int): (r: map<int, Vertex>)
    requires u in nodes
    ensures SameShape(r, nodes)
    ensures forall id | id in nodes && id !in nodes[u].nears :: r[id] == nodes[id]
    ensures forall id | id in nodes[u].nears && id in nodes :: r[id].dist <= nodes[u].dist + nodes[u].nears[id]
  {
    map id | id in nodes :: RelaxVertex(nodes, u, id)
  }

  /** A table agreeing with `RelaxVertex` at every vertex is the relaxed table. */
  lemma RelaxedFrom(nodes: map<int, Vertex>, u: int, r: map<int, Vertex>)
    requires u in nodes && r.Keys == nodes.Keys
    requires forall id | id in r :: r[id] == RelaxVertex(nodes, u, id)
    ensures r == Relaxed(nodes, u)
  {
  }

  /**
   * Relaxing from `u` never changes `u` itself, so reading `u.dist` afresh for
   * every neighbour (as the loop does) is the same as reading it once.
   */
  ghost predicate SelfStable(nodes: map<int, Vertex>, u: int)
    requires u in nodes
  {
    u in nodes[u].nears ==> nodes[u].dist >= 0 && nodes[u].nears[u] >= 0
  }

  // ---------------------------------------------------------------------
  // Path reconstruction (Node.shortest_path).
  // ---------------------------------------------------------------------

  /** Following `prev` from `id` reaches a vertex without predecessor within `k` steps. */
  predicate ChainEnds(nodes: map<int, Vertex>, id: int, k: nat)
    decreases k
  {
    id in nodes && (nodes[id].prev.None? || (k > 0 && ChainEnds(nodes, nodes[id].prev.value, k - 1)))
  }

  /** The vertex ids met by following `prev` back from `id`, source first. */
  ghost function PrevChain(nodes: map<int, Vertex>, id: int, k: nat): (p: seq<int>)
    requires ChainEnds(nodes, id, k)
    ensures |p| >= 1 && p[|p| - 1] == id
    ensures forall i :: 0 <= i < |p| ==> p[i] in nodes
    decreases k
  {
    match nodes[id].prev
    case None => [id]
    case Some(u) => PrevChain(nodes, u, k - 1) + [id]
  }

  /** The names of the vertices of `p`, concatenated. */
  ghost function Names(nodes: map<int, Vertex>, p: seq<int>): string
    requires forall i :: 0 <= i < |p| ==> p[i] in nodes
    decreases |p|
  {
    if |p| == 0 then "" else Names(nodes, p[..|p| - 1]) + nodes[p[|p| - 1]].name
  }

  /**
   * `shortest_path`: the vertex's own name when it has no predecessor, and
   * otherwise the predecessor's path followed by its own name.
   */
  function ShortestPath(nodes: map<int, Vertex>, id: int, ghost k: nat): (s: string)
    requires ChainEnds(nodes, id, k)
    ensures |nodes[id].name| <= |s| && s[|s| - |nodes[id].name|..] == nodes[id].name
    decreases k
  {
    match nodes[id].prev
    case None => nodes[id].name
    case Some(u) => ShortestPath(nodes, u, k - 1) + nodes[id].name
  }

  /** `shortest_path` spells out, name by name, the vertices of the predecessor chain. */
  lemma {:induction false} ShortestPathNames(nodes: map<int, Vertex>, id: int, k: nat)
    requires ChainEnds(nodes, id, k)
    ensures ShortestPath(nodes, id, k) == Names(nodes, PrevChain(nodes, id, k))
    decreases k
  {
    if nodes[id].prev.Some? {
      var u := nodes[id].prev.value;
      ShortestPathNames(nodes, u, k - 1);
      var p := PrevChain(nodes, u, k - 1);
      assert (p + [id])[..|p + [id]| - 1] == p;
    }
  }

  // ---------------------------------------------------------------------
  // Lemmas: a shortest-path tree gives shortest paths.
  // ---------------------------------------------------------------------

  /** No path from the source is lighter than the distance of the vertex it ends at. */
  lemma {:induction false} TreeLowerBound(nodes: map<int, Vertex>, source: int, p: seq<int>)
    requires ShortestPathTree(nodes, source)
    requires IsPath(Edges(nodes), p) && p[0] == source
    ensures nodes[p[|p| - 1]].dist >= 0
    ensures PathWeight(Edges(nodes), p) >= nodes[p[|p| - 1]].dist
    decreases |p|
  {
    var e := Edges(nodes);
    if |p| > 1 {
      var q := p[..|p| - 1];
      assert IsPath(e, q);
      TreeLowerBound(nodes, source, q);
      var x, y := p[|p| - 2], p[|p| - 1];
      assert x in nodes && y in nodes[x].nears;
    }
  }

  /** In a tree over positive weights the predecessor chain ends within `dist` steps. */
  lemma {:induction false} TreeChainEnds(nodes: map<int, Vertex>, source: int, v: int)
    requires ShortestPathTree(nodes, source) && PositiveWeights(Edges(nodes))
    requires v in nodes && nodes[v].dist >= 0
    ensures ChainEnds(nodes, v, nodes[v].dist)
    decreases nodes[v].dist
  {
    if v != source {
      var u := nodes[v].prev.value;
      assert Tight(nodes, u, v);
      assert Edges(nodes)[u][v] == nodes[u].nears[v];
      TreeChainEnds(nodes, source, u);
      ChainEndsMore(nodes, u, nodes[u].dist, nodes[v].dist - 1);
    }
  }

  lemma {:induction false} ChainEndsMore(nodes: map<int, Vertex>, id: int, k: nat, k': nat)
    requires ChainEnds(nodes, id, k) && k <= k'
    ensures ChainEnds(nodes, id, k')
    decreases k
  {
    if nodes[id].prev.Some? {
      ChainEndsMore(nodes, nodes[id].prev.value, k - 1, k' - 1);
    }
  }

  /** The predecessor chain of a tree is a path from the source whose weight is the distance. */
  lemma {:induction false} TreeChainIsPath(nodes: map<int, Vertex>, source: int, v: int, k: nat)
    requires ShortestPathTree(nodes, source)
    requires ChainEnds(nodes, v, k) && nodes[v].dist >= 0
    ensures var p := PrevChain(nodes, v, k);
      IsPath(Edges(nodes), p) && p[0] == source && PathWeight(Edges(nodes), p) == nodes[v].dist
    decreases k
  {
    var e := Edges(nodes);
    if v == source {
      assert PrevChain(nodes, v, k) == [v];
    } else {
      var u := nodes[v].prev.value;
      assert Tight(nodes, u, v);
      TreeChainIsPath(nodes, source, u, k - 1);
      var q := PrevChain(nodes, u, k - 1);
      var p := q + [v];
      assert PrevChain(nodes, v, k) == p;
      assert p[..|p| - 1] == q;
      assert IsPath(e, p) by {
        forall i | 0 <= i < |p| - 1 ensures p[i + 1] in e[p[i]] {
          if i < |p| - 2 { assert p[i] == q[i] && p[i + 1] == q[i + 1]; }
        }
      }
    }
  }

  /**
   * Main property of a tree: for every reached vertex `v`, the path
   * `shortest_path` reconstructs starts at the source, ends at `v` and weighs
   * exactly `v`'s distance, and no path from the source to `v` weighs less.
   */
  lemma TreeIsShortest(nodes: map<int, Vertex>, source: int, v: int)
    requires ShortestPathTree(nodes, source) && PositiveWeights(Edges(nodes))
    requires v in nodes && nodes[v].dist >= 0
    ensures ChainEnds(nodes, v, nodes[v].dist)
    ensures var p := PrevChain(nodes, v, nodes[v].dist);
      && IsPath(Edges(nodes), p) && p[0] == source && p[|p| - 1] == v
      && PathWeight(Edges(nodes), p) == nodes[v].dist
      && ShortestPath(nodes, v, nodes[v].dist) == Names(nodes, p)
    ensures forall q | IsPath(Edges(nodes), q) && q[0] == source && q[|q| - 1] == v ::
      PathWeight(Edges(nodes), q) >= nodes[v].dist
  {
    TreeChainEnds(nodes, source, v);
    TreeChainIsPath(nodes, source, v, nodes[v].dist);
    ShortestPathNames(nodes, v, nodes[v].dist);
    forall q | IsPath(Edges(nodes), q) && q[0] == source && q[|q| - 1] == v
      ensures PathWeight(Edges(nodes), q) >= nodes[v].dist
    {
      TreeLowerBound(nodes, source, q);
    }
  }

  /** In a tree over positive weights, a vertex is reached exactly when a path leads to it from the source. */
  lemma TreeReachedIff(nodes: map<int, Vertex>, source: int, v: int)
    requires ShortestPathTree(nodes, source) && PositiveWeights(Edges(nodes))
    requires v in nodes
    ensures nodes[v].dist >= 0 <==> Reachable(Edges(nodes), source, v)
  {
    if nodes[v].dist >= 0 {
      TreeIsShortest(nodes, source, v);
      var p := PrevChain(nodes, v, nodes[v].dist);
      assert IsPath(Edges(nodes), p) && p[0] == source && p[|p| - 1] == v;
    }
    if Reachable(Edges(nodes), source, v) {
      var p :| IsPath(Edges(nodes), p) && p[0] == source && p[|p| - 1] == v;
      TreeLowerBound(nodes, source, p);
    }
  }

  // ---------------------------------------------------------------------
  // The invariant of the pass on a first run.
  // ---------------------------------------------------------------------

  /**
   * The loop invariant of `dijkstra` on a first run, where `un` holds the
   * vertices not yet selected: the source is at 0 with no predecessor; every
   * selected vertex is reached, at most as far as any reached unselected one,
   * and has had all its edges relaxed; every reached vertex other than the
   * source hangs off a selected vertex by a tight edge.
   */
  ghost predicate PassInvariant(nodes: map<int, Vertex>, source: int, un: set<int>) {
    && un <= nodes.Keys
    && Closed(nodes)
    && source in nodes
    && nodes[source].dist == 0
    && nodes[source].prev.None?
    && (forall x | x in nodes && x !in un :: nodes[x].dist >= 0)
    && (forall x, y | x in nodes && x !in un && y in un :: nodes[y].dist >= 0 ==> nodes[x].dist <= nodes[y].dist)
    && (forall x, y | x in nodes && x !in un && y in nodes[x].nears ::
          0 <= nodes[y].dist <= nodes[x].dist + nodes[x].nears[y])
    && (forall v | v in nodes && v != source && nodes[v].dist >= 0 ::
          nodes[v].prev.Some? && nodes[v].prev.value !in un && Tight(nodes, nodes[v].prev.value, v))
  }

  /** `u` is a reached vertex of `un` at least as near as every other reached one. */
  ghost predicate Nearest(nodes: map<int, Vertex>, un: set<int>, u: int)
    requires un <= nodes.Keys
  {
    u in un && nodes[u].dist >= 0 && forall y | y in un && nodes[y].dist >= 0 :: nodes[u].dist <= nodes[y].dist
  }

  /** A path that starts outside `un` and ends inside it crosses into `un` along some edge. */
  lemma {:induction false} Crossing(edges: map<int, map<int, int>>, p: seq<int>, un: set<int>) returns (i: nat)
    requires IsPath(edges, p) && p[0] !in un && p[|p| - 1] in un
    ensures i < |p| - 1 && p[i] !in un && p[i + 1] in un
    decreases |p|
  {
    if p[|p| - 2] !in un {
      i := |p| - 2;
    } else {
      var q := p[..|p| - 1];
      assert IsPath(edges, q);
      i := Crossing(edges, q, un);
    }
  }

  /** While a reachable vertex `w` is left unselected, some unselected vertex is reached. */
  lemma FrontierReached(nodes: map<int, Vertex>, source: int, un: set<int>, w: int) returns (y: int)
    requires PassInvariant(nodes, source, un)
    requires w in un && Reachable(Edges(nodes), source, w)
    ensures y in un && nodes[y].dist >= 0
  {
    if source in un {
      y := source;
    } else {
      var p :| IsPath(Edges(nodes), p) && p[0] == source && p[|p| - 1] == w;
      var i := Crossing(Edges(nodes), p, un);
      var x := p[i];
      y := p[i + 1];
      assert x in nodes && x !in un && y in nodes[x].nears;
      assert 0 <= nodes[y].dist <= nodes[x].dist + nodes[x].nears[y];
    }
  }

  /** Relaxing from `u` leaves the names and neighbour maps alone. */
  lemma RelaxedShape(nodes: map<int, Vertex>, u: int)
    requires u in nodes
    ensures SameShape(Relaxed(nodes, u), nodes)
    ensures Edges(Relaxed(nodes, u)) == Edges(nodes)
  {
  }

  /** Every edge out of `u` has positive weight. */
  ghost predicate PositiveFrom(nodes: map<int, Vertex>, u: int)
    requires u in nodes
  {
    forall k | k in nodes[u].nears :: nodes[u].nears[k] > 0
  }

  /** Relaxing from the nearest vertex changes no selected vertex, nor the nearest one itself. */
  lemma RelaxKeepsSelected(nodes: map<int, Vertex>, source: int, un: set<int>, u: int, x: int)
    requires PassInvariant(nodes, source, un) && Nearest(nodes, un, u) && PositiveFrom(nodes, u)
    requires x in nodes && (x !in un || x == u || x == source)
    ensures Relaxed(nodes, u)[x] == nodes[x]
  {
    if x in nodes[u].nears {
      assert nodes[u].nears[x] > 0;
      if x !in un {
        assert nodes[x].dist <= nodes[u].dist;
      }
    }
  }

  /** After relaxing from `u`, every edge out of a selected vertex (now including `u`) is relaxed. */
  lemma RelaxTriangle(nodes: map<int, Vertex>, source: int, un: set<int>, u: int, x: int, y: int)
    requires PassInvariant(nodes, source, un) && Nearest(nodes, un, u) && PositiveFrom(nodes, u)
    requires x in nodes && (x !in un || x == u) && y in nodes[x].nears
    ensures var r := Relaxed(nodes, u); y in r && 0 <= r[y].dist <= r[x].dist + r[x].nears[y]
  {
    RelaxKeepsSelected(nodes, source, un, u, x);
    if x != u {
      assert 0 <= nodes[y].dist <= nodes[x].dist + nodes[x].nears[y];
    }
  }

  /** After relaxing from `u`, no selected vertex is farther than a reached unselected one. */
  lemma RelaxOrder(nodes: map<int, Vertex>, source: int, un: set<int>, u: int, x: int, y: int)
    requires PassInvariant(nodes, source, un) && Nearest(nodes, un, u) && PositiveFrom(nodes, u)
    requires x in nodes && (x !in un || x == u) && y in un && y != u
    requires Relaxed(nodes, u)[y].dist >= 0
    ensures Relaxed(nodes, u)[x].dist <= Relaxed(nodes, u)[y].dist
  {
    RelaxKeepsSelected(nodes, source, un, u, x);
    if x != u {
      assert nodes[x].dist <= nodes[u].dist;
    }
  }

  /** After relaxing from `u`, every reached vertex but the source hangs off a selected one by a tight edge. */
  lemma RelaxTight(nodes: map<int, Vertex>, source: int, un: set<int>, u: int, v: int)
    requires PassInvariant(nodes, source, un) && Nearest(nodes, un, u) && PositiveFrom(nodes, u)
    requires v in nodes && v != source && Relaxed(nodes, u)[v].dist >= 0
    ensures var r := Relaxed(nodes, u);
      r[v].prev.Some? && r[v].prev.value !in un - {u} && Tight(r, r[v].prev.value, v)
  {
    var r := Relaxed(nodes, u);
    RelaxKeepsSelected(nodes, source, un, u, u);
    if r[v] == nodes[v] {
      var w := nodes[v].prev.value;
      assert w in nodes && w !in un;
      RelaxKeepsSelected(nodes, source, un, u, w);
    }
  }

  /** Selecting the nearest vertex and relaxing its edges preserves the invariant. */
  lemma RelaxStep(nodes: map<int, Vertex>, source: int, un: set<int>, u: int)
    requires PassInvariant(nodes, source, un)
    requires PositiveWeights(Edges(nodes))
    requires Nearest(nodes, un, u)
    ensures PassInvariant(Relaxed(nodes, u), source, un - {u})
  {
    assert Edges(nodes)[u] == nodes[u].nears;
    assert PositiveFrom(nodes, u);
    RelaxedShape(nodes, u);
    RelaxKeepsSelected(nodes, source, un, u, source);
    RelaxStepSelected(nodes, source, un, u);
    RelaxStepOrder(nodes, source, un, u);
    RelaxStepTriangle(nodes, source, un, u);
    RelaxStepTight(nodes, source, un, u);
  }

  lemma RelaxStepSelected(nodes: map<int, Vertex>, source: int, un: set<int>, u: int)
    requires PassInvariant(nodes, source, un) && Nearest(nodes, un, u) && PositiveFrom(nodes, u)
    ensures var r := Relaxed(nodes, u);
      forall x | x in r && x !in un - {u} :: r[x].dist >= 0
  {
    var r := Relaxed(nodes, u);
    forall x | x in r && x !in un - {u}
      ensures r[x].dist >= 0
    {
      RelaxKeepsSelected(nodes, source, un, u, x);
    }
  }

  lemma RelaxStepOrder(nodes: map<int, Vertex>, source: int, un: set<int>, u: int)
    requires PassInvariant(nodes, source, un) && Nearest(nodes, un, u) && PositiveFrom(nodes, u)
    ensures var r := Relaxed(nodes, u);
      forall x, y | x in r && x !in un - {u} && y in un - {u} :: r[y].dist >= 0 ==> r[x].dist <= r[y].dist
  {
    var r := Relaxed(nodes, u);
    forall x, y | x in r && x !in un - {u} && y in un - {u} && r[y].dist >= 0
      ensures r[x].dist <= r[y].dist
    {
      RelaxOrder(nodes, source, un, u, x, y);
    }
  }

  lemma RelaxStepTriangle(nodes: map<int, Vertex>, source: int, un: set<int>, u: int)
    requires PassInvariant(nodes, source, un) && Nearest(nodes, un, u) && PositiveFrom(nodes, u)
    ensures var r := Relaxed(nodes, u);
      forall x, y | x in r && x !in un - {u} && y in r[x].nears :: 0 <= r[y].dist <= r[x].dist + r[x].nears[y]
  {
    var r := Relaxed(nodes, u);
    forall x, y | x in r && x !in un - {u} && y in r[x].nears
      ensures 0 <= r[y].dist <= r[x].dist + r[x].nears[y]
    {
      RelaxTriangle(nodes, source, un, u, x, y);
    }
  }

  lemma RelaxStepTight(nodes: map<int, Vertex>, source: int, un: set<int>, u: int)
    requires PassInvariant(nodes, source, un) && Nearest(nodes, un, u) && PositiveFrom(nodes, u)
    ensures var r := Relaxed(nodes, u);
      forall v | v in r && v != source && r[v].dist >= 0 ::
        r[v].prev.Some? && r[v].prev.value !in un - {u} && Tight(r, r[v].prev.value, v)
  {
    var r := Relaxed(nodes, u);
    forall v | v in r && v != source && r[v].dist >= 0
      ensures r[v].prev.Some? && r[v].prev.value !in un - {u} && Tight(r, r[v].prev.value, v)
    {
      RelaxTight(nodes, source, un, u, v);
    }
  }

  /**
   * When no vertex left unselected is reached the invariant is a
   * shortest-path tree, and when none is left at all every vertex is reached.
   */
  lemma PassComplete(nodes: map<int, Vertex>, source: int, un: set<int>)
    requires PassInvariant(nodes, source, un)
    requires forall y | y in un :: nodes[y].dist < 0
    ensures ShortestPathTree(nodes, source)
    ensures un == {} ==> AllReached(nodes)
  {
  }

  /** Arenas of the same shape have the same adjacency. */
  lemma SameShapeEdges(nodes: map<int, Vertex>, nodes0: map<int, Vertex>)
    requires SameShape(nodes, nodes0)
    ensures Edges(nodes) == Edges(nodes0)
  {
    assert Edges(nodes).Keys == Edges(nodes0).Keys;
    forall id | id in Edges(nodes) ensures Edges(nodes)[id] == Edges(nodes0)[id] {
    }
  }

  /** Every vertex back to unvisited: no distance and no predecessor. */
  function Cleared(nodes: map<int, Vertex>): (r: map<int, Vertex>)
    ensures SameShape(r, nodes)
    ensures forall v | v in r :: r[v].dist == -1 && r[v].prev.None?
  {
    map id | id in nodes :: nodes[id].(dist := -1, prev := None)
  }

  // ---------------------------------------------------------------------
  // The weighted graph (WeightedGraph), owner of the vertex arena.
  // ---------------------------------------------------------------------

  /**
   * A weighted graph: the arena of vertex records, the set of vertex ids the
   * graph is made of, and the source vertex the shortest-path pass starts at.
   */
  class WeightedGraph {
    const source: int
    var vertices: set<int>
    var nodes: map<int, Vertex>

    /** The source is one of the vertices, and every id in use names a vertex of the arena. */
    ghost predicate Valid()
      reads this
    {
      source in vertices && vertices <= nodes.Keys && Closed(nodes)
    }

    /** `WeightedGraph(source, vertices)`, which asserts that the source is a vertex. */
    constructor(source: int, nodes: map<int, Vertex>, vertices: set<int>)
      requires source in vertices
      requires vertices <= nodes.Keys && Closed(nodes)
      ensures Valid()
      ensures this.source == source && this.nodes == nodes && this.vertices == vertices
    {
      this.source := source;
      this.nodes := nodes;
      this.vertices := vertices;
    }

    /** `add(v)`: set insertion, so adding a vertex twice is the same as adding it once. */
    method AddVertex(v: int)
      requires Valid() && v in nodes
      modifies this`vertices
      ensures Valid()
      ensures vertices == old(vertices) + {v}
      ensures source in vertices
    {
      vertices := vertices + {v};
    }

    /** A new `Node(name, port)` object: a fresh vertex record under id `id`. */
    method Allocate(id: int, name: string)
      requires Valid() && id !in nodes
      modifies this`nodes
      ensures Valid()
      ensures nodes == old(nodes)[id := NewVertex(name)]
    {
      nodes := nodes[id := NewVertex(name)];
    }

    /**
     * `Vertex.add(near, weight)` on vertex `id`: records `weight` for `near`,
     * replacing any earlier weight; every other entry and every other vertex
     * is left as it was.
     */
    method AddNear(id: int, near: int, weight: int)
      requires Valid() && id in nodes && near in nodes
      modifies this`nodes
      ensures Valid()
      ensures nodes == old(nodes)[id := old(nodes)[id].(nears := old(nodes)[id].nears[near := weight])]
    {
      nodes := nodes[id := nodes[id].(nears := nodes[id].nears[near := weight])];
    }

    /**
     * `_min(un)`: `None` on the empty set; otherwise a member of `un`, and
     * whenever some member is reached, a reached member with the least
     * distance among the reached ones.
     */
    method Min(un: set<int>) returns (r: Option<int>)
      requires un <= nodes.Keys
      ensures r.None? <==> un == {}
      ensures r.Some? ==> r.value in un
      ensures r.Some? && (exists y :: y in un && nodes[y].dist >= 0) ==> Nearest(nodes, un, r.value)
    {
      if un == {} {
        return None;
      }
      ghost var _ := NonEmptyHasMember(un);
      var current :| current in un;
      var dist := -1;
      var rest := un;
      while rest != {}
        invariant rest <= un && current in un
        invariant dist < 0 ==> dist == -1 && forall y | y in un - rest :: nodes[y].dist < 0
        invariant dist >= 0 ==> dist == nodes[current].dist
        invariant dist >= 0 ==> forall y | y in un - rest && nodes[y].dist >= 0 :: dist <= nodes[y].dist
        decreases rest
      {
        ghost var _ := NonEmptyHasMember(rest);
        var v :| v in rest;
        if nodes[v].dist >= 0 {
          if dist < 0 || nodes[v].dist < dist {
            current := v;
            dist := nodes[v].dist;
          }
        }
        rest := rest - {v};
      }
      return Some(current);
    }

    /**
     * The relaxation loop of `dijkstra` for the selected vertex `u`: only
     * neighbours of `u` change, each only in distance and predecessor, and a
     * changed vertex has `u` as predecessor. When relaxing cannot change `u`
     * itself, the result is `Relaxed`.
     */
    method Relax(u: int)
      requires Valid() && u in nodes
      modifies this`nodes
      ensures Valid() && SameShape(nodes, old(nodes))
      ensures forall id | id in nodes && id !in old(nodes)[u].nears :: nodes[id] == old(nodes)[id]
      ensures forall id | id in nodes && nodes[id] != old(nodes)[id] :: nodes[id].prev == Some(u)
      ensures SelfStable(old(nodes), u) ==> nodes == Relaxed(old(nodes), u)
    {
      ghost var n0 := nodes;
      ghost var stable := SelfStable(nodes, u);
      var todo := nodes[u].nears.Keys;
      while todo != {}
        invariant todo <= n0[u].nears.Keys
        invariant Valid() && SameShape(nodes, n0)
        invariant forall id | id in nodes && (id !in n0[u].nears || id in todo) :: nodes[id] == n0[id]
        invariant forall id | id in nodes && nodes[id] != n0[id] :: nodes[id].prev == Some(u)
        invariant stable ==> nodes[u] == n0[u]
        invariant stable ==> forall id | id in nodes && id in n0[u].nears && id !in todo ::
                                nodes[id] == RelaxVertex(n0, u, id)
        decreases todo
      {
        ghost var _ := NonEmptyHasMember(todo);
        var y :| y in todo;
        var weight := nodes[u].nears[y];
        var alt := nodes[u].dist + weight;
        if alt < nodes[y].dist || nodes[y].dist < 0 {
          nodes := nodes[y := nodes[y].(dist := alt, prev := Some(u))];
        }
        todo := todo - {y};
      }
      if stable {
        forall id | id in nodes
          ensures nodes[id] == RelaxVertex(n0, u, id)
        {
          if id !in n0[u].nears {
            assert RelaxVertex(n0, u, id) == n0[id];
          }
        }
        RelaxedFrom(n0, u, nodes);
      }
    }

    /**
     * `dijkstra()`: sets the source's distance to 0, then selects every vertex
     * once, nearest first, relaxing its edges. Only distances and predecessors
     * change. On a first run (fresh vertices, positive weights, every vertex
     * reachable) it leaves a shortest-path tree rooted at the source.
     */
    method Dijkstra()
      requires Valid()
      modifies this`nodes
      ensures Valid() && SameShape(nodes, old(nodes))
      ensures FirstRun(old(nodes), vertices, source) ==> ShortestPathTree(nodes, source) && AllReached(nodes)
    {
      ghost var n0 := nodes;
      ghost var first := FirstRun(nodes, vertices, source);
      var un := vertices;
      nodes := nodes[source := nodes[source].(dist := 0)];
      while un != {}
        invariant Valid() && SameShape(nodes, n0) && un <= vertices
        invariant first ==> PassInvariant(nodes, source, un)
        invariant first ==> Edges(nodes) == Edges(n0) && FirstRun(n0, vertices, source)
        decreases un
      {
        var m := Min(un);
        var next := m.value;
        ghost var before := nodes;
        if first {
          ghost var _ := NonEmptyHasMember(un);
          var w :| w in un;
          var y := FrontierReached(nodes, source, un, w);
          assert Nearest(nodes, un, next);
          assert Edges(nodes)[next] == nodes[next].nears;
          RelaxStep(nodes, source, un, next);
        }
        un := un - {next};
        Relax(next);
        if first {
          assert nodes == Relaxed(before, next);
          SameShapeEdges(nodes, n0);
        }
      }
      if first {
        PassComplete(nodes, source, {});
      }
    }

    /**
     * The pass as evidently intended (see the findings): every vertex is
     * first cleared to unvisited, and the pass stops as soon as the nearest
     * unselected vertex is unreached instead of relaxing from it. Over
     * positive weights it leaves a shortest-path tree whose reached vertices
     * are exactly those a path leads to from the source, whatever distances
     * and predecessors the arena held before.
     */
    method ShortestPaths()
      requires Valid() && vertices == nodes.Keys
      modifies this`nodes
      ensures Valid() && SameShape(nodes, old(nodes))
      ensures PositiveWeights(Edges(old(nodes))) ==> ShortestPathTree(nodes, source)
      ensures PositiveWeights(Edges(old(nodes))) ==>
        forall v | v in nodes :: nodes[v].dist >= 0 <==> Reachable(Edges(nodes), source, v)
    {
      ghost var n0 := nodes;
      ghost var pos := PositiveWeights(Edges(nodes));
      nodes := Cleared(nodes);
      var un := vertices;
      nodes := nodes[source := nodes[source].(dist := 0)];
      SameShapeEdges(nodes, n0);
      while un != {}
        invariant Valid() && SameShape(nodes, n0) && un <= vertices
        invariant Edges(nodes) == Edges(n0)
        invariant pos ==> PassInvariant(nodes, source, un)
        decreases un
      {
        var m := Min(un);
        var next := m.value;
        if nodes[next].dist < 0 {
          break;
        }
        ghost var before := nodes;
        if pos {
          assert Nearest(nodes, un, next);
          assert Edges(nodes)[next] == nodes[next].nears;
          RelaxStep(nodes, source, un, next);
        }
        un := un - {next};
        Relax(next);
        if pos {
          assert nodes == Relaxed(before, next);
        }
        SameShapeEdges(nodes, n0);
      }
      if pos {
        PassComplete(nodes, source, un);
        forall v | v in nodes
          ensures nodes[v].dist >= 0 <==> Reachable(Edges(nodes), source, v)
        {
          TreeReachedIff(nodes, source, v);
        }
      }
    }
  }

  // ---------------------------------------------------------------------
  // Two runs of `dijkstra` as written that go wrong.
  // ---------------------------------------------------------------------

  /** A source whose neighbour map is empty reaches nothing but itself. */
  lemma IsolatedSource(edges: map<int, map<int, int>>, s: int, v: int)
    requires s in edges && edges[s] == map[] && v != s
    ensures !Reachable(edges, s, v)
  {
    forall p | IsPath(edges, p) && p[0] == s
      ensures |p| == 1
    {
      PathFirstStep(edges, p);
    }
  }

  lemma PathFirstStep(edges: map<int, map<int, int>>, p: seq<int>)
    requires IsPath(edges, p)
    ensures |p| == 1 || p[1] in edges[p[0]]
  {
  }

  /** Two vertices that are each other's predecessor have no end to their chains. */
  lemma {:induction false} CycleNeverEnds(nodes: map<int, Vertex>, a: int, b: int, k: nat)
    requires a in nodes && b in nodes && nodes[a].prev == Some(b) && nodes[b].prev == Some(a)
    ensures !ChainEnds(nodes, a, k) && !ChainEnds(nodes, b, k)
    decreases k
  {
    if k > 0 {
      CycleNeverEnds(nodes, a, b, k - 1);
    }
  }

  /** A on its own, and C and D joined by an edge of weight 1 but not to A. */
  function SplitArena(): map<int, Vertex> {
    map[0 := Vertex("A", map[], -1, None),
        2 := Vertex("C", map[3 := 1], -1, None),
        3 := Vertex("D", map[2 := 1], -1, None)]
  }

  /**
   * A first run over the split arena may select A, then C (neither C nor D
   * is reached, so `_min` may return either), then D. Relaxing from the
   * unreached C gives D the distance -1 + 1 = 0, and D then gives C the
   * distance 1: although no path leads from A to either, both end up with
   * distances and as each other's predecessor, so `shortest_path` on either
   * never returns.
   */
  lemma UnreachableCycle()
    ensures var n0 := SplitArena()[0 := SplitArena()[0].(dist := 0)];
      var n1 := Relaxed(n0, 0);
      var n2 := Relaxed(n1, 2);
      var n3 := Relaxed(n2, 3);
      && PositiveWeights(Edges(SplitArena()))
      && !Reachable(Edges(SplitArena()), 0, 2) && !Reachable(Edges(SplitArena()), 0, 3)
      && Nearest(n0, {0, 2, 3}, 0) && n1[2].dist < 0 && n1[3].dist < 0
      && n3[2].dist == 1 && n3[3].dist == 0
      && n3[2].prev == Some(3) && n3[3].prev == Some(2)
      && forall k: nat :: !ChainEnds(n3, 3, k)
  {
    var a := SplitArena();
    var e := Edges(a);
    assert e[0] == map[];
    IsolatedSource(e, 0, 2);
    IsolatedSource(e, 0, 3);
    var n0 := a[0 := a[0].(dist := 0)];
    var n3 := Relaxed(Relaxed(Relaxed(n0, 0), 2), 3);
    forall k: nat
      ensures !ChainEnds(n3, 3, k)
    {
      CycleNeverEnds(n3, 2, 3, k);
    }
  }

  /**
   * A and B after a first run at weight 1 (B at distance 1 behind A), once
   * an advertisement has set the weight of their edge to 5.
   */
  function ReweightedArena(): map<int, Vertex> {
    map[0 := Vertex("A", map[1 := 5], 0, None),
        1 := Vertex("B", map[0 := 5], 1, Some(0))]
  }

  /**
   * Running the pass again on the reweighted arena selects A, then B, and
   * changes nothing: B keeps the stale distance 1 although the only edge to
   * it now weighs 5, so the result is not a shortest-path tree.
   */
  lemma StaleDistance()
    ensures var n0 := ReweightedArena()[0 := ReweightedArena()[0].(dist := 0)];
      var n1 := Relaxed(n0, 0);
      var n2 := Relaxed(n1, 1);
      && PositiveWeights(Edges(ReweightedArena()))
      && Nearest(n0, {0, 1}, 0) && Nearest(n1, {1}, 1)
      && n2[1].dist == 1 && n2[1].prev == Some(0)
      && !ShortestPathTree(n2, 0)
  {
    var n0 := ReweightedArena()[0 := ReweightedArena()[0].(dist := 0)];
    var n2 := Relaxed(Relaxed(n0, 0), 1);
    assert n2[1].dist != n2[0].dist + n2[0].nears[1];
  }

  /** The arena of the module's own test graph once all six `add` calls are made. */
  function ExampleArena(): map<int, Vertex> {
    map[0 := Vertex("A", map[1 := 7, 2 := 1], -1, None),
        1 := Vertex("B", map[0 := 7, 2 := 3], -1, None),
        2 := Vertex("C", map[0 := 1, 1 := 3], -1, None)]
  }

  /** The test graph meets the first-run conditions from A. */
  lemma ExampleIsFirstRun()
    ensures FirstRun(ExampleArena(), {0, 1, 2}, 0)
  {
    var n := ExampleArena();
    var e := Edges(n);
    assert e == map[0 := map[1 := 7, 2 := 1], 1 := map[0 := 7, 2 := 3], 2 := map[0 := 1, 1 := 3]];
    assert IsPath(e, [0]) && IsPath(e, [0, 1]) && IsPath(e, [0, 2]);
  }

  /**
   * Any shortest-path tree from A over the test graph keeps A at 0 as the
   * root and puts C at 1 behind A and B at 4 behind C, so the reconstructed
   * paths are "A", "AC" and "ACB".
   */
  lemma ExampleTree(n: map<int, Vertex>)
    requires SameShape(n, ExampleArena()) && ShortestPathTree(n, 0)
    ensures n[0].dist == 0 && n[1].dist == 4 && n[2].dist == 1
    ensures n[0].name == "A" && n[0].prev.None?
    ensures ChainEnds(n, 1, 4) && ShortestPath(n, 1, 4) == "ACB"
    ensures ChainEnds(n, 2, 1) && ShortestPath(n, 2, 1) == "AC"
  {
    assert n[0].dist == 0 && n[0].prev.None? by {
      assert ShortestPathTree(n, 0);
    }
    assert n[2].prev == Some(0) && n[2].dist == 1 && n[1].prev == Some(2) && n[1].dist == 4 by {
      ExampleTreeShape(n);
    }
    assert n[0].name == "A" && n[1].name == "B" && n[2].name == "C" by {
      assert SameShape(n, ExampleArena());
    }
    ExamplePaths(n);
  }

  lemma ExampleTreeShape(n: map<int, Vertex>)
    requires SameShape(n, ExampleArena()) && ShortestPathTree(n, 0)
    ensures n[2].prev == Some(0) && n[2].dist == 1
    ensures n[1].prev == Some(2) && n[1].dist == 4
  {
    assert n[0].nears == map[1 := 7, 2 := 1];
    assert n[1].nears == map[0 := 7, 2 := 3];
    assert n[2].nears == map[0 := 1, 1 := 3];
    // C hangs off A: hanging off B would put B below distance 0.
    assert n[2].prev == Some(0) && n[2].dist == 1 by {
      assert n[2].dist <= n[0].dist + n[0].nears[2];
      assert Tight(n, n[2].prev.value, 2);
    }
    // B hangs off C: hanging off A would cost 7, more than the 4 through C.
    assert n[1].dist <= n[2].dist + n[2].nears[1];
    assert Tight(n, n[1].prev.value, 1);
  }

  lemma ExamplePaths(n: map<int, Vertex>)
    requires 0 in n && 1 in n && 2 in n
    requires n[0].name == "A" && n[1].name == "B" && n[2].name == "C"
    requires n[0].prev.None? && n[2].prev == Some(0) && n[1].prev == Some(2)
    ensures ChainEnds(n, 0, 0) && ShortestPath(n, 0, 0) == "A"
    ensures ChainEnds(n, 1, 4) && ShortestPath(n, 1, 4) == "ACB"
    ensures ChainEnds(n, 2, 1) && ShortestPath(n, 2, 1) == "AC"
  {
    assert ChainEnds(n, 0, 0) && ChainEnds(n, 0, 2);
    assert ChainEnds(n, 2, 1) && ChainEnds(n, 2, 3);
    assert ChainEnds(n, 1, 4);
    assert ShortestPath(n, 0, 0) == "A" && ShortestPath(n, 0, 2) == "A";
    assert ShortestPath(n, 2, 1) == ShortestPath(n, 0, 0) + "C";
    assert ShortestPath(n, 2, 3) == ShortestPath(n, 0, 2) + "C";
    assert ShortestPath(n, 1, 4) == ShortestPath(n, 2, 3) + "B";
  }

  /** The test graph of the module's own main block: three vertices and their six `add` calls. */
  method BuildExample() returns (g: WeightedGraph)
    ensures fresh(g) && g.Valid()
    ensures g.source == 0 && g.vertices == {0, 1, 2} && g.nodes == ExampleArena()
  {
    var arena := ExampleArena();
    g := new WeightedGraph(0, map[0 := NewVertex("A"), 1 := NewVertex("B"), 2 := NewVertex("C")], {0, 1, 2});
    g.AddNear(0, 1, 7);
    g.AddNear(0, 2, 1);
    assert g.nodes[0] == arena[0];
    g.AddNear(1, 0, 7);
    g.AddNear(1, 2, 3);
    assert g.nodes[1] == arena[1];
    g.AddNear(2, 0, 1);
    g.AddNear(2, 1, 3);
    assert g.nodes[2] == arena[2];
    assert g.nodes.Keys == arena.Keys;
  }

  /**
   * The module's own main block: build the test graph, run a pass from A
   * and read every vertex's distance and path.
   */
  method Example() returns (distA: int, pathA: string, distB: int, pathB: string, distC: int, pathC: string)
    ensures distA == 0 && pathA == "A"
    ensures distB == 4 && pathB == "ACB"
    ensures distC == 1 && pathC == "AC"
  {
    var g := BuildExample();
    ExampleIsFirstRun();
    g.Dijkstra();
    var n := g.nodes;
    ExampleTree(n);
    distA := n[0].dist;
    distB := n[1].dist;
    distC := n[2].dist;
    pathA := ShortestPath(n, 0, 0);
    pathB := ShortestPath(n, 1, 4);
    pathC := ShortestPath(n, 2, 1);
  }
}
