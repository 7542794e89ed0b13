/**
 * Randomised depth-first maze carving and braiding (zombie-game
 * MazeGenerator) over the arena grid of MapGraph.
 */
module MazeGenerator {
  import opened Wrappers
  import opened Rng
  import opened MathUtil
  import opened MapNode
  import opened MapGraph
  import opened SeqUtil

  // ---------------------------------------------------------------------
  // Neighbour cells

  /** The direction offsets of `getNeighbours`: west, east, north, south. */
  const Directions: seq<(int, int)> := [(-1, 0), (1, 0), (0, -1), (0, 1)]

  predicate InBounds(i: int, j: int, cols: int, rows: int) {
    0 <= i < cols && 0 <= j < rows
  }

  /** The in-bounds cells (i + di, j + dj) for the offsets `dirs`, in order. */
  function StepCells(dirs: seq<(int, int)>, i: int, j: int, cols: int, rows: int): (cells: seq<(int, int)>)
    ensures |cells| <= |dirs|
    ensures forall c :: c in cells ==> InBounds(c.0, c.1, cols, rows)
  {
    if dirs == [] then []
    else
      var d := dirs[|dirs| - 1];
      assert dirs == dirs[..|dirs| - 1] + [d];
      StepCells(dirs[..|dirs| - 1], i, j, cols, rows) +
      (if InBounds(i + d.0, j + d.1, cols, rows) then [(i + d.0, j + d.1)] else [])
  }

  /** The cells `getNeighbours` visits around (i, j). */
  function NeighbourCells(i: int, j: int, cols: int, rows: int): seq<(int, int)> {
    StepCells(Directions, i, j, cols, rows)
  }

  /** The neighbour cells are west, east, north and south, in that order, when they exist. */
  lemma NeighbourCellsInOrder(i: int, j: int, cols: int, rows: int)
    ensures NeighbourCells(i, j, cols, rows) ==
      (if InBounds(i - 1, j, cols, rows) then [(i - 1, j)] else []) +
      (if InBounds(i + 1, j, cols, rows) then [(i + 1, j)] else []) +
      (if InBounds(i, j - 1, cols, rows) then [(i, j - 1)] else []) +
      (if InBounds(i, j + 1, cols, rows) then [(i, j + 1)] else [])
  {
    var d := Directions;
    assert d[..4] == d && d[..4][..3] == d[..3] && d[..3][..2] == d[..2] && d[..2][..1] == d[..1];
    assert d[..1][..0] == [];
    assert StepCells(d[..1], i, j, cols, rows) == (if InBounds(i - 1, j, cols, rows) then [(i - 1, j)] else []);
    assert StepCells(d[..2], i, j, cols, rows) == StepCells(d[..1], i, j, cols, rows) +
      (if InBounds(i + 1, j, cols, rows) then [(i + 1, j)] else []);
    assert StepCells(d[..3], i, j, cols, rows) == StepCells(d[..2], i, j, cols, rows) +
      (if InBounds(i, j - 1, cols, rows) then [(i, j - 1)] else []);
  }

  /** The neighbour cells are exactly the in-bounds cells at Manhattan distance 1, at most four. */
  lemma NeighbourCellsAdjacent(i: int, j: int, cols: int, rows: int, a: int, b: int)
    ensures (a, b) in NeighbourCells(i, j, cols, rows) <==>
              InBounds(a, b, cols, rows) && Abs(a - i) + Abs(b - j) == 1
    ensures |NeighbourCells(i, j, cols, rows)| <= 4
  {
    NeighbourCellsInOrder(i, j, cols, rows);
  }

  // ---------------------------------------------------------------------
  // Growth of edge lists

  /** The number of directed edges in the arena. */
  function TotalEdges(ns: seq<MapNode>): nat {
    if ns == [] then 0 else TotalEdges(ns[..|ns| - 1]) + |ns[|ns| - 1].edges|
  }

  /** Replacing one node changes the total by the change of its edge count. */
  lemma {:induction false} TotalEdgesUpdate(ns: seq<MapNode>, k: int, x: MapNode)
    requires 0 <= k < |ns|
    ensures TotalEdges(ns[k := x]) == TotalEdges(ns) - |ns[k].edges| + |x.edges|
    decreases |ns|
  {
    var ms := ns[k := x];
    if k < |ns| - 1 {
      assert ms[..|ms| - 1] == ns[..|ns| - 1][k := x];
      TotalEdgesUpdate(ns[..|ns| - 1], k, x);
    } else {
      assert ms[..|ms| - 1] == ns[..|ns| - 1];
    }
  }

  /** `ms` is `ns` with edges appended to some nodes and nothing else changed. */
  ghost predicate EdgesGrow(ns: seq<MapNode>, ms: seq<MapNode>) {
    |ns| == |ms| &&
    forall k :: 0 <= k < |ns| ==> ms[k] == ns[k].(edges := ms[k].edges) && ns[k].edges <= ms[k].edges
  }

  lemma EdgesGrowTrans(a: seq<MapNode>, b: seq<MapNode>, c: seq<MapNode>)
    requires EdgesGrow(a, b) && EdgesGrow(b, c)
    ensures EdgesGrow(a, c)
  {
    forall k | 0 <= k < |a|
      ensures c[k] == a[k].(edges := c[k].edges) && a[k].edges <= c[k].edges
    {
      assert a[k].edges == b[k].edges[..|a[k].edges|];
      assert b[k].edges == c[k].edges[..|b[k].edges|];
    }
  }

  /** Growing edge lists never lowers the total, and keeps it only when nothing changed. */
  lemma {:induction false} EdgesGrowTotal(ns: seq<MapNode>, ms: seq<MapNode>)
    requires EdgesGrow(ns, ms)
    ensures TotalEdges(ns) <= TotalEdges(ms)
    ensures TotalEdges(ns) == TotalEdges(ms) ==> ns == ms
    decreases |ns|
  {
    if ns != [] {
      var n := |ns| - 1;
      assert EdgesGrow(ns[..n], ms[..n]);
      EdgesGrowTotal(ns[..n], ms[..n]);
      if |ns[n].edges| == |ms[n].edges| {
        assert ns[n].edges == ms[n].edges;
      }
      if TotalEdges(ns) == TotalEdges(ms) {
        assert ns[..n] == ms[..n] && ns[n] == ms[n];
        assert ns == ns[..n] + [ns[n]] && ms == ms[..n] + [ms[n]];
      }
    }
  }

  /** The edges appended to node u between `ns` and `ms`. */
  function Added(ns: seq<MapNode>, ms: seq<MapNode>, u: int): seq<Edge>
    requires |ns| == |ms| && 0 <= u < |ns| && |ns[u].edges| <= |ms[u].edges|
  {
    ms[u].edges[|ns[u].edges|..]
  }

  lemma AddedTrans(a: seq<MapNode>, b: seq<MapNode>, c: seq<MapNode>, u: int)
    requires EdgesGrow(a, b) && EdgesGrow(b, c) && 0 <= u < |a|
    ensures EdgesGrow(a, c)
    ensures Added(a, c, u) == Added(a, b, u) + Added(b, c, u)
  {
    EdgesGrowTrans(a, b, c);
    assert b[u].edges == c[u].edges[..|b[u].edges|];
  }

  // ---------------------------------------------------------------------
  // Paths along edges

  /** p is a non-empty walk along edges of the arena. */
  ghost predicate IsPath(ns: seq<MapNode>, p: seq<int>) {
    |p| >= 1 &&
    (forall k :: 0 <= k < |p| ==> 0 <= p[k] < |ns|) &&
    (forall k :: 0 <= k < |p| - 1 ==> ns[p[k]].HasEdge(p[k + 1]))
  }

  ghost predicate Reachable(ns: seq<MapNode>, a: int, b: int) {
    exists p :: IsPath(ns, p) && p[0] == a && p[|p| - 1] == b
  }

  /** Walks survive the appending of edges. */
  lemma ReachableGrow(ns: seq<MapNode>, ms: seq<MapNode>, a: int, b: int)
    requires EdgesGrow(ns, ms) && Reachable(ns, a, b)
    ensures Reachable(ms, a, b)
  {
    var p :| IsPath(ns, p) && p[0] == a && p[|p| - 1] == b;
    forall k | 0 <= k < |p| - 1
      ensures ms[p[k]].HasEdge(p[k + 1])
    {
      var e := ns[p[k]].GetEdge(p[k + 1]).value;
      assert e in ms[p[k]].edges && e.target == p[k + 1];
    }
    assert IsPath(ms, p);
  }

  /** An edge a → b in front of a walk from b gives a walk from a. */
  lemma ReachableStep(ns: seq<MapNode>, a: int, b: int, c: int)
    requires 0 <= a < |ns| && ns[a].HasEdge(b) && Reachable(ns, b, c)
    ensures Reachable(ns, a, c)
  {
    var p :| IsPath(ns, p) && p[0] == b && p[|p| - 1] == c;
    var q := [a] + p;
    assert forall k :: 1 <= k < |q| ==> q[k] == p[k - 1];
    assert IsPath(ns, q);
  }

  lemma ReachableSelf(ns: seq<MapNode>, a: int)
    requires 0 <= a < |ns|
    ensures Reachable(ns, a, a)
  {
    assert IsPath(ns, [a]);
  }

  // ---------------------------------------------------------------------
  // What the carving keeps true

  /**
   * Between `ns` and `ms` edges were only appended, and every appended edge
   * has cost 1, joins orthogonally adjacent nodes, and was appended together
   * with its reverse.
   */
  ghost predicate MazeEdges(ns: seq<MapNode>, ms: seq<MapNode>) {
    EdgesGrow(ns, ms) &&
    forall u, e :: 0 <= u < |ns| && e in Added(ns, ms, u) ==>
      e.cost == 1 && 0 <= e.target < |ns| && Adjacent(ns[u], ns[e.target]) &&
      Edge(u, 1) in Added(ns, ms, e.target)
  }

  lemma MazeEdgesRefl(ns: seq<MapNode>)
    ensures MazeEdges(ns, ns)
  {
    forall u | 0 <= u < |ns|
      ensures Added(ns, ns, u) == []
    {
    }
  }

  lemma MazeEdgesTrans(a: seq<MapNode>, b: seq<MapNode>, c: seq<MapNode>)
    requires MazeEdges(a, b) && MazeEdges(b, c)
    ensures MazeEdges(a, c)
  {
    EdgesGrowTrans(a, b, c);
    forall u, e | 0 <= u < |a| && e in Added(a, c, u)
      ensures e.cost == 1 && 0 <= e.target < |a| && Adjacent(a[u], a[e.target]) &&
              Edge(u, 1) in Added(a, c, e.target)
    {
      AddedTrans(a, b, c, u);
      if e in Added(a, b, u) {
        AddedTrans(a, b, c, e.target);
      } else {
        assert e in Added(b, c, u);
        AddedTrans(a, b, c, e.target);
      }
    }
  }

  /** `node.addEdge(n, 1); n.addEdge(node, 1)` for adjacent u and v. */
  lemma MazeEdgesAddPair(ns: seq<MapNode>, u: int, v: int, ms: seq<MapNode>)
    requires 0 <= u < |ns| && 0 <= v < |ns| && Adjacent(ns[u], ns[v])
    requires ms == ns[u := ns[u].AddEdge(v, 1)][v := ns[v].AddEdge(u, 1)]
    ensures MazeEdges(ns, ms)
    ensures TotalEdges(ms) == TotalEdges(ns) + 2
    ensures ms[u].HasEdge(v)
  {
    assert u != v;
    var m1 := ns[u := ns[u].AddEdge(v, 1)];
    assert ms == m1[v := m1[v].AddEdge(u, 1)];
    TotalEdgesUpdate(ns, u, ns[u].AddEdge(v, 1));
    TotalEdgesUpdate(m1, v, m1[v].AddEdge(u, 1));
    assert ms[u].edges == ns[u].edges + [Edge(v, 1)];
    assert ms[v].edges == ns[v].edges + [Edge(u, 1)];
    assert EdgesGrow(ns, ms) by {
      forall k | 0 <= k < |ns|
        ensures ms[k] == ns[k].(edges := ms[k].edges) && ns[k].edges <= ms[k].edges
      {
        if k != u && k != v {
          assert ms[k] == ns[k];
        }
      }
    }
    assert Added(ns, ms, u) == [Edge(v, 1)];
    assert Added(ns, ms, v) == [Edge(u, 1)];
    forall w | 0 <= w < |ns| && w != u && w != v
      ensures Added(ns, ms, w) == []
    {
      assert ms[w] == ns[w];
    }
    forall w, e | 0 <= w < |ns| && e in Added(ns, ms, w)
      ensures e.cost == 1 && 0 <= e.target < |ns| && Adjacent(ns[w], ns[e.target]) &&
              Edge(w, 1) in Added(ns, ms, e.target)
    {
    }
    assert Edge(v, 1) in ms[u].edges;
  }

  /** Every orthogonal neighbour of node u lies in S. */
  ghost predicate Covered(ns: seq<MapNode>, u: int, S: set<int>) {
    0 <= u < |ns| && forall w :: 0 <= w < |ns| && Adjacent(ns[u], ns[w]) ==> w in S
  }

  lemma CoveredGrow(ns: seq<MapNode>, ms: seq<MapNode>, u: int, S: set<int>, T: set<int>)
    requires EdgesGrow(ns, ms) && Covered(ns, u, S) && S <= T
    ensures Covered(ms, u, T)
  {
    forall w | 0 <= w < |ms| && Adjacent(ms[u], ms[w])
      ensures w in T
    {
      assert ms[u].i == ns[u].i && ms[u].j == ns[u].j && ms[w].i == ns[w].i && ms[w].j == ns[w].j;
    }
  }

  /**
   * What `dfsMaze(v)` promises, from arena G0 and visited set V0 to G and V:
   * v and every node it newly visits have all their neighbours visited; every
   * newly visited node other than v cost exactly two directed edges; every
   * newly visited node is reachable from v; and the edges are maze edges.
   */
  ghost predicate DfsPost(G0: seq<MapNode>, V0: set<int>, v: int, G: seq<MapNode>, V: set<int>) {
    MazeEdges(G0, G) && V0 + {v} <= V &&
    (forall u :: u in V && (u !in V0 || u == v) ==> Covered(G, u, V)) &&
    TotalEdges(G) == TotalEdges(G0) + 2 * |V - (V0 + {v})| &&
    (forall u :: u in V && u !in V0 ==> Reachable(G, v, u))
  }

  /** DfsPost while the loop over v's neighbours is still running. */
  ghost predicate DfsLoop(G0: seq<MapNode>, V0: set<int>, v: int, G: seq<MapNode>, V: set<int>) {
    MazeEdges(G0, G) && V0 + {v} <= V &&
    (forall u :: u in V && u !in V0 && u != v ==> Covered(G, u, V)) &&
    TotalEdges(G) == TotalEdges(G0) + 2 * |V - (V0 + {v})| &&
    (forall u :: u in V && u !in V0 ==> Reachable(G, v, u))
  }

  lemma DfsLoopStart(G0: seq<MapNode>, V0: set<int>, v: int)
    requires 0 <= v < |G0|
    ensures DfsLoop(G0, V0, v, G0, V0 + {v})
  {
    MazeEdgesRefl(G0);
    assert (V0 + {v}) - (V0 + {v}) == {};
    ReachableSelf(G0, v);
  }

  lemma DfsLoopEnd(G0: seq<MapNode>, V0: set<int>, v: int, G: seq<MapNode>, V: set<int>)
    requires DfsLoop(G0, V0, v, G, V) && Covered(G, v, V)
    ensures DfsPost(G0, V0, v, G, V)
  {
  }

  /** One iteration of the neighbour loop: join v to the unvisited n and recurse. */
  lemma DfsLoopStep(G0: seq<MapNode>, V0: set<int>, v: int, Gb: seq<MapNode>, Vb: set<int>,
                    Gc: seq<MapNode>, Ga: seq<MapNode>, Va: set<int>, n: int)
    requires DfsLoop(G0, V0, v, Gb, Vb)
    requires 0 <= v < |Gb| && 0 <= n < |Gb| && n !in Vb && Adjacent(Gb[v], Gb[n])
    requires Gc == Gb[v := Gb[v].AddEdge(n, 1)][n := Gb[n].AddEdge(v, 1)]
    requires DfsPost(Gc, Vb, n, Ga, Va)
    ensures DfsLoop(G0, V0, v, Ga, Va)
  {
    MazeEdgesAddPair(Gb, v, n, Gc);
    MazeEdgesTrans(Gb, Gc, Ga);
    MazeEdgesTrans(G0, Gb, Ga);
    EdgesGrowTrans(Gb, Gc, Ga);
    VisitedCount(V0 + {v}, Vb, Va, n);
    forall u | u in Va && u !in V0 && u != v
      ensures Covered(Ga, u, Va)
    {
      if u in Vb {
        CoveredGrow(Gb, Ga, u, Vb, Va);
      }
    }
    DfsLoopStepReach(G0, V0, v, Gb, Vb, Gc, Ga, Va, n);
  }

  /** The nodes newly visited by one loop iteration: n and those its call visits. */
  lemma VisitedCount(S0: set<int>, Vb: set<int>, Va: set<int>, n: int)
    requires S0 <= Vb && n !in Vb && Vb + {n} <= Va
    ensures |Va - S0| == |Vb - S0| + |Va - (Vb + {n})| + 1
  {
    assert Va - S0 == (Vb - S0) + (Va - Vb);
    assert (Vb - S0) * (Va - Vb) == {};
    assert Va - Vb == (Va - (Vb + {n})) + {n};
  }

  /** After the iteration, every node visited since the loop began is reachable from v. */
  lemma DfsLoopStepReach(G0: seq<MapNode>, V0: set<int>, v: int, Gb: seq<MapNode>, Vb: set<int>,
                         Gc: seq<MapNode>, Ga: seq<MapNode>, Va: set<int>, n: int)
    requires forall u :: u in Vb && u !in V0 ==> Reachable(Gb, v, u)
    requires 0 <= v < |Gc| && Gc[v].HasEdge(n) && EdgesGrow(Gb, Ga) && EdgesGrow(Gc, Ga)
    requires forall u :: u in Va && u !in Vb ==> Reachable(Ga, n, u)
    ensures forall u :: u in Va && u !in V0 ==> Reachable(Ga, v, u)
  {
    assert Ga[v].HasEdge(n) by {
      var e := Gc[v].GetEdge(n).value;
      assert e in Gc[v].edges && e.target == n;
      assert e in Ga[v].edges;
    }
    forall u | u in Va && u !in V0
      ensures Reachable(Ga, v, u)
    {
      if u in Vb {
        ReachableGrow(Gb, Ga, v, u);
      } else {
        ReachableStep(Ga, v, n, u);
      }
    }
  }

  /**
   * The shape a depth-first carving from v leaves, from G0 and V0 to G and
   * V: a node other than v that was visited before or not at all keeps its
   * edges; v gains an edge once anything beyond v is visited; and no two
   * neighbouring nodes newly visited after v both end with a single edge
   * (a node that ends a branch saw all its neighbours visited before it).
   */
  ghost predicate DfsShape(G0: seq<MapNode>, V0: set<int>, v: int, G: seq<MapNode>, V: set<int>) {
    |G| == |G0| && 0 <= v < |G0| &&
    (forall x :: 0 <= x < |G0| && x != v && (x in V0 || x !in V) ==> G[x] == G0[x]) &&
    (V != V0 + {v} ==> |G[v].edges| > |G0[v].edges|) &&
    LeavesApart(G, V0, v, V)
  }

  /** No two neighbouring nodes of V outside V0 and other than v both have a single edge. */
  ghost predicate LeavesApart(G: seq<MapNode>, V0: set<int>, v: int, V: set<int>) {
    forall u, w :: 0 <= u < |G| && 0 <= w < |G| && u in V && u !in V0 && w in V && w !in V0 &&
                   u != v && w != v && Adjacent(G[u], G[w]) ==>
                     |G[u].edges| != 1 || |G[w].edges| != 1
  }

  /** DfsLoop and DfsShape together: the state while the loop of `dfsMaze(v)` runs. */
  ghost predicate Carving(G0: seq<MapNode>, V0: set<int>, v: int, G: seq<MapNode>, V: set<int>) {
    DfsLoop(G0, V0, v, G, V) && DfsShape(G0, V0, v, G, V)
  }

  lemma CarvingStart(G0: seq<MapNode>, V0: set<int>, v: int)
    requires 0 <= v < |G0|
    ensures Carving(G0, V0, v, G0, V0 + {v})
  {
    DfsLoopStart(G0, V0, v);
    DfsShapeStart(G0, V0, v);
  }

  /** Once every neighbour of v is visited, the loop state is what `dfsMaze(v)` promises. */
  lemma CarvingEnd(G0: seq<MapNode>, V0: set<int>, v: int, G: seq<MapNode>, V: set<int>, node: MapNode,
                   neighbours: seq<MapNode>, order: seq<MapNode>)
    requires Carving(G0, V0, v, G, V) && node.id == v
    requires G0[v].i == node.i && G0[v].j == node.j
    requires forall w :: 0 <= w < |G0| && Adjacent(node, G0[w]) ==>
               exists k :: 0 <= k < |neighbours| && neighbours[k].id == w
    requires multiset(order) == multiset(neighbours)
    requires IdsOf(order) <= V
    ensures DfsPost(G0, V0, v, G, V) && DfsShape(G0, V0, v, G, V)
  {
    CoveredAfterLoop(G0, G, V, node, neighbours, order);
    DfsLoopEnd(G0, V0, v, G, V);
  }

  lemma DfsShapeStart(G0: seq<MapNode>, V0: set<int>, v: int)
    requires 0 <= v < |G0|
    ensures DfsShape(G0, V0, v, G0, V0 + {v})
  {
  }

  /** One iteration of the neighbour loop keeps the shape. */
  lemma DfsShapeStep(G0: seq<MapNode>, V0: set<int>, v: int, Gb: seq<MapNode>, Vb: set<int>,
                     Gc: seq<MapNode>, Ga: seq<MapNode>, Va: set<int>, n: int)
    requires DfsShape(G0, V0, v, Gb, Vb) && DfsLoop(G0, V0, v, Gb, Vb)
    requires 0 <= n < |Gb| && n !in Vb && Adjacent(Gb[v], Gb[n])
    requires Gc == Gb[v := Gb[v].AddEdge(n, 1)][n := Gb[n].AddEdge(v, 1)]
    requires DfsShape(Gc, Vb, n, Ga, Va) && DfsPost(Gc, Vb, n, Ga, Va)
    ensures DfsShape(G0, V0, v, Ga, Va)
  {
    MazeEdgesAddPair(Gb, v, n, Gc);
    EdgesGrowTrans(Gb, Gc, Ga);
    FrameStep(G0, V0, v, Gb, Vb, Gc, Ga, Va, n);
    forall u, w | 0 <= u < |Ga| && 0 <= w < |Ga| && u in Va && u !in V0 && w in Va && w !in V0 &&
                  u != v && w != v && Adjacent(Ga[u], Ga[w])
      ensures |Ga[u].edges| != 1 || |Ga[w].edges| != 1
    {
      LeavesApartStep(G0, V0, v, Gb, Vb, Gc, Ga, Va, n, u, w);
    }
  }

  /** The frame and the edge v gains in one iteration of the neighbour loop. */
  lemma FrameStep(G0: seq<MapNode>, V0: set<int>, v: int, Gb: seq<MapNode>, Vb: set<int>,
                  Gc: seq<MapNode>, Ga: seq<MapNode>, Va: set<int>, n: int)
    requires DfsShape(G0, V0, v, Gb, Vb) && EdgesGrow(G0, Gb) && V0 + {v} <= Vb
    requires 0 <= n < |Gb| && n !in Vb
    requires Gc == Gb[v := Gb[v].AddEdge(n, 1)][n := Gb[n].AddEdge(v, 1)]
    requires DfsShape(Gc, Vb, n, Ga, Va) && Vb + {n} <= Va
    ensures |Ga| == |G0| && |Ga[v].edges| > |G0[v].edges|
    ensures forall x :: 0 <= x < |G0| && x != v && (x in V0 || x !in Va) ==> Ga[x] == G0[x]
  {
    assert Ga[v] == Gc[v];
    assert |Gc[v].edges| == |Gb[v].edges| + 1;
    assert G0[v].edges <= Gb[v].edges;
  }

  /** The pair case of DfsShapeStep: u and w are visited in the same subtree or not neighbours. */
  lemma LeavesApartStep(G0: seq<MapNode>, V0: set<int>, v: int, Gb: seq<MapNode>, Vb: set<int>,
                        Gc: seq<MapNode>, Ga: seq<MapNode>, Va: set<int>, n: int, u: int, w: int)
    requires DfsShape(G0, V0, v, Gb, Vb) && DfsLoop(G0, V0, v, Gb, Vb)
    requires 0 <= n < |Gb| && n !in Vb && n != v
    requires Gc == Gb[v := Gb[v].AddEdge(n, 1)][n := Gb[n].AddEdge(v, 1)]
    requires DfsShape(Gc, Vb, n, Ga, Va) && EdgesGrow(Gb, Ga)
    requires 0 <= u < |Ga| && 0 <= w < |Ga| && u in Va && u !in V0 && w in Va && w !in V0
    requires u != v && w != v && Adjacent(Ga[u], Ga[w])
    ensures |Ga[u].edges| != 1 || |Ga[w].edges| != 1
  {
    if u in Vb && w in Vb {
      assert Ga[u] == Gc[u] == Gb[u] && Ga[w] == Gc[w] == Gb[w];
    } else if u !in Vb && w !in Vb && (u == n || w == n) {
      assert |Gc[n].edges| == |Gb[n].edges| + 1;
    }
  }

  // ---------------------------------------------------------------------
  // Neighbour nodes and shuffling

  /** `neighbours` are the arena's nodes at NeighbourCells of `node`, in that order. */
  ghost predicate NeighbourNodes(ns: seq<MapNode>, cols: int, rows: int, node: MapNode, neighbours: seq<MapNode>) {
    var cells := NeighbourCells(node.i, node.j, cols, rows);
    |neighbours| == |cells| &&
    forall k :: 0 <= k < |neighbours| ==>
      0 <= neighbours[k].id < |ns| && neighbours[k] == ns[neighbours[k].id] &&
      neighbours[k].i == cells[k].0 && neighbours[k].j == cells[k].1
  }

  /** NeighbourNodes for the first d directions only. */
  ghost predicate NeighbourNodesUpTo(ns: seq<MapNode>, cols: int, rows: int, node: MapNode, d: int, neighbours: seq<MapNode>)
    requires 0 <= d <= |Directions|
  {
    var cells := StepCells(Directions[..d], node.i, node.j, cols, rows);
    |neighbours| == |cells| &&
    forall k :: 0 <= k < |neighbours| ==>
      0 <= neighbours[k].id < |ns| && neighbours[k] == ns[neighbours[k].id] &&
      neighbours[k].i == cells[k].0 && neighbours[k].j == cells[k].1
  }

  /** One more direction of `getNeighbours`: the node at its cell, if that cell is inside the grid. */
  lemma NeighbourNodesUpToStep(ns: seq<MapNode>, cols: int, rows: int, node: MapNode, d: int,
                               neighbours: seq<MapNode>, found: seq<MapNode>)
    requires 0 <= d < |Directions| && NeighbourNodesUpTo(ns, cols, rows, node, d, neighbours)
    requires var c := (node.i + Directions[d].0, node.j + Directions[d].1);
             if InBounds(c.0, c.1, cols, rows) then
               |found| == 1 && 0 <= found[0].id < |ns| && found[0] == ns[found[0].id] &&
               found[0].i == c.0 && found[0].j == c.1
             else found == []
    ensures NeighbourNodesUpTo(ns, cols, rows, node, d + 1, neighbours + found)
  {
    assert Directions[..d + 1] == Directions[..d] + [Directions[d]];
    StepCellsSnoc(Directions[..d], Directions[d], node.i, node.j, cols, rows, ns, neighbours, found);
  }

  /** Appending a direction appends its cell, if inside the grid, and the matching node. */
  lemma StepCellsSnoc(dirs: seq<(int, int)>, dir: (int, int), i: int, j: int, cols: int, rows: int,
                      ns: seq<MapNode>, neighbours: seq<MapNode>, found: seq<MapNode>)
    requires var cells := StepCells(dirs, i, j, cols, rows);
             |neighbours| == |cells| &&
             forall k :: 0 <= k < |neighbours| ==>
               0 <= neighbours[k].id < |ns| && neighbours[k] == ns[neighbours[k].id] &&
               neighbours[k].i == cells[k].0 && neighbours[k].j == cells[k].1
    requires if InBounds(i + dir.0, j + dir.1, cols, rows) then
               |found| == 1 && 0 <= found[0].id < |ns| && found[0] == ns[found[0].id] &&
               found[0].i == i + dir.0 && found[0].j == j + dir.1
             else found == []
    ensures var cells := StepCells(dirs + [dir], i, j, cols, rows);
            |neighbours + found| == |cells| &&
            forall k :: 0 <= k < |neighbours + found| ==>
              0 <= (neighbours + found)[k].id < |ns| && (neighbours + found)[k] == ns[(neighbours + found)[k].id] &&
              (neighbours + found)[k].i == cells[k].0 && (neighbours + found)[k].j == cells[k].1
  {
    assert (dirs + [dir])[..|dirs|] == dirs;
  }

  /** The arena's nodes at the given in-bounds cells, in order. */
  function CellNodes(ns: seq<MapNode>, cols: nat, rows: nat, cells: seq<(int, int)>): (r: seq<MapNode>)
    requires |ns| == cols * rows && forall c :: c in cells ==> InBounds(c.0, c.1, cols, rows)
    ensures |r| == |cells|
  {
    if cells == [] then []
    else
      var c := cells[|cells| - 1];
      assert c in cells && InBounds(c.0, c.1, cols, rows);
      IndexOfCell(c.0, c.1, cols, rows);
      CellNodes(ns, cols, rows, cells[..|cells| - 1]) + [ns[Index(c.0, c.1, cols)]]
  }

  lemma {:induction false} CellNodesAt(ns: seq<MapNode>, cols: nat, rows: nat, cells: seq<(int, int)>, k: int)
    requires |ns| == cols * rows && forall c :: c in cells ==> InBounds(c.0, c.1, cols, rows)
    requires 0 <= k < |cells|
    ensures 0 <= Index(cells[k].0, cells[k].1, cols) < |ns|
    ensures CellNodes(ns, cols, rows, cells)[k] == ns[Index(cells[k].0, cells[k].1, cols)]
    decreases |cells|
  {
    assert cells[k] in cells;
    IndexOfCell(cells[k].0, cells[k].1, cols, rows);
    if k < |cells| - 1 {
      CellNodesAt(ns, cols, rows, cells[..|cells| - 1], k);
    }
  }

  /** What `getNeighbours(node)` returns on the arena `ns`. */
  function NeighboursOf(ns: seq<MapNode>, cols: nat, rows: nat, node: MapNode): seq<MapNode>
    requires |ns| == cols * rows
  {
    CellNodes(ns, cols, rows, NeighbourCells(node.i, node.j, cols, rows))
  }

  /** On a grid, NeighbourNodes singles out one list: NeighboursOf. */
  lemma NeighbourNodesAre(ns: seq<MapNode>, cols: nat, rows: nat, node: MapNode, xs: seq<MapNode>)
    requires IsGrid(ns, cols, rows)
    ensures NeighbourNodes(ns, cols, rows, node, xs) <==> xs == NeighboursOf(ns, cols, rows, node)
  {
    NeighboursOfNodes(ns, cols, rows, node);
    if NeighbourNodes(ns, cols, rows, node, xs) {
      NeighbourNodesUnique(ns, cols, rows, node, xs);
    }
  }

  lemma NeighboursOfNodes(ns: seq<MapNode>, cols: nat, rows: nat, node: MapNode)
    requires IsGrid(ns, cols, rows)
    ensures NeighbourNodes(ns, cols, rows, node, NeighboursOf(ns, cols, rows, node))
  {
    var cells := NeighbourCells(node.i, node.j, cols, rows);
    var ys := NeighboursOf(ns, cols, rows, node);
    forall k | 0 <= k < |cells|
      ensures 0 <= ys[k].id < |ns| && ys[k] == ns[ys[k].id] && ys[k].i == cells[k].0 && ys[k].j == cells[k].1
    {
      CellNodesAt(ns, cols, rows, cells, k);
      assert cells[k] in cells;
      IndexOfCell(cells[k].0, cells[k].1, cols, rows);
    }
  }

  lemma NeighbourNodesUnique(ns: seq<MapNode>, cols: nat, rows: nat, node: MapNode, xs: seq<MapNode>)
    requires IsGrid(ns, cols, rows) && NeighbourNodes(ns, cols, rows, node, xs)
    ensures xs == NeighboursOf(ns, cols, rows, node)
  {
    var cells := NeighbourCells(node.i, node.j, cols, rows);
    var ys := NeighboursOf(ns, cols, rows, node);
    NeighboursOfNodes(ns, cols, rows, node);
    forall k | 0 <= k < |xs|
      ensures xs[k] == ys[k]
    {
      SameCellSameNode(ns, cols, rows, xs[k], ys[k]);
    }
  }

  /** On a grid, a cell holds one node. */
  lemma SameCellSameNode(ns: seq<MapNode>, cols: nat, rows: nat, x: MapNode, y: MapNode)
    requires IsGrid(ns, cols, rows)
    requires 0 <= x.id < |ns| && x == ns[x.id] && 0 <= y.id < |ns| && y == ns[y.id]
    requires x.i == y.i && x.j == y.j
    ensures x == y
  {
    CellOfIndex(x.id, cols, rows);
    CellOfIndex(y.id, cols, rows);
  }

  /** The neighbour nodes are adjacent to `node`, and every adjacent node of the arena is one of them. */
  lemma NeighbourNodesExact(ns: seq<MapNode>, cols: nat, rows: nat, node: MapNode, neighbours: seq<MapNode>)
    requires IsGrid(ns, cols, rows) && NeighbourNodes(ns, cols, rows, node, neighbours)
    ensures forall k :: 0 <= k < |neighbours| ==> Adjacent(node, neighbours[k])
    ensures forall w :: 0 <= w < |ns| && Adjacent(node, ns[w]) ==>
              exists k :: 0 <= k < |neighbours| && neighbours[k].id == w
  {
    var cells := NeighbourCells(node.i, node.j, cols, rows);
    forall k | 0 <= k < |neighbours|
      ensures Adjacent(node, neighbours[k])
    {
      NeighbourCellsAdjacent(node.i, node.j, cols, rows, cells[k].0, cells[k].1);
    }
    forall w | 0 <= w < |ns| && Adjacent(node, ns[w])
      ensures exists k :: 0 <= k < |neighbours| && neighbours[k].id == w
    {
      CellOfIndex(w, cols, rows);
      NeighbourCellsAdjacent(node.i, node.j, cols, rows, ns[w].i, ns[w].j);
      var k :| 0 <= k < |cells| && cells[k] == (ns[w].i, ns[w].j);
      var v := neighbours[k].id;
      CellOfIndex(v, cols, rows);
      assert v == Index(ns[v].i, ns[v].j, cols) == Index(ns[w].i, ns[w].j, cols) == w;
    }
  }

  /** `Math.floor(r * n)` for a draw r: an index into a list of length n when n > 0, and 0 otherwise. */
  function RandomIndex(r: real, n: nat): (k: int)
    requires 0.0 <= r < 1.0
    ensures n > 0 ==> 0 <= k < n
    ensures n == 0 ==> k == 0
  {
    var x := r * n as real;
    if n > 0 then
      ScaleBounds(r, n as real);
      assert 0.0 <= x < n as real;
      assert x.Floor as real <= x < x.Floor as real + 1.0;
      x.Floor
    else assert x == 0.0; x.Floor
  }

  /** The exchange of `array[i]` and `array[j]` through `temp` in `shuffle`. */
  method SwapInPlace<T>(a: array<T>, i: int, j: int)
    requires 0 <= i < a.Length && 0 <= j < a.Length
    modifies a
    ensures a[..] == Swapped(old(a[..]), i, j)
  {
    var temp := a[i];
    a[i] := a[j];
    a[j] := temp;
  }

  /**
   * The result of `shuffle` when its loop stands at i: positions i, i-1, ..., 1
   * each exchanged with a position drawn from `g` below or at it.
   */
  function ShuffleFrom<T>(s: seq<T>, i: int, g: Rng): (r: seq<T>)
    requires g.Valid() && i < |s|
    ensures |r| == |s|
    ensures i <= 0 ==> r == s
    decreases i
  {
    if i <= 0 then s
    else ShuffleFrom(Swapped(s, i, RandomIndex(g.Head(), i + 1)), i - 1, g.Tail())
  }

  /** One step of the shuffle at position i > 0. */
  lemma ShuffleStep<T>(s: seq<T>, i: int, g: Rng)
    requires g.Valid() && 0 < i < |s|
    ensures 0 <= RandomIndex(g.Head(), i + 1) <= i
    ensures ShuffleFrom(s, i, g) == ShuffleFrom(Swapped(s, i, RandomIndex(g.Head(), i + 1)), i - 1, g.Tail())
  {
  }

  /** The shuffle is a permutation: it keeps every element with its multiplicity. */
  lemma {:induction false} ShufflePermutes<T>(s: seq<T>, i: int, g: Rng)
    requires g.Valid() && i < |s|
    ensures multiset(ShuffleFrom(s, i, g)) == multiset(s)
    decreases i
  {
    if i > 0 {
      var j := RandomIndex(g.Head(), i + 1);
      SwappedPermutes(s, i, j);
      ShufflePermutes(Swapped(s, i, j), i - 1, g.Tail());
    }
  }

  /** The node ids of an arena with n nodes. */
  function Ids(n: int): (ids: set<int>)
    ensures forall k :: k in ids <==> 0 <= k < n
  {
    if n <= 0 then {} else Ids(n - 1) + {n - 1}
  }

  lemma {:induction false} IdsSize(n: nat)
    ensures |Ids(n)| == n
  {
    if n > 0 {
      IdsSize(n - 1);
      assert n - 1 !in Ids(n - 1);
    }
  }

  // ---------------------------------------------------------------------
  // The carved maze is a spanning tree

  lemma EdgesGrowGrid(ns: seq<MapNode>, ms: seq<MapNode>, cols: nat, rows: nat)
    requires IsGrid(ns, cols, rows) && EdgesGrow(ns, ms)
    ensures IsGrid(ms, cols, rows)
  {
    forall k | 0 <= k < |ms|
      ensures ms[k].id == k && ms[k].i == ColOf(k, cols) && ms[k].j == RowOf(k, cols)
    {
      assert ms[k] == ns[k].(edges := ms[k].edges);
    }
  }

  lemma {:induction false} NoEdgesTotal(ns: seq<MapNode>)
    requires NoEdges(ns)
    ensures TotalEdges(ns) == 0
    decreases |ns|
  {
    if ns != [] {
      NoEdgesTotal(ns[..|ns| - 1]);
    }
  }

  /**
   * A set of grid nodes that holds `root` and every neighbour of each of its
   * members holds every node at Manhattan distance d of root.
   */
  lemma {:induction false} ClosedReaches(ns: seq<MapNode>, cols: nat, rows: nat, S: set<int>, root: int, w: int, d: nat)
    requires IsGrid(ns, cols, rows) && 0 <= root < |ns| && root in S
    requires forall u :: u in S ==> Covered(ns, u, S)
    requires 0 <= w < |ns| && d == Abs(ns[w].i - ns[root].i) + Abs(ns[w].j - ns[root].j)
    ensures w in S
    decreases d
  {
    CellOfIndex(w, cols, rows);
    CellOfIndex(root, cols, rows);
    var a, b := ns[w].i, ns[w].j;
    if d == 0 {
      assert w == Index(a, b, cols) == root;
    } else {
      var c: (int, int) :=
        if a > ns[root].i then (a - 1, b)
        else if a < ns[root].i then (a + 1, b)
        else if b > ns[root].j then (a, b - 1)
        else (a, b + 1);
      IndexOfCell(c.0, c.1, cols, rows);
      var x := Index(c.0, c.1, cols);
      assert ns[x].i == c.0 && ns[x].j == c.1;
      ClosedReaches(ns, cols, rows, S, root, x, d - 1);
      assert Covered(ns, x, S) && Adjacent(ns[x], ns[w]);
    }
  }

  /** Such a closed set holds the whole grid. */
  lemma ClosedIsAll(ns: seq<MapNode>, cols: nat, rows: nat, S: set<int>, root: int)
    requires IsGrid(ns, cols, rows) && 0 <= root < |ns| && root in S
    requires forall u :: u in S ==> Covered(ns, u, S)
    ensures forall w :: 0 <= w < |ns| ==> w in S
  {
    forall w | 0 <= w < |ns|
      ensures w in S
    {
      ClosedReaches(ns, cols, rows, S, root, w, Abs(ns[w].i - ns[root].i) + Abs(ns[w].j - ns[root].j));
    }
  }

  /**
   * `dfsMaze(root)` on a fresh generator over a grid with no edges visits
   * every node, carves exactly 2(N - 1) directed edges, each between
   * neighbours and paired with its reverse, and leaves every node reachable
   * from root: a spanning tree of the grid with its edges in both directions.
   */
  lemma DfsSpanningTree(G0: seq<MapNode>, cols: nat, rows: nat, root: int, G: seq<MapNode>, V: set<int>)
    requires IsGrid(G0, cols, rows) && NoEdges(G0) && 0 <= root < |G0|
    requires DfsPost(G0, {}, root, G, V) && forall k :: k in V ==> 0 <= k < |G0|
    ensures V == Ids(|G0|)
    ensures TotalEdges(G) == 2 * (|G0| - 1)
    ensures forall u :: 0 <= u < |G| ==> Reachable(G, root, u)
  {
    EdgesGrowGrid(G0, G, cols, rows);
    ClosedIsAll(G, cols, rows, V, root);
    assert V == Ids(|G0|);
    IdsSize(|G0|);
    assert V - ({} + {root}) == V - {root};
    NoEdgesTotal(G0);
  }

  /** Of two neighbouring nodes with a single edge each, one is `root`. */
  ghost predicate DeadEndsApart(ns: seq<MapNode>, root: int) {
    forall u, w :: 0 <= u < |ns| && 0 <= w < |ns| && Adjacent(ns[u], ns[w]) &&
                   |ns[u].edges| == 1 && |ns[w].edges| == 1 ==>
                     u == root || w == root
  }

  /**
   * In the maze `dfsMaze(root)` carves on a grid with no edges, two
   * neighbouring dead ends include the root: a node that ends a branch found
   * all its neighbours visited before it.
   */
  lemma DfsDeadEndsApart(G0: seq<MapNode>, cols: nat, rows: nat, root: int, G: seq<MapNode>, V: set<int>)
    requires IsGrid(G0, cols, rows) && NoEdges(G0) && 0 <= root < |G0|
    requires DfsPost(G0, {}, root, G, V) && DfsShape(G0, {}, root, G, V)
    requires forall k :: k in V ==> 0 <= k < |G0|
    ensures DeadEndsApart(G, root)
  {
    DfsSpanningTree(G0, cols, rows, root, G, V);
  }

  /** `dfsMaze` started again once every node is visited carves nothing. */
  lemma DfsRevisitAddsNothing(G0: seq<MapNode>, V0: set<int>, v: int, G: seq<MapNode>, V: set<int>)
    requires DfsPost(G0, V0, v, G, V) && 0 <= v < |G0|
    requires forall u :: 0 <= u < |G0| ==> u in V0
    requires forall u :: u in V ==> 0 <= u < |G0|
    ensures G == G0 && V == V0
  {
    assert V <= V0 by {
      forall u | u in V
        ensures u in V0
      {
      }
    }
    assert V - (V0 + {v}) == {};
    EdgesGrowTotal(G0, G);
  }

  /** The ids of the nodes in ns. */
  function IdsOf(ns: seq<MapNode>): (ids: set<int>)
    ensures forall k :: 0 <= k < |ns| ==> ns[k].id in ids
  {
    if ns == [] then {} else IdsOf(ns[..|ns| - 1]) + {ns[|ns| - 1].id}
  }

  lemma IdsOfSnoc(ns: seq<MapNode>, k: int)
    requires 0 <= k < |ns|
    ensures IdsOf(ns[..k + 1]) == IdsOf(ns[..k]) + {ns[k].id}
  {
    assert ns[..k + 1][..k] == ns[..k];
  }

  lemma SameMembers<T>(a: seq<T>, b: seq<T>)
    requires multiset(a) == multiset(b)
    ensures forall x :: x in a <==> x in b
  {
    forall x
      ensures x in a <==> x in b
    {
      assert x in a <==> x in multiset(a);
      assert x in b <==> x in multiset(b);
    }
  }

  /** Every node of a shuffled neighbour list is an adjacent node of the arena. */
  lemma NeighbourOrder(ns: seq<MapNode>, cols: int, rows: int, node: MapNode, neighbours: seq<MapNode>, order: seq<MapNode>)
    requires NeighbourNodes(ns, cols, rows, node, neighbours)
    requires forall k :: 0 <= k < |neighbours| ==> Adjacent(node, neighbours[k])
    requires multiset(order) == multiset(neighbours)
    ensures forall s :: 0 <= s < |order| ==>
              0 <= order[s].id < |ns| && ns[order[s].id] == order[s] && Adjacent(node, order[s])
  {
    SameMembers(order, neighbours);
    forall s | 0 <= s < |order|
      ensures 0 <= order[s].id < |ns| && ns[order[s].id] == order[s] && Adjacent(node, order[s])
    {
      assert order[s] in neighbours;
    }
  }

  /** After the loop of `dfsMaze`, every neighbour of the node is visited. */
  lemma CoveredAfterLoop(G0: seq<MapNode>, G: seq<MapNode>, V: set<int>, node: MapNode,
                         neighbours: seq<MapNode>, order: seq<MapNode>)
    requires EdgesGrow(G0, G) && 0 <= node.id < |G0|
    requires G0[node.id].i == node.i && G0[node.id].j == node.j
    requires forall w :: 0 <= w < |G0| && Adjacent(node, G0[w]) ==>
               exists k :: 0 <= k < |neighbours| && neighbours[k].id == w
    requires multiset(order) == multiset(neighbours)
    requires IdsOf(order) <= V
    ensures Covered(G, node.id, V)
  {
    SameMembers(order, neighbours);
    forall w | 0 <= w < |G| && Adjacent(G[node.id], G[w])
      ensures w in V
    {
      assert G[node.id].i == node.i && G[node.id].j == node.j;
      assert G[w].i == G0[w].i && G[w].j == G0[w].j;
      var k :| 0 <= k < |neighbours| && neighbours[k].id == w;
      assert neighbours[k] in order;
      var s :| 0 <= s < |order| && order[s] == neighbours[k];
    }
  }

  // ---------------------------------------------------------------------
  // Braiding

  /** The ids of the nodes with exactly one edge, in index order: the dead ends of a maze. */
  function DeadEnds(ns: seq<MapNode>): (ds: seq<int>)
    ensures forall d :: d in ds <==> 0 <= d < |ns| && |ns[d].edges| == 1
    ensures AllBelow(ds, |ns|)
    ensures forall a, b :: 0 <= a < b < |ds| ==> ds[a] < ds[b]
  {
    if ns == [] then []
    else
      var front := DeadEnds(ns[..|ns| - 1]);
      assert AllBelow(front, |ns| - 1);
      front + (if |ns[|ns| - 1].edges| == 1 then [|ns| - 1] else [])
  }

  /** Every id in ds names a node of an arena with n nodes. */
  predicate AllBelow(ds: seq<int>, n: int) {
    forall k :: 0 <= k < |ds| ==> 0 <= ds[k] < n
  }

  /** `neighbours.filter(n => !node.hasEdge(n))`. */
  function Unconnected(node: MapNode, neighbours: seq<MapNode>): (r: seq<MapNode>)
    ensures forall x :: x in r <==> x in neighbours && !node.HasEdge(x.id)
  {
    if neighbours == [] then []
    else
      var x := neighbours[|neighbours| - 1];
      Unconnected(node, neighbours[..|neighbours| - 1]) + (if node.HasEdge(x.id) then [] else [x])
  }

  /** Facts about NeighboursOf on a grid: exactly the adjacent nodes. */
  lemma NeighboursOfFacts(ns: seq<MapNode>, cols: nat, rows: nat, node: MapNode)
    requires IsGrid(ns, cols, rows)
    ensures forall x :: x in NeighboursOf(ns, cols, rows, node) ==>
              0 <= x.id < |ns| && ns[x.id] == x && Adjacent(node, x)
    ensures forall w :: 0 <= w < |ns| && Adjacent(node, ns[w]) ==> ns[w] in NeighboursOf(ns, cols, rows, node)
  {
    var xs := NeighboursOf(ns, cols, rows, node);
    NeighbourNodesAre(ns, cols, rows, node, xs);
    NeighbourNodesExact(ns, cols, rows, node, xs);
    forall w | 0 <= w < |ns| && Adjacent(node, ns[w])
      ensures ns[w] in xs
    {
      var k :| 0 <= k < |xs| && xs[k].id == w;
    }
  }

  /** `node.addEdge(rand, 1); rand.addEdge(node, 1)` on the arena. */
  function AddPair(ns: seq<MapNode>, d: int, t: int): (ms: seq<MapNode>)
    requires 0 <= d < |ns| && 0 <= t < |ns|
    ensures |ms| == |ns|
  {
    var m := ns[d := ns[d].AddEdge(t, 1)];
    m[t := m[t].AddEdge(d, 1)]
  }

  lemma AddPairGrid(ns: seq<MapNode>, cols: nat, rows: nat, d: int, t: int)
    requires IsGrid(ns, cols, rows) && 0 <= d < |ns| && 0 <= t < |ns|
    ensures IsGrid(AddPair(ns, d, t), cols, rows)
  {
  }

  /**
   * One pass of the braiding loop of `braidedMaze` for dead end d, with a
   * dead end that has no unconnected neighbour left skipped: one draw decides
   * whether d is skipped (draw > p) and, if not, a second draw picks the
   * unconnected neighbour to join it to. The result is the arena and the
   * generator after the pass.
   */
  function BraidOne(ns: seq<MapNode>, cols: nat, rows: nat, d: int, p: real, g: Rng): (r: (seq<MapNode>, Rng))
    requires IsGrid(ns, cols, rows) && g.Valid() && 0 <= d < |ns|
    ensures IsGrid(r.0, cols, rows) && r.1.Valid() && r.1.draw == g.draw
  {
    if g.Head() > p then (ns, g.Tail())
    else
      var un := Unconnected(ns[d], NeighboursOf(ns, cols, rows, ns[d]));
      if un == [] then (ns, g.Tail())
      else
        var t := un[RandomIndex(g.Tail().Head(), |un|)].id;
        NeighboursOfFacts(ns, cols, rows, ns[d]);
        AddPairGrid(ns, cols, rows, d, t);
        (AddPair(ns, d, t), g.Tail().Tail())
  }

  /** The braiding loop over the dead ends ds: BraidOne for each in turn. */
  function BraidFrom(ns: seq<MapNode>, cols: nat, rows: nat, ds: seq<int>, p: real, g: Rng): (r: (seq<MapNode>, Rng))
    requires IsGrid(ns, cols, rows) && g.Valid() && AllBelow(ds, |ns|)
    ensures IsGrid(r.0, cols, rows) && r.1.Valid() && r.1.draw == g.draw
    decreases |ds|
  {
    if ds == [] then (ns, g)
    else
      var r := BraidOne(ns, cols, rows, ds[0], p, g);
      BraidFrom(r.0, cols, rows, ds[1..], p, r.1)
  }

  /** One pass only appends maze edges. */
  lemma BraidOneMazeEdges(ns: seq<MapNode>, cols: nat, rows: nat, d: int, p: real, g: Rng)
    requires IsGrid(ns, cols, rows) && g.Valid() && 0 <= d < |ns|
    ensures MazeEdges(ns, BraidOne(ns, cols, rows, d, p, g).0)
  {
    var un := Unconnected(ns[d], NeighboursOf(ns, cols, rows, ns[d]));
    if g.Head() > p || un == [] {
      MazeEdgesRefl(ns);
    } else {
      var x := un[RandomIndex(g.Tail().Head(), |un|)];
      var t := x.id;
      NeighboursOfFacts(ns, cols, rows, ns[d]);
      assert x in NeighboursOf(ns, cols, rows, ns[d]);
      var ms := AddPair(ns, d, t);
      assert Adjacent(ns[d], ns[t]);
      assert ms == ns[d := ns[d].AddEdge(t, 1)][t := ns[t].AddEdge(d, 1)];
      MazeEdgesAddPair(ns, d, t, ms);
    }
  }

  /** Braiding only appends maze edges: cost 1, between grid neighbours, in both directions. */
  lemma {:induction false} BraidMazeEdges(ns: seq<MapNode>, cols: nat, rows: nat, ds: seq<int>, p: real, g: Rng)
    requires IsGrid(ns, cols, rows) && g.Valid() && AllBelow(ds, |ns|)
    ensures MazeEdges(ns, BraidFrom(ns, cols, rows, ds, p, g).0)
    decreases |ds|
  {
    if ds == [] {
      MazeEdgesRefl(ns);
    } else {
      var r := BraidOne(ns, cols, rows, ds[0], p, g);
      BraidOneMazeEdges(ns, cols, rows, ds[0], p, g);
      BraidMazeEdges(r.0, cols, rows, ds[1..], p, r.1);
      MazeEdgesTrans(ns, r.0, BraidFrom(r.0, cols, rows, ds[1..], p, r.1).0);
    }
  }

  /**
   * A pass that is not skipped joins d, in both directions, to a grid
   * neighbour it had no edge to, if there is one, and otherwise changes
   * nothing. With p >= 1 no pass is skipped, since every draw is below 1.
   */
  lemma BraidOneJoins(ns: seq<MapNode>, cols: nat, rows: nat, d: int, p: real, g: Rng)
    requires IsGrid(ns, cols, rows) && g.Valid() && 0 <= d < |ns|
    requires g.Head() <= p || p >= 1.0
    ensures Unconnected(ns[d], NeighboursOf(ns, cols, rows, ns[d])) == [] ==>
              BraidOne(ns, cols, rows, d, p, g) == (ns, g.Tail())
    ensures Unconnected(ns[d], NeighboursOf(ns, cols, rows, ns[d])) != [] ==>
              exists t :: 0 <= t < |ns| && Adjacent(ns[d], ns[t]) && !ns[d].HasEdge(t) &&
                BraidOne(ns, cols, rows, d, p, g) == (AddPair(ns, d, t), g.Tail().Tail())
  {
    var un := Unconnected(ns[d], NeighboursOf(ns, cols, rows, ns[d]));
    if un != [] {
      var x := un[RandomIndex(g.Tail().Head(), |un|)];
      NeighboursOfFacts(ns, cols, rows, ns[d]);
      assert x in NeighboursOf(ns, cols, rows, ns[d]);
      assert ns[x.id] == x;
    }
  }

  /**
   * On a grid of at least 2 x 2, a node with exactly one edge, to a grid
   * neighbour, has a neighbour it is not yet connected to.
   */
  lemma UnconnectedNonEmpty(ns: seq<MapNode>, cols: nat, rows: nat, d: int)
    requires IsGrid(ns, cols, rows) && cols >= 2 && rows >= 2 && 0 <= d < |ns| && |ns[d].edges| == 1
    ensures Unconnected(ns[d], NeighboursOf(ns, cols, rows, ns[d])) != []
  {
    CellOfIndex(d, cols, rows);
    var i, j := ns[d].i, ns[d].j;
    var hi := if i + 1 < cols then i + 1 else i - 1;
    var vj := if j + 1 < rows then j + 1 else j - 1;
    IndexOfCell(hi, j, cols, rows);
    IndexOfCell(i, vj, cols, rows);
    var a, b := Index(hi, j, cols), Index(i, vj, cols);
    NeighboursOfFacts(ns, cols, rows, ns[d]);
    assert Adjacent(ns[d], ns[a]) && Adjacent(ns[d], ns[b]);
    var e := ns[d].edges[0];
    assert ns[d].edges == [e];
    if e.target == a {
      assert !ns[d].HasEdge(ns[b].id);
    } else {
      assert !ns[d].HasEdge(ns[a].id);
    }
  }

  /**
   * The braiding loop exactly as written: a dead end left with no
   * unconnected neighbour indexes an empty list, `rand` is undefined and
   * `rand.addEdge` throws a TypeError, modelled as None.
   */
  function BraidAsWritten(ns: seq<MapNode>, cols: nat, rows: nat, ds: seq<int>, p: real, g: Rng): (r: Option<seq<MapNode>>)
    requires IsGrid(ns, cols, rows) && g.Valid() && AllBelow(ds, |ns|)
    decreases |ds|
  {
    if ds == [] then Some(ns)
    else
      var d := ds[0];
      if g.Head() > p then BraidAsWritten(ns, cols, rows, ds[1..], p, g.Tail())
      else
        var un := Unconnected(ns[d], NeighboursOf(ns, cols, rows, ns[d]));
        var k := RandomIndex(g.Tail().Head(), |un|);
        if k < |un| then
          var t := un[k].id;
          NeighboursOfFacts(ns, cols, rows, ns[d]);
          AddPairGrid(ns, cols, rows, d, t);
          BraidAsWritten(AddPair(ns, d, t), cols, rows, ds[1..], p, g.Tail().Tail())
        else None
  }

  /** Where the loop as written does not throw, the corrected loop gives the same arena. */
  lemma {:induction false} BraidAsWrittenAgrees(ns: seq<MapNode>, cols: nat, rows: nat, ds: seq<int>, p: real, g: Rng)
    requires IsGrid(ns, cols, rows) && g.Valid() && AllBelow(ds, |ns|)
    ensures BraidAsWritten(ns, cols, rows, ds, p, g).Some? ==>
              BraidAsWritten(ns, cols, rows, ds, p, g).value == BraidFrom(ns, cols, rows, ds, p, g).0
    decreases |ds|
  {
    if ds != [] {
      var d := ds[0];
      if g.Head() > p {
        BraidAsWrittenAgrees(ns, cols, rows, ds[1..], p, g.Tail());
      } else {
        var un := Unconnected(ns[d], NeighboursOf(ns, cols, rows, ns[d]));
        var k := RandomIndex(g.Tail().Head(), |un|);
        if k < |un| {
          var t := un[k].id;
          NeighboursOfFacts(ns, cols, rows, ns[d]);
          assert un[k] in NeighboursOf(ns, cols, rows, ns[d]);
          AddPairGrid(ns, cols, rows, d, t);
          BraidAsWrittenAgrees(AddPair(ns, d, t), cols, rows, ds[1..], p, g.Tail().Tail());
        }
      }
    }
  }

  /** The pass of the loop as written for dead end d throws: it is not skipped and d has no unconnected neighbour. */
  predicate BraidThrows(ns: seq<MapNode>, cols: nat, rows: nat, d: int, p: real, g: Rng)
    requires IsGrid(ns, cols, rows) && g.Valid() && 0 <= d < |ns|
  {
    g.Head() <= p && Unconnected(ns[d], NeighboursOf(ns, cols, rows, ns[d])) == []
  }

  /** The loop as written throws at its first pass or continues from the corrected pass's arena and generator. */
  lemma BraidAsWrittenStep(ns: seq<MapNode>, cols: nat, rows: nat, ds: seq<int>, p: real, g: Rng)
    requires IsGrid(ns, cols, rows) && g.Valid() && AllBelow(ds, |ns|) && ds != []
    ensures AllBelow(ds[1..], |ns|)
    ensures BraidThrows(ns, cols, rows, ds[0], p, g) ==> BraidAsWritten(ns, cols, rows, ds, p, g).None?
    ensures !BraidThrows(ns, cols, rows, ds[0], p, g) ==>
              var r := BraidOne(ns, cols, rows, ds[0], p, g);
              BraidAsWritten(ns, cols, rows, ds, p, g) == BraidAsWritten(r.0, cols, rows, ds[1..], p, r.1)
  {
    var d := ds[0];
    var un := Unconnected(ns[d], NeighboursOf(ns, cols, rows, ns[d]));
    if g.Head() <= p && un != [] {
      NeighboursOfFacts(ns, cols, rows, ns[d]);
      assert un[RandomIndex(g.Tail().Head(), |un|)] in NeighboursOf(ns, cols, rows, ns[d]);
    }
  }

  /** Every edge of B that C lacks has an end in `done`. */
  ghost predicate JoinedOnlyAt(C: seq<MapNode>, B: seq<MapNode>, done: seq<int>) {
    |B| == |C| &&
    forall x, y :: 0 <= x < |B| && B[x].HasEdge(y) ==> C[x].HasEdge(y) || x in done || y in done
  }

  /** Joining dead end d to t adds d to the ends that extra edges may have. */
  lemma JoinedOnlyAtStep(C: seq<MapNode>, B: seq<MapNode>, done: seq<int>, d: int, t: int)
    requires JoinedOnlyAt(C, B, done) && 0 <= d < |B| && 0 <= t < |B|
    ensures JoinedOnlyAt(C, AddPair(B, d, t), done + [d])
  {
    AddPairHasEdge(B, d, t);
  }

  /** The edges of `AddPair(ns, d, t)` are those of ns and d → t and t → d. */
  lemma AddPairHasEdge(ns: seq<MapNode>, d: int, t: int)
    requires 0 <= d < |ns| && 0 <= t < |ns|
    ensures forall x, y :: 0 <= x < |ns| && AddPair(ns, d, t)[x].HasEdge(y) ==>
              ns[x].HasEdge(y) || (x == d && y == t) || (x == t && y == d)
  {
    var ms := AddPair(ns, d, t);
    forall x, y | 0 <= x < |ns| && ms[x].HasEdge(y)
      ensures ns[x].HasEdge(y) || (x == d && y == t) || (x == t && y == d)
    {
      var e :| e in ms[x].edges && e.target == y;
      if e in ns[x].edges {
        assert ns[x].HasEdge(y);
      }
    }
  }

  /**
   * A dead end of C whose only extra edges in B come from earlier dead ends
   * has an unconnected neighbour in B, when C's neighbouring dead ends
   * include node 0 and the grid is at least 3 x 3.
   */
  lemma DeadEndHasUnconnected(C: seq<MapNode>, cols: nat, rows: nat, B: seq<MapNode>, t: int)
    requires IsGrid(C, cols, rows) && IsGrid(B, cols, rows) && cols >= 3 && rows >= 3
    requires DeadEndsApart(C, 0) && 0 <= t < |DeadEnds(C)| && JoinedOnlyAt(C, B, DeadEnds(C)[..t])
    ensures Unconnected(B[DeadEnds(C)[t]], NeighboursOf(B, cols, rows, B[DeadEnds(C)[t]])) != []
  {
    var ds := DeadEnds(C);
    var d := ds[t];
    assert d in ds;
    var a, b := TwoNeighboursBesideFirst(C, cols, rows, d);
    OnlyCarvedEdge(C, cols, rows, B, t, a);
    OnlyCarvedEdge(C, cols, rows, B, t, b);
    var e := C[d].edges[0];
    assert C[d].edges == [e];
    NeighboursOfFacts(B, cols, rows, B[d]);
    if B[d].HasEdge(a) {
      assert !B[d].HasEdge(b);
      assert B[b] in Unconnected(B[d], NeighboursOf(B, cols, rows, B[d]));
    } else {
      assert B[a] in Unconnected(B[d], NeighboursOf(B, cols, rows, B[d]));
    }
  }

  /** Every cell of a grid of at least 3 x 3 has two neighbours, neither of them node 0. */
  lemma TwoNeighboursBesideFirst(ns: seq<MapNode>, cols: nat, rows: nat, d: int) returns (a: int, b: int)
    requires IsGrid(ns, cols, rows) && cols >= 3 && rows >= 3 && 0 <= d < |ns|
    ensures 0 < a < |ns| && 0 < b < |ns| && a != b
    ensures Adjacent(ns[d], ns[a]) && Adjacent(ns[d], ns[b])
  {
    CellOfIndex(d, cols, rows);
    var i, j := ns[d].i, ns[d].j;
    var hi := if i + 1 < cols then i + 1 else i - 1;
    var vj := if j + 1 < rows then j + 1 else j - 1;
    IndexOfCell(hi, j, cols, rows);
    IndexOfCell(i, vj, cols, rows);
    a, b := Index(hi, j, cols), Index(i, vj, cols);
    assert ColOf(0, cols) == 0 && RowOf(0, cols) == 0;
  }

  /** The dead end ds[t] is joined in B to a neighbour other than node 0 only by its edge in C. */
  lemma OnlyCarvedEdge(C: seq<MapNode>, cols: nat, rows: nat, B: seq<MapNode>, t: int, a: int)
    requires IsGrid(C, cols, rows) && DeadEndsApart(C, 0)
    requires 0 <= t < |DeadEnds(C)| && JoinedOnlyAt(C, B, DeadEnds(C)[..t])
    requires 0 < a < |C| && Adjacent(C[DeadEnds(C)[t]], C[a])
    ensures B[DeadEnds(C)[t]].HasEdge(a) ==> C[DeadEnds(C)[t]].HasEdge(a)
  {
    var ds := DeadEnds(C);
    var d, done := ds[t], ds[..t];
    assert d in ds;
    forall k | 0 <= k < t
      ensures done[k] != d && done[k] != a
    {
      assert ds[k] in ds && ds[k] < d;
    }
    assert d !in done && a !in done;
  }

  /**
   * From the t-th dead end of C on, the loop as written does not throw on an
   * arena B whose extra edges all come from the earlier dead ends.
   */
  lemma {:induction false} BraidAsWrittenNeverThrowsFrom(C: seq<MapNode>, cols: nat, rows: nat, B: seq<MapNode>,
                                                        t: int, p: real, g: Rng)
    requires IsGrid(C, cols, rows) && IsGrid(B, cols, rows) && cols >= 3 && rows >= 3 && g.Valid()
    requires DeadEndsApart(C, 0) && 0 <= t <= |DeadEnds(C)| && JoinedOnlyAt(C, B, DeadEnds(C)[..t])
    ensures AllBelow(DeadEnds(C)[t..], |B|)
    ensures BraidAsWritten(B, cols, rows, DeadEnds(C)[t..], p, g).Some?
    decreases |DeadEnds(C)| - t
  {
    var ds := DeadEnds(C);
    assert AllBelow(ds[t..], |B|) by {
      forall k | 0 <= k < |ds[t..]|
        ensures 0 <= ds[t..][k] < |B|
      {
        assert ds[t..][k] == ds[t + k];
      }
    }
    if t < |ds| {
      assert ds[t..][0] == ds[t] && ds[t..][1..] == ds[t + 1..];
      BraidAsWrittenStep(B, cols, rows, ds[t..], p, g);
      var r := BraidPassJoins(C, cols, rows, B, t, p, g);
      BraidAsWrittenNeverThrowsFrom(C, cols, rows, r.0, t + 1, p, r.1);
    }
  }

  /**
   * The pass for the t-th dead end of C does not throw on such an arena B,
   * and its extra edges then come from the first t + 1 dead ends.
   */
  lemma BraidPassJoins(C: seq<MapNode>, cols: nat, rows: nat, B: seq<MapNode>, t: int, p: real, g: Rng)
    returns (r: (seq<MapNode>, Rng))
    requires IsGrid(C, cols, rows) && IsGrid(B, cols, rows) && cols >= 3 && rows >= 3 && g.Valid()
    requires DeadEndsApart(C, 0) && 0 <= t < |DeadEnds(C)| && JoinedOnlyAt(C, B, DeadEnds(C)[..t])
    ensures !BraidThrows(B, cols, rows, DeadEnds(C)[t], p, g)
    ensures r == BraidOne(B, cols, rows, DeadEnds(C)[t], p, g)
    ensures JoinedOnlyAt(C, r.0, DeadEnds(C)[..t + 1])
  {
    var ds := DeadEnds(C);
    var d := ds[t];
    assert ds[..t + 1] == ds[..t] + [d];
    r := BraidOne(B, cols, rows, d, p, g);
    if g.Head() <= p {
      DeadEndHasUnconnected(C, cols, rows, B, t);
      var un := Unconnected(B[d], NeighboursOf(B, cols, rows, B[d]));
      var x := un[RandomIndex(g.Tail().Head(), |un|)];
      NeighboursOfFacts(B, cols, rows, B[d]);
      assert x in NeighboursOf(B, cols, rows, B[d]);
      JoinedOnlyAtStep(C, B, ds[..t], d, x.id);
    }
  }

  /**
   * On a grid of at least 3 x 3 carved by `dfsMaze` from node 0, the braiding
   * loop as written never meets a dead end without an unconnected neighbour,
   * so it does not throw and its arena is the corrected loop's.
   */
  lemma BraidAsWrittenNeverThrows(G0: seq<MapNode>, cols: nat, rows: nat, G: seq<MapNode>, V: set<int>, p: real, g: Rng)
    requires IsGrid(G0, cols, rows) && NoEdges(G0) && cols >= 3 && rows >= 3
    requires DfsPost(G0, {}, 0, G, V) && DfsShape(G0, {}, 0, G, V) && forall k :: k in V ==> 0 <= k < |G0|
    requires g.Valid()
    ensures IsGrid(G, cols, rows)
    ensures BraidAsWritten(G, cols, rows, DeadEnds(G), p, g).Some?
    ensures BraidAsWritten(G, cols, rows, DeadEnds(G), p, g).value == BraidFrom(G, cols, rows, DeadEnds(G), p, g).0
  {
    EdgesGrowGrid(G0, G, cols, rows);
    DfsDeadEndsApart(G0, cols, rows, 0, G, V);
    BraidAsWrittenNeverThrowsFrom(G, cols, rows, G, 0, p, g);
    assert DeadEnds(G)[0..] == DeadEnds(G);
    BraidAsWrittenAgrees(G, cols, rows, DeadEnds(G), p, g);
  }

  /**
   * A braided maze carved on a fresh grid keeps every node reachable from the
   * root, and all its edges are maze edges.
   */
  lemma BraidedMazeConnected(G0: seq<MapNode>, cols: nat, rows: nat, root: int, G: seq<MapNode>, V: set<int>,
                             p: real, g: Rng)
    requires IsGrid(G0, cols, rows) && NoEdges(G0) && 0 <= root < |G0|
    requires DfsPost(G0, {}, root, G, V) && forall u :: u in V ==> 0 <= u < |G0|
    requires g.Valid()
    ensures IsGrid(G, cols, rows)
    ensures var B := BraidFrom(G, cols, rows, DeadEnds(G), p, g).0;
      MazeEdges(G0, B) && forall u :: 0 <= u < |G0| ==> Reachable(B, root, u)
  {
    EdgesGrowGrid(G0, G, cols, rows);
    var B := BraidFrom(G, cols, rows, DeadEnds(G), p, g).0;
    DfsSpanningTree(G0, cols, rows, root, G, V);
    BraidMazeEdges(G, cols, rows, DeadEnds(G), p, g);
    MazeEdgesTrans(G0, G, B);
    forall u | 0 <= u < |G0|
      ensures Reachable(B, root, u)
    {
      ReachableGrow(G, B, root, u);
    }
  }

  class MazeGenerator {
    const graph: MapGraph
    var visited: set<int>
    /** The source of `Math.random()` draws. */
    var rng: Rng

    ghost predicate Valid()
      reads this, graph
    {
      graph.Valid() && rng.Valid() && forall k :: k in visited ==> 0 <= k < |graph.nodes|
    }

    /** `node` is a node of the graph: its id names a graph node at the same cell. */
    ghost predicate IsNodeOf(node: MapNode)
      reads this, graph
    {
      0 <= node.id < |graph.nodes| && graph.nodes[node.id].i == node.i && graph.nodes[node.id].j == node.j
    }

    constructor(graph: MapGraph, rng: Rng)
      ensures this.graph == graph && visited == {} && this.rng == rng
    {
      this.graph := graph;
      visited := {};
      this.rng := rng;
    }

    /** `getNeighbours(node)`: the graph's nodes west, east, north and south of `node` that exist. */
    method GetNeighbours(node: MapNode) returns (neighbours: seq<MapNode>)
      requires graph.Valid()
      ensures neighbours == NeighboursOf(graph.nodes, graph.cols, graph.rows, node)
      ensures NeighbourNodes(graph.nodes, graph.cols, graph.rows, node, neighbours)
      ensures forall k :: 0 <= k < |neighbours| ==> Adjacent(node, neighbours[k])
      ensures forall w :: 0 <= w < |graph.nodes| && Adjacent(node, graph.nodes[w]) ==>
                exists k :: 0 <= k < |neighbours| && neighbours[k].id == w
    {
      neighbours := [];
      for d := 0 to |Directions|
        invariant NeighbourNodesUpTo(graph.nodes, graph.cols, graph.rows, node, d, neighbours)
      {
        var dir := Directions[d];
        var nextI := node.i + dir.0;
        var nextJ := node.j + dir.1;
        var found := [];
        if 0 <= nextI < graph.cols && 0 <= nextJ < graph.rows {
          var neighbour := graph.GetAt(nextI, nextJ);
          found := [neighbour.value];
        }
        NeighbourNodesUpToStep(graph.nodes, graph.cols, graph.rows, node, d, neighbours, found);
        neighbours := neighbours + found;
      }
      assert Directions[..|Directions|] == Directions;
      NeighbourNodesExact(graph.nodes, graph.cols, graph.rows, node, neighbours);
      NeighbourNodesAre(graph.nodes, graph.cols, graph.rows, node, neighbours);
    }

    /** `shuffle(array)`: Fisher–Yates, from the last position down to position 1. */
    method Shuffle<T>(a: array<T>)
      requires rng.Valid()
      modifies a, this`rng
      ensures a[..] == ShuffleFrom(old(a[..]), a.Length - 1, old(rng))
      ensures rng.Valid() && rng.draw == old(rng.draw)
      ensures rng.pos == old(rng.pos) + if a.Length > 0 then a.Length - 1 else 0
    {
      ghost var s0, g0 := a[..], rng;
      ghost var target := ShuffleFrom(s0, a.Length - 1, g0);
      var i := a.Length - 1;
      while i > 0
        invariant -1 <= i < a.Length && (a.Length > 0 ==> 0 <= i)
        invariant rng.Valid() && rng.draw == g0.draw && rng.pos == g0.pos + a.Length - 1 - i
        invariant ShuffleFrom(a[..], i, rng) == target
        decreases i
      {
        var j := RandomIndex(rng.Head(), i + 1);
        ghost var g := rng;
        ghost var before := a[..];
        rng := rng.Tail();
        SwapInPlace(a, i, j);
        ShuffleStep(before, i, g);
        i := i - 1;
      }
    }

    /**
     * `dfsMaze(node)`: marks the node visited, then takes its neighbours in
     * shuffled order and, for each one not yet visited, carves a two-way edge
     * of cost 1 to it and continues from there.
     */
    method DfsMaze(node: MapNode)
      requires Valid() && IsNodeOf(node)
      modifies this, graph
      ensures Valid()
      ensures DfsPost(old(graph.nodes), old(visited), node.id, graph.nodes, visited)
      ensures DfsShape(old(graph.nodes), old(visited), node.id, graph.nodes, visited)
      ensures rng.draw == old(rng.draw) && old(rng.pos) <= rng.pos
      decreases Ids(|graph.nodes|) - visited, if node.id in visited then 4 else 0
    {
      ghost var G0, V0, v := graph.nodes, visited, node.id;
      visited := visited + {node.id};
      CarvingStart(G0, V0, v);
      var arr, neighbours := ShuffledNeighbours(node);
      assert Ids(|graph.nodes|) - visited <= Ids(|graph.nodes|) - old(visited);
      VisitNeighbours(node, arr, neighbours, G0, V0);
      CarvingEnd(G0, V0, v, graph.nodes, visited, node, neighbours, arr[..]);
    }

    /** `let neighbours = this.getNeighbours(node); this.shuffle(neighbours);` */
    method ShuffledNeighbours(node: MapNode) returns (arr: array<MapNode>, neighbours: seq<MapNode>)
      requires Valid()
      modifies this`rng
      ensures fresh(arr) && Valid()
      ensures NeighbourNodes(graph.nodes, graph.cols, graph.rows, node, neighbours)
      ensures forall k :: 0 <= k < |neighbours| ==> Adjacent(node, neighbours[k])
      ensures forall w :: 0 <= w < |graph.nodes| && Adjacent(node, graph.nodes[w]) ==>
                exists k :: 0 <= k < |neighbours| && neighbours[k].id == w
      ensures multiset(arr[..]) == multiset(neighbours)
      ensures rng.draw == old(rng.draw) && old(rng.pos) <= rng.pos
    {
      neighbours := GetNeighbours(node);
      arr := new MapNode[|neighbours|](k requires 0 <= k < |neighbours| => neighbours[k]);
      assert arr[..] == neighbours;
      ghost var g := rng;
      Shuffle(arr);
      ShufflePermutes(neighbours, |neighbours| - 1, g);
    }

    /** The loop of `dfsMaze` over the shuffled neighbours of `node`. */
    method VisitNeighbours(node: MapNode, arr: array<MapNode>, ghost neighbours: seq<MapNode>,
                           ghost G0: seq<MapNode>, ghost V0: set<int>)
      requires Valid() && IsNodeOf(node) && node.id in visited
      requires Carving(G0, V0, node.id, graph.nodes, visited)
      requires NeighbourNodes(G0, graph.cols, graph.rows, node, neighbours)
      requires forall k :: 0 <= k < |neighbours| ==> Adjacent(node, neighbours[k])
      requires multiset(arr[..]) == multiset(neighbours)
      modifies this, graph
      ensures Valid() && |graph.nodes| == old(|graph.nodes|)
      ensures Carving(G0, V0, node.id, graph.nodes, visited)
      ensures IdsOf(arr[..]) <= visited
      ensures rng.draw == old(rng.draw) && old(rng.pos) <= rng.pos
      decreases Ids(|graph.nodes|) - visited, 3
    {
      ghost var order := arr[..];
      ghost var v := node.id;
      NeighbourOrder(G0, graph.cols, graph.rows, node, neighbours, order);
      for t := 0 to arr.Length
        invariant Valid() && |graph.nodes| == old(|graph.nodes|)
        invariant Carving(G0, V0, v, graph.nodes, visited)
        invariant IdsOf(order[..t]) <= visited
        invariant old(visited) <= visited
        invariant rng.draw == old(rng.draw) && old(rng.pos) <= rng.pos
        modifies this, graph
      {
        var n := arr[t];
        assert n == order[t];
        VisitNeighbour(node, n, G0, V0);
        IdsOfSnoc(order, t);
      }
      assert order[..arr.Length] == order;
    }

    /** The body of `dfsMaze`'s loop for the neighbour n: carve to it unless it is visited. */
    method VisitNeighbour(node: MapNode, n: MapNode, ghost G0: seq<MapNode>, ghost V0: set<int>)
      requires Valid() && IsNodeOf(node) && Adjacent(node, n)
      requires 0 <= n.id < |G0| && G0[n.id] == n
      requires Carving(G0, V0, node.id, graph.nodes, visited)
      modifies this, graph
      ensures Valid() && |graph.nodes| == old(|graph.nodes|)
      ensures Carving(G0, V0, node.id, graph.nodes, visited)
      ensures old(visited) + {n.id} <= visited
      ensures rng.draw == old(rng.draw) && old(rng.pos) <= rng.pos
      decreases Ids(|graph.nodes|) - visited, 2
    {
      if n.id !in visited {
        CarveTo(node, n, G0, V0);
      }
    }

    /**
     * The body of `dfsMaze`'s loop for an unvisited neighbour n:
     * `node.addEdge(n, 1); n.addEdge(node, 1); this.dfsMaze(n)`.
     */
    method CarveTo(node: MapNode, n: MapNode, ghost G0: seq<MapNode>, ghost V0: set<int>)
      requires Valid() && IsNodeOf(node) && Adjacent(node, n) && n.id !in visited
      requires 0 <= n.id < |G0| && G0[n.id] == n
      requires DfsLoop(G0, V0, node.id, graph.nodes, visited) && DfsShape(G0, V0, node.id, graph.nodes, visited)
      modifies this, graph
      ensures Valid() && |graph.nodes| == old(|graph.nodes|)
      ensures DfsLoop(G0, V0, node.id, graph.nodes, visited) && DfsShape(G0, V0, node.id, graph.nodes, visited)
      ensures old(visited) + {n.id} <= visited
      ensures rng.draw == old(rng.draw) && old(rng.pos) <= rng.pos
      decreases Ids(|graph.nodes|) - visited, 1
    {
      ghost var Gb, Vb, v, w := graph.nodes, visited, node.id, n.id;
      assert Gb[w] == G0[w].(edges := Gb[w].edges);
      assert Adjacent(Gb[v], Gb[w]);
      graph.AddEdge(node.id, n.id, 1);
      graph.AddEdge(n.id, node.id, 1);
      ghost var Gc := graph.nodes;
      assert Gc == Gb[v := Gb[v].AddEdge(w, 1)][w := Gb[w].AddEdge(v, 1)];
      DfsMaze(n);
      DfsLoopStep(G0, V0, v, Gb, Vb, Gc, graph.nodes, visited, w);
      DfsShapeStep(G0, V0, v, Gb, Vb, Gc, graph.nodes, visited, w);
    }

    /**
     * `braidedMaze(node, probability)`: carves a maze with `dfsMaze(node)`,
     * then joins each dead end, unless skipped with probability
     * 1 - `probability`, to a random grid neighbour it has no edge to. ok is
     * false where the source throws: a dead end it does not skip has no such
     * neighbour left, so `rand` is `undefined`. Otherwise the arena is what
     * the loop as written and the corrected loop both give.
     */
    method BraidedMaze(node: MapNode, probability: real) returns (ok: bool, ghost carved: seq<MapNode>, ghost afterDfs: Rng)
      requires Valid() && IsNodeOf(node)
      modifies this, graph
      ensures Valid()
      ensures DfsPost(old(graph.nodes), old(visited), node.id, carved, visited)
      ensures DfsShape(old(graph.nodes), old(visited), node.id, carved, visited)
      ensures IsGrid(carved, graph.cols, graph.rows) && afterDfs.Valid()
      ensures afterDfs.draw == old(rng.draw) && old(rng.pos) <= afterDfs.pos && rng.draw == old(rng.draw)
      ensures ok <==> BraidAsWritten(carved, graph.cols, graph.rows, DeadEnds(carved), probability, afterDfs).Some?
      ensures ok ==> graph.nodes == BraidAsWritten(carved, graph.cols, graph.rows, DeadEnds(carved), probability, afterDfs).value
      ensures ok ==> (graph.nodes, rng) == BraidFrom(carved, graph.cols, graph.rows, DeadEnds(carved), probability, afterDfs)
    {
      DfsMaze(node);
      carved, afterDfs := graph.nodes, rng;
      var deadEnds := DeadEnds(graph.nodes);
      ok := BraidDeadEnds(deadEnds, probability);
    }

    /** The loop of `braidedMaze` over the dead ends ds; ok is false where the source throws. */
    method BraidDeadEnds(ds: seq<int>, probability: real) returns (ok: bool)
      requires Valid() && AllBelow(ds, |graph.nodes|)
      modifies this`rng, graph
      ensures Valid()
      ensures ok <==> BraidAsWritten(old(graph.nodes), graph.cols, graph.rows, ds, probability, old(rng)).Some?
      ensures ok ==> graph.nodes == BraidAsWritten(old(graph.nodes), graph.cols, graph.rows, ds, probability, old(rng)).value
      ensures ok ==> (graph.nodes, rng) == BraidFrom(old(graph.nodes), graph.cols, graph.rows, ds, probability, old(rng))
      ensures rng.draw == old(rng.draw)
    {
      ghost var G, g := graph.nodes, rng;
      for t := 0 to |ds|
        invariant Valid() && |graph.nodes| == |G|
        invariant BraidFrom(graph.nodes, graph.cols, graph.rows, ds[t..], probability, rng) ==
                  BraidFrom(G, graph.cols, graph.rows, ds, probability, g)
        invariant BraidAsWritten(graph.nodes, graph.cols, graph.rows, ds[t..], probability, rng) ==
                  BraidAsWritten(G, graph.cols, graph.rows, ds, probability, g)
        invariant rng.draw == g.draw
      {
        BraidAsWrittenStep(graph.nodes, graph.cols, graph.rows, ds[t..], probability, rng);
        var passed := BraidDeadEnd(ds[t], probability);
        if !passed {
          return false;
        }
        assert ds[t..][1..] == ds[t + 1..];
      }
      ok := true;
    }

    /**
     * One pass of the loop of `braidedMaze`, for the dead end with id d; ok
     * is false where the source throws, after both draws.
     */
    method BraidDeadEnd(d: int, probability: real) returns (ok: bool)
      requires Valid() && 0 <= d < |graph.nodes|
      modifies this`rng, graph
      ensures Valid()
      ensures ok <==> !BraidThrows(old(graph.nodes), graph.cols, graph.rows, d, probability, old(rng))
      ensures ok ==> (graph.nodes, rng) == BraidOne(old(graph.nodes), graph.cols, graph.rows, d, probability, old(rng))
      ensures !ok ==> graph.nodes == old(graph.nodes) && rng == old(rng).Tail().Tail()
    {
      ghost var G := graph.nodes;
      var r := rng.Head();
      rng := rng.Tail();
      if r > probability {
        return true;
      }
      var node := graph.Get(d).value;
      var neighbours := GetNeighbours(node);
      var unconnected := Unconnected(node, neighbours);
      var k := RandomIndex(rng.Head(), |unconnected|);
      rng := rng.Tail();
      if k >= |unconnected| {
        return false;
      }
      var rand := unconnected[k];
      assert node == G[d] && node.id == d && rand in NeighboursOf(G, graph.cols, graph.rows, G[d]);
      NeighboursOfFacts(G, graph.cols, graph.rows, node);
      assert 0 <= rand.id < |G|;
      graph.AddEdge(node.id, rand.id, 1);
      graph.AddEdge(rand.id, node.id, 1);
      assert graph.nodes == AddPair(G, d, rand.id);
      ok := true;
    }
  }
}
