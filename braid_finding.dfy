/**
 * A 2 x 2 maze on which the braiding loop of `braidedMaze`, as written,
 * indexes an empty list of unconnected neighbours.
 */
module BraidFinding {
  import opened Wrappers
  import opened Rng
  import opened MapNode
  import opened MapGraph
  import opened MazeGenerator

  /** The four nodes of a fresh 2 x 2 maze graph. */
  function Fresh2x2(): seq<MapNode> {
    [MapNode(0, 0, 0, Ground, []), MapNode(1, 1, 0, Ground, []),
     MapNode(2, 0, 1, Ground, []), MapNode(3, 1, 1, Ground, [])]
  }

  /**
   * The 2 x 2 maze `dfsMaze(node 0)` carves when the shuffles put east before
   * south at node 0 and south before west at node 1: the path 0-1-3-2.
   */
  function Carved2x2(): seq<MapNode> {
    [MapNode(0, 0, 0, Ground, [Edge(1, 1)]), MapNode(1, 1, 0, Ground, [Edge(0, 1), Edge(3, 1)]),
     MapNode(2, 0, 1, Ground, [Edge(3, 1)]), MapNode(3, 1, 1, Ground, [Edge(1, 1), Edge(2, 1)])]
  }

  /** Carved2x2 after `braidedMaze` joined its dead end 0 to dead end 2. */
  function Braided2x2(): seq<MapNode> {
    [MapNode(0, 0, 0, Ground, [Edge(1, 1), Edge(2, 1)]), MapNode(1, 1, 0, Ground, [Edge(0, 1), Edge(3, 1)]),
     MapNode(2, 0, 1, Ground, [Edge(3, 1), Edge(0, 1)]), MapNode(3, 1, 1, Ground, [Edge(1, 1), Edge(2, 1)])]
  }

  /** Node k of a 2 x 2 arena whose nodes have these ids and coordinates sits at cell k. */
  lemma Cells2x2(ns: seq<MapNode>)
    requires |ns| == 4
    requires ns[0].id == 0 && ns[0].i == 0 && ns[0].j == 0
    requires ns[1].id == 1 && ns[1].i == 1 && ns[1].j == 0
    requires ns[2].id == 2 && ns[2].i == 0 && ns[2].j == 1
    requires ns[3].id == 3 && ns[3].i == 1 && ns[3].j == 1
    ensures IsGrid(ns, 2, 2)
  {
    assert ColOf(0, 2) == 0 && ColOf(1, 2) == 1 && ColOf(2, 2) == 0 && ColOf(3, 2) == 1;
    assert RowOf(0, 2) == 0 && RowOf(1, 2) == 0 && RowOf(2, 2) == 1 && RowOf(3, 2) == 1;
  }

  lemma Grids2x2()
    ensures IsGrid(Fresh2x2(), 2, 2) && NoEdges(Fresh2x2())
    ensures IsGrid(Carved2x2(), 2, 2) && IsGrid(Braided2x2(), 2, 2)
  {
    Cells2x2(Fresh2x2());
    Cells2x2(Carved2x2());
    Cells2x2(Braided2x2());
  }

  /** The carved maze has the six directed edges of a spanning tree of four nodes. */
  lemma Carved2x2Total()
    ensures TotalEdges(Carved2x2()) == 6
  {
    var G := Carved2x2();
    assert G[..1][..0] == [];
    assert G[..2][..1] == G[..1];
    assert G[..3][..2] == G[..2];
    assert G[..3] == G[..|G| - 1];
    assert TotalEdges(G[..1]) == 1;
    assert TotalEdges(G[..2]) == 3;
    assert TotalEdges(G[..3]) == 4;
  }

  /** The carved edges are maze edges: cost 1, between neighbours, each with its reverse. */
  lemma Carved2x2Edges()
    ensures MazeEdges(Fresh2x2(), Carved2x2())
  {
    var G0, G := Fresh2x2(), Carved2x2();
    assert EdgesGrow(G0, G) by {
      assert forall k :: 0 <= k < 4 ==> G0[k].edges == [];
    }
    forall u, e | 0 <= u < |G0| && e in Added(G0, G, u)
      ensures e.cost == 1 && 0 <= e.target < |G0| && Adjacent(G0[u], G0[e.target]) &&
        Edge(u, 1) in Added(G0, G, e.target)
    {
      if u == 0 {
        assert Added(G0, G, 0) == [Edge(1, 1)];
        assert Added(G0, G, 1) == [Edge(0, 1), Edge(3, 1)];
      } else if u == 1 {
        assert Added(G0, G, 1) == [Edge(0, 1), Edge(3, 1)];
        assert Added(G0, G, 0) == [Edge(1, 1)];
        assert Added(G0, G, 3) == [Edge(1, 1), Edge(2, 1)];
      } else if u == 2 {
        assert Added(G0, G, 2) == [Edge(3, 1)];
        assert Added(G0, G, 3) == [Edge(1, 1), Edge(2, 1)];
      } else {
        assert Added(G0, G, 3) == [Edge(1, 1), Edge(2, 1)];
        assert Added(G0, G, 1) == [Edge(0, 1), Edge(3, 1)];
        assert Added(G0, G, 2) == [Edge(3, 1)];
      }
    }
  }

  /** Every node of the carved maze is reachable from node 0 along 0-1-3-2. */
  lemma Carved2x2Reachable()
    ensures forall u :: u in {0, 1, 2, 3} ==> Reachable(Carved2x2(), 0, u)
  {
    var G := Carved2x2();
    assert G[0].HasEdge(1) by { assert G[0].edges[0] == Edge(1, 1); }
    assert G[1].HasEdge(3) by { assert G[1].edges[1] == Edge(3, 1); }
    assert G[3].HasEdge(2) by { assert G[3].edges[1] == Edge(2, 1); }
    ReachableSelf(G, 2);
    ReachableStep(G, 3, 2, 2);
    ReachableStep(G, 1, 3, 2);
    ReachableStep(G, 0, 1, 2);
    ReachableSelf(G, 3);
    ReachableStep(G, 1, 3, 3);
    ReachableStep(G, 0, 1, 3);
    ReachableSelf(G, 1);
    ReachableStep(G, 0, 1, 1);
    ReachableSelf(G, 0);
  }

  /**
   * Carved2x2 is an outcome `dfsMaze` from node 0 may give on the fresh 2 x 2
   * grid: it meets both DfsPost and DfsShape.
   */
  lemma Carved2x2IsDfsOutcome()
    ensures IsGrid(Fresh2x2(), 2, 2) && NoEdges(Fresh2x2())
    ensures DfsPost(Fresh2x2(), {}, 0, Carved2x2(), {0, 1, 2, 3})
    ensures DfsShape(Fresh2x2(), {}, 0, Carved2x2(), {0, 1, 2, 3})
  {
    var G0, G := Fresh2x2(), Carved2x2();
    var V: set<int> := {0, 1, 2, 3};
    Grids2x2();
    Carved2x2Shape();
    assert MazeEdges(G0, G) by { Carved2x2Edges(); }
    assert forall u :: u in V && (u !in {} || u == 0) ==> Covered(G, u, V) by { Carved2x2Covered(); }
    assert forall u :: u in V && u !in {} ==> Reachable(G, 0, u) by { Carved2x2Reachable(); }
    assert TotalEdges(G) == TotalEdges(G0) + 2 * |V - ({} + {0})| by {
      Carved2x2Total();
      NoEdgesTotal(G0);
      NewlyVisited2x2();
    }
  }

  /**
   * The shape `dfsMaze` promises: node 0 has gained an edge, and node 2 is the
   * only single-edge node other than the root, so no two such nodes are adjacent.
   */
  lemma Carved2x2Shape()
    ensures DfsShape(Fresh2x2(), {}, 0, Carved2x2(), {0, 1, 2, 3})
  {
    var G := Carved2x2();
    assert |G[1].edges| == 2 && |G[3].edges| == 2;
    forall u, w | 0 <= u < 4 && 0 <= w < 4 && u != 0 && w != 0 && Adjacent(G[u], G[w])
      ensures |G[u].edges| != 1 || |G[w].edges| != 1
    {
      assert u != w;
    }
  }

  /** Three of the four nodes are visited by the recursion below node 0. */
  lemma NewlyVisited2x2()
    ensures |{0, 1, 2, 3} - ({} + {0})| == 3
  {
    var V: set<int> := {0, 1, 2, 3};
    assert V - ({} + {0}) == {1, 2, 3};
    assert {1, 2, 3} == {1, 2} + {3} && {1, 2} == {1} + {2};
  }

  /** Every node of the 2 x 2 arena has all its neighbours among the four. */
  lemma Carved2x2Covered()
    ensures forall u :: u in {0, 1, 2, 3} ==> Covered(Carved2x2(), u, {0, 1, 2, 3})
  {
  }

  /** The dead ends of a four-node arena, node by node. */
  lemma DeadEndsOf4(ns: seq<MapNode>)
    requires |ns| == 4
    ensures DeadEnds(ns) ==
      (if |ns[0].edges| == 1 then [0] else []) + (if |ns[1].edges| == 1 then [1] else []) +
      (if |ns[2].edges| == 1 then [2] else []) + (if |ns[3].edges| == 1 then [3] else [])
  {
    var e0 := if |ns[0].edges| == 1 then [0] else [];
    var e1 := if |ns[1].edges| == 1 then [1] else [];
    var e2 := if |ns[2].edges| == 1 then [2] else [];
    var e3 := if |ns[3].edges| == 1 then [3] else [];
    assert ns[..3][..2] == ns[..2] && ns[..2][..1] == ns[..1] && ns[..1][..0] == [];
    assert ns[..1][0] == ns[0] && ns[..2][1] == ns[1] && ns[..3][2] == ns[2];
    DeadEndsLast(ns[..1]);
    assert DeadEnds(ns[..1]) == [] + e0 == e0;
    DeadEndsLast(ns[..2]);
    assert DeadEnds(ns[..2]) == e0 + e1;
    DeadEndsLast(ns[..3]);
    assert DeadEnds(ns[..3]) == e0 + e1 + e2;
    assert ns[..|ns| - 1] == ns[..3];
    DeadEndsLast(ns);
  }

  /** DeadEnds, one node at a time from the back. */
  lemma DeadEndsLast(ns: seq<MapNode>)
    requires ns != []
    ensures DeadEnds(ns) == DeadEnds(ns[..|ns| - 1]) + (if |ns[|ns| - 1].edges| == 1 then [|ns| - 1] else [])
  {
  }

  /** The dead ends of the carved maze are its two path ends, 0 and 2. */
  lemma Carved2x2DeadEnds()
    ensures DeadEnds(Carved2x2()) == [0, 2]
  {
    var G := Carved2x2();
    DeadEndsOf4(G);
    assert |G[0].edges| == 1 && |G[1].edges| == 2 && |G[2].edges| == 1 && |G[3].edges| == 2;
  }

  /** The grid neighbours of a corner (i, j) of a 2 x 2 arena: across the row, then across the column. */
  lemma CornerNeighbours(ns: seq<MapNode>, node: MapNode)
    requires IsGrid(ns, 2, 2) && 0 <= node.i < 2 && 0 <= node.j < 2
    ensures NeighboursOf(ns, 2, 2, node) ==
              [ns[Index(1 - node.i, node.j, 2)], ns[Index(node.i, 1 - node.j, 2)]]
  {
    var i, j := node.i, node.j;
    var cells := NeighbourCells(i, j, 2, 2);
    NeighbourCellsInOrder(i, j, 2, 2);
    assert cells == [(1 - i, j), (i, 1 - j)];
    CellNodesAt(ns, 2, 2, cells, 0);
    CellNodesAt(ns, 2, 2, cells, 1);
  }

  /** Dead end 0 of the carved maze has one unconnected neighbour, node 2. */
  lemma Carved2x2FirstDeadEnd()
    ensures IsGrid(Carved2x2(), 2, 2)
    ensures Unconnected(Carved2x2()[0], NeighboursOf(Carved2x2(), 2, 2, Carved2x2()[0])) == [Carved2x2()[2]]
  {
    var G := Carved2x2();
    Grids2x2();
    CornerNeighbours(G, G[0]);
    assert G[0].HasEdge(1) by { assert G[0].edges[0] == Edge(1, 1); }
    assert !G[0].HasEdge(2) by { assert G[0].edges == [Edge(1, 1)]; }
    assert [G[1], G[2]][..1] == [G[1]] && [G[1]][..0] == [];
  }

  /** Once joined to node 0, dead end 2 of the braided maze has no unconnected neighbour. */
  lemma Braided2x2SecondDeadEnd()
    ensures IsGrid(Braided2x2(), 2, 2)
    ensures Unconnected(Braided2x2()[2], NeighboursOf(Braided2x2(), 2, 2, Braided2x2()[2])) == []
  {
    var G := Braided2x2();
    Grids2x2();
    CornerNeighbours(G, G[2]);
    assert G[2].HasEdge(3) by { assert G[2].edges[0] == Edge(3, 1); }
    assert G[2].HasEdge(0) by { assert G[2].edges[1] == Edge(0, 1); }
    assert [G[3], G[0]][..1] == [G[3]] && [G[3]][..0] == [];
  }

  /** Braided2x2 is Carved2x2 with the edges 0 -> 2 and 2 -> 0 appended. */
  lemma Braided2x2IsPair()
    ensures AddPair(Carved2x2(), 0, 2) == Braided2x2()
  {
    var ns, bs := Carved2x2(), Braided2x2();
    var ms := AddPair(ns, 0, 2);
    assert ms == ns[0 := ns[0].AddEdge(2, 1)][2 := ns[2].AddEdge(0, 1)];
    assert |ms| == |bs| == 4;
    assert ms[0] == bs[0] && ms[1] == bs[1] && ms[2] == bs[2] && ms[3] == bs[3];
  }

  /** A dead end whose only unconnected neighbour is t is joined to t by the loop as written. */
  lemma JoinOnlyNeighbourAsWritten(ns: seq<MapNode>, cols: nat, rows: nat, ds: seq<int>, t: int, g: Rng)
    requires IsGrid(ns, cols, rows) && g.Valid() && AllBelow(ds, |ns|) && ds != [] && 0 <= t < |ns|
    requires Unconnected(ns[ds[0]], NeighboursOf(ns, cols, rows, ns[ds[0]])) == [ns[t]]
    ensures AllBelow(ds[1..], |ns|) && IsGrid(AddPair(ns, ds[0], t), cols, rows)
    ensures BraidAsWritten(ns, cols, rows, ds, 1.0, g) ==
              BraidAsWritten(AddPair(ns, ds[0], t), cols, rows, ds[1..], 1.0, g.Tail().Tail())
  {
    var un := Unconnected(ns[ds[0]], NeighboursOf(ns, cols, rows, ns[ds[0]]));
    assert g.Head() <= 1.0;
    assert RandomIndex(g.Tail().Head(), |un|) == 0;
    assert un[0].id == t;
    AddPairGrid(ns, cols, rows, ds[0], t);
  }

  /** The same dead end is joined to t by the corrected loop. */
  lemma JoinOnlyNeighbour(ns: seq<MapNode>, cols: nat, rows: nat, ds: seq<int>, t: int, g: Rng)
    requires IsGrid(ns, cols, rows) && g.Valid() && AllBelow(ds, |ns|) && ds != [] && 0 <= t < |ns|
    requires Unconnected(ns[ds[0]], NeighboursOf(ns, cols, rows, ns[ds[0]])) == [ns[t]]
    ensures AllBelow(ds[1..], |ns|) && IsGrid(AddPair(ns, ds[0], t), cols, rows)
    ensures BraidFrom(ns, cols, rows, ds, 1.0, g) ==
              BraidFrom(AddPair(ns, ds[0], t), cols, rows, ds[1..], 1.0, g.Tail().Tail())
  {
    assert ds[0] in ds;
    BraidOneOnlyNeighbour(ns, cols, rows, ds[0], t, g);
    AddPairGrid(ns, cols, rows, ds[0], t);
  }

  /** The one braiding step that joins a dead end to its only unconnected neighbour. */
  lemma BraidOneOnlyNeighbour(ns: seq<MapNode>, cols: nat, rows: nat, d: int, t: int, g: Rng)
    requires IsGrid(ns, cols, rows) && g.Valid() && 0 <= d < |ns| && 0 <= t < |ns|
    requires Unconnected(ns[d], NeighboursOf(ns, cols, rows, ns[d])) == [ns[t]]
    ensures BraidOne(ns, cols, rows, d, 1.0, g) == (AddPair(ns, d, t), g.Tail().Tail())
  {
    var un := Unconnected(ns[d], NeighboursOf(ns, cols, rows, ns[d]));
    assert g.Head() <= 1.0;
    assert RandomIndex(g.Tail().Head(), |un|) == 0;
    assert un[0].id == t;
  }

  /** A dead end with no unconnected neighbour throws in the loop as written and is skipped in the corrected one. */
  lemma NoUnconnectedNeighbour(ns: seq<MapNode>, cols: nat, rows: nat, ds: seq<int>, g: Rng)
    requires IsGrid(ns, cols, rows) && g.Valid() && AllBelow(ds, |ns|) && ds != []
    requires Unconnected(ns[ds[0]], NeighboursOf(ns, cols, rows, ns[ds[0]])) == []
    ensures AllBelow(ds[1..], |ns|)
    ensures BraidAsWritten(ns, cols, rows, ds, 1.0, g).None?
    ensures BraidFrom(ns, cols, rows, ds, 1.0, g) == BraidFrom(ns, cols, rows, ds[1..], 1.0, g.Tail())
  {
  }

  /**
   * On the carved maze, with probability 1, the loop as written throws: dead
   * end 0 is joined to its only unconnected neighbour, dead end 2, which is
   * then left with none.
   */
  lemma BraidAsWrittenThrowsOn2x2(g: Rng)
    requires g.Valid()
    ensures IsGrid(Carved2x2(), 2, 2) && DeadEnds(Carved2x2()) == [0, 2]
    ensures BraidAsWritten(Carved2x2(), 2, 2, [0, 2], 1.0, g).None?
  {
    Carved2x2DeadEnds();
    Carved2x2FirstDeadEnd();
    Braided2x2SecondDeadEnd();
    Braided2x2IsPair();
    assert [0, 2][1..] == [2];
    JoinOnlyNeighbourAsWritten(Carved2x2(), 2, 2, [0, 2], 2, g);
    NoUnconnectedNeighbour(Braided2x2(), 2, 2, [2], g.Tail().Tail());
  }

  /** The corrected loop on the same maze joins 0 to 2 and then skips dead end 2. */
  lemma BraidFromOn2x2(g: Rng)
    requires g.Valid()
    ensures BraidFrom(Carved2x2(), 2, 2, [0, 2], 1.0, g) == (Braided2x2(), g.Tail().Tail().Tail())
  {
    BraidFromOn2x2First(g);
    BraidFromOn2x2Second(g.Tail().Tail());
  }

  lemma BraidFromOn2x2First(g: Rng)
    requires g.Valid()
    ensures IsGrid(Carved2x2(), 2, 2) && IsGrid(Braided2x2(), 2, 2)
    ensures BraidFrom(Carved2x2(), 2, 2, [0, 2], 1.0, g) == BraidFrom(Braided2x2(), 2, 2, [2], 1.0, g.Tail().Tail())
  {
    var ds := [0, 2];
    assert ds[0] == 0 && ds[1..] == [2];
    assert AllBelow(ds, |Carved2x2()|);
    Grids2x2();
    Carved2x2FirstDeadEnd();
    Braided2x2IsPair();
    JoinOnlyNeighbour(Carved2x2(), 2, 2, ds, 2, g);
  }

  lemma BraidFromOn2x2Second(g: Rng)
    requires g.Valid()
    ensures IsGrid(Braided2x2(), 2, 2)
    ensures BraidFrom(Braided2x2(), 2, 2, [2], 1.0, g) == (Braided2x2(), g.Tail())
  {
    Braided2x2SecondDeadEnd();
    assert [2][1..] == [];
    NoUnconnectedNeighbour(Braided2x2(), 2, 2, [2], g);
  }

}
