/**
 * The three GameMap variants: world bounds and a tile size fix the grid, a
 * generator carves it, and `localize`/`quantize` convert between nodes and
 * world positions. Rendering is not modelled.
 */
module GameMap {
  import opened Wrappers
  import opened Rng
  import opened MapNode
  import opened MapGraph
  import opened MazeGenerator
  import DungeonGenerator

  /** A `THREE.Vector3`. */
  datatype Vec3 = Vec3(x: real, y: real, z: real)

  /** The x/z extent of `bounds` and the tile size; y plays no part. */
  datatype MapConfig = MapConfig(minX: real, minZ: real, maxX: real, maxZ: real, tileSize: real)

  /** maze-gen: bounds (-100, -100)..(100, 100), tiles of 10. */
  const MazeGenConfig := MapConfig(-100.0, -100.0, 100.0, 100.0, 10.0)

  /** feb-13 controller: the same bounds and tile size. */
  const ControllerConfig := MapConfig(-100.0, -100.0, 100.0, 100.0, 10.0)

  /** dungeon-gen: bounds (-150, -100)..(150, 100), tiles of 5. */
  const DungeonConfig := MapConfig(-150.0, -100.0, 150.0, 100.0, 5.0)

  /** `worldSize.x / tileSize` as maze-gen and dungeon-gen compute it: a real quotient. */
  function ColsQuotient(c: MapConfig): real
    requires c.tileSize != 0.0
  {
    (c.maxX - c.minX) / c.tileSize
  }

  /** `worldSize.z / tileSize`. */
  function RowsQuotient(c: MapConfig): real
    requires c.tileSize != 0.0
  {
    (c.maxZ - c.minZ) / c.tileSize
  }

  /** The fixed bounds give whole quotients: 20 by 20 for maze-gen, 60 by 40 for dungeon-gen. */
  lemma Dimensions()
    ensures ColsQuotient(MazeGenConfig) == 20.0 && RowsQuotient(MazeGenConfig) == 20.0
    ensures ColsQuotient(DungeonConfig) == 60.0 && RowsQuotient(DungeonConfig) == 40.0
    ensures ColsQuotient(ControllerConfig).Floor == 20 && RowsQuotient(ControllerConfig).Floor == 20
  {
  }

  /** `localize(node)`: the centre of the node's tile, at height `tileSize`. */
  function Localize(c: MapConfig, node: MapNode): (r: Vec3)
    ensures r.y == c.tileSize
    ensures c.tileSize != 0.0 ==> InTile(r.x - c.minX, c.tileSize, node.i) && InTile(r.z - c.minZ, c.tileSize, node.j)
  {
    var r := Vec3(c.minX + node.i as real * c.tileSize + c.tileSize / 2.0,
                  c.tileSize,
                  c.minZ + node.j as real * c.tileSize + c.tileSize / 2.0);
    assert c.tileSize != 0.0 ==> InTile(r.x - c.minX, c.tileSize, node.i) && InTile(r.z - c.minZ, c.tileSize, node.j) by {
      if c.tileSize != 0.0 {
        TileCentre(node.i, c.tileSize);
        TileCentre(node.j, c.tileSize);
        assert r.x - c.minX == node.i as real * c.tileSize + c.tileSize / 2.0;
        assert r.z - c.minZ == node.j as real * c.tileSize + c.tileSize / 2.0;
      }
    }
    r
  }

  /** `localize` of each node of a list of ids. */
  function LocalizeAll(c: MapConfig, ns: seq<MapNode>, ids: seq<int>): (r: seq<Vec3>)
    requires forall k :: 0 <= k < |ids| ==> 0 <= ids[k] < |ns|
    ensures |r| == |ids|
    ensures forall k :: 0 <= k < |ids| ==> r[k] == Localize(c, ns[ids[k]])
  {
    if ids == [] then [] else [Localize(c, ns[ids[0]])] + LocalizeAll(c, ns, ids[1..])
  }

  /** An offset d from the bounds' minimum lies in tile k of size t along one axis. */
  predicate InTile(d: real, t: real, k: int)
    requires t != 0.0
  {
    k as real <= d / t < (k + 1) as real
  }

  /** `Math.floor((v - min) / tileSize)`: the tile of a coordinate along one axis. */
  function TileIndex(v: real, min: real, tileSize: real): (k: int)
    requires tileSize != 0.0
    ensures InTile(v - min, tileSize, k)
  {
    ((v - min) / tileSize).Floor
  }

  /** A coordinate lies in exactly one tile: the tile that holds it is the one `TileIndex` names. */
  lemma TileIndexUnique(v: real, min: real, tileSize: real, k: int)
    requires tileSize != 0.0 && InTile(v - min, tileSize, k)
    ensures TileIndex(v, min, tileSize) == k
  {
  }

  /** A tile index whose tile meets [0, n · t) lies in [0, n). */
  lemma TileInRange(d: real, t: real, k: int, n: int)
    requires t > 0.0
    ensures InTile(d, t, k) && 0.0 <= d < n as real * t ==> 0 <= k < n
  {
    DivBounds(d, t, n as real);
  }

  lemma DivBounds(d: real, t: real, b: real)
    requires t > 0.0
    ensures 0.0 <= d ==> 0.0 <= d / t
    ensures d < b * t ==> d / t < b
  {
    assert d == (d / t) * t;
  }

  /** The centre of tile i lies inside tile i. */
  lemma TileCentre(i: int, t: real)
    requires t != 0.0
    ensures InTile(i as real * t + t / 2.0, t, i)
  {
    var x := i as real * t + t / 2.0;
    var y := i as real + 0.5;
    assert y * t == x;
    assert x / t == y;
  }

  /**
   * `quantize(location)`: the node `getAt` gives for the tile of the
   * location's x and z. On a valid graph a location inside the grid yields the
   * node whose tile holds it.
   */
  function Quantize(c: MapConfig, graph: MapGraph, location: Vec3): (r: Option<MapNode>)
    requires c.tileSize != 0.0
    reads graph
    ensures graph.Valid() && c.tileSize > 0.0 &&
            c.minX <= location.x < c.minX + graph.cols as real * c.tileSize &&
            c.minZ <= location.z < c.minZ + graph.rows as real * c.tileSize ==>
              r.Some? && InTile(location.x - c.minX, c.tileSize, r.value.i) &&
              InTile(location.z - c.minZ, c.tileSize, r.value.j)
    ensures graph.Valid() && r.Some? ==> 0 <= r.value.id < |graph.nodes| && graph.nodes[r.value.id] == r.value
  {
    var nodeI := TileIndex(location.x, c.minX, c.tileSize);
    var nodeJ := TileIndex(location.z, c.minZ, c.tileSize);
    if c.tileSize > 0.0 then
      TileInRange(location.x - c.minX, c.tileSize, nodeI, graph.cols);
      TileInRange(location.z - c.minZ, c.tileSize, nodeJ, graph.rows);
      graph.GetAt(nodeI, nodeJ)
    else
      graph.GetAt(nodeI, nodeJ)
  }

  /** `quantize(localize(n))` is n for every node of a valid graph. */
  lemma QuantizeLocalize(c: MapConfig, graph: MapGraph, k: int)
    requires graph.Valid() && c.tileSize > 0.0 && 0 <= k < |graph.nodes|
    ensures Quantize(c, graph, Localize(c, graph.nodes[k])) == Some(graph.nodes[k])
  {
    var n := graph.nodes[k];
    var p := Localize(c, n);
    CellOfIndex(k, graph.cols, graph.rows);
    TileIndexUnique(p.x, c.minX, c.tileSize, n.i);
    TileIndexUnique(p.z, c.minZ, c.tileSize, n.j);
    assert 0 <= n.i < graph.cols && 0 <= n.j < graph.rows && n.id == k;
  }

  /** Two locations in the same tile quantize to the same node, whatever their heights. */
  lemma QuantizeSameTile(c: MapConfig, graph: MapGraph, a: Vec3, b: Vec3, i: int, j: int)
    requires c.tileSize > 0.0
    requires InTile(a.x - c.minX, c.tileSize, i) && InTile(b.x - c.minX, c.tileSize, i)
    requires InTile(a.z - c.minZ, c.tileSize, j) && InTile(b.z - c.minZ, c.tileSize, j)
    ensures Quantize(c, graph, a) == Quantize(c, graph, b) == graph.GetAt(i, j)
  {
    TileIndexUnique(a.x, c.minX, c.tileSize, i);
    TileIndexUnique(b.x, c.minX, c.tileSize, i);
    TileIndexUnique(a.z, c.minZ, c.tileSize, j);
    TileIndexUnique(b.z, c.minZ, c.tileSize, j);
  }

  /** A JavaScript value as `===` compares it: a number, a node, or `undefined`. */
  datatype Value = Number(n: real) | Node(node: MapNode) | Undefined

  /** What `getAt` hands back, as a JavaScript value. */
  function ValueOf(cell: Option<MapNode>): Value {
    match cell
    case Some(n) => Node(n)
    case None => Undefined
  }

  /**
   * feb-13 `isWall(x, z)`, with the graph's `width`, `height` and the
   * `getAt(x, z)` result given: outside the bounds it is a wall, and inside
   * it compares a node or `undefined` with the number 0, which never holds.
   */
  function IsWall(x: int, z: int, width: int, height: int, cell: Option<MapNode>): (b: bool)
    ensures b <==> x < 0 || x >= width || z < 0 || z >= height
  {
    if x < 0 || x >= width || z < 0 || z >= height then true
    else ValueOf(cell) == Number(0.0)
  }

  /** Every edge of an arena costs at least 1. */
  ghost predicate PositiveCosts(ns: seq<MapNode>) {
    forall k, e {:trigger e in ns[k].edges} :: 0 <= k < |ns| && e in ns[k].edges ==> e.cost >= 1
  }

  /** A maze carved from an edge-less arena has only edges of cost 1. */
  lemma MazeCosts(G0: seq<MapNode>, G: seq<MapNode>)
    requires NoEdges(G0) && MazeEdges(G0, G)
    ensures PositiveCosts(G)
  {
    forall k, e | 0 <= k < |G| && e in G[k].edges
      ensures e.cost >= 1
    {
      assert G0[k].edges == [];
      assert Added(G0, G, k) == G[k].edges;
    }
  }

  class GameMap {
    const config: MapConfig
    const graph: MapGraph

    /** A valid graph whose edges all cost at least 1, and a positive tile size. */
    ghost predicate Valid()
      reads graph
    {
      graph.Valid() && config.tileSize > 0.0 && PositiveCosts(graph.nodes)
    }

    /**
     * The maze-gen and feb-13 constructors: a 20 by 20 Ground graph carved by
     * `braidedMaze(mapGraph.get(0), 1)`. On this grid the braiding loop as
     * written does not throw, and the result joins node 0 to every node.
     */
    constructor Maze(c: MapConfig, rng: Rng)
      requires c == MazeGenConfig || c == ControllerConfig
      requires rng.Valid()
      ensures config == c && Valid() && graph.cols == 20 && graph.rows == 20
      ensures forall u :: 0 <= u < |graph.nodes| ==> Reachable(graph.nodes, 0, u)
    {
      config := c;
      var g := new MapGraph.Ground(20, 20);
      graph := g;
      new;
      ghost var G0 := g.nodes;
      assert NoEdges(G0);
      var generator := new MazeGenerator(g, rng);
      var root := g.Get(0).value;
      var ok, carved, afterDfs := generator.BraidedMaze(root, 1.0);
      BraidAsWrittenNeverThrows(G0, 20, 20, carved, generator.visited, 1.0, afterDfs);
      assert ok;
      BraidedMazeConnected(G0, 20, 20, 0, carved, generator.visited, 1.0, afterDfs);
      MazeCosts(G0, g.nodes);
    }


    /**
     * The dungeon-gen constructor: a 60 by 40 Obstacle graph carved by
     * `new DungeonGenerator(mapGraph, 6).generate()`; with rooms of at least 6
     * on a grid of that size, no tile is missing, so the generation completes
     * and builds the edges, all of cost 1.
     */
    constructor Dungeon(rng: Rng)
      requires rng.Valid()
      ensures config == DungeonConfig && Valid() && graph.cols == 60 && graph.rows == 40
      ensures JoinsNeighbours(graph.nodes)
    {
      config := DungeonConfig;
      var g := new MapGraph.Obstacle(60, 40);
      graph := g;
      new;
      ghost var G0 := g.nodes;
      assert NoEdges(G0);
      var generator := new DungeonGenerator.DungeonGenerator(g, 6);
      var ok, _, _, _, carved := generator.Generate(rng);
      DungeonGenerator.FlippedValid(G0, carved, 60, 40);
      CreateEdgesKeepsGrid(carved, 60, 40);
      CreateEdgesJoinsNeighbours(carved, 60, 40);
    }
  }
}
