# Zombie game core, modelled in Dafny

This project models the algorithmic layer of a three.js zombie game, which exists in several snapshots: maze-gen, dungeon-gen, the feb-13 controller and zombie-game. Models of these parts verify:

- **World grid.** A `MapNode` has typed tiles and weighted edges. A `MapGraph` is a `cols × rows` arena of nodes with `get`/`getAt`, `createNodes` and `createEdges`. The three `GameMap` variants fix the world bounds, derive the grid from them and convert between tiles and world positions with `localize`/`quantize`. The feb-13 variant adds `isWall`.
- **Maze generation** (zombie-game `MazeGenerator`). Neighbour listing, the Fisher–Yates `shuffle`, recursive-backtracker `dfsMaze`, and `braidedMaze`, which adds loops at dead ends.
- **Dungeon generation** (dungeon-gen). `Partition` is a binary space partition. `DungeonGenerator` places one room per leaf and joins the rooms with a nearest-pair spanning tree of connections. It carves an L-shaped corridor for each connection, then builds the edges. `Rect` and `MathUtil` supply centres, random integers and Manhattan distance.
- **Path finding.** The feb-13 `MinHeap`, a binary min-heap of `[node, priority]` pairs with remove-before-enqueue. The zombie-game `PathFinder`, an A* search with a Manhattan heuristic and predecessor-walk path reconstruction.
- **Zombie behaviour.** Three variants are modelled:
  - the single-class feb-13 `ZombieState` machine;
  - the feb-13 state objects (`ZombieBaseState`, `ZombieStates`, `ZombieStateManager`);
  - the zombie-game state objects with the ground-plane distance, the damage cooldown and player damage.
- **Health.** The feb-13 player `HealthManager` clamps health between 0 and 100. The time-gated `Health/HealthManager` deals 10 damage at most once per 500 ms. The `HealthPack` is a one-shot latch.

How the model represents the source:

- **Randomness.** `Math.random()` is an explicit stream `Rng`: an infinite sequence of draws in [0, 1) and a position. Every random choice in the model consumes that stream in the order the source calls `Math.random()`.
- **Graph nodes.** Nodes live in an arena (`seq<MapNode>`). An edge names its target by id, and the id is the target's index.
- **Mutable objects.** Objects the source mutates are Dafny classes whose methods are proved equal to pure step functions: `Step`, `Tick`, `BraidFrom`, `WithGridEdges`, `PrimTree`. The properties are then proved about those functions.
- **Thrown errors.** Where the source throws, the model returns an explicit failure: `Option`, or `ok == false`. `braidedMaze` returns `ok == false` exactly where its loop as written throws. On the game's own 20 × 20 call it is proved never to do so.
- **External inputs.** Euclidean distances (`distanceTo`, the ground-plane `Math.sqrt`), `Date.now()` and per-frame `deltaTime` are parameters.

Source paths below are relative to the repository root. `feb-13` stands for `controller-resources-starter-feb-13`.

## Model

| member | source | states |
|---|---|---|
| MathUtil.GetRandomInt | dungeon-gen-source-apr-1/js/Util/MathUtil.js:6-8 | `floor(r·(max−min)) + min` for a draw r in [0,1): in [min, max) when min < max, equal to min when max == min, and in [max, min] when max < min |
| MathUtil.ManhattanDistance | dungeon-gen-source-apr-1/js/Util/MathUtil.js:11-13 | non-negative; zero exactly when the two vectors are equal; bounds each axis difference |
| MathUtil.ManhattanSymmetric | dungeon-gen-source-apr-1/js/Util/MathUtil.js:11-13 | the distance does not depend on argument order |
| MathUtil.ManhattanTriangle | dungeon-gen-source-apr-1/js/Util/MathUtil.js:11-13 | the distance obeys the triangle inequality |
| Rect.Rect.GetCenter | dungeon-gen-source-apr-1/js/Util/Rect.js:17-22 | the centre of a rectangle with both sides ≥ 1 lies inside it |
| Rect.CenterIsFloorOfHalf | dungeon-gen-source-apr-1/js/Util/Rect.js:17-22 | the integer centre equals `Math.floor(x + w/2)`, `Math.floor(y + h/2)` computed in real arithmetic |
| Rect.FloorHalf | dungeon-gen-source-apr-1/js/Util/Rect.js:19-20 | the real floor of a + b/2 is a + b div 2 for integers a, b |
| MapNode.NewMapNode | maze-gen-source-mar-27/js/World/MapNode.js:9-16 | a new node carries the given id, cell and type and no edges |
| MapNode.MapNode.AddEdge | maze-gen-source-mar-27/js/World/MapNode.js:19-21 | appends `{node, cost}` to the edge list without a duplicate check; id, cell and type unchanged |
| MapNode.MapNode.TryAddEdge | maze-gen-source-mar-27/js/World/MapNode.js:31-35 | appends the edge exactly when the target is Ground, otherwise leaves the edges as they were |
| MapNode.Find | maze-gen-source-mar-27/js/World/MapNode.js:44-46 | the index of the first edge satisfying the predicate, or the length when none does |
| MapNode.FindEdge | maze-gen-source-mar-27/js/World/MapNode.js:44-46 | `find`: None exactly when no edge matches; otherwise the first matching edge |
| MapNode.MapNode.GetEdge | maze-gen-source-mar-27/js/World/MapNode.js:44-46 | None exactly when no edge has that target; otherwise the first edge with it |
| MapNode.MapNode.HasEdge | maze-gen-source-mar-27/js/World/MapNode.js:38-40 | true exactly when some edge has that target |
| MapNode.MapNode.GetEdgeTo | maze-gen-source-mar-27/js/World/MapNode.js:49-51 | None exactly when no edge's target sits at (i, j); otherwise the first edge, in list order, whose target sits there |
| MapNode.MapNode.HasEdgeTo | maze-gen-source-mar-27/js/World/MapNode.js:54-56 | true exactly when some edge's target sits at (i, j) |
| MapGraph.MapGraph.Ground | zombie-game/js/World/MapGraph.js:8-21 | the zombie-game graph: a valid cols × rows grid whose node k is a Ground node at column k mod cols, row k div cols, with no edges |
| MapGraph.MapGraph.Obstacle | dungeon-gen-source-apr-1/js/World/MapGraph.js:8-21 | the dungeon-gen graph: the same grid of Obstacle nodes; its `createEdges` adds nothing |
| MapGraph.MapGraph.CreateNodes | zombie-game/js/World/MapGraph.js:40-54 | appends cols·rows nodes row by row, each with id equal to its index and its cell in row-major order; earlier nodes unchanged |
| MapGraph.MapGraph.CreateEdges | dungeon-gen-source-apr-1/js/World/MapGraph.js:57-93 | the nodes become `WithGridEdges` of the old ones; a valid graph stays valid |
| MapGraph.MapGraph.CreateRowEdges | dungeon-gen-source-apr-1/js/World/MapGraph.js:62-91 | after row j every node up to the end of that row has its final edges and later nodes are untouched |
| MapGraph.MapGraph.CreateEdgesAt | dungeon-gen-source-apr-1/js/World/MapGraph.js:64-90 | the traversable node at (i, j) gains edges to its traversable west, east, north and south neighbours, in that order |
| MapGraph.WithGridEdgesSameKinds | dungeon-gen-source-apr-1/js/World/MapGraph.js:57-93 | building the edges keeps every node's id, cell and type |
| MapGraph.NothingToJoin | dungeon-gen-source-apr-1/js/World/MapGraph.js:69 | on a grid with no traversable node, building the edges changes nothing |
| MapGraph.CreatedEdge | dungeon-gen-source-apr-1/js/World/MapGraph.js:69-89 | on an edge-less grid, node u gets an edge to w exactly when both are traversable and orthogonally adjacent |
| MapGraph.CreateEdgesOnBareGrid | dungeon-gen-source-apr-1/js/World/MapGraph.js:57-93 | on an edge-less grid, `HasEdge` holds after `createEdges` exactly between traversable orthogonal neighbours |
| MapGraph.CreateEdgesJoinsNeighbours | dungeon-gen-source-apr-1/js/World/MapGraph.js:57-93 | after `createEdges` on an edge-less grid every pair of traversable neighbours is joined |
| MapGraph.CreateEdgesSymmetric | dungeon-gen-source-apr-1/js/World/MapGraph.js:57-93 | those edges go both ways |
| MapGraph.CreateEdgesKeepsGrid | dungeon-gen-source-apr-1/js/World/MapGraph.js:71-89 | every edge added has cost 1 and a target inside the arena |
| MapGraph.CreateEdgesTwiceDuplicates | dungeon-gen-source-apr-1/js/World/MapGraph.js:57-93 | calling `createEdges` a second time appends every edge again (no duplicate check) |
| MapGraph.IndexOfCell | zombie-game/js/World/MapGraph.js:29-31 | `j·cols + i` of a cell inside the grid is an in-range index whose column and row are (i, j) |
| MapGraph.CellOfIndex | zombie-game/js/World/MapGraph.js:44-50 | an in-range index k is the index of cell (k mod cols, k div cols) |
| MapGraph.Neighbours | dungeon-gen-source-apr-1/js/World/MapGraph.js:71-89 | the west, east, north and south index offsets name the cells one step away when inside the grid |
| MapGraph.MapGraph.Get | zombie-game/js/World/MapGraph.js:24-26 | Some exactly for an index in range, and then the node at that index |
| MapGraph.MapGraph.GetAt | zombie-game/js/World/MapGraph.js:29-31 | Some exactly when `j·cols + i` is in range; on a valid graph a cell inside the grid yields the node at that cell |
| MapGraph.MapGraph.GetAtWrapsToNextRow | zombie-game/js/World/MapGraph.js:29-31 | `getAt` has no column check: column `cols` of row j is the first node of row j + 1 |
| MapGraph.MapGraph.Length | zombie-game/js/World/MapGraph.js:34-36 | the number of nodes; cols·rows on a valid graph |
| MapGraph.MapGraph.AddEdge | maze-gen-source-mar-27/js/World/MapNode.js:19-21 | the node with that id gets the edge appended and no other node changes; validity kept for an in-range target |
| GameMap.Dimensions | maze-gen-source-mar-27/js/World/GameMap.js:15-31 | maze-gen bounds with tile 10 give 20 × 20; dungeon-gen bounds with tile 5 give 60 × 40; feb-13 floors give 20 × 20 |
| GameMap.Localize | maze-gen-source-mar-27/js/World/GameMap.js:55-60 | `localize(node)` is at height `tileSize` and lies in the node's tile on x and z |
| GameMap.LocalizeAll | zombie-game/js/Pathfinding/PathFinder.js:83-87 | localizes each node of an id list, in order |
| GameMap.TileIndex | maze-gen-source-mar-27/js/World/GameMap.js:65-66 | `Math.floor((v - min) / tileSize)` names the tile that holds v |
| GameMap.TileIndexUnique | maze-gen-source-mar-27/js/World/GameMap.js:65-66 | a coordinate lies in exactly one tile |
| GameMap.TileInRange | maze-gen-source-mar-27/js/World/GameMap.js:65-66 | a coordinate inside the bounds yields a tile index inside the grid |
| GameMap.TileCentre | maze-gen-source-mar-27/js/World/GameMap.js:55-60 | the centre of tile i lies in tile i |
| GameMap.Quantize | maze-gen-source-mar-27/js/World/GameMap.js:63-68 | on a valid graph a location inside the grid yields the node whose tile holds it, and any node yielded is the arena's own |
| GameMap.QuantizeLocalize | dungeon-gen-source-apr-1/js/World/GameMap.js:52-65 | `quantize(localize(n))` is n for every node of a valid graph |
| GameMap.QuantizeSameTile | controller-resources-starter-feb-13/js/World/GameMap.js:63-68 | two locations in the same tile quantize to the same node, whatever their heights |
| GameMap.IsWall | controller-resources-starter-feb-13/js/World/GameMap.js:70-75 | `isWall` is true exactly outside the bounds; inside, the comparison of a node or `undefined` with 0 never holds |
| GameMap.MazeCosts | zombie-game/js/World/MazeGenerator.js:53-54 | a maze carved from an edge-less arena has only edges of cost at least 1 |
| GameMap.GameMap.Maze | maze-gen-source-mar-27/js/World/GameMap.js:12-50 | the maze-gen / feb-13 map is a valid 20 × 20 graph from which every node is reachable from node 0; the body asserts that `braidedMaze(get(0), 1)` returns ok (does not throw) on this grid, which that reachability rests on |
| GameMap.GameMap.Dungeon | dungeon-gen-source-apr-1/js/World/GameMap.js:10-46 | the dungeon-gen map is a valid 60 × 40 graph with edge costs of at least 1, on which every pair of traversable neighbours is joined |
| MazeGenerator.StepCells | zombie-game/js/World/MazeGenerator.js:15-27 | the cells reached by the direction offsets, at most one per offset, all inside the grid |
| MazeGenerator.NeighbourCellsInOrder | zombie-game/js/World/MazeGenerator.js:15-27 | the neighbour cells are west, east, north, south in that order, each when inside the grid |
| MazeGenerator.NeighbourCellsAdjacent | zombie-game/js/World/MazeGenerator.js:15-27 | a cell is a neighbour exactly when inside the grid at Manhattan distance 1; at most four neighbours |
| MazeGenerator.MazeGenerator.GetNeighbours | zombie-game/js/World/MazeGenerator.js:10-29 | returns exactly the graph nodes adjacent to the node, in direction order, each one the arena's node at that cell |
| MazeGenerator.RandomIndex | zombie-game/js/World/MazeGenerator.js:34 | `Math.floor(r·n)` is an index in [0, n) for n > 0 |
| MazeGenerator.SwapInPlace | zombie-game/js/World/MazeGenerator.js:35-37 | the array becomes the old one with positions i and j exchanged |
| MazeGenerator.ShuffleFrom | zombie-game/js/World/MazeGenerator.js:32-39 | the shuffle's result keeps the length and is the identity when the loop starts at 0 |
| MazeGenerator.ShuffleStep | zombie-game/js/World/MazeGenerator.js:33-38 | one step exchanges position i with a drawn position in [0, i] and continues at i − 1 with the next draw |
| MazeGenerator.ShufflePermutes | zombie-game/js/World/MazeGenerator.js:32-39 | the shuffle is a permutation (same multiset) |
| MazeGenerator.MazeGenerator.Shuffle | zombie-game/js/World/MazeGenerator.js:32-39 | the array becomes `ShuffleFrom` of its old contents and consumes length − 1 draws |
| MazeGenerator.MazeEdgesAddPair | zombie-game/js/World/MazeGenerator.js:53-54 | joining two adjacent nodes both ways adds exactly two cost-1 maze edges |
| MazeGenerator.ReachableGrow | zombie-game/js/World/MazeGenerator.js:53-54 | adding edges keeps every reachable node reachable |
| MazeGenerator.ClosedIsAll | zombie-game/js/World/MazeGenerator.js:42-58 | a set of grid nodes holding the root and every neighbour of its members is the whole grid |
| MazeGenerator.MazeGenerator.DfsMaze | zombie-game/js/World/MazeGenerator.js:42-58 | `dfsMaze` visits every neighbour of each node it visits, carves two maze edges per newly visited node, and makes each newly visited node reachable from its start; it changes only the start and newly visited nodes, gives the start an edge when it visits anything new, and leaves no two adjacent newly visited nodes other than the start both with a single edge; the generator only moves forward in the same draw stream |
| MazeGenerator.MazeGenerator.VisitNeighbours | zombie-game/js/World/MazeGenerator.js:51-57 | the loop over the shuffled neighbours leaves every one of them visited; the generator only moves forward in the same draw stream |
| MazeGenerator.MazeGenerator.CarveTo | zombie-game/js/World/MazeGenerator.js:52-56 | carving to an unvisited neighbour and recursing keeps the DFS invariant and visits it; the generator only moves forward in the same draw stream |
| MazeGenerator.MazeGenerator.VisitNeighbour | zombie-game/js/World/MazeGenerator.js:52-56 | one iteration of the neighbour loop keeps the DFS loop state and leaves that neighbour visited, whether or not it was visited before; the generator only moves forward in the same draw stream |
| MazeGenerator.CarvingEnd | zombie-game/js/World/MazeGenerator.js:51-58 | once every shuffled neighbour is visited, the loop state is everything `dfsMaze` promises |
| MazeGenerator.FrameStep | zombie-game/js/World/MazeGenerator.js:53-55 | after carving to a new neighbour and recursing, the start has gained an edge and every node that was visited before or is still unvisited is unchanged |
| MazeGenerator.LeavesApartStep | zombie-game/js/World/MazeGenerator.js:53-55 | after carving to a new neighbour and recursing, two adjacent newly visited nodes other than the start are not both single-edge nodes |
| MazeGenerator.AddPairHasEdge | zombie-game/js/World/MazeGenerator.js:80-81 | joining d and t both ways adds no edges besides d → t and t → d |
| MazeGenerator.DfsSpanningTree | zombie-game/js/World/MazeGenerator.js:42-58 | on an edge-less grid `dfsMaze(root)` visits every node, carves exactly 2(N − 1) directed edges, and reaches every node from the root |
| MazeGenerator.DfsRevisitAddsNothing | zombie-game/js/World/MazeGenerator.js:43-57 | once every node is visited, `dfsMaze` from any node leaves the arena and the visited set unchanged |
| MazeGenerator.DeadEnds | zombie-game/js/World/MazeGenerator.js:67 | exactly the ids of the nodes with one edge, in increasing order |
| MazeGenerator.Unconnected | zombie-game/js/World/MazeGenerator.js:75 | exactly the neighbours the node has no edge to |
| MazeGenerator.AddPairGrid | zombie-game/js/World/MazeGenerator.js:80-81 | joining two nodes both ways keeps the grid shape |
| MazeGenerator.BraidOne | zombie-game/js/World/MazeGenerator.js:70-83 | one pass of the braiding loop keeps the grid shape and only advances the position in the same draw sequence |
| MazeGenerator.BraidFrom | zombie-game/js/World/MazeGenerator.js:70-83 | the braiding loop over the dead ends keeps the grid shape and only advances the position in the same draw sequence |
| MazeGenerator.BraidOneJoins | zombie-game/js/World/MazeGenerator.js:71-81 | when the probability draw lets the pass through, a dead end with an unconnected neighbour is joined both ways to one such adjacent node, using two draws; one without only uses the first draw and changes nothing |
| MazeGenerator.BraidMazeEdges | zombie-game/js/World/MazeGenerator.js:70-83 | braiding only appends cost-1 edges between grid neighbours, each with its reverse |
| MazeGenerator.UnconnectedNonEmpty | zombie-game/js/World/MazeGenerator.js:74-77 | on a grid of at least 2 × 2 a node with exactly one edge has a neighbour it is not connected to |
| MazeGenerator.BraidAsWrittenAgrees | zombie-game/js/World/MazeGenerator.js:70-83 | where the loop as written does not throw, it gives the same arena as the corrected loop |
| MazeGenerator.BraidedMazeConnected | zombie-game/js/World/MazeGenerator.js:61-86 | after `braidedMaze` on a fresh grid every node is still reachable from the root, and all edges are maze edges |
| MazeGenerator.MazeGenerator.BraidedMaze | zombie-game/js/World/MazeGenerator.js:61-86 | runs `dfsMaze` to its postcondition; ok is false exactly when the loop as written throws on the carved maze's dead ends (`BraidAsWritten` is None); otherwise the arena is the loop as written's result, and the arena and generator are `BraidFrom` over those dead ends; the generator the braiding starts from is the one `dfsMaze` left, later in the same draw stream, and the final generator reads the same stream |
| MazeGenerator.MazeGenerator.BraidDeadEnd | zombie-game/js/World/MazeGenerator.js:70-82 | ok is false exactly where the pass as written throws (`BraidThrows`: not skipped, no unconnected neighbour); otherwise the pass equals `BraidOne` on the arena and generator |
| MazeGenerator.MazeGenerator.BraidDeadEnds | zombie-game/js/World/MazeGenerator.js:70-83 | the loop over the dead ends stops with ok false exactly when the loop as written throws; otherwise it leaves the arena as the loop as written does, and the arena and generator as `BraidFrom`; the generator reads the same draw stream, whether or not the loop throws |
| MazeGenerator.BraidAsWrittenStep | zombie-game/js/World/MazeGenerator.js:70-83 | the loop as written throws at its first pass exactly as `BraidThrows` says, and otherwise continues from `BraidOne`'s arena and generator |
| MazeGenerator.DfsShapeStep | zombie-game/js/World/MazeGenerator.js:51-57 | carving to an unvisited neighbour and recursing keeps the frame (nodes other than the start and the newly visited are unchanged) and keeps adjacent newly visited single-edge nodes apart |
| MazeGenerator.DfsDeadEndsApart | zombie-game/js/World/MazeGenerator.js:42-58 | in a maze carved by `dfsMaze` on an edge-less grid, two adjacent dead ends always include the root |
| MazeGenerator.TwoNeighboursBesideFirst | zombie-game/js/World/MazeGenerator.js:74 | on a grid of at least 3 × 3 every node has two distinct neighbours, neither of them node 0 |
| MazeGenerator.OnlyCarvedEdge | zombie-game/js/World/MazeGenerator.js:70-81 | a dead end is joined to a neighbour other than node 0 only by its carved edge while the earlier passes have run |
| MazeGenerator.DeadEndHasUnconnected | zombie-game/js/World/MazeGenerator.js:74-77 | after the earlier passes, each dead end of a `dfsMaze` maze from node 0 on a grid of at least 3 × 3 still has an unconnected neighbour |
| MazeGenerator.BraidPassJoins | zombie-game/js/World/MazeGenerator.js:70-82 | under the same conditions the pass for the next dead end does not throw, and its new edges end at a dead end already passed |
| MazeGenerator.JoinedOnlyAtStep | zombie-game/js/World/MazeGenerator.js:80-81 | joining a dead end both ways adds it to the ends that the edges added since carving may have |
| MazeGenerator.BraidAsWrittenNeverThrowsFrom | zombie-game/js/World/MazeGenerator.js:70-83 | from any dead end on, the loop as written does not throw on such an arena |
| MazeGenerator.BraidAsWrittenNeverThrows | zombie-game/js/World/MazeGenerator.js:61-86 | on a grid of at least 3 × 3 carved by `dfsMaze` from node 0, the loop as written never throws and its arena is `BraidFrom`'s |
| BraidFinding.Carved2x2IsDfsOutcome | zombie-game/js/World/MazeGenerator.js:42-58 | the 2 × 2 maze used by the finding satisfies both parts of the `dfsMaze` postcondition from node 0: `DfsPost` (coverage, two edges per new node, reachability) and `DfsShape` (frame, root gains an edge, dead ends apart) |
| BraidFinding.Carved2x2Shape | zombie-game/js/World/MazeGenerator.js:42-58 | the 2 × 2 maze meets `DfsShape` from node 0: the root gained an edge, and no two adjacent non-root nodes are both dead ends |
| BraidFinding.Carved2x2DeadEnds | zombie-game/js/World/MazeGenerator.js:67 | its dead ends are nodes 0 and 2 |
| BraidFinding.NoUnconnectedNeighbour | zombie-game/js/World/MazeGenerator.js:74-81 | a dead end with no unconnected neighbour makes the loop as written throw, while the corrected loop skips it |
| BraidFinding.BraidAsWrittenThrowsOn2x2 | zombie-game/js/World/MazeGenerator.js:74-81 | with probability 1 the loop as written throws on the 2 × 2 maze |
| BraidFinding.BraidFromOn2x2 | zombie-game/js/World/MazeGenerator.js:70-83 | the corrected loop braids the same input to the 2 × 2 grid with node 0 joined to 2 |
| Partition.Partition.GetLeaves | dungeon-gen-source-apr-1/js/World/Partition.js:19-27 | at least one leaf, and every element is a leaf |
| Partition.SplitRect | dungeon-gen-source-apr-1/js/World/Partition.js:30-68 | `split(minSize)` keeps the rectangle; it stays a leaf exactly when both sides are below 2·minSize; a side that alone can be cut is cut; every split cuts along one axis into children of at least minSize there |
| Partition.LeavesInside | dungeon-gen-source-apr-1/js/World/Partition.js:30-68 | every leaf lies inside the root with both sides below 2·minSize, and at least minSize on each side where the root is |
| Partition.ChildrenDisjoint | dungeon-gen-source-apr-1/js/World/Partition.js:48-63 | the two children of a split share no cell |
| Partition.LeavesDisjoint | dungeon-gen-source-apr-1/js/World/Partition.js:19-27 | no cell lies in two leaves |
| Partition.LeavesCover | dungeon-gen-source-apr-1/js/World/Partition.js:19-27 | every cell of the root lies in some leaf |
| Partition.LeavesArea | dungeon-gen-source-apr-1/js/World/Partition.js:19-27 | the leaves' areas add up to the root's |
| Partition.WithinContains | dungeon-gen-source-apr-1/js/World/Partition.js:48-63 | a cell of a rectangle inside another is a cell of the outer one |
| DungeonGenerator.PaintFlips | dungeon-gen-source-apr-1/js/World/DungeonGenerator.js:66 | setting tiles to Ground makes exactly those tiles traversable and changes nothing else |
| DungeonGenerator.PaintPaint | dungeon-gen-source-apr-1/js/World/DungeonGenerator.js:63-68 | carving A then B is carving A ∪ B |
| DungeonGenerator.FlippedValid | dungeon-gen-source-apr-1/js/World/DungeonGenerator.js:66 | turning tiles Ground keeps the grid shape and the edges |
| DungeonGenerator.RoomFor | dungeon-gen-source-apr-1/js/World/DungeonGenerator.js:53-57 | a partition with at least m + 3 on a side gets a room of at least m there, one tile off the near edge and two off the far edge |
| DungeonGenerator.PlannedRooms | dungeon-gen-source-apr-1/js/World/DungeonGenerator.js:51-60 | one room per partition, room k drawn from the four draws after the first 4k |
| DungeonGenerator.PlannedRoomsInGrid | dungeon-gen-source-apr-1/js/World/DungeonGenerator.js:51-60 | partitions inside the grid with sides ≥ m + 3 get rooms inside the grid |
| DungeonGenerator.AllRoomTilesInGrid | dungeon-gen-source-apr-1/js/World/DungeonGenerator.js:63-68 | all tiles of rooms inside the grid have indices in range |
| DungeonGenerator.PrimTreeSpans | dungeon-gen-source-apr-1/js/World/DungeonGenerator.js:75-120 | the connections form a spanning tree rooted at room 0: every `to` is a distinct room other than room 0, and every `from` is room 0 or an earlier `to` |
| DungeonGenerator.NearestByValue | dungeon-gen-source-apr-1/js/World/DungeonGenerator.js:101-111 | the pair the nested scan keeps is a nearest connected/unconnected pair, and every pair visited before it is strictly farther |
| DungeonGenerator.DeleteAt | dungeon-gen-source-apr-1/js/World/DungeonGenerator.js:115 | `remaining.delete(x)` removes exactly x and keeps the rest in order |
| DungeonGenerator.ScanReplace | dungeon-gen-source-apr-1/js/World/DungeonGenerator.js:105-109 | a strictly nearer pair becomes the best, first nearest so far |
| DungeonGenerator.ScanKeep | dungeon-gen-source-apr-1/js/World/DungeonGenerator.js:105-109 | a pair that is not strictly nearer leaves the best unchanged |
| DungeonGenerator.GrowStep | dungeon-gen-source-apr-1/js/World/DungeonGenerator.js:113-117 | connecting the picked pair keeps the loop invariant: connected, remaining and connections agree |
| DungeonGenerator.GrowEnd | dungeon-gen-source-apr-1/js/World/DungeonGenerator.js:94-119 | when nothing remains the connections are the spanning tree `PrimTree` |
| DungeonGenerator.CorridorJoinsCentres | dungeon-gen-source-apr-1/js/World/DungeonGenerator.js:124-138 | a corridor holds both centres and the corner where its two legs meet |
| DungeonGenerator.CorridorInGrid | dungeon-gen-source-apr-1/js/World/DungeonGenerator.js:124-138 | the corridor between two rooms inside the grid stays inside the grid |
| DungeonGenerator.AllCorridorTilesInGrid | dungeon-gen-source-apr-1/js/World/DungeonGenerator.js:35-37 | all corridor tiles between rooms inside the grid have indices in range |
| DungeonGenerator.DungeonGenerator.constructor | dungeon-gen-source-apr-1/js/World/DungeonGenerator.js:14-19 | the minimum partition size is twice the minimum room size |
| DungeonGenerator.DungeonGenerator.SetGround | dungeon-gen-source-apr-1/js/World/DungeonGenerator.js:66 | the node at `getAt(i, j)` turns Ground; without a node there the assignment fails and nothing changes |
| DungeonGenerator.DungeonGenerator.CarveHorizontal | dungeon-gen-source-apr-1/js/World/DungeonGenerator.js:141-150 | succeeds exactly when every tile of the row segment exists, and then turns exactly those tiles Ground |
| DungeonGenerator.DungeonGenerator.CarveVertical | dungeon-gen-source-apr-1/js/World/DungeonGenerator.js:153-162 | the same for the column segment |
| DungeonGenerator.DungeonGenerator.CarveRoom | dungeon-gen-source-apr-1/js/World/DungeonGenerator.js:63-68 | succeeds exactly when every room tile exists, and then turns exactly the room's tiles Ground |
| DungeonGenerator.DungeonGenerator.CarveRoomColumn | dungeon-gen-source-apr-1/js/World/DungeonGenerator.js:64-67 | the same for one column of the room |
| DungeonGenerator.DungeonGenerator.CreateRooms | dungeon-gen-source-apr-1/js/World/DungeonGenerator.js:45-71 | succeeds exactly when every planned room tile exists; then returns `PlannedRooms`, consumes 4 draws per partition and turns exactly the room tiles Ground |
| DungeonGenerator.DungeonGenerator.CarveNextRoom | dungeon-gen-source-apr-1/js/World/DungeonGenerator.js:51-69 | carving one more room extends the carved tiles by that room's |
| DungeonGenerator.DungeonGenerator.CarveCorridor | dungeon-gen-source-apr-1/js/World/DungeonGenerator.js:124-138 | one draw picks horizontal-first when below 0.5; succeeds exactly when the corridor's tiles exist, and then turns exactly them Ground |
| DungeonGenerator.DungeonGenerator.FindNearest | dungeon-gen-source-apr-1/js/World/DungeonGenerator.js:95-111 | returns the first nearest connected/unconnected pair in scan order |
| DungeonGenerator.DungeonGenerator.CreateConnections | dungeon-gen-source-apr-1/js/World/DungeonGenerator.js:75-120 | the connections are `PrimTree` of the rooms |
| DungeonGenerator.DungeonGenerator.CarveCorridors | dungeon-gen-source-apr-1/js/World/DungeonGenerator.js:35-37 | succeeds exactly when every corridor tile exists; then consumes one draw per connection and turns exactly the corridor tiles Ground |
| DungeonGenerator.DungeonGenerator.CarveNextCorridor | dungeon-gen-source-apr-1/js/World/DungeonGenerator.js:35-37 | one pass of the corridor loop extends the carved corridors by one |
| DungeonGenerator.DungeonGenerator.Generate | dungeon-gen-source-apr-1/js/World/DungeonGenerator.js:22-42 | on success the arena is the partition's rooms and tree corridors carved, with grid edges built; on failure no edges are built; with rooms of at least 3 and a grid at least one partition wide it always succeeds |
| DungeonGenerator.DungeonGenerator.CarveDungeon | dungeon-gen-source-apr-1/js/World/DungeonGenerator.js:28-37 | rooms, connections and corridors carved as planned; success when every room fits |
| MinHeap.ParentIndex | controller-resources-starter-feb-13/js/Util/MinHeap.js:19-21 | `Math.floor((i − 1)/2)`: below i for i > 0, and −1 at the root |
| MinHeap.LeftChildIndex | controller-resources-starter-feb-13/js/Util/MinHeap.js:24-26 | the left child comes after its parent |
| MinHeap.RightChildIndex | controller-resources-starter-feb-13/js/Util/MinHeap.js:29-31 | the right child comes after its parent |
| MinHeap.ParentOfChildren | controller-resources-starter-feb-13/js/Util/MinHeap.js:19-31 | the parent of either child of i is i, and every non-root index is a child of its parent |
| MinHeap.RootIsMinimal | controller-resources-starter-feb-13/js/Util/MinHeap.js:14-16 | in heap order the root has the least priority |
| MinHeap.MinHeap.constructor | controller-resources-starter-feb-13/js/Util/MinHeap.js:4-6 | a new heap is empty and valid |
| MinHeap.MinHeap.IsEmpty | controller-resources-starter-feb-13/js/Util/MinHeap.js:9-11 | true exactly when there are no entries |
| MinHeap.MinHeap.Peek | controller-resources-starter-feb-13/js/Util/MinHeap.js:14-16 | None exactly on an empty heap; otherwise an entry of least priority |
| MinHeap.MinHeap.SwapEntries | controller-resources-starter-feb-13/js/Util/MinHeap.js:34-38 | exchanges the two entries and nothing else |
| MinHeap.MinHeap.FindIndex | controller-resources-starter-feb-13/js/Util/MinHeap.js:112-117 | the first index holding the node, or −1 exactly when it is absent |
| MinHeap.MinHeap.Contains | zombie-game/js/Pathfinding/PathFinder.js:65 | true exactly when the node has an entry |
| MinHeap.MinHeap.HeapifyUp | controller-resources-starter-feb-13/js/Util/MinHeap.js:48-56 | restores heap order from an entry that may be below its parent, keeping the same entries |
| MinHeap.MinHeap.HeapifyDown | controller-resources-starter-feb-13/js/Util/MinHeap.js:73-92 | sifts an entry down, keeping the same entries; heap order then holds except possibly between the entry's slot and its parent, and fully when that pair was ordered before |
| MinHeap.MinHeap.Remove | controller-resources-starter-feb-13/js/Util/MinHeap.js:95-109 | removes the node's entry if present and nothing else; the size drops by one exactly when it was present; an absent node leaves the heap array exactly as it was; heap order kept |
| MinHeap.MinHeap.Enqueue | controller-resources-starter-feb-13/js/Util/MinHeap.js:41-45 | the entries become the old ones without the node plus `[node, priority]`; the size grows exactly when the node was absent; heap order kept |
| MinHeap.MinHeap.UpdatePriority | zombie-game/js/Pathfinding/PathFinder.js:67-70 | the node's entry is replaced by one with the new priority; size and nodes unchanged |
| MinHeap.MinHeap.Dequeue | controller-resources-starter-feb-13/js/Util/MinHeap.js:59-70 | None and no change exactly on an empty heap; otherwise the node of least priority, with exactly its entry removed |
| PathFinder.Heuristic | zombie-game/js/Pathfinding/PathFinder.js:11-17 | the heuristic is non-negative |
| PathFinder.HeuristicCells | zombie-game/js/Pathfinding/PathFinder.js:11-17 | it is the tile size times the Manhattan distance of the two cells, and 0 on the same cell |
| PathFinder.HeuristicSymmetric | zombie-game/js/Pathfinding/PathFinder.js:11-17 | it does not depend on argument order |
| PathFinder.PathFinder.constructor | zombie-game/js/Pathfinding/PathFinder.js:5-8 | keeps the map and sets the detection radius to `Infinity` |
| PathFinder.PathFinder.CanDetectTarget | zombie-game/js/Pathfinding/PathFinder.js:92-95 | with an infinite radius every target is detected; with a finite one, exactly those within it |
| PathFinder.WalkBack | zombie-game/js/Pathfinding/PathFinder.js:83-87 | a step back along `previousMap` extends the walk and strictly lowers the gScore |
| PathFinder.RouteReachable | zombie-game/js/Pathfinding/PathFinder.js:79-90 | a reconstructed route from start to target makes the target reachable |
| PathFinder.ClosedUnreachable | zombie-game/js/Pathfinding/PathFinder.js:39-76 | when the queue runs dry, a target with no gScore is unreachable from start |
| PathFinder.PathFinder.ReconstructPath | zombie-game/js/Pathfinding/PathFinder.js:79-90 | the nodes walked back form a route from start to target that leaves out start (empty exactly when start is the target), each joined by an edge to the next; the path is their localized positions in order |
| PathFinder.PathFinder.RelaxEdge | zombie-game/js/Pathfinding/PathFinder.js:50-72 | an unscored neighbour, or one whose score improves, gets the new gScore, fScore, predecessor and queue entry; otherwise nothing changes; the search invariant is kept |
| PathFinder.PathFinder.Relax | zombie-game/js/Pathfinding/PathFinder.js:55-70 | the improving update: gScore and predecessor set, the queue holds the neighbour at its new fScore, progress made |
| PathFinder.PathFinder.Expand | zombie-game/js/Pathfinding/PathFinder.js:50-72 | relaxing every edge of the dequeued node keeps the search invariant with that node closed, and makes progress or changes nothing |
| PathFinder.PathFinder.FindPathToTarget | zombie-game/js/Pathfinding/PathFinder.js:19-77 | null when either position has no node; otherwise a path comes back exactly when the target is reachable from start, and it is the localized route of edges from start to target |
| ZombieBaseState.Enter | controller-resources-starter-feb-13/js/States/ZombieStates.js:5-8 | an `enterState` result carries only the animation |
| ZombieBaseState.GetPathDistance | controller-resources-starter-feb-13/js/States/ZombieBaseState.js:11-23 | 0 for a null or empty path, else the sum of the distances between consecutive points |
| ZombieBaseState.ShortPath | controller-resources-starter-feb-13/js/States/ZombieBaseState.js:12-14 | a path of at most one point has length 0 |
| ZombieBaseState.PathLengthNonNegative | controller-resources-starter-feb-13/js/States/ZombieBaseState.js:16-22 | with non-negative point distances a path's length is non-negative |
| ZombieBaseState.PathLengthAppend | controller-resources-starter-feb-13/js/States/ZombieBaseState.js:16-22 | appending a point adds the length of the last segment |
| ZombieBaseState.PathLengthPrepend | controller-resources-starter-feb-13/js/States/ZombieBaseState.js:16-22 | prepending a point adds the length of the first segment |
| ControllerStates.EnterState | controller-resources-starter-feb-13/js/States/ZombieStates.js:4-88 | every state's entry carries only an animation |
| ControllerStates.DescriptorShapes | controller-resources-starter-feb-13/js/States/ZombieStates.js:10-87 | an update returns either a bare entry or a full descriptor; it moves exactly when walking, path-finds exactly when it moves, and clears the path exactly in death |
| ControllerStates.ApproachTestsAttackFirst | controller-resources-starter-feb-13/js/States/ZombieStates.js:32-37 | within the zombie's attack range, or with a path of length 0, the approach state returns the attack animation's entry (spelled `Attak`) and stays approaching |
| ControllerStates.ApproachGivesUp | controller-resources-starter-feb-13/js/States/ZombieStates.js:39-41 | out of reach and past the chase distance, it returns the idle entry but stays approaching |
| ControllerStates.AttackOutOfReach | controller-resources-starter-feb-13/js/States/ZombieStates.js:58-63 | the attack state returns the approach entry exactly when the path is beyond the zombie's attack range |
| ControllerStates.ZombieStateManager.constructor | controller-resources-starter-feb-13/js/States/ZombieStateManager.js:4-11 | starts idle with 5 hit points |
| ControllerStates.ZombieStateManager.GetPathDistance | controller-resources-starter-feb-13/js/States/ZombieStateManager.js:25-27 | the current state's path distance |
| ControllerStates.ZombieStateManager.Update | controller-resources-starter-feb-13/js/States/ZombieStateManager.js:13-23 | the new state, hit points and descriptor are `Step` of the old ones |
| ControllerStates.HitCostsOne | controller-resources-starter-feb-13/js/States/ZombieStateManager.js:14-15 | a landing hit costs exactly one hit point, and nothing else changes them |
| ControllerStates.DiesWhenHitPointsRunOut | controller-resources-starter-feb-13/js/States/ZombieStateManager.js:14-19 | a live zombie dies exactly when a landing hit takes its last hit point |
| ControllerStates.OnlyIdleHandsOver | controller-resources-starter-feb-13/js/States/ZombieStates.js:12-14 | the manager's state changes only from idle to approach, or to death |
| ControllerStates.NeverAttacks | controller-resources-starter-feb-13/js/States/ZombieStates.js:32-41 | a manager that does not start in the attack state never reaches it |
| ControllerStates.DeathIsFinal | controller-resources-starter-feb-13/js/States/ZombieStates.js:80-87 | once dead, the manager stays dead and every frame shows `Death` |
| ControllerStates.HitPointsGoNegative | controller-resources-starter-feb-13/js/States/ZombieStateManager.js:14-15 | hits on a dead zombie keep decrementing, below zero |
| ZombieState.ZombieState.constructor | controller-resources-starter-feb-13/js/States/ZombieState.js:10-17 | idle with 5 hit points |
| ZombieState.ZombieState.GetPathDistance | controller-resources-starter-feb-13/js/States/ZombieState.js:19-31 | 0 for a null or empty path, else the summed segment lengths |
| ZombieState.ZombieState.Update | controller-resources-starter-feb-13/js/States/ZombieState.js:33-140 | the new mode, hit points and descriptor are `Tick` of the old ones |
| ZombieState.HitCostsOne | controller-resources-starter-feb-13/js/States/ZombieState.js:59-70 | a hit costs exactly one hit point, only when it lands on a live zombie that is not giving up the chase |
| ZombieState.DiesWhenHitPointsRunOut | controller-resources-starter-feb-13/js/States/ZombieState.js:59-70 | the zombie dies exactly when a landing hit takes its last hit point, and the frame reports death exactly then |
| ZombieState.AbandonsChase | controller-resources-starter-feb-13/js/States/ZombieState.js:46-56 | an approaching zombie past the chase distance goes idle, stands still and clears its path |
| ZombieState.Transitions | controller-resources-starter-feb-13/js/States/ZombieState.js:73-138 | for a zombie that survives the frame: idle→approach exactly on detection (standing still that frame), approach→attacking-still exactly in reach, attacking-still→approach exactly out of reach; it walks exactly when out of reach; it never enters `ATTACK` |
| ZombieState.MovesOnlyWhileWalking | controller-resources-starter-feb-13/js/States/ZombieState.js:86-101 | a zombie moves exactly when the descriptor says `walk`, path-finds exactly when it moves, and clears its path exactly on `idle` and `death` frames |
| ZombieState.NoPathIsInReach | controller-resources-starter-feb-13/js/States/ZombieState.js:19-22 | with no path the distance is 0, so an attack always lands on a live zombie |
| ZombieState.RunStaysSane | controller-resources-starter-feb-13/js/States/ZombieState.js:33-140 | over any run, a zombie not in `ATTACK` stays sane (a live one keeps at least 1 hit point, a dead one at least 0) and never enters `ATTACK` |
| ZombieState.DeathIsFinal | controller-resources-starter-feb-13/js/States/ZombieState.js:34-41 | a dead zombie stays as it is and reports death on every frame |
| ZombieGameStates.EnterState | zombie-game/js/States/ZombieStates.js:7-112 | every state's entry carries only an animation |
| ZombieGameStates.ApproachUsesGroundDistance | zombie-game/js/States/ZombieStates.js:36-63 | the approach state ignores the path length and stays approaching: it returns the attack entry exactly within ground distance 20, and the idle entry exactly beyond both 20 and the chase distance |
| ZombieGameStates.AttackWithoutRange | zombie-game/js/States/ZombieStates.js:81-87 | with the zombie's attack range undefined, the attack state never hands back and never reports death |
| ZombieGameStates.AttackReportsDeath | zombie-game/js/States/ZombieStates.js:85-87 | a dying attacker within reach reports the death entry without the state changing |
| ZombieGameStates.ZombieStateManager.constructor | zombie-game/js/States/ZombieStateManager.js:4-14 | starts idle with the damage timer at 0 |
| ZombieGameStates.ZombieStateManager.Update | zombie-game/js/States/ZombieStateManager.js:16-48 | the new state, hit points, timer and descriptor are `Step` of the old ones; health-bar updates and player damage are recorded in order |
| ZombieGameStates.HitCostsOne | zombie-game/js/States/ZombieStateManager.js:23-31 | a landing hit costs exactly one hit point, and nothing else changes them |
| ZombieGameStates.DamageOnlyWhenTimerOut | zombie-game/js/States/ZombieStateManager.js:42-45 | the player is damaged exactly when the frame shows `Attack` and the run-down timer is out; the timer then restarts at 1000 |
| ZombieGameStates.ApproachStrikes | zombie-game/js/States/ZombieStates.js:47-51 | an approaching zombie within 20 shows `Attack` without leaving the approach state, and so damages the player |
| ZombieGameStates.ElapsedNonNegative | zombie-game/js/States/ZombieStateManager.js:18-20 | frames with non-negative time steps take non-negative time |
| ZombieGameStates.CooldownHolds | zombie-game/js/States/ZombieStateManager.js:18-20 | while the timer has time left no frame damages the player |
| ZombieGameStates.CooldownAfterDamage | zombie-game/js/States/ZombieStateManager.js:42-45 | after damaging the player, no damage follows for a whole cooldown |
| ZombieGameStates.DeathIsFinal | zombie-game/js/States/ZombieStates.js:104-111 | a dead zombie stays dead, shows `Death` and never damages the player |
| ZombieGameStates.NeverAttacks | zombie-game/js/States/ZombieStates.js:36-63 | a manager that does not start in the attack state never reaches it |
| ZombieGameStates.HitPointsGoNegative | zombie-game/js/States/ZombieStateManager.js:23-31 | hits on a dead zombie go below zero |
| PlayerHealth.Healed | controller-resources-starter-feb-13/js/PlayerHealth/HealthManager.js:18 | the healed health is capped at 100 and otherwise current + amount |
| PlayerHealth.Damaged | controller-resources-starter-feb-13/js/PlayerHealth/HealthManager.js:23 | the damaged health floors at 0 and otherwise is current − amount |
| PlayerHealth.HealthManager.constructor | controller-resources-starter-feb-13/js/PlayerHealth/HealthManager.js:2-7 | starts at full health, within bounds |
| PlayerHealth.HealthManager.HealPlayer | controller-resources-starter-feb-13/js/PlayerHealth/HealthManager.js:17-20 | health becomes `Healed`, the bar is updated, and the bounds are kept for a non-negative amount |
| PlayerHealth.HealthManager.DamagePlayer | controller-resources-starter-feb-13/js/PlayerHealth/HealthManager.js:22-29 | health becomes `Damaged`, the bar is updated, and the player turns red and stops exactly when health reaches 0 |
| PlayerHealth.HealthManager.UpdateHealthBar | controller-resources-starter-feb-13/js/PlayerHealth/HealthManager.js:31-33 | the bar is given the current health and nothing else changes |
| PlayerHealth.StaysInBounds | controller-resources-starter-feb-13/js/PlayerHealth/HealthManager.js:17-29 | heals and damages of non-negative amounts keep health within [0, 100] |
| PlayerHealth.StopsWhenHealthRunsOut | controller-resources-starter-feb-13/js/PlayerHealth/HealthManager.js:23-28 | health reaches 0 exactly when the damage is at least the health left |
| PlayerHealth.DamageUndoesHeal | controller-resources-starter-feb-13/js/PlayerHealth/HealthManager.js:17-29 | damage undoes a heal that does not reach the cap |
| PlayerHealth.DamagedByTotal | controller-resources-starter-feb-13/js/PlayerHealth/HealthManager.js:22-29 | a run of damages takes off their total, floored at 0 once |
| PlayerHealth.TotalNonNegative | controller-resources-starter-feb-13/js/PlayerHealth/HealthManager.js:22-29 | the total of non-negative amounts is non-negative |
| TimedHealth.HealthManager.constructor | controller-resources-starter-feb-13/js/Health/HealthManager.js:2-9 | the clock starts at construction time |
| TimedHealth.HealthManager.HandleZombieAttack | controller-resources-starter-feb-13/js/Health/HealthManager.js:11-26 | the health and clock become `Attack` of the old ones, and the bar is updated only when damage lands |
| TimedHealth.AttackGate | controller-resources-starter-feb-13/js/Health/HealthManager.js:16-22 | an attack lands exactly when 500 ms have passed, lowers health by 10 but not below 0 and restarts the clock; otherwise nothing changes |
| TimedHealth.NoDamageWithinInterval | controller-resources-starter-feb-13/js/Health/HealthManager.js:16 | attacks within 500 ms of the last damage change nothing |
| TimedHealth.QuietAfterDamage | controller-resources-starter-feb-13/js/Health/HealthManager.js:16-21 | after an attack lands at `now`, attacks before `now + 500` do nothing |
| TimedHealth.HealthOnlyFalls | controller-resources-starter-feb-13/js/Health/HealthManager.js:17-19 | over any run health never rises nor goes below 0 |
| TimedHealth.ClockAdvances | controller-resources-starter-feb-13/js/Health/HealthManager.js:16-21 | each landed attack moves the clock on by at least 500 ms, never past the latest attack |
| TimedHealth.RateLimited | controller-resources-starter-feb-13/js/Health/HealthManager.js:16-21 | up to time `latest` at most (latest − last damage)/500 attacks land |
| HealthPack.HealthPack.constructor | controller-resources-starter-feb-13/js/Entities/HealthPack.js:5-32 | a new pack is unused and has no model yet |
| HealthPack.HealthPack.Collect | controller-resources-starter-feb-13/js/Entities/HealthPack.js:34-44 | the pack and the result are `Collected` of the old pack |
| HealthPack.HealthPack.Remove | controller-resources-starter-feb-13/js/Entities/HealthPack.js:46-50 | a loaded model leaves the scene; nothing else changes |
| HealthPack.CollectLatches | controller-resources-starter-feb-13/js/Entities/HealthPack.js:34-44 | collecting marks the pack used and hides a loaded model; `used` never goes back |
| HealthPack.OnlyFirstCollects | controller-resources-starter-feb-13/js/Entities/HealthPack.js:34-44 | of any run of calls only the first can take the pack, exactly when it was unused |
| HealthPack.UsedCollectsNothing | controller-resources-starter-feb-13/js/Entities/HealthPack.js:35 | a used pack yields nothing, however often it is collected |

## Left out

- Rendering, the DOM, the GLTF loader's asynchronous load (`HealthPack`'s model is only present or absent), `MapRenderer`, `console.log` output and the three.js scene are not modelled.
- Euclidean distances (`Vector3.distanceTo`, the ground-plane `Math.sqrt`) are inputs, not computed; the model has no square roots or floating-point rounding: numbers are mathematical reals.
- `Math.random()` and `Date.now()` are inputs (an `Rng` stream and a time parameter); any sequence of draws in [0, 1) is allowed.
- The abstract-class guards of `ZombieBaseState` (the throw in its constructor and in the unimplemented `enterState`/`updateState`) are not modelled: the state kinds are a closed datatype, so no instance of the base class can exist.
- The zombie-game `ZombieBaseState` and `MinHeap` are not part of this model; the zombie-game states use the feb-13 `getPathDistance`, and the `contains`/`updatePriority` that `PathFinder.js` calls are modelled on the feb-13 heap as `MinHeap.MinHeap.Contains` and `MinHeap.MinHeap.UpdatePriority`.
- The feb-13 `MapGraph` (with `width`/`height`) is not part of this model; `GameMap.IsWall` takes them as parameters.
- MapNode objects refer to each other by reference in the original; here edges name their targets by id in an arena, so aliasing between node objects is not modelled.
- `Partition.split` assigns `left`/`right` fields in place; here it returns a new tree value.
- `MinHeap` holds its entries in a `seq` field reassigned by each method rather than a JavaScript array updated in place.
- Errors thrown by the dungeon generator (assigning `.type` on an `undefined` node) are reported as `ok == false`, with the tiles carved so far kept; the stack unwinding itself is not modelled.
- `zombie.attackRange`, which nothing in the state files sets, is an `Option<real>`: None is `undefined`, for which every comparison is false.
- PathFinder.PathFinder.FindPathToTarget: proves that a path is found exactly when the target is reachable and that it follows edges from start to target, but not that it is a shortest path (A* optimality); it also needs every edge cost to be at least 1, which every generated map satisfies (`GameMap.MazeCosts`, `MapGraph.CreateEdgesKeepsGrid`).
- DungeonGenerator.CorridorJoinsCentres: shows the corridor holds both centres and its corner, not that its tiles form a 4-connected run.
- MazeGenerator.BraidOne: the corrected loop still consumes the draw for a dead end it skips because it has no unconnected neighbour.
- MazeGenerator.MazeGenerator.BraidDeadEnd: when it reports the throw (ok false) it leaves the arena unchanged, whereas the source has already appended an edge with an `undefined` target to the dead end before `rand.addEdge` throws.
- BraidFinding.Carved2x2IsDfsOutcome: shows the 2 × 2 maze of the finding satisfies everything `dfsMaze` promises (`DfsPost` and `DfsShape`), rather than deriving it from one concrete draw sequence.

## Findings

| source | as written | input that shows it | evidently intended | confidence | as-written member | corrected member |
|---|---|---|---|---|---|---|
| zombie-game/js/World/MazeGenerator.js:74-81 | `braidedMaze` picks `unconnected[Math.floor(Math.random() * unconnected.length)]` without checking that the list is non-empty; an earlier pass can join a later dead end, leaving it with no unconnected neighbour, so `rand` is `undefined` and `rand.addEdge` throws | a 2 × 2 grid carved into the path 0–1–3–2 (dead ends 0 and 2) with probability 1: the first pass joins 0 to 2, and dead end 2 then has no unconnected neighbour | skip a dead end with no unconnected neighbour; the throw cannot happen at the game's own calls (maze-gen GameMap.js:39-41 and feb-13 GameMap.js:37-39, a 20 × 20 grid from node 0), because on grids of at least 3 × 3 carved from node 0 the loop as written never throws (`MazeGenerator.BraidAsWrittenNeverThrows`) | not executed | BraidFinding.BraidAsWrittenThrowsOn2x2 | MazeGenerator.BraidFrom |
