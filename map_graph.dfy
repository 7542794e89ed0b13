/**
 * The dense row-major grid of nodes (zombie-game and dungeon-gen MapGraph).
 * Node k of a cols × rows grid sits at column k mod cols and row k div cols.
 */
module MapGraph {
  import opened Wrappers
  import opened MapNode

  /** Row-major index `j * cols + i` of the cell (i, j). */
  function Index(i: int, j: int, cols: int): int {
    j * cols + i
  }

  /** Column of index k (k mod cols; 0 on a grid without columns). */
  function ColOf(k: int, cols: nat): int {
    if cols == 0 then 0 else k % cols
  }

  /** Row of index k (k div cols; 0 on a grid without columns). */
  function RowOf(k: int, cols: nat): int {
    if cols == 0 then 0 else k / cols
  }

  lemma MulMono(c: int, d: int)
    requires c >= 0
    ensures d >= 1 ==> c * d >= c
    ensures d <= -1 ==> c * d <= -c
  {
    assert c * d == c * (d - 1) + c;
    assert c * d == c * (d + 1) - c;
  }

  /** A cell inside the grid has an index inside the node list, and back. */
  lemma IndexOfCell(i: int, j: int, cols: nat, rows: nat)
    requires 0 <= i < cols && 0 <= j < rows
    ensures 0 <= Index(i, j, cols) < cols * rows
    ensures ColOf(Index(i, j, cols), cols) == i && RowOf(Index(i, j, cols), cols) == j
  {
    var k := j * cols + i;
    var q, r := k / cols, k % cols;
    assert cols * (q - j) == i - r;
    MulMono(cols, q - j);
    MulMono(cols, j);
    MulMono(cols, rows - j);
    assert cols * rows == cols * (rows - j) + cols * j;
  }

  /**
   * Cell (i, j) lies in the grid, `index` is inside a list of n nodes, and so
   * are the indices of the neighbours that exist.
   */
  predicate CellBounds(n: int, cols: int, rows: int, i: int, j: int, index: int) {
    0 <= i < cols && 0 <= j < rows && 0 <= index < n &&
    (i > 0 ==> 1 <= index) &&
    (i < cols - 1 ==> index + 1 < n) &&
    (j > 0 ==> cols <= index) &&
    (j < rows - 1 ==> index + cols < n)
  }

  /** The four orthogonal neighbours of a cell inside the grid have indices in range. */
  lemma NeighbourBounds(i: int, j: int, cols: nat, rows: nat)
    requires 0 <= i < cols && 0 <= j < rows
    ensures CellBounds(cols * rows, cols, rows, i, j, Index(i, j, cols))
  {
    Neighbours(i, j, cols, rows);
  }

  /** Index arithmetic for the four orthogonal neighbours of a cell. */
  lemma Neighbours(i: int, j: int, cols: nat, rows: nat)
    requires 0 <= i < cols && 0 <= j < rows
    ensures var k := Index(i, j, cols);
      0 <= k < cols * rows && ColOf(k, cols) == i && RowOf(k, cols) == j &&
      (i > 0 ==> 0 <= k - 1 && ColOf(k - 1, cols) == i - 1 && RowOf(k - 1, cols) == j) &&
      (i < cols - 1 ==> k + 1 < cols * rows && ColOf(k + 1, cols) == i + 1 && RowOf(k + 1, cols) == j) &&
      (j > 0 ==> 0 <= k - cols && ColOf(k - cols, cols) == i && RowOf(k - cols, cols) == j - 1) &&
      (j < rows - 1 ==> k + cols < cols * rows && ColOf(k + cols, cols) == i && RowOf(k + cols, cols) == j + 1)
  {
    IndexOfCell(i, j, cols, rows);
    if i > 0 { NeighbourAt(i, j, cols, rows, -1, 0); }
    if i < cols - 1 { NeighbourAt(i, j, cols, rows, 1, 0); }
    if j > 0 { NeighbourAt(i, j, cols, rows, 0, -1); }
    if j < rows - 1 { NeighbourAt(i, j, cols, rows, 0, 1); }
  }

  /** The cell (i + di, j + dj), when inside the grid, has index Index(i, j) + dj * cols + di. */
  lemma NeighbourAt(i: int, j: int, cols: nat, rows: nat, di: int, dj: int)
    requires 0 <= i + di < cols && 0 <= j + dj < rows && -1 <= dj <= 1
    ensures var k := Index(i, j, cols) + dj * cols + di;
      0 <= k < cols * rows && ColOf(k, cols) == i + di && RowOf(k, cols) == j + dj
  {
    IndexOfCell(i + di, j + dj, cols, rows);
    assert Index(i + di, j + dj, cols) == (j + dj) * cols + i + di;
    assert (j + dj) * cols == j * cols + dj * cols;
  }

  /** The index just past the end of row j is the start of row j + 1. */
  lemma IndexNextRow(j: int, cols: int)
    ensures Index(cols, j, cols) == Index(0, j + 1, cols)
  {
  }

  /** IndexOfCell for a cell that may lie outside the grid. */
  lemma IndexOfCellIfInside(i: int, j: int, cols: nat, rows: nat)
    ensures 0 <= i < cols && 0 <= j < rows ==>
              0 <= Index(i, j, cols) < cols * rows &&
              ColOf(Index(i, j, cols), cols) == i && RowOf(Index(i, j, cols), cols) == j
  {
    if 0 <= i < cols && 0 <= j < rows {
      IndexOfCell(i, j, cols, rows);
    }
  }

  /** An index inside the node list names a cell inside the grid. */
  lemma CellOfIndex(k: int, cols: nat, rows: nat)
    requires 0 <= k < cols * rows
    ensures cols > 0
    ensures 0 <= ColOf(k, cols) < cols && 0 <= RowOf(k, cols) < rows
    ensures Index(ColOf(k, cols), RowOf(k, cols), cols) == k
  {
    var q := k / cols;
    assert k == cols * q + k % cols;
    MulMono(cols, q - rows + 1);
    MulMono(cols, -q);
  }

  /** Node k has id k and the coordinates of cell k. */
  ghost predicate IsGrid(ns: seq<MapNode>, cols: nat, rows: nat) {
    |ns| == cols * rows &&
    forall k :: 0 <= k < |ns| ==>
      ns[k].id == k && ns[k].i == ColOf(k, cols) && ns[k].j == RowOf(k, cols)
  }

  /** Every edge names a node of the arena. */
  ghost predicate EdgesInRange(ns: seq<MapNode>) {
    forall k, e {:trigger e in ns[k].edges} :: 0 <= k < |ns| && e in ns[k].edges ==> 0 <= e.target < |ns|
  }

  /** The nodes a and b are orthogonal grid neighbours. */
  predicate Adjacent(a: MapNode, b: MapNode) {
    (a.j == b.j && (a.i == b.i + 1 || b.i == a.i + 1)) ||
    (a.i == b.i && (a.j == b.j + 1 || b.j == a.j + 1))
  }

  /** The edge `tryAddEdge(n, 1)` adds, as a list of zero or one edges. */
  function EdgeIfTraversable(n: MapNode): seq<Edge> {
    if n.IsTraversable() then [Edge(n.id, 1)] else []
  }

  /**
   * The edge list of cell (i, j) after `createEdges`: `es` followed by an
   * edge to the west, east, north and south neighbours that exist and are
   * traversable, in that order, and `es` unchanged when the node itself is
   * not traversable.
   */
  function GridEdges(ns: seq<MapNode>, cols: nat, rows: nat, i: int, j: int, es: seq<Edge>): seq<Edge>
    requires |ns| == cols * rows && 0 <= i < cols && 0 <= j < rows
  {
    NeighbourBounds(i, j, cols, rows);
    GridEdgesFrom(ns, cols, rows, i, j, Index(i, j, cols), es)
  }

  /** GridEdges for the cell (i, j) whose index is `index`. */
  function GridEdgesFrom(ns: seq<MapNode>, cols: nat, rows: nat, i: int, j: int, index: int, es: seq<Edge>): seq<Edge>
    requires CellBounds(|ns|, cols, rows, i, j, index)
  {
    if !ns[index].IsTraversable() then es
    else
      es +
      (if i > 0 then EdgeIfTraversable(ns[index - 1]) else []) +
      (if i < cols - 1 then EdgeIfTraversable(ns[index + 1]) else []) +
      (if j > 0 then EdgeIfTraversable(ns[index - cols]) else []) +
      (if j < rows - 1 then EdgeIfTraversable(ns[index + cols]) else [])
  }

  /** Node k after `createEdges`: its old edges followed by its grid edges. */
  function WithGridEdgesAt(ns: seq<MapNode>, cols: nat, rows: nat, k: int): (n: MapNode)
    requires |ns| == cols * rows && 0 <= k < |ns|
    ensures n.id == ns[k].id && n.i == ns[k].i && n.j == ns[k].j && n.kind == ns[k].kind
  {
    CellOfIndex(k, cols, rows);
    ns[k].(edges := GridEdges(ns, cols, rows, ColOf(k, cols), RowOf(k, cols), ns[k].edges))
  }

  /** WithGridEdgesAt for the node of cell (i, j). */
  lemma WithGridEdgesAtCell(ns: seq<MapNode>, cols: nat, rows: nat, i: int, j: int)
    requires |ns| == cols * rows && 0 <= i < cols && 0 <= j < rows
    ensures 0 <= Index(i, j, cols) < |ns|
    ensures var k := Index(i, j, cols);
      WithGridEdgesAt(ns, cols, rows, k) == ns[k].(edges := GridEdges(ns, cols, rows, i, j, ns[k].edges))
  {
    IndexOfCell(i, j, cols, rows);
  }

  /** The whole node list after `createEdges`. */
  function WithGridEdges(ns: seq<MapNode>, cols: nat, rows: nat): (r: seq<MapNode>)
    requires |ns| == cols * rows
    ensures |r| == |ns|
  {
    seq(|ns|, k requires 0 <= k < |ns| => WithGridEdgesAt(ns, cols, rows, k))
  }

  /** `createEdges` keeps every node's id and type. */
  lemma WithGridEdgesSameKinds(ns: seq<MapNode>, cols: nat, rows: nat)
    requires |ns| == cols * rows
    ensures SameKinds(WithGridEdges(ns, cols, rows), ns)
  {
  }

  /** On a grid with no traversable node, `createEdges` changes nothing. */
  lemma NothingToJoin(ns: seq<MapNode>, cols: nat, rows: nat)
    requires |ns| == cols * rows && forall k :: 0 <= k < |ns| ==> !ns[k].IsTraversable()
    ensures WithGridEdges(ns, cols, rows) == ns
  {
    forall k | 0 <= k < |ns|
      ensures WithGridEdges(ns, cols, rows)[k] == ns[k]
    {
      CellOfIndex(k, cols, rows);
      IndexOfCell(ColOf(k, cols), RowOf(k, cols), cols, rows);
    }
  }

  /**
   * The first `done` nodes already hold their `createEdges` result and the
   * rest are as they were before.
   */
  ghost predicate Processed(nodes: seq<MapNode>, ns: seq<MapNode>, target: seq<MapNode>, done: int) {
    |nodes| == |ns| == |target| &&
    (forall k {:trigger nodes[k]} :: 0 <= k < |nodes| && k < done ==> nodes[k] == target[k]) &&
    (forall k {:trigger nodes[k]} :: 0 <= k < |nodes| && done <= k ==> nodes[k] == ns[k])
  }

  /** At the end of `createEdges` every node holds its result. */
  lemma ProcessedAll(nodes: seq<MapNode>, ns: seq<MapNode>, target: seq<MapNode>, done: int)
    requires Processed(nodes, ns, target, done) && done == |ns|
    ensures nodes == target
  {
    assert forall k :: 0 <= k < |nodes| ==> nodes[k] == target[k];
  }

  /** Part way through `createEdges`, every node keeps its id and type. */
  lemma ProcessedKinds(nodes: seq<MapNode>, ns: seq<MapNode>, target: seq<MapNode>, done: int, k: int)
    requires Processed(nodes, ns, target, done) && SameKinds(target, ns) && 0 <= k < |nodes|
    ensures nodes[k].id == ns[k].id && nodes[k].kind == ns[k].kind
  {
    if k < done {
      assert nodes[k] == target[k];
    } else {
      assert nodes[k] == ns[k];
    }
  }

  /** `tryAddEdge(n, 1)` depends only on n's id and type. */
  lemma TryAddEdgeAppends(current: MapNode, n: MapNode, m: MapNode)
    requires n.id == m.id && n.kind == m.kind
    ensures current.TryAddEdge(n, 1) == current.(edges := current.edges + EdgeIfTraversable(m))
  {
  }

  /** Node for node, the two lists agree on ids and types. */
  ghost predicate SameKinds(a: seq<MapNode>, b: seq<MapNode>) {
    |a| == |b| && forall k :: 0 <= k < |a| ==> a[k].id == b[k].id && a[k].kind == b[k].kind
  }

  /** No node has an edge yet. */
  ghost predicate NoEdges(ns: seq<MapNode>) {
    forall k :: 0 <= k < |ns| ==> ns[k].edges == []
  }

  /** Adjacent nodes of a grid are west, east, north or south of each other by index. */
  lemma AdjacentIndices(ns: seq<MapNode>, cols: nat, rows: nat, u: int, v: int)
    requires IsGrid(ns, cols, rows) && 0 <= u < |ns| && 0 <= v < |ns|
    requires Adjacent(ns[u], ns[v])
    ensures var i, j := ns[u].i, ns[u].j;
      (i > 0 && v == u - 1) || (i < cols - 1 && v == u + 1) ||
      (j > 0 && v == u - cols) || (j < rows - 1 && v == u + cols)
  {
    CellOfIndex(u, cols, rows);
    CellOfIndex(v, cols, rows);
    var i, j := ns[u].i, ns[u].j;
    var vi, vj := ns[v].i, ns[v].j;
    assert u == Index(i, j, cols) && v == Index(vi, vj, cols);
    if vj == j - 1 {
      assert vi == i;
      assert (j - 1) * cols == j * cols - cols;
    } else if vj == j + 1 {
      assert vi == i;
      assert (j + 1) * cols == j * cols + cols;
    } else {
      assert vj == j;
    }
  }

  /** Membership in GridEdgesFrom, neighbour by neighbour. */
  lemma GridEdgesFromMember(ns: seq<MapNode>, cols: nat, rows: nat, i: int, j: int, index: int, es: seq<Edge>, e: Edge)
    requires CellBounds(|ns|, cols, rows, i, j, index)
    ensures e in GridEdgesFrom(ns, cols, rows, i, j, index, es) <==>
      e in es ||
      (ns[index].IsTraversable() &&
       ((i > 0 && ns[index - 1].IsTraversable() && e == Edge(ns[index - 1].id, 1)) ||
        (i < cols - 1 && ns[index + 1].IsTraversable() && e == Edge(ns[index + 1].id, 1)) ||
        (j > 0 && ns[index - cols].IsTraversable() && e == Edge(ns[index - cols].id, 1)) ||
        (j < rows - 1 && ns[index + cols].IsTraversable() && e == Edge(ns[index + cols].id, 1))))
  {
  }

  /**
   * What `createEdges` leaves on node u of a grid: its old edges, and one
   * edge of cost 1 to each traversable orthogonal neighbour when u itself
   * is traversable, and nothing else.
   */
  lemma CreatedEdge(ns: seq<MapNode>, cols: nat, rows: nat, u: int, e: Edge)
    requires IsGrid(ns, cols, rows) && 0 <= u < |ns|
    ensures e in WithGridEdges(ns, cols, rows)[u].edges <==>
      e in ns[u].edges ||
      (e.cost == 1 && 0 <= e.target < |ns| && ns[u].IsTraversable() &&
       ns[e.target].IsTraversable() && Adjacent(ns[u], ns[e.target]))
  {
    CreatedEdgeSound(ns, cols, rows, u, e);
    if e.cost == 1 && 0 <= e.target < |ns| && ns[u].IsTraversable() &&
       ns[e.target].IsTraversable() && Adjacent(ns[u], ns[e.target]) {
      CreatedEdgeComplete(ns, cols, rows, u, e.target);
    }
  }

  /** The edge list of node u after `createEdges`, as GridEdgesFrom of its cell. */
  lemma WithGridEdgesOf(ns: seq<MapNode>, cols: nat, rows: nat, u: int)
    requires IsGrid(ns, cols, rows) && 0 <= u < |ns|
    ensures CellBounds(|ns|, cols, rows, ns[u].i, ns[u].j, u)
    ensures WithGridEdges(ns, cols, rows)[u].edges == GridEdgesFrom(ns, cols, rows, ns[u].i, ns[u].j, u, ns[u].edges)
  {
    CellOfIndex(u, cols, rows);
    NeighbourBounds(ns[u].i, ns[u].j, cols, rows);
  }

  /** Every edge `createEdges` gives node u is old or joins u to a traversable neighbour at cost 1. */
  lemma CreatedEdgeSound(ns: seq<MapNode>, cols: nat, rows: nat, u: int, e: Edge)
    requires IsGrid(ns, cols, rows) && 0 <= u < |ns|
    ensures e in WithGridEdges(ns, cols, rows)[u].edges ==>
      e in ns[u].edges ||
      (e.cost == 1 && 0 <= e.target < |ns| && ns[u].IsTraversable() &&
       ns[e.target].IsTraversable() && Adjacent(ns[u], ns[e.target]))
  {
    var i, j := ns[u].i, ns[u].j;
    WithGridEdgesOf(ns, cols, rows, u);
    GridEdgesFromMember(ns, cols, rows, i, j, u, ns[u].edges, e);
    CellOfIndex(u, cols, rows);
    Neighbours(i, j, cols, rows);
  }

  /** Node u gains an edge of cost 1 to each traversable neighbour v when u is traversable. */
  lemma CreatedEdgeComplete(ns: seq<MapNode>, cols: nat, rows: nat, u: int, v: int)
    requires IsGrid(ns, cols, rows) && 0 <= u < |ns| && 0 <= v < |ns|
    requires ns[u].IsTraversable() && ns[v].IsTraversable() && Adjacent(ns[u], ns[v])
    ensures Edge(v, 1) in WithGridEdges(ns, cols, rows)[u].edges
  {
    var i, j := ns[u].i, ns[u].j;
    WithGridEdgesOf(ns, cols, rows, u);
    GridEdgesFromMember(ns, cols, rows, i, j, u, ns[u].edges, Edge(v, 1));
    AdjacentIndices(ns, cols, rows, u, v);
  }

  /**
   * On a grid without edges, `createEdges` joins u to v exactly when both
   * are traversable and orthogonally adjacent.
   */
  lemma CreateEdgesOnBareGrid(ns: seq<MapNode>, cols: nat, rows: nat, u: int, v: int)
    requires IsGrid(ns, cols, rows) && NoEdges(ns) && 0 <= u < |ns| && 0 <= v < |ns|
    ensures WithGridEdges(ns, cols, rows)[u].HasEdge(v) <==>
              ns[u].IsTraversable() && ns[v].IsTraversable() && Adjacent(ns[u], ns[v])
  {
    var n := WithGridEdges(ns, cols, rows)[u];
    if n.HasEdge(v) {
      var e :| e in n.edges && e.target == v;
      CreatedEdge(ns, cols, rows, u, e);
    }
    if ns[u].IsTraversable() && ns[v].IsTraversable() && Adjacent(ns[u], ns[v]) {
      CreatedEdge(ns, cols, rows, u, Edge(v, 1));
    }
  }

  /**
   * The same on the graph `createEdges` returns: its edges join exactly its
   * traversable, orthogonally adjacent nodes.
   */
  lemma CreateEdgesJoinsNeighbours(ns: seq<MapNode>, cols: nat, rows: nat)
    requires IsGrid(ns, cols, rows) && NoEdges(ns)
    ensures JoinsNeighbours(WithGridEdges(ns, cols, rows))
  {
    var g := WithGridEdges(ns, cols, rows);
    forall u, v | 0 <= u < |g| && 0 <= v < |g|
      ensures Joins(g, u, v)
    {
      JoinsNeighbour(ns, cols, rows, g, u, v);
    }
  }

  /** The edges of g join exactly its traversable, orthogonally adjacent nodes. */
  ghost predicate JoinsNeighbours(g: seq<MapNode>) {
    forall u, v :: 0 <= u < |g| && 0 <= v < |g| ==> Joins(g, u, v)
  }

  /** Node u of g has an edge to node v exactly when both are traversable and adjacent. */
  ghost predicate Joins(g: seq<MapNode>, u: int, v: int)
    requires 0 <= u < |g| && 0 <= v < |g|
  {
    g[u].HasEdge(v) <==> g[u].IsTraversable() && g[v].IsTraversable() && Adjacent(g[u], g[v])
  }

  lemma JoinsNeighbour(ns: seq<MapNode>, cols: nat, rows: nat, g: seq<MapNode>, u: int, v: int)
    requires IsGrid(ns, cols, rows) && NoEdges(ns) && 0 <= u < |ns| && 0 <= v < |ns|
    requires g == WithGridEdges(ns, cols, rows)
    ensures Joins(g, u, v)
  {
    CreateEdgesOnBareGrid(ns, cols, rows, u, v);
    SameCells(ns[u], ns[v], g[u], g[v], g[u].HasEdge(v));
  }

  lemma SameCells(a: MapNode, b: MapNode, a': MapNode, b': MapNode, has: bool)
    requires has <==> a.IsTraversable() && b.IsTraversable() && Adjacent(a, b)
    requires a.kind == a'.kind && a.i == a'.i && a.j == a'.j
    requires b.kind == b'.kind && b.i == b'.i && b.j == b'.j
    ensures has <==> a'.IsTraversable() && b'.IsTraversable() && Adjacent(a', b')
  {
  }

  /** On a grid without edges, every edge `createEdges` adds has its reverse. */
  lemma CreateEdgesSymmetric(ns: seq<MapNode>, cols: nat, rows: nat, u: int, v: int)
    requires IsGrid(ns, cols, rows) && NoEdges(ns) && 0 <= u < |ns| && 0 <= v < |ns|
    ensures WithGridEdges(ns, cols, rows)[u].HasEdge(v) <==> WithGridEdges(ns, cols, rows)[v].HasEdge(u)
  {
    CreateEdgesOnBareGrid(ns, cols, rows, u, v);
    CreateEdgesOnBareGrid(ns, cols, rows, v, u);
  }

  /** `createEdges` keeps the grid shape and adds only edges inside the arena, of cost 1. */
  lemma CreateEdgesKeepsGrid(ns: seq<MapNode>, cols: nat, rows: nat)
    requires IsGrid(ns, cols, rows) && EdgesInRange(ns)
    ensures IsGrid(WithGridEdges(ns, cols, rows), cols, rows)
    ensures EdgesInRange(WithGridEdges(ns, cols, rows))
    ensures forall k, e :: 0 <= k < |ns| && e in WithGridEdges(ns, cols, rows)[k].edges && e !in ns[k].edges ==>
              e.cost == 1
  {
    var g := WithGridEdges(ns, cols, rows);
    forall k, e | 0 <= k < |ns| && e in g[k].edges
      ensures 0 <= e.target < |g| && (e !in ns[k].edges ==> e.cost == 1)
    {
      CreatedEdge(ns, cols, rows, k, e);
    }
  }

  /** GridEdgesFrom appends the same edges whatever list it starts from. */
  lemma GridEdgesFromAppends(ns: seq<MapNode>, cols: nat, rows: nat, i: int, j: int, index: int, es: seq<Edge>)
    requires CellBounds(|ns|, cols, rows, i, j, index)
    ensures GridEdgesFrom(ns, cols, rows, i, j, index, es) == es + GridEdgesFrom(ns, cols, rows, i, j, index, [])
  {
    if ns[index].IsTraversable() {
      var a := if i > 0 then EdgeIfTraversable(ns[index - 1]) else [];
      var b := if i < cols - 1 then EdgeIfTraversable(ns[index + 1]) else [];
      var c := if j > 0 then EdgeIfTraversable(ns[index - cols]) else [];
      var d := if j < rows - 1 then EdgeIfTraversable(ns[index + cols]) else [];
      AppendFour(es, a, b, c, d);
    }
  }

  lemma AppendFour(es: seq<Edge>, a: seq<Edge>, b: seq<Edge>, c: seq<Edge>, d: seq<Edge>)
    ensures es + a + b + c + d == es + ([] + a + b + c + d)
  {
    assert [] + a == a;
    assert es + a + b == es + (a + b);
    assert es + (a + b) + c == es + (a + b + c);
    assert es + (a + b + c) + d == es + (a + b + c + d);
  }

  /** GridEdgesFrom reads only the ids and types of the nodes. */
  lemma GridEdgesFromKinds(ms: seq<MapNode>, ns: seq<MapNode>, cols: nat, rows: nat, i: int, j: int, index: int, es: seq<Edge>)
    requires SameKinds(ms, ns) && CellBounds(|ns|, cols, rows, i, j, index)
    ensures GridEdgesFrom(ms, cols, rows, i, j, index, es) == GridEdgesFrom(ns, cols, rows, i, j, index, es)
  {
    assert ms[index].kind == ns[index].kind;
    if i > 0 { assert ms[index - 1].kind == ns[index - 1].kind && ms[index - 1].id == ns[index - 1].id; }
    if i < cols - 1 { assert ms[index + 1].kind == ns[index + 1].kind && ms[index + 1].id == ns[index + 1].id; }
    if j > 0 { assert ms[index - cols].kind == ns[index - cols].kind && ms[index - cols].id == ns[index - cols].id; }
    if j < rows - 1 { assert ms[index + cols].kind == ns[index + cols].kind && ms[index + cols].id == ns[index + cols].id; }
  }

  /**
   * `createEdges` does not deduplicate: run a second time on a grid that had
   * no edges, it appends a copy of every edge the first run made.
   */
  lemma CreateEdgesTwiceDuplicates(ns: seq<MapNode>, cols: nat, rows: nat, u: int)
    requires |ns| == cols * rows && NoEdges(ns) && 0 <= u < |ns|
    ensures var once := WithGridEdges(ns, cols, rows);
      WithGridEdges(once, cols, rows)[u].edges == once[u].edges + once[u].edges
  {
    var once := WithGridEdges(ns, cols, rows);
    assert SameKinds(once, ns);
    CellOfIndex(u, cols, rows);
    var i, j := ColOf(u, cols), RowOf(u, cols);
    NeighbourBounds(i, j, cols, rows);
    assert Index(i, j, cols) == u;
    assert once[u].edges == GridEdgesFrom(ns, cols, rows, i, j, u, []);
    assert WithGridEdges(once, cols, rows)[u].edges == GridEdgesFrom(once, cols, rows, i, j, u, once[u].edges);
    GridEdgesFromKinds(once, ns, cols, rows, i, j, u, once[u].edges);
    GridEdgesFromAppends(ns, cols, rows, i, j, u, once[u].edges);
  }

  class MapGraph {
    const cols: nat
    const rows: nat
    var nodes: seq<MapNode>

    /** The grid shape holds and every edge stays inside the arena. */
    ghost predicate Valid()
      reads this
    {
      IsGrid(nodes, cols, rows) && EdgesInRange(nodes)
    }

    /** The zombie-game MapGraph: every node Ground and no edges. */
    constructor Ground(cols: nat, rows: nat)
      ensures this.cols == cols && this.rows == rows && Valid()
      ensures forall k :: 0 <= k < |nodes| ==>
                nodes[k] == NewMapNode(k, ColOf(k, cols), RowOf(k, cols), NodeType.Ground)
    {
      this.cols := cols;
      this.rows := rows;
      nodes := [];
      new;
      CreateNodes(NodeType.Ground);
    }

    /**
     * The dungeon-gen MapGraph: every node Obstacle; the constructor's
     * `createEdges` adds nothing because no node is traversable yet.
     */
    constructor Obstacle(cols: nat, rows: nat)
      ensures this.cols == cols && this.rows == rows && Valid()
      ensures forall k :: 0 <= k < |nodes| ==>
                nodes[k] == NewMapNode(k, ColOf(k, cols), RowOf(k, cols), NodeType.Obstacle)
    {
      this.cols := cols;
      this.rows := rows;
      nodes := [];
      new;
      CreateNodes(NodeType.Obstacle);
      NothingToJoin(nodes, cols, rows);
      CreateEdges();
    }

    /**
     * `createNodes()`: for each row j and each column i, pushes a node whose id
     * is the current length, at (i, j), of the given type.
     */
    method CreateNodes(kind: NodeType)
      modifies this
      ensures |nodes| == |old(nodes)| + cols * rows
      ensures nodes[..|old(nodes)|] == old(nodes)
      ensures forall k :: |old(nodes)| <= k < |nodes| ==>
                nodes[k] == NewMapNode(k, ColOf(k - |old(nodes)|, cols), RowOf(k - |old(nodes)|, cols), kind)
    {
      ghost var base := |nodes|;
      var j := 0;
      while j < rows
        invariant 0 <= j <= rows
        invariant |nodes| == base + Index(0, j, cols)
        invariant nodes[..base] == old(nodes)
        invariant forall k :: base <= k < |nodes| ==>
                    nodes[k] == NewMapNode(k, ColOf(k - base, cols), RowOf(k - base, cols), kind)
      {
        var i := 0;
        while i < cols
          invariant 0 <= i <= cols
          invariant |nodes| == base + Index(i, j, cols)
          invariant nodes[..base] == old(nodes)
          invariant forall k :: base <= k < |nodes| ==>
                      nodes[k] == NewMapNode(k, ColOf(k - base, cols), RowOf(k - base, cols), kind)
        {
          IndexOfCell(i, j, cols, rows);
          var node := NewMapNode(Length(), i, j, kind);
          nodes := nodes + [node];
          i := i + 1;
        }
        j := j + 1;
      }
    }

    /**
     * `createEdges()`: every traversable node gains an edge of cost 1 to each
     * traversable orthogonal neighbour, appended to the edges it already has.
     */
    method CreateEdges()
      requires |nodes| == cols * rows
      modifies this
      ensures nodes == WithGridEdges(old(nodes), cols, rows)
      ensures old(Valid()) ==> Valid()
    {
      ghost var wasValid := Valid();
      ghost var ns := nodes;
      ghost var target := WithGridEdges(ns, cols, rows);
      WithGridEdgesSameKinds(ns, cols, rows);
      var j := 0;
      while j < rows
        invariant 0 <= j <= rows
        invariant Processed(nodes, ns, target, Index(0, j, cols))
      {
        CreateRowEdges(j, ns, target);
        IndexNextRow(j, cols);
        j := j + 1;
      }
      ProcessedAll(nodes, ns, target, Index(0, j, cols));
      if wasValid {
        CreateEdgesKeepsGrid(ns, cols, rows);
      }
    }

    /** The body of `createEdges`' outer loop: the edges of row j. */
    method CreateRowEdges(j: nat, ghost ns: seq<MapNode>, ghost target: seq<MapNode>)
      requires j < rows && |ns| == cols * rows && target == WithGridEdges(ns, cols, rows)
      requires SameKinds(target, ns)
      requires Processed(nodes, ns, target, Index(0, j, cols))
      modifies this
      ensures Processed(nodes, ns, target, Index(cols, j, cols))
    {
      var i := 0;
      while i < cols
        invariant 0 <= i <= cols
        invariant Processed(nodes, ns, target, Index(i, j, cols))
      {
        WithGridEdgesAtCell(ns, cols, rows, i, j);
        NeighbourBounds(i, j, cols, rows);
        CreateEdgesAt(i, j, ns, target, Index(i, j, cols));
        i := i + 1;
      }
    }

    /** The body of `createEdges` for the cell (i, j), whose index is `done`. */
    method CreateEdgesAt(i: nat, j: nat, ghost ns: seq<MapNode>, ghost target: seq<MapNode>, ghost done: int)
      requires done == Index(i, j, cols) && CellBounds(|ns|, cols, rows, i, j, done)
      requires SameKinds(target, ns)
      requires target[done] == ns[done].(edges := GridEdgesFrom(ns, cols, rows, i, j, done, ns[done].edges))
      requires Processed(nodes, ns, target, done)
      modifies this
      ensures Processed(nodes, ns, target, done + 1)
    {
      var index := j * cols + i;
      assert index == done;
      var current := nodes[index];
      assert current == ns[index];
      if current.IsTraversable() {
        ghost var es := ns[index].edges;
        assert current == ns[index].(edges := es);
        if i > 0 {
          var west := nodes[index - 1];
          ProcessedKinds(nodes, ns, target, done, index - 1);
          TryAddEdgeAppends(current, west, ns[index - 1]);
          current := current.TryAddEdge(west, 1);
        }
        es := es + if i > 0 then EdgeIfTraversable(ns[index - 1]) else [];
        assert current == ns[index].(edges := es);
        if i < cols - 1 {
          var east := nodes[index + 1];
          ProcessedKinds(nodes, ns, target, done, index + 1);
          TryAddEdgeAppends(current, east, ns[index + 1]);
          current := current.TryAddEdge(east, 1);
        }
        es := es + if i < cols - 1 then EdgeIfTraversable(ns[index + 1]) else [];
        assert current == ns[index].(edges := es);
        if j > 0 {
          var north := nodes[index - cols];
          ProcessedKinds(nodes, ns, target, done, index - cols);
          TryAddEdgeAppends(current, north, ns[index - cols]);
          current := current.TryAddEdge(north, 1);
        }
        es := es + if j > 0 then EdgeIfTraversable(ns[index - cols]) else [];
        assert current == ns[index].(edges := es);
        if j < rows - 1 {
          var south := nodes[index + cols];
          ProcessedKinds(nodes, ns, target, done, index + cols);
          TryAddEdgeAppends(current, south, ns[index + cols]);
          current := current.TryAddEdge(south, 1);
        }
        es := es + if j < rows - 1 then EdgeIfTraversable(ns[index + cols]) else [];
        assert current == ns[index].(edges := es);
        assert es == GridEdgesFrom(ns, cols, rows, i, j, done, ns[done].edges);
        assert current == target[index];
        nodes := nodes[index := current];
      } else {
        assert current == ns[index] == target[index];
      }
    }

    /** `get(index)`: the node at that index, or `undefined`. */
    function Get(index: int): (r: Option<MapNode>)
      reads this
      ensures r.Some? <==> 0 <= index < |nodes|
      ensures r.Some? ==> r.value == nodes[index]
    {
      if 0 <= index < |nodes| then Some(nodes[index]) else None
    }

    /**
     * `getAt(i, j)`: `get(j * cols + i)` with no bounds check of its own. On
     * a valid graph a cell inside the grid yields the node at that cell.
     */
    function GetAt(i: int, j: int): (r: Option<MapNode>)
      reads this
      ensures Valid() && 0 <= i < cols && 0 <= j < rows ==>
                r.Some? && r.value.i == i && r.value.j == j && r.value.id == Index(i, j, cols)
      ensures r.Some? <==> 0 <= Index(i, j, cols) < |nodes|
      ensures r.Some? ==> r.value == nodes[Index(i, j, cols)]
    {
      IndexOfCellIfInside(i, j, cols, rows);
      Get(j * cols + i)
    }

    /**
     * `getAt` does no bounds check: one column past the end of row j names
     * the first node of row j + 1.
     */
    lemma GetAtWrapsToNextRow(j: int)
      requires Valid() && 0 < cols && 0 <= j && j + 1 < rows
      ensures GetAt(cols, j).Some? && GetAt(cols, j) == GetAt(0, j + 1)
      ensures GetAt(cols, j).value.i == 0 && GetAt(cols, j).value.j == j + 1
    {
      IndexNextRow(j, cols);
      assert GetAt(0, j + 1).Some?;
    }

    /** `length()`: the number of nodes, cols · rows on a valid graph. */
    function Length(): (n: nat)
      reads this
      ensures n == |nodes|
      ensures Valid() ==> n == cols * rows
    {
      |nodes|
    }

    /**
     * `node.addEdge(target, cost)` on the node with id `from`: the edge is
     * appended to that node and nothing else changes.
     */
    method AddEdge(from: int, to: int, cost: int)
      requires 0 <= from < |nodes|
      modifies this
      ensures nodes == old(nodes)[from := old(nodes)[from].AddEdge(to, cost)]
      ensures old(Valid()) && 0 <= to < |nodes| ==> Valid()
    {
      nodes := nodes[from := nodes[from].AddEdge(to, cost)];
    }
  }
}
