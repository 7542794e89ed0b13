/**
 * Grid nodes (maze-gen MapNode), held in an arena: an edge names its target by
 * the target's id, which is the target's index in the graph's node list.
 */
module MapNode {
  import opened Wrappers

  /** `MapNode.Type`: the dungeon's variant adds Obstacle to the maze's Ground. */
  datatype NodeType = Ground | Obstacle

  /** `{node, cost}` with the node given by its id. */
  datatype Edge = Edge(target: int, cost: int)

  /**
   * The index of the first edge satisfying `p`, or |es| if there is none:
   * the search `Array.prototype.find` performs.
   */
  function Find(es: seq<Edge>, p: Edge -> bool): (k: nat)
    ensures k <= |es|
    ensures k < |es| ==> p(es[k])
    ensures forall m :: 0 <= m < k ==> !p(es[m])
  {
    if es == [] then 0
    else if p(es[0]) then 0
    else 1 + Find(es[1..], p)
  }

  /** The result of `find`: the first match, or `undefined`. */
  function FindEdge(es: seq<Edge>, p: Edge -> bool): (r: Option<Edge>)
    ensures r.None? <==> forall m :: 0 <= m < |es| ==> !p(es[m])
    ensures r.Some? ==> exists k :: 0 <= k < |es| && es[k] == r.value && p(es[k]) &&
                                    forall m :: 0 <= m < k ==> !p(es[m])
  {
    var k := Find(es, p);
    if k < |es| then Some(es[k]) else None
  }

  datatype MapNode = MapNode(id: int, i: int, j: int, kind: NodeType, edges: seq<Edge>) {

    predicate IsTraversable() {
      kind == Ground
    }

    /** `addEdge(node, cost)`: appends `{node, cost}`, with no duplicate check. */
    function AddEdge(target: int, cost: int): (n: MapNode)
      ensures n.edges == edges + [Edge(target, cost)]
      ensures n.id == id && n.i == i && n.j == j && n.kind == kind
    {
      this.(edges := edges + [Edge(target, cost)])
    }

    /** `tryAddEdge(node, cost)`: adds the edge only when `node` is traversable. */
    function TryAddEdge(node: MapNode, cost: int): (n: MapNode)
      ensures node.kind == Ground ==> n.edges == edges + [Edge(node.id, cost)]
      ensures node.kind != Ground ==> n.edges == edges
      ensures n.id == id && n.i == i && n.j == j && n.kind == kind
    {
      if node.IsTraversable() then AddEdge(node.id, cost) else this
    }

    /** `getEdge(node)`: the first edge whose target is `node`. */
    function GetEdge(node: int): (r: Option<Edge>)
      ensures r.None? <==> forall m :: 0 <= m < |edges| ==> edges[m].target != node
      ensures r.Some? ==> r.value.target == node && r.value in edges &&
                          exists k :: 0 <= k < |edges| && edges[k] == r.value &&
                                      forall m :: 0 <= m < k ==> edges[m].target != node
    {
      FindEdge(edges, (e: Edge) => e.target == node)
    }

    /** `hasEdge(node)`. */
    predicate HasEdge(node: int)
      ensures HasEdge(node) <==> exists e :: e in edges && e.target == node
    {
      GetEdge(node).Some?
    }

    /**
     * `getEdgeTo(i, j)`: the first edge whose target has coordinates (i, j);
     * `nodes` is the arena the targets live in.
     */
    function GetEdgeTo(nodes: seq<MapNode>, i: int, j: int): (r: Option<Edge>)
      requires forall e :: e in edges ==> 0 <= e.target < |nodes|
      ensures r.None? <==> forall e :: e in edges ==> nodes[e.target].i != i || nodes[e.target].j != j
      ensures r.Some? ==> r.value in edges && nodes[r.value.target].i == i && nodes[r.value.target].j == j &&
                          exists k :: 0 <= k < |edges| && edges[k] == r.value &&
                                      forall m :: 0 <= m < k ==> nodes[edges[m].target].i != i || nodes[edges[m].target].j != j
    {
      FindEdge(edges, (e: Edge) => 0 <= e.target < |nodes| && nodes[e.target].i == i && nodes[e.target].j == j)
    }

    /** `hasEdgeTo(i, j)`. */
    predicate HasEdgeTo(nodes: seq<MapNode>, i: int, j: int)
      requires forall e :: e in edges ==> 0 <= e.target < |nodes|
      ensures HasEdgeTo(nodes, i, j) <==>
              exists e :: e in edges && nodes[e.target].i == i && nodes[e.target].j == j
    {
      GetEdgeTo(nodes, i, j).Some?
    }
  }

  /** `new MapNode(id, i, j, type)`: the fields as given and no edges. */
  function NewMapNode(id: int, i: int, j: int, kind: NodeType): (n: MapNode)
    ensures n.id == id && n.i == i && n.j == j && n.kind == kind && n.edges == []
  {
    MapNode(id, i, j, kind, [])
  }
}
