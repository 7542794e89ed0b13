/**
 * The zombie-game A* search (PathFinder.js): gScore, fScore and predecessor
 * maps over the arena's node ids, a min-heap frontier keyed by fScore, and the
 * walk back along predecessors that turns the target into a path of world
 * positions.
 */
module PathFinder {
  import opened Wrappers
  import opened MathUtil
  import opened MapNode
  import opened MapGraph
  import opened MazeGenerator
  import opened GameMap
  import opened MinHeap

  function RealAbs(x: real): (r: real)
    ensures r >= 0.0 && (r == x || r == -x)
  {
    if x < 0.0 then -x else x
  }

  /**
   * `calculateHeuristic(nodeA, nodeB)`: the Manhattan distance of the two
   * localized centres.
   */
  function Heuristic(c: MapConfig, a: MapNode, b: MapNode): (h: real)
    ensures h >= 0.0
  {
    var posA := Localize(c, a);
    var posB := Localize(c, b);
    RealAbs(posA.x - posB.x) + RealAbs(posA.z - posB.z)
  }

  /**
   * With a non-negative tile size the heuristic is the tile size times the
   * Manhattan distance of the two cells, and zero on the same cell.
   */
  lemma HeuristicCells(c: MapConfig, a: MapNode, b: MapNode)
    requires c.tileSize >= 0.0
    ensures Heuristic(c, a, b) == c.tileSize * (Abs(a.i - b.i) + Abs(a.j - b.j)) as real
    ensures a.i == b.i && a.j == b.j ==> Heuristic(c, a, b) == 0.0
  {
    var posA, posB := Localize(c, a), Localize(c, b);
    var t := c.tileSize;
    ScaledDifference(c.minX, t, a.i, b.i, posA.x - posB.x);
    ScaledDifference(c.minZ, t, a.j, b.j, posA.z - posB.z);
    assert t * (Abs(a.i - b.i) + Abs(a.j - b.j)) as real
        == t * Abs(a.i - b.i) as real + t * Abs(a.j - b.j) as real;
  }

  lemma ScaledDifference(m: real, t: real, p: int, q: int, d: real)
    requires t >= 0.0
    requires d == (m + p as real * t + t / 2.0) - (m + q as real * t + t / 2.0)
    ensures RealAbs(d) == t * Abs(p - q) as real
  {
    assert d == (p - q) as real * t;
    if p < q {
      assert Abs(p - q) as real * t == -((p - q) as real * t);
    }
  }

  /** The heuristic does not depend on the order of its arguments. */
  lemma HeuristicSymmetric(c: MapConfig, a: MapNode, b: MapNode)
    ensures Heuristic(c, a, b) == Heuristic(c, b, a)
  {
    var posA, posB := Localize(c, a), Localize(c, b);
    assert RealAbs(posA.x - posB.x) == RealAbs(posB.x - posA.x);
    assert RealAbs(posA.z - posB.z) == RealAbs(posB.z - posA.z);
  }

  // ---------------------------------------------------------------------
  // The search state

  /** Every scored node is a node of the arena. */
  ghost predicate Recorded(ns: seq<MapNode>, g: map<int, nat>) {
    forall n :: n in g ==> 0 <= n < |ns|
  }

  /**
   * The predecessor links: start is scored 0 and has no predecessor; every
   * other scored node has one, which is scored lower and has an edge to it.
   */
  ghost predicate Links(ns: seq<MapNode>, g: map<int, nat>, previous: map<int, int>, s: int) {
    s in g && g[s] == 0 && s !in previous &&
    (forall n :: n in g && n != s ==> n in previous) &&
    forall n {:trigger previous[n]} :: n in previous ==>
      n in g && previous[n] in g && 0 <= previous[n] < |ns| &&
      ns[previous[n]].HasEdge(n) && g[previous[n]] < g[n]
  }

  /** fScore is gScore plus the heuristic to the target, on the same nodes. */
  ghost predicate Estimates(c: MapConfig, ns: seq<MapNode>, t: int, g: map<int, nat>, f: map<int, real>)
    requires 0 <= t < |ns| && Recorded(ns, g)
  {
    (forall n :: n in f <==> n in g) &&
    forall n :: n in g ==> f[n] == g[n] as real + Heuristic(c, ns[n], ns[t])
  }

  /** Every edge out of node n leads to a scored node. */
  ghost predicate Closed(ns: seq<MapNode>, g: map<int, nat>, n: int)
    requires 0 <= n < |ns|
  {
    forall e :: e in ns[n].edges ==> e.target in g
  }

  /**
   * The frontier: queued nodes are scored, the target once scored is queued,
   * and every scored node other than `open` is queued or closed.
   */
  ghost predicate FrontierBut(ns: seq<MapNode>, g: map<int, nat>, Q: set<int>, t: int, open: int)
    requires Recorded(ns, g)
  {
    (forall n :: n in Q ==> n in g) && (t in g ==> t in Q) &&
    forall n {:trigger Closed(ns, g, n)} :: n in g && n != open ==> n in Q || Closed(ns, g, n)
  }

  /** The frontier with no node open. */
  ghost predicate Frontier(ns: seq<MapNode>, g: map<int, nat>, Q: set<int>, t: int)
    requires Recorded(ns, g)
  {
    FrontierBut(ns, g, Q, t, -1)
  }

  /**
   * The state of the search between steps: scored nodes in the arena, the
   * predecessor links, the fScores and the frontier around node `open`.
   */
  ghost predicate Search(c: MapConfig, ns: seq<MapNode>, t: int, s: int, g: map<int, nat>, f: map<int, real>,
                         previous: map<int, int>, Q: set<int>, open: int)
    requires 0 <= t < |ns|
  {
    Recorded(ns, g) && Links(ns, g, previous, s) && Estimates(c, ns, t, g, f) && FrontierBut(ns, g, Q, t, open)
  }

  /** The number of ids below n that have no score yet. */
  function Missing(g: map<int, nat>, n: nat): nat {
    if n == 0 then 0 else Missing(g, n - 1) + if n - 1 in g then 0 else 1
  }

  /** The sum of the scores of the ids below n. */
  function ScoreSum(g: map<int, nat>, n: nat): nat {
    if n == 0 then 0 else ScoreSum(g, n - 1) + if n - 1 in g then g[n - 1] else 0
  }

  /** Scoring a new node k below n leaves one fewer id unscored. */
  lemma {:induction false} MissingAdd(g: map<int, nat>, n: nat, k: int, v: nat)
    requires 0 <= k && k !in g
    ensures Missing(g[k := v], n) == Missing(g, n) - if k < n then 1 else 0
    ensures k < n ==> Missing(g, n) >= 1
  {
    if n > 0 {
      MissingAdd(g, n - 1, k, v);
    }
  }

  /** Rescoring a scored node leaves the unscored ids as they were. */
  lemma {:induction false} MissingSame(g: map<int, nat>, n: nat, k: int, v: nat)
    requires k in g
    ensures Missing(g[k := v], n) == Missing(g, n)
  {
    if n > 0 {
      MissingSame(g, n - 1, k, v);
    }
  }

  /** Lowering the score of node k below n lowers the sum by the difference. */
  lemma {:induction false} ScoreSumLower(g: map<int, nat>, n: nat, k: int, v: nat)
    requires 0 <= k && k in g && v <= g[k]
    ensures ScoreSum(g[k := v], n) == ScoreSum(g, n) - if k < n then g[k] - v else 0
    ensures k < n ==> ScoreSum(g, n) >= g[k]
  {
    if n > 0 {
      ScoreSumLower(g, n - 1, k, v);
    }
  }

  /**
   * The search moved forward: fewer unscored nodes, or as many and a lower
   * sum of scores.
   */
  ghost predicate Progress(g0: map<int, nat>, g1: map<int, nat>, n: nat) {
    Missing(g1, n) < Missing(g0, n) ||
    (Missing(g1, n) == Missing(g0, n) && ScoreSum(g1, n) < ScoreSum(g0, n))
  }

  lemma ProgressTrans(g0: map<int, nat>, g1: map<int, nat>, g2: map<int, nat>, n: nat)
    requires Progress(g0, g1, n) || g0 == g1
    requires Progress(g1, g2, n)
    ensures Progress(g0, g2, n)
  {
  }

  /** Scoring a node for the first time or lowering its score is progress. */
  lemma RelaxProgress(g: map<int, nat>, n: nat, k: int, v: nat)
    requires 0 <= k < n
    requires k !in g || v < g[k]
    ensures Progress(g, g[k := v], n)
  {
    if k in g {
      MissingSame(g, n, k, v);
      ScoreSumLower(g, n, k, v);
    } else {
      MissingAdd(g, n, k, v);
    }
  }

  /** Relaxing the edge from `cur` to `k` with score v keeps the predecessor links. */
  lemma RelaxLinks(ns: seq<MapNode>, g: map<int, nat>, previous: map<int, int>, s: int, cur: int, k: int, v: nat)
    requires Recorded(ns, g) && Links(ns, g, previous, s)
    requires cur in g && ns[cur].HasEdge(k) && g[cur] < v && (k !in g || v < g[k])
    ensures Links(ns, g[k := v], previous[k := cur], s)
  {
  }

  /** The score maps after one relaxation still satisfy the search invariants. */
  lemma RelaxScores(c: MapConfig, ns: seq<MapNode>, t: int, g: map<int, nat>, f: map<int, real>,
                    previous: map<int, int>, s: int, cur: int, k: int, v: nat)
    requires 0 <= t < |ns| && 0 <= k < |ns| && Recorded(ns, g)
    requires Links(ns, g, previous, s) && Estimates(c, ns, t, g, f)
    requires cur in g && ns[cur].HasEdge(k) && g[cur] < v && (k !in g || v < g[k])
    ensures Recorded(ns, g[k := v]) && Links(ns, g[k := v], previous[k := cur], s)
    ensures Estimates(c, ns, t, g[k := v], f[k := v as real + Heuristic(c, ns[k], ns[t])])
    ensures Progress(g, g[k := v], |ns|)
  {
    RelaxLinks(ns, g, previous, s, cur, k, v);
    RelaxProgress(g, |ns|, k, v);
  }

  /** An edge of node n leads into the arena, costs at least 1 and is found by `hasEdge`. */
  lemma EdgeOf(ns: seq<MapNode>, n: int, e: Edge)
    requires EdgesInRange(ns) && PositiveCosts(ns) && 0 <= n < |ns| && e in ns[n].edges
    ensures 0 <= e.target < |ns| && e.cost >= 1 && ns[n].HasEdge(e.target)
  {
  }

  /** Scores only gained: what was closed stays closed. */
  lemma ClosedGrow(ns: seq<MapNode>, g: map<int, nat>, g': map<int, nat>, n: int)
    requires 0 <= n < |ns| && Closed(ns, g, n) && g.Keys <= g'.Keys
    ensures Closed(ns, g', n)
  {
  }

  /** Relaxing `k` and queueing it keeps the frontier around `cur`. */
  lemma RelaxFrontier(ns: seq<MapNode>, g: map<int, nat>, Q: set<int>, t: int, cur: int, k: int, v: nat, Q': set<int>)
    requires Recorded(ns, g) && FrontierBut(ns, g, Q, t, cur) && 0 <= k < |ns| && Q' == Q + {k}
    ensures Recorded(ns, g[k := v]) && FrontierBut(ns, g[k := v], Q', t, cur)
  {
    var g' := g[k := v];
    forall n | n in g' && n != cur && n !in Q'
      ensures Closed(ns, g', n)
    {
      ClosedGrow(ns, g, g', n);
    }
  }

  /** One relaxation, with `k` queued afterwards, keeps the search state. */
  lemma RelaxSearch(c: MapConfig, ns: seq<MapNode>, t: int, s: int, g: map<int, nat>, f: map<int, real>,
                    previous: map<int, int>, Q: set<int>, cur: int, k: int, v: nat, Q': set<int>)
    requires 0 <= t < |ns| && 0 <= k < |ns| && Search(c, ns, t, s, g, f, previous, Q, cur)
    requires cur in g && ns[cur].HasEdge(k) && g[cur] < v && (k !in g || v < g[k]) && Q' == Q + {k}
    ensures Search(c, ns, t, s, g[k := v], f[k := v as real + Heuristic(c, ns[k], ns[t])],
                   previous[k := cur], Q', cur)
    ensures Progress(g, g[k := v], |ns|)
  {
    RelaxScores(c, ns, t, g, f, previous, s, cur, k, v);
    RelaxFrontier(ns, g, Q, t, cur, k, v, Q');
  }

  /** Once every edge of `open` leads to a scored node, no node is open. */
  lemma CloseOpen(c: MapConfig, ns: seq<MapNode>, t: int, s: int, g: map<int, nat>, f: map<int, real>,
                  previous: map<int, int>, Q: set<int>, open: int)
    requires 0 <= t < |ns| && Search(c, ns, t, s, g, f, previous, Q, open)
    requires 0 <= open < |ns| && Closed(ns, g, open)
    ensures Search(c, ns, t, s, g, f, previous, Q, -1)
  {
  }

  /** Taking a node other than the target off the queue opens it. */
  lemma OpenNode(c: MapConfig, ns: seq<MapNode>, t: int, s: int, g: map<int, nat>, f: map<int, real>,
                 previous: map<int, int>, Q: set<int>, cur: int, Q': set<int>)
    requires 0 <= t < |ns| && Search(c, ns, t, s, g, f, previous, Q, -1)
    requires cur in Q && cur != t && Q' == Q - {cur}
    ensures cur in g && Search(c, ns, t, s, g, f, previous, Q', cur)
  {
    forall n | n in g && n != cur && n !in Q'
      ensures Closed(ns, g, n)
    {
      assert n !in Q;
    }
  }

  /**
   * The walk `chain` from start: ids of the arena other than start, empty
   * exactly when start is the target, and otherwise ending at the target with
   * an edge from each node, start first, to the next.
   */
  ghost predicate Route(ns: seq<MapNode>, s: int, t: int, chain: seq<int>) {
    (forall k :: 0 <= k < |chain| ==> 0 <= chain[k] < |ns| && chain[k] != s) &&
    (s == t <==> chain == []) &&
    (chain != [] ==> chain[|chain| - 1] == t && IsPath(ns, [s] + chain))
  }

  /**
   * The walk built so far by `reconstructPath`: `chain` runs from `current`'s
   * successor to the target, avoiding start.
   */
  ghost predicate Walk(ns: seq<MapNode>, s: int, current: int, t: int, chain: seq<int>) {
    0 <= current < |ns| &&
    (forall k :: 0 <= k < |chain| ==> 0 <= chain[k] < |ns| && chain[k] != s) &&
    (chain == [] ==> current == t) &&
    (chain != [] ==> chain[|chain| - 1] == t && IsPath(ns, [current] + chain))
  }

  /** Stepping back from a node other than start to its predecessor extends the walk. */
  lemma WalkBack(ns: seq<MapNode>, g: map<int, nat>, previous: map<int, int>, s: int, current: int, t: int,
                 chain: seq<int>)
    requires Links(ns, g, previous, s) && current in previous && current != s && Walk(ns, s, current, t, chain)
    ensures Walk(ns, s, previous[current], t, [current] + chain)
    ensures previous[current] in g && g[previous[current]] < g[current]
  {
    var q := [current] + chain;
    if chain == [] {
      assert IsPath(ns, q) by { assert q == [current]; }
    } else {
      assert q[1..] == chain;
    }
    PathCons(ns, previous[current], q);
  }

  /** A route from s to t makes t reachable from s. */
  lemma RouteReachable(ns: seq<MapNode>, s: int, t: int, chain: seq<int>)
    requires 0 <= s < |ns| && Route(ns, s, t, chain)
    ensures Reachable(ns, s, t)
  {
    if chain == [] {
      ReachableSelf(ns, s);
    } else {
      var p := [s] + chain;
      assert p[0] == s && p[|p| - 1] == t;
    }
  }

  /**
   * A set of nodes holding a and closed under edges holds every node
   * reachable from a: so a target outside it is unreachable.
   */
  lemma ClosedUnreachable(ns: seq<MapNode>, g: map<int, nat>, a: int, b: int)
    requires Recorded(ns, g) && a in g && b !in g
    requires forall n :: n in g ==> Closed(ns, g, n)
    ensures !Reachable(ns, a, b)
  {
    if Reachable(ns, a, b) {
      var p :| IsPath(ns, p) && p[0] == a && p[|p| - 1] == b;
      var k := 0;
      while k < |p| - 1
        invariant 0 <= k < |p| && p[k] in g
      {
        var e := ns[p[k]].GetEdge(p[k + 1]).value;
        assert e in ns[p[k]].edges && Closed(ns, g, p[k]);
        k := k + 1;
      }
    }
  }

  /** An edge into the head of a walk extends the walk. */
  lemma PathCons(ns: seq<MapNode>, a: int, p: seq<int>)
    requires IsPath(ns, p) && 0 <= a < |ns| && ns[a].HasEdge(p[0])
    ensures IsPath(ns, [a] + p)
  {
    var q := [a] + p;
    assert forall k :: 1 <= k < |q| ==> q[k] == p[k - 1];
  }

  /** A detection radius: `Infinity`, or a finite number. */
  datatype Radius = Infinite | Finite(r: real)

  class PathFinder {
    const gameMap: GameMap
    const detectionRadius: Radius

    /** `new PathFinder(gameMap)`: the detection radius is `Infinity`. */
    constructor(gameMap: GameMap)
      ensures this.gameMap == gameMap && detectionRadius == Infinite
    {
      this.gameMap := gameMap;
      detectionRadius := Infinite;
    }

    /**
     * `canDetectTarget(zombiePos, targetPos)`, with the distance between the
     * two positions given: a target is detected within the radius, so with
     * the constructor's `Infinity` every finite distance is detected.
     */
    function CanDetectTarget(distance: real): (b: bool)
      ensures detectionRadius == Infinite ==> b
      ensures detectionRadius.Finite? ==> (b <==> distance <= detectionRadius.r)
    {
      match detectionRadius
      case Infinite => true
      case Finite(r) => distance <= r
    }

    /**
     * `reconstructPath(previousMap, startNode, targetNode)`: follows the
     * predecessors from the target back to start, putting the position of each
     * node before start at the front of the path. `chain` holds their ids.
     */
    method ReconstructPath(previous: map<int, int>, s: int, t: int, ghost g: map<int, nat>)
      returns (path: seq<Vec3>, ghost chain: seq<int>)
      requires Recorded(gameMap.graph.nodes, g) && Links(gameMap.graph.nodes, g, previous, s) && t in g
      ensures Route(gameMap.graph.nodes, s, t, chain)
      ensures path == LocalizeAll(gameMap.config, gameMap.graph.nodes, chain)
    {
      ghost var ns := gameMap.graph.nodes;
      path := [];
      chain := [];
      var current := t;
      while current != s
        invariant current in g && Walk(ns, s, current, t, chain)
        invariant path == LocalizeAll(gameMap.config, ns, chain)
        decreases g[current]
      {
        path := [Localize(gameMap.config, gameMap.graph.nodes[current])] + path;
        if current !in previous {
          assert false;
          break;
        }
        WalkBack(ns, g, previous, s, current, t, chain);
        chain := [current] + chain;
        current := previous[current];
      }
    }

    /**
     * One pass of the edge loop of `findPathToTarget`: when `neighbor` is
     * unscored, or `tentativeGScore` beats its gScore, it gets `cur` as its
     * predecessor, that gScore, fScore gScore plus the heuristic, and a queue
     * entry at that fScore, added when it is not queued and updated when it is.
     */
    method RelaxEdge(cur: int, tentativeGScore: nat, neighbor: int, t: int, g0: map<int, nat>, f0: map<int, real>,
                     previous0: map<int, int>, queue: MinHeap, ghost s: int)
      returns (g: map<int, nat>, f: map<int, real>, previous: map<int, int>)
      requires queue.Valid() && 0 <= t < |gameMap.graph.nodes| && 0 <= neighbor < |gameMap.graph.nodes|
      requires Search(gameMap.config, gameMap.graph.nodes, t, s, g0, f0, previous0, Nodes(queue.heap), cur)
      requires cur in g0 && gameMap.graph.nodes[cur].HasEdge(neighbor) && g0[cur] < tentativeGScore
      modifies queue
      ensures queue.Valid() && neighbor in g && g0.Keys <= g.Keys && cur in g && g[cur] == g0[cur]
      ensures Search(gameMap.config, gameMap.graph.nodes, t, s, g, f, previous, Nodes(queue.heap), cur)
      ensures if neighbor !in g0 || tentativeGScore < g0[neighbor] then
                g == g0[neighbor := tentativeGScore] && previous == previous0[neighbor := cur] &&
                Progress(g0, g, |gameMap.graph.nodes|) &&
                forall e :: e in queue.heap <==> (e in old(queue.heap) && e.node != neighbor) || e == Entry(neighbor, f[neighbor])
              else
                g == g0 && f == f0 && previous == previous0 && queue.heap == old(queue.heap)
    {
      g, f, previous := g0, f0, previous0;
      if neighbor !in g || tentativeGScore < g[neighbor] {
        g, f, previous := Relax(cur, neighbor, tentativeGScore, t, g0, f0, previous0, queue, s);
      }
    }

    /** The body of the relaxing `if`: the updates themselves. */
    method Relax(cur: int, neighbor: int, v: nat, t: int, g0: map<int, nat>, f0: map<int, real>,
                 previous0: map<int, int>, queue: MinHeap, ghost s: int)
      returns (g: map<int, nat>, f: map<int, real>, previous: map<int, int>)
      requires queue.Valid() && 0 <= t < |gameMap.graph.nodes| && 0 <= neighbor < |gameMap.graph.nodes|
      requires Search(gameMap.config, gameMap.graph.nodes, t, s, g0, f0, previous0, Nodes(queue.heap), cur)
      requires cur in g0 && gameMap.graph.nodes[cur].HasEdge(neighbor)
      requires g0[cur] < v && (neighbor !in g0 || v < g0[neighbor])
      modifies queue
      ensures queue.Valid() && g == g0[neighbor := v] && previous == previous0[neighbor := cur]
      ensures Search(gameMap.config, gameMap.graph.nodes, t, s, g, f, previous, Nodes(queue.heap), cur)
      ensures Progress(g0, g, |gameMap.graph.nodes|)
      ensures forall e :: e in queue.heap <==> (e in old(queue.heap) && e.node != neighbor) || e == Entry(neighbor, f[neighbor])
    {
      ghost var ns := gameMap.graph.nodes;
      previous := previous0[neighbor := cur];
      g := g0[neighbor := v];
      var heuristicCost := Heuristic(gameMap.config, gameMap.graph.nodes[neighbor], gameMap.graph.nodes[t]);
      f := f0[neighbor := v as real + heuristicCost];
      ghost var queued0 := Nodes(queue.heap);
      var queued := queue.Contains(neighbor);
      if !queued {
        queue.Enqueue(neighbor, f[neighbor]);
      } else {
        queue.UpdatePriority(neighbor, f[neighbor]);
      }
      assert ns == gameMap.graph.nodes;
      RelaxSearch(gameMap.config, ns, t, s, g0, f0, previous0, queued0, cur, neighbor, v, Nodes(queue.heap));
    }

    /**
     * The `for (const edge of current.edges)` loop: every edge of `cur` is
     * relaxed with gScore `currentGScore` plus its cost; afterwards every
     * neighbour of `cur` is scored.
     */
    method Expand(cur: int, t: int, g0: map<int, nat>, f0: map<int, real>, previous0: map<int, int>,
                  queue: MinHeap, ghost s: int)
      returns (g: map<int, nat>, f: map<int, real>, previous: map<int, int>)
      requires EdgesInRange(gameMap.graph.nodes) && PositiveCosts(gameMap.graph.nodes)
      requires queue.Valid() && 0 <= t < |gameMap.graph.nodes| && cur in g0
      requires Search(gameMap.config, gameMap.graph.nodes, t, s, g0, f0, previous0, Nodes(queue.heap), cur)
      modifies queue
      ensures queue.Valid()
      ensures Search(gameMap.config, gameMap.graph.nodes, t, s, g, f, previous, Nodes(queue.heap), -1)
      ensures Progress(g0, g, |gameMap.graph.nodes|) || (g == g0 && queue.heap == old(queue.heap))
    {
      ghost var ns := gameMap.graph.nodes;
      var edges := gameMap.graph.nodes[cur].edges;
      g, f, previous := g0, f0, previous0;
      var currentGScore := g[cur];
      for k := 0 to |edges|
        invariant queue.Valid() && cur in g && g[cur] == currentGScore
        invariant Search(gameMap.config, ns, t, s, g, f, previous, Nodes(queue.heap), cur)
        invariant forall m :: 0 <= m < k ==> edges[m].target in g
        invariant Progress(g0, g, |ns|) || (g == g0 && queue.heap == old(queue.heap))
      {
        EdgeOf(ns, cur, edges[k]);
        ghost var gBefore := g;
        g, f, previous := RelaxEdge(cur, currentGScore + edges[k].cost, edges[k].target, t, g, f, previous, queue, s);
        if g != gBefore {
          ProgressTrans(g0, gBefore, g, |ns|);
        }
      }
      CloseOpen(gameMap.config, ns, t, s, g, f, previous, Nodes(queue.heap), cur);
    }

    /**
     * `findPathToTarget(startPos, targetPos)`: `null` when either position
     * quantizes to no node; otherwise A* from the start node, which returns
     * the reconstructed path when the target is dequeued and `null` when the
     * queue runs dry. A path comes back exactly when the target is reachable
     * from start along edges, and it is a walk from start's successor on.
     */
    method FindPathToTarget(startPos: Vec3, targetPos: Vec3) returns (path: Option<seq<Vec3>>, ghost chain: seq<int>)
      requires gameMap.Valid()
      ensures var startNode := Quantize(gameMap.config, gameMap.graph, startPos);
              var targetNode := Quantize(gameMap.config, gameMap.graph, targetPos);
              if startNode.None? || targetNode.None? then path.None?
              else
                (path.Some? <==> Reachable(gameMap.graph.nodes, startNode.value.id, targetNode.value.id)) &&
                (path.Some? ==> Route(gameMap.graph.nodes, startNode.value.id, targetNode.value.id, chain) &&
                                path.value == LocalizeAll(gameMap.config, gameMap.graph.nodes, chain))
    {
      chain := [];
      var startNode := Quantize(gameMap.config, gameMap.graph, startPos);
      var targetNode := Quantize(gameMap.config, gameMap.graph, targetPos);
      if startNode.None? || targetNode.None? {
        return None, chain;
      }
      ghost var ns := gameMap.graph.nodes;
      var s, t := startNode.value.id, targetNode.value.id;
      var g: map<int, nat> := map[s := 0];
      var f := map[s := Heuristic(gameMap.config, startNode.value, targetNode.value)];
      var previous: map<int, int> := map[];
      var queue := new MinHeap();
      queue.Enqueue(s, f[s]);
      while !queue.IsEmpty()
        invariant fresh(queue) && queue.Valid() && ns == gameMap.graph.nodes
        invariant Search(gameMap.config, ns, t, s, g, f, previous, Nodes(queue.heap), -1)
        decreases Missing(g, |ns|), ScoreSum(g, |ns|), |queue.heap|
      {
        ghost var h := queue.heap;
        var current := queue.Dequeue();
        var cur := current.value;
        assert h[0] in h;
        if cur == t {
          var p;
          p, chain := ReconstructPath(previous, s, t, g);
          RouteReachable(ns, s, t, chain);
          return Some(p), chain;
        }
        OpenNode(gameMap.config, ns, t, s, g, f, previous, Nodes(h), cur, Nodes(queue.heap));
        g, f, previous := Expand(cur, t, g, f, previous, queue, s);
      }
      ClosedUnreachable(ns, g, s, t);
      return None, chain;
    }
  }
}
