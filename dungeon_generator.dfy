/**
 * The dungeon generator (dungeon-gen DungeonGenerator): one room per leaf of
 * a binary space partition, a Prim-style spanning tree of connections between
 * the rooms' centres, and an L-shaped corridor for each connection, all
 * carved into an arena of Obstacle nodes, whose edges are then built once.
 */
module DungeonGenerator {
  import opened Wrappers
  import opened Rng
  import opened MathUtil
  import opened Rect
  import opened MapNode
  import opened MapGraph
  import opened Partition

  // ---------------------------------------------------------------------
  // Tiles turned Ground

  /** The arena with every node whose index is in S turned Ground. */
  ghost function Paint(ns: seq<MapNode>, S: set<int>): (r: seq<MapNode>)
    ensures |r| == |ns|
  {
    seq(|ns|, k requires 0 <= k < |ns| => if k in S then ns[k].(kind := Ground) else ns[k])
  }

  /** b is a with some nodes turned Ground: ids, cells and edges are unchanged. */
  ghost predicate Flipped(a: seq<MapNode>, b: seq<MapNode>) {
    |a| == |b| && forall k :: 0 <= k < |a| ==> b[k] == a[k] || b[k] == a[k].(kind := Ground)
  }

  /** Painting only ever turns nodes Ground. */
  lemma PaintFlips(ns: seq<MapNode>, S: set<int>)
    ensures Flipped(ns, Paint(ns, S))
    ensures forall k :: 0 <= k < |ns| ==> (Paint(ns, S)[k].IsTraversable() <==> k in S || ns[k].IsTraversable())
  {
  }

  lemma PaintPaint(ns: seq<MapNode>, A: set<int>, B: set<int>)
    ensures Paint(Paint(ns, A), B) == Paint(ns, A + B)
  {
  }

  lemma PaintNothing(ns: seq<MapNode>)
    ensures Paint(ns, {}) == ns
  {
  }

  lemma FlippedTrans(a: seq<MapNode>, b: seq<MapNode>, c: seq<MapNode>)
    requires Flipped(a, b) && Flipped(b, c)
    ensures Flipped(a, c)
  {
  }

  /** Turning nodes Ground keeps the grid shape, the edges and their targets. */
  lemma FlippedValid(a: seq<MapNode>, b: seq<MapNode>, cols: nat, rows: nat)
    requires Flipped(a, b)
    ensures IsGrid(a, cols, rows) ==> IsGrid(b, cols, rows)
    ensures EdgesInRange(a) ==> EdgesInRange(b)
    ensures NoEdges(a) ==> NoEdges(b)
  {
    assert forall k :: 0 <= k < |a| ==> b[k].edges == a[k].edges;
  }

  /** Every index of S names a node of an arena of n nodes. */
  ghost predicate InRange(S: set<int>, n: int) {
    forall k :: k in S ==> 0 <= k < n
  }

  /** The indices of the cells (i, j) with x0 <= i < x1 and y0 <= j < y1. */
  ghost function Block(x0: int, x1: int, y0: int, y1: int, cols: int): set<int> {
    set i, j | x0 <= i < x1 && y0 <= j < y1 :: Index(i, j, cols)
  }

  lemma BlockMember(x0: int, x1: int, y0: int, y1: int, cols: int, i: int, j: int)
    requires x0 <= i < x1 && y0 <= j < y1
    ensures Index(i, j, cols) in Block(x0, x1, y0, y1, cols)
  {
  }

  lemma BlockEmpty(x0: int, x1: int, y0: int, y1: int, cols: int)
    requires x1 <= x0 || y1 <= y0
    ensures Block(x0, x1, y0, y1, cols) == {}
  {
  }

  /** One more column of cells. */
  lemma BlockColumn(x0: int, x: int, y0: int, y1: int, cols: int)
    requires x0 <= x
    ensures Block(x0, x + 1, y0, y1, cols) == Block(x0, x, y0, y1, cols) + Block(x, x + 1, y0, y1, cols)
  {
    var A, B, C := Block(x0, x + 1, y0, y1, cols), Block(x0, x, y0, y1, cols), Block(x, x + 1, y0, y1, cols);
    forall k | k in A
      ensures k in B + C
    {
      var i, j :| x0 <= i < x + 1 && y0 <= j < y1 && k == Index(i, j, cols);
      if i < x {
        BlockMember(x0, x, y0, y1, cols, i, j);
      } else {
        BlockMember(x, x + 1, y0, y1, cols, i, j);
      }
    }
    forall k | k in B + C
      ensures k in A
    {
      if k in B {
        var i, j :| x0 <= i < x && y0 <= j < y1 && k == Index(i, j, cols);
        BlockMember(x0, x + 1, y0, y1, cols, i, j);
      } else {
        var i, j :| x <= i < x + 1 && y0 <= j < y1 && k == Index(i, j, cols);
        BlockMember(x0, x + 1, y0, y1, cols, i, j);
      }
    }
  }

  /** One more cell at the bottom of a column. */
  lemma BlockCell(x: int, y0: int, y: int, cols: int)
    requires y0 <= y
    ensures Block(x, x + 1, y0, y + 1, cols) == Block(x, x + 1, y0, y, cols) + {Index(x, y, cols)}
  {
    var A, B := Block(x, x + 1, y0, y + 1, cols), Block(x, x + 1, y0, y, cols);
    forall k | k in A
      ensures k in B + {Index(x, y, cols)}
    {
      var i, j :| x <= i < x + 1 && y0 <= j < y + 1 && k == Index(i, j, cols);
      if j < y {
        BlockMember(x, x + 1, y0, y, cols, i, j);
      }
    }
    forall k | k in B
      ensures k in A
    {
      var i, j :| x <= i < x + 1 && y0 <= j < y && k == Index(i, j, cols);
      BlockMember(x, x + 1, y0, y + 1, cols, i, j);
    }
    BlockMember(x, x + 1, y0, y + 1, cols, x, y);
  }

  /** A block inside another is a subset of it. */
  lemma BlockWithin(x0: int, x1: int, y0: int, y1: int, a0: int, a1: int, b0: int, b1: int, cols: int)
    requires a0 <= x0 && x1 <= a1 && b0 <= y0 && y1 <= b1
    ensures Block(x0, x1, y0, y1, cols) <= Block(a0, a1, b0, b1, cols)
  {
    forall k | k in Block(x0, x1, y0, y1, cols)
      ensures k in Block(a0, a1, b0, b1, cols)
    {
      var i, j :| x0 <= i < x1 && y0 <= j < y1 && k == Index(i, j, cols);
      BlockMember(a0, a1, b0, b1, cols, i, j);
    }
  }

  /** Every cell of a block inside a cols × rows grid has an index in range. */
  lemma BlockInGrid(x0: int, x1: int, y0: int, y1: int, cols: nat, rows: nat)
    requires 0 <= x0 && x1 <= cols && 0 <= y0 && y1 <= rows
    ensures InRange(Block(x0, x1, y0, y1, cols), cols * rows)
  {
    forall k | k in Block(x0, x1, y0, y1, cols)
      ensures 0 <= k < cols * rows
    {
      var i, j :| x0 <= i < x1 && y0 <= j < y1 && k == Index(i, j, cols);
      IndexOfCell(i, j, cols, rows);
    }
  }

  function Min(a: int, b: int): (r: int)
    ensures r <= a && r <= b && (r == a || r == b)
  {
    if a < b then a else b
  }

  function Max(a: int, b: int): (r: int)
    ensures r >= a && r >= b && (r == a || r == b)
  {
    if a < b then b else a
  }

  /** The tiles of a room. */
  ghost function RoomTiles(room: Rect, cols: int): set<int> {
    Block(room.x, room.x + room.w, room.y, room.y + room.h, cols)
  }

  /** The tiles carveHorizontal(x1, x2, y) visits: row y from min(x1, x2) to max(x1, x2) inclusive. */
  ghost function HorizontalTiles(x1: int, x2: int, y: int, cols: int): set<int> {
    Block(Min(x1, x2), Max(x1, x2) + 1, y, y + 1, cols)
  }

  /** The tiles carveVertical(y1, y2, x) visits: column x from min(y1, y2) to max(y1, y2) inclusive. */
  ghost function VerticalTiles(y1: int, y2: int, x: int, cols: int): set<int> {
    Block(x, x + 1, Min(y1, y2), Max(y1, y2) + 1, cols)
  }

  /**
   * The tiles of the corridor from centre a to centre b: along a's row and
   * then b's column when `horizontalFirst`, else along a's column and then
   * b's row.
   */
  ghost function CorridorTiles(a: Vec2, b: Vec2, horizontalFirst: bool, cols: int): set<int> {
    if horizontalFirst then HorizontalTiles(a.x, b.x, a.y, cols) + VerticalTiles(a.y, b.y, b.x, cols)
    else VerticalTiles(a.y, b.y, a.x, cols) + HorizontalTiles(a.x, b.x, b.y, cols)
  }

  /**
   * A corridor holds both centres and the corner where its two legs meet:
   * (b.x, a.y) when it runs along a's row first, else (a.x, b.y).
   */
  lemma CorridorJoinsCentres(a: Vec2, b: Vec2, horizontalFirst: bool, cols: int)
    ensures Index(a.x, a.y, cols) in CorridorTiles(a, b, horizontalFirst, cols)
    ensures Index(b.x, b.y, cols) in CorridorTiles(a, b, horizontalFirst, cols)
    ensures horizontalFirst ==> Index(b.x, a.y, cols) in CorridorTiles(a, b, horizontalFirst, cols)
    ensures !horizontalFirst ==> Index(a.x, b.y, cols) in CorridorTiles(a, b, horizontalFirst, cols)
  {
    if horizontalFirst {
      BlockMember(Min(a.x, b.x), Max(a.x, b.x) + 1, a.y, a.y + 1, cols, a.x, a.y);
      BlockMember(Min(a.x, b.x), Max(a.x, b.x) + 1, a.y, a.y + 1, cols, b.x, a.y);
      BlockMember(b.x, b.x + 1, Min(a.y, b.y), Max(a.y, b.y) + 1, cols, b.x, b.y);
    } else {
      BlockMember(a.x, a.x + 1, Min(a.y, b.y), Max(a.y, b.y) + 1, cols, a.x, a.y);
      BlockMember(a.x, a.x + 1, Min(a.y, b.y), Max(a.y, b.y) + 1, cols, a.x, b.y);
      BlockMember(Min(a.x, b.x), Max(a.x, b.x) + 1, b.y, b.y + 1, cols, b.x, b.y);
    }
  }

  // ---------------------------------------------------------------------
  // Rooms

  /**
   * The room `createRooms` draws for a partition rectangle r from the next
   * four values of `Math.random()`: width, height, x and y in that order.
   * When r has at least m + 3 on a side, the room has at least m there and
   * keeps one tile off the near edge and two off the far edge of r.
   */
  function RoomFor(r: Rect, m: int, g: Rng): (room: Rect)
    requires g.Valid()
    ensures r.w >= m + 3 ==> m <= room.w && r.x + 1 <= room.x && room.x + room.w <= r.x + r.w - 2
    ensures r.h >= m + 3 ==> m <= room.h && r.y + 1 <= room.y && room.y + room.h <= r.y + r.h - 2
  {
    var roomWidth := GetRandomInt(m, r.w - 2, g.Head());
    var roomHeight := GetRandomInt(m, r.h - 2, g.Tail().Head());
    var roomX := GetRandomInt(r.x + 1, r.x + r.w - roomWidth - 1, g.Tail().Tail().Head());
    var roomY := GetRandomInt(r.y + 1, r.y + r.h - roomHeight - 1, g.Tail().Tail().Tail().Head());
    Rect(roomX, roomY, roomWidth, roomHeight)
  }

  /** The stream g after n calls to `Math.random()`. */
  function Skip(g: Rng, n: nat): (h: Rng)
    ensures h.Valid() <== g.Valid()
  {
    Rng(g.draw, g.pos + n)
  }

  /** The rooms `createRooms` draws for the partitions ps, in order, four draws each. */
  function PlannedRooms(ps: seq<Partition>, m: int, g: Rng): (rooms: seq<Rect>)
    requires g.Valid()
    ensures |rooms| == |ps|
    ensures forall k :: 0 <= k < |ps| ==> rooms[k] == RoomFor(ps[k].rect, m, Skip(g, 4 * k))
  {
    seq(|ps|, k requires 0 <= k < |ps| => RoomFor(ps[k].rect, m, Skip(g, 4 * k)))
  }

  lemma PlannedRoomsNext(ps: seq<Partition>, m: int, g: Rng, k: int)
    requires g.Valid() && 0 <= k < |ps|
    ensures PlannedRooms(ps[..k + 1], m, g) == PlannedRooms(ps[..k], m, g) + [RoomFor(ps[k].rect, m, Skip(g, 4 * k))]
  {
    var a, b := PlannedRooms(ps[..k + 1], m, g), PlannedRooms(ps[..k], m, g) + [RoomFor(ps[k].rect, m, Skip(g, 4 * k))];
    assert |a| == |b|;
    forall t | 0 <= t <= k
      ensures a[t] == b[t]
    {
      assert ps[..k + 1][t] == ps[t];
    }
  }

  lemma PlannedRoomsAt(ps: seq<Partition>, m: int, g: Rng, k: int)
    requires g.Valid() && 0 <= k < |ps|
    ensures PlannedRooms(ps, m, g)[k] == RoomFor(ps[k].rect, m, Skip(g, 4 * k))
  {
  }

  /** The tiles of all the rooms. */
  ghost function AllRoomTiles(rooms: seq<Rect>, cols: int): set<int> {
    if rooms == [] then {} else AllRoomTiles(rooms[..|rooms| - 1], cols) + RoomTiles(rooms[|rooms| - 1], cols)
  }

  lemma {:induction false} RoomTilesWithin(rooms: seq<Rect>, cols: int, k: int)
    requires 0 <= k < |rooms|
    ensures RoomTiles(rooms[k], cols) <= AllRoomTiles(rooms, cols)
  {
    if k < |rooms| - 1 {
      RoomTilesWithin(rooms[..|rooms| - 1], cols, k);
    }
  }

  /** Carving one more room extends the painted tiles by the room's. */
  lemma RoomCarved(G0: seq<MapNode>, before: seq<MapNode>, after: seq<MapNode>, rooms: seq<Rect>, room: Rect, cols: int)
    requires InRange(AllRoomTiles(rooms, cols), |G0|) && before == Paint(G0, AllRoomTiles(rooms, cols))
    requires InRange(RoomTiles(room, cols), |before|) && after == Paint(before, RoomTiles(room, cols))
    ensures InRange(AllRoomTiles(rooms + [room], cols), |G0|)
    ensures after == Paint(G0, AllRoomTiles(rooms + [room], cols))
  {
    assert (rooms + [room])[..|rooms|] == rooms;
    PaintPaint(G0, AllRoomTiles(rooms, cols), RoomTiles(room, cols));
  }

  /** A room with a tile off the grid puts a tile of every list holding it off the grid. */
  lemma RoomFailed(rooms: seq<Rect>, k: int, cols: int, n: int)
    requires 0 <= k < |rooms| && !InRange(RoomTiles(rooms[k], cols), n)
    ensures !InRange(AllRoomTiles(rooms, cols), n)
  {
    RoomTilesWithin(rooms, cols, k);
  }

  // ---------------------------------------------------------------------
  // Connections

  /** `{from, to}`, with each room named by its index in the room list. */
  datatype Connection = Connection(from: int, to: int)

  function Tos(cs: seq<Connection>): (ts: seq<int>)
    ensures |ts| == |cs| && forall k :: 0 <= k < |cs| ==> ts[k] == cs[k].to
  {
    seq(|cs|, k requires 0 <= k < |cs| => cs[k].to)
  }

  /**
   * The `connected` set once the connections cs are made, in insertion
   * order: rooms[0], then each `to` in turn.
   */
  function Linked(cs: seq<Connection>): seq<int> {
    [0] + Tos(cs)
  }

  /** Every element of C names one of n rooms. */
  predicate InRooms(n: int, C: seq<int>) {
    forall k :: 0 <= k < |C| ==> 0 <= C[k] < n
  }

  predicate Increasing(s: seq<int>) {
    forall a, b :: 0 <= a < b < |s| ==> s[a] < s[b]
  }

  /** The Manhattan distance between the centres of rooms a and b. */
  function Dist(rooms: seq<Rect>, a: int, b: int): nat
    requires 0 <= a < |rooms| && 0 <= b < |rooms|
  {
    ManhattanDistance(rooms[a].GetCenter(), rooms[b].GetCenter())
  }

  /**
   * Of the pairs (C[q'], R[s']) that the nested loops over the connected
   * rooms C and the remaining rooms R visit before position (q, s), none is
   * nearer than the pair at (p, t), and those visited before (p, t) are all
   * strictly farther.
   */
  ghost predicate FirstNearestBefore(rooms: seq<Rect>, C: seq<int>, R: seq<int>, q: int, s: int, p: int, t: int)
    requires InRooms(|rooms|, C) && InRooms(|rooms|, R) && 0 <= p < |C| && 0 <= t < |R|
  {
    forall q', s' :: 0 <= q' < |C| && 0 <= s' < |R| && (q' < q || (q' == q && s' < s)) ==>
      Dist(rooms, C[p], R[t]) <= Dist(rooms, C[q'], R[s']) &&
      (q' < p || (q' == p && s' < t) ==> Dist(rooms, C[p], R[t]) < Dist(rooms, C[q'], R[s']))
  }

  /**
   * c is the pair the search of `createConnections` picks once the rooms C
   * are connected: `from` is a connected room C[p], `to` an unconnected one;
   * no connected–unconnected pair is nearer, and every pair visited before
   * it (connected rooms in insertion order, unconnected ones by index) is
   * strictly farther.
   */
  ghost predicate NearestPair(rooms: seq<Rect>, C: seq<int>, c: Connection) {
    InRooms(|rooms|, C) && 0 <= c.to < |rooms| && c.to !in C &&
    exists p :: 0 <= p < |C| && C[p] == c.from &&
      forall q, b :: 0 <= q < |C| && 0 <= b < |rooms| && b !in C ==>
        Dist(rooms, C[p], c.to) <= Dist(rooms, C[q], b) &&
        (q < p || (q == p && b < c.to) ==> Dist(rooms, C[p], c.to) < Dist(rooms, C[q], b))
  }

  /**
   * What `createConnections(rooms)` returns: nothing for no rooms, else
   * rooms.length - 1 connections where connection k is the pair the search
   * picks once rooms[0] and the `to` rooms of the first k are connected; in
   * the end every room is connected.
   */
  ghost predicate PrimTree(rooms: seq<Rect>, cs: seq<Connection>) {
    (|rooms| == 0 ==> cs == []) &&
    (|rooms| >= 1 ==> |cs| == |rooms| - 1) &&
    (forall k :: 0 <= k < |cs| ==> NearestPair(rooms, Linked(cs[..k]), cs[k])) &&
    (forall b :: 0 <= b < |rooms| ==> b in Linked(cs))
  }

  /**
   * The connections form a spanning tree rooted at rooms[0]: every `to` is
   * a room other than rooms[0], no room is reached twice, and every `from`
   * is rooms[0] or the `to` of an earlier connection.
   */
  lemma PrimTreeSpans(rooms: seq<Rect>, cs: seq<Connection>)
    requires PrimTree(rooms, cs)
    ensures forall k :: 0 <= k < |cs| ==> 0 <= cs[k].from < |rooms| && 0 < cs[k].to < |rooms|
    ensures forall k, l :: 0 <= k < l < |cs| ==> cs[k].to != cs[l].to
    ensures forall k :: 0 <= k < |cs| ==> cs[k].from == 0 || exists l :: 0 <= l < k && cs[l].to == cs[k].from
  {
    forall k | 0 <= k < |cs|
      ensures 0 <= cs[k].from < |rooms| && 0 < cs[k].to < |rooms|
      ensures forall l :: 0 <= l < k ==> cs[l].to != cs[k].to
      ensures cs[k].from == 0 || exists l :: 0 <= l < k && cs[l].to == cs[k].from
    {
      var C := Linked(cs[..k]);
      assert NearestPair(rooms, C, cs[k]);
      var p :| 0 <= p < |C| && C[p] == cs[k].from;
      assert C[0] == 0;
      forall l | 0 <= l < k
        ensures cs[l].to != cs[k].to
      {
        assert C[l + 1] == cs[l].to;
      }
      if p > 0 {
        assert C[p] == cs[p - 1].to;
      }
    }
  }

  /** Reading the position order of the nested loops as the order of room indices. */
  lemma NearestByValue(rooms: seq<Rect>, C: seq<int>, R: seq<int>, p: int, t: int)
    requires InRooms(|rooms|, C) && InRooms(|rooms|, R) && Increasing(R)
    requires forall b :: b in R <==> 0 <= b < |rooms| && b !in C
    requires 0 <= p < |C| && 0 <= t < |R| && FirstNearestBefore(rooms, C, R, |C|, 0, p, t)
    ensures NearestPair(rooms, C, Connection(C[p], R[t]))
  {
    forall q, b | 0 <= q < |C| && 0 <= b < |rooms| && b !in C
      ensures Dist(rooms, C[p], R[t]) <= Dist(rooms, C[q], b)
      ensures q < p || (q == p && b < R[t]) ==> Dist(rooms, C[p], R[t]) < Dist(rooms, C[q], b)
    {
      assert b in R;
      var s :| 0 <= s < |R| && R[s] == b;
      if s >= t && s != t {
        assert R[t] < R[s];
      }
    }
  }

  /** `remaining.delete(x)`: the list without its first occurrence of x. */
  function Delete(s: seq<int>, x: int): seq<int> {
    if s == [] then []
    else if s[0] == x then s[1..]
    else [s[0]] + Delete(s[1..], x)
  }

  /** On an increasing list, deleting the value at t removes position t. */
  lemma {:induction false} DeleteIndex(R: seq<int>, t: int)
    requires Increasing(R) && 0 <= t < |R|
    ensures Delete(R, R[t]) == R[..t] + R[t + 1..]
  {
    if t > 0 {
      assert R[0] < R[t];
      assert R[1..][t - 1] == R[t];
      DeleteIndex(R[1..], t - 1);
      assert R[1..][..t - 1] == R[1..t] && R[1..][t..] == R[t + 1..];
      assert [R[0]] + R[1..t] == R[..t];
    }
  }

  /** `remaining.delete(R[t])` on an increasing list. */
  lemma DeleteAt(R: seq<int>, t: int)
    requires Increasing(R) && 0 <= t < |R|
    ensures Increasing(R[..t] + R[t + 1..])
    ensures forall b :: b in R[..t] + R[t + 1..] <==> b in R && b != R[t]
  {
    var D := R[..t] + R[t + 1..];
    assert forall a :: 0 <= a < |D| ==> D[a] == if a < t then R[a] else R[a + 1];
    forall b | b in R && b != R[t]
      ensures b in D
    {
      var a :| 0 <= a < |R| && R[a] == b;
      if a < t {
        assert D[a] == b;
      } else {
        assert D[a - 1] == b;
      }
    }
  }

  /**
   * The state of the nested loops at position (q, s): `best` is Infinity
   * (None) before the first pair, and afterwards holds the distance of the
   * pair at (p, t), the first nearest of those visited.
   */
  ghost predicate Scanning(rooms: seq<Rect>, C: seq<int>, R: seq<int>, q: int, s: int, best: Option<nat>, p: int, t: int)
    requires InRooms(|rooms|, C) && InRooms(|rooms|, R)
  {
    (best.None? <==> q == 0 && s == 0) &&
    (best.Some? ==> 0 <= p < |C| && 0 <= t < |R| && (p < q || (p == q && t < s)) &&
                    best.value == Dist(rooms, C[p], R[t]) &&
                    FirstNearestBefore(rooms, C, R, q, s, p, t))
  }

  /** One pass of the inner loop body: the pair at (q, s) replaces the best only when strictly nearer. */
  lemma ScanStep(rooms: seq<Rect>, C: seq<int>, R: seq<int>, q: int, s: int, best: Option<nat>, p: int, t: int)
    requires InRooms(|rooms|, C) && InRooms(|rooms|, R) && 0 <= q < |C| && 0 <= s < |R|
    requires Scanning(rooms, C, R, q, s, best, p, t)
    ensures var d := Dist(rooms, C[q], R[s]);
      if best.None? || d < best.value then Scanning(rooms, C, R, q, s + 1, Some(d), q, s)
      else Scanning(rooms, C, R, q, s + 1, best, p, t)
  {
    var d := Dist(rooms, C[q], R[s]);
    if best.None? || d < best.value {
      ScanReplace(rooms, C, R, q, s, best, p, t);
    } else {
      ScanKeep(rooms, C, R, q, s, best, p, t);
    }
  }

  lemma ScanReplace(rooms: seq<Rect>, C: seq<int>, R: seq<int>, q: int, s: int, best: Option<nat>, p: int, t: int)
    requires InRooms(|rooms|, C) && InRooms(|rooms|, R) && 0 <= q < |C| && 0 <= s < |R|
    requires Scanning(rooms, C, R, q, s, best, p, t)
    requires best.None? || Dist(rooms, C[q], R[s]) < best.value
    ensures FirstNearestBefore(rooms, C, R, q, s + 1, q, s)
  {
    var d := Dist(rooms, C[q], R[s]);
    forall q', s' | 0 <= q' < |C| && 0 <= s' < |R| && (q' < q || (q' == q && s' < s + 1))
      ensures d <= Dist(rooms, C[q'], R[s'])
      ensures q' < q || (q' == q && s' < s) ==> d < Dist(rooms, C[q'], R[s'])
    {
      if q' < q || (q' == q && s' < s) {
        assert best.Some?;
      }
    }
  }

  lemma ScanKeep(rooms: seq<Rect>, C: seq<int>, R: seq<int>, q: int, s: int, best: Option<nat>, p: int, t: int)
    requires InRooms(|rooms|, C) && InRooms(|rooms|, R) && 0 <= q < |C| && 0 <= s < |R|
    requires Scanning(rooms, C, R, q, s, best, p, t) && best.Some?
    requires best.value <= Dist(rooms, C[q], R[s])
    ensures FirstNearestBefore(rooms, C, R, q, s + 1, p, t)
  {
    forall q', s' | 0 <= q' < |C| && 0 <= s' < |R| && (q' < q || (q' == q && s' < s + 1))
      ensures best.value <= Dist(rooms, C[q'], R[s'])
      ensures q' < p || (q' == p && s' < t) ==> best.value < Dist(rooms, C[q'], R[s'])
    {
    }
  }

  /** The end of a row of the inner loop is the start of the next row. */
  lemma ScanRow(rooms: seq<Rect>, C: seq<int>, R: seq<int>, q: int, best: Option<nat>, p: int, t: int)
    requires InRooms(|rooms|, C) && InRooms(|rooms|, R) && 0 <= q < |C| && |R| > 0
    requires Scanning(rooms, C, R, q, |R|, best, p, t)
    ensures Scanning(rooms, C, R, q + 1, 0, best, p, t)
  {
  }

  /**
   * The state of the outer loop of `createConnections`: `connected` holds
   * rooms[0] and the `to` of each connection so far, `remaining` the other
   * rooms by increasing index, and each connection was the pair the search
   * picked at its step.
   */
  ghost predicate Growing(rooms: seq<Rect>, connected: seq<int>, remaining: seq<int>, cs: seq<Connection>) {
    Picked(rooms, connected, cs) && Unconnected(rooms, connected, remaining) &&
    (|rooms| >= 1 ==> |connected| + |remaining| == |rooms|) &&
    (|rooms| == 0 ==> cs == [] && remaining == [])
  }

  /** `connected` is rooms[0] and the `to` of each connection, each picked by the search. */
  ghost predicate Picked(rooms: seq<Rect>, connected: seq<int>, cs: seq<Connection>) {
    connected == Linked(cs) &&
    (|rooms| >= 1 ==> InRooms(|rooms|, connected)) &&
    (forall k :: 0 <= k < |cs| ==> NearestPair(rooms, Linked(cs[..k]), cs[k]))
  }

  /** `remaining` lists the unconnected rooms by increasing index. */
  ghost predicate Unconnected(rooms: seq<Rect>, connected: seq<int>, remaining: seq<int>) {
    Increasing(remaining) && InRooms(|rooms|, remaining) &&
    (forall b :: b in remaining <==> 0 <= b < |rooms| && b !in connected)
  }

  lemma GrowStart(rooms: seq<Rect>, remaining: seq<int>)
    requires Increasing(remaining) && |remaining| == if |rooms| == 0 then 0 else |rooms| - 1
    requires forall b :: b in remaining <==> 1 <= b < |rooms|
    ensures Growing(rooms, [0], remaining, [])
  {
    assert Linked([]) == [0];
    assert forall b :: b in [0] <==> b == 0;
    assert forall k :: 0 <= k < |remaining| ==> remaining[k] in remaining;
  }

  /** Connecting the pair the search picked keeps the loop state. */
  lemma GrowStep(rooms: seq<Rect>, C: seq<int>, R: seq<int>, cs: seq<Connection>, p: int, t: int)
    requires Growing(rooms, C, R, cs) && 0 <= p < |C| && 0 <= t < |R|
    requires InRooms(|rooms|, C) && FirstNearestBefore(rooms, C, R, |C|, 0, p, t)
    ensures Growing(rooms, C + [R[t]], Delete(R, R[t]), cs + [Connection(C[p], R[t])])
  {
    NearestByValue(rooms, C, R, p, t);
    PickedStep(rooms, C, cs, Connection(C[p], R[t]));
    DeleteAt(R, t);
    DeleteIndex(R, t);
    assert R[t] in R;
    Remaining(rooms, C, R, R[t], Delete(R, R[t]));
  }

  /** Appending the pair the search picks to the connections. */
  lemma PickedStep(rooms: seq<Rect>, C: seq<int>, cs: seq<Connection>, c: Connection)
    requires Picked(rooms, C, cs) && NearestPair(rooms, C, c)
    ensures Picked(rooms, C + [c.to], cs + [c])
  {
    var cs' := cs + [c];
    assert cs'[..|cs|] == cs;
    assert Linked(cs') == C + [c.to];
    forall k | 0 <= k < |cs'|
      ensures NearestPair(rooms, Linked(cs'[..k]), cs'[k])
    {
      if k < |cs| {
        assert cs'[..k] == cs[..k];
      }
    }
  }

  /** The remaining rooms after `remaining.delete(x)`, x being connected. */
  lemma Remaining(rooms: seq<Rect>, C: seq<int>, R: seq<int>, x: int, R': seq<int>)
    requires forall b :: b in R <==> 0 <= b < |rooms| && b !in C
    requires forall b :: b in R' <==> b in R && b != x
    ensures forall b :: b in R' <==> 0 <= b < |rooms| && b !in C + [x]
    ensures forall k :: 0 <= k < |R'| ==> 0 <= R'[k] < |rooms|
  {
    assert forall k :: 0 <= k < |R'| ==> R'[k] in R';
  }

  lemma GrowEnd(rooms: seq<Rect>, C: seq<int>, cs: seq<Connection>)
    requires Growing(rooms, C, [], cs)
    ensures PrimTree(rooms, cs)
  {
  }

  // ---------------------------------------------------------------------
  // Corridors and the whole generation

  /** Every connection joins two of n rooms. */
  predicate ConnectsRooms(cs: seq<Connection>, n: int) {
    forall k :: 0 <= k < |cs| ==> 0 <= cs[k].from < n && 0 <= cs[k].to < n
  }

  /** The tiles `carveCorridor` visits for connection c, its orientation drawn from g. */
  ghost function CorridorOf(rooms: seq<Rect>, c: Connection, g: Rng, cols: int): set<int>
    requires 0 <= c.from < |rooms| && 0 <= c.to < |rooms| && g.Valid()
  {
    CorridorTiles(rooms[c.from].GetCenter(), rooms[c.to].GetCenter(), g.Head() < 0.5, cols)
  }

  /** The tiles of the corridors of cs, carved in order, one draw each from g. */
  ghost function AllCorridorTiles(rooms: seq<Rect>, cs: seq<Connection>, g: Rng, cols: int): set<int>
    requires ConnectsRooms(cs, |rooms|) && g.Valid()
    decreases |cs|
  {
    if cs == [] then {}
    else AllCorridorTiles(rooms, cs[..|cs| - 1], g, cols) + CorridorOf(rooms, cs[|cs| - 1], Skip(g, |cs| - 1), cols)
  }

  lemma {:induction false} CorridorWithin(rooms: seq<Rect>, cs: seq<Connection>, g: Rng, cols: int, k: int)
    requires ConnectsRooms(cs, |rooms|) && g.Valid() && 0 <= k < |cs|
    ensures CorridorOf(rooms, cs[k], Skip(g, k), cols) <= AllCorridorTiles(rooms, cs, g, cols)
    decreases |cs|
  {
    if k < |cs| - 1 {
      assert cs[..|cs| - 1][k] == cs[k];
      CorridorWithin(rooms, cs[..|cs| - 1], g, cols, k);
    }
  }

  /** The first k corridors of cs are carved into G0, giving nodes, and all their tiles are in range. */
  ghost predicate CorridorsDone(G0: seq<MapNode>, nodes: seq<MapNode>, rooms: seq<Rect>, cs: seq<Connection>,
                                rng: Rng, cols: int, k: int) {
    0 <= k <= |cs| && rng.Valid() && ConnectsRooms(cs[..k], |rooms|) &&
    var done := AllCorridorTiles(rooms, cs[..k], rng, cols);
    InRange(done, |G0|) && nodes == Paint(G0, done)
  }

  /** Carving corridor k in range after the first k extends the carved prefix by one. */
  lemma CorridorStep(G0: seq<MapNode>, before: seq<MapNode>, after: seq<MapNode>, rooms: seq<Rect>,
                     cs: seq<Connection>, rng: Rng, cols: int, k: int)
    requires ConnectsRooms(cs, |rooms|) && 0 <= k < |cs| && CorridorsDone(G0, before, rooms, cs, rng, cols, k)
    requires var tiles := CorridorOf(rooms, cs[k], Skip(rng, k), cols);
             InRange(tiles, |before|) && after == Paint(before, tiles)
    ensures CorridorsDone(G0, after, rooms, cs, rng, cols, k + 1)
  {
    CorridorsSnoc(rooms, cs, rng, cols, k);
    PaintedMore(G0, before, after, AllCorridorTiles(rooms, cs[..k], rng, cols),
                CorridorOf(rooms, cs[k], Skip(rng, k), cols));
  }

  lemma CorridorsSnoc(rooms: seq<Rect>, cs: seq<Connection>, rng: Rng, cols: int, k: int)
    requires ConnectsRooms(cs, |rooms|) && rng.Valid() && 0 <= k < |cs|
    ensures ConnectsRooms(cs[..k], |rooms|) && ConnectsRooms(cs[..k + 1], |rooms|)
    ensures AllCorridorTiles(rooms, cs[..k + 1], rng, cols) ==
            AllCorridorTiles(rooms, cs[..k], rng, cols) + CorridorOf(rooms, cs[k], Skip(rng, k), cols)
  {
    assert cs[..k + 1][..k] == cs[..k];
  }

  /** Corridors between rooms inside the grid keep every tile in range. */
  lemma {:induction false} AllCorridorTilesInGrid(rooms: seq<Rect>, cs: seq<Connection>, g: Rng, cols: nat, rows: nat)
    requires ConnectsRooms(cs, |rooms|) && g.Valid()
    requires forall k :: 0 <= k < |rooms| ==> InGrid(rooms[k], cols, rows)
    ensures InRange(AllCorridorTiles(rooms, cs, g, cols), cols * rows)
    decreases |cs|
  {
    if cs != [] {
      AllCorridorTilesInGrid(rooms, cs[..|cs| - 1], g, cols, rows);
      CorridorInGrid(rooms, cs[|cs| - 1], Skip(g, |cs| - 1), cols, rows);
    }
  }

  /**
   * What carving a dungeon into G0 gives when no tile is missing: the rooms
   * drawn for the partitions from g, the connections of the spanning tree
   * over them, the stream after every draw, and G0 with the room and
   * corridor tiles turned Ground.
   */
  ghost predicate Carving(G0: seq<MapNode>, G: seq<MapNode>, ps: seq<Partition>, m: int, g: Rng, rooms: seq<Rect>,
                          cs: seq<Connection>, rest: Rng, cols: int)
    requires g.Valid()
  {
    rooms == PlannedRooms(ps, m, g) && PrimTree(rooms, cs) && ConnectsRooms(cs, |rooms|) &&
    rest == Skip(g, 4 * |rooms| + |cs|) &&
    G == Paint(G0, AllRoomTiles(rooms, cols) + AllCorridorTiles(rooms, cs, Skip(g, 4 * |rooms|), cols))
  }

  /** A room of at least one tile whose tiles all lie in a cols × rows grid. */
  predicate InGrid(room: Rect, cols: int, rows: int) {
    0 <= room.x && room.x + room.w <= cols && 0 <= room.y && room.y + room.h <= rows &&
    room.w >= 1 && room.h >= 1
  }

  /**
   * Partitions inside the grid with at least m + 3 on each side get rooms
   * inside the grid.
   */
  lemma PlannedRoomsInGrid(ps: seq<Partition>, m: int, g: Rng, cols: int, rows: int)
    requires g.Valid() && m >= 1
    requires forall k :: 0 <= k < |ps| ==> Within(ps[k].rect, Rect(0, 0, cols, rows))
    requires forall k :: 0 <= k < |ps| ==> ps[k].rect.w >= m + 3 && ps[k].rect.h >= m + 3
    ensures forall k :: 0 <= k < |ps| ==> InGrid(PlannedRooms(ps, m, g)[k], cols, rows)
  {
    forall k | 0 <= k < |ps|
      ensures InGrid(PlannedRooms(ps, m, g)[k], cols, rows)
    {
      PlannedRoomsAt(ps, m, g, k);
    }
  }

  /** The tiles of rooms inside the grid all have indices in range. */
  lemma {:induction false} AllRoomTilesInGrid(rooms: seq<Rect>, cols: nat, rows: nat)
    requires forall k :: 0 <= k < |rooms| ==> InGrid(rooms[k], cols, rows)
    ensures InRange(AllRoomTiles(rooms, cols), cols * rows)
  {
    if rooms != [] {
      var last := rooms[|rooms| - 1];
      AllRoomTilesInGrid(rooms[..|rooms| - 1], cols, rows);
      BlockInGrid(last.x, last.x + last.w, last.y, last.y + last.h, cols, rows);
    }
  }

  /** A corridor between the centres of two rooms inside the grid stays inside the grid. */
  lemma CorridorInGrid(rooms: seq<Rect>, c: Connection, g: Rng, cols: nat, rows: nat)
    requires 0 <= c.from < |rooms| && 0 <= c.to < |rooms| && g.Valid()
    requires InGrid(rooms[c.from], cols, rows) && InGrid(rooms[c.to], cols, rows)
    ensures InRange(CorridorOf(rooms, c, g, cols), cols * rows)
  {
    var a, b := rooms[c.from].GetCenter(), rooms[c.to].GetCenter();
    CenterInGrid(rooms[c.from], cols, rows);
    CenterInGrid(rooms[c.to], cols, rows);
    CorridorTilesInGrid(a, b, g.Head() < 0.5, cols, rows);
  }

  lemma CenterInGrid(room: Rect, cols: int, rows: int)
    requires InGrid(room, cols, rows)
    ensures var c := room.GetCenter(); 0 <= c.x < cols && 0 <= c.y < rows
  {
    var c := room.GetCenter();
    assert room.Contains(c.x, c.y);
  }

  lemma CorridorTilesInGrid(a: Vec2, b: Vec2, horizontalFirst: bool, cols: nat, rows: nat)
    requires 0 <= a.x < cols && 0 <= a.y < rows && 0 <= b.x < cols && 0 <= b.y < rows
    ensures InRange(CorridorTiles(a, b, horizontalFirst, cols), cols * rows)
  {
    var h1, v1 := HorizontalTiles(a.x, b.x, a.y, cols), VerticalTiles(a.y, b.y, b.x, cols);
    var v2, h2 := VerticalTiles(a.y, b.y, a.x, cols), HorizontalTiles(a.x, b.x, b.y, cols);
    BlockInGrid(Min(a.x, b.x), Max(a.x, b.x) + 1, a.y, a.y + 1, cols, rows);
    BlockInGrid(b.x, b.x + 1, Min(a.y, b.y), Max(a.y, b.y) + 1, cols, rows);
    BlockInGrid(a.x, a.x + 1, Min(a.y, b.y), Max(a.y, b.y) + 1, cols, rows);
    BlockInGrid(Min(a.x, b.x), Max(a.x, b.x) + 1, b.y, b.y + 1, cols, rows);
    InRangeUnion(h1, v1, cols * rows);
    InRangeUnion(v2, h2, cols * rows);
  }

  lemma InRangeUnion(A: set<int>, B: set<int>, n: int)
    requires InRange(A, n) && InRange(B, n)
    ensures InRange(A + B, n)
  {
  }

  /** Painting a set of tiles in range after another. */
  lemma PaintedMore(G0: seq<MapNode>, before: seq<MapNode>, after: seq<MapNode>, A: set<int>, B: set<int>)
    requires InRange(A, |G0|) && before == Paint(G0, A)
    requires InRange(B, |before|) && after == Paint(before, B)
    ensures InRange(A + B, |G0|) && after == Paint(G0, A + B)
  {
    PaintPaint(G0, A, B);
  }

  class DungeonGenerator {
    const graph: MapGraph
    const minRoomSize: int
    const minPartitionSize: int

    /** `new DungeonGenerator(graph, minRoomSize)`: partitions are kept twice as large as rooms. */
    constructor(graph: MapGraph, minRoomSize: int)
      ensures this.graph == graph && this.minRoomSize == minRoomSize
      ensures minPartitionSize == 2 * minRoomSize
    {
      this.graph := graph;
      this.minRoomSize := minRoomSize;
      minPartitionSize := minRoomSize * 2;
    }

    /**
     * `getAt(i, j).type = Ground`: the node at index j·cols + i turns Ground;
     * when there is no node there, the assignment throws, which is reported
     * as `ok == false` with nothing changed.
     */
    method SetGround(i: int, j: int) returns (ok: bool)
      modifies graph
      ensures ok <==> 0 <= Index(i, j, graph.cols) < |old(graph.nodes)|
      ensures graph.nodes == if ok then Paint(old(graph.nodes), {Index(i, j, graph.cols)}) else old(graph.nodes)
    {
      var node := graph.GetAt(i, j);
      if node.None? {
        return false;
      }
      var k := j * graph.cols + i;
      graph.nodes := graph.nodes[k := node.value.(kind := Ground)];
      ok := true;
    }

    /**
     * `carveHorizontal(x1, x2, y)`: row y from min(x1, x2) to max(x1, x2)
     * inclusive turns Ground; it stops at the first tile without a node.
     */
    method CarveHorizontal(x1: int, x2: int, y: int) returns (ok: bool)
      modifies graph
      ensures ok <==> InRange(HorizontalTiles(x1, x2, y, graph.cols), |old(graph.nodes)|)
      ensures ok ==> graph.nodes == Paint(old(graph.nodes), HorizontalTiles(x1, x2, y, graph.cols))
      ensures Flipped(old(graph.nodes), graph.nodes)
    {
      ghost var G0 := graph.nodes;
      var start := Min(x1, x2);
      var end := Max(x1, x2);
      PaintNothing(G0);
      BlockEmpty(start, start, y, y + 1, graph.cols);
      var x := start;
      while x <= end
        invariant start <= x <= end + 1
        invariant InRange(Block(start, x, y, y + 1, graph.cols), |G0|)
        invariant graph.nodes == Paint(G0, Block(start, x, y, y + 1, graph.cols))
        decreases end - x
      {
        ghost var before := graph.nodes;
        var placed := SetGround(x, y);
        if !placed {
          BlockMember(start, end + 1, y, y + 1, graph.cols, x, y);
          PaintFlips(G0, Block(start, x, y, y + 1, graph.cols));
          return false;
        }
        BlockColumn(start, x, y, y + 1, graph.cols);
        BlockCell(x, y, y, graph.cols);
        BlockEmpty(x, x + 1, y, y, graph.cols);
        PaintPaint(G0, Block(start, x, y, y + 1, graph.cols), {Index(x, y, graph.cols)});
        x := x + 1;
      }
      PaintFlips(G0, HorizontalTiles(x1, x2, y, graph.cols));
      ok := true;
    }

    /**
     * `carveVertical(y1, y2, x)`: column x from min(y1, y2) to max(y1, y2)
     * inclusive turns Ground; it stops at the first tile without a node.
     */
    method CarveVertical(y1: int, y2: int, x: int) returns (ok: bool)
      modifies graph
      ensures ok <==> InRange(VerticalTiles(y1, y2, x, graph.cols), |old(graph.nodes)|)
      ensures ok ==> graph.nodes == Paint(old(graph.nodes), VerticalTiles(y1, y2, x, graph.cols))
      ensures Flipped(old(graph.nodes), graph.nodes)
    {
      ghost var G0 := graph.nodes;
      var start := Min(y1, y2);
      var end := Max(y1, y2);
      PaintNothing(G0);
      BlockEmpty(x, x + 1, start, start, graph.cols);
      var y := start;
      while y <= end
        invariant start <= y <= end + 1
        invariant InRange(Block(x, x + 1, start, y, graph.cols), |G0|)
        invariant graph.nodes == Paint(G0, Block(x, x + 1, start, y, graph.cols))
        decreases end - y
      {
        var placed := SetGround(x, y);
        if !placed {
          BlockMember(x, x + 1, start, end + 1, graph.cols, x, y);
          PaintFlips(G0, Block(x, x + 1, start, y, graph.cols));
          return false;
        }
        BlockCell(x, start, y, graph.cols);
        PaintPaint(G0, Block(x, x + 1, start, y, graph.cols), {Index(x, y, graph.cols)});
        y := y + 1;
      }
      PaintFlips(G0, VerticalTiles(y1, y2, x, graph.cols));
      ok := true;
    }

    /**
     * The loops of `createRooms` over one room: column by column, each tile
     * of the room turns Ground; it stops at the first tile without a node.
     */
    method CarveRoom(room: Rect) returns (ok: bool)
      modifies graph
      ensures ok <==> InRange(RoomTiles(room, graph.cols), |old(graph.nodes)|)
      ensures ok ==> graph.nodes == Paint(old(graph.nodes), RoomTiles(room, graph.cols))
      ensures Flipped(old(graph.nodes), graph.nodes)
    {
      ghost var G0 := graph.nodes;
      ghost var top, bottom := room.y, room.y + room.h;
      PaintNothing(G0);
      BlockEmpty(room.x, room.x, top, bottom, graph.cols);
      var i := room.x;
      while i < room.x + room.w
        invariant room.x <= i && (i <= room.x + room.w || i == room.x)
        invariant InRange(Block(room.x, i, top, bottom, graph.cols), |G0|)
        invariant graph.nodes == Paint(G0, Block(room.x, i, top, bottom, graph.cols))
      {
        ghost var done := Block(room.x, i, top, bottom, graph.cols);
        ghost var before := graph.nodes;
        var placed := CarveRoomColumn(i, room.y, room.y + room.h);
        BlockColumn(room.x, i, top, bottom, graph.cols);
        if !placed {
          BlockWithin(i, i + 1, top, bottom, room.x, room.x + room.w, top, bottom, graph.cols);
          PaintFlips(G0, done);
          FlippedTrans(G0, before, graph.nodes);
          return false;
        }
        PaintPaint(G0, done, Block(i, i + 1, top, bottom, graph.cols));
        i := i + 1;
      }
      if room.w <= 0 {
        BlockEmpty(room.x, room.x + room.w, top, bottom, graph.cols);
      }
      PaintFlips(G0, RoomTiles(room, graph.cols));
      ok := true;
    }

    /** The inner loop of `createRooms`: column i from row top up to, not including, row bottom. */
    method CarveRoomColumn(i: int, top: int, bottom: int) returns (ok: bool)
      modifies graph
      ensures ok <==> InRange(Block(i, i + 1, top, bottom, graph.cols), |old(graph.nodes)|)
      ensures ok ==> graph.nodes == Paint(old(graph.nodes), Block(i, i + 1, top, bottom, graph.cols))
      ensures Flipped(old(graph.nodes), graph.nodes)
    {
      ghost var G0 := graph.nodes;
      PaintNothing(G0);
      BlockEmpty(i, i + 1, top, top, graph.cols);
      var j := top;
      while j < bottom
        invariant top <= j && (j <= bottom || j == top)
        invariant InRange(Block(i, i + 1, top, j, graph.cols), |G0|)
        invariant graph.nodes == Paint(G0, Block(i, i + 1, top, j, graph.cols))
      {
        var placed := SetGround(i, j);
        if !placed {
          BlockMember(i, i + 1, top, bottom, graph.cols, i, j);
          PaintFlips(G0, Block(i, i + 1, top, j, graph.cols));
          return false;
        }
        BlockCell(i, top, j, graph.cols);
        PaintPaint(G0, Block(i, i + 1, top, j, graph.cols), {Index(i, j, graph.cols)});
        j := j + 1;
      }
      if bottom <= top {
        BlockEmpty(i, i + 1, top, bottom, graph.cols);
      }
      PaintFlips(G0, Block(i, i + 1, top, bottom, graph.cols));
      ok := true;
    }

    /**
     * `createRooms(partitions)`: for each partition in order, a room drawn by
     * RoomFor is pushed and its tiles turn Ground. It stops at the first room
     * tile without a node.
     */
    method CreateRooms(partitions: seq<Partition>, rng: Rng) returns (rooms: seq<Rect>, ok: bool, rest: Rng)
      requires rng.Valid()
      modifies graph
      ensures ok <==> InRange(AllRoomTiles(PlannedRooms(partitions, minRoomSize, rng), graph.cols), |old(graph.nodes)|)
      ensures ok ==> rooms == PlannedRooms(partitions, minRoomSize, rng) && rest == Skip(rng, 4 * |partitions|)
      ensures ok ==> graph.nodes == Paint(old(graph.nodes), AllRoomTiles(rooms, graph.cols))
      ensures Flipped(old(graph.nodes), graph.nodes)
    {
      ghost var G0 := graph.nodes;
      PaintNothing(G0);
      rooms := [];
      rest := rng;
      var k := 0;
      while k < |partitions|
        invariant 0 <= k <= |partitions|
        invariant rooms == PlannedRooms(partitions[..k], minRoomSize, rng) && rest == Skip(rng, 4 * k)
        invariant InRange(AllRoomTiles(rooms, graph.cols), |G0|)
        invariant graph.nodes == Paint(G0, AllRoomTiles(rooms, graph.cols))
      {
        var room := RoomFor(partitions[k].rect, minRoomSize, rest);
        rest := Skip(rest, 4);
        var carved := CarveNextRoom(G0, rooms, room);
        PlannedRoomsNext(partitions, minRoomSize, rng, k);
        rooms := rooms + [room];
        if !carved {
          PlannedRoomsAt(partitions, minRoomSize, rng, k);
          RoomFailed(PlannedRooms(partitions, minRoomSize, rng), k, graph.cols, |G0|);
          return rooms, false, rest;
        }
        k := k + 1;
      }
      assert partitions[..k] == partitions;
      PaintFlips(G0, AllRoomTiles(rooms, graph.cols));
      ok := true;
    }

    /** Carving the next room after the rooms `done`, whose tiles are already Ground. */
    method CarveNextRoom(ghost G0: seq<MapNode>, ghost done: seq<Rect>, room: Rect) returns (ok: bool)
      requires InRange(AllRoomTiles(done, graph.cols), |G0|) && graph.nodes == Paint(G0, AllRoomTiles(done, graph.cols))
      modifies graph
      ensures ok <==> InRange(RoomTiles(room, graph.cols), |G0|)
      ensures ok ==> InRange(AllRoomTiles(done + [room], graph.cols), |G0|)
      ensures ok ==> graph.nodes == Paint(G0, AllRoomTiles(done + [room], graph.cols))
      ensures Flipped(G0, graph.nodes)
    {
      ghost var before := graph.nodes;
      PaintFlips(G0, AllRoomTiles(done, graph.cols));
      ok := CarveRoom(room);
      FlippedTrans(G0, before, graph.nodes);
      if ok {
        RoomCarved(G0, before, graph.nodes, done, room, graph.cols);
      }
    }

    /**
     * `carveCorridor(a, b)`: one draw of `Math.random()` chooses between the
     * row of a's centre then the column of b's, and the column of a's centre
     * then the row of b's. It stops at the first tile without a node.
     */
    method CarveCorridor(a: Rect, b: Rect, rng: Rng) returns (ok: bool, rest: Rng)
      requires rng.Valid()
      modifies graph
      ensures rest == rng.Tail()
      ensures ok <==> InRange(CorridorTiles(a.GetCenter(), b.GetCenter(), rng.Head() < 0.5, graph.cols), |old(graph.nodes)|)
      ensures ok ==> graph.nodes == Paint(old(graph.nodes), CorridorTiles(a.GetCenter(), b.GetCenter(), rng.Head() < 0.5, graph.cols))
      ensures Flipped(old(graph.nodes), graph.nodes)
    {
      ghost var G0 := graph.nodes;
      var centerA := a.GetCenter();
      var centerB := b.GetCenter();
      if rng.Head() < 0.5 {
        ok := CarveHorizontal(centerA.x, centerB.x, centerA.y);
        if ok {
          ghost var G1 := graph.nodes;
          ok := CarveVertical(centerA.y, centerB.y, centerB.x);
          FlippedTrans(G0, G1, graph.nodes);
          PaintPaint(G0, HorizontalTiles(centerA.x, centerB.x, centerA.y, graph.cols),
                     VerticalTiles(centerA.y, centerB.y, centerB.x, graph.cols));
        }
      } else {
        ok := CarveVertical(centerA.y, centerB.y, centerA.x);
        if ok {
          ghost var G1 := graph.nodes;
          ok := CarveHorizontal(centerA.x, centerB.x, centerB.y);
          FlippedTrans(G0, G1, graph.nodes);
          PaintPaint(G0, VerticalTiles(centerA.y, centerB.y, centerA.x, graph.cols),
                     HorizontalTiles(centerA.x, centerB.x, centerB.y, graph.cols));
        }
      }
      rest := rng.Tail();
    }

    /**
     * The nested loops of `createConnections`: over the connected rooms in
     * order and, for each, over the remaining rooms in order, keeping the
     * first pair whose centre distance is below the best so far (which
     * starts at Infinity, here None).
     */
    method FindNearest(rooms: seq<Rect>, connected: seq<int>, remaining: seq<int>)
      returns (from: int, to: int, ghost p: int, ghost t: int)
      requires InRooms(|rooms|, connected) && InRooms(|rooms|, remaining)
      requires |connected| > 0 && |remaining| > 0
      ensures 0 <= p < |connected| && from == connected[p]
      ensures 0 <= t < |remaining| && to == remaining[t]
      ensures FirstNearestBefore(rooms, connected, remaining, |connected|, 0, p, t)
    {
      var best: Option<nat> := None;
      from, to, p, t := -1, -1, 0, 0;
      var q := 0;
      while q < |connected|
        invariant 0 <= q <= |connected|
        invariant Scanning(rooms, connected, remaining, q, 0, best, p, t)
        invariant best.Some? ==> from == connected[p] && to == remaining[t]
      {
        var s := 0;
        while s < |remaining|
          invariant 0 <= s <= |remaining|
          invariant Scanning(rooms, connected, remaining, q, s, best, p, t)
          invariant best.Some? ==> from == connected[p] && to == remaining[t]
        {
          var dist := ManhattanDistance(rooms[connected[q]].GetCenter(), rooms[remaining[s]].GetCenter());
          ScanStep(rooms, connected, remaining, q, s, best, p, t);
          if best.None? || dist < best.value {
            best := Some(dist);
            from, to, p, t := connected[q], remaining[s], q, s;
          }
          s := s + 1;
        }
        ScanRow(rooms, connected, remaining, q, best, p, t);
        q := q + 1;
      }
    }

    /**
     * `createConnections(rooms)`: starting from rooms[0] connected and the
     * other rooms remaining, repeatedly connects the nearest remaining room
     * found by FindNearest and records the pair, until none remains.
     */
    method CreateConnections(rooms: seq<Rect>) returns (connections: seq<Connection>)
      ensures PrimTree(rooms, connections)
    {
      connections := [];
      var connected: seq<int> := [0];
      var remaining: seq<int> := [];
      var r := 0;
      while r < |rooms|
        invariant 0 <= r <= |rooms|
        invariant Increasing(remaining) && |remaining| == if r == 0 then 0 else r - 1
        invariant forall b :: b in remaining <==> 1 <= b < r
        invariant forall k :: 0 <= k < |remaining| ==> remaining[k] == k + 1
      {
        if r != 0 {
          remaining := remaining + [r];
        }
        r := r + 1;
      }
      GrowStart(rooms, remaining);
      while |remaining| > 0
        invariant Growing(rooms, connected, remaining, connections)
        decreases |remaining|
      {
        var from, to, p, t := FindNearest(rooms, connected, remaining);
        GrowStep(rooms, connected, remaining, connections, p, t);
        connected := connected + [to];
        remaining := Delete(remaining, to);
        connections := connections + [Connection(from, to)];
      }
      GrowEnd(rooms, connected, connections);
    }

    /**
     * The loop of `generate` over the connections: a corridor for each, in
     * order, one draw of `Math.random()` each. It stops at the first corridor
     * tile without a node.
     */
    method CarveCorridors(rooms: seq<Rect>, connections: seq<Connection>, rng: Rng) returns (ok: bool, rest: Rng)
      requires ConnectsRooms(connections, |rooms|) && rng.Valid()
      modifies graph
      ensures ok <==> InRange(AllCorridorTiles(rooms, connections, rng, graph.cols), |old(graph.nodes)|)
      ensures ok ==> rest == Skip(rng, |connections|)
      ensures ok ==> graph.nodes == Paint(old(graph.nodes), AllCorridorTiles(rooms, connections, rng, graph.cols))
      ensures Flipped(old(graph.nodes), graph.nodes)
    {
      ghost var G0 := graph.nodes;
      PaintNothing(G0);
      rest := rng;
      var k := 0;
      while k < |connections|
        invariant 0 <= k <= |connections| && rest == Skip(rng, k)
        invariant CorridorsDone(G0, graph.nodes, rooms, connections, rng, graph.cols, k)
      {
        var carved;
        carved, rest := CarveNextCorridor(G0, rooms, connections, k, rng, rest);
        if !carved {
          return false, rest;
        }
        k := k + 1;
      }
      assert connections[..k] == connections;
      PaintFlips(G0, AllCorridorTiles(rooms, connections, rng, graph.cols));
      ok := true;
    }

    /** One pass of the loop over the connections: the corridor of connections[k]. */
    method CarveNextCorridor(ghost G0: seq<MapNode>, rooms: seq<Rect>, connections: seq<Connection>, k: int,
                             ghost rng: Rng, g: Rng)
      returns (ok: bool, rest: Rng)
      requires ConnectsRooms(connections, |rooms|) && 0 <= k < |connections| && g == Skip(rng, k)
      requires CorridorsDone(G0, graph.nodes, rooms, connections, rng, graph.cols, k)
      modifies graph
      ensures ok <==> InRange(CorridorOf(rooms, connections[k], Skip(rng, k), graph.cols), |G0|)
      ensures rest == Skip(rng, k + 1)
      ensures !ok ==> !InRange(AllCorridorTiles(rooms, connections, rng, graph.cols), |G0|)
      ensures ok ==> CorridorsDone(G0, graph.nodes, rooms, connections, rng, graph.cols, k + 1)
      ensures Flipped(G0, graph.nodes)
    {
      ghost var done := AllCorridorTiles(rooms, connections[..k], rng, graph.cols);
      ghost var before := graph.nodes;
      var con := connections[k];
      ok, rest := CarveCorridor(rooms[con.from], rooms[con.to], g);
      PaintFlips(G0, done);
      FlippedTrans(G0, before, graph.nodes);
      if !ok {
        CorridorWithin(rooms, connections, rng, graph.cols, k);
        return;
      }
      CorridorStep(G0, before, graph.nodes, rooms, connections, rng, graph.cols, k);
    }

    /**
     * `generate()`: the grid is split into partitions of at least
     * minPartitionSize, a room is carved in each leaf, the rooms are joined
     * by the connections of CreateConnections, a corridor is carved for each,
     * and the edges are built once at the end. Any step that meets a tile
     * without a node throws in the original; here it returns `ok == false`
     * with the tiles painted so far and no edges built. An arena at least
     * minPartitionSize on each side with rooms of at least 3 never throws.
     */
    method Generate(rng: Rng) returns (ok: bool, rest: Rng, ghost rooms: seq<Rect>, ghost connections: seq<Connection>,
                                       ghost carved: seq<MapNode>)
      requires rng.Valid() && minRoomSize >= 1 && minPartitionSize == 2 * minRoomSize && graph.Valid()
      modifies graph
      ensures graph.Valid() && Flipped(old(graph.nodes), carved)
      ensures var split := SplitRect(Rect(0, 0, graph.cols, graph.rows), minPartitionSize, rng);
        ok ==> Carving(old(graph.nodes), carved, split.0.GetLeaves(), minRoomSize, split.1, rooms, connections, rest, graph.cols)
      ensures ok ==> graph.nodes == WithGridEdges(carved, graph.cols, graph.rows)
      ensures !ok ==> graph.nodes == carved
      ensures minRoomSize >= 3 && graph.cols >= minPartitionSize && graph.rows >= minPartitionSize ==> ok
    {
      ghost var G0 := graph.nodes;
      ghost var fits := minRoomSize >= 3 && graph.cols >= minPartitionSize && graph.rows >= minPartitionSize;
      var split := SplitRect(Rect(0, 0, graph.cols, graph.rows), minPartitionSize, rng);
      var partitions := split.0.GetLeaves();
      if fits {
        LeavesInside(split.0, minPartitionSize);
        PlannedRoomsInGrid(partitions, minRoomSize, split.1, graph.cols, graph.rows);
      }
      ok, rest, rooms, connections := CarveDungeon(partitions, split.1, fits);
      carved := graph.nodes;
      FlippedValid(G0, carved, graph.cols, graph.rows);
      if ok {
        graph.CreateEdges();
      }
    }

    /**
     * The body of `generate()` between the partition and the edges: the
     * rooms, the connections and the corridors.
     */
    method CarveDungeon(partitions: seq<Partition>, g: Rng, ghost fits: bool)
      returns (ok: bool, rest: Rng, ghost rooms: seq<Rect>, ghost connections: seq<Connection>)
      requires g.Valid() && minRoomSize >= 1 && IsGrid(graph.nodes, graph.cols, graph.rows)
      requires fits ==> forall k :: 0 <= k < |partitions| ==>
                          InGrid(PlannedRooms(partitions, minRoomSize, g)[k], graph.cols, graph.rows)
      modifies graph
      ensures Flipped(old(graph.nodes), graph.nodes)
      ensures ok ==> Carving(old(graph.nodes), graph.nodes, partitions, minRoomSize, g, rooms, connections, rest, graph.cols)
      ensures fits ==> ok
    {
      ghost var G0 := graph.nodes;
      if fits {
        AllRoomTilesInGrid(PlannedRooms(partitions, minRoomSize, g), graph.cols, graph.rows);
      }
      var roomsMade, roomsOk, g1 := CreateRooms(partitions, g);
      rooms := roomsMade;
      if !roomsOk {
        return false, g1, rooms, [];
      }
      var cs := CreateConnections(roomsMade);
      connections := cs;
      PrimTreeSpans(rooms, connections);
      if fits {
        AllCorridorTilesInGrid(rooms, cs, g1, graph.cols, graph.rows);
      }
      ghost var G1 := graph.nodes;
      ok, rest := CarveCorridors(roomsMade, cs, g1);
      FlippedTrans(G0, G1, graph.nodes);
      if ok {
        PaintedMore(G0, G1, graph.nodes, AllRoomTiles(rooms, graph.cols), AllCorridorTiles(rooms, connections, g1, graph.cols));
      }
    }
  }
}
