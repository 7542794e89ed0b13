/**
 * What every zombie state shares (feb-13 ZombieBaseState, which the
 * zombie-game states extend too): the descriptor a state update returns, and
 * the length of the current path. `distanceTo` between two path points is a
 * parameter `dist`; the model does not compute square roots.
 */
module ZombieBaseState {
  import opened Wrappers

  /**
   * The object an update returns. A field the original leaves out of the
   * object literal is None here.
   */
  datatype Descriptor = Descriptor(
    animation: string,
    shouldMove: Option<bool>,
    shouldPathFind: Option<bool>,
    pathDistance: Option<real>,
    clearPath: Option<bool>)

  /** `{ animation }`, what every `enterState` returns. */
  function Enter(animation: string): (r: Descriptor)
    ensures r.animation == animation
    ensures r.shouldMove.None? && r.shouldPathFind.None? && r.pathDistance.None? && r.clearPath.None?
  {
    Descriptor(animation, None, None, None, None)
  }

  /** One frame's inputs to an update: whether the player attacks, and the length of the current path. */
  datatype Input = Input(attacking: bool, distance: real)

  /** The sum of the distances between consecutive points of the path. */
  function PathLength<P>(path: seq<P>, dist: (P, P) -> real): real
    decreases |path|
  {
    if |path| <= 1 then 0.0
    else PathLength(path[..|path| - 1], dist) + dist(path[|path| - 2], path[|path| - 1])
  }

  /** What `getPathDistance(path)` returns: 0 for a null path, else the path's length. */
  function PathDistance<P>(path: Option<seq<P>>, dist: (P, P) -> real): real {
    if path.None? then 0.0 else PathLength(path.value, dist)
  }

  /**
   * `getPathDistance(path)`: 0 for a null or empty path, else the running
   * sum, from the first point on, of the distance from each point to the
   * next.
   */
  method GetPathDistance<P>(path: Option<seq<P>>, dist: (P, P) -> real) returns (total: real)
    ensures total == PathDistance(path, dist)
  {
    if path.None? || |path.value| == 0 {
      return 0.0;
    }
    var p := path.value;
    total := 0.0;
    var i := 0;
    while i < |p| - 1
      invariant 0 <= i <= |p| - 1
      invariant total == PathLength(p[..i + 1], dist)
    {
      assert p[..i + 2][..i + 1] == p[..i + 1];
      total := total + dist(p[i], p[i + 1]);
      i := i + 1;
    }
    assert p[..i + 1] == p;
  }

  /** A path of at most one point has length 0. */
  lemma ShortPath<P>(path: seq<P>, dist: (P, P) -> real)
    requires |path| <= 1
    ensures PathLength(path, dist) == 0.0
  {
  }

  /** With non-negative point distances, a path's length is non-negative. */
  lemma {:induction false} PathLengthNonNegative<P>(path: seq<P>, dist: (P, P) -> real)
    requires forall a, b :: dist(a, b) >= 0.0
    ensures PathLength(path, dist) >= 0.0
    decreases |path|
  {
    if |path| > 1 {
      PathLengthNonNegative(path[..|path| - 1], dist);
    }
  }

  /** Appending a point adds exactly the length of the last segment. */
  lemma {:induction false} PathLengthAppend<P>(path: seq<P>, x: P, dist: (P, P) -> real)
    requires |path| >= 1
    ensures PathLength(path + [x], dist) == PathLength(path, dist) + dist(path[|path| - 1], x)
  {
    assert (path + [x])[..|path|] == path;
  }

  /** Prepending a point adds exactly the length of the first segment. */
  lemma {:induction false} PathLengthPrepend<P>(x: P, path: seq<P>, dist: (P, P) -> real)
    requires |path| >= 1
    ensures PathLength([x] + path, dist) == dist(x, path[0]) + PathLength(path, dist)
    decreases |path|
  {
    if |path| > 1 {
      var init := path[..|path| - 1];
      PathLengthPrepend(x, init, dist);
      assert ([x] + path)[..|path|] == [x] + init;
    } else {
      assert [x] + path == [x, path[0]];
      assert [x, path[0]][..1] == [x];
    }
  }
}
