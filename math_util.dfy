/** Integer helpers of the dungeon generator (dungeon-gen MathUtil). */
module MathUtil {

  /** THREE.Vector2 with the integer components the generator produces. */
  datatype Vec2 = Vec2(x: int, y: int)

  function Abs(n: int): (r: int)
    ensures r >= 0 && (r == n || r == -n)
  {
    if n < 0 then -n else n
  }

  /**
   * `getRandomInt(min, max)` with the value of `Math.random()` passed in as `r`:
   * `Math.floor(r * (max - min)) + min`.
   */
  function GetRandomInt(min: int, max: int, r: real): (n: int)
    requires 0.0 <= r < 1.0
    ensures max > min ==> min <= n < max
    ensures max == min ==> n == min
    ensures max < min ==> max <= n <= min
  {
    var x := r * (max - min) as real;
    ScaledSpan(r, min, max);
    x.Floor + min
  }

  /** For r in [0, 1) and d > 0, r·d lies in [0, d). */
  lemma ScaleBounds(r: real, d: real)
    requires 0.0 <= r < 1.0 && d > 0.0
    ensures 0.0 <= r * d < d
  {
    assert 0.0 <= r * d;
    assert d - r * d == (1.0 - r) * d;
    assert (1.0 - r) * d > 0.0;
  }

  /** r·(max - min) lies between 0 and max - min, on the side of its sign. */
  lemma ScaledSpan(r: real, min: int, max: int)
    requires 0.0 <= r < 1.0
    ensures var x := r * (max - min) as real;
      (max > min ==> 0.0 <= x < (max - min) as real) &&
      (max < min ==> (max - min) as real < x <= 0.0)
  {
    var d := (max - min) as real;
    if max > min {
      ScaleBounds(r, d);
    } else if max < min {
      ScaleBounds(r, -d);
      assert r * d == -(r * -d);
    }
  }

  /** `manhattanDistance(v1, v2)`: |dx| + |dy|. */
  function ManhattanDistance(v1: Vec2, v2: Vec2): (d: int)
    ensures d >= 0
    ensures d == 0 <==> v1 == v2
    ensures Abs(v1.x - v2.x) <= d && Abs(v1.y - v2.y) <= d
  {
    Abs(v1.x - v2.x) + Abs(v1.y - v2.y)
  }

  lemma ManhattanSymmetric(v1: Vec2, v2: Vec2)
    ensures ManhattanDistance(v1, v2) == ManhattanDistance(v2, v1)
  {
  }

  lemma ManhattanTriangle(u: Vec2, v: Vec2, w: Vec2)
    ensures ManhattanDistance(u, w) <= ManhattanDistance(u, v) + ManhattanDistance(v, w)
  {
  }
}
