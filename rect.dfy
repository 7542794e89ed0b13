/** Axis-aligned integer rectangles of the dungeon generator (dungeon-gen Rect). */
module Rect {
  import opened MathUtil

  /** `new Rect(x, y, w, h)`: (x, y) is the top-left corner, w and h the sides. */
  datatype Rect = Rect(x: int, y: int, w: int, h: int) {

    /** The grid cell (i, j) lies inside the rectangle. */
    predicate Contains(i: int, j: int) {
      x <= i < x + w && y <= j < y + h
    }

    /**
     * `getCenter()`: `Math.floor(x + w/2)`, `Math.floor(y + h/2)`, where `/` is
     * real division; for integers that is x + w div 2 (CenterIsFloorOfHalf).
     * For sides of at least 1 the centre lies inside the rectangle.
     */
    function GetCenter(): (c: Vec2)
      ensures w >= 1 && h >= 1 ==> Contains(c.x, c.y)
    {
      Vec2(x + w / 2, y + h / 2)
    }
  }

  /** The centre is the real floor of corner plus half the side, on each axis. */
  lemma CenterIsFloorOfHalf(r: Rect)
    ensures r.GetCenter() == Vec2(FloorOfHalf(r.x, r.w), FloorOfHalf(r.y, r.h))
  {
    FloorHalf(r.x, r.w);
    FloorHalf(r.y, r.h);
  }

  /** `Math.floor(a + b/2)` for integers a and b, in real arithmetic. */
  ghost function FloorOfHalf(a: int, b: int): int {
    (a as real + b as real / 2.0).Floor
  }

  /** The real floor of a + b/2 is a plus the integer quotient of b by 2. */
  lemma FloorHalf(a: int, b: int)
    ensures FloorOfHalf(a, b) == a + b / 2
  {
    var v := a as real + b as real / 2.0;
    assert b == 2 * (b / 2) + b % 2;
    assert v == (a + b / 2) as real + (b % 2) as real / 2.0;
  }
}
