/**
 * The ambient `Math.random()` of the game, made explicit: an infinite stream
 * of draws, each in [0, 1), and the position of the next draw.
 */
module Rng {
  datatype Rng = Rng(draw: nat -> real, pos: nat) {
    /** Every draw of the stream lies in [0, 1), as `Math.random()` promises. */
    ghost predicate Valid() {
      forall n: nat :: 0.0 <= draw(n) < 1.0
    }

    /** The value of the next call to `Math.random()`. */
    function Head(): (r: real)
      requires Valid()
      ensures 0.0 <= r < 1.0
    {
      draw(pos)
    }

    /** The stream after one call to `Math.random()`. */
    function Tail(): (g: Rng)
      ensures g.draw == draw && g.pos == pos + 1
    {
      Rng(draw, pos + 1)
    }
  }
}
