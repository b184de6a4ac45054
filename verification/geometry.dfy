/**
 * Points, planar distances and the millisecond clock used by the action engine.
 *
 * Coordinates are `real`: the float rounding of `glm::distance2` is not modelled.
 * The clock is the 32-bit unsigned millisecond tick count, so elapsed time is
 * computed with explicit wrap-around.
 */
module Geometry {
  import opened Integers

  datatype Vec3 = Vec3(x: real, y: real, z: real)

  /** Squared distance between the projections of `a` and `b` on the x/y plane. */
  function PlanarDistance2(a: Vec3, b: Vec3): (d: real)
    ensures d >= 0.0
    ensures a.x == b.x && a.y == b.y ==> d == 0.0
  {
    (a.x - b.x) * (a.x - b.x) + (a.y - b.y) * (a.y - b.y)
  }

  /**
   * `now - since` computed in `uint32_t`: the difference wraps modulo 2^32 when
   * the tick counter has rolled over.
   */
  function Elapsed(now: U32, since: U32): (e: U32)
    ensures now >= since ==> e as int == now as int - since as int
    ensures now < since ==> e as int == U32Modulus + now as int - since as int
  {
    ((now as int - since as int) % U32Modulus) as U32
  }
}
