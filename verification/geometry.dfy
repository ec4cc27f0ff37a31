/** Play-field geometry. The game compares Math.hypot distances with ranges
    and radii; every such comparison is exact on squared distances, which is
    how it is stated here. The floating-point unit-vector step that moves
    enemies and projectiles is a parameter of the model. */
module Geometry {

  /** A position on the canvas, in pixels. */
  datatype Point = Point(x: real, y: real)

  /** Squared Euclidean distance between two points. */
  function DistSq(a: Point, b: Point): (d: real)
    ensures d >= 0.0
  {
    (a.x - b.x) * (a.x - b.x) + (a.y - b.y) * (a.y - b.y)
  }

  /** `Math.hypot(a - b) <= r` */
  predicate Within(a: Point, b: Point, r: real)
  {
    0.0 <= r && DistSq(a, b) <= r * r
  }

  /** `Math.hypot(a - b) < r` */
  predicate Closer(a: Point, b: Point, r: real)
  {
    0.0 < r && DistSq(a, b) < r * r
  }

  /** `from + (to - from) / |to - from| * speed`: one homing step. It involves
      a square root and floating-point rounding, so the model takes it as
      given rather than computing it. */
  type Stepper = (Point, Point, real) -> Point
}
