/** World-space vectors and the "on top of each other" distance test of copyNormals. */
module Geometry {

  /** A point or direction in world space (an MPoint, MVector or vertex normal). */
  datatype Vec3 = Vec3(x: real, y: real, z: real)

  function Sub(a: Vec3, b: Vec3): Vec3
  {
    Vec3(a.x - b.x, a.y - b.y, a.z - b.z)
  }

  /** The square of a vector's Euclidean length. */
  function SqLength(v: Vec3): (r: real)
    ensures r >= 0.0
  {
    v.x * v.x + v.y * v.y + v.z * v.z
  }

  /** `(a - b).length() <= threshold`, decided on squares so that no root is taken.
      A negative threshold accepts nothing, as a length is never negative. */
  predicate Within(a: Vec3, b: Vec3, threshold: real)
  {
    0.0 <= threshold && SqLength(Sub(a, b)) <= threshold * threshold
  }

  /** Within is exactly the source's test: for the Euclidean distance `len` between
      `a` and `b` (the non-negative root of the squared length), the pair is within
      the threshold iff `len <= threshold`. In particular a distance equal to the
      threshold is accepted and any larger one is refused. */
  lemma DistanceTest(a: Vec3, b: Vec3, threshold: real, len: real)
    requires 0.0 <= len && len * len == SqLength(Sub(a, b))
    ensures Within(a, b, threshold) <==> len <= threshold
  {
    if 0.0 <= threshold {
      SquaresOrdered(len, threshold);
    }
  }

  /** On non-negative reals, squaring keeps the order both ways. */
  lemma SquaresOrdered(x: real, y: real)
    requires 0.0 <= x && 0.0 <= y
    ensures x <= y <==> x * x <= y * y
  {
    if x <= y {
      assert x * (y - x) >= 0.0 && (y - x) * y >= 0.0;
    } else {
      assert y * (x - y) >= 0.0 && (x - y) * x > 0.0;
    }
  }
}
