/** Points in 3-space and the distance test of hole carving. */
module Geometry {

  /** One row `(x, y, z)` of an N x 3 point array. */
  datatype Point = Point(x: real, y: real, z: real)

  /** An N x 3 point array, rows in array order. */
  type Cloud = seq<Point>

  /** The squared Euclidean distance `|p - q|^2`. */
  function SqDist(p: Point, q: Point): (d: real)
    ensures d >= 0.0
    ensures p == q ==> d == 0.0
  {
    (p.x - q.x) * (p.x - q.x) + (p.y - q.y) * (p.y - q.y) + (p.z - q.z) * (p.z - q.z)
  }

  /** `d` is the Euclidean distance `np.linalg.norm(p - q)`. */
  ghost predicate IsDistance(d: real, p: Point, q: Point) {
    d >= 0.0 && d * d == SqDist(p, q)
  }

  /** The hole test `np.linalg.norm(center - p) >= hole_size`, decided without
      a square root: a negative or zero hole size keeps every point, and a
      positive one keeps exactly the points whose squared distance reaches
      its square. */
  predicate FarEnough(p: Point, center: Point, holeSize: real) {
    holeSize <= 0.0 || SqDist(p, center) >= holeSize * holeSize
  }

  /** `FarEnough` agrees with comparing the true distance against the hole size. */
  lemma FarEnoughIsDistanceTest(p: Point, center: Point, holeSize: real, d: real)
    requires IsDistance(d, p, center)
    ensures FarEnough(p, center, holeSize) <==> d >= holeSize
  {
    if holeSize > 0.0 {
      if d >= holeSize {
        assert d * d >= holeSize * d >= holeSize * holeSize;
      } else {
        assert d * d <= d * holeSize by {
          assert d * (holeSize - d) >= 0.0;
        }
        assert d * holeSize < holeSize * holeSize by {
          assert holeSize * (holeSize - d) > 0.0;
        }
      }
    }
  }

  /** The hole center itself is never kept by a positive hole size. */
  lemma CenterIsNear(center: Point, holeSize: real)
    requires holeSize > 0.0
    ensures !FarEnough(center, center, holeSize)
  {
    assert SqDist(center, center) == 0.0;
    FarEnoughIsDistanceTest(center, center, holeSize, 0.0);
  }
}
