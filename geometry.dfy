/** The sites the program connects, and the distance between two of them. */
module Geometry {

  /** A site given by its two coordinates. */
  datatype Point = Point(x: real, y: real)

  /** What the model assumes of the Euclidean distance: it is never negative, it does not
      depend on the order of its arguments, and a site is at distance 0 from itself.
      The square root itself is not modelled: every length is `w(a, b)` for a `w` with
      these properties. */
  ghost predicate IsDistance(w: (Point, Point) -> real) {
    && (forall a, b :: w(a, b) >= 0.0)
    && (forall a, b :: w(a, b) == w(b, a))
    && (forall a :: w(a, a) == 0.0)
  }
}
