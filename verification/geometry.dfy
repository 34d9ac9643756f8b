/**
 Planar geometry shared by the marker debouncer and the turret synchronizer.

 Coordinates and angles are exact reals. The Euclidean distance of the game
 needs a square root, which the reals here do not provide, so every operation
 that measures a distance takes the distance function as a parameter; the
 lemmas that depend on its behaviour ask for `IsMetric`.
 */
module Geometry {

  datatype Point = Point(x: real, y: real)

  /** The four corners of a detected marker, in the detector's clockwise order. */
  type Corners = c: seq<Point> | |c| == 4
    witness [Point(0.0, 0.0), Point(0.0, 0.0), Point(0.0, 0.0), Point(0.0, 0.0)]

  /** A distance between two points, standing in for the game's `dist`. */
  type Distance = (Point, Point) -> real

  /** The properties of a Euclidean distance that the model relies on. */
  ghost predicate IsMetric(dist: Distance)
  {
    && (forall p, q :: dist(p, q) >= 0.0)
    && (forall p :: dist(p, p) == 0.0)
    && (forall p, q :: dist(p, q) == dist(q, p))
  }

  function Abs(x: real): real
  {
    if x < 0.0 then -x else x
  }
}
