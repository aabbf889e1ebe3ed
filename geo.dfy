/** The geometry the heuristics consult, kept abstract. The original parses
    a node's coordinate text into 32-bit floats and applies the haversine
    formula, the midpoint and the linear interpolation of src/geo.rs; here
    those are arbitrary functions handed to the heuristics, so every
    combinatorial property proved about the heuristics holds whatever the
    floating-point arithmetic computes. */
module Geo {
  import opened Utils

  /** The coordinate text of a node: (longitude, latitude). */
  type Coordinate = (string, string)

  function CoordinateOf(n: Node): Coordinate
  {
    (n.longitude, n.latitude)
  }

  /** `dist` stands for `haversine_distance` of the two parsed points,
      `mid` for `midpoint` followed by `to_string` of both components, and
      `between(a, b, i, n)` for `get_point_from_line(a, b, i / n)`, also
      formatted back to text. */
  datatype Geometry = Geometry(
    dist: (Coordinate, Coordinate) -> real,
    mid: (Coordinate, Coordinate) -> Coordinate,
    between: (Coordinate, Coordinate, nat, nat) -> Coordinate)

  function Distance(geo: Geometry, a: Node, b: Node): real
  {
    geo.dist(CoordinateOf(a), CoordinateOf(b))
  }
}
