/** Points in frame-pixel coordinates and the distance used to associate them. */
module Geometry {

  /** A detection centroid: integer pixel coordinates (x is the column, y the row). */
  datatype Point = Point(x: int, y: int)

  /** Squared Euclidean distance. The square root is monotone, so comparing squared
      distances orders pairs exactly as comparing Euclidean distances does. */
  function SqDist(a: Point, b: Point): (d: nat)
    ensures d == 0 <==> a == b
  {
    var dx, dy := a.x - b.x, a.y - b.y;
    Square(dx) + Square(dy)
  }

  function Square(v: int): (s: nat)
    ensures s == 0 <==> v == 0
  {
    if v < 0 then (-v) * (-v) else v * v
  }

  /** Last element of a non-empty sequence. */
  function Last<T>(s: seq<T>): T
    requires |s| > 0
  {
    s[|s| - 1]
  }
}
