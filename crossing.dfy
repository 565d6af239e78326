/** The gate-line crossing rule: a track's last move crosses a line on one axis
    when it starts strictly on one side of the line and ends on the line or
    beyond it. */
module Crossing {
  import opened Geometry

  /** The component of `p` a gate line on `axis` looks at: y for the axis "y",
      x for every other axis name. */
  function AxisValue(p: Point, axis: string): int
  {
    if axis == "y" then p.y else p.x
  }

  /** `crossed_line`: the coordinate lies strictly beyond the previous value
      and is reached or passed by the current one, in either direction. The
      integer centroid components are compared with the real coordinate. */
  function CrossedLine(prev: Point, curr: Point, axis: string, coord: real): (crossed: bool)
    ensures crossed ==> AxisValue(prev, axis) as real != coord
    ensures crossed ==> AxisValue(prev, axis) != AxisValue(curr, axis)
  {
    var p := AxisValue(prev, axis) as real;
    var c := AxisValue(curr, axis) as real;
    (p < coord <= c) || (p > coord >= c)
  }

  /** Which side of the line a value is on: -1 below, 1 above, 0 on it. */
  function Side(v: real, coord: real): (s: int)
    ensures -1 <= s <= 1
    ensures s == 0 <==> v == coord
  {
    if v < coord then -1 else if v > coord then 1 else 0
  }

  /** The crossing rule read geometrically: the move starts off the line, and
      ends on the line or on the other side of it. */
  lemma CrossedLineSides(prev: Point, curr: Point, axis: string, coord: real)
    ensures var p, c := AxisValue(prev, axis) as real, AxisValue(curr, axis) as real;
            CrossedLine(prev, curr, axis, coord)
            <==> Side(p, coord) != 0 && Side(p, coord) * Side(c, coord) <= 0
  {
  }

  /** A move that starts on the line never crosses it. */
  lemma StartOnLine(prev: Point, curr: Point, axis: string, coord: real)
    requires AxisValue(prev, axis) as real == coord
    ensures !CrossedLine(prev, curr, axis, coord)
  {
  }

  /** A move that keeps the watched component never crosses. */
  lemma NoMotion(prev: Point, curr: Point, axis: string, coord: real)
    requires AxisValue(prev, axis) == AxisValue(curr, axis)
    ensures !CrossedLine(prev, curr, axis, coord)
  {
  }

  /** A move from off the line onto it always crosses. */
  lemma EndOnLine(prev: Point, curr: Point, axis: string, coord: real)
    requires AxisValue(prev, axis) as real != coord && AxisValue(curr, axis) as real == coord
    ensures CrossedLine(prev, curr, axis, coord)
  {
  }

  /** Between points off the line, crossing does not depend on the direction
      of the move. */
  lemma Reversal(prev: Point, curr: Point, axis: string, coord: real)
    requires AxisValue(prev, axis) as real != coord && AxisValue(curr, axis) as real != coord
    ensures CrossedLine(curr, prev, axis, coord) <==> CrossedLine(prev, curr, axis, coord)
  {
  }

  /** Only the watched component matters. */
  lemma OtherComponent(prev: Point, curr: Point, prev': Point, curr': Point, axis: string, coord: real)
    requires AxisValue(prev, axis) == AxisValue(prev', axis)
    requires AxisValue(curr, axis) == AxisValue(curr', axis)
    ensures CrossedLine(prev, curr, axis, coord) == CrossedLine(prev', curr', axis, coord)
  {
  }

  /** A gate line: the axis it watches and its coordinate on that axis. */
  datatype GateLine = GateLine(axis: string, coord: real)

  /** The move from `prev` to `curr` crosses at least one of the lines. */
  ghost predicate AnyCrossed(prev: Point, curr: Point, lines: seq<GateLine>) {
    exists i :: 0 <= i < |lines| && CrossedLine(prev, curr, lines[i].axis, lines[i].coord)
  }
}
