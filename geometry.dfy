/** Plane geometry values produced by the image library: integer pixel points,
    axis-aligned rectangles and possibly rotated minimum-area rectangles. */
module Geometry {

  /** A pixel position (Go's `image.Point`). */
  datatype Point = Point(x: int, y: int)

  /** An axis-aligned rectangle by its corners `min` and `max` (Go's `image.Rectangle`). */
  datatype Rectangle = Rectangle(min: Point, max: Point)
  {
    /** Horizontal extent `max.x - min.x`. */
    function Dx(): int { max.x - min.x }

    /** Vertical extent `max.y - min.y`. */
    function Dy(): int { max.y - min.y }
  }

  /** A possibly rotated rectangle as returned by the minimum-area-rectangle call:
      its four corner `points`, the axis-aligned `boundingRect` enclosing them, and its
      own centre, side lengths and rotation angle. */
  datatype RotatedRect = RotatedRect(
    points: seq<Point>,
    boundingRect: Rectangle,
    center: Point,
    width: int,
    height: int,
    angle: real)
}
