/** Value types shared by the editor's components. */
module Geometry {

  /** The conventional optional value (C#'s `Nullable<T>` and `Maybe<T>`). */
  datatype Option<+T> = None | Some(value: T)

  /** System.Drawing.Point: a pair of integer coordinates. */
  datatype Point = Point(x: int, y: int)

  /** System.Drawing.Rectangle: a location and a size. */
  datatype Rect = Rect(x: int, y: int, width: int, height: int)

  function Sub(p: Point, q: Point): (r: Point)
    ensures Add(q, r) == p
  {
    Point(p.x - q.x, p.y - q.y)
  }

  function Add(p: Point, q: Point): Point {
    Point(p.x + q.x, p.y + q.y)
  }

  const Origin := Point(0, 0)
}
