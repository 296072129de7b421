/**
 * The parts of `java.awt.Rectangle` and `java.awt.Point` the buffer and the
 * selection control rely on, over unbounded integers.
 */
module Geometry {

  datatype Point = Point(x: int, y: int)

  /** A rectangle with top-left corner `(x, y)`; width and height may be negative. */
  datatype Rect = Rect(x: int, y: int, width: int, height: int)

  /** `Rectangle.isEmpty`: no positive area. */
  predicate IsEmpty(r: Rect) {
    r.width <= 0 || r.height <= 0
  }

  /** `Rectangle.contains(x, y)`: the point lies inside a rectangle of non-negative size. */
  predicate ContainsPoint(r: Rect, px: int, py: int) {
    r.width >= 0 && r.height >= 0
    && r.x <= px && r.y <= py
    && px < r.x + r.width && py < r.y + r.height
  }

  /**
   * `Rectangle.contains(x, y, w, h)`: the other rectangle has positive area
   * and lies entirely inside this one.  A negative dimension on either side
   * answers false.
   */
  predicate ContainsRect(r: Rect, x: int, y: int, w: int, h: int) {
    r.width >= 0 && r.height >= 0 && w > 0 && h > 0
    && r.x <= x && r.y <= y
    && x + w <= r.x + r.width && y + h <= r.y + r.height
  }

  /**
   * `Rectangle.intersection`: the larger top-left corner and the smaller
   * bottom-right corner; disjoint rectangles give a non-positive size.
   */
  function Intersection(a: Rect, b: Rect): (r: Rect)
    ensures !IsEmpty(r) ==> forall px, py ::
      ContainsPoint(r, px, py) <==> ContainsPoint(a, px, py) && ContainsPoint(b, px, py)
    ensures IsEmpty(r) && !IsEmpty(a) && !IsEmpty(b) ==> forall px, py ::
      !(ContainsPoint(a, px, py) && ContainsPoint(b, px, py))
  {
    var x1 := if a.x < b.x then b.x else a.x;
    var y1 := if a.y < b.y then b.y else a.y;
    var x2 := if a.x + a.width > b.x + b.width then b.x + b.width else a.x + a.width;
    var y2 := if a.y + a.height > b.y + b.height then b.y + b.height else a.y + a.height;
    Rect(x1, y1, x2 - x1, y2 - y1)
  }
}
