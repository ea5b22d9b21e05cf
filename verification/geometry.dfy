/**
 Integer geometry of the display: the `Position` and `Velocity` components and
 the axis-aligned rectangles the collision code works on.

 A rectangle covers the half-open pixel spans [x, x + width) and
 [y, y + height). The extent of the intersection of two rectangles on one axis
 is max(0, min(right edges) - max(left edges)), and the centre of a rectangle
 is its top-left corner plus (size - 1) / 2 on each axis (0 for an empty
 side), rounded down, which is how the graphics library places it.
 */
module Geometry {
  import opened Prelude

  /** A pixel coordinate; the `Position` component wraps one. */
  datatype Point = Point(x: int, y: int)

  /** The `Velocity` component, in pixels per tick before the speed factor. */
  datatype Velocity = Velocity(x: int, y: int)

  datatype Size = Size(width: u32, height: u32)

  datatype Rect = Rect(topLeft: Point, size: Size) {
    function Right(): int { topLeft.x + size.width }
    function Bottom(): int { topLeft.y + size.height }
  }

  /** `Position::default()` and `Velocity::default()`: the origin and rest. */
  const DEFAULT_POSITION: Point := Point(0, 0)
  const DEFAULT_VELOCITY: Velocity := Velocity(0, 0)

  /** Length of the overlap of the spans [a0, a0 + alen) and [b0, b0 + blen). */
  function SpanOverlap(a0: int, alen: nat, b0: int, blen: nat): (r: nat)
    ensures r <= alen && r <= blen
    ensures r > 0 <==> (alen > 0 && blen > 0 && a0 < b0 + blen && b0 < a0 + alen)
    ensures a0 <= b0 && a0 + alen <= b0 + blen && b0 < a0 + alen ==> r == a0 + alen - b0
    ensures b0 <= a0 && b0 + blen <= a0 + alen && a0 < b0 + blen ==> r == b0 + blen - a0
  {
    var lo := Max(a0, b0);
    var hi := Min(a0 + alen, b0 + blen);
    if hi > lo then hi - lo else 0
  }

  /** Size of the intersection rectangle of `a` and `b`. */
  function Intersection(a: Rect, b: Rect): Size {
    Size(SpanOverlap(a.topLeft.x, a.size.width, b.topLeft.x, b.size.width),
         SpanOverlap(a.topLeft.y, a.size.height, b.topLeft.y, b.size.height))
  }

  /** Two rectangles share at least one pixel. */
  predicate Overlaps(a: Rect, b: Rect) {
    var i := Intersection(a, b);
    i.width > 0 && i.height > 0
  }

  /** Offset of the centre pixel of a span of length `len`. */
  function CenterOffset(len: nat): nat {
    if len == 0 then 0 else (len - 1) / 2
  }

  function Center(r: Rect): Point {
    Point(r.topLeft.x + CenterOffset(r.size.width), r.topLeft.y + CenterOffset(r.size.height))
  }
}
