/**
 * The `System.Drawing` value types the grid and direction code works with:
 * a `Point` moved by a `Size`, both with unchecked 32-bit components.
 */
module Drawing {
  import opened IntWidths

  datatype Point = Point(x: int, y: int)
  datatype Size = Size(width: int, height: int)

  const ORIGIN: Point := Point(0, 0)

  /** Both coordinates are `int` values. */
  predicate IsPoint(p: Point) { IsInt32(p.x) && IsInt32(p.y) }

  /** `p + s`: unchecked componentwise addition. */
  function Offset(p: Point, s: Size): (r: Point)
    ensures IsPoint(r)
  {
    Point(Wrap32(p.x + s.width), Wrap32(p.y + s.height))
  }

  /** `k * s`: unchecked componentwise multiplication. */
  function Scale(k: int, s: Size): (r: Size)
  {
    Size(Wrap32(k * s.width), Wrap32(k * s.height))
  }

  function Negate(s: Size): Size
  {
    Size(-s.width, -s.height)
  }

  /** Moving by a size that fits and back again returns every point, even across the wrap-around. */
  lemma OffsetBack(p: Point, s: Size)
    requires IsPoint(p)
    ensures Offset(Offset(p, s), Negate(s)) == p
  {
    Wrap32Add(p.x + s.width, -s.width);
    Wrap32Add(p.y + s.height, -s.height);
  }

  /** Without overflow the move is plain addition. */
  lemma OffsetExact(p: Point, s: Size)
    requires IsInt32(p.x + s.width) && IsInt32(p.y + s.height)
    ensures Offset(p, s) == Point(p.x + s.width, p.y + s.height)
  {
  }

  /** Two sizes whose components differ by at most 2 move a point to the same place only when they are equal. */
  lemma OffsetInjective(p: Point, s: Size, t: Size)
    requires -2 <= s.width - t.width <= 2 && -2 <= s.height - t.height <= 2
    requires Offset(p, s) == Offset(p, t)
    ensures s == t
  {
    WrapNear(p.x + t.width, s.width - t.width);
    WrapNear(p.y + t.height, s.height - t.height);
  }

  /** Wrapping cannot identify two values closer together than 2^32. */
  lemma WrapNear(x: int, k: int)
    requires -2 <= k <= 2 && Wrap32(x + k) == Wrap32(x)
    ensures k == 0
  {
    Wrap32Sub(x, k);
  }

  /** `System.Drawing.Rectangle`: a location and a size. */
  datatype Rectangle = Rectangle(x: int, y: int, width: int, height: int)

  /** All four components are `int` values. */
  predicate IsRect(b: Rectangle) { IsInt32(b.x) && IsInt32(b.y) && IsInt32(b.width) && IsInt32(b.height) }

  /** `Right` and `Bottom`: unchecked sums. */
  function Right(b: Rectangle): int
  {
    Wrap32(b.x + b.width)
  }

  function Bottom(b: Rectangle): int
  {
    Wrap32(b.y + b.height)
  }

  /** `Rectangle.Contains(Point)`: half-open on both axes, against the unchecked right and bottom edges. */
  predicate RectContains(b: Rectangle, p: Point)
  {
    b.x <= p.x < Right(b) && b.y <= p.y < Bottom(b)
  }

  /** `Rectangle.Inflate(dx, dy)`: grows by `dx` on the left and right and by `dy` on the top and bottom, unchecked. */
  function Inflate(b: Rectangle, dx: int, dy: int): (r: Rectangle)
    requires IsInt32(b.x) && IsInt32(b.y)
    ensures IsInt32(b.x + b.width) && IsInt32(b.x - dx) && IsInt32(b.x - dx + b.width + 2 * dx) ==> Right(r) == Right(b) + dx
    ensures IsInt32(b.y + b.height) && IsInt32(b.y - dy) && IsInt32(b.y - dy + b.height + 2 * dy) ==> Bottom(r) == Bottom(b) + dy
  {
    var r := Rectangle(Wrap32(b.x - dx), Wrap32(b.y - dy), Wrap32(b.width + 2 * dx), Wrap32(b.height + 2 * dy));
    Wrap32Add(b.width + 2 * dx, b.x - dx);
    Wrap32Add(b.height + 2 * dy, b.y - dy);
    r
  }
}
