/**
 * Core/Cuboid.cs: an axis-aligned box given by its corner and three `int`
 * extents, with an exclusive far corner, a checked volume and the
 * intersection of two boxes.
 */
module Cuboids {
  import opened Wrappers
  import opened IntWidths
  import opened Point3D

  datatype Cuboid = Cuboid(location: Point3, width: int, height: int, depth: int)

  /** The first corner outside the box: the location moved by the extents (unchecked). */
  function TopRight(c: Cuboid): (r: Point3)
    ensures Fits(c) ==> r == Point3(c.location.x + c.width, c.location.y + c.height, c.location.z + c.depth)
  {
    TranslateBy(c.location, c.width, c.height, c.depth)
  }

  /** `checked(Width * (long)Height * Depth)`: each product is a checked `long` multiplication. */
  function Size(c: Cuboid): (r: Result<int>)
    ensures r.Ok? ==> r.value == c.width * c.height * c.depth
    ensures r.Err? ==> r.error == Overflow && !(IsInt64(c.width * c.height) && IsInt64(c.width * c.height * c.depth))
  {
    var area := c.width * c.height;
    if !IsInt64(area) then Err(Overflow)
    else if !IsInt64(area * c.depth) then Err(Overflow)
    else Ok(area * c.depth)
  }

  /** One axis of an intersection: the later start, the earlier end, and whether they enclose anything. */
  datatype Line = Line(start: int, end: int, isValid: bool)

  function Max(a: int, b: int): int { if a >= b then a else b }

  function Min(a: int, b: int): int { if a <= b then a else b }

  function IntersectLine(start1: int, exend1: int, start2: int, exend2: int): (r: Line)
    ensures r.isValid <==> start1 < exend1 && start2 < exend2 && start1 < exend2 && start2 < exend1
  {
    var start := Max(start1, start2);
    var end := Min(exend1, exend2);
    Line(start, end, start < end)
  }

  /** `Intersect`: null when some axis encloses nothing, otherwise the box spanned by the three axis intersections. */
  function Intersect(a: Cuboid, b: Cuboid): (r: Option<Cuboid>)
    ensures r.Some? ==> Inside(a, r.value.location) && Inside(b, r.value.location)
  {
    var tr := TopRight(a);
    var otr := TopRight(b);
    var x := IntersectLine(a.location.x, tr.x, b.location.x, otr.x);
    var y := IntersectLine(a.location.y, tr.y, b.location.y, otr.y);
    var z := IntersectLine(a.location.z, tr.z, b.location.z, otr.z);
    if !x.isValid || !y.isValid || !z.isValid then None
    else Some(Cuboid(Point3(x.start, y.start, z.start),
                     Wrap32(x.end - x.start), Wrap32(y.end - y.start), Wrap32(z.end - z.start)))
  }

  /** A box whose extents are non-negative `int` values and whose far corner does not wrap around. */
  predicate Fits(c: Cuboid)
  {
    Valid(c.location) && Valid(Point3(c.width, c.height, c.depth)) && c.width >= 0 && c.height >= 0 && c.depth >= 0 &&
    IsInt32(c.location.x + c.width) && IsInt32(c.location.y + c.height) && IsInt32(c.location.z + c.depth)
  }

  /** The point lies in the half-open box from the location to the far corner. */
  predicate Inside(c: Cuboid, p: Point3)
  {
    var tr := TopRight(c);
    c.location.x <= p.x < tr.x && c.location.y <= p.y < tr.y && c.location.z <= p.z < tr.z
  }

  /** A point lies in the intersection of two axis ranges iff it lies in both. */
  lemma IntersectLineMembers(start1: int, exend1: int, start2: int, exend2: int, v: int)
    ensures var r := IntersectLine(start1, exend1, start2, exend2);
      r.start <= v < r.end <==> start1 <= v < exend1 && start2 <= v < exend2
  {
  }

  /** The intersection does not depend on the order of the boxes. */
  lemma IntersectCommutes(a: Cuboid, b: Cuboid)
    ensures Intersect(a, b) == Intersect(b, a)
  {
  }

  /** For boxes that fit, a non-null intersection fits, has positive extents and holds exactly the points of both boxes. */
  lemma IntersectExactly(a: Cuboid, b: Cuboid, p: Point3)
    requires Fits(a) && Fits(b) && Intersect(a, b).Some?
    ensures var r := Intersect(a, b).value;
      Fits(r) && r.width > 0 && r.height > 0 && r.depth > 0 &&
      (Inside(r, p) <==> Inside(a, p) && Inside(b, p))
  {
    var tr, otr := TopRight(a), TopRight(b);
    assert tr == Point3(a.location.x + a.width, a.location.y + a.height, a.location.z + a.depth);
    assert otr == Point3(b.location.x + b.width, b.location.y + b.height, b.location.z + b.depth);
    AxisFits(a.location.x, tr.x, b.location.x, otr.x, p.x);
    AxisFits(a.location.y, tr.y, b.location.y, otr.y, p.y);
    AxisFits(a.location.z, tr.z, b.location.z, otr.z, p.z);
  }

  /** On one axis, a non-empty intersection of two ranges of `int` has a length that fits and ends where the ranges do. */
  lemma AxisFits(start1: int, exend1: int, start2: int, exend2: int, v: int)
    requires IsInt32(start1) && IsInt32(exend1) && IsInt32(start2) && IsInt32(exend2)
    requires 0 <= exend1 - start1 < TWO_31 && 0 <= exend2 - start2 < TWO_31 && IntersectLine(start1, exend1, start2, exend2).isValid
    ensures var r := IntersectLine(start1, exend1, start2, exend2);
      var w := Wrap32(r.end - r.start);
      w == r.end - r.start && w > 0 && IsInt32(r.start + w) &&
      (r.start <= v < r.start + w <==> start1 <= v < exend1 && start2 <= v < exend2)
  {
  }

  /** For boxes that fit, a null intersection means that no point lies in both. */
  lemma IntersectNone(a: Cuboid, b: Cuboid, p: Point3)
    requires Fits(a) && Fits(b) && Intersect(a, b).None?
    ensures !(Inside(a, p) && Inside(b, p))
  {
    var tr, otr := TopRight(a), TopRight(b);
    IntersectLineMembers(a.location.x, tr.x, b.location.x, otr.x, p.x);
    IntersectLineMembers(a.location.y, tr.y, b.location.y, otr.y, p.y);
    IntersectLineMembers(a.location.z, tr.z, b.location.z, otr.z, p.z);
  }

  lemma MulBound(a: int, b: int, bigA: int, bigB: int)
    requires 0 <= a < bigA && 0 <= b < bigB
    ensures 0 <= a * b < bigA * bigB
  {
    MulNonNeg(a, b);
    MulNonNeg(a, bigB - b);
    MulNonNeg(bigA - a - 1, bigB);
  }

  /** Extents below 2^21 never overflow the volume, which is then the product of the extents. */
  lemma SizeFits(c: Cuboid)
    requires 0 <= c.width < 0x20_0000 && 0 <= c.height < 0x20_0000 && 0 <= c.depth < 0x20_0000
    ensures Size(c) == Ok(c.width * c.height * c.depth) && Size(c).value >= 0
  {
    MulBound(c.width, c.height, 0x20_0000, 0x20_0000);
    MulBound(c.width * c.height, c.depth, 0x400_0000_0000, 0x20_0000);
  }

  /** The volume of a large box overflows `long` and throws instead of wrapping. */
  lemma SizeOverflows()
    ensures Size(Cuboid(EMPTY, TWO_31 - 1, TWO_31 - 1, 4)) == Err(Overflow)
  {
  }

  /** A non-null intersection of fitting boxes has a positive volume whenever the volume is representable. */
  lemma IntersectionVolume(a: Cuboid, b: Cuboid)
    requires Fits(a) && Fits(b) && Intersect(a, b).Some?
    ensures Size(Intersect(a, b).value).Ok? ==> Size(Intersect(a, b).value).value > 0
  {
    var r := Intersect(a, b).value;
    IntersectExactly(a, b, r.location);
    VolumePositive(r);
  }

  /** A box with positive extents has a positive volume, when it has one. */
  lemma VolumePositive(c: Cuboid)
    requires c.width > 0 && c.height > 0 && c.depth > 0
    ensures Size(c).Ok? ==> Size(c).value > 0
  {
    var area := c.width * c.height;
    MulNonNeg(c.width - 1, c.height - 1);
    assert area >= 1;
    MulNonNeg(area - 1, c.depth - 1);
  }
}

/**
 * Core/Cube.cs: a cube given by its corner and side, with an exclusive far
 * corner, its centre, membership, the split into eight octants, and its
 * twelve edges, each of which finds the point on it closest to a query.
 */
module Cubes {
  import opened Wrappers
  import opened IntWidths
  import opened Point3D

  datatype Cube = Cube(bottomLeft: Point3, side: int)

  /** The first corner outside the cube. */
  function TopRight(c: Cube): (r: Point3)
    ensures Fits(c) ==> r == Point3(c.bottomLeft.x + c.side, c.bottomLeft.y + c.side, c.bottomLeft.z + c.side)
  {
    TranslateBy(c.bottomLeft, c.side, c.side, c.side)
  }

  /** The corner moved by half the side (C# division truncates) on every axis. */
  function Center(c: Cube): (r: Point3)
    ensures Fits(c) ==> r == Point3(c.bottomLeft.x + c.side / 2, c.bottomLeft.y + c.side / 2, c.bottomLeft.z + c.side / 2)
  {
    var half := Div(c.side, 2);
    TranslateBy(c.bottomLeft, half, half, half)
  }

  /** Half-open interval membership on each axis. */
  function Contains(c: Cube, p: Point3): (r: bool)
    ensures Fits(c) ==> (r <==> c.bottomLeft.x <= p.x < c.bottomLeft.x + c.side &&
                                c.bottomLeft.y <= p.y < c.bottomLeft.y + c.side &&
                                c.bottomLeft.z <= p.z < c.bottomLeft.z + c.side)
  {
    var tr := TopRight(c);
    p.x >= c.bottomLeft.x && p.x < tr.x && p.y >= c.bottomLeft.y && p.y < tr.y && p.z >= c.bottomLeft.z && p.z < tr.z
  }

  /** The eight cubes of half the side, in the order `Split` yields them. */
  function Octants(c: Cube): (r: seq<Cube>)
    ensures |r| == 8
  {
    var h := Div(c.side, 2);
    var b := c.bottomLeft;
    [Cube(b, h), Cube(TranslateBy(b, h, 0, 0), h), Cube(TranslateBy(b, 0, h, 0), h), Cube(TranslateBy(b, 0, 0, h), h),
     Cube(TranslateBy(b, h, h, 0), h), Cube(TranslateBy(b, h, 0, h), h), Cube(TranslateBy(b, 0, h, h), h),
     Cube(TranslateBy(b, h, h, h), h)]
  }

  /** `Split`: a null cube throws `ArgumentNullException`, otherwise the eight octants. */
  function Split(c: Option<Cube>): (r: Result<seq<Cube>>)
    ensures r.Err? <==> c.None?
    ensures r.Ok? ==> |r.value| == 8 && forall k | 0 <= k < 8 :: r.value[k].side == Div(c.value.side, 2)
  {
    if c.None? then Err(ArgumentNull) else Ok(Octants(c.value))
  }

  /** An edge: one free coordinate between two bounds, the other two fixed. */
  datatype Segment =
    | SegmentX(minX: int, maxX: int, y: int, z: int)
    | SegmentY(x: int, minY: int, maxY: int, z: int)
    | SegmentZ(x: int, y: int, minZ: int, maxZ: int)

  function Clamp(v: int, lo: int, hi: int): int
  {
    if v <= lo then lo else if v >= hi then hi else v
  }

  /** `ClosestPointTo`: the fixed coordinates, and the query's free coordinate clamped to the bounds. */
  function ClosestPointTo(s: Segment, p: Point3): (r: Point3)
    ensures Ordered(s) ==> OnSegment(s, r)
    ensures OnSegment(s, p) ==> r == p
  {
    match s
    case SegmentX(minX, maxX, y, z) => Point3(Clamp(p.x, minX, maxX), y, z)
    case SegmentY(x, minY, maxY, z) => Point3(x, Clamp(p.y, minY, maxY), z)
    case SegmentZ(x, y, minZ, maxZ) => Point3(x, y, Clamp(p.z, minZ, maxZ))
  }

  /** The free coordinate's bounds are in order. */
  predicate Ordered(s: Segment)
  {
    match s
    case SegmentX(lo, hi, _, _) => lo <= hi
    case SegmentY(_, lo, hi, _) => lo <= hi
    case SegmentZ(_, _, lo, hi) => lo <= hi
  }

  /** The point lies on the segment. */
  predicate OnSegment(s: Segment, q: Point3)
  {
    match s
    case SegmentX(lo, hi, y, z) => lo <= q.x <= hi && q.y == y && q.z == z
    case SegmentY(x, lo, hi, z) => q.x == x && lo <= q.y <= hi && q.z == z
    case SegmentZ(x, y, lo, hi) => q.x == x && q.y == y && lo <= q.z <= hi
  }

  /** `GetEdges`: the twelve edges between the corner and the last point inside the cube, four per axis. */
  function GetEdges(c: Cube): (r: seq<Segment>)
    ensures |r| == 12
  {
    var b := c.bottomLeft;
    var i := TranslateBy(TopRight(c), -1, -1, -1);
    [SegmentX(b.x, i.x, b.y, b.z), SegmentX(b.x, i.x, b.y, i.z), SegmentX(b.x, i.x, i.y, b.z), SegmentX(b.x, i.x, i.y, i.z),
     SegmentY(b.x, b.y, i.y, b.z), SegmentY(b.x, b.y, i.y, i.z), SegmentY(i.x, b.y, i.y, b.z), SegmentY(i.x, b.y, i.y, i.z),
     SegmentZ(b.x, b.y, b.z, i.z), SegmentZ(b.x, i.y, b.z, i.z), SegmentZ(i.x, b.y, b.z, i.z), SegmentZ(i.x, i.y, b.z, i.z)]
  }

  /** A cube whose far corner does not wrap around. */
  predicate Fits(c: Cube)
  {
    Valid(c.bottomLeft) && c.side >= 0 &&
    IsInt32(c.bottomLeft.x + c.side) && IsInt32(c.bottomLeft.y + c.side) && IsInt32(c.bottomLeft.z + c.side)
  }

  /** The closest point lies on an ordered segment and is no farther from the query than any other point on it. */
  lemma ClosestPoint(s: Segment, p: Point3, q: Point3)
    requires Ordered(s) && OnSegment(s, q)
    ensures OnSegment(s, ClosestPointTo(s, p))
    ensures var r := ClosestPointTo(s, p);
      Abs(r.x - p.x) + Abs(r.y - p.y) + Abs(r.z - p.z) <= Abs(q.x - p.x) + Abs(q.y - p.y) + Abs(q.z - p.z)
    ensures OnSegment(s, p) ==> ClosestPointTo(s, p) == p
  {
  }

  /** A cube that fits, with a side of at least one, contains its corner and its centre. */
  lemma CenterInside(c: Cube)
    requires Fits(c) && c.side >= 1
    ensures Contains(c, c.bottomLeft) && Contains(c, Center(c))
  {
  }

  /** Every edge of a fitting cube runs from the corner to the last point inside, and the point any edge picks is in the cube. */
  lemma EdgesInside(c: Cube, k: int, p: Point3)
    requires Fits(c) && c.side >= 1 && 0 <= k < 12
    ensures Ordered(GetEdges(c)[k])
    ensures Contains(c, ClosestPointTo(GetEdges(c)[k], p))
    ensures var s := GetEdges(c)[k];
      (s.SegmentX? ==> s.minX == c.bottomLeft.x && s.maxX == c.bottomLeft.x + c.side - 1) &&
      (s.SegmentY? ==> s.minY == c.bottomLeft.y && s.maxY == c.bottomLeft.y + c.side - 1) &&
      (s.SegmentZ? ==> s.minZ == c.bottomLeft.z && s.maxZ == c.bottomLeft.z + c.side - 1)
  {
    var b := c.bottomLeft;
    assert TopRight(c) == Point3(b.x + c.side, b.y + c.side, b.z + c.side);
    assert TranslateBy(TopRight(c), -1, -1, -1) == Point3(b.x + c.side - 1, b.y + c.side - 1, b.z + c.side - 1);
  }

  /** Which half of an axis a coordinate falls in: 0 for the lower, 1 for the upper. */
  function Half(v: int, lo: int, h: int): int
  {
    if v < lo + h then 0 else 1
  }

  /** The octant that holds a point, by the halves it falls in. */
  function OctantOf(hx: int, hy: int, hz: int): int
    requires 0 <= hx <= 1 && 0 <= hy <= 1 && 0 <= hz <= 1
  {
    if hx == 0 && hy == 0 && hz == 0 then 0
    else if hy == 0 && hz == 0 then 1
    else if hx == 0 && hz == 0 then 2
    else if hx == 0 && hy == 0 then 3
    else if hz == 0 then 4
    else if hy == 0 then 5
    else if hx == 0 then 6
    else 7
  }

  /** Every octant of a fitting cube lies inside it. */
  lemma OctantInside(c: Cube, k: int, p: Point3)
    requires Fits(c) && 0 <= k < 8 && Contains(Octants(c)[k], p)
    ensures Contains(c, p)
  {
    OctantAt(c, k);
  }

  /** For an even side, each point of the cube lies in the octant its halves name, and in no other. */
  lemma SplitPartitions(c: Cube, p: Point3, k: int)
    requires Fits(c) && c.side % 2 == 0 && Contains(c, p) && 0 <= k < 8
    ensures var h := c.side / 2; var b := c.bottomLeft;
      Contains(Octants(c)[k], p) <==> k == OctantOf(Half(p.x, b.x, h), Half(p.y, b.y, h), Half(p.z, b.z, h))
  {
    var h := c.side / 2;
    var b := c.bottomLeft;
    DivUnique(c.side, 2, h, 0);
    OctantHolds(c, p);
    OctantAt(c, k);
    OctantOfBits(k);
  }

  /** Which halves octant `k` covers, in `Split` order. */
  function Bits(k: int): (int, int, int)
    requires 0 <= k < 8
  {
    [(0, 0, 0), (1, 0, 0), (0, 1, 0), (0, 0, 1), (1, 1, 0), (1, 0, 1), (0, 1, 1), (1, 1, 1)][k]
  }

  lemma OctantOfBits(k: int)
    requires 0 <= k < 8
    ensures var t := Bits(k); 0 <= t.0 <= 1 && 0 <= t.1 <= 1 && 0 <= t.2 <= 1 && OctantOf(t.0, t.1, t.2) == k
  {
  }

  /** Octant `k` of a fitting cube starts in the halves its bits name. */
  lemma OctantAt(c: Cube, k: int)
    requires Fits(c) && 0 <= k < 8
    ensures var h := c.side / 2; var b := c.bottomLeft; var t := Bits(k);
      Octants(c)[k] == Cube(Point3(b.x + (if t.0 == 1 then h else 0), b.y + (if t.1 == 1 then h else 0), b.z + (if t.2 == 1 then h else 0)), h)
  {
    DivUnique(c.side, 2, c.side / 2, c.side % 2);
  }

  /** The octant named by a point's halves holds it. */
  lemma OctantHolds(c: Cube, p: Point3)
    requires Fits(c) && c.side % 2 == 0 && Contains(c, p)
    ensures var h := c.side / 2; var b := c.bottomLeft;
      Contains(Octants(c)[OctantOf(Half(p.x, b.x, h), Half(p.y, b.y, h), Half(p.z, b.z, h))], p)
  {
    DivUnique(c.side, 2, c.side / 2, 0);
  }
}
