/**
 * Core/PointExtensions.cs: moving a `Point` along a direction or by a
 * delta, its four and eight neighbours, and Manhattan distances. Every sum
 * is unchecked `int` arithmetic, and `Math.Abs` of `int.MinValue` throws
 * `OverflowException`.
 */
module PointMoves {
  import opened Wrappers
  import opened IntWidths
  import opened Drawing
  import opened Directions
  import LegacyDirections
  import Point3D

  /** `MoveTo`: `steps` times the unit size of the direction; an unnamed direction throws `KeyNotFoundException`. */
  function MoveTo(p: Point, d: Direction, steps: int): (r: Result<Point>)
    ensures r.Ok? <==> Named(d)
    ensures r.Err? ==> r.error == KeyNotFound
  {
    match ToSize(d)
    case Ok(s) => Ok(Offset(p, Scale(steps, s)))
    case Err(e) => Err(e)
  }

  function MoveBy(p: Point, dx: int, dy: int): (r: Point)
    ensures IsPoint(r)
    ensures IsInt32(p.x + dx) && IsInt32(p.y + dy) ==> r == Point(p.x + dx, p.y + dy)
  {
    Offset(p, Size(dx, dy))
  }

  /** `MoveLURD`: the point moved by each size of the direction table, in its insertion order. */
  function MoveLURD(p: Point): (r: seq<Point>)
    ensures |r| == 4
  {
    seq(4, i requires 0 <= i < 4 => Offset(p, Unit(All4[i])))
  }

  /** The eight sizes of `MoveLURDDiag`, row by row from the top left. */
  const DIAG_SIZES: seq<Size> := [
    Size(-1, -1), Size(0, -1), Size(1, -1),
    Size(-1, 0), Size(1, 0),
    Size(-1, 1), Size(0, 1), Size(1, 1)]

  function MoveLURDDiag(p: Point): (r: seq<Point>)
    ensures |r| == 8
  {
    seq(8, i requires 0 <= i < 8 => Offset(p, DIAG_SIZES[i]))
  }

  /** `Math.Abs` on an `int`: the one value without a positive counterpart throws. */
  function Abs32(x: int): (r: Result<int>)
    ensures r.Ok? <==> x != -TWO_31
    ensures r.Err? ==> r.error == Overflow
    ensures r.Ok? ==> r.value >= 0 && (r.value == x || r.value == -x)
  {
    if x == -TWO_31 then Err(Overflow) else Ok(Abs(x))
  }

  /** The unchecked sum of two absolute values, or the first exception. */
  function SumAbs(a: int, b: int): (r: Result<int>)
    ensures r.Ok? <==> a != -TWO_31 && b != -TWO_31
  {
    match Abs32(a)
    case Err(e) => Err(e)
    case Ok(x) =>
      match Abs32(b)
      case Err(e) => Err(e)
      case Ok(y) => Ok(Wrap32(x + y))
  }

  function Manhattan(p: Point): (r: Result<int>)
    ensures r.Ok? <==> p.x != -TWO_31 && p.y != -TWO_31
  {
    SumAbs(p.x, p.y)
  }

  /** Throws exactly when a wrapped difference is `int.MinValue`; otherwise, without wrap-around, the sum of the absolute differences. */
  function ManhattanDistTo(p: Point, other: Point): (r: Result<int>)
    ensures r.Ok? <==> Wrap32(p.x - other.x) != -TWO_31 && Wrap32(p.y - other.y) != -TWO_31
    ensures r.Err? ==> r.error == Overflow
    ensures r.Ok? && IsInt32(p.x - other.x) && IsInt32(p.y - other.y) && IsInt32(Abs(p.x - other.x) + Abs(p.y - other.y)) ==>
      r.value == Abs(p.x - other.x) + Abs(p.y - other.y)
  {
    SumAbs(Wrap32(p.x - other.x), Wrap32(p.y - other.y))
  }

  function ManhattanDistTo3(p: Point3D.Point3, other: Point3D.Point3): (r: Result<int>)
    ensures r.Ok? <==> Wrap32(p.x - other.x) != -TWO_31 && Wrap32(p.y - other.y) != -TWO_31 && Wrap32(p.z - other.z) != -TWO_31
    ensures r.Err? ==> r.error == Overflow
  {
    match ManhattanDistTo(Point(p.x, p.y), Point(other.x, other.y))
    case Err(e) => Err(e)
    case Ok(xy) =>
      match AbsDiff(p.z, other.z)
      case Err(e) => Err(e)
      case Ok(z) => Ok(Wrap32(xy + z))
  }

  /** `Math.Abs` of an unchecked difference. */
  function AbsDiff(a: int, b: int): Result<int>
  {
    Abs32(Wrap32(a - b))
  }

  /** One coordinate moved `k` units forward and `k` units back is where it started, whatever wraps. */
  lemma StepBack(x: int, k: int, u: int)
    requires IsInt32(x)
    ensures Wrap32(Wrap32(x + Wrap32(k * u)) + Wrap32(k * -u)) == x
  {
    assert k * -u == -(k * u);
    Wrap32Cancel(x, k * u);
  }

  /** Moving `steps` in a direction and `steps` in the opposite one returns every point. */
  lemma MoveToBack(p: Point, d: Direction, steps: int)
    requires IsPoint(p) && Named(d)
    ensures MoveTo(MoveTo(p, d, steps).value, Opposite(d), steps) == Ok(p)
  {
    ToSizeOpposite(d);
    StepBack(p.x, steps, Unit(d).width);
    StepBack(p.y, steps, Unit(d).height);
  }

  /** One coordinate moved forward `a` units and then `b` units is moved by the unchecked sum `a + b`. */
  lemma StepsForward(x: int, a: int, b: int)
    ensures Wrap32(Wrap32(x + Wrap32(a)) + Wrap32(b)) == Wrap32(x + Wrap32(Wrap32(a + b)))
  {
    var ka := Wrap32Offset(a);
    var kb := Wrap32Offset(b);
    var k1 := Wrap32Offset(x + Wrap32(a));
    var ks := Wrap32Offset(a + b);
    Wrap32Turns(Wrap32(x + Wrap32(a)) + Wrap32(b), x + Wrap32(Wrap32(a + b)), ka + k1 + kb - ks);
  }

  /** The same, moving backward. */
  lemma StepsBackward(x: int, a: int, b: int)
    ensures Wrap32(Wrap32(x + Wrap32(-a)) + Wrap32(-b)) == Wrap32(x + Wrap32(-Wrap32(a + b)))
  {
    TwoStepsBack(x, a, b);
    OneStepBack(x, a, b);
  }

  /** Two wrapped moves backward land where the exact difference wraps to. */
  lemma TwoStepsBack(x: int, a: int, b: int)
    ensures Wrap32(Wrap32(x + Wrap32(-a)) + Wrap32(-b)) == Wrap32(x - a - b)
  {
    var ka := Wrap32Offset(-a);
    var kb := Wrap32Offset(-b);
    var k1 := Wrap32Offset(x + Wrap32(-a));
    Wrap32Turns(Wrap32(x + Wrap32(-a)) + Wrap32(-b), x - a - b, ka + k1 + kb);
  }

  /** One wrapped move backward by a wrapped sum lands where the exact difference wraps to. */
  lemma OneStepBack(x: int, a: int, b: int)
    ensures Wrap32(x + Wrap32(-Wrap32(a + b))) == Wrap32(x - a - b)
  {
    var ks := Wrap32Offset(a + b);
    var kn := Wrap32Offset(-Wrap32(a + b));
    Wrap32Turns(x + Wrap32(-Wrap32(a + b)), x - a - b, kn - ks);
  }

  lemma ComposeLeft(p: Point, a: int, b: int)
    ensures MoveTo(MoveTo(p, LEFT, a).value, LEFT, b) == MoveTo(p, LEFT, Wrap32(a + b))
  {
    assert MoveTo(p, LEFT, a) == Ok(Point(Wrap32(p.x + Wrap32(-a)), Wrap32(p.y)));
    StepsBackward(p.x, a, b);
  }

  lemma ComposeUp(p: Point, a: int, b: int)
    ensures MoveTo(MoveTo(p, UP, a).value, UP, b) == MoveTo(p, UP, Wrap32(a + b))
  {
    assert MoveTo(p, UP, a) == Ok(Point(Wrap32(p.x), Wrap32(p.y + Wrap32(-a))));
    StepsBackward(p.y, a, b);
  }

  lemma ComposeRight(p: Point, a: int, b: int)
    ensures MoveTo(MoveTo(p, RIGHT, a).value, RIGHT, b) == MoveTo(p, RIGHT, Wrap32(a + b))
  {
    assert MoveTo(p, RIGHT, a) == Ok(Point(Wrap32(p.x + Wrap32(a)), Wrap32(p.y)));
    StepsForward(p.x, a, b);
  }

  lemma ComposeDown(p: Point, a: int, b: int)
    ensures MoveTo(MoveTo(p, DOWN, a).value, DOWN, b) == MoveTo(p, DOWN, Wrap32(a + b))
  {
    assert MoveTo(p, DOWN, a) == Ok(Point(Wrap32(p.x), Wrap32(p.y + Wrap32(a))));
    StepsForward(p.y, a, b);
  }

  /** Without overflow a move is `steps` unit steps; a move of one step is the older `MoveTo`, and `MoveBy` is a move by a size. */
  lemma MoveToExact(p: Point, d: Direction, steps: int)
    requires Named(d) && IsInt32(steps)
    requires IsInt32(p.x + steps * Unit(d).width) && IsInt32(p.y + steps * Unit(d).height)
    ensures MoveTo(p, d, steps) == Ok(Point(p.x + steps * Unit(d).width, p.y + steps * Unit(d).height))
    ensures MoveTo(p, d, 1) == LegacyDirections.MoveTo(p, d)
    ensures MoveTo(p, d, steps) == Ok(MoveBy(p, steps * Unit(d).width, steps * Unit(d).height))
  {
  }

  /** An unnamed direction fails the same way in both `MoveTo`s. */
  lemma MoveToUnnamed(p: Point, d: Direction, steps: int)
    requires !Named(d)
    ensures MoveTo(p, d, steps) == LegacyDirections.MoveTo(p, d) == Err(KeyNotFound)
  {
  }

  /** `MoveBy` by a delta and then by its negation returns every point. */
  lemma MoveByBack(p: Point, dx: int, dy: int)
    requires IsPoint(p)
    ensures MoveBy(MoveBy(p, dx, dy), -dx, -dy) == p
  {
    OffsetBack(p, Size(dx, dy));
  }

  /** The four neighbours are the one-step moves in the order Left, Up, Right, Down. */
  lemma LURDIsMoveTo(p: Point, i: int)
    requires 0 <= i < 4
    ensures MoveLURD(p)[i] == MoveTo(p, All4[i], 1).value
  {
  }

  /** The four neighbours are distinct and differ from the point, even at the edges of `int`. */
  lemma LURDDistinct(p: Point)
    requires IsPoint(p)
    ensures forall i | 0 <= i < 4 :: MoveLURD(p)[i] != p
    ensures forall i, j | 0 <= i < j < 4 :: MoveLURD(p)[i] != MoveLURD(p)[j]
  {
    var r := MoveLURD(p);
    assert Offset(p, Size(0, 0)) == p;
    forall i | 0 <= i < 4
      ensures r[i] != p
    {
      if r[i] == p {
        OffsetInjective(p, Unit(All4[i]), Size(0, 0));
      }
    }
    forall i, j | 0 <= i < j < 4
      ensures r[i] != r[j]
    {
      if r[i] == r[j] {
        OffsetInjective(p, Unit(All4[i]), Unit(All4[j]));
      }
    }
  }

  /** Both coordinates have an `int` on either side, so a step of one never wraps. */
  predicate Interior(p: Point)
  {
    -TWO_31 < p.x < TWO_31 - 1 && -TWO_31 < p.y < TWO_31 - 1
  }

  /** Away from the edges of `int`, the four neighbours are exactly the points at Manhattan distance 1. */
  lemma LURDExactly(p: Point, q: Point)
    requires Interior(p)
    ensures q in MoveLURD(p) <==> Abs(q.x - p.x) + Abs(q.y - p.y) == 1
  {
    var r := MoveLURD(p);
    if Abs(q.x - p.x) + Abs(q.y - p.y) == 1 {
      var i := if q.x < p.x then 0 else if q.y < p.y then 1 else if q.x > p.x then 2 else 3;
      assert r[i] == q;
    }
  }

  /** The eight neighbours are distinct and differ from the point, even at the edges of `int`. */
  lemma DiagDistinct(p: Point)
    requires IsPoint(p)
    ensures forall i | 0 <= i < 8 :: MoveLURDDiag(p)[i] != p
    ensures forall i, j | 0 <= i < j < 8 :: MoveLURDDiag(p)[i] != MoveLURDDiag(p)[j]
  {
    var r := MoveLURDDiag(p);
    assert Offset(p, Size(0, 0)) == p;
    forall i | 0 <= i < 8
      ensures r[i] != p
    {
      if r[i] == p {
        OffsetInjective(p, DIAG_SIZES[i], Size(0, 0));
      }
    }
    forall i, j | 0 <= i < j < 8
      ensures r[i] != r[j]
    {
      if r[i] == r[j] {
        OffsetInjective(p, DIAG_SIZES[i], DIAG_SIZES[j]);
      }
    }
  }

  /** Away from the edges of `int`, the eight neighbours are exactly the other points at Chebyshev distance 1, and include the four. */
  lemma DiagExactly(p: Point, q: Point)
    requires Interior(p)
    ensures q in MoveLURDDiag(p) <==> q != p && Abs(q.x - p.x) <= 1 && Abs(q.y - p.y) <= 1
    ensures q in MoveLURD(p) ==> q in MoveLURDDiag(p)
  {
    var r := MoveLURDDiag(p);
    LURDExactly(p, q);
    if q != p && Abs(q.x - p.x) <= 1 && Abs(q.y - p.y) <= 1 {
      var dx := q.x - p.x;
      var i := if q.y < p.y then dx + 1 else if q.y == p.y then (if dx < 0 then 3 else 4) else dx + 6;
      assert r[i] == q;
    }
  }

  /** `Manhattan` is the distance to the origin. */
  lemma ManhattanIsDistToOrigin(p: Point)
    requires IsPoint(p)
    ensures Manhattan(p) == ManhattanDistTo(p, ORIGIN)
  {
  }

  /** The wrapped difference and its negation have the same `Math.Abs`, exception included. */
  lemma AbsWrapNegate(a: int)
    requires -TWO_32 < a < TWO_32
    ensures Abs32(Wrap32(a)) == Abs32(Wrap32(-a))
  {
    if a >= TWO_31 {
      Wrap32Cong(a, a - TWO_32);
      if a > TWO_31 {
        Wrap32Cong(-a, TWO_32 - a);
      }
    } else if a < -TWO_31 {
      Wrap32Cong(a, a + TWO_32);
      Wrap32Cong(-a, -a - TWO_32);
    } else if a == -TWO_31 {
      Wrap32Cong(-a, a);
    }
  }

  /** Operands with the same `Math.Abs` have the same `SumAbs`. */
  lemma SumAbsCong(a: int, b: int, c: int, d: int)
    requires Abs32(a) == Abs32(c) && Abs32(b) == Abs32(d)
    ensures SumAbs(a, b) == SumAbs(c, d)
  {
  }

  /** `Math.Abs` of an unchecked difference does not depend on the order of the operands. */
  lemma AbsDiffSymmetric(a: int, b: int)
    requires IsInt32(a) && IsInt32(b)
    ensures Abs32(Wrap32(a - b)) == Abs32(Wrap32(b - a))
    ensures AbsDiff(a, b) == AbsDiff(b, a)
  {
    assert b - a == -(a - b);
    AbsWrapNegate(a - b);
  }

  /** `SumAbs` of two unchecked differences does not depend on the order of their operands. */
  lemma SumAbsSwap(a: int, b: int, c: int, d: int)
    requires IsInt32(a) && IsInt32(b) && IsInt32(c) && IsInt32(d)
    ensures SumAbs(Wrap32(a - b), Wrap32(c - d)) == SumAbs(Wrap32(b - a), Wrap32(d - c))
  {
    AbsDiffSymmetric(a, b);
    AbsDiffSymmetric(c, d);
    SumAbsCong(Wrap32(a - b), Wrap32(c - d), Wrap32(b - a), Wrap32(d - c));
  }

  /** The distance is symmetric for all points, overflows included. */
  lemma DistSymmetric(p: Point, o: Point)
    requires IsPoint(p) && IsPoint(o)
    ensures ManhattanDistTo(p, o) == ManhattanDistTo(o, p)
  {
    SumAbsSwap(p.x, o.x, p.y, o.y);
  }

  /** Coordinates small enough that no difference and no sum of two differences overflows. */
  predicate Small(p: Point)
  {
    -0x2000_0000 < p.x < 0x2000_0000 && -0x2000_0000 < p.y < 0x2000_0000
  }

  /** Between small points the distance is the exact Manhattan distance. */
  lemma DistExact(p: Point, o: Point)
    requires Small(p) && Small(o)
    ensures ManhattanDistTo(p, o) == Ok(Abs(p.x - o.x) + Abs(p.y - o.y))
  {
  }

  /** Between small points the distance is a metric: zero only from a point to itself, and never shortened by a detour. */
  lemma DistMetric(p: Point, o: Point, q: Point)
    requires Small(p) && Small(o) && Small(q)
    ensures ManhattanDistTo(p, o).value == 0 <==> p == o
    ensures ManhattanDistTo(p, q).value <= ManhattanDistTo(p, o).value + ManhattanDistTo(o, q).value
  {
    DistExact(p, o);
    DistExact(o, q);
    DistExact(p, q);
  }

  /** The edges of `int`: `Math.Abs` throws on the minimum, and a large sum wraps to a negative distance. */
  lemma ManhattanEdges()
    ensures Manhattan(Point(-TWO_31, 0)) == Err(Overflow)
    ensures Manhattan(Point(TWO_31 - 1, TWO_31 - 1)) == Ok(-2)
  {
  }

  /** The three-dimensional distance is symmetric for all points, overflows included. */
  lemma Dist3Symmetric(p: Point3D.Point3, o: Point3D.Point3)
    requires Point3D.Valid(p) && Point3D.Valid(o)
    ensures ManhattanDistTo3(p, o) == ManhattanDistTo3(o, p)
  {
    DistSymmetric(Point(p.x, p.y), Point(o.x, o.y));
    AbsDiffSymmetric(p.z, o.z);
  }

  /** Between points with coordinates below 2^28 in size, the three-dimensional distance is exact, and zero only from a point to itself. */
  lemma Dist3Exact(p: Point3D.Point3, o: Point3D.Point3)
    requires -0x1000_0000 < p.x < 0x1000_0000 && -0x1000_0000 < p.y < 0x1000_0000 && -0x1000_0000 < p.z < 0x1000_0000
    requires -0x1000_0000 < o.x < 0x1000_0000 && -0x1000_0000 < o.y < 0x1000_0000 && -0x1000_0000 < o.z < 0x1000_0000
    ensures ManhattanDistTo3(p, o) == Ok(Abs(p.x - o.x) + Abs(p.y - o.y) + Abs(p.z - o.z))
    ensures ManhattanDistTo3(p, o).value == 0 <==> p == o
  {
  }
}
