/**
 * The four grid directions of Core/Direction.cs: an enum whose turns are
 * modular arithmetic on the underlying value, and a table of unit sizes.
 */
module Directions {
  import opened Wrappers
  import opened IntWidths
  import opened Drawing

  /** A direction is its enum value; a cast lets any `int` through, named or not. */
  type Direction = int

  const LEFT: Direction := 0
  const UP: Direction := 1
  const RIGHT: Direction := 2
  const DOWN: Direction := 3

  /** The value names one of the four enum members. */
  predicate Named(d: Direction) { 0 <= d < 4 }

  const Vertical: seq<Direction> := [UP, DOWN]
  const Horizontal: seq<Direction> := [LEFT, RIGHT]
  const AntiReading: seq<Direction> := [LEFT, UP]
  const Reading: seq<Direction> := [RIGHT, DOWN]
  const All4: seq<Direction> := [LEFT, UP, RIGHT, DOWN]

  /** The eight members of `Direction8`, in declaration order. */
  const UP_LEFT := 0
  const UP8 := 1
  const UP_RIGHT := 2
  const LEFT8 := 3
  const RIGHT8 := 4
  const DOWN_LEFT := 5
  const DOWN8 := 6
  const DOWN_RIGHT := 7
  const All8: seq<int> := [UP_LEFT, UP8, UP_RIGHT, LEFT8, RIGHT8, DOWN_LEFT, DOWN8, DOWN_RIGHT]

  /** The entry of the direction-to-size table (y grows downwards). */
  function Unit(d: Direction): Size
    requires Named(d)
  {
    if d == LEFT then Size(-1, 0)
    else if d == UP then Size(0, -1)
    else if d == RIGHT then Size(1, 0)
    else Size(0, 1)
  }

  /** `ToSize`: a dictionary lookup, so a value outside the enum throws `KeyNotFoundException`. */
  function ToSize(d: Direction): (r: Result<Size>)
    ensures r.Ok? <==> Named(d)
    ensures r.Err? ==> r.error == KeyNotFound
    ensures r.Ok? ==> Abs(r.value.width) + Abs(r.value.height) == 1
  {
    if Named(d) then Ok(Unit(d)) else Err(KeyNotFound)
  }

  /** C#'s `a % 4`: the remainder takes the sign of `a`. */
  function Rem4(a: int): (r: int)
    ensures a >= 0 ==> r == a % 4
    ensures a < 0 ==> -4 < r <= 0 && (a - r) % 4 == 0
  {
    if a >= 0 then a % 4 else -((-a) % 4)
  }

  /** `Rem4` is the general C# remainder by 4. */
  lemma Rem4IsRem(a: int)
    ensures Rem4(a) == Rem(a, 4)
  {
    var r := Rem(a, 4);
    if a >= 0 {
      DivUnique(a, 4, Div(a, 4), r);
    } else {
      DivUnique(-a, 4, -Div(a, 4), -r);
    }
  }

  /** The turn lands on a remainder by 4 that is `times` steps on from `d`, modulo 4, when the sum does not wrap. */
  function TurnClockwise(d: Direction, times: int): (r: Direction)
    ensures -4 < r < 4
    ensures IsInt32(d + times) ==> (d + times - r) % 4 == 0
  {
    Rem4(Wrap32(d + times))
  }

  function TurnCounterClockwise(d: Direction, times: int): (r: Direction)
    ensures -4 < r < 4
    ensures IsInt32(3 * times) && IsInt32(d + 3 * times) ==> (d + 3 * times - r) % 4 == 0
  {
    Rem4(Wrap32(d + Wrap32(3 * times)))
  }

  function Opposite(d: Direction): (r: Direction)
    ensures Named(d) ==> Named(r) && r != d && (d + 2 - r) % 4 == 0
  {
    Rem4(Wrap32(d + 2))
  }

  /** A clockwise turn of a named direction by a non-negative count is another named direction, `times` steps on modulo 4. */
  lemma TurnClockwiseNamed(d: Direction, times: int)
    requires Named(d) && 0 <= times < TWO_31 - 3
    ensures Named(TurnClockwise(d, times)) && TurnClockwise(d, times) == (d + times) % 4
  {
  }

  /** A counter-clockwise turn goes `times` steps back modulo 4, as long as `3 * times` fits. */
  lemma TurnCounterClockwiseNamed(d: Direction, times: int)
    requires Named(d) && 0 <= times && 3 * times < TWO_31 - 3
    ensures Named(TurnCounterClockwise(d, times)) && TurnCounterClockwise(d, times) == (d - times) % 4
  {
    assert (d + 3 * times) % 4 == (d - times) % 4 by {
      DivUnique(d + 3 * times, 4, (d - times) / 4 + times, (d - times) % 4);
    }
  }

  /** Turning clockwise by `a` and then by `b` is turning by `a + b`. */
  lemma TurnsCompose(d: Direction, a: int, b: int)
    requires Named(d) && 0 <= a && 0 <= b && a + b < TWO_31 - 3
    ensures TurnClockwise(TurnClockwise(d, a), b) == TurnClockwise(d, a + b)
  {
    TurnClockwiseNamed(d, a);
    TurnClockwiseNamed(d, a + b);
    var q := (d + a) / 4;
    DivUnique(d + a + b, 4, q + ((d + a) % 4 + b) / 4, ((d + a) % 4 + b) % 4);
  }

  /** Four clockwise quarter turns are no turn at all. */
  lemma FourTurns(d: Direction)
    requires Named(d)
    ensures TurnClockwise(TurnClockwise(TurnClockwise(TurnClockwise(d, 1), 1), 1), 1) == d
  {
    QuarterTurn(d);
    QuarterTurn(TurnClockwise(d, 1));
    QuarterTurn(TurnClockwise(TurnClockwise(d, 1), 1));
    QuarterTurn(TurnClockwise(TurnClockwise(TurnClockwise(d, 1), 1), 1));
  }

  /** A clockwise quarter turn steps to the next member, and from `Down` back to `Left`. */
  lemma QuarterTurn(d: Direction)
    requires Named(d)
    ensures TurnClockwise(d, 1) == if d == DOWN then LEFT else d + 1
  {
  }

  /** A turn by four, in either sense, is no turn at all. */
  lemma FullTurn(d: Direction)
    requires Named(d)
    ensures TurnClockwise(d, 4) == d && TurnCounterClockwise(d, 4) == d
  {
    TurnClockwiseNamed(d, 4);
    TurnCounterClockwiseNamed(d, 4);
  }

  /** A counter-clockwise turn undoes a clockwise turn by the same count, and the other way round. */
  lemma TurnBack(d: Direction, times: int)
    requires Named(d) && 0 <= times && 3 * times < TWO_31 - 3
    ensures TurnCounterClockwise(TurnClockwise(d, times), times) == d
    ensures TurnClockwise(TurnCounterClockwise(d, times), times) == d
  {
    TurnClockwiseNamed(d, times);
    var c := TurnClockwise(d, times);
    TurnCounterClockwiseNamed(c, times);
    DivUnique(c - times, 4, -((d + times) / 4), d);
    TurnCounterClockwiseNamed(d, times);
    var e := TurnCounterClockwise(d, times);
    TurnClockwiseNamed(e, times);
    DivUnique(e + times, 4, -((d - times) / 4), d);
  }

  /** The opposite of a named direction is a different named direction, and its opposite is the direction itself. */
  lemma OppositeTwice(d: Direction)
    requires Named(d)
    ensures Named(Opposite(d)) && Opposite(d) != d && Opposite(Opposite(d)) == d
  {
    if d < 2 {
      assert Opposite(d) == d + 2;
    } else {
      assert Opposite(d) == d - 2;
    }
  }

  /** A negative count can leave a negative remainder, which names no direction. */
  lemma NegativeTurn(d: Direction, times: int)
    requires Named(d) && -TWO_31 <= d + times < 0 && (d + times) % 4 != 0
    ensures TurnClockwise(d, times) < 0 && !Named(TurnClockwise(d, times))
  {
    var a := d + times;
    assert Wrap32(a) == a;
  }

  /** Turning `Left` clockwise by -1 gives the value -1, not `Down`. */
  lemma TurnLeftBackwards()
    ensures TurnClockwise(LEFT, -1) == -1 && !Named(TurnClockwise(LEFT, -1))
  {
  }

  /** The size of the opposite direction is the negated size. */
  lemma ToSizeOpposite(d: Direction)
    requires Named(d)
    ensures ToSize(Opposite(d)) == Ok(Negate(ToSize(d).value))
  {
  }

  /** `All4` lists every direction once; the vertical and horizontal pairs split it; anti-reading directions step back, reading ones forward. */
  lemma DirectionLists()
    ensures |All4| == 4 && forall d :: Named(d) <==> d in All4
    ensures forall i, j | 0 <= i < j < |All4| :: All4[i] != All4[j]
    ensures multiset(Vertical + Horizontal) == multiset(All4)
    ensures forall d | d in Vertical :: Unit(d).width == 0
    ensures forall d | d in Horizontal :: Unit(d).height == 0
    ensures forall d | d in AntiReading :: Unit(d).width + Unit(d).height == -1
    ensures forall d | d in Reading :: Unit(d).width + Unit(d).height == 1
    ensures |All8| == 8 && forall i | 0 <= i < |All8| :: All8[i] == i
  {
  }
}

/**
 * The older Direction.cs at the repository root: single quarter turns, and a
 * move of a point by one step.
 */
module LegacyDirections {
  import opened Wrappers
  import opened IntWidths
  import opened Drawing
  import Directions

  function TurnClockwise(d: Directions.Direction): (r: Directions.Direction)
    ensures Directions.Named(d) ==> Directions.Named(r) && r != d && (d + 1 - r) % 4 == 0
  {
    Directions.Rem4(Wrap32(d + 1))
  }

  function TurnCounterClockwise(d: Directions.Direction): (r: Directions.Direction)
    ensures Directions.Named(d) ==> Directions.Named(r) && r != d && (d + 3 - r) % 4 == 0
  {
    Directions.Rem4(Wrap32(d + 3))
  }

  function Opposite(d: Directions.Direction): (r: Directions.Direction)
    ensures Directions.Named(d) ==> Directions.Named(r) && r != d && (d + 2 - r) % 4 == 0
  {
    Directions.Rem4(Wrap32(d + 2))
  }

  function ToSize(d: Directions.Direction): (r: Result<Size>)
    ensures r.Ok? <==> Directions.Named(d)
    ensures r.Ok? ==> r.value == Directions.Unit(d)
  {
    Directions.ToSize(d)
  }

  /** `MoveTo`: the point one step in the direction; an unnamed direction throws `KeyNotFoundException`. */
  function MoveTo(p: Point, d: Directions.Direction): (r: Result<Point>)
    ensures r.Ok? <==> Directions.Named(d)
  {
    match ToSize(d)
    case Ok(s) => Ok(Offset(p, s))
    case Err(e) => Err(e)
  }

  /** The quarter turns undo each other and the opposite is an involution, on every named direction. */
  lemma TurnsUndo(d: Directions.Direction)
    requires Directions.Named(d)
    ensures TurnCounterClockwise(TurnClockwise(d)) == d && TurnClockwise(TurnCounterClockwise(d)) == d
    ensures Opposite(Opposite(d)) == d
  {
    AgreesWithCurrent(d);
    Directions.TurnClockwiseNamed(d, 1);
    AgreesWithCurrent(TurnClockwise(d));
    Directions.TurnCounterClockwiseNamed(d, 1);
    AgreesWithCurrent(TurnCounterClockwise(d));
    Directions.TurnBack(d, 1);
    Directions.OppositeTwice(d);
    AgreesWithCurrent(Opposite(d));
  }

  /** The older turns are the current turns by one, and the older opposite the current one, for every `int` value. */
  lemma AgreesWithCurrent(d: Directions.Direction)
    requires IsInt32(d)
    ensures TurnClockwise(d) == Directions.TurnClockwise(d, 1)
    ensures TurnCounterClockwise(d) == Directions.TurnCounterClockwise(d, 1)
    ensures Opposite(d) == Directions.Opposite(d)
  {
  }

  /** A step and a step in the opposite direction return to the start, whatever the wrap-around. */
  lemma MoveToBack(p: Point, d: Directions.Direction)
    requires IsPoint(p) && Directions.Named(d)
    ensures MoveTo(MoveTo(p, d).value, Opposite(d)) == Ok(p)
  {
    Directions.ToSizeOpposite(d);
    OffsetBack(p, Directions.Unit(d));
  }
}
