/**
 * Core/FiniteGrid2D.cs: a rectangle of cells stored in a dictionary from
 * point to value. The constructors fill the dictionary by a nested loop,
 * the indexers look a point up (a missing point throws
 * `KeyNotFoundException`), and the wrap-around accessors reduce both
 * coordinates modulo the width and the height.
 */
module Grids {
  import opened Wrappers
  import opened IntWidths
  import opened Drawing
  import opened Directions
  import opened PointMoves

  /** The cells in rows `y0 <= y < y1` and columns `x0 <= x < x1`. */
  predicate InRange(y0: int, y1: int, x0: int, x1: int, p: Point)
  {
    y0 <= p.y < y1 && x0 <= p.x < x1
  }

  /** The cells a row-by-row walk has visited before column `x` of row `y`. */
  predicate Visited(y0: int, x0: int, x1: int, y: int, x: int, p: Point)
  {
    InRange(y0, y, x0, x1, p) || (p.y == y && x0 <= p.x < x)
  }

  /** A nested loop over rows `y0 <= y < y1` and columns `x0 <= x < x1` that stores the callback's value for each cell and keeps every other entry. */
  method FillRange<T>(y0: int, y1: int, x0: int, x1: int, before: map<Point, T>, dataCallback: Point -> T)
    returns (after: map<Point, T>)
    ensures forall p :: p in after <==> p in before || InRange(y0, y1, x0, x1, p)
    ensures forall p | p in after :: after[p] == if InRange(y0, y1, x0, x1, p) then dataCallback(p) else before[p]
  {
    after := before;
    var y := y0;
    while y < y1
      invariant y0 <= y && (y <= y1 || y == y0)
      invariant forall p :: p in after <==> p in before || InRange(y0, y, x0, x1, p)
      invariant forall p | p in after :: after[p] == if InRange(y0, y, x0, x1, p) then dataCallback(p) else before[p]
      decreases y1 - y
    {
      var x := x0;
      while x < x1
        invariant x0 <= x && (x <= x1 || x == x0)
        invariant forall p :: p in after <==> p in before || Visited(y0, x0, x1, y, x, p)
        invariant forall p | p in after :: after[p] == if Visited(y0, x0, x1, y, x, p) then dataCallback(p) else before[p]
        decreases x1 - x
      {
        var p := Point(x, y);
        after := after[p := dataCallback(p)];
        x := x + 1;
      }
      assert forall p :: Visited(y0, x0, x1, y, x, p) <==> InRange(y0, y + 1, x0, x1, p);
      y := y + 1;
    }
  }

  /** The cells `Fill` visits as written: the row counter runs from `Left` below `Height` and the column counter from `Top` below `Width`. */
  predicate InFillAsWritten(b: Rectangle, p: Point)
  {
    InRange(b.x, b.height, b.y, b.width, p)
  }

  /** `Fill` as written: each visited cell takes the callback's value, every other entry is kept. */
  method Fill<T>(b: Rectangle, before: map<Point, T>, dataCallback: Point -> T) returns (after: map<Point, T>)
    ensures forall p :: p in after <==> p in before || InFillAsWritten(b, p)
    ensures forall p | p in after :: after[p] == if InFillAsWritten(b, p) then dataCallback(p) else before[p]
  {
    after := FillRange(b.x, b.height, b.y, b.width, before, dataCallback);
  }

  /** `Fill` as evidently intended: exactly the cells inside the bounds. */
  method FillBounds<T>(b: Rectangle, before: map<Point, T>, dataCallback: Point -> T) returns (after: map<Point, T>)
    ensures forall p :: p in after <==> p in before || RectContains(b, p)
    ensures forall p | p in after :: after[p] == if RectContains(b, p) then dataCallback(p) else before[p]
  {
    after := FillRange(b.y, Bottom(b), b.x, Right(b), before, dataCallback);
  }

  /** At the origin, the walk as written visits exactly the cells inside the bounds. */
  lemma FillAtOrigin(b: Rectangle, p: Point)
    requires b.x == 0 && b.y == 0 && IsRect(b)
    ensures InFillAsWritten(b, p) <==> RectContains(b, p)
  {
  }

  /** Inflating a 3x3 grid by one gives bounds (-1, -1, 5, 5); the walk as written also fills (4, 4), outside them. */
  lemma InflatedFillOverreaches()
    ensures Inflate(Rectangle(0, 0, 3, 3), 1, 1) == Rectangle(-1, -1, 5, 5)
    ensures InFillAsWritten(Rectangle(-1, -1, 5, 5), Point(4, 4))
    ensures !RectContains(Rectangle(-1, -1, 5, 5), Point(4, 4))
  {
  }

  /** Bounds that start right of the origin column count: the walk as written fills nothing, yet (10, 0) is inside. */
  lemma ShiftedFillEmpty(p: Point)
    ensures !InFillAsWritten(Rectangle(10, 0, 3, 3), p)
    ensures RectContains(Rectangle(10, 0, 3, 3), Point(10, 0))
  {
  }

  /** `Where`: the points the test keeps, in order. */
  /** `r` is `s` with some elements left out and the rest kept in their order. */
  ghost predicate Subsequence(r: seq<Point>, s: seq<Point>)
    decreases |s|
  {
    r == [] || (s != [] && ((r[0] == s[0] && Subsequence(r[1..], s[1..])) || Subsequence(r, s[1..])))
  }

  function Keep(s: seq<Point>, inside: Point -> bool): (r: seq<Point>)
    ensures |r| <= |s|
    ensures forall q :: q in r <==> q in s && inside(q)
    ensures Subsequence(r, s)
    ensures (forall i | 0 <= i < |s| :: inside(s[i])) ==> r == s
  {
    if s == [] then []
    else
      var rest := Keep(s[1..], inside);
      if inside(s[0]) then assert ([s[0]] + rest)[1..] == rest; [s[0]] + rest else rest
  }

  /** `Wrap(coord, limit)`: `((coord % limit) + limit) % limit` with C#'s remainder and an unchecked sum. */
  function WrapCoord(coord: int, limit: int): (r: Result<int>)
    requires IsInt32(coord) && IsInt32(limit)
    ensures r.Err? <==> limit == 0 || (limit == -1 && coord == -TWO_31)
    ensures limit == 0 ==> r == Err(DivideByZero)
    ensures limit != 0 && r.Err? ==> r.error == Overflow
  {
    if limit == 0 then Err(DivideByZero)
    else if limit == -1 && coord == -TWO_31 then Err(Overflow)
    else Ok(Rem(Wrap32(Rem(coord, limit) + limit), limit))
  }

  /** For a positive limit up to 2^30 the wrapped coordinate is the representative of `coord` in `[0, limit)`. */
  lemma WrapCoordInRange(coord: int, limit: int)
    requires IsInt32(coord) && 0 < limit <= TWO_31 / 2
    ensures WrapCoord(coord, limit).Ok?
    ensures WrapCoord(coord, limit).value == coord % limit
  {
    var t, q := Rem(coord, limit), Div(coord, limit);
    assert coord == q * limit + t && -limit < t < limit;
    var u := t + limit;
    assert IsInt32(u);
    assert WrapCoord(coord, limit) == Ok(Rem(u, limit));
    RemOfNonNegative(u, limit);
    ModAddMultiple(t, q, limit);
    ModAddMultiple(t, 1, limit);
  }

  /** `Rem` of a non-negative dividend by a positive divisor is Dafny's `%`. */
  lemma RemOfNonNegative(a: int, b: int)
    requires a >= 0 && b > 0
    ensures Rem(a, b) == a % b
  {
    DivUnique(a, b, Div(a, b), Rem(a, b));
  }

  /** Up to 2^30, coordinates a width apart wrap to the same cell. */
  lemma WrapCoordPeriodic(coord: int, limit: int)
    requires IsInt32(coord) && IsInt32(coord + limit) && 0 < limit <= TWO_31 / 2
    ensures WrapCoord(coord + limit, limit) == WrapCoord(coord, limit)
  {
    WrapCoordInRange(coord, limit);
    WrapCoordInRange(coord + limit, limit);
    ModShift(coord, limit);
  }

  lemma ModShift(a: int, b: int)
    requires b > 0
    ensures (a + b) % b == a % b
  {
    ModAddMultiple(a, 1, b);
  }

  /** The neighbours of `Get4NeighborsOf`: the four moves, in order, that stay inside the bounds. */
  function Neighbors4(b: Rectangle, pos: Point): (r: seq<Point>)
    ensures forall q :: q in r <==> q in MoveLURD(pos) && RectContains(b, q)
    ensures Subsequence(r, MoveLURD(pos))
  {
    Keep(MoveLURD(pos), q => RectContains(b, q))
  }

  function Neighbors8(b: Rectangle, pos: Point): (r: seq<Point>)
    ensures forall q :: q in r <==> q in MoveLURDDiag(pos) && RectContains(b, q)
    ensures Subsequence(r, MoveLURDDiag(pos))
  {
    Keep(MoveLURDDiag(pos), q => RectContains(b, q))
  }

  /** In the interior of the bounds a cell has all four neighbours, in order. */
  lemma NeighborsInterior(w: int, h: int)
    requires 3 <= w < TWO_31 && 3 <= h < TWO_31
    ensures Neighbors4(Rectangle(0, 0, w, h), Point(1, 1)) == MoveLURD(Point(1, 1))
  {
    var b := Rectangle(0, 0, w, h);
    var m := MoveLURD(Point(1, 1));
    assert m[0] == Point(0, 1) && m[1] == Point(1, 0) && m[2] == Point(2, 1) && m[3] == Point(1, 2);
    assert forall i | 0 <= i < |m| :: RectContains(b, m[i]);
  }

  /** The four moves from the origin, in order. */
  lemma MovesFromOrigin()
    ensures MoveLURD(ORIGIN) == [Point(-1, 0), Point(0, -1), Point(1, 0), Point(0, 1)]
  {
  }

  /** In the top left corner a cell has only its right and lower neighbours. */
  lemma NeighborsAtCorner(w: int, h: int)
    requires 2 <= w < TWO_31 && 2 <= h < TWO_31
    ensures Neighbors4(Rectangle(0, 0, w, h), ORIGIN) == [Point(1, 0), Point(0, 1)]
  {
    var b := Rectangle(0, 0, w, h);
    var inside := q => RectContains(b, q);
    var m := [Point(-1, 0), Point(0, -1), Point(1, 0), Point(0, 1)];
    MovesFromOrigin();
    assert m[3..][1..] == [];
    assert Keep(m[3..], inside) == [Point(0, 1)];
    assert m[2..][1..] == m[3..];
    assert Keep(m[2..], inside) == [Point(1, 0), Point(0, 1)];
    assert m[1..][1..] == m[2..];
    assert Keep(m, inside) == Keep(m[2..], inside);
  }

  /** `Enumerable.Range(start, count)`: throws when the count is negative or the last value would pass `int.MaxValue`. */
  function Range32(start: int, count: int): (r: Result<seq<int>>)
    ensures r.Err? <==> count < 0 || start + count - 1 > TWO_31 - 1
    ensures r.Err? ==> r.error == ArgumentOutOfRange
    ensures r.Ok? ==> |r.value| == count && forall i | 0 <= i < count :: r.value[i] == start + i
  {
    if count < 0 || start + count - 1 > TWO_31 - 1 then Err(ArgumentOutOfRange)
    else Ok(seq(count, i requires 0 <= i < count => start + i))
  }

  /** The cells of `GetEdge`: a row or column of the bounds, paired through `CartesianProduct`; any other direction has none. */
  function EdgePoints(b: Rectangle, dir: Direction): (r: Result<seq<Point>>)
    ensures !Named(dir) ==> r == Ok([])
  {
    if dir == UP || dir == DOWN then
      var row := if dir == UP then b.y else Wrap32(Bottom(b) - 1);
      match Range32(b.x, b.width)
      case Err(e) => Err(e)
      case Ok(xs) => Ok(seq(|xs|, i requires 0 <= i < |xs| => Point(xs[i], row)))
    else if dir == LEFT || dir == RIGHT then
      var column := if dir == LEFT then b.x else Wrap32(Right(b) - 1);
      match Range32(b.y, b.height)
      case Err(e) => Err(e)
      case Ok(ys) => Ok(seq(|ys|, i requires 0 <= i < |ys| => Point(column, ys[i])))
    else Ok([])
  }

  /** For bounds whose right and bottom edges are `int` values, an edge is a whole side of the rectangle, inside it. */
  lemma EdgeInside(b: Rectangle, dir: Direction)
    requires IsRect(b) && b.width > 0 && b.height > 0 && Named(dir)
    requires IsInt32(b.x + b.width) && IsInt32(b.y + b.height)
    ensures EdgePoints(b, dir).Ok?
    ensures |EdgePoints(b, dir).value| == if dir == UP || dir == DOWN then b.width else b.height
    ensures forall p | p in EdgePoints(b, dir).value :: RectContains(b, p)
    ensures forall p | p in EdgePoints(b, dir).value ::
      if dir == UP then p.y == b.y
      else if dir == DOWN then p.y == b.y + b.height - 1
      else if dir == LEFT then p.x == b.x
      else p.x == b.x + b.width - 1
  {
    var ps := EdgePoints(b, dir).value;
    if dir == UP || dir == DOWN {
      assert forall i | 0 <= i < |ps| :: ps[i].x == b.x + i;
    } else {
      assert forall i | 0 <= i < |ps| :: ps[i].y == b.y + i;
    }
  }

  /** The cells of the rows above `y` and of the first `x` items of row `y`, each holding its item. */
  ghost predicate RowCells<T>(data: seq<seq<T>>, cells: map<Point, T>, y: int, x: int)
  {
    (forall p :: p in cells <==> (0 <= p.y < y && p.y < |data| && 0 <= p.x < |data[p.y]|) || (p.y == y && 0 <= p.x < x)) &&
    (forall p | p in cells && 0 <= p.y < |data| && 0 <= p.x < |data[p.y]| :: cells[p] == data[p.y][p.x])
  }

  lemma RowCellsStep<T>(data: seq<seq<T>>, cells: map<Point, T>, y: int, x: int)
    requires 0 <= y < |data| && 0 <= x < |data[y]| && RowCells(data, cells, y, x)
    ensures RowCells(data, cells[Point(x, y) := data[y][x]], y, x + 1)
  {
  }

  lemma RowCellsNext<T>(data: seq<seq<T>>, cells: map<Point, T>, y: int)
    requires 0 <= y < |data| && RowCells(data, cells, y, |data[y]|)
    ensures RowCells(data, cells, y + 1, 0)
  {
  }

  /** The largest coordinates seen so far, each with a cell that attains it. */
  ghost predicate Extent<T>(cells: map<Point, T>, found: bool, maxx: int, maxy: int, wx: Point, wy: Point)
  {
    (forall p | p in cells :: p.x <= maxx && p.y <= maxy) &&
    (found ==> wx in cells && wx.x == maxx && wy in cells && wy.y == maxy) &&
    0 <= maxx < TWO_31 - 1 && 0 <= maxy < TWO_31 - 1
  }

  /** A grid: its bounds and the dictionary of its cells. */
  class FiniteGrid2D<T(==)> {
    /** `Bounds` is set by the constructors only. */
    const bounds: Rectangle
    var values: map<Point, T>

    /** The bounds are four `int` values. */
    ghost predicate Valid()
      reads this
    {
      IsRect(bounds)
    }

    /** The constructor from bounds and a callback: `Fill` as written. */
    constructor (bounds: Rectangle, dataCallback: Point -> T)
      requires IsRect(bounds)
      ensures Valid() && this.bounds == bounds
      ensures forall p :: p in values <==> InFillAsWritten(bounds, p)
      ensures forall p | p in values :: values[p] == dataCallback(p)
    {
      this.bounds := bounds;
      var filled := Fill(bounds, map[], dataCallback);
      values := filled;
    }

    /** The constructors from a width and a height: bounds at the origin, where `Fill` covers exactly the bounds. */
    constructor OfSize(width: int, height: int, dataCallback: Point -> T)
      requires IsInt32(width) && IsInt32(height)
      ensures Valid() && bounds == Rectangle(0, 0, width, height)
      ensures forall p :: p in values <==> 0 <= p.x < width && 0 <= p.y < height
      ensures forall p | p in values :: values[p] == dataCallback(p)
    {
      bounds := Rectangle(0, 0, width, height);
      var filled := Fill(Rectangle(0, 0, width, height), map[], dataCallback);
      values := filled;
    }

    /** The constructor as evidently intended: exactly the cells inside the bounds, wherever they lie. */
    constructor WithinBounds(bounds: Rectangle, dataCallback: Point -> T)
      requires IsRect(bounds)
      ensures Valid() && this.bounds == bounds
      ensures forall p :: p in values <==> RectContains(bounds, p)
      ensures forall p | p in values :: values[p] == dataCallback(p)
    {
      this.bounds := bounds;
      var filled := FillBounds(bounds, map[], dataCallback);
      values := filled;
    }

    /** The state the row constructor leaves: its bounds and its cells. */
    constructor Init(bounds: Rectangle, values: map<Point, T>)
      ensures this.bounds == bounds && this.values == values
    {
      this.bounds := bounds;
      this.values := values;
    }

    /**
     * The constructor from rows: item x of row y is cell (x, y), and the
     * bounds run from the origin to the largest coordinates stored. With
     * no items at all, `Max` throws `InvalidOperationException`. A .NET
     * list holds fewer than 2^31 items.
     */
    static method FromRows(data: seq<seq<T>>) returns (r: Result<FiniteGrid2D<T>>)
      requires |data| < TWO_31 && forall y | 0 <= y < |data| :: |data[y]| < TWO_31
      ensures r.Err? <==> forall y | 0 <= y < |data| :: data[y] == []
      ensures r.Err? ==> r.error == InvalidOperation
      ensures r.Ok? ==> fresh(r.value) && r.value.Valid() && r.value.bounds.x == 0 && r.value.bounds.y == 0
      ensures r.Ok? ==> forall p :: p in r.value.values <==> 0 <= p.y < |data| && 0 <= p.x < |data[p.y]|
      ensures r.Ok? ==> forall p | p in r.value.values :: r.value.values[p] == data[p.y][p.x] && r.value.Contains(p)
      ensures r.Ok? ==> exists p :: p in r.value.values && p.x == r.value.bounds.width - 1
      ensures r.Ok? ==> exists p :: p in r.value.values && p.y == r.value.bounds.height - 1
    {
      var cells: map<Point, T> := map[];
      var found := false;
      var maxx, maxy := 0, 0;
      ghost var wx, wy := ORIGIN, ORIGIN;
      var y := 0;
      while y < |data|
        invariant 0 <= y <= |data| && RowCells(data, cells, y, 0)
        invariant !found <==> forall k | 0 <= k < y :: data[k] == []
        invariant Extent(cells, found, maxx, maxy, wx, wy)
      {
        var x := 0;
        while x < |data[y]|
          invariant 0 <= x <= |data[y]| && RowCells(data, cells, y, x)
          invariant !found <==> (forall k | 0 <= k < y :: data[k] == []) && x == 0
          invariant Extent(cells, found, maxx, maxy, wx, wy)
        {
          var p := Point(x, y);
          RowCellsStep(data, cells, y, x);
          cells := cells[p := data[y][x]];
          if !found || x > maxx {
            maxx := x;
            wx := p;
          }
          if !found || y > maxy {
            maxy := y;
            wy := p;
          }
          found := true;
          x := x + 1;
        }
        RowCellsNext(data, cells, y);
        y := y + 1;
      }
      if !found {
        return Err(InvalidOperation);
      }
      var grid := new FiniteGrid2D<T>.Init(Rectangle(0, 0, maxx + 1, maxy + 1), cells);
      r := Ok(grid);
    }

    /** The copy constructor: the same bounds and a new dictionary with the same entries. */
    constructor Copy(source: FiniteGrid2D<T>)
      ensures bounds == source.bounds && values == source.values
    {
      bounds := source.bounds;
      values := source.values;
    }

    /** The inflating copy: bounds grown on every side, then `Fill` as written from the source or the fill value. */
    constructor Inflated(source: FiniteGrid2D<T>, inflation: int, fillValue: T)
      requires source.Valid()
      ensures bounds == Inflate(source.bounds, inflation, inflation)
      ensures forall p :: p in values <==> InFillAsWritten(bounds, p)
      ensures forall p | p in values :: values[p] == if p in source.values then source.values[p] else fillValue
    {
      var b := Inflate(source.bounds, inflation, inflation);
      var cells := source.values;
      bounds := b;
      var filled := Fill(b, map[], p => if p in cells then cells[p] else fillValue);
      values := filled;
    }

    /** `Contains(Point)`: the bounds contain the point, half-open on both axes. */
    function Contains(pos: Point): (r: bool)
      reads this
      ensures IsInt32(bounds.x + bounds.width) && IsInt32(bounds.y + bounds.height) ==>
        (r <==> bounds.x <= pos.x < bounds.x + bounds.width && bounds.y <= pos.y < bounds.y + bounds.height)
    {
      RectContains(bounds, pos)
    }

    /** The getter of the indexer: the stored value, or `KeyNotFoundException`. */
    function Get(pos: Point): (r: Result<T>)
      reads this
      ensures r.Ok? <==> pos in values
      ensures r.Ok? ==> r.value == values[pos]
      ensures r.Err? ==> r.error == KeyNotFound
    {
      if pos in values then Ok(values[pos]) else Err(KeyNotFound)
    }

    /** The setter of the indexer: adds or replaces one entry. */
    method Set(pos: Point, value: T)
      modifies this
      ensures values == old(values)[pos := value]
      ensures Get(pos) == Ok(value)
    {
      values := values[pos := value];
    }

    function GetValueOrDefault(pos: Point, defaultValue: T): (r: T)
      reads this
      ensures Get(pos).Ok? ==> r == Get(pos).value
      ensures Get(pos).Err? ==> r == defaultValue
    {
      if pos in values then values[pos] else defaultValue
    }

    /** The cell both coordinates wrap to, or the exception of the first `Wrap`. */
    function WrappedCell(x: int, y: int): (r: Result<Point>)
      requires Valid() && IsInt32(x) && IsInt32(y)
      reads this
    {
      match WrapCoord(x, bounds.width)
      case Err(e) => Err(e)
      case Ok(wx) =>
        match WrapCoord(y, bounds.height)
        case Err(e) => Err(e)
        case Ok(wy) => Ok(Point(wx, wy))
    }

    /** `GetValueWraparound(x, y)`: both coordinates wrapped, then the getter. */
    function GetValueWraparound(x: int, y: int): (r: Result<T>)
      requires Valid() && IsInt32(x) && IsInt32(y)
      reads this
      ensures r.Ok? ==> WrappedCell(x, y).Ok? && Get(WrappedCell(x, y).value) == r
      ensures WrappedCell(x, y).Err? ==> r == Err(WrappedCell(x, y).error)
    {
      match WrappedCell(x, y)
      case Err(e) => Err(e)
      case Ok(p) => Get(p)
    }

    /** `GetTupleWraparound(x, y)`: the wrapped cell together with its value. */
    function GetTupleWraparound(x: int, y: int): (r: Result<(Point, T)>)
      requires Valid() && IsInt32(x) && IsInt32(y)
      reads this
      ensures r.Ok? <==> GetValueWraparound(x, y).Ok?
      ensures r.Ok? ==> r.value.1 == GetValueWraparound(x, y).value && r.value.0 in values && values[r.value.0] == r.value.1
    {
      match WrappedCell(x, y)
      case Err(e) => Err(e)
      case Ok(p) => if p in values then Ok((p, values[p])) else Err(KeyNotFound)
    }

    /** `SetValueWraparound`: stores the value at the wrapped cell; a zero width or height throws before anything changes. */
    method SetValueWraparound(p: Point, value: T) returns (o: Outcome)
      requires Valid() && IsPoint(p)
      modifies this
      ensures Valid()
      ensures o.Fail? <==> old(WrappedCell(p.x, p.y)).Err?
      ensures o.Fail? ==> values == old(values)
      ensures o.Pass? ==> values == old(values)[old(WrappedCell(p.x, p.y)).value := value]
      ensures o.Pass? ==> GetValueWraparound(p.x, p.y) == Ok(value)
    {
      match WrappedCell(p.x, p.y)
      case Err(e) =>
        o := Fail(e);
      case Ok(w) =>
        values := values[w := value];
        o := Pass;
    }

    function Get4NeighborsOf(pos: Point): (r: seq<Point>)
      reads this
      ensures forall q :: q in r <==> q in MoveLURD(pos) && Contains(q)
      ensures Subsequence(r, MoveLURD(pos))
    {
      Neighbors4(bounds, pos)
    }

    function Get8NeighborsOf(pos: Point): (r: seq<Point>)
      reads this
      ensures forall q :: q in r <==> q in MoveLURDDiag(pos) && Contains(q)
      ensures Subsequence(r, MoveLURDDiag(pos))
    {
      Neighbors8(bounds, pos)
    }

    /** `GetPointWith8Neighbors`: the 3x3 block around the point, row by row, with the default for missing cells. */
    function GetPointWith8Neighbors(pos: Point, defaultValue: T): (r: seq<T>)
      reads this
      ensures |r| == 9
      ensures forall i | 0 <= i < 4 :: r[i] == GetValueOrDefault(MoveLURDDiag(pos)[i], defaultValue)
      ensures forall i | 5 <= i < 9 :: r[i] == GetValueOrDefault(MoveLURDDiag(pos)[i - 1], defaultValue)
      ensures IsPoint(pos) ==> r[4] == GetValueOrDefault(pos, defaultValue)
    {
      [GetValueOrDefault(MoveBy(pos, -1, -1), defaultValue), GetValueOrDefault(MoveBy(pos, 0, -1), defaultValue),
       GetValueOrDefault(MoveBy(pos, 1, -1), defaultValue), GetValueOrDefault(MoveBy(pos, -1, 0), defaultValue),
       GetValueOrDefault(MoveBy(pos, 0, 0), defaultValue), GetValueOrDefault(MoveBy(pos, 1, 0), defaultValue),
       GetValueOrDefault(MoveBy(pos, -1, 1), defaultValue), GetValueOrDefault(MoveBy(pos, 0, 1), defaultValue),
       GetValueOrDefault(MoveBy(pos, 1, 1), defaultValue)]
    }

    /** `Line`: the points `start + n * direction` for `n` from 1, as long as the grid contains them. */
    method Line(exclusiveStart: Point, direction: Size) returns (r: seq<Point>)
      ensures |r| < TWO_31
      ensures forall k | 0 <= k < |r| :: r[k] == Offset(exclusiveStart, Scale(k + 1, direction)) && Contains(r[k])
      ensures |r| < TWO_31 - 1 ==> !Contains(Offset(exclusiveStart, Scale(|r| + 1, direction)))
    {
      r := [];
      var n := 1;
      while n <= TWO_31 - 1
        invariant 1 <= n <= TWO_31 && |r| == n - 1
        invariant forall k | 0 <= k < |r| :: r[k] == Offset(exclusiveStart, Scale(k + 1, direction)) && Contains(r[k])
      {
        var p := Offset(exclusiveStart, Scale(n, direction));
        if !Contains(p) {
          return;
        }
        r := r + [p];
        n := n + 1;
      }
    }

    /** `GetEdge`: the values along one side of the bounds; a missing cell throws `KeyNotFoundException`. */
    function GetEdge(dir: Direction): (r: Result<seq<T>>)
      reads this
      ensures EdgePoints(bounds, dir).Err? ==> r == Err(EdgePoints(bounds, dir).error)
      ensures r.Ok? ==> EdgePoints(bounds, dir).Ok? && |r.value| == |EdgePoints(bounds, dir).value|
      ensures r.Ok? ==> forall i | 0 <= i < |r.value| :: Get(EdgePoints(bounds, dir).value[i]) == Ok(r.value[i])
      ensures EdgePoints(bounds, dir).Ok? && r.Err? ==> r.error == KeyNotFound && exists p :: p in EdgePoints(bounds, dir).value && p !in values
    {
      match EdgePoints(bounds, dir)
      case Err(e) => Err(e)
      case Ok(ps) =>
        if forall i | 0 <= i < |ps| :: ps[i] in values then
          Ok(seq(|ps|, i requires 0 <= i < |ps| && ps[i] in values reads this => values[ps[i]]))
        else Err(KeyNotFound)
    }

    /** `Count`: the number of stored cells. */
    function Count(): (n: nat)
      reads this
      ensures n == 0 <==> values == map[]
    {
      |values|
    }

    /** `Add`: a new key is stored; a key already present throws `ArgumentException`. */
    method Add(item: (Point, T)) returns (o: Outcome)
      modifies this
      ensures o.Fail? <==> item.0 in old(values)
      ensures o.Fail? ==> o.error == Argument && values == old(values)
      ensures o.Pass? ==> values == old(values)[item.0 := item.1] && ContainsItem(item)
    {
      if item.0 in values {
        o := Fail(Argument);
      } else {
        values := values[item.0 := item.1];
        o := Pass;
      }
    }

    method Clear()
      modifies this
      ensures values == map[] && Count() == 0
    {
      values := map[];
    }

    /** `Contains((Point, T))`: the key is stored with that value. */
    function ContainsItem(item: (Point, T)): (r: bool)
      reads this
      ensures r <==> Get(item.0) == Ok(item.1)
    {
      item.0 in values && values[item.0] == item.1
    }

    /** `Remove` as written: removes the key whatever value it holds. */
    method Remove(item: (Point, T)) returns (removed: bool)
      modifies this
      ensures removed <==> item.0 in old(values)
      ensures values == old(values) - {item.0}
    {
      removed := item.0 in values;
      values := values - {item.0};
    }

    /** `Remove` as `ICollection` evidently intends: only an entry that `ContainsItem` reports. */
    method RemoveMatching(item: (Point, T)) returns (removed: bool)
      modifies this
      ensures removed <==> old(ContainsItem(item))
      ensures removed ==> values == old(values) - {item.0}
      ensures !removed ==> values == old(values)
      ensures !ContainsItem(item)
    {
      removed := ContainsItem(item);
      if removed {
        values := values - {item.0};
      }
    }
  }

  /** For widths and heights up to 2^30, `GetValueWraparound` reads the cell at the coordinates' residues. */
  lemma WraparoundIsModulo<T>(grid: FiniteGrid2D<T>, x: int, y: int)
    requires grid.Valid() && IsInt32(x) && IsInt32(y)
    requires 0 < grid.bounds.width <= TWO_31 / 2 && 0 < grid.bounds.height <= TWO_31 / 2
    ensures grid.GetValueWraparound(x, y) == grid.Get(Point(x % grid.bounds.width, y % grid.bounds.height))
  {
    WrapCoordInRange(x, grid.bounds.width);
    WrapCoordInRange(y, grid.bounds.height);
  }

  /** `Remove` of an entry with a different value: `Contains` says no, yet `Remove` deletes the cell and reports success. */
  method RemoveMismatch() returns (contained: bool, removed: bool, left: nat, matched: bool, leftMatching: nat)
    ensures !contained && removed && left == 0
    ensures !matched && leftMatching == 1
  {
    var grid := new FiniteGrid2D.OfSize(1, 1, p => 7);
    assert grid.values.Keys == {ORIGIN};
    contained := grid.ContainsItem((ORIGIN, 8));
    removed := grid.Remove((ORIGIN, 8));
    left := grid.Count();
    var other := new FiniteGrid2D.OfSize(1, 1, p => 7);
    assert other.values.Keys == {ORIGIN};
    matched := other.RemoveMatching((ORIGIN, 8));
    leftMatching := other.Count();
  }

  /**
   * Core/WrappingXGrid2D.cs: a grid whose columns repeat with period
   * `width`. It overrides `Contains` to test the row only, and its indexers
   * reduce the column with C#'s `%`, whose result takes the sign of the
   * column.
   */
  class WrappingXGrid2D<T(==)> {
    const bounds: Rectangle
    var values: map<Point, T>
    /** `Width`: the width of the bounds, set after the base constructor. */
    const width: int

    ghost predicate Valid()
    {
      IsRect(bounds) && width == bounds.width
    }

    /** The constructors from a width and a height: bounds at the origin, every cell from the callback. */
    constructor OfSize(width: int, height: int, dataCallback: Point -> T)
      requires IsInt32(width) && IsInt32(height)
      ensures Valid() && bounds == Rectangle(0, 0, width, height)
      ensures forall p :: p in values <==> 0 <= p.x < width && 0 <= p.y < height
      ensures forall p | p in values :: values[p] == dataCallback(p)
    {
      bounds := Rectangle(0, 0, width, height);
      this.width := width;
      var filled := Fill(Rectangle(0, 0, width, height), map[], dataCallback);
      values := filled;
    }

    /** The copy constructor: the source's bounds and cells; the width is the bounds' width. */
    constructor Copy(source: FiniteGrid2D<T>)
      requires source.Valid()
      ensures Valid() && bounds == source.bounds && values == source.values
    {
      bounds := source.bounds;
      width := source.bounds.width;
      values := source.values;
    }

    /**
     * The constructor from rows. While the base constructor runs, `Width`
     * is still `int.MaxValue`, so the overridden indexer stores every item at
     * its own column: the cells are those of the base row constructor.
     */
    static method FromRows(data: seq<seq<T>>) returns (r: Result<WrappingXGrid2D<T>>)
      requires |data| < TWO_31 && forall y | 0 <= y < |data| :: |data[y]| < TWO_31
      ensures r.Err? <==> forall y | 0 <= y < |data| :: data[y] == []
      ensures r.Err? ==> r.error == InvalidOperation
      ensures r.Ok? ==> fresh(r.value) && r.value.Valid() && r.value.bounds.x == 0 && r.value.bounds.y == 0
      ensures r.Ok? ==> forall p :: p in r.value.values <==> 0 <= p.y < |data| && 0 <= p.x < |data[p.y]|
      ensures r.Ok? ==> forall p | p in r.value.values :: r.value.values[p] == data[p.y][p.x]
    {
      var rows := FiniteGrid2D<T>.FromRows(data);
      if rows.Err? {
        return Err(rows.error);
      }
      var wrapping := new WrappingXGrid2D<T>.Copy(rows.value);
      r := Ok(wrapping);
    }

    /** `Wrap` as written: the column modulo the width, with C#'s `%`. */
    function Wrap(p: Point): (r: Result<Point>)
      requires Valid() && IsPoint(p)
      ensures r.Err? <==> width == 0 || (width == -1 && p.x == -TWO_31)
      ensures r.Ok? ==> r.value.y == p.y && Abs(r.value.x) < Abs(width)
      ensures r.Ok? && p.x < 0 ==> r.value.x <= 0
    {
      if width == 0 then Err(DivideByZero)
      else if width == -1 && p.x == -TWO_31 then Err(Overflow)
      else Ok(Point(Rem(p.x, width), p.y))
    }

    /** The overridden `Contains`: the row lies between `Y` and `Height`; any column is inside. */
    predicate Contains(pos: Point)
    {
      bounds.y <= pos.y < bounds.height
    }

    /** The overridden getter: the wrapped point, then the dictionary. */
    function Get(pos: Point): (r: Result<T>)
      requires Valid() && IsPoint(pos)
      reads this
      ensures r.Ok? ==> Wrap(pos).Ok? && Wrap(pos).value in values && r.value == values[Wrap(pos).value]
      ensures Wrap(pos).Ok? && r.Err? ==> r.error == KeyNotFound && Wrap(pos).value !in values
    {
      match Wrap(pos)
      case Err(e) => Err(e)
      case Ok(w) => if w in values then Ok(values[w]) else Err(KeyNotFound)
    }

    /** The overridden setter: stores at the wrapped point. */
    method Set(pos: Point, value: T) returns (o: Outcome)
      requires Valid() && IsPoint(pos)
      modifies this
      ensures o.Fail? <==> Wrap(pos).Err?
      ensures o.Fail? ==> values == old(values)
      ensures o.Pass? ==> values == old(values)[Wrap(pos).value := value] && Get(pos) == Ok(value)
    {
      match Wrap(pos)
      case Err(e) =>
        o := Fail(e);
      case Ok(w) =>
        values := values[w := value];
        o := Pass;
    }

    function GetValueOrDefault(pos: Point, defaultValue: T): (r: Result<T>)
      requires Valid() && IsPoint(pos)
      reads this
      ensures r.Err? <==> Wrap(pos).Err?
      ensures r.Ok? && Get(pos).Ok? ==> r.value == Get(pos).value
      ensures r.Ok? && Get(pos).Err? ==> r.value == defaultValue
    {
      match Wrap(pos)
      case Err(e) => Err(e)
      case Ok(w) => Ok(if w in values then values[w] else defaultValue)
    }

    /** The inherited `Get4NeighborsOf`, through the overridden `Contains`. */
    function Get4NeighborsOf(pos: Point): (r: seq<Point>)
      ensures forall q :: q in r <==> q in MoveLURD(pos) && Contains(q)
      ensures Subsequence(r, MoveLURD(pos))
    {
      var b := bounds;
      Keep(MoveLURD(pos), (q: Point) => b.y <= q.y < b.height)
    }

    /** The getter as evidently intended: the column wrapped into `[0, width)` like `GetValueWraparound` does. */
    function GetWrapped(pos: Point): (r: Result<T>)
      requires Valid() && IsPoint(pos)
      reads this
      ensures 0 < width <= TWO_31 / 2 ==> r == if Point(pos.x % width, pos.y) in values then Ok(values[Point(pos.x % width, pos.y)]) else Err(KeyNotFound)
    {
      match WrapCoord(pos.x, width)
      case Err(e) => Err(e)
      case Ok(wx) =>
        if 0 < width <= TWO_31 / 2 then
          WrapCoordInRange(pos.x, width);
          if Point(wx, pos.y) in values then Ok(values[Point(wx, pos.y)]) else Err(KeyNotFound)
        else if Point(wx, pos.y) in values then Ok(values[Point(wx, pos.y)]) else Err(KeyNotFound)
    }
  }

  /** Wrapping a point keeps it inside a wrapping grid exactly when it was, and the column never matters. */
  lemma WrapKeepsContains<T>(g: WrappingXGrid2D<T>, p: Point)
    requires g.Valid() && IsPoint(p) && g.Wrap(p).Ok?
    ensures g.Contains(g.Wrap(p).value) == g.Contains(p)
    ensures forall x :: g.Contains(Point(x, p.y)) == g.Contains(p)
  {
  }

  /** For a non-negative column and a positive width, `Wrap` is the residue of the column. */
  lemma WrapIsModulo<T>(grid: WrappingXGrid2D<T>, p: Point)
    requires grid.Valid() && IsPoint(p) && 0 <= p.x && 0 < grid.width
    ensures grid.Wrap(p) == Ok(Point(p.x % grid.width, p.y))
  {
    RemOfNonNegative(p.x, grid.width);
  }

  /** Columns a width apart hold the same cell, for non-negative columns. */
  lemma WrapPeriodic<T>(grid: WrappingXGrid2D<T>, p: Point)
    requires grid.Valid() && IsPoint(p) && 0 <= p.x && IsInt32(p.x + grid.width) && 0 < grid.width
    ensures grid.Get(Point(p.x + grid.width, p.y)) == grid.Get(p)
  {
    WrapIsModulo(grid, p);
    WrapIsModulo(grid, Point(p.x + grid.width, p.y));
    ModShift(p.x, grid.width);
  }

  /** A full wrapping grid: the column of (-1, 0) is -1, which holds no cell, though (-1, 0) is a reported neighbour of the origin. */
  lemma LeftNeighborMissing<T>(grid: WrappingXGrid2D<T>)
    requires grid.Valid() && grid.bounds == Rectangle(0, 0, 3, 3)
    requires forall p :: p in grid.values <==> 0 <= p.x < 3 && 0 <= p.y < 3
    ensures Point(-1, 0) in grid.Get4NeighborsOf(ORIGIN)
    ensures grid.Get(Point(-1, 0)) == Err(KeyNotFound)
    ensures grid.GetWrapped(Point(-1, 0)) == grid.Get(Point(2, 0))
  {
    MovesFromOrigin();
    var m := MoveLURD(ORIGIN);
    assert m[0] == Point(-1, 0);
    assert Point(-1, 0) in m && grid.Contains(Point(-1, 0));
    RemainderExamples();
  }

  /** C#'s `-1 % 3` is -1, `2 % 3` is 2, and `Wrap(-1, 3)` is 2. */
  lemma RemainderExamples()
    ensures Rem(-1, 3) == -1 && Rem(2, 3) == 2 && WrapCoord(-1, 3) == Ok(2)
  {
    assert Div(-1, 3) == 0;
    RemOfNonNegative(2, 3);
  }

  /** With the evidently intended wrap, every neighbour `Get4NeighborsOf` reports in a full grid holds a cell. */
  lemma WrappedNeighborsPresent<T>(grid: WrappingXGrid2D<T>, pos: Point, q: Point)
    requires grid.Valid() && grid.bounds.x == 0 && grid.bounds.y == 0 && 0 < grid.width <= TWO_31 / 2
    requires forall p :: p in grid.values <==> 0 <= p.x < grid.width && 0 <= p.y < grid.bounds.height
    requires q in grid.Get4NeighborsOf(pos)
    ensures grid.GetWrapped(q).Ok?
  {
    assert Point(q.x % grid.width, q.y) in grid.values;
  }
}
