/**
 * FiniteGrid2D.cs: the older grid. Its main constructor fills the cells of
 * a width-by-height rectangle at the origin; its `Count` property is never
 * assigned.
 */
module LegacyGrids {
  import opened Wrappers
  import opened IntWidths
  import opened Drawing
  import opened PointMoves
  import Grids

  class FiniteGrid2D<T(==)> {
    const bounds: Rectangle
    var values: map<Point, T>

    /** The main constructor: bounds at the origin and one cell per point with `0 <= x < width` and `0 <= y < height`. */
    constructor (width: int, height: int, dataCallback: Point -> T)
      ensures bounds == Rectangle(0, 0, width, height)
      ensures forall p :: p in values <==> 0 <= p.x < width && 0 <= p.y < height
      ensures forall p | p in values :: values[p] == dataCallback(p)
    {
      bounds := Rectangle(0, 0, width, height);
      var filled := Grids.FillRange(0, height, 0, width, map[], dataCallback);
      values := filled;
    }

    constructor Init(bounds: Rectangle, values: map<Point, T>)
      ensures this.bounds == bounds && this.values == values
    {
      this.bounds := bounds;
      this.values := values;
    }

    /** The row constructor: the same cells and bounds as the current grid's. */
    static method FromRows(data: seq<seq<T>>) returns (r: Result<FiniteGrid2D<T>>)
      requires |data| < TWO_31 && forall y | 0 <= y < |data| :: |data[y]| < TWO_31
      ensures r.Err? <==> forall y | 0 <= y < |data| :: data[y] == []
      ensures r.Err? ==> r.error == InvalidOperation
      ensures r.Ok? ==> fresh(r.value) && r.value.bounds.x == 0 && r.value.bounds.y == 0
      ensures r.Ok? ==> forall p :: p in r.value.values <==> 0 <= p.y < |data| && 0 <= p.x < |data[p.y]|
      ensures r.Ok? ==> forall p | p in r.value.values :: r.value.values[p] == data[p.y][p.x] && RectContains(r.value.bounds, p)
      ensures r.Ok? ==> exists p :: p in r.value.values && p.x == r.value.bounds.width - 1
      ensures r.Ok? ==> exists p :: p in r.value.values && p.y == r.value.bounds.height - 1
    {
      var rows := Grids.FiniteGrid2D<T>.FromRows(data);
      if rows.Err? {
        return Err(rows.error);
      }
      var grid := new FiniteGrid2D<T>.Init(rows.value.bounds, rows.value.values);
      r := Ok(grid);
    }

    /** The copy constructor. */
    constructor Copy(source: FiniteGrid2D<T>)
      ensures bounds == source.bounds && values == source.values
    {
      bounds := source.bounds;
      values := source.values;
    }

    /** `Count`: the property is never assigned, so it keeps its default. */
    function Count(): (n: int)
      ensures n == 0
    {
      0
    }

    function Get(pos: Point): (r: Result<T>)
      reads this
      ensures r.Ok? <==> pos in values
      ensures r.Ok? ==> r.value == values[pos]
      ensures r.Err? ==> r.error == KeyNotFound
    {
      if pos in values then Ok(values[pos]) else Err(KeyNotFound)
    }

    method Set(pos: Point, value: T)
      modifies this
      ensures values == old(values)[pos := value]
      ensures Get(pos) == Ok(value)
    {
      values := values[pos := value];
    }

    function GetValueOrDefault(pos: Point, defaultValue: T): (r: T)
      reads this
      ensures pos in values ==> r == values[pos]
      ensures pos !in values ==> r == defaultValue
    {
      if pos in values then values[pos] else defaultValue
    }

    /** `Get4NeighborsOf`: the four moves that `Bounds.Contains`. */
    function Get4NeighborsOf(pos: Point): (r: seq<Point>)
      ensures forall q :: q in r <==> q in MoveLURD(pos) && RectContains(bounds, q)
      ensures Grids.Subsequence(r, MoveLURD(pos))
    {
      Grids.Neighbors4(bounds, pos)
    }
  }

  /** A 2x2 grid stores four cells, yet `Count` reports none. */
  method CountScenario() returns (count: int, cells: nat)
    ensures count == 0 && cells == 4
  {
    var grid := new FiniteGrid2D(2, 2, p => 1);
    assert grid.values.Keys == {Point(0, 0), Point(1, 0), Point(0, 1), Point(1, 1)};
    count := grid.Count();
    cells := |grid.values|;
  }
}
