/**
 * Core/Grid.cs: an unbounded grid whose cells come from a callback on first
 * read and are cached in a dictionary.
 */
module MemoGrids {
  import opened Wrappers
  import opened Drawing
  import Dictionaries

  class Grid2<T> {
    /** `MinX`, `MaxX`, `MinY`, `MaxY`: declared, never assigned, so always null. */
    const minX: Option<int>
    const maxX: Option<int>
    const minY: Option<int>
    const maxY: Option<int>
    var origin: Point
    const dataCallback: Point -> T
    const cache: Dictionaries.Dictionary<Point, T>

    constructor (dataCallback: Point -> T)
      ensures origin == ORIGIN && this.dataCallback == dataCallback
      ensures fresh(cache) && cache.items == map[]
      ensures minX == None && maxX == None && minY == None && maxY == None
    {
      minX, maxX, minY, maxY := None, None, None, None;
      origin := ORIGIN;
      this.dataCallback := dataCallback;
      cache := new Dictionaries.Dictionary(map[]);
    }

    /** The getter: the cached value, or the callback's value, which is then cached. */
    method Get(p: Point) returns (v: T)
      modifies cache
      ensures p in old(cache.items) ==> v == old(cache.items)[p] && cache.items == old(cache.items)
      ensures p !in old(cache.items) ==> v == dataCallback(p) && cache.items == old(cache.items)[p := v]
      ensures p in cache.items && cache.items[p] == v
    {
      v := Dictionaries.GetOrAdd(cache, p, dataCallback);
    }

    /** The setter: overwrites the cached value of one point. */
    method Set(p: Point, value: T)
      modifies cache
      ensures cache.items == old(cache.items)[p := value]
    {
      cache.items := cache.items[p := value];
    }
  }

  /** A second read returns the first read's value and changes nothing; a write is what later reads see. */
  method ReadTwice<T>(grid: Grid2<T>, p: Point, q: Point, value: T) returns (first: T, second: T, afterWrite: T)
    requires p != q
    modifies grid.cache
    ensures first == second
    ensures p !in old(grid.cache.items) ==> first == grid.dataCallback(p)
    ensures afterWrite == value
    ensures grid.cache.items == old(grid.cache.items)[p := first][q := value]
  {
    first := grid.Get(p);
    second := grid.Get(p);
    grid.Set(q, value);
    afterWrite := grid.Get(q);
  }

  /** A new grid sits at the origin, and with the callback `x + y` the cell (1, 1) reads 2. */
  method PopulatedScenario() returns (origin: Point, cell: int)
    ensures origin == ORIGIN && cell == 2
  {
    var grid := new Grid2((p: Point) => p.x + p.y);
    origin := grid.origin;
    cell := grid.Get(Point(1, 1));
  }
}
