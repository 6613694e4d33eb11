/**
 * Core/Point3.cs: a value type of three `int` coordinates with field
 * equality, unchecked translation, and the 26 neighbours of a point. The
 * older Point3.cs at the repository root has the same equality, `IsEmpty`
 * and `TranslateBy(dx, dy, dz)`.
 */
module Point3D {
  import opened Wrappers
  import opened IntWidths
  import Drawing

  datatype Point3 = Point3(x: int, y: int, z: int)

  /** What `Equals(object)` can be handed: null, a boxed point or some other object. */
  datatype Boxed = Null | Boxed3(point: Point3) | OtherObject

  const EMPTY: Point3 := Point3(0, 0, 0)

  /** Every coordinate is an `int`. */
  predicate Valid(p: Point3) { IsInt32(p.x) && IsInt32(p.y) && IsInt32(p.z) }

  /** Every coordinate has an `int` on both sides, so a step of one never wraps. */
  predicate Interior(p: Point3)
  {
    -TWO_31 < p.x < TWO_31 - 1 && -TWO_31 < p.y < TWO_31 - 1 && -TWO_31 < p.z < TWO_31 - 1
  }

  function Equals(a: Point3, b: Point3): (r: bool)
    ensures r <==> a == b
  { a.x == b.x && a.y == b.y && a.z == b.z }

  function EqualsObject(a: Point3, obj: Boxed): (r: bool)
    ensures r <==> obj == Boxed3(a)
  { obj.Boxed3? && Equals(a, obj.point) }

  function OperatorEquals(a: Point3, b: Point3): (r: bool)
    ensures r <==> a == b
  { Equals(a, b) }

  function OperatorNotEquals(a: Point3, b: Point3): (r: bool)
    ensures r <==> a != b
  { !OperatorEquals(a, b) }

  function IsEmpty(p: Point3): (r: bool)
    ensures r <==> p.x == 0 && p.y == 0 && p.z == 0
  { Equals(p, EMPTY) }

  /** Field equality is value equality; the operators and `Equals(object)` agree with it. */
  lemma EqualityAgrees(a: Point3, b: Point3, obj: Boxed)
    ensures Equals(a, b) <==> a == b
    ensures OperatorEquals(a, b) <==> a == b
    ensures OperatorNotEquals(a, b) <==> a != b
    ensures EqualsObject(a, obj) <==> obj == Boxed3(a)
    ensures IsEmpty(a) <==> a.x == 0 && a.y == 0 && a.z == 0
  {
  }

  function TranslateBy(p: Point3, dx: int, dy: int, dz: int): (r: Point3)
    ensures Valid(r)
  {
    Point3(Wrap32(p.x + dx), Wrap32(p.y + dy), Wrap32(p.z + dz))
  }

  /** The tuple overload agrees with the three-argument one. */
  function TranslateByTuple(p: Point3, velocity: (int, int, int)): (r: Point3)
    ensures Valid(r) && r == TranslateBy(p, velocity.0, velocity.1, velocity.2)
  {
    Point3(Wrap32(p.x + velocity.0), Wrap32(p.y + velocity.1), Wrap32(p.z + velocity.2))
  }

  function TranslateByPoint(p: Point3, offset: Point3): (r: Point3)
    ensures Valid(r)
    ensures IsInt32(p.x + offset.x) && IsInt32(p.y + offset.y) && IsInt32(p.z + offset.z) ==>
      r == Point3(p.x + offset.x, p.y + offset.y, p.z + offset.z)
  {
    TranslateBy(p, offset.x, offset.y, offset.z)
  }

  /** `+` is a translation by the right operand. */
  function Plus(l: Point3, r: Point3): (s: Point3)
    ensures Valid(s) && s == TranslateByPoint(l, r)
  {
    Point3(Wrap32(l.x + r.x), Wrap32(l.y + r.y), Wrap32(l.z + r.z))
  }

  function Minus(l: Point3, r: Point3): (s: Point3)
    ensures Valid(s)
    ensures IsInt32(l.x - r.x) && IsInt32(l.y - r.y) && IsInt32(l.z - r.z) ==> s == Point3(l.x - r.x, l.y - r.y, l.z - r.z)
  {
    Point3(Wrap32(l.x - r.x), Wrap32(l.y - r.y), Wrap32(l.z - r.z))
  }

  function Inverse(p: Point3): (q: Point3)
    ensures Valid(q)
    ensures IsInt32(-p.x) && IsInt32(-p.y) && IsInt32(-p.z) ==> q == Point3(-p.x, -p.y, -p.z)
  {
    Point3(Wrap32(-p.x), Wrap32(-p.y), Wrap32(-p.z))
  }

  /** Without overflow a translation adds componentwise, and all its overloads and `+` agree. */
  lemma TranslateAdds(p: Point3, o: Point3)
    requires IsInt32(p.x + o.x) && IsInt32(p.y + o.y) && IsInt32(p.z + o.z)
    ensures TranslateByPoint(p, o) == Point3(p.x + o.x, p.y + o.y, p.z + o.z)
    ensures TranslateByTuple(p, (o.x, o.y, o.z)) == TranslateByPoint(p, o) == Plus(p, o)
  {
  }

  /** `-` undoes `+`, for all `int` coordinates. */
  lemma MinusUndoesPlus(l: Point3, r: Point3)
    requires Valid(l)
    ensures Minus(Plus(l, r), r) == l
  {
    WrapBack(l.x, r.x);
    WrapBack(l.y, r.y);
    WrapBack(l.z, r.z);
  }

  /** `-` is `+` of the inverse, and the inverse is an involution, for all `int` coordinates. */
  lemma MinusIsPlusInverse(l: Point3, r: Point3)
    requires Valid(r)
    ensures Minus(l, r) == Plus(l, Inverse(r))
    ensures Inverse(Inverse(r)) == r
  {
    WrapNegate(l.x, r.x);
    WrapNegate(l.y, r.y);
    WrapNegate(l.z, r.z);
  }

  lemma WrapBack(a: int, b: int)
    requires IsInt32(a)
    ensures Wrap32(Wrap32(a + b) - b) == a
  {
    Wrap32Add(a + b, -b);
  }

  lemma WrapNegate(a: int, b: int)
    requires IsInt32(b)
    ensures Wrap32(a - b) == Wrap32(a + Wrap32(-b))
    ensures Wrap32(-Wrap32(-b)) == b
  {
    Wrap32Add(-b, a);
    Wrap32Cong(-Wrap32(-b), b);
  }

  /**
   * `FromArray`: a null array throws `ArgumentNullException`, a length below
   * `offset + 3` (an unchecked sum) `ArgumentException`, and an index outside
   * the array `IndexOutOfRangeException`.
   */
  function FromArray(arr: Option<seq<int>>, offset: int): (r: Result<Point3>)
    ensures r == Err(ArgumentNull) <==> arr.None?
    ensures arr.Some? && !(0 <= offset && offset + 3 <= |arr.value|) ==> r.Err?
    ensures r.Ok? ==> arr.Some? && 0 <= offset && offset + 3 <= |arr.value| && r.value == Point3(arr.value[offset], arr.value[offset + 1], arr.value[offset + 2])
  {
    if arr.None? then Err(ArgumentNull)
    else if |arr.value| < Wrap32(offset + 3) then Err(Argument)
    else if !(0 <= offset && offset + 3 <= |arr.value|) then Err(IndexOutOfRange)
    else Ok(Point3(arr.value[offset], arr.value[offset + 1], arr.value[offset + 2]))
  }

  /** The point is read iff three elements start at the offset; a negative offset that gets past the length check fails on the index. */
  lemma FromArrayReads(arr: seq<int>, offset: int)
    requires IsInt32(offset) && |arr| < TWO_31
    ensures FromArray(Some(arr), offset).Ok? <==> 0 <= offset && offset + 3 <= |arr|
    ensures FromArray(Some(arr), offset).Ok? ==>
      FromArray(Some(arr), offset).value == Point3(arr[offset], arr[offset + 1], arr[offset + 2])
    ensures offset < 0 && offset + 3 <= |arr| ==> FromArray(Some(arr), offset) == Err(IndexOutOfRange)
    ensures 0 <= offset < TWO_31 - 3 && |arr| < offset + 3 ==> FromArray(Some(arr), offset) == Err(Argument)
    ensures FromArray(None, offset) == Err(ArgumentNull)
  {
    if offset + 3 <= |arr| {
      assert Wrap32(offset + 3) == offset + 3;
    }
  }

  /** A point written into an array anywhere is read back from its offset. */
  lemma FromArrayRoundTrip(p: Point3, before: seq<int>, after: seq<int>)
    requires |before| + 3 + |after| < TWO_31
    ensures FromArray(Some(before + [p.x, p.y, p.z] + after), |before|) == Ok(p)
  {
    var arr := before + [p.x, p.y, p.z] + after;
    assert arr[|before|] == p.x && arr[|before| + 1] == p.y && arr[|before| + 2] == p.z;
  }

  /** Entry `k` of the three nested loops over the deltas {-1, 0, 1}, outermost first. */
  function Delta(k: int): (int, int, int)
  {
    (k / 9 - 1, k / 3 % 3 - 1, k % 3 - 1)
  }

  /** Loop entry 13 is the zero delta, which the generator skips. */
  function LoopIndex(i: int): int
  {
    if i < 13 then i else i + 1
  }

  /** `GetNeighborsDiag`: the point moved by every nonzero delta, in loop order. */
  function GetNeighborsDiag(p: Point3): (r: seq<Point3>)
    ensures |r| == 26
  {
    seq(26, i requires 0 <= i < 26 => var d := Delta(LoopIndex(i)); TranslateBy(p, d.0, d.1, d.2))
  }

  /** The deltas are the base-3 digits of the loop entry, shifted down by one. */
  lemma DeltaDigits(k: int)
    requires 0 <= k < 27
    ensures var d := Delta(k);
      -1 <= d.0 <= 1 && -1 <= d.1 <= 1 && -1 <= d.2 <= 1 && k == 9 * (d.0 + 1) + 3 * (d.1 + 1) + (d.2 + 1)
  {
    var a := k / 3;
    DivUnique(k, 9, a / 3, 3 * (a % 3) + k % 3);
  }

  /** Each delta is reached by the loop entry its digits spell. */
  lemma DeltaOf(a: int, b: int, c: int)
    requires -1 <= a <= 1 && -1 <= b <= 1 && -1 <= c <= 1
    ensures Delta(9 * (a + 1) + 3 * (b + 1) + (c + 1)) == (a, b, c)
  {
    var k := 9 * (a + 1) + 3 * (b + 1) + (c + 1);
    DivUnique(k, 9, a + 1, 3 * (b + 1) + (c + 1));
    DivUnique(k, 3, 3 * (a + 1) + (b + 1), c + 1);
    DivUnique(3 * (a + 1) + (b + 1), 3, a + 1, b + 1);
  }

  /** Distinct loop entries are distinct deltas, and only entry 13 is zero. */
  lemma DeltasDistinct(k: int, l: int)
    requires 0 <= k < 27 && 0 <= l < 27
    ensures Delta(k) == Delta(l) ==> k == l
    ensures Delta(k) == (0, 0, 0) <==> k == 13
  {
    DeltaDigits(k);
    DeltaDigits(l);
  }

  /** Two translations by deltas from {-1, 0, 1} meet only when the deltas are equal, even across the wrap-around. */
  lemma TranslateInjective(p: Point3, a: (int, int, int), b: (int, int, int))
    requires -2 <= a.0 - b.0 <= 2 && -2 <= a.1 - b.1 <= 2 && -2 <= a.2 - b.2 <= 2
    requires TranslateBy(p, a.0, a.1, a.2) == TranslateBy(p, b.0, b.1, b.2)
    ensures a == b
  {
    Drawing.WrapNear(p.x + b.0, a.0 - b.0);
    Drawing.WrapNear(p.y + b.1, a.1 - b.1);
    Drawing.WrapNear(p.z + b.2, a.2 - b.2);
  }

  /** The 26 neighbours are distinct and never the point itself. */
  lemma NeighborsDistinct(p: Point3)
    requires Valid(p)
    ensures forall i | 0 <= i < 26 :: GetNeighborsDiag(p)[i] != p
    ensures forall i, j | 0 <= i < j < 26 :: GetNeighborsDiag(p)[i] != GetNeighborsDiag(p)[j]
  {
    var r := GetNeighborsDiag(p);
    forall i | 0 <= i < 26
      ensures r[i] != p
    {
      var d := Delta(LoopIndex(i));
      DeltasDistinct(LoopIndex(i), 13);
      if r[i] == p {
        assert TranslateBy(p, 0, 0, 0) == p;
        TranslateInjective(p, d, (0, 0, 0));
      }
    }
    forall i, j | 0 <= i < j < 26
      ensures r[i] != r[j]
    {
      DeltasDistinct(LoopIndex(i), LoopIndex(j));
      if r[i] == r[j] {
        TranslateInjective(p, Delta(LoopIndex(i)), Delta(LoopIndex(j)));
      }
    }
  }

  /** Away from the edges of `int`, the neighbours are exactly the points at Chebyshev distance 1. */
  lemma NeighborsExactly(p: Point3, q: Point3)
    requires Interior(p)
    ensures q in GetNeighborsDiag(p) <==> Near(p, q)
  {
    var r := GetNeighborsDiag(p);
    if q in r {
      var i :| 0 <= i < 26 && r[i] == q;
      NeighborNear(p, i);
    }
    if Near(p, q) {
      NearNeighbor(p, q);
    }
  }

  /** `q` is another point at most one step from `p` on every axis. */
  predicate Near(p: Point3, q: Point3)
  {
    q != p && -1 <= q.x - p.x <= 1 && -1 <= q.y - p.y <= 1 && -1 <= q.z - p.z <= 1
  }

  lemma NeighborNear(p: Point3, i: int)
    requires Interior(p) && 0 <= i < 26
    ensures Near(p, GetNeighborsDiag(p)[i])
  {
    DeltaDigits(LoopIndex(i));
    DeltasDistinct(LoopIndex(i), 13);
  }

  lemma NearNeighbor(p: Point3, q: Point3)
    requires Interior(p) && Near(p, q)
    ensures q in GetNeighborsDiag(p)
  {
    var k := 9 * (q.x - p.x + 1) + 3 * (q.y - p.y + 1) + (q.z - p.z + 1);
    DeltaOf(q.x - p.x, q.y - p.y, q.z - p.z);
    var i := if k < 13 then k else k - 1;
    assert LoopIndex(i) == k;
    assert GetNeighborsDiag(p)[i] == q;
  }
}

/**
 * Core/Point4.cs: the four-coordinate point, with 80 neighbours. The older
 * Point4.cs at the repository root has the same equality, `IsEmpty` and
 * `TranslateBy`.
 */
module Point4D {
  import opened Wrappers
  import opened IntWidths
  import Drawing

  datatype Point4 = Point4(x: int, y: int, z: int, t: int)

  datatype Boxed = Null | Boxed4(point: Point4) | OtherObject

  const EMPTY: Point4 := Point4(0, 0, 0, 0)

  predicate Valid(p: Point4) { IsInt32(p.x) && IsInt32(p.y) && IsInt32(p.z) && IsInt32(p.t) }

  predicate Interior(p: Point4)
  {
    -TWO_31 < p.x < TWO_31 - 1 && -TWO_31 < p.y < TWO_31 - 1 &&
    -TWO_31 < p.z < TWO_31 - 1 && -TWO_31 < p.t < TWO_31 - 1
  }

  function Equals(a: Point4, b: Point4): (r: bool)
    ensures r <==> a == b
  { a.x == b.x && a.y == b.y && a.z == b.z && a.t == b.t }

  function EqualsObject(a: Point4, obj: Boxed): (r: bool)
    ensures r <==> obj == Boxed4(a)
  { obj.Boxed4? && Equals(a, obj.point) }

  function OperatorEquals(a: Point4, b: Point4): (r: bool)
    ensures r <==> a == b
  { Equals(a, b) }

  function OperatorNotEquals(a: Point4, b: Point4): (r: bool)
    ensures r <==> a != b
  { !OperatorEquals(a, b) }

  function IsEmpty(p: Point4): (r: bool)
    ensures r <==> p.x == 0 && p.y == 0 && p.z == 0 && p.t == 0
  { Equals(p, EMPTY) }

  /** Field equality is value equality; the operators and `Equals(object)` agree with it. */
  lemma EqualityAgrees(a: Point4, b: Point4, obj: Boxed)
    ensures Equals(a, b) <==> a == b
    ensures OperatorEquals(a, b) <==> a == b
    ensures OperatorNotEquals(a, b) <==> a != b
    ensures EqualsObject(a, obj) <==> obj == Boxed4(a)
    ensures IsEmpty(a) <==> a.x == 0 && a.y == 0 && a.z == 0 && a.t == 0
  {
  }

  function TranslateBy(p: Point4, dx: int, dy: int, dz: int, dt: int): (r: Point4)
    ensures Valid(r)
  {
    Point4(Wrap32(p.x + dx), Wrap32(p.y + dy), Wrap32(p.z + dz), Wrap32(p.t + dt))
  }

  /** A translation and the opposite translation return every point, even across the wrap-around. */
  lemma TranslateBack(p: Point4, dx: int, dy: int, dz: int, dt: int)
    requires Valid(p)
    ensures TranslateBy(TranslateBy(p, dx, dy, dz, dt), -dx, -dy, -dz, -dt) == p
  {
    Wrap32Add(p.x + dx, -dx);
    Wrap32Add(p.y + dy, -dy);
    Wrap32Add(p.z + dz, -dz);
    Wrap32Add(p.t + dt, -dt);
  }

  function FromArray(arr: Option<seq<int>>, offset: int): (r: Result<Point4>)
    ensures r == Err(ArgumentNull) <==> arr.None?
    ensures arr.Some? && !(0 <= offset && offset + 4 <= |arr.value|) ==> r.Err?
    ensures r.Ok? ==> arr.Some? && 0 <= offset && offset + 4 <= |arr.value| && r.value == Point4(arr.value[offset], arr.value[offset + 1], arr.value[offset + 2], arr.value[offset + 3])
  {
    if arr.None? then Err(ArgumentNull)
    else if |arr.value| < Wrap32(offset + 4) then Err(Argument)
    else if !(0 <= offset && offset + 4 <= |arr.value|) then Err(IndexOutOfRange)
    else Ok(Point4(arr.value[offset], arr.value[offset + 1], arr.value[offset + 2], arr.value[offset + 3]))
  }

  /** The point is read iff four elements start at the offset; a negative offset that gets past the length check fails on the index. */
  lemma FromArrayReads(arr: seq<int>, offset: int)
    requires IsInt32(offset) && |arr| < TWO_31
    ensures FromArray(Some(arr), offset).Ok? <==> 0 <= offset && offset + 4 <= |arr|
    ensures FromArray(Some(arr), offset).Ok? ==>
      FromArray(Some(arr), offset).value == Point4(arr[offset], arr[offset + 1], arr[offset + 2], arr[offset + 3])
    ensures offset < 0 && offset + 4 <= |arr| ==> FromArray(Some(arr), offset) == Err(IndexOutOfRange)
    ensures 0 <= offset < TWO_31 - 4 && |arr| < offset + 4 ==> FromArray(Some(arr), offset) == Err(Argument)
    ensures FromArray(None, offset) == Err(ArgumentNull)
  {
    if offset + 4 <= |arr| {
      assert Wrap32(offset + 4) == offset + 4;
    }
  }

  /** Entry `k` of the four nested loops over {-1, 0, 1}, outermost first. */
  function Delta(k: int): (int, int, int, int)
  {
    (k / 27 - 1, k / 9 % 3 - 1, k / 3 % 3 - 1, k % 3 - 1)
  }

  /** Loop entry 40 is the zero delta, which the generator skips. */
  function LoopIndex(i: int): int
  {
    if i < 40 then i else i + 1
  }

  function GetNeighborsDiag(p: Point4): (r: seq<Point4>)
    ensures |r| == 80
  {
    seq(80, i requires 0 <= i < 80 => var d := Delta(LoopIndex(i)); TranslateBy(p, d.0, d.1, d.2, d.3))
  }

  /** The deltas are the base-3 digits of the loop entry, shifted down by one. */
  lemma DeltaDigits(k: int)
    requires 0 <= k < 81
    ensures var d := Delta(k);
      -1 <= d.0 <= 1 && -1 <= d.1 <= 1 && -1 <= d.2 <= 1 && -1 <= d.3 <= 1 &&
      k == 27 * (d.0 + 1) + 9 * (d.1 + 1) + 3 * (d.2 + 1) + (d.3 + 1)
  {
    var a := k / 3;
    var b := a / 3;
    DivUnique(k, 9, b, 3 * (a % 3) + k % 3);
    DivUnique(k, 27, b / 3, 9 * (b % 3) + 3 * (a % 3) + k % 3);
  }

  lemma DeltaOf(a: int, b: int, c: int, e: int)
    requires -1 <= a <= 1 && -1 <= b <= 1 && -1 <= c <= 1 && -1 <= e <= 1
    ensures Delta(27 * (a + 1) + 9 * (b + 1) + 3 * (c + 1) + (e + 1)) == (a, b, c, e)
  {
    var k := 27 * (a + 1) + 9 * (b + 1) + 3 * (c + 1) + (e + 1);
    DivUnique(k, 27, a + 1, 9 * (b + 1) + 3 * (c + 1) + (e + 1));
    DivUnique(k, 9, 3 * (a + 1) + (b + 1), 3 * (c + 1) + (e + 1));
    DivUnique(3 * (a + 1) + (b + 1), 3, a + 1, b + 1);
    DivUnique(k, 3, 9 * (a + 1) + 3 * (b + 1) + (c + 1), e + 1);
    DivUnique(9 * (a + 1) + 3 * (b + 1) + (c + 1), 3, 3 * (a + 1) + (b + 1), c + 1);
  }

  lemma DeltasDistinct(k: int, l: int)
    requires 0 <= k < 81 && 0 <= l < 81
    ensures Delta(k) == Delta(l) ==> k == l
    ensures Delta(k) == (0, 0, 0, 0) <==> k == 40
  {
    DeltaDigits(k);
    DeltaDigits(l);
  }

  lemma TranslateInjective(p: Point4, a: (int, int, int, int), b: (int, int, int, int))
    requires -2 <= a.0 - b.0 <= 2 && -2 <= a.1 - b.1 <= 2 && -2 <= a.2 - b.2 <= 2 && -2 <= a.3 - b.3 <= 2
    requires TranslateBy(p, a.0, a.1, a.2, a.3) == TranslateBy(p, b.0, b.1, b.2, b.3)
    ensures a == b
  {
    Drawing.WrapNear(p.x + b.0, a.0 - b.0);
    Drawing.WrapNear(p.y + b.1, a.1 - b.1);
    Drawing.WrapNear(p.z + b.2, a.2 - b.2);
    Drawing.WrapNear(p.t + b.3, a.3 - b.3);
  }

  /** The 80 neighbours are distinct and never the point itself. */
  lemma NeighborsDistinct(p: Point4)
    requires Valid(p)
    ensures forall i | 0 <= i < 80 :: GetNeighborsDiag(p)[i] != p
    ensures forall i, j | 0 <= i < j < 80 :: GetNeighborsDiag(p)[i] != GetNeighborsDiag(p)[j]
  {
    var r := GetNeighborsDiag(p);
    forall i | 0 <= i < 80
      ensures r[i] != p
    {
      var d := Delta(LoopIndex(i));
      DeltasDistinct(LoopIndex(i), 40);
      if r[i] == p {
        assert TranslateBy(p, 0, 0, 0, 0) == p;
        TranslateInjective(p, d, (0, 0, 0, 0));
      }
    }
    forall i, j | 0 <= i < j < 80
      ensures r[i] != r[j]
    {
      DeltasDistinct(LoopIndex(i), LoopIndex(j));
      if r[i] == r[j] {
        TranslateInjective(p, Delta(LoopIndex(i)), Delta(LoopIndex(j)));
      }
    }
  }

  /** Away from the edges of `int`, the neighbours are exactly the points at Chebyshev distance 1. */
  lemma NeighborsExactly(p: Point4, q: Point4)
    requires Interior(p)
    ensures q in GetNeighborsDiag(p) <==> Near(p, q)
  {
    var r := GetNeighborsDiag(p);
    if q in r {
      var i :| 0 <= i < 80 && r[i] == q;
      NeighborNear(p, i);
    }
    if Near(p, q) {
      NearNeighbor(p, q);
    }
  }

  predicate Near(p: Point4, q: Point4)
  {
    q != p && -1 <= q.x - p.x <= 1 && -1 <= q.y - p.y <= 1 && -1 <= q.z - p.z <= 1 && -1 <= q.t - p.t <= 1
  }

  lemma NeighborNear(p: Point4, i: int)
    requires Interior(p) && 0 <= i < 80
    ensures Near(p, GetNeighborsDiag(p)[i])
  {
    DeltaDigits(LoopIndex(i));
    DeltasDistinct(LoopIndex(i), 40);
  }

  lemma NearNeighbor(p: Point4, q: Point4)
    requires Interior(p) && Near(p, q)
    ensures q in GetNeighborsDiag(p)
  {
    var d := (q.x - p.x, q.y - p.y, q.z - p.z, q.t - p.t);
    var k := 27 * (d.0 + 1) + 9 * (d.1 + 1) + 3 * (d.2 + 1) + (d.3 + 1);
    DeltaOf(d.0, d.1, d.2, d.3);
    assert k != 40 by {
      DeltaOf(0, 0, 0, 0);
    }
    var i := if k < 40 then k else k - 1;
    assert 0 <= i < 80 && LoopIndex(i) == k;
    assert TranslateBy(p, d.0, d.1, d.2, d.3) == q;
    assert GetNeighborsDiag(p)[i] == q;
  }
}
