/**
 * The binary searches `Core.BinarySearchInt`, `BinarySearchLong` and the
 * older `BinarySearch`.  Each looks for the point where a predicate switches
 * to `searchValue`: from an open start it gallops with a doubling
 * stepsize until a probe matches, then bisects the last bracket.  All
 * arithmetic is unchecked: values are `int` or `long`, and the stepsize is
 * an `int` in all three classes.
 *
 * Each search is a pure function on the predicate; the loops that compute
 * it are methods proved to return what the function says.
 */
module BinarySearches {

  import opened Wrappers
  import opened IntWidths

  /** The C# integer type the values of a search have. */
  datatype Width = Int | Long

  function Bits(w: Width): nat
  {
    if w == Int then 32 else 64
  }

  function Half(w: Width): int
  {
    if w == Int then TWO_31 else TWO_63
  }

  /** `x` is a value of the type. */
  predicate Fits(w: Width, x: int)
  {
    -Half(w) <= x < Half(w)
  }

  /**
   * Unchecked arithmetic of the type on the sum or difference of two of its
   * values: two's-complement wrap-around, which moves such a result by at
   * most one whole range.
   */
  function Narrow(w: Width, x: int): (r: int)
    requires -2 * Half(w) <= x < 2 * Half(w)
    ensures Fits(w, r)
  {
    if x >= Half(w) then x - 2 * Half(w) else if x < -Half(w) then x + 2 * Half(w) else x
  }

  /** `Narrow` is the 32- or 64-bit wrap-around of the type. */
  lemma NarrowIsWrap(w: Width, x: int)
    requires -2 * Half(w) <= x < 2 * Half(w)
    ensures Narrow(w, x) == if w == Int then Wrap32(x) else Wrap64(x)
  {
    if w == Int {
      Wrap32Cong(x, Narrow(w, x));
    } else {
      Wrap64Cong(x, Narrow(w, x));
    }
  }

  /** The halves of a bracket whose gap is at least 2, split at the probe. */
  lemma ProbeGaps(w: Width, lower: int, upper: int)
    requires Fits(w, lower) && Fits(w, upper) && Narrow(w, upper - lower) > 1
    ensures var gap := Narrow(w, upper - lower);
      var probe := Narrow(w, lower + gap / 2);
      Narrow(w, probe - lower) == gap / 2 && Narrow(w, upper - probe) == gap - gap / 2
  {
  }

  // ----- bisection -----

  /**
   * `SearchInterval(lowerLimit, upperLimit, searchValue)`: halve the
   * bracket at its middle until its gap, in unchecked arithmetic, is at
   * most 1, keeping the half whose upper end matches.
   */
  function Bisect(p: int -> bool, w: Width, lower: int, upper: int, v: bool): (r: (int, int))
    requires Fits(w, lower) && Fits(w, upper)
    ensures Fits(w, r.0) && Fits(w, r.1)
    decreases Narrow(w, upper - lower)
  {
    var gap := Narrow(w, upper - lower);
    if gap <= 1 then (lower, upper)
    else
      var probe := Narrow(w, lower + gap / 2);
      ProbeGaps(w, lower, upper);
      if p(probe) == v then Bisect(p, w, lower, probe, v) else Bisect(p, w, probe, upper, v)
  }

  /** A bracket whose gap, in unchecked arithmetic, is at most 1: where bisection stops. */
  predicate Closed(w: Width, r: (int, int))
    requires Fits(w, r.0) && Fits(w, r.1)
  {
    Narrow(w, r.1 - r.0) <= 1
  }

  /**
   * The lower end of `r` is `lower` or does not match, its upper end is
   * `upper` or matches.
   */
  predicate EndsFrom(p: int -> bool, v: bool, lower: int, upper: int, r: (int, int))
  {
    (r.0 == lower || p(r.0) != v) && (r.1 == upper || p(r.1) == v)
  }

  /** Bisection ends with a gap of at most 1. */
  lemma {:induction false} BisectGap(p: int -> bool, w: Width, lower: int, upper: int, v: bool)
    requires Fits(w, lower) && Fits(w, upper)
    ensures Closed(w, Bisect(p, w, lower, upper, v))
    decreases Narrow(w, upper - lower)
  {
    var gap := Narrow(w, upper - lower);
    if gap > 1 {
      var probe := Narrow(w, lower + gap / 2);
      ProbeGaps(w, lower, upper);
      if p(probe) == v {
        BisectGap(p, w, lower, probe, v);
      } else {
        BisectGap(p, w, probe, upper, v);
      }
    }
  }

  /**
   * The lower end of a bisection is the given one or a probe that did not
   * match, the upper end the given one or a probe that matched.
   */
  lemma {:induction false} BisectEnds(p: int -> bool, w: Width, lower: int, upper: int, v: bool)
    requires Fits(w, lower) && Fits(w, upper)
    ensures EndsFrom(p, v, lower, upper, Bisect(p, w, lower, upper, v))
    decreases Narrow(w, upper - lower)
  {
    var gap := Narrow(w, upper - lower);
    if gap > 1 {
      var probe := Narrow(w, lower + gap / 2);
      ProbeGaps(w, lower, upper);
      if p(probe) == v {
        BisectEnds(p, w, lower, probe, v);
      } else {
        BisectEnds(p, w, probe, upper, v);
      }
    }
  }

  /** On a bracket that does not wrap, both ends stay inside it and end up adjacent. */
  lemma {:induction false} BisectInside(p: int -> bool, w: Width, lower: int, upper: int, v: bool)
    requires Fits(w, lower) && Fits(w, upper) && lower < upper && upper - lower < Half(w)
    ensures var r := Bisect(p, w, lower, upper, v);
      lower <= r.0 < r.1 <= upper && r.1 == r.0 + 1
    decreases upper - lower
  {
    var gap := upper - lower;
    assert Narrow(w, upper - lower) == gap;
    if gap > 1 {
      var probe := lower + gap / 2;
      assert Narrow(w, lower + gap / 2) == probe;
      if p(probe) == v {
        BisectInside(p, w, lower, probe, v);
      } else {
        BisectInside(p, w, probe, upper, v);
      }
    }
  }

  /** Both together. */
  lemma BisectBracket(p: int -> bool, w: Width, lower: int, upper: int, v: bool)
    requires Fits(w, lower) && Fits(w, upper)
    ensures var r := Bisect(p, w, lower, upper, v);
      Narrow(w, r.1 - r.0) <= 1 &&
      (r.0 == lower || p(r.0) != v) && (r.1 == upper || p(r.1) == v) &&
      (lower < upper && upper - lower < Half(w) ==> lower <= r.0 < r.1 <= upper && r.1 == r.0 + 1)
  {
    BisectGap(p, w, lower, upper, v);
    BisectEnds(p, w, lower, upper, v);
    if lower < upper && upper - lower < Half(w) {
      BisectInside(p, w, lower, upper, v);
    }
  }

  /** `p` switches to `v` at most once on `[a, b]` and then keeps it. */
  ghost predicate MonotoneOn(p: int -> bool, v: bool, a: int, b: int)
  {
    forall x, y | a <= x <= y <= b :: p(x) == v ==> p(y) == v
  }

  /**
   * On a predicate that switches once inside a bracket that does not wrap,
   * known not to match at its lower end and to match at its upper end,
   * bisection finds the switch: everything up to the lower end does not
   * match, everything from the upper end on does.
   */
  lemma BisectFindsSwitch(p: int -> bool, w: Width, lower: int, upper: int, v: bool)
    requires Fits(w, lower) && Fits(w, upper) && lower < upper && upper - lower < Half(w)
    requires p(lower) != v && p(upper) == v && MonotoneOn(p, v, lower, upper)
    ensures var r := Bisect(p, w, lower, upper, v);
      r.1 == r.0 + 1 && p(r.0) != v && p(r.1) == v &&
      (forall x | lower <= x <= r.0 :: p(x) != v) && (forall x | r.1 <= x <= upper :: p(x) == v)
  {
    BisectBracket(p, w, lower, upper, v);
  }

  // ----- galloping -----

  /** `stepsize` after `k` doublings, in unchecked `int` (or, for the corrected search, `long`) arithmetic. */
  function Stepsize(sw: Width, k: nat): (r: int)
    ensures Fits(sw, r)
  {
    if k == 0 then 2 else Narrow(sw, 2 * Stepsize(sw, k - 1))
  }

  function Pow2(k: nat): (r: nat)
    ensures r >= 1
  {
    if k == 0 then 1 else 2 * Pow2(k - 1)
  }

  lemma {:induction false} Pow2Monotone(a: nat, b: nat)
    requires a <= b
    ensures Pow2(a) <= Pow2(b)
    decreases b
  {
    if a < b {
      Pow2Monotone(a, b - 1);
    }
  }

  lemma {:induction false} Pow2Add(a: nat, b: nat)
    ensures Pow2(a + b) == Pow2(a) * Pow2(b)
    decreases b
  {
    if b > 0 {
      Pow2Add(a, b - 1);
      assert Pow2(a + b) == 2 * Pow2(a + b - 1);
    }
  }

  lemma Pow2Values()
    ensures Pow2(31) == TWO_31 && Pow2(32) == TWO_32 && Pow2(33) == 2 * TWO_32 && Pow2(63) == TWO_63
  {
    assert Pow2(4) == 16;
    Pow2Add(4, 4);
    Pow2Add(8, 8);
    Pow2Add(16, 15);
    Pow2Add(16, 16);
    Pow2Add(32, 31);
  }

  lemma Pow2Half(w: Width)
    ensures Pow2(Bits(w) - 1) == Half(w)
  {
    Pow2Values();
  }

  /**
   * The stepsize doubles from 2 while it fits, wraps to the most negative
   * value once, and is 0 from the doubling after that on.
   */
  lemma {:induction false} StepsizeValue(sw: Width, k: nat)
    ensures k + 2 < Bits(sw) ==> Stepsize(sw, k) == Pow2(k + 1)
    ensures k + 2 == Bits(sw) ==> Stepsize(sw, k) == -Half(sw)
    ensures k + 1 >= Bits(sw) ==> Stepsize(sw, k) == 0
  {
    Pow2Half(sw);
    if k > 0 {
      StepsizeValue(sw, k - 1);
      if k + 2 < Bits(sw) {
        Pow2Monotone(k + 1, Bits(sw) - 2);
        assert Pow2(Bits(sw) - 1) == 2 * Pow2(Bits(sw) - 2);
      } else if k + 2 == Bits(sw) {
        assert Pow2(Bits(sw) - 1) == 2 * Pow2(Bits(sw) - 2);
      }
    }
  }

  /**
   * A positive stepsize is 2 after no doubling and otherwise twice the
   * previous one, which is positive too.
   */
  lemma StepsizeHalves(sw: Width, j: nat)
    requires Stepsize(sw, j) > 0
    ensures j == 0 <==> Stepsize(sw, j) == 2
    ensures j > 0 ==> 0 < Stepsize(sw, j - 1) && Stepsize(sw, j) == 2 * Stepsize(sw, j - 1)
  {
    StepsizeValue(sw, j);
    if j > 0 {
      StepsizeValue(sw, j - 1);
      Pow2Monotone(1, j);
    }
  }

  /** C#'s `stepsize / 2`: halving that truncates toward zero. */
  function HalfStep(s: int): int
  {
    if s < 0 then -(-s / 2) else s / 2
  }

  /** `HalfStep` is C#'s integer division by 2. */
  lemma HalfStepIsDiv(s: int)
    ensures HalfStep(s) == Div(s, 2)
  {
  }

  /** C#'s `stepsize / 2` on a positive stepsize. */
  lemma HalfStepPositive(s: int)
    requires s >= 2
    ensures HalfStep(s) == s / 2 && 0 < s / 2 < s
  {
  }

  /** After as many doublings as the type has bits, less one, the stepsize is 0. */
  lemma StepsizeWrapsToZero(sw: Width, k: nat)
    ensures k + 1 >= Bits(sw) ==> Stepsize(sw, k) == 0
  {
    StepsizeValue(sw, k);
  }

  /** The stepsize type is no wider than the value type. */
  predicate Within(sw: Width, w: Width)
  {
    sw == Int || w == Long
  }

  /** The probe of the `k`-th doubling: `lowerLimit + stepsize`. */
  function Probe(w: Width, sw: Width, start: int, k: nat): int
    requires Fits(w, start) && Within(sw, w)
  {
    Narrow(w, start + Stepsize(sw, k))
  }

  /**
   * The doubling loop from the `k`-th stepsize on: the number of doublings
   * after which the probe matches, or `None` once the stepsize has wrapped
   * to 0, from where the source probes `lowerLimit` forever.
   */
  function Gallop(p: int -> bool, w: Width, sw: Width, start: int, v: bool, k: nat): (r: Option<nat>)
    requires Fits(w, start) && Within(sw, w) && k < Bits(sw)
    ensures r.Some? ==> k <= r.value < Bits(sw)
    decreases Bits(sw) - k
  {
    if p(Probe(w, sw, start, k)) == v then Some(k)
    else if Stepsize(sw, k) == 0 then None
    else StepsizeWrapsToZero(sw, k); Gallop(p, w, sw, start, v, k + 1)
  }

  /** A gallop that stops stops at the first probe that matches. */
  lemma {:induction false} GallopFound(p: int -> bool, w: Width, sw: Width, start: int, v: bool, k: nat)
    requires Fits(w, start) && Within(sw, w) && k < Bits(sw) && Gallop(p, w, sw, start, v, k).Some?
    ensures var j := Gallop(p, w, sw, start, v, k).value;
      p(Probe(w, sw, start, j)) == v && forall i | k <= i < j :: p(Probe(w, sw, start, i)) != v
    decreases Bits(sw) - k
  {
    if p(Probe(w, sw, start, k)) != v {
      StepsizeValue(sw, k);
      GallopFound(p, w, sw, start, v, k + 1);
    }
  }

  /** Conversely, the first matching probe is where the gallop stops. */
  lemma {:induction false} GallopFirstMatch(p: int -> bool, w: Width, sw: Width, start: int, v: bool, k: nat, j: nat)
    requires Fits(w, start) && Within(sw, w) && k <= j < Bits(sw)
    requires p(Probe(w, sw, start, j)) == v && forall i | k <= i < j :: p(Probe(w, sw, start, i)) != v
    ensures Gallop(p, w, sw, start, v, k) == Some(j)
    decreases j - k
  {
    if k < j {
      StepsizeValue(sw, k);
      GallopFirstMatch(p, w, sw, start, v, k + 1, j);
    }
  }

  /** A gallop that never stops has tried every stepsize up to its wrap to 0, none matching. */
  lemma {:induction false} GallopNotFound(p: int -> bool, w: Width, sw: Width, start: int, v: bool, k: nat)
    requires Fits(w, start) && Within(sw, w) && k < Bits(sw) && Gallop(p, w, sw, start, v, k).None?
    ensures Stepsize(sw, Bits(sw) - 1) == 0 && forall i | k <= i < Bits(sw) :: p(Probe(w, sw, start, i)) != v
    decreases Bits(sw) - k
  {
    StepsizeValue(sw, k);
    if Stepsize(sw, k) != 0 {
      GallopNotFound(p, w, sw, start, v, k + 1);
    }
  }

  /** Conversely, when no probe matches the gallop never stops. */
  lemma {:induction false} GallopNoMatch(p: int -> bool, w: Width, sw: Width, start: int, v: bool, k: nat)
    requires Fits(w, start) && Within(sw, w) && k < Bits(sw)
    requires forall i | k <= i < Bits(sw) :: p(Probe(w, sw, start, i)) != v
    ensures Gallop(p, w, sw, start, v, k) == None
    decreases Bits(sw) - k
  {
    StepsizeValue(sw, k);
    if Stepsize(sw, k) != 0 {
      GallopNoMatch(p, w, sw, start, v, k + 1);
    }
  }

  /**
   * The bracket `SearchOpenInterval(lowerLimit, searchValue)` hands to
   * `SearchInterval`: a start that already matches throws; otherwise
   * gallop, and take `lowerLimit + stepsize / 2` to `lowerLimit +
   * stepsize`.  `Err(OutOfFuel)` stands for the endless loop.
   */
  function Bracket(p: int -> bool, w: Width, sw: Width, start: int, v: bool): (r: Result<(int, int)>)
    requires Fits(w, start) && Within(sw, w)
    ensures r.Ok? ==> Fits(w, r.value.0) && Fits(w, r.value.1)
  {
    if p(start) == v then Err(ArgumentOutOfRange)
    else match Gallop(p, w, sw, start, v, 0)
      case None => Err(OutOfFuel)
      case Some(j) =>
        var s := Stepsize(sw, j);
        Ok((Narrow(w, start + HalfStep(s)), Narrow(w, start + s)))
  }

  /** Bisect a bracket, passing its exception on. */
  function BisectResult(p: int -> bool, w: Width, b: Result<(int, int)>, v: bool): (r: Result<(int, int)>)
    requires b.Ok? ==> Fits(w, b.value.0) && Fits(w, b.value.1)
    ensures r.Ok? <==> b.Ok?
  {
    match b
    case Err(e) => Err(e)
    case Ok(bracket) => Ok(Bisect(p, w, bracket.0, bracket.1, v))
  }

  /** `SearchOpenInterval(lowerLimit, searchValue)`. */
  function OpenSearch(p: int -> bool, w: Width, sw: Width, start: int, v: bool): Result<(int, int)>
    requires Fits(w, start) && Within(sw, w)
  {
    BisectResult(p, w, Bracket(p, w, sw, start, v), v)
  }

  /** The gallop stopped at a positive stepsize whose probe did not wrap. */
  ghost predicate GallopInRange(p: int -> bool, w: Width, sw: Width, start: int, v: bool)
    requires Fits(w, start) && Within(sw, w)
  {
    var g := Gallop(p, w, sw, start, v, 0);
    g.Some? && Stepsize(sw, g.value) > 0 && Fits(w, start + Stepsize(sw, g.value))
  }

  /**
   * What the gallop leaves to bisect: the last stepsize `s`, whose probe
   * `start + s` matched, and its half, whose probe did not match unless
   * `s` is the first stepsize 2.
   */
  lemma GallopBracket(p: int -> bool, w: Width, sw: Width, start: int, v: bool, j: nat, s: int)
    requires Fits(w, start) && Within(sw, w) && Gallop(p, w, sw, start, v, 0) == Some(j)
    requires s == Stepsize(sw, j) && s > 0 && Fits(w, start + s)
    ensures 0 < s / 2 < s && p(start + s) == v &&
      (j == 0 <==> s == 2) && (j > 0 ==> p(start + s / 2) != v)
  {
    GallopStopped(p, w, sw, start, v, j, s);
    StepsizeHalves(sw, j);
    if j > 0 {
      GallopPassed(p, w, sw, start, v, j, Stepsize(sw, j - 1));
    }
  }

  /** The probe the gallop stopped at matched. */
  lemma GallopStopped(p: int -> bool, w: Width, sw: Width, start: int, v: bool, j: nat, s: int)
    requires Fits(w, start) && Within(sw, w) && Gallop(p, w, sw, start, v, 0) == Some(j)
    requires s == Stepsize(sw, j) && Fits(w, start + s)
    ensures p(start + s) == v
  {
    GallopFound(p, w, sw, start, v, 0);
    assert Probe(w, sw, start, j) == start + s;
  }

  /** The probe before it did not. */
  lemma GallopPassed(p: int -> bool, w: Width, sw: Width, start: int, v: bool, j: nat, h: int)
    requires Fits(w, start) && Within(sw, w) && Gallop(p, w, sw, start, v, 0) == Some(j)
    requires j > 0 && h == Stepsize(sw, j - 1) && Fits(w, start + h)
    ensures p(start + h) != v
  {
    GallopFound(p, w, sw, start, v, 0);
    assert Probe(w, sw, start, j - 1) == start + h;
  }

  /**
   * The search as written: the upper end matches and the ends are adjacent.
   * The lower end did not match, unless the very first probe `start + 2`
   * matched: then the lower end is `start + 1`, which was never tested.
   */
  lemma OpenSearchBracket(p: int -> bool, w: Width, sw: Width, start: int, v: bool)
    requires Fits(w, start) && Within(sw, w) && p(start) != v && GallopInRange(p, w, sw, start, v)
    ensures var r := OpenSearch(p, w, sw, start, v);
      r.Ok? && start < r.value.0 && r.value.1 == r.value.0 + 1 && p(r.value.1) == v &&
      (p(r.value.0) != v || (r.value.0 == start + 1 && Gallop(p, w, sw, start, v, 0) == Some(0)))
  {
    var j := Gallop(p, w, sw, start, v, 0).value;
    var s := Stepsize(sw, j);
    GallopBracket(p, w, sw, start, v, j, s);
    BracketStopped(p, w, sw, start, v, j, s);
    var b := Bracket(p, w, sw, start, v).value;
    BisectBracket(p, w, b.0, b.1, v);
  }

  /** The bracket once the gallop stopped at a positive stepsize that did not wrap. */
  lemma BracketStopped(p: int -> bool, w: Width, sw: Width, start: int, v: bool, j: nat, s: int)
    requires Fits(w, start) && Within(sw, w) && p(start) != v && Gallop(p, w, sw, start, v, 0) == Some(j)
    requires s == Stepsize(sw, j) && s >= 2 && Fits(w, start + s)
    ensures Bracket(p, w, sw, start, v) == Ok((start + s / 2, start + s))
  {
    StartPlusHalf(w, start, s);
  }

  /** The same for the corrected bracket. */
  lemma BracketFixedStopped(p: int -> bool, w: Width, sw: Width, start: int, v: bool, j: nat, s: int)
    requires Fits(w, start) && Within(sw, w) && p(start) != v && Gallop(p, w, sw, start, v, 0) == Some(j)
    requires s == Stepsize(sw, j) && s >= 2 && Fits(w, start + s)
    ensures BracketFixed(p, w, sw, start, v) == Ok((if j == 0 then start else start + s / 2, start + s))
  {
    BracketFixedGallop(p, w, sw, start, v, j, s);
    if j > 0 {
      StartPlusHalf(w, start, s);
    }
  }

  /** The corrected bracket once the gallop stopped at stepsize `s`. */
  lemma BracketFixedGallop(p: int -> bool, w: Width, sw: Width, start: int, v: bool, j: nat, s: int)
    requires Fits(w, start) && Within(sw, w) && p(start) != v && Gallop(p, w, sw, start, v, 0) == Some(j)
    requires s == Stepsize(sw, j)
    ensures BracketFixed(p, w, sw, start, v) == Ok((if j == 0 then start else Narrow(w, start + HalfStep(s)), Narrow(w, start + s)))
  {
  }

  /** `lowerLimit + stepsize / 2` when `lowerLimit + stepsize` did not wrap. */
  lemma StartPlusHalf(w: Width, start: int, s: int)
    requires Fits(w, start) && s >= 2 && Fits(w, start + s)
    ensures Narrow(w, start + HalfStep(s)) == start + s / 2
  {
    HalfStepPositive(s);
  }

  /** `new BinarySearchInt(x => x > 0).FindFirst()` gallops straight to 2 and returns it, though 1 matches. */
  lemma FirstSkipsStartPlusOne()
    ensures OpenSearch(x => x > 0, Int, Int, 0, true) == Ok((1, 2))
  {
    var p := (x: int) => x > 0;
    assert Probe(Int, Int, 0, 0) == 2;
    assert Gallop(p, Int, Int, 0, true, 0) == Some(0);
  }

  /** `new BinarySearchInt(x => x < 1).FindLast()` likewise returns 1, though 1 no longer matches. */
  lemma LastSkipsStartPlusOne()
    ensures OpenSearch(x => x < 1, Int, Int, 0, false) == Ok((1, 2))
  {
    var p := (x: int) => x < 1;
    assert Probe(Int, Int, 0, 0) == 2;
    assert Gallop(p, Int, Int, 0, false, 0) == Some(0);
  }

  /** The predicate of the next examples, `x => x > 2^32`. */
  predicate AboveTwo32(x: int)
  {
    x > TWO_32
  }

  /**
   * `new BinarySearchLong(x => x > 2^32).FindFirst(start)` from any start
   * in `[0, 2^31]`: the `int` stepsize wraps before any probe passes
   * 2^32, so no probe matches and the loop never ends.
   */
  lemma LongSearchStepsizeWraps(start: int)
    requires 0 <= start <= TWO_31
    ensures OpenSearch(AboveTwo32, Long, Int, start, true) == Err(OutOfFuel)
  {
    forall i: nat | i < Bits(Int)
      ensures !AboveTwo32(Probe(Long, Int, start, i))
    {
      assert Fits(Int, Stepsize(Int, i));
    }
    GallopNoMatch(AboveTwo32, Long, Int, start, true, 0);
  }

  /**
   * The evident intent: the bracket's lower end is a value known not to
   * match, so it is the start itself when the first probe matched.  With
   * a `long` stepsize (`sw == Long`) the search also reaches `long` values.
   */
  function BracketFixed(p: int -> bool, w: Width, sw: Width, start: int, v: bool): (r: Result<(int, int)>)
    requires Fits(w, start) && Within(sw, w)
    ensures r.Ok? ==> Fits(w, r.value.0) && Fits(w, r.value.1)
  {
    if p(start) == v then Err(ArgumentOutOfRange)
    else match Gallop(p, w, sw, start, v, 0)
      case None => Err(OutOfFuel)
      case Some(j) =>
        var s := Stepsize(sw, j);
        Ok((if j == 0 then start else Narrow(w, start + HalfStep(s)), Narrow(w, start + s)))
  }

  function OpenSearchFixed(p: int -> bool, w: Width, sw: Width, start: int, v: bool): Result<(int, int)>
    requires Fits(w, start) && Within(sw, w)
  {
    BisectResult(p, w, BracketFixed(p, w, sw, start, v), v)
  }

  /**
   * The corrected search finds the switch: adjacent ends, the lower one not
   * matching, the upper one matching; on a predicate that switches once,
   * nothing from the start to the lower end matches.
   */
  lemma OpenSearchFixedFindsSwitch(p: int -> bool, w: Width, sw: Width, start: int, v: bool)
    requires Fits(w, start) && Within(sw, w) && p(start) != v && GallopInRange(p, w, sw, start, v)
    ensures var r := OpenSearchFixed(p, w, sw, start, v);
      r.Ok? && start <= r.value.0 && r.value.1 == r.value.0 + 1 && p(r.value.0) != v && p(r.value.1) == v &&
      (MonotoneOn(p, v, start, r.value.1) ==> forall x | start <= x <= r.value.0 :: p(x) != v)
  {
    var j := Gallop(p, w, sw, start, v, 0).value;
    var s := Stepsize(sw, j);
    GallopBracket(p, w, sw, start, v, j, s);
    BracketFixedStopped(p, w, sw, start, v, j, s);
    var b := BracketFixed(p, w, sw, start, v).value;
    BisectBracket(p, w, b.0, b.1, v);
    var r := Bisect(p, w, b.0, b.1, v);
    if MonotoneOn(p, v, start, r.1) {
      MonotoneBelow(p, v, start, r.1, r.0);
    }
  }

  /** Below a point that does not match, nothing matches. */
  lemma MonotoneBelow(p: int -> bool, v: bool, a: int, b: int, c: int)
    requires MonotoneOn(p, v, a, b) && a <= c <= b && p(c) != v
    ensures forall x | a <= x <= c :: p(x) != v
  {
  }

  /** With a `long` stepsize the gallop reaches 2^33, its first probe above 2^32. */
  lemma LongStepsizeGallop(start: int) returns (j: nat)
    requires start == 0
    ensures j == 32 && Stepsize(Long, j) == 2 * TWO_32 && Gallop(AboveTwo32, Long, Long, start, true, 0) == Some(j)
  {
    Pow2Values();
    forall i: nat | i < 32
      ensures !AboveTwo32(Probe(Long, Long, start, i))
    {
      StepsizeValue(Long, i);
      Pow2Monotone(i + 1, 32);
    }
    assert Stepsize(Long, 32) == 2 * TWO_32 by {
      StepsizeValue(Long, 32);
    }
    GallopFirstMatch(AboveTwo32, Long, Long, start, true, 0, 32);
    j := 32;
  }

  /** With a `long` stepsize, the search of `LongSearchStepsizeWraps` from 0 finds 2^32 + 1. */
  lemma LongStepsizeFindsSwitch(start: int)
    requires start == 0
    ensures OpenSearchFixed(AboveTwo32, Long, Long, start, true) == Ok((TWO_32, TWO_32 + 1))
  {
    LongStepsizeBracket(start);
    LongStepsizeBisect(start + TWO_32, start + 2 * TWO_32);
  }

  /** The gallop of `LongStepsizeFindsSwitch` leaves 2^32 to 2^33 to bisect. */
  lemma LongStepsizeBracket(start: int)
    requires start == 0
    ensures BracketFixed(AboveTwo32, Long, Long, start, true) == Ok((start + TWO_32, start + 2 * TWO_32))
  {
    var j := LongStepsizeGallop(start);
    var s := 2 * TWO_32;
    assert s / 2 == TWO_32;
    BracketFixedStopped(AboveTwo32, Long, Long, start, true, j, s);
  }

  /** Bisecting 2^32 to 2^33 ends at the switch. */
  lemma LongStepsizeBisect(lower: int, upper: int)
    requires lower == TWO_32 && upper == 2 * TWO_32
    ensures Bisect(AboveTwo32, Long, lower, upper, true) == (TWO_32, TWO_32 + 1)
  {
    BisectBracket(AboveTwo32, Long, lower, upper, true);
  }

  // ----- the loops -----

  /** One round of bisection: the probe splits the bracket into two smaller ones, one of which bisects the same. */
  lemma BisectStep(p: int -> bool, w: Width, lower: int, upper: int, v: bool, probe: int)
    requires Fits(w, lower) && Fits(w, upper) && Narrow(w, upper - lower) > 1
    requires probe == Narrow(w, lower + Narrow(w, upper - lower) / 2)
    ensures Narrow(w, probe - lower) < Narrow(w, upper - lower) && Narrow(w, upper - probe) < Narrow(w, upper - lower)
    ensures Bisect(p, w, lower, upper, v) == if p(probe) == v then Bisect(p, w, lower, probe, v) else Bisect(p, w, probe, upper, v)
  {
    ProbeGaps(w, lower, upper);
  }

  /** The bisection loop of `SearchInterval`. */
  method SearchInterval(p: int -> bool, w: Width, lowerLimit: int, upperLimit: int, v: bool)
    returns (lower: int, upper: int)
    requires Fits(w, lowerLimit) && Fits(w, upperLimit)
    ensures (lower, upper) == Bisect(p, w, lowerLimit, upperLimit, v)
  {
    lower, upper := lowerLimit, upperLimit;
    while Narrow(w, upper - lower) > 1
      invariant Fits(w, lower) && Fits(w, upper)
      invariant Bisect(p, w, lower, upper, v) == Bisect(p, w, lowerLimit, upperLimit, v)
      decreases Narrow(w, upper - lower)
    {
      var probe := Narrow(w, lower + Narrow(w, upper - lower) / 2);
      BisectStep(p, w, lower, upper, v, probe);
      if p(probe) == v {
        upper := probe;
      } else {
        lower := probe;
      }
    }
  }

  /**
   * One more round of the doubling loop: a probe that does not match ends
   * the gallop when the stepsize has wrapped to 0, and otherwise passes it
   * on to the doubled stepsize.
   */
  lemma GallopStep(p: int -> bool, w: Width, sw: Width, start: int, v: bool, k: nat, s: int)
    requires Fits(w, start) && Within(sw, w) && k < Bits(sw) && s == Stepsize(sw, k)
    requires p(Narrow(w, start + s)) != v
    ensures s == 0 ==> Gallop(p, w, sw, start, v, k) == None
    ensures s != 0 ==> (k + 1 < Bits(sw) && -2 * Half(sw) <= s * 2 < 2 * Half(sw) &&
      Narrow(sw, s * 2) == Stepsize(sw, k + 1) && Gallop(p, w, sw, start, v, k) == Gallop(p, w, sw, start, v, k + 1))
  {
    StepsizeWrapsToZero(sw, k);
  }

  /** The search once the doubling loop has stopped at the `k`-th stepsize `s`. */
  lemma OpenSearchGallopStops(p: int -> bool, w: Width, sw: Width, start: int, v: bool, k: nat, s: int)
    requires Fits(w, start) && Within(sw, w) && p(start) != v && k < Bits(sw) && s == Stepsize(sw, k)
    requires Gallop(p, w, sw, start, v, k) == Gallop(p, w, sw, start, v, 0) && p(Narrow(w, start + s)) == v
    ensures OpenSearch(p, w, sw, start, v) == Ok(Bisect(p, w, Narrow(w, start + HalfStep(s)), Narrow(w, start + s), v))
  {
    assert Gallop(p, w, sw, start, v, k) == Some(k);
  }

  /** A probe of a stepsize or its half from a value of the type is a sum `Narrow` covers. */
  lemma ProbeInRange(w: Width, sw: Width, start: int, s: int)
    requires Fits(w, start) && Within(sw, w) && Fits(sw, s)
    ensures -2 * Half(w) <= start + HalfStep(s) < 2 * Half(w) && -2 * Half(w) <= start + s < 2 * Half(w)
  {
  }

  /** The search when the doubling loop never stops. */
  lemma OpenSearchGallopNever(p: int -> bool, w: Width, sw: Width, start: int, v: bool, k: nat)
    requires Fits(w, start) && Within(sw, w) && p(start) != v && k < Bits(sw)
    requires Gallop(p, w, sw, start, v, k) == Gallop(p, w, sw, start, v, 0) && Gallop(p, w, sw, start, v, k) == None
    ensures OpenSearch(p, w, sw, start, v) == Err(OutOfFuel)
  {
  }

  /** `SearchOpenInterval`: the start check, the doubling loop with its `int` stepsize, then bisection. */
  method SearchOpenInterval(p: int -> bool, w: Width, lowerLimit: int, v: bool) returns (r: Result<(int, int)>)
    requires Fits(w, lowerLimit)
    ensures r == OpenSearch(p, w, Int, lowerLimit, v)
  {
    if p(lowerLimit) == v {
      return Err(ArgumentOutOfRange);
    }
    var stepsize := 2;
    ghost var k: nat := 0;
    while p(Narrow(w, lowerLimit + stepsize)) != v
      invariant k < Bits(Int) && stepsize == Stepsize(Int, k)
      invariant Gallop(p, w, Int, lowerLimit, v, k) == Gallop(p, w, Int, lowerLimit, v, 0)
      decreases Bits(Int) - k
    {
      GallopStep(p, w, Int, lowerLimit, v, k, stepsize);
      if stepsize == 0 {
        // from here on the source probes `lowerLimit` forever
        OpenSearchGallopNever(p, w, Int, lowerLimit, v, k);
        return Err(OutOfFuel);
      }
      stepsize := Narrow(Int, stepsize * 2);
      k := k + 1;
    }
    OpenSearchGallopStops(p, w, Int, lowerLimit, v, k, stepsize);
    ProbeInRange(w, Int, lowerLimit, stepsize);
    var lower, upper := SearchInterval(p, w, Narrow(w, lowerLimit + HalfStep(stepsize)), Narrow(w, lowerLimit + stepsize), v);
    r := Ok((lower, upper));
  }

  /** The upper end of a search, or its exception. */
  function UpperEnd(r: Result<(int, int)>): Result<int>
  {
    if r.Ok? then Ok(r.value.1) else Err(r.error)
  }

  /** The lower end of a search, or its exception. */
  function LowerEnd(r: Result<(int, int)>): Result<int>
  {
    if r.Ok? then Ok(r.value.0) else Err(r.error)
  }

  /** `Core.BinarySearchInt`. */
  class BinarySearchInt {
    const pred: int -> bool

    constructor (pred: int -> bool)
      ensures this.pred == pred
    {
      this.pred := pred;
    }

    /** `FindFirst(start)`: the upper end of the open search for `true`. */
    method FindFirst(start: int) returns (r: Result<int>)
      requires Fits(Int, start)
      ensures r == UpperEnd(OpenSearch(pred, Int, Int, start, true))
    {
      var b := SearchOpenInterval(pred, Int, start, true);
      r := UpperEnd(b);
    }

    /** `FindFirst(start, end)`: the upper end of the bisection of the caller's bracket. */
    method FindFirstBetween(start: int, end: int) returns (r: int)
      requires Fits(Int, start) && Fits(Int, end)
      ensures r == Bisect(pred, Int, start, end, true).1
    {
      var lower, upper := SearchInterval(pred, Int, start, end, true);
      r := upper;
    }

    /** `FindLast(start)`: the lower end of the open search for `false`. */
    method FindLast(start: int) returns (r: Result<int>)
      requires Fits(Int, start)
      ensures r == LowerEnd(OpenSearch(pred, Int, Int, start, false))
    {
      var b := SearchOpenInterval(pred, Int, start, false);
      r := LowerEnd(b);
    }

    /** `FindLast(start, end)`: the lower end of the bisection of the caller's bracket. */
    method FindLastBetween(start: int, end: int) returns (r: int)
      requires Fits(Int, start) && Fits(Int, end)
      ensures r == Bisect(pred, Int, start, end, false).0
    {
      var lower, upper := SearchInterval(pred, Int, start, end, false);
      r := lower;
    }
  }

  /** `BinarySearchLong`: `long` values, `int` stepsize. */
  class BinarySearchLong {
    const pred: int -> bool

    constructor (pred: int -> bool)
      ensures this.pred == pred
    {
      this.pred := pred;
    }

    method FindFirst(start: int) returns (r: Result<int>)
      requires Fits(Long, start)
      ensures r == UpperEnd(OpenSearch(pred, Long, Int, start, true))
    {
      var b := SearchOpenInterval(pred, Long, start, true);
      r := UpperEnd(b);
    }

    method FindLast(start: int) returns (r: Result<int>)
      requires Fits(Long, start)
      ensures r == LowerEnd(OpenSearch(pred, Long, Int, start, false))
    {
      var b := SearchOpenInterval(pred, Long, start, false);
      r := LowerEnd(b);
    }
  }

  /** The older `BinarySearch`: a start that already matches is the answer. */
  class BinarySearch {
    const pred: int -> bool

    constructor (pred: int -> bool)
      ensures this.pred == pred
    {
      this.pred := pred;
    }

    method FindFirst(start: int) returns (r: Result<int>)
      requires Fits(Long, start)
      ensures r == if pred(start) then Ok(start) else UpperEnd(OpenSearch(pred, Long, Int, start, true))
    {
      if pred(start) {
        return Ok(start);
      }
      var b := SearchOpenInterval(pred, Long, start, true);
      r := UpperEnd(b);
    }
  }
}
