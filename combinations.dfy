/**
 * Core/Combinatorics/TupleCombinations.cs: enumerators over the index
 * combinations of a list. The pair, triple and k-element enumerators all step
 * their indices the same way: the last position that can still grow is raised
 * by one, and every later position restarts one above its predecessor. That
 * step is defined once here, together with what it promises: from the
 * starting indices, it visits every strictly increasing index combination
 * once, in lexicographic order.
 */
module Combinatorics {

  import opened Wrappers

  /** The largest value position `i` of a `k`-combination of `0..n-1` can hold. */
  function Ceiling(n: int, k: int, i: int): int
  {
    n - k + i
  }

  /** `s` is a combination of `0..n-1`: strictly increasing indices, all in range. */
  predicate IsCombination(n: int, s: seq<int>)
  {
    && (forall i | 0 <= i < |s| :: 0 <= s[i] < n)
    && (forall i | 0 <= i < |s| - 1 :: s[i] < s[i + 1])
  }

  /**
   * The shape the enumerators' indices keep: non-negative and strictly
   * increasing, except that the last two may be equal (as they are before
   * the first `MoveNext`).
   */
  predicate Weak(s: seq<int>)
  {
    && |s| >= 1 && s[0] >= 0
    && (forall i | 0 <= i < |s| - 2 :: s[i] < s[i + 1])
    && (|s| >= 2 ==> s[|s| - 2] <= s[|s| - 1])
  }

  /** `s` and `t` agree before position `d` and `s` is smaller at `d`. */
  predicate LexLessAt(s: seq<int>, t: seq<int>, d: int)
  {
    && |s| == |t| && 0 <= d < |s|
    && (forall j | 0 <= j < d :: s[j] == t[j])
    && s[d] < t[d]
  }

  /** Lexicographic order on index sequences of one length. */
  predicate LexLess(s: seq<int>, t: seq<int>)
  {
    exists d | 0 <= d < |s| :: LexLessAt(s, t, d)
  }

  /** The indices before the first `MoveNext`: `0, 1, …, k-2` followed by `k-2` again. */
  function ResetIndices(k: nat): (r: seq<int>)
    ensures |r| == k
  {
    seq(k, i => if i == k - 1 then k - 2 else i)
  }

  /**
   * The downward scan of `MoveNext`: the highest position at or below `i`
   * whose index is under its ceiling, or -1 when there is none.
   */
  function PivotFrom(n: int, s: seq<int>, i: int): (p: int)
    requires -1 <= i < |s|
    ensures -1 <= p <= i
    ensures p >= 0 ==> s[p] < Ceiling(n, |s|, p)
    ensures forall j | p < j <= i :: s[j] >= Ceiling(n, |s|, j)
    decreases i + 1
  {
    if i < 0 then -1
    else if s[i] < Ceiling(n, |s|, i) then i
    else PivotFrom(n, s, i - 1)
  }

  function Pivot(n: int, s: seq<int>): int
    requires |s| >= 1
  {
    PivotFrom(n, s, |s| - 1)
  }

  /** `s` with position `p` raised by one and every later position one above its predecessor. */
  function Advance(s: seq<int>, p: int): (r: seq<int>)
    requires 0 <= p < |s|
    ensures |r| == |s|
    ensures forall j | 0 <= j < p :: r[j] == s[j]
    ensures forall j | p <= j < |s| :: r[j] == s[p] + 1 + (j - p)
  {
    s[..p] + seq(|s| - p, j => s[p] + 1 + j)
  }

  /** The next combination after `s`, when `s` has a position that can still grow. */
  function Next(n: int, s: seq<int>): seq<int>
    requires |s| >= 1 && Pivot(n, s) >= 0
  {
    Advance(s, Pivot(n, s))
  }

  /** The elements a combination of indices selects. */
  function Select<T>(values: seq<T>, s: seq<int>): (r: seq<T>)
    requires forall i | 0 <= i < |s| :: 0 <= s[i] < |values|
    ensures |r| == |s|
    ensures forall i | 0 <= i < |s| :: r[i] == values[s[i]]
  {
    seq(|s|, i requires 0 <= i < |s| => values[s[i]])
  }

  // ---------------------------------------------------------------------
  // What the step promises.
  // ---------------------------------------------------------------------

  /** Strictly increasing integers grow by at least one per position. */
  lemma {:induction false} Gap(n: int, t: seq<int>, d: int, j: int)
    requires IsCombination(n, t) && 0 <= d <= j < |t|
    ensures t[j] >= t[d] + (j - d)
    decreases j - d
  {
    if d < j {
      Gap(n, t, d, j - 1);
    }
  }

  /** Every entry of a `k`-combination of `0..n-1` is at most its ceiling `n - k + i`. */
  lemma CombinationCeiling(n: int, t: seq<int>, i: int)
    requires IsCombination(n, t) && 0 <= i < |t|
    ensures i <= t[i] <= Ceiling(n, |t|, i)
  {
    Gap(n, t, i, |t| - 1);
    Gap(n, t, 0, i);
  }

  /** Weak indices never decrease and are never negative. */
  lemma {:induction false} WeakMonotone(s: seq<int>, i: int, j: int)
    requires Weak(s) && 0 <= i <= j < |s|
    ensures 0 <= s[i] <= s[j]
    decreases j
  {
    if i < j {
      WeakMonotone(s, i, j - 1);
    } else if 0 < i {
      WeakMonotone(s, 0, i - 1);
    }
  }

  /** Every combination already has the weak shape. */
  lemma CombinationIsWeak(n: int, s: seq<int>)
    requires IsCombination(n, s) && |s| >= 1
    ensures Weak(s)
  {
  }

  /** Pointwise at most `t` from `from` on, and equal before: equal to `t` or lexicographically below it. */
  lemma {:induction false} PointwiseBelow(s: seq<int>, t: seq<int>, from: int)
    requires |s| == |t| && 0 <= from <= |s|
    requires forall j | 0 <= j < from :: s[j] == t[j]
    requires forall j | from <= j < |s| :: s[j] <= t[j]
    ensures s == t || LexLess(s, t)
    decreases |s| - from
  {
    if from == |s| {
      assert s == t;
    } else if s[from] < t[from] {
      assert LexLessAt(s, t, from);
    } else {
      PointwiseBelow(s, t, from + 1);
    }
  }

  /** The step keeps the indices a combination of `0..n-1`. */
  lemma NextIsCombination(n: int, s: seq<int>)
    requires Weak(s) && Pivot(n, s) >= 0
    ensures IsCombination(n, Next(n, s))
  {
    var p := Pivot(n, s);
    var r := Next(n, s);
    var k := |s|;
    WeakMonotone(s, 0, p);
    forall i | 0 <= i < k
      ensures 0 <= r[i] < n
    {
      if i < p {
        WeakMonotone(s, i, p);
      }
    }
    forall i | 0 <= i < k - 1
      ensures r[i] < r[i + 1]
    {
      if i + 1 == p && p == k - 1 {
        assert s[i] <= s[p];
      }
    }
  }

  /** The step moves strictly forward in lexicographic order. */
  lemma NextIsGreater(n: int, s: seq<int>)
    requires |s| >= 1 && Pivot(n, s) >= 0
    ensures LexLess(s, Next(n, s))
  {
    assert LexLessAt(s, Next(n, s), Pivot(n, s));
  }

  /**
   * The step skips no combination: every combination lexicographically
   * above `s` is the next one or lies above it.
   */
  lemma NextIsLeast(n: int, s: seq<int>, t: seq<int>)
    requires |s| >= 1 && Pivot(n, s) >= 0
    requires |t| == |s| && IsCombination(n, t) && LexLess(s, t)
    ensures Next(n, s) == t || LexLess(Next(n, s), t)
  {
    var p := Pivot(n, s);
    var r := Next(n, s);
    var d :| 0 <= d < |s| && LexLessAt(s, t, d);
    CombinationCeiling(n, t, d);
    if d < p {
      assert LexLessAt(r, t, d);
    } else {
      assert d == p;
      forall j | p <= j < |s|
        ensures r[j] <= t[j]
      {
        Gap(n, t, p, j);
      }
      PointwiseBelow(r, t, p);
    }
  }

  /** When no position can grow, no combination lies lexicographically above `s`. */
  lemma NoPivotIsLast(n: int, s: seq<int>, t: seq<int>)
    requires |s| >= 1 && Pivot(n, s) < 0
    requires |t| == |s| && IsCombination(n, t)
    ensures !LexLess(s, t)
  {
    if d :| 0 <= d < |s| && LexLessAt(s, t, d) {
      CombinationCeiling(n, t, d);
    }
  }

  /** The starting indices lie lexicographically below every combination. */
  lemma ResetIsFirst(n: int, t: seq<int>)
    requires |t| >= 2 && IsCombination(n, t)
    ensures Weak(ResetIndices(|t|))
    ensures LexLess(ResetIndices(|t|), t)
  {
    var r := ResetIndices(|t|);
    forall j | 0 <= j < |t|
      ensures r[j] <= t[j]
    {
      CombinationCeiling(n, t, j);
    }
    CombinationCeiling(n, t, |t| - 1);
    assert r[|t| - 1] != t[|t| - 1];
    PointwiseBelow(r, t, 0);
  }

  /** The starting indices can always advance when there are at least `k - 1` values. */
  lemma ResetCanAdvance(n: int, k: int)
    requires 2 <= k <= n
    ensures Pivot(n, ResetIndices(k)) >= 0 && Next(n, ResetIndices(k)) == seq(k, i => i)
  {
    var s := ResetIndices(k);
    assert s[k - 1] < Ceiling(n, k, k - 1);
    assert Pivot(n, s) == k - 1;
  }

  // ---------------------------------------------------------------------
  // How many steps there are, for pairs and triples.
  // ---------------------------------------------------------------------

  /** The number of pairs drawn from `m` values, summed one first index at a time. */
  function PairTotal(m: int): (r: int)
    ensures r >= 0
  {
    if m <= 1 then 0 else PairTotal(m - 1) + (m - 1)
  }

  /** The number of triples drawn from `m` values, summed one first index at a time. */
  function TripleTotal(m: int): (r: int)
    ensures r >= 0
  {
    if m < 3 then 0 else TripleTotal(m - 1) + PairTotal(m - 1)
  }

  /** m values give m(m-1)/2 pairs. */
  lemma {:induction false} PairTotalClosed(m: nat)
    ensures 2 * PairTotal(m) == m * (m - 1)
  {
    if m > 1 {
      PairTotalClosed(m - 1);
      assert (m - 1) * (m - 2) + 2 * (m - 1) == m * (m - 1);
    }
  }

  /** m values give m(m-1)(m-2)/6 triples. */
  lemma {:induction false} TripleTotalClosed(m: nat)
    ensures 6 * TripleTotal(m) == m * (m - 1) * (m - 2)
  {
    if m >= 3 {
      TripleTotalClosed(m - 1);
      PairTotalClosed(m - 1);
      assert (m - 1) * (m - 2) * (m - 3) + 3 * ((m - 1) * (m - 2)) == m * (m - 1) * (m - 2);
    }
  }

  /** The 1-based position of the pair `s` in lexicographic order over `n` values (0 before the first). */
  function PairRank(n: int, s: seq<int>): int
    requires |s| == 2
  {
    PairTotal(n) - PairTotal(n - s[0]) + (s[1] - s[0])
  }

  /** The 1-based position of the triple `s` in lexicographic order over `n` values (0 before the first). */
  function TripleRank(n: int, s: seq<int>): int
    requires |s| == 3
  {
    TripleTotal(n) - TripleTotal(n - s[0]) + PairRank(n - s[0] - 1, [s[1] - s[0] - 1, s[2] - s[0] - 1])
  }

  /** Each pair step moves exactly one position on. */
  lemma PairStep(n: int, s: seq<int>)
    requires |s| == 2 && n >= 2
    requires IsCombination(n, s) || s == ResetIndices(2)
    requires Pivot(n, s) >= 0
    ensures PairRank(n, Next(n, s)) == PairRank(n, s) + 1
  {
    var r := Next(n, s);
    if Pivot(n, s) == 0 {
      assert s[1] == n - 1 && r == [s[0] + 1, s[0] + 2];
      assert PairTotal(n - s[0]) == PairTotal(n - s[0] - 1) + (n - s[0] - 1);
    } else {
      assert r == [s[0], s[1] + 1];
    }
  }

  /** A pair step raises the first index, or keeps it and raises the second. */
  lemma PairMovesForward(n: int, s: seq<int>)
    requires |s| == 2 && Pivot(n, s) >= 0
    ensures var r := Next(n, s);
      r[0] > s[0] || (r[0] == s[0] && r[1] > s[1])
  {
  }

  /** The last pair is at position n(n-1)/2. */
  lemma PairLast(n: int, s: seq<int>)
    requires |s| == 2 && IsCombination(n, s) && Pivot(n, s) < 0
    ensures PairRank(n, s) == PairTotal(n)
  {
    assert s[1] == n - 1 && s[0] == n - 2;
    assert PairTotal(2) == 1;
  }

  /** Each triple step moves exactly one position on. */
  lemma TripleStep(n: int, s: seq<int>)
    requires |s| == 3 && n >= 3
    requires IsCombination(n, s) || s == ResetIndices(3)
    requires Pivot(n, s) >= 0
    ensures TripleRank(n, Next(n, s)) == TripleRank(n, s) + 1
  {
    var r := Next(n, s);
    var m := n - s[0] - 1;
    if Pivot(n, s) == 0 {
      assert s[2] == n - 1 && s[1] == n - 2;
      assert r == [s[0] + 1, s[0] + 2, s[0] + 3];
      assert TripleTotal(n - s[0]) == TripleTotal(n - s[0] - 1) + PairTotal(m);
      assert PairTotal(2) == 1;
    } else if Pivot(n, s) == 1 {
      var b := s[1] - s[0] - 1;
      assert s[2] == n - 1;
      assert r == [s[0], s[1] + 1, s[1] + 2];
      assert PairTotal(m - b) == PairTotal(m - b - 1) + (m - b - 1);
    } else {
      assert r == [s[0], s[1], s[2] + 1];
    }
  }

  /** A triple step raises the first index, or keeps it and raises the second, or keeps both and raises the third. */
  lemma TripleMovesForward(n: int, s: seq<int>)
    requires |s| == 3 && Pivot(n, s) >= 0
    ensures var r := Next(n, s);
      || r[0] > s[0]
      || (r[0] == s[0] && r[1] > s[1])
      || (r[0] == s[0] && r[1] == s[1] && r[2] > s[2])
  {
  }

  /** The triple step case by case, in the order `MoveNext` tests them. */
  lemma TripleNextCases(n: int, s: seq<int>)
    requires |s| == 3
    ensures s[2] < n - 1 ==> Pivot(n, s) == 2 && Next(n, s) == [s[0], s[1], s[2] + 1]
    ensures s[2] >= n - 1 && s[1] < n - 2 ==> Pivot(n, s) == 1 && Next(n, s) == [s[0], s[1] + 1, s[1] + 2]
    ensures s[2] >= n - 1 && s[1] >= n - 2 && s[0] < n - 3 ==> Pivot(n, s) == 0 && Next(n, s) == [s[0] + 1, s[0] + 2, s[0] + 3]
    ensures s[2] >= n - 1 && s[1] >= n - 2 && s[0] >= n - 3 ==> Pivot(n, s) < 0
  {
  }

  /** The last triple is at position n(n-1)(n-2)/6. */
  lemma TripleLast(n: int, s: seq<int>)
    requires |s| == 3 && IsCombination(n, s) && Pivot(n, s) < 0
    ensures TripleRank(n, s) == TripleTotal(n)
  {
    assert s[2] == n - 1 && s[1] == n - 2 && s[0] == n - 3;
    assert TripleTotal(3) == 1;
  }

  // ---------------------------------------------------------------------
  // TupleCombinations2: every pair of a list, lexicographically by index.
  // ---------------------------------------------------------------------

  /** A list of at least two values whose pairs are enumerated. */
  datatype TupleCombinations2<T> = TupleCombinations2(sourceValues: seq<T>)

  /** The constructor: fewer than two values is an invalid operation. */
  function NewTupleCombinations2<T>(values: seq<T>): (r: Result<TupleCombinations2<T>>)
    ensures r.Ok? <==> |values| >= 2
    ensures r.Ok? ==> r.value.sourceValues == values
    ensures r.Err? ==> r.error == InvalidOperation
  {
    if |values| < 2 then Err(InvalidOperation) else Ok(TupleCombinations2(values))
  }

  /** The pair enumerator: two indices into the list, advanced in place. */
  class PairEnumerator<T> {
    const values: seq<T>
    var indexA: int
    var indexB: int

    function Indices(): seq<int>
      reads this
    {
      [indexA, indexB]
    }

    /** The indices are in range and in order; they are equal only before the first step. */
    ghost predicate Valid()
      reads this
    {
      |values| >= 2 && 0 <= indexA <= indexB < |values|
    }

    constructor (values: seq<T>)
      requires |values| >= 2
      ensures this.values == values && Valid()
      ensures Indices() == ResetIndices(2)
    {
      this.values := values;
      indexA := 0;
      indexB := 0;
    }

    /** The pair of elements at the two indices. */
    function Current(): (r: (T, T))
      reads this
      requires Valid()
      ensures r == (values[Indices()[0]], values[Indices()[1]])
    {
      (values[indexA], values[indexB])
    }

    /** Moves on to the next pair, or reports that there is none. */
    method MoveNext() returns (more: bool)
      requires Valid()
      modifies this
      ensures Valid()
      ensures more <==> Pivot(|values|, old(Indices())) >= 0
      ensures more ==> Indices() == Next(|values|, old(Indices())) && IsCombination(|values|, Indices())
      ensures !more ==> Indices() == old(Indices())
    {
      ghost var s := Indices();
      if indexB < |values| - 1 {
        indexB := indexB + 1;
        more := true;
      } else if indexA < |values| - 2 {
        indexA := indexA + 1;
        indexB := indexA + 1;
        more := true;
      } else {
        more := false;
      }
      if more {
        NextIsCombination(|values|, s);
      }
    }

    /** Back to the starting indices. */
    method Reset()
      requires |values| >= 2
      modifies this
      ensures Valid() && Indices() == ResetIndices(2)
    {
      indexA := 0;
      indexB := 0;
    }
  }

  /** Enumerating the pairs of a list yields n(n-1)/2 of them. */
  method CountPairs<T>(values: seq<T>) returns (r: Result<nat>)
    ensures r.Err? <==> |values| < 2
    ensures r.Err? ==> r.error == InvalidOperation
    ensures r.Ok? ==> 2 * r.value == |values| * (|values| - 1)
  {
    var c := NewTupleCombinations2(values);
    if c.Err? {
      return Err(c.error);
    }
    var n := |values|;
    var e := new PairEnumerator(values);
    PairStep(n, e.Indices());
    var more := e.MoveNext();
    var count := 0;
    while more
      invariant e.Valid() && e.values == values
      invariant more ==> IsCombination(n, e.Indices()) && PairRank(n, e.Indices()) == count + 1
      invariant !more ==> count == PairTotal(n)
      decreases more, n - e.indexA, n - e.indexB
    {
      count := count + 1;
      ghost var s := e.Indices();
      if Pivot(n, s) >= 0 {
        PairStep(n, s);
      } else {
        PairLast(n, s);
      }
      more := e.MoveNext();
    }
    PairTotalClosed(n);
    return Ok(count);
  }

  // ---------------------------------------------------------------------
  // TupleCombinations3: every triple of a list, lexicographically by index.
  // ---------------------------------------------------------------------

  /** A list of at least three values whose triples are enumerated. */
  datatype TupleCombinations3<T> = TupleCombinations3(sourceValues: seq<T>)

  /** The constructor: fewer than three values is an invalid operation. */
  function NewTupleCombinations3<T>(values: seq<T>): (r: Result<TupleCombinations3<T>>)
    ensures r.Ok? <==> |values| >= 3
    ensures r.Ok? ==> r.value.sourceValues == values
    ensures r.Err? ==> r.error == InvalidOperation
  {
    if |values| < 3 then Err(InvalidOperation) else Ok(TupleCombinations3(values))
  }

  /** The triple enumerator: three indices into the list, advanced in place. */
  class TripleEnumerator<T> {
    const values: seq<T>
    var indexA: int
    var indexB: int
    var indexC: int

    function Indices(): seq<int>
      reads this
    {
      [indexA, indexB, indexC]
    }

    /** The indices are in range and in order; the last two are equal only before the first step. */
    ghost predicate Valid()
      reads this
    {
      |values| >= 3 && 0 <= indexA < indexB <= indexC < |values|
    }

    constructor (values: seq<T>)
      requires |values| >= 3
      ensures this.values == values && Valid()
      ensures Indices() == ResetIndices(3)
    {
      this.values := values;
      indexA := 0;
      indexB := 1;
      indexC := 1;
    }

    /** The triple of elements at the three indices. */
    function Current(): (r: (T, T, T))
      reads this
      requires Valid()
      ensures r == (values[Indices()[0]], values[Indices()[1]], values[Indices()[2]])
    {
      (values[indexA], values[indexB], values[indexC])
    }

    /** Moves on to the next triple, or reports that there is none. */
    method MoveNext() returns (more: bool)
      requires Valid()
      modifies this
      ensures Valid()
      ensures more <==> Pivot(|values|, old(Indices())) >= 0
      ensures more ==> Indices() == Next(|values|, old(Indices())) && IsCombination(|values|, Indices())
      ensures !more ==> Indices() == old(Indices())
    {
      ghost var s := Indices();
      TripleNextCases(|values|, s);
      var maxC := |values| - 1;
      var maxB := |values| - 2;
      var maxA := |values| - 3;
      if indexC < maxC {
        indexC := indexC + 1;
        more := true;
      } else if indexB < maxB {
        indexB := indexB + 1;
        indexC := indexB + 1;
        more := true;
      } else if indexA < maxA {
        indexA := indexA + 1;
        indexB := indexA + 1;
        indexC := indexA + 2;
        more := true;
      } else {
        more := false;
      }
      if more {
        NextIsCombination(|values|, s);
      }
    }

    /** Back to the starting indices. */
    method Reset()
      requires |values| >= 3
      modifies this
      ensures Valid() && Indices() == ResetIndices(3)
    {
      indexA := 0;
      indexB := 1;
      indexC := 1;
    }
  }

  /** Enumerating the triples of a list yields n(n-1)(n-2)/6 of them. */
  method CountTriples<T>(values: seq<T>) returns (r: Result<nat>)
    ensures r.Err? <==> |values| < 3
    ensures r.Err? ==> r.error == InvalidOperation
    ensures r.Ok? ==> 6 * r.value == |values| * (|values| - 1) * (|values| - 2)
  {
    var c := NewTupleCombinations3(values);
    if c.Err? {
      return Err(c.error);
    }
    var n := |values|;
    var e := new TripleEnumerator(values);
    TripleStep(n, e.Indices());
    var more := e.MoveNext();
    var count := 0;
    while more
      invariant e.Valid() && e.values == values
      invariant more ==> IsCombination(n, e.Indices()) && TripleRank(n, e.Indices()) == count + 1
      invariant !more ==> count == TripleTotal(n)
      decreases more, n - e.indexA, n - e.indexB, n - e.indexC
    {
      count := count + 1;
      ghost var s := e.Indices();
      if Pivot(n, s) >= 0 {
        TripleStep(n, s);
        TripleMovesForward(n, s);
      } else {
        TripleLast(n, s);
      }
      more := e.MoveNext();
    }
    TripleTotalClosed(n);
    return Ok(count);
  }

  // ---------------------------------------------------------------------
  // FastCombinations: every k-combination of a list, written in place into
  // one array that is handed out again on every step.
  // ---------------------------------------------------------------------

  /** A list of at least three values and the length of the combinations drawn from it. */
  datatype FastCombinations<T> = FastCombinations(sourceValues: seq<T>, combinationLength: int)

  /** The constructor: fewer than three values is an invalid operation, whatever the length. */
  function NewFastCombinations<T>(values: seq<T>, combinationLength: int): (r: Result<FastCombinations<T>>)
    ensures r.Ok? <==> |values| >= 3
    ensures r.Ok? ==> r.value == FastCombinations(values, combinationLength)
    ensures r.Err? ==> r.error == InvalidOperation
  {
    if |values| < 3 then Err(InvalidOperation) else Ok(FastCombinations(values, combinationLength))
  }

  /** `0, 1, …, k-1` with the last entry lowered by one: the indices `Reset` starts from. */
  method StartIndices(k: int) returns (a: array<int>)
    requires k >= 1
    ensures fresh(a) && a[..] == ResetIndices(k)
  {
    a := new int[k](i => i);
    a[k - 1] := a[k - 1] - 1;
    assert forall i | 0 <= i < k :: a[i] == ResetIndices(k)[i];
  }

  /** The k-combination enumerator: an index array and an element array, both updated in place. */
  class FastEnumerator<T(0)> {
    const values: seq<T>
    const combiLength: int
    var indices: array<int>
    var current: array<T>
    /** `Current`: the read-only view made once, over the array `current` held at construction. */
    const view: array<T>

    /** The indices are the starting ones or a combination, and `current` holds the elements they select. */
    ghost predicate Valid()
      reads this, indices, current
    {
      && 2 <= combiLength <= |values| + 1
      && indices.Length == combiLength && current.Length == combiLength
      && (indices as object) != (current as object)
      && (IsCombination(|values|, indices[..]) || indices[..] == ResetIndices(combiLength))
      && (forall i | 0 <= i < combiLength :: 0 <= indices[i] < |values|)
      && (forall i | 0 <= i < combiLength :: current[i] == values[indices[i]])
    }

    /** What `Current` shows: the contents of the array it wraps. */
    function Current(): seq<T>
      reads this, view
    {
      view[..]
    }

    constructor (values: seq<T>, combiLength: int)
      requires 2 <= combiLength <= |values| + 1
      ensures this.values == values && this.combiLength == combiLength
      ensures Valid() && fresh(indices) && fresh(current)
      ensures indices[..] == ResetIndices(combiLength)
      ensures view == current
    {
      this.values := values;
      this.combiLength := combiLength;
      var start := StartIndices(combiLength);
      indices := start;
      var c := new T[combiLength];
      current := c;
      view := c;
      new;
      ComputeCurrent(0);
    }

    /** Writes the elements selected by `indices[start..]` into `current[start..]`. */
    method ComputeCurrent(start: int)
      requires 0 <= start <= combiLength == indices.Length == current.Length
      requires (indices as object) != (current as object)
      requires forall i | start <= i < combiLength :: 0 <= indices[i] < |values|
      modifies current
      ensures forall i | 0 <= i < start :: current[i] == old(current[i])
      ensures forall i | start <= i < combiLength :: current[i] == values[indices[i]]
    {
      var i := start;
      while i < current.Length
        invariant start <= i <= combiLength
        invariant forall j | 0 <= j < start :: current[j] == old(current[j])
        invariant forall j | start <= j < i :: current[j] == values[indices[j]]
      {
        current[i] := values[indices[i]];
        i := i + 1;
      }
    }

    /** Raises `indices[i]` by one and sets every later index one above its predecessor. */
    method AdvanceFrom(i: int)
      requires 0 <= i < indices.Length
      modifies indices
      ensures indices[..] == Advance(old(indices[..]), i)
    {
      ghost var r := Advance(indices[..], i);
      indices[i] := indices[i] + 1;
      var j := i + 1;
      while j < indices.Length
        invariant i + 1 <= j <= indices.Length
        invariant forall t | 0 <= t < j :: indices[t] == r[t]
        invariant forall t | j <= t < indices.Length :: indices[t] == old(indices[t])
      {
        indices[j] := indices[j - 1] + 1;
        j := j + 1;
      }
      assert indices[..] == r;
    }

    /** The step once the scan has found position `i`: advance the indices, then refresh the elements from `i` on. */
    method StepAt(i: int)
      requires Valid() && 0 <= i < combiLength
      requires Pivot(|values|, indices[..]) == i
      modifies indices, current
      ensures Valid()
      ensures indices[..] == Next(|values|, old(indices[..])) && IsCombination(|values|, indices[..])
    {
      ghost var s := indices[..];
      if s != ResetIndices(combiLength) {
        CombinationIsWeak(|values|, s);
      }
      NextIsCombination(|values|, s);
      AdvanceFrom(i);
      ComputeCurrent(i);
    }

    /** Moves on to the next combination, in place, or reports that there is none. */
    method MoveNext() returns (more: bool)
      requires Valid()
      modifies indices, current
      ensures Valid()
      ensures more <==> Pivot(|values|, old(indices[..])) >= 0
      ensures more ==> indices[..] == Next(|values|, old(indices[..])) && IsCombination(|values|, indices[..])
      ensures !more ==> indices[..] == old(indices[..]) && current[..] == old(current[..])
    {
      ghost var s := indices[..];
      var i := combiLength - 1;
      while i >= 0
        invariant -1 <= i < combiLength
        invariant indices[..] == s && current[..] == old(current[..])
        invariant Pivot(|values|, s) == PivotFrom(|values|, s, i)
      {
        var max := |values| - combiLength + i;
        if indices[i] < max {
          StepAt(i);
          return true;
        }
        i := i - 1;
      }
      return false;
    }

    /**
     * Back to the starting indices, as written: both arrays are replaced by
     * new ones, while `Current` keeps wrapping the array it was made over.
     */
    method Reset()
      requires Valid()
      modifies this
      ensures Valid() && fresh(indices) && fresh(current)
      ensures indices[..] == ResetIndices(combiLength)
      ensures view != current
    {
      indices := StartIndices(combiLength);
      current := new T[combiLength];
      ComputeCurrent(0);
    }

    /** Back to the starting indices, writing into the arrays already in use. */
    method ResetInPlace()
      requires Valid()
      modifies indices, current
      ensures Valid()
      ensures indices[..] == ResetIndices(combiLength)
    {
      var i := 0;
      while i < combiLength
        invariant 0 <= i <= combiLength
        invariant forall t | 0 <= t < i :: indices[t] == t
      {
        indices[i] := i;
        i := i + 1;
      }
      indices[combiLength - 1] := combiLength - 2;
      assert forall t | 0 <= t < combiLength :: indices[t] == ResetIndices(combiLength)[t];
      ComputeCurrent(0);
    }
  }

  /**
   * `GetEnumerator`: the enumerator's constructor resets the indices and
   * computes the first elements, which fails for lengths below two or above
   * one more than the number of values.
   */
  method Open<T(0)>(c: FastCombinations<T>) returns (r: Result<FastEnumerator<T>>)
    ensures r.Ok? <==> 2 <= c.combinationLength <= |c.sourceValues| + 1
    ensures c.combinationLength == 0 ==> r == Err(IndexOutOfRange)
    ensures (c.combinationLength < 0 || c.combinationLength == 1 || c.combinationLength > |c.sourceValues| + 1)
      ==> r == Err(ArgumentOutOfRange)
    ensures r.Ok? ==> && fresh(r.value) && fresh(r.value.indices) && fresh(r.value.current)
                      && r.value.values == c.sourceValues && r.value.combiLength == c.combinationLength
                      && r.value.Valid() && r.value.indices[..] == ResetIndices(c.combinationLength)
                      && r.value.view == r.value.current
  {
    var k := c.combinationLength;
    if k < 0 {
      // Enumerable.Range refuses a negative count.
      return Err(ArgumentOutOfRange);
    } else if k == 0 {
      // Lowering the last index of an empty array.
      return Err(IndexOutOfRange);
    } else if k == 1 || k > |c.sourceValues| + 1 {
      // ComputeCurrent reads the list at index -1, or at index |values|.
      return Err(ArgumentOutOfRange);
    }
    var e := new FastEnumerator(c.sourceValues, k);
    return Ok(e);
  }

  /**
   * Enumerating the 2-combinations of a list with `FastCombinations` yields
   * n(n-1)/2 of them, every one in the same array.
   */
  method CountPairCombinations<T(0)>(values: seq<T>) returns (r: Result<nat>)
    ensures r.Err? <==> |values| < 3
    ensures r.Err? ==> r.error == InvalidOperation
    ensures r.Ok? ==> 2 * r.value == |values| * (|values| - 1)
  {
    var c := NewFastCombinations(values, 2);
    if c.Err? {
      return Err(c.error);
    }
    var n := |values|;
    var enumerator := Open(c.value);
    var e := enumerator.value;
    ghost var shown := e.view;
    PairStep(n, e.indices[..]);
    var more := e.MoveNext();
    var count := 0;
    while more
      invariant e.Valid() && e.values == values && e.combiLength == 2
      invariant e.view == shown && e.current == shown && fresh(e.indices) && fresh(e.current)
      invariant more ==> IsCombination(n, e.indices[..]) && PairRank(n, e.indices[..]) == count + 1
      invariant !more ==> count == PairTotal(n)
      decreases more, n - e.indices[0], n - e.indices[1]
    {
      count := count + 1;
      ghost var s := e.indices[..];
      if Pivot(n, s) >= 0 {
        PairStep(n, s);
        PairMovesForward(n, s);
      } else {
        PairLast(n, s);
      }
      more := e.MoveNext();
    }
    PairTotalClosed(n);
    return Ok(count);
  }

  /** Five values give ten 2-combinations. */
  method CombinationsWork() returns (count: nat)
    ensures count == 10
  {
    var r := CountPairCombinations([1, 2, 3, 4, 5]);
    count := r.value;
  }

  /** The array `Current` shows is overwritten by the next step: storing it is unsafe. */
  method CombinationsDoNotAllocate() returns (first: seq<int>, second: seq<int>)
    ensures first == [1, 2] && second == [1, 3]
  {
    var e := new FastEnumerator([1, 2, 3, 4, 5], 2);
    var more := e.MoveNext();
    assert e.indices[..] == [0, 1];
    first := e.Current();
    more := e.MoveNext();
    assert e.indices[..] == [0, 2];
    second := e.Current();
  }

  /** As written, after `Reset` the next step updates an array `Current` no longer shows. */
  method StaleCurrentAfterReset() returns (shown: seq<int>, selected: seq<int>)
    ensures shown == [1, 3] && selected == [1, 2]
  {
    var e := new FastEnumerator([1, 2, 3, 4, 5], 2);
    var more := e.MoveNext();
    more := e.MoveNext();
    assert e.indices[..] == [0, 2];
    assert e.Current() == [1, 3];
    e.Reset();
    more := e.MoveNext();
    assert e.indices[..] == [0, 1];
    shown := e.Current();
    selected := e.current[..];
  }

  /** Resetting in place, the next step after a reset is shown by `Current` again. */
  method CurrentAfterResetInPlace() returns (shown: seq<int>)
    ensures shown == [1, 2]
  {
    var e := new FastEnumerator([1, 2, 3, 4, 5], 2);
    var more := e.MoveNext();
    more := e.MoveNext();
    e.ResetInPlace();
    more := e.MoveNext();
    assert e.indices[..] == [0, 1];
    shown := e.Current();
  }
}
