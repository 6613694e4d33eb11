/**
 * Core/TupleConverters.cs (and `Diff` of LinqHelpers.cs): differences of
 * pairs and of neighbouring elements, and lists read into tuples.
 */
module TupleConverters {
  import opened Wrappers
  import opened IntWidths
  import opened Sequences

  /** `Diff` of an `int` pair: `Item2 - Item1`, unchecked. */
  function Diff32(pair: (int, int)): (d: int)
    requires IsInt32(pair.0) && IsInt32(pair.1)
    ensures IsInt32(d) && Wrap32(pair.0 + d) == pair.1
  {
    Wrap32Add(pair.1 - pair.0, pair.0);
    Wrap32(pair.1 - pair.0)
  }

  /** `Diff` of a `long` pair. */
  function Diff64(pair: (int, int)): (d: int)
    requires IsInt64(pair.0) && IsInt64(pair.1)
    ensures IsInt64(d) && Wrap64(pair.0 + d) == pair.1
  {
    Wrap64Add(pair.1 - pair.0, pair.0);
    Wrap64(pair.1 - pair.0)
  }

  /** `Diff` of an `int` sequence: the differences of the overlapping pairs. */
  function DiffSeq32(s: seq<int>): (r: seq<int>)
    requires forall i | 0 <= i < |s| :: IsInt32(s[i])
    ensures |r| == if |s| < 2 then 0 else |s| - 1
    ensures forall i | 0 <= i < |r| :: Wrap32(s[i] + r[i]) == s[i + 1]
  {
    if |s| < 2 then [] else seq(|s| - 1, i requires 0 <= i < |s| - 1 => Diff32((s[i], s[i + 1])))
  }

  /** `Diff` of a `long` sequence. */
  function DiffSeq64(s: seq<int>): (r: seq<int>)
    requires forall i | 0 <= i < |s| :: IsInt64(s[i])
    ensures |r| == if |s| < 2 then 0 else |s| - 1
    ensures forall i | 0 <= i < |r| :: Wrap64(s[i] + r[i]) == s[i + 1]
  {
    if |s| < 2 then [] else seq(|s| - 1, i requires 0 <= i < |s| - 1 => Diff64((s[i], s[i + 1])))
  }

  /** The wrapped difference of two wrapped values is the wrapped exact difference. */
  lemma Wrap32Diff(a: int, b: int)
    ensures Wrap32(Wrap32(a) - Wrap32(b)) == Wrap32(a - b)
  {
    assert b + (a - b) == a;
    Wrap32Sub(b, a - b);
  }

  /** Differencing undoes `CumulativeSum`: the differences of the prefix sums are the inputs after the first. */
  lemma DiffUndoesCumulativeSum32(s: seq<int>, sums: seq<int>)
    requires forall i | 0 <= i < |s| :: IsInt32(s[i])
    requires |sums| == |s| && forall i | 0 <= i < |s| :: sums[i] == Wrap32(Sum(s[..i + 1]))
    requires forall i | 0 <= i < |sums| :: IsInt32(sums[i])
    ensures DiffSeq32(sums) == if |s| == 0 then [] else s[1..]
  {
    var d := DiffSeq32(sums);
    forall i | 0 <= i < |d|
      ensures d[i] == s[i + 1]
    {
      PrefixSumsStep(s, i + 1);
      Wrap32Diff(Sum(s[..i + 2]), Sum(s[..i + 1]));
    }
  }

  /** `ToTuple2` on a list: the first two elements; a shorter list is indexed out of range. */
  function ToTuple2<T>(s: seq<T>): (r: Result<(T, T)>)
    ensures r.Ok? <==> |s| >= 2
    ensures r.Err? ==> r.error == ArgumentOutOfRange
  {
    if |s| < 2 then Err(ArgumentOutOfRange) else Ok((s[0], s[1]))
  }

  /** `ToTuple3`: the first three elements. */
  function ToTuple3<T>(s: seq<T>): (r: Result<(T, T, T)>)
    ensures r.Ok? <==> |s| >= 3
    ensures r.Err? ==> r.error == ArgumentOutOfRange
  {
    if |s| < 3 then Err(ArgumentOutOfRange) else Ok((s[0], s[1], s[2]))
  }

  /** `ToTuple4`: the first four elements. */
  function ToTuple4<T>(s: seq<T>): (r: Result<(T, T, T, T)>)
    ensures r.Ok? <==> |s| >= 4
    ensures r.Err? ==> r.error == ArgumentOutOfRange
  {
    if |s| < 4 then Err(ArgumentOutOfRange) else Ok((s[0], s[1], s[2], s[3]))
  }

  /** Reading a tuple back from its elements followed by anything gives the tuple; a tuple read from a list is its prefix. */
  lemma TupleRoundTrip<T>(s: seq<T>, a: T, b: T, c: T, d: T)
    ensures ToTuple2([a, b] + s) == Ok((a, b))
    ensures ToTuple3([a, b, c] + s) == Ok((a, b, c))
    ensures ToTuple4([a, b, c, d] + s) == Ok((a, b, c, d))
    ensures ToTuple2(s).Ok? ==> s[..2] == [ToTuple2(s).value.0, ToTuple2(s).value.1]
    ensures ToTuple4(s).Ok? ==> s[..4] == [ToTuple4(s).value.0, ToTuple4(s).value.1, ToTuple4(s).value.2, ToTuple4(s).value.3]
  {
  }
}
