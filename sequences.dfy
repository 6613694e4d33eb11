/**
 * Core/LinqHelpers.cs: enumeration helpers over finite sequences. The
 * helpers that loop (pairs, triples, runs, chunks, prefix sums, every k-th
 * element, sub-sequence search) are methods whose loops build the whole
 * output; the dictionary helpers update a dictionary object in place.
 */
module Sequences {
  import opened Wrappers
  import opened IntWidths

  /** All chunks, concatenated in order. */
  function Flatten<T>(cs: seq<seq<T>>): (r: seq<T>)
  {
    if |cs| == 0 then [] else Flatten(cs[..|cs| - 1]) + cs[|cs| - 1]
  }

  /** Every element of `c` is `x`. */
  predicate Constant<T(==)>(c: seq<T>, x: T)
  {
    forall j | 0 <= j < |c| :: c[j] == x
  }

  /** `cs` splits `s` into maximal blocks of equal elements: non-empty, constant, and differing from their neighbours. */
  predicate IsChunking<T(==)>(s: seq<T>, cs: seq<seq<T>>)
  {
    Flatten(cs) == s &&
    (forall i | 0 <= i < |cs| :: |cs[i]| > 0 && Constant(cs[i], cs[i][0])) &&
    (forall i | 0 <= i < |cs| - 1 :: cs[i][0] != cs[i + 1][0])
  }

  /** `x` repeated `n` times. */
  function Copies<T>(x: T, n: nat): (r: seq<T>)
    ensures |r| == n && Constant(r, x)
  {
    seq(n, _ => x)
  }

  /** A run-length encoding decoded: each element repeated by its count. */
  function Expand<T>(runs: seq<(int, T)>): seq<T>
  {
    if |runs| == 0 then []
    else
      var last := runs[|runs| - 1];
      Expand(runs[..|runs| - 1]) + Copies(last.1, if last.0 < 0 then 0 else last.0)
  }

  /** `runs` encodes `s`: positive counts, the decoding is `s`, and neighbouring runs hold different elements. */
  predicate IsRunEncoding<T(==)>(s: seq<T>, runs: seq<(int, T)>)
  {
    Expand(runs) == s &&
    (forall i | 0 <= i < |runs| :: runs[i].0 > 0) &&
    (forall i | 0 <= i < |runs| - 1 :: runs[i].1 != runs[i + 1].1)
  }

  /**
   * `Runs`: a loop keeping the current element and its count (-1 before the
   * first element). Empty input gives the single entry `(-1, default)`,
   * where `dflt` stands for `default(T)`.
   */
  method Runs<T(==)>(s: seq<T>, dflt: T) returns (r: seq<(int, T)>)
    ensures |s| == 0 ==> r == [(-1, dflt)]
    ensures |s| > 0 ==> IsRunEncoding(s, r)
  {
    var count := -1;
    var reference := dflt;
    r := [];
    var i := 0;
    while i < |s|
      invariant 0 <= i <= |s|
      invariant i == 0 ==> count == -1 && r == [] && reference == dflt
      invariant i > 0 ==> RunState(s, r, reference, count, i)
    {
      if count == -1 {
        RunStart(s);
        reference := s[i];
        count := 0;
      } else if s[i] != reference {
        RunNew(s, r, reference, count, i);
        r := r + [(count, reference)];
        reference := s[i];
        count := 0;
      } else {
        RunSame(s, r, reference, count, i);
      }
      count := count + 1;
      i := i + 1;
    }
    if |s| > 0 {
      RunFinish(s, r, reference, count);
    }
    r := r + [(count, reference)];
  }

  /** After `i > 0` elements: the closed runs and the open one decode to `s[..i]`, with the encoding's shape. */
  ghost predicate RunState<T>(s: seq<T>, r: seq<(int, T)>, reference: T, count: int, i: int)
  {
    && 0 < i <= |s| && count >= 1
    && Expand(r) + Copies(reference, count) == s[..i]
    && (forall k | 0 <= k < |r| :: r[k].0 > 0)
    && (forall k | 0 <= k < |r| - 1 :: r[k].1 != r[k + 1].1)
    && (|r| > 0 ==> r[|r| - 1].1 != reference)
  }

  lemma RunStart<T>(s: seq<T>)
    requires |s| > 0
    ensures RunState(s, [], s[0], 1, 1)
  {
    assert Copies(s[0], 1) == s[..1];
  }

  lemma RunSame<T>(s: seq<T>, r: seq<(int, T)>, reference: T, count: int, i: int)
    requires RunState(s, r, reference, count, i) && i < |s| && s[i] == reference
    ensures RunState(s, r, reference, count + 1, i + 1)
  {
    assert Copies(reference, count + 1) == Copies(reference, count) + [s[i]];
    assert s[..i + 1] == s[..i] + [s[i]];
  }

  lemma RunNew<T>(s: seq<T>, r: seq<(int, T)>, reference: T, count: int, i: int)
    requires RunState(s, r, reference, count, i) && i < |s| && s[i] != reference
    ensures RunState(s, r + [(count, reference)], s[i], 1, i + 1)
  {
    ExpandAppend(r, (count, reference));
    assert Copies(s[i], 1) == [s[i]];
    assert s[..i + 1] == s[..i] + [s[i]];
  }

  lemma RunFinish<T>(s: seq<T>, r: seq<(int, T)>, reference: T, count: int)
    requires RunState(s, r, reference, count, |s|)
    ensures IsRunEncoding(s, r + [(count, reference)])
  {
    ExpandAppend(r, (count, reference));
    assert s[..|s|] == s;
  }

  /** Decoding distributes over appending one run. */
  lemma ExpandAppend<T>(runs: seq<(int, T)>, run: (int, T))
    requires run.0 >= 0
    ensures Expand(runs + [run]) == Expand(runs) + Copies(run.1, run.0)
  {
    assert (runs + [run])[..|runs|] == runs;
  }

  /** Flattening distributes over appending one chunk. */
  lemma FlattenAppend<T>(cs: seq<seq<T>>, c: seq<T>)
    ensures Flatten(cs + [c]) == Flatten(cs) + c
  {
    assert (cs + [c])[..|cs|] == cs;
  }

  /**
   * `Chunks` with the default comparer: a loop that extends the current
   * chunk while elements equal its first element (the reference) and closes
   * it otherwise. The last chunk is always yielded, so empty input gives one
   * empty chunk.
   */
  method Chunks<T(==)>(s: seq<T>) returns (r: seq<seq<T>>)
    ensures |s| == 0 ==> r == [[]]
    ensures |s| > 0 ==> IsChunking(s, r)
  {
    var done: seq<seq<T>> := [];
    var chunk: seq<T> := [];
    var i := 0;
    while i < |s|
      invariant 0 <= i <= |s| && ChunkState(s, done, chunk, i)
    {
      if |chunk| > 0 && s[i] != chunk[0] {
        ChunkClose(s, done, chunk, i);
        done := done + [chunk];
        chunk := [];
      } else {
        ChunkExtend(s, done, chunk, i);
      }
      chunk := chunk + [s[i]];
      i := i + 1;
    }
    ChunkFinish(s, done, chunk);
    r := done + [chunk];
  }

  /** The state of a chunking loop after `i` elements: closed chunks, then the open one. */
  predicate ChunkState<T(==)>(s: seq<T>, done: seq<seq<T>>, chunk: seq<T>, i: int)
  {
    0 <= i <= |s| &&
    Flatten(done) + chunk == s[..i] &&
    (i == 0 ==> done == [] && chunk == []) &&
    (i > 0 ==> |chunk| > 0 && Constant(chunk, chunk[0])) &&
    (forall k | 0 <= k < |done| :: |done[k]| > 0 && Constant(done[k], done[k][0])) &&
    (forall k | 0 <= k < |done| - 1 :: done[k][0] != done[k + 1][0]) &&
    (|done| > 0 ==> |chunk| > 0 && done[|done| - 1][0] != chunk[0])
  }

  /** An element equal to the open chunk's (or the first element) extends it. */
  lemma ChunkExtend<T>(s: seq<T>, done: seq<seq<T>>, chunk: seq<T>, i: int)
    requires ChunkState(s, done, chunk, i) && i < |s|
    requires |chunk| == 0 || s[i] == chunk[0]
    ensures ChunkState(s, done, chunk + [s[i]], i + 1)
  {
    assert s[..i + 1] == s[..i] + [s[i]];
  }

  /** A different element closes the open chunk and opens one of its own. */
  lemma ChunkClose<T>(s: seq<T>, done: seq<seq<T>>, chunk: seq<T>, i: int)
    requires ChunkState(s, done, chunk, i) && i < |s|
    requires |chunk| > 0 && s[i] != chunk[0]
    ensures ChunkState(s, done + [chunk], [] + [s[i]], i + 1)
  {
    assert s[..i + 1] == s[..i] + [s[i]];
    FlattenAppend(done, chunk);
    assert [] + [s[i]] == [s[i]];
  }

  /** At the end of a non-empty input, closing the open chunk gives a chunking; an empty input has no chunks. */
  lemma ChunkFinish<T>(s: seq<T>, done: seq<seq<T>>, chunk: seq<T>)
    requires ChunkState(s, done, chunk, |s|)
    ensures |s| == 0 ==> done + [chunk] == [[]]
    ensures |s| > 0 ==> IsChunking(s, done + [chunk])
  {
    assert s[..|s|] == s;
    FlattenAppend(done, chunk);
  }

  /**
   * `Chunks` on a string: a loop over indices that closes the slice
   * `[startIdx..i)` at each character differing from the one at `startIdx`,
   * and finally yields the slice from `startIdx` to the end.
   */
  method ChunksOfString(s: string) returns (r: seq<string>)
    ensures |s| == 0 ==> r == [""]
    ensures |s| > 0 ==> IsChunking(s, r)
  {
    var done: seq<string> := [];
    var startIdx := 0;
    for i := 0 to |s|
      invariant SliceState(s, done, startIdx, i)
    {
      done, startIdx := SliceAt(s, done, startIdx, i);
    }
    SliceFinish(s, done, startIdx);
    r := done + [s[startIdx..]];
  }

  /** The state of `ChunksOfString` after `i` characters: closed chunks `done` and the open slice from `st`. */
  predicate SliceState<T(==)>(s: seq<T>, done: seq<seq<T>>, st: int, i: int)
  {
    0 <= st <= i <= |s| && (i > 0 ==> st < i) &&
    Flatten(done) == s[..st] &&
    (i > 0 ==> Constant(s[st..i], s[st])) &&
    (forall k | 0 <= k < |done| :: |done[k]| > 0 && Constant(done[k], done[k][0])) &&
    (forall k | 0 <= k < |done| - 1 :: done[k][0] != done[k + 1][0]) &&
    (|done| > 0 ==> st < |s| && done[|done| - 1][0] != s[st])
  }

  /** One pass of the `ChunksOfString` loop: a character differing from the one at `st` closes the slice `[st..i)`. */
  method SliceAt(s: string, done: seq<string>, st: int, i: int) returns (done': seq<string>, st': int)
    requires SliceState(s, done, st, i) && i < |s|
    ensures SliceState(s, done', st', i + 1)
  {
    done', st' := done, st;
    if s[i] != s[st] {
      SliceClose(s, done, st, i);
      done' := done + [s[st..i]];
      st' := i;
    } else {
      SliceExtend(s, done, st, i);
    }
  }

  /** A character differing from the one at `st` closes the slice `[st..i)` and opens one at `i`. */
  lemma SliceClose<T>(s: seq<T>, done: seq<seq<T>>, st: int, i: int)
    requires SliceState(s, done, st, i) && i < |s| && s[i] != s[st]
    ensures SliceState(s, done + [s[st..i]], i, i + 1)
  {
    FlattenAppend(done, s[st..i]);
    assert s[..i] == s[..st] + s[st..i];
  }

  /** A character equal to the one at `st` extends the open slice. */
  lemma SliceExtend<T>(s: seq<T>, done: seq<seq<T>>, st: int, i: int)
    requires SliceState(s, done, st, i) && i < |s| && s[i] == s[st]
    ensures SliceState(s, done, st, i + 1)
  {
    assert s[st..i + 1] == s[st..i] + [s[i]];
  }

  lemma SliceFinish<T>(s: seq<T>, done: seq<seq<T>>, st: int)
    requires SliceState(s, done, st, |s|)
    ensures |s| == 0 ==> done + [s[st..]] == [[]]
    ensures |s| > 0 ==> IsChunking(s, done + [s[st..]])
  {
    if |s| == 0 {
      if |done| > 0 {
        FlattenLast(done);
      }
    } else {
      FlattenAppend(done, s[st..]);
      assert s == s[..st] + s[st..];
      var cs := done + [s[st..]];
      forall k | 0 <= k < |cs|
        ensures |cs[k]| > 0 && Constant(cs[k], cs[k][0])
      {
        if k < |done| {
          assert cs[k] == done[k];
        } else {
          assert cs[k] == s[st..|s|] && cs[k][0] == s[st];
        }
      }
    }
  }

  /** The last element of a flattening is the last element of its last, non-empty chunk. */
  lemma FlattenLast<T>(cs: seq<seq<T>>)
    requires |cs| > 0 && |cs[|cs| - 1]| > 0
    ensures |Flatten(cs)| > 0 && Flatten(cs)[|Flatten(cs)| - 1] == cs[|cs| - 1][|cs[|cs| - 1]| - 1]
  {
  }

  /** Dropping the last chunk of a chunking leaves a chunking of the rest. */
  lemma ChunkingPrefix<T>(s: seq<T>, cs: seq<seq<T>>)
    requires IsChunking(s, cs) && |cs| > 0
    ensures var last := cs[|cs| - 1];
      |last| <= |s| && s[|s| - |last|..] == last && IsChunking(s[..|s| - |last|], cs[..|cs| - 1])
  {
    var last := cs[|cs| - 1];
    assert Flatten(cs) == Flatten(cs[..|cs| - 1]) + last;
    assert s[..|s| - |last|] == Flatten(cs[..|cs| - 1]);
  }

  /** A sequence has only one chunking: the blocks of equal elements are determined by the sequence. */
  lemma {:induction false} ChunkingUnique<T>(s: seq<T>, a: seq<seq<T>>, b: seq<seq<T>>)
    requires IsChunking(s, a) && IsChunking(s, b)
    ensures a == b
    decreases |a|
  {
    if |a| == 0 || |b| == 0 {
      if |a| > 0 {
        FlattenLast(a);
      } else if |b| > 0 {
        FlattenLast(b);
      }
      return;
    }
    var la, lb := a[|a| - 1], b[|b| - 1];
    ChunkingPrefix(s, a);
    ChunkingPrefix(s, b);
    if |la| < |lb| {
      SuffixBlocked(s, a, lb);
    } else if |lb| < |la| {
      SuffixBlocked(s, b, la);
    }
    assert la == lb;
    ChunkingUnique(s[..|s| - |la|], a[..|a| - 1], b[..|b| - 1]);
    assert a == a[..|a| - 1] + [la];
    assert b == b[..|b| - 1] + [lb];
  }

  /** A constant suffix of a chunked sequence is no longer than the last chunk. */
  lemma SuffixBlocked<T>(s: seq<T>, a: seq<seq<T>>, c: seq<T>)
    requires IsChunking(s, a) && |a| > 0
    requires |c| <= |s| && s[|s| - |c|..] == c && |c| > 0 && Constant(c, c[0])
    ensures |c| <= |a[|a| - 1]|
  {
    var la := a[|a| - 1];
    ChunkingPrefix(s, a);
    var rest := a[..|a| - 1];
    if |rest| > 0 {
      FlattenLast(rest);
      var k := |s| - |la| - 1;
      assert s[k] == rest[|rest| - 1][|rest[|rest| - 1]| - 1] by {
        assert s[..|s| - |la|] == Flatten(rest);
      }
      assert s[|s| - 1] == la[0] == c[0];
      assert s[k] != c[0];
    }
  }

  /** Each run as the chunk it stands for. */
  function RunChunks<T>(runs: seq<(int, T)>): seq<seq<T>>
  {
    seq(|runs|, i requires 0 <= i < |runs| => Copies(runs[i].1, if runs[i].0 < 0 then 0 else runs[i].0))
  }

  lemma {:induction false} RunChunksFlatten<T>(runs: seq<(int, T)>)
    ensures Flatten(RunChunks(runs)) == Expand(runs)
  {
    if |runs| > 0 {
      RunChunksFlatten(runs[..|runs| - 1]);
      assert RunChunks(runs)[..|runs| - 1] == RunChunks(runs[..|runs| - 1]);
    }
  }

  /** `Runs` and `Chunks` agree: run i counts the elements of chunk i and holds its element. */
  lemma RunsAreChunks<T>(s: seq<T>, runs: seq<(int, T)>, cs: seq<seq<T>>)
    requires IsRunEncoding(s, runs) && IsChunking(s, cs)
    ensures |runs| == |cs|
    ensures forall i | 0 <= i < |runs| :: runs[i].0 == |cs[i]| && runs[i].1 == cs[i][0]
  {
    RunChunksFlatten(runs);
    var rc := RunChunks(runs);
    assert IsChunking(s, rc);
    ChunkingUnique(s, rc, cs);
  }

  /** `cs` cuts `s` into non-empty pieces of `size` elements, the last possibly shorter. */
  predicate IsSizedChunking<T(==)>(s: seq<T>, cs: seq<seq<T>>, size: int)
  {
    Flatten(cs) == s &&
    (forall i | 0 <= i < |cs| :: 0 < |cs[i]| <= size) &&
    (forall i | 0 <= i < |cs| - 1 :: |cs[i]| == size)
  }

  /**
   * `Chunks(chunkSize)`: a chunk size below 1 is an `ArgumentException`;
   * otherwise each pass of the outer loop takes one element and the inner
   * enumerator up to `chunkSize - 1` more.
   */
  method ChunksOfSize<T(==)>(s: seq<T>, chunkSize: int) returns (r: Result<seq<seq<T>>>)
    ensures r.Err? <==> chunkSize < 1
    ensures r.Err? ==> r.error == Argument
    ensures r.Ok? ==> IsSizedChunking(s, r.value, chunkSize)
  {
    if chunkSize < 1 {
      return Err(Argument);
    }
    var done: seq<seq<T>> := [];
    var i := 0;
    while i < |s|
      invariant 0 <= i <= |s|
      invariant IsSizedChunking(s[..i], done, chunkSize)
      invariant |done| > 0 && |done[|done| - 1]| < chunkSize ==> i == |s|
    {
      var n := if |s| - i < chunkSize then |s| - i else chunkSize;
      FlattenAppend(done, s[i..i + n]);
      assert s[..i + n] == s[..i] + s[i..i + n];
      done := done + [s[i..i + n]];
      i := i + n;
    }
    assert s[..|s|] == s;
    return Ok(done);
  }

  /** A sized chunking is determined by the sequence: chunk k is the slice starting at `k * size`. */
  lemma {:induction false} SizedChunkAt<T>(s: seq<T>, cs: seq<seq<T>>, size: int, k: int)
    requires IsSizedChunking(s, cs, size) && 0 <= k < |cs|
    ensures k * size < |s|
    ensures cs[k] == s[k * size .. if (k + 1) * size < |s| then (k + 1) * size else |s|]
    decreases |cs|
  {
    var n := |cs| - 1;
    assert Flatten(cs) == Flatten(cs[..n]) + cs[n];
    assert IsSizedChunking(s[..|s| - |cs[n]|], cs[..n], size);
    if k < n {
      SizedChunkAt(s[..|s| - |cs[n]|], cs[..n], size, k);
      assert n * size == |s| - |cs[n]| by {
        SizedLength(s[..|s| - |cs[n]|], cs[..n], size);
      }
      assert (k + 1) * size <= n * size;
    } else {
      SizedLength(s[..|s| - |cs[n]|], cs[..n], size);
    }
  }

  /** A chunking whose pieces all have `size` elements covers `|cs| * size` elements. */
  lemma {:induction false} SizedLength<T>(s: seq<T>, cs: seq<seq<T>>, size: int)
    requires Flatten(cs) == s && forall i | 0 <= i < |cs| :: |cs[i]| == size
    ensures |s| == |cs| * size
    decreases |cs|
  {
    if |cs| > 0 {
      SizedLength(Flatten(cs[..|cs| - 1]), cs[..|cs| - 1], size);
    }
  }

  /** `PairwiseWithOverlap`: each element paired with the one before it. */
  method PairwiseWithOverlap<T>(s: seq<T>) returns (r: seq<(T, T)>)
    ensures |r| == if |s| < 2 then 0 else |s| - 1
    ensures forall i | 0 <= i < |r| :: r[i] == (s[i], s[i + 1])
  {
    r := [];
    if |s| == 0 {
      return;
    }
    var previous := s[0];
    var i := 1;
    while i < |s|
      invariant 1 <= i <= |s|
      invariant previous == s[i - 1]
      invariant |r| == i - 1
      invariant forall k | 0 <= k < |r| :: r[k] == (s[k], s[k + 1])
    {
      r := r + [(previous, s[i])];
      previous := s[i];
      i := i + 1;
    }
  }

  /** The overlapping pairs give back the sequence: the first element, then every second component. */
  lemma OverlapPairsRebuild<T>(s: seq<T>, r: seq<(T, T)>)
    requires |s| >= 2 && |r| == |s| - 1
    requires forall i | 0 <= i < |r| :: r[i] == (s[i], s[i + 1])
    ensures s == [r[0].0] + seq(|r|, i requires 0 <= i < |r| => r[i].1)
  {
    var t := [r[0].0] + seq(|r|, i requires 0 <= i < |r| => r[i].1);
    forall j | 0 <= j < |s|
      ensures s[j] == t[j]
    {
      if j > 0 {
        assert t[j] == r[j - 1].1 && r[j - 1] == (s[j - 1], s[j]);
      } else {
        assert t[0] == r[0].0 && r[0] == (s[0], s[1]);
      }
    }
  }

  /** `Pairwise`: elements 2i and 2i+1 as pair i; a last odd element is dropped. `dflt` stands for `default(T)`. */
  method Pairwise<T>(s: seq<T>, dflt: T) returns (r: seq<(T, T)>)
    ensures |r| == |s| / 2
    ensures forall i | 0 <= i < |r| :: r[i] == (s[2 * i], s[2 * i + 1])
  {
    r := [];
    var isPair := false;
    var tempItem := dflt;
    for i := 0 to |s|
      invariant |r| == i / 2 && isPair == (i % 2 == 1)
      invariant isPair ==> tempItem == s[i - 1]
      invariant forall k | 0 <= k < |r| :: r[k] == (s[2 * k], s[2 * k + 1])
    {
      if isPair {
        r := r + [(tempItem, s[i])];
        isPair := false;
      } else {
        tempItem := s[i];
        isPair := true;
      }
    }
  }

  /** The pairs give back the sequence without its odd last element. */
  lemma PairsRebuild<T>(s: seq<T>, r: seq<(T, T)>)
    requires |r| == |s| / 2
    requires forall i | 0 <= i < |r| :: r[i] == (s[2 * i], s[2 * i + 1])
    ensures s[..2 * |r|] == seq(2 * |r|, j requires 0 <= j < 2 * |r| => if j % 2 == 0 then r[j / 2].0 else r[j / 2].1)
  {
    forall j | 0 <= j < 2 * |r|
      ensures s[j] == (if j % 2 == 0 then r[j / 2].0 else r[j / 2].1)
    {
      assert j == 2 * (j / 2) + j % 2;
    }
  }

  /** `Triplewise`: elements 3i, 3i+1 and 3i+2 as triple i; one or two leftover elements are dropped. */
  method Triplewise<T>(s: seq<T>, dflt: T) returns (r: seq<(T, T, T)>)
    ensures |r| == |s| / 3
    ensures forall i | 0 <= i < |r| :: r[i] == (s[3 * i], s[3 * i + 1], s[3 * i + 2])
  {
    r := [];
    var saved := 0;
    var temp1, temp2 := dflt, dflt;
    for i := 0 to |s|
      invariant |r| == i / 3 && saved == i % 3
      invariant saved >= 1 ==> temp1 == s[i - saved]
      invariant saved == 2 ==> temp2 == s[i - 1]
      invariant forall k | 0 <= k < |r| :: r[k] == (s[3 * k], s[3 * k + 1], s[3 * k + 2])
    {
      if saved == 0 {
        temp1 := s[i];
        saved := saved + 1;
      } else if saved == 1 {
        temp2 := s[i];
        saved := saved + 1;
      } else {
        saved := 0;
        r := r + [(temp1, temp2, s[i])];
      }
    }
  }

  /** The exact sum of a sequence. */
  function Sum(s: seq<int>): int
  {
    if |s| == 0 then 0 else Sum(s[..|s| - 1]) + s[|s| - 1]
  }

  /** `CumulativeSum` over `int`: output i is the sum of inputs 0..i, wrapped to 32 bits as `sum += item` does. */
  method CumulativeSum32(s: seq<int>) returns (r: seq<int>)
    requires forall i | 0 <= i < |s| :: IsInt32(s[i])
    ensures |r| == |s|
    ensures forall i | 0 <= i < |r| :: r[i] == Wrap32(Sum(s[..i + 1]))
  {
    var sum := 0;
    r := [];
    for i := 0 to |s|
      invariant |r| == i && sum == Wrap32(Sum(s[..i]))
      invariant forall k | 0 <= k < i :: r[k] == Wrap32(Sum(s[..k + 1]))
    {
      assert s[..i + 1][..i] == s[..i];
      Wrap32Add(Sum(s[..i]), s[i]);
      sum := Wrap32(sum + s[i]);
      r := r + [sum];
    }
  }

  /** `CumulativeSum` over `long`, wrapped to 64 bits. */
  method CumulativeSum64(s: seq<int>) returns (r: seq<int>)
    requires forall i | 0 <= i < |s| :: IsInt64(s[i])
    ensures |r| == |s|
    ensures forall i | 0 <= i < |r| :: r[i] == Wrap64(Sum(s[..i + 1]))
  {
    var sum := 0;
    r := [];
    for i := 0 to |s|
      invariant |r| == i && sum == Wrap64(Sum(s[..i]))
      invariant forall k | 0 <= k < i :: r[k] == Wrap64(Sum(s[..k + 1]))
    {
      assert s[..i + 1][..i] == s[..i];
      Wrap64Add(Sum(s[..i]), s[i]);
      sum := Wrap64(sum + s[i]);
      r := r + [sum];
    }
  }

  /** Consecutive prefix sums differ by the next input, so differencing them gives the inputs back. */
  lemma PrefixSumsStep(s: seq<int>, i: int)
    requires 0 < i < |s|
    ensures Sum(s[..i + 1]) - Sum(s[..i]) == s[i]
  {
    assert s[..i + 1][..i] == s[..i];
  }

  /** What `Skip(n)` leaves: a count of zero or less skips nothing, one past the end leaves nothing. */
  function Skip<T>(s: seq<T>, n: int): seq<T>
  {
    if n <= 0 then s else if n >= |s| then [] else s[n..]
  }

  /** For a non-negative dividend the truncating remainder is the remainder modulo `|b|`. */
  lemma RemOfNonNegative(a: int, b: int)
    requires a >= 0 && b != 0
    ensures Rem(a, b) == a % Abs(b)
  {
    var q := Div(a, b);
    if b > 0 {
      DivUnique(a, b, q, Rem(a, b));
    } else {
      DivUnique(a, -b, -q, Rem(a, b));
    }
  }

  /** A remainder of a dividend no greater than the divisor. */
  lemma SmallRem(a: int, m: int)
    requires 0 <= a <= m && m > 0
    ensures a % m == if a == m then 0 else a
  {
    if a == m {
      DivUnique(a, m, 1, 0);
    } else {
      DivUnique(a, m, 0, a);
    }
  }

  /** `r` holds the elements of `t` at `0, m, 2m, ...` (each such position inside `t`). */
  predicate Strided<T(==)>(r: seq<T>, t: seq<T>, m: int)
  {
    forall k | 0 <= k < |r| :: 0 <= k * m < |t| && r[k] == t[k * m]
  }

  /**
   * `StepBy`: after skipping `skipFirst` elements, the element whose counter
   * is 0 is yielded and the `long` counter becomes `(counter + 1) % stepSize`.
   * A step of 0 yields the first element and then throws on the remainder.
   * Otherwise the output is every `|stepSize|`-th element: `|r| * m >= |t|`
   * says no multiple of `m` below `|t|` is missed.
   */
  method StepBy<T(==)>(s: seq<T>, stepSize: int, skipFirst: int) returns (r: seq<T>, failure: Option<Error>)
    requires IsInt32(stepSize)
    ensures var t := Skip(s, skipFirst);
      stepSize == 0 ==> failure == (if |t| == 0 then None else Some(DivideByZero)) && r == t[..if |t| == 0 then 0 else 1]
    ensures var t, m := Skip(s, skipFirst), Abs(stepSize);
      stepSize != 0 ==> failure == None && Strided(r, t, m) && |r| * m >= |t|
  {
    var t := Skip(s, skipFirst);
    var m := Abs(stepSize);
    var counter := 0;
    ghost var next := 0;
    r, failure := [], None;
    for i := 0 to |t|
      invariant stepSize == 0 ==> i == 0 && r == [] && counter == 0
      invariant stepSize != 0 ==> 0 <= counter < m && next == |r| * m && i <= next
      invariant stepSize != 0 ==> next - i == if counter == 0 then 0 else m - counter
      invariant stepSize != 0 ==> Strided(r, t, m) && (|r| > 0 ==> (|r| - 1) * m < i)
    {
      if counter == 0 {
        r := r + [t[i]];
        next := next + m;
      }
      if stepSize == 0 {
        assert r == t[..1];
        failure := Some(DivideByZero);
        return;
      }
      RemOfNonNegative(counter + 1, stepSize);
      SmallRem(counter + 1, m);
      counter := Rem(counter + 1, stepSize);
    }
  }

  /** Strictly increasing. */
  predicate Increasing(s: seq<int>)
  {
    forall a, b | 0 <= a < b < |s| :: s[a] < s[b]
  }

  /** `IndexWhere`: the positions whose element satisfies the predicate. */
  function IndexWhere<T>(s: seq<T>, p: T -> bool): (r: seq<int>)
    ensures Increasing(r)
    ensures forall k :: k in r <==> 0 <= k < |s| && p(s[k])
  {
    if |s| == 0 then []
    else
      var front := IndexWhere(s[..|s| - 1], p);
      assert forall b | 0 <= b < |front| :: front[b] in front;
      front + (if p(s[|s| - 1]) then [|s| - 1] else [])
  }

  /** `ExceptFor`: the elements different from `exception`, in order. */
  function ExceptFor<T(==)>(s: seq<T>, exception: T): (r: seq<T>)
    ensures forall i | 0 <= i < |r| :: r[i] in s && r[i] != exception
    ensures forall i | 0 <= i < |s| && s[i] != exception :: s[i] in r
    ensures multiset(r) == multiset(s)[exception := 0]
  {
    if |s| == 0 then []
    else
      var front, last := s[..|s| - 1], s[|s| - 1];
      var rest := ExceptFor(front, exception);
      assert s == front + [last];
      if last == exception then rest else rest + [last]
  }

  /** `x[n..n + i]` equals `y[..i]`: the search has matched the first `i` elements at `n`. */
  predicate MatchesAt<T(==)>(x: seq<T>, y: seq<T>, n: int, i: int)
  {
    0 <= n && 0 <= i <= |y| && n + i <= |x| && forall j | 0 <= j < i :: x[n + j] == y[j]
  }

  /** The `Where` step of `StartingIndex` for element `i`: keep the candidates that match there. */
  function KeepMatching<T(==)>(x: seq<T>, y: seq<T>, i: int, index: seq<int>): (r: seq<int>)
    requires 0 <= i < |y|
    requires forall k | 0 <= k < |index| :: 0 <= index[k] && index[k] + |y| <= |x|
    ensures forall n :: n in r <==> n in index && x[n + i] == y[i]
  {
    if |index| == 0 then []
    else
      var rest := KeepMatching(x, y, i, index[1..]);
      assert forall n :: n in index[1..] ==> n in index;
      if x[index[0] + i] == y[i] then [index[0]] + rest else rest
  }

  /** Filtering keeps the candidates in increasing order. */
  lemma {:induction false} KeepMatchingIncreasing<T>(x: seq<T>, y: seq<T>, i: int, index: seq<int>)
    requires 0 <= i < |y|
    requires forall k | 0 <= k < |index| :: 0 <= index[k] && index[k] + |y| <= |x|
    requires Increasing(index)
    ensures Increasing(KeepMatching(x, y, i, index))
  {
    if |index| > 0 {
      var rest := KeepMatching(x, y, i, index[1..]);
      KeepMatchingIncreasing(x, y, i, index[1..]);
      assert forall b | 0 <= b < |rest| :: rest[b] in rest && rest[b] in index[1..];
    }
  }

  /**
   * `StartingIndex`: every start where `y` occurs in `x`, filtered one
   * element of `y` at a time from the candidates `0..|x| - |y|`;
   * `Enumerable.Range` rejects a negative count.
   */
  method StartingIndex<T(==)>(x: seq<T>, y: seq<T>) returns (r: Result<seq<int>>)
    ensures r.Err? <==> |x| - |y| + 1 < 0
    ensures r.Err? ==> r.error == ArgumentOutOfRange
    ensures r.Ok? ==> Increasing(r.value)
    ensures r.Ok? ==> forall n :: n in r.value <==> 0 <= n <= |x| - |y| && x[n..n + |y|] == y
  {
    var count := |x| - |y| + 1;
    if count < 0 {
      return Err(ArgumentOutOfRange);
    }
    var index := seq(count, n => n);
    forall n | 0 <= n < count
      ensures n in index
    {
      assert index[n] == n;
    }
    for i := 0 to |y|
      invariant Increasing(index)
      invariant forall k | 0 <= k < |index| :: 0 <= index[k] < count
      invariant forall n :: n in index <==> 0 <= n < count && MatchesAt(x, y, n, i)
    {
      var kept := KeepMatching(x, y, i, index);
      KeepMatchingIncreasing(x, y, i, index);
      assert forall k | 0 <= k < |kept| :: kept[k] in kept;
      index := kept;
    }
    forall n | 0 <= n < count
      ensures MatchesAt(x, y, n, |y|) <==> x[n..n + |y|] == y
    {
      var w := x[n..n + |y|];
      assert forall j | 0 <= j < |y| :: w[j] == x[n + j];
    }
    return Ok(index);
  }

  /** The exact product. */
  function Prod(s: seq<int>): int
  {
    if |s| == 0 then 1 else s[0] * Prod(s[1..])
  }

  /** `Aggregate(acc, (a, b) => a * b)` over `long`: each step is an unchecked 64-bit multiplication. */
  function ProductFrom(acc: int, s: seq<int>): int
    decreases |s|
  {
    if |s| == 0 then acc else ProductFrom(Wrap64(acc * s[0]), s[1..])
  }

  /** `Product` of `int` or `long` values, starting from 1. */
  function Product(s: seq<int>): (r: int)
    ensures r == Wrap64(Prod(s))
  {
    ProductFromWraps(1, s);
    ProductFrom(1, s)
  }

  lemma {:induction false} ProductFromWraps(acc: int, s: seq<int>)
    requires IsInt64(acc)
    ensures ProductFrom(acc, s) == Wrap64(acc * Prod(s))
    decreases |s|
  {
    if |s| > 0 {
      ProductFromWraps(Wrap64(acc * s[0]), s[1..]);
      Wrap64Mul(acc * s[0], Prod(s[1..]));
      assert acc * s[0] * Prod(s[1..]) == acc * Prod(s);
    }
  }

  /** `Product` is the exact product wrapped to 64 bits, so it is exact whenever the product fits a `long`. */
  lemma ProductIsWrappedProd(s: seq<int>)
    ensures Product(s) == Wrap64(Prod(s))
    ensures IsInt64(Prod(s)) ==> Product(s) == Prod(s)
  {
    ProductFromWraps(1, s);
  }

  /**
   * `OneBasedModulo` on `int`: `(x + ringSize - 1) % ringSize + 1` with an
   * unchecked sum, a truncating remainder and an unchecked `+ 1` (which
   * wraps only for the ring size `int.MinValue`); a ring size of 0 divides
   * by zero and `int.MinValue % -1` overflows.
   */
  function OneBasedModulo32(x: int, ringSize: int): (r: Result<int>)
    requires IsInt32(x) && IsInt32(ringSize)
    ensures r.Err? <==> ringSize == 0 || (ringSize == -1 && Wrap32(x + ringSize - 1) == -TWO_31)
    ensures r.Ok? ==> IsInt32(r.value)
  {
    var t := Wrap32(x + ringSize - 1);
    if ringSize == 0 then Err(DivideByZero)
    else if ringSize == -1 && t == -TWO_31 then Err(Overflow)
    else Ok(Wrap32(Rem(t, ringSize) + 1))
  }

  /** `OneBasedModulo` on `long` with an `int` ring size, in 64-bit arithmetic. */
  function OneBasedModulo64(x: int, ringSize: int): (r: Result<int>)
    requires IsInt64(x) && IsInt32(ringSize)
    ensures r.Err? <==> ringSize == 0 || (ringSize == -1 && Wrap64(x + ringSize - 1) == -TWO_63)
    ensures r.Ok? ==> IsInt64(r.value)
  {
    var t := Wrap64(x + ringSize - 1);
    if ringSize == 0 then Err(DivideByZero)
    else if ringSize == -1 && t == -TWO_63 then Err(Overflow)
    else Ok(Rem(t, ringSize) + 1)
  }

  /** When `x + r - 1` is a non-negative sum that does not wrap, the result lies in `1..r` and is congruent to `x`. */
  lemma OneBasedInRange(t: int, x: int, ringSize: int)
    requires ringSize > 0 && t == x + ringSize - 1 && t >= 0
    ensures 1 <= Rem(t, ringSize) + 1 <= ringSize
    ensures (Rem(t, ringSize) + 1 - x) % ringSize == 0
  {
    RemOfNonNegative(t, ringSize);
    var q := t / ringSize;
    DivUnique(Rem(t, ringSize) + 1 - x, ringSize, 1 - q, 0);
  }

  lemma OneBasedModulo32InRange(x: int, ringSize: int)
    requires IsInt32(x) && IsInt32(ringSize) && ringSize > 0 && 0 <= x + ringSize - 1 < TWO_31
    ensures OneBasedModulo32(x, ringSize).Ok?
    ensures var r := OneBasedModulo32(x, ringSize).value; 1 <= r <= ringSize && (r - x) % ringSize == 0
  {
    OneBasedInRange(x + ringSize - 1, x, ringSize);
  }

  lemma OneBasedModulo64InRange(x: int, ringSize: int)
    requires IsInt64(x) && IsInt32(ringSize) && ringSize > 0 && 0 <= x + ringSize - 1 < TWO_63
    ensures OneBasedModulo64(x, ringSize).Ok?
    ensures var r := OneBasedModulo64(x, ringSize).value; 1 <= r <= ringSize && (r - x) % ringSize == 0
  {
    OneBasedInRange(x + ringSize - 1, x, ringSize);
  }

  /** Below the guarded range the truncating remainder leaves `1..r`: `-6` in a ring of 3 gives 0. */
  lemma OneBasedModuloNegative()
    ensures OneBasedModulo32(-6, 3) == Ok(0)
  {
    var r := Rem(-4, 3);
    assert -4 == Div(-4, 3) * 3 + r;
  }

  /** The final `+ 1` wraps for the ring size `int.MinValue`: 0 in that ring gives `int.MinValue`. */
  lemma OneBasedModuloMinRing()
    ensures OneBasedModulo32(0, -TWO_31) == Ok(-TWO_31)
  {
    var r := Rem(TWO_31 - 1, -TWO_31);
    RemOfNonNegative(TWO_31 - 1, -TWO_31);
    DivUnique(TWO_31 - 1, TWO_31, 0, TWO_31 - 1);
  }
}
