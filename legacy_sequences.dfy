/**
 * LinqHelpers.cs at the repository root: the older sequence helpers. Its
 * pair, triple, sized-chunk, prefix-sum, search and dictionary helpers are
 * the same code as the current ones (modules Sequences and Dictionaries);
 * its equality `Chunks` differs in yielding no chunk for an empty input.
 */
module LegacySequences {
  import opened Sequences

  /**
   * The older `Chunks`: the current chunk is extended while elements equal
   * the reference, closed otherwise, and yielded at the end only when it is
   * non-empty.
   */
  method Chunks<T(==)>(s: seq<T>) returns (r: seq<seq<T>>)
    ensures IsChunking(s, r)
  {
    var done: seq<seq<T>> := [];
    var chunk: seq<T> := [];
    var i := 0;
    while i < |s|
      invariant 0 <= i <= |s| && ChunkState(s, done, chunk, i)
    {
      if |chunk| == 0 || s[i] == chunk[0] {
        ChunkExtend(s, done, chunk, i);
        chunk := chunk + [s[i]];
      } else {
        ChunkClose(s, done, chunk, i);
        done := done + [chunk];
        chunk := [] + [s[i]];
      }
      i := i + 1;
    }
    ChunkFinish(s, done, chunk);
    if |chunk| > 0 {
      r := done + [chunk];
    } else {
      r := done;
    }
  }

  /** On a non-empty input the older and the current `Chunks` give the same chunks; on an empty one, none against one empty chunk. */
  lemma ChunkingsAgree<T>(s: seq<T>, older: seq<seq<T>>, current: seq<seq<T>>)
    requires IsChunking(s, older)
    requires |s| > 0 ==> IsChunking(s, current)
    requires |s| == 0 ==> current == [[]]
    ensures |s| > 0 ==> older == current
    ensures |s| == 0 ==> older == [] && current == [[]]
  {
    if |s| > 0 {
      ChunkingUnique(s, older, current);
    } else if |older| > 0 {
      FlattenLast(older);
    }
  }
}
