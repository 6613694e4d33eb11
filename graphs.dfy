/**
 * Vocabulary shared by the search engines: an implicit graph is nothing but
 * an expander callback that lists the successors of a node, each with the
 * cost of the edge that leads to it.
 */
module Graphs {

  import opened Wrappers

  /** The last element of a non-empty sequence. */
  function Last<T>(s: seq<T>): T
    requires |s| > 0
  {
    s[|s| - 1]
  }

  /** `Enumerable.Reverse`. */
  function Reverse<T>(s: seq<T>): (r: seq<T>)
    ensures |r| == |s|
    ensures forall k | 0 <= k < |s| :: r[k] == s[|s| - 1 - k]
  {
    if s == [] then [] else Reverse(s[1..]) + [s[0]]
  }

  function Sum(s: seq<nat>): nat
  {
    if s == [] then 0 else Sum(s[..|s| - 1]) + s[|s| - 1]
  }

  /**
   * `steps` is a walk through the graph whose k-th edge costs `costs[k]`:
   * every step is an expansion of the step before it.
   */
  ghost predicate Walk<N>(expander: N -> seq<(N, nat)>, steps: seq<N>, costs: seq<nat>)
  {
    && |steps| == |costs| + 1
    && forall k | 0 <= k < |costs| :: (steps[k + 1], costs[k]) in expander(steps[k])
  }

  /** No expansion leads out of `s`. */
  ghost predicate Closed<N>(expander: N -> seq<(N, nat)>, s: set<N>)
  {
    forall n, k | n in s && 0 <= k < |expander(n)| :: expander(n)[k].0 in s
  }

  /**
   * The successors the combiner constructors of the older searches derive
   * from a node's edges: combiner(node, edge) for each edge, dropping the
   * edges the combiner maps to null.
   */
  function Combined<N, E, M>(n: N, edges: seq<E>, combiner: (N, E) -> Option<M>): seq<M>
  {
    if edges == [] then []
    else
      var rest := Combined(n, edges[1..], combiner);
      match combiner(n, edges[0])
      case Some(m) => [m] + rest
      case None => rest
  }

  /** The expander of the combiner constructor. */
  function Combine<N, E>(edges: N -> seq<E>, combiner: (N, E) -> Option<N>): N -> seq<N>
  {
    n => Combined(n, edges(n), combiner)
  }

  /** A node is a combined successor exactly when the combiner makes it from one of the edges. */
  lemma {:induction false} CombinedSpec<N, E, M>(n: N, edges: seq<E>, combiner: (N, E) -> Option<M>, m: M)
    ensures m in Combined(n, edges, combiner) <==> exists k | 0 <= k < |edges| :: combiner(n, edges[k]) == Some(m)
    ensures |Combined(n, edges, combiner)| <= |edges|
  {
    if edges != [] {
      var t := edges[1..];
      CombinedSpec(n, t, combiner, m);
      if m in Combined(n, t, combiner) {
        var k :| 0 <= k < |t| && combiner(n, t[k]) == Some(m);
        assert edges[k + 1] == t[k];
      }
      if exists k | 0 <= k < |edges| :: combiner(n, edges[k]) == Some(m) {
        var k :| 0 <= k < |edges| && combiner(n, edges[k]) == Some(m);
        if k > 0 {
          assert t[k - 1] == edges[k];
        }
      }
    }
  }

  /**
   * The combiner of the older weighted search, lifted to weighted edges: the
   * combined node keeps the cost of its edge.
   */
  function Weighted<N, E>(combiner: (N, E) -> Option<N>): (N, (E, nat)) -> Option<(N, nat)>
  {
    (n: N, edge: (E, nat)) =>
      match combiner(n, edge.0)
      case Some(m) => Some((m, edge.1))
      case None => None
  }

  /** The expander of the weighted combiner constructor. */
  function CombineWeighted<N, E>(edges: N -> seq<(E, nat)>, combiner: (N, E) -> Option<N>): N -> seq<(N, nat)>
  {
    n => Combined(n, edges(n), Weighted(combiner))
  }

  /** A weighted successor is a combined edge with the cost that edge carries. */
  lemma WeightedSpec<N, E>(n: N, edges: seq<(E, nat)>, combiner: (N, E) -> Option<N>, m: N, c: nat)
    ensures (m, c) in Combined(n, edges, Weighted(combiner)) <==>
      exists k | 0 <= k < |edges| :: combiner(n, edges[k].0) == Some(m) && edges[k].1 == c
  {
    CombinedSpec(n, edges, Weighted(combiner), (m, c));
    if exists k | 0 <= k < |edges| :: combiner(n, edges[k].0) == Some(m) && edges[k].1 == c {
      var k :| 0 <= k < |edges| && combiner(n, edges[k].0) == Some(m) && edges[k].1 == c;
      assert Weighted(combiner)(n, edges[k]) == Some((m, c));
    }
  }
}
