/**
 * The bookkeeping shared by the best-first searches (A* and Dijkstra).
 *
 * Every record that leaves the queue is appended to an arena; a record's
 * predecessor is the arena index of the record it was expanded from, so
 * `GetHistory` is a walk back along those indices to the origin, and a
 * path is that walk reversed.  The step relation `step` is the expander of
 * the search (Dijkstra's multi-origin seeding adapts it, see Dijkstra).
 */
module SearchArena {

  import opened Wrappers
  import opened Graphs

  /** A search record: a node, its predecessor's arena index and the cost of the route to it. */
  datatype Record<N> = Record(item: N, pred: Option<nat>, cost: nat)

  /**
   * `IPath`: the reached node, the number of edges, the nodes from the
   * origin to the target and the cost of the route.
   */
  datatype Path<N> = Path(target: N, length: int, steps: seq<N>, cost: nat)

  function Max(a: int, b: int): int { if a < b then b else a }

  /** Every predecessor index points at an earlier arena entry. */
  predicate Ordered<N>(arena: seq<Record<N>>)
  {
    forall i | 0 <= i < |arena| && arena[i].pred.Some? :: arena[i].pred.value < i
  }

  /** `GetHistory`: the record's node, its predecessor's, and so on back to the origin. */
  function History<N>(arena: seq<Record<N>>, i: nat): (h: seq<N>)
    requires Ordered(arena) && i < |arena|
    ensures |h| > 0 && h[0] == arena[i].item
    decreases i
  {
    match arena[i].pred
    case None => [arena[i].item]
    case Some(p) => [arena[i].item] + History(arena, p)
  }

  /** The path constructor for a single node: no edge, no cost. */
  function SingleNodePath<N>(n: N): (p: Path<N>)
    ensures p.steps == [p.target] && p.target == n && p.length == 0
  {
    Path(n, 0, [n], 0)
  }

  /** The path constructor for a record: the history reversed, its length in edges, the record's cost. */
  function PathOf<N>(arena: seq<Record<N>>, i: nat): Path<N>
    requires Ordered(arena) && i < |arena|
  {
    var steps := Reverse(History(arena, i));
    Path(arena[i].item, |steps| - 1, steps, arena[i].cost)
  }

  function Targets<N>(paths: seq<Path<N>>): set<N>
  {
    set j | 0 <= j < |paths| :: paths[j].target
  }

  /**
   * How every record is made: the origin has cost 0 and no predecessor; any
   * other record costs its predecessor's cost plus the cost of a step the
   * relation offers from the predecessor's node.
   */
  ghost predicate Linked<N>(step: N -> seq<(N, nat)>, initial: N, arena: seq<Record<N>>, r: Record<N>)
  {
    match r.pred
    case None => r.item == initial && r.cost == 0
    case Some(p) =>
      p < |arena| && arena[p].cost <= r.cost && (r.item, r.cost - arena[p].cost) in step(arena[p].item)
  }

  /** Every arena record is made from the records before it. */
  ghost predicate ArenaOk<N>(step: N -> seq<(N, nat)>, initial: N, arena: seq<Record<N>>)
  {
    && Ordered(arena)
    && forall i | 0 <= i < |arena| :: Linked(step, initial, arena[..i], arena[i])
  }

  /** The cost of each edge along the predecessor chain, origin first. */
  ghost function EdgeCosts<N>(step: N -> seq<(N, nat)>, initial: N, arena: seq<Record<N>>, i: nat): seq<nat>
    requires ArenaOk(step, initial, arena) && i < |arena|
    decreases i
  {
    assert Linked(step, initial, arena[..i], arena[i]);
    match arena[i].pred
    case None => []
    case Some(p) => EdgeCosts(step, initial, arena, p) + [arena[i].cost - arena[p].cost]
  }

  /** A reported path: from the origin to a target along the step relation, at the stated cost. */
  ghost predicate IsResult<N>(step: N -> seq<(N, nat)>, initial: N, isTarget: N -> bool, p: Path<N>, costs: seq<nat>)
  {
    && |p.steps| > 0
    && p.steps[0] == initial
    && Last(p.steps) == p.target
    && isTarget(p.target)
    && p.length == |p.steps| - 1
    && Walk(step, p.steps, costs)
    && p.cost == Sum(costs)
  }

  /** The path of any arena record runs from the origin to the record along the step relation. */
  lemma {:induction false} PathOfIsWalk<N>(step: N -> seq<(N, nat)>, initial: N, arena: seq<Record<N>>, i: nat)
    requires ArenaOk(step, initial, arena) && i < |arena|
    ensures var p := PathOf(arena, i);
      && p.steps[0] == initial && Last(p.steps) == p.target == arena[i].item
      && p.length == |p.steps| - 1
      && Walk(step, p.steps, EdgeCosts(step, initial, arena, i))
      && p.cost == Sum(EdgeCosts(step, initial, arena, i))
    decreases i
  {
    assert Linked(step, initial, arena[..i], arena[i]);
    var h := History(arena, i);
    match arena[i].pred
    case None =>
    case Some(p) =>
      PathOfIsWalk(step, initial, arena, p);
      var hp := History(arena, p);
      assert h[1..] == hp;
      assert Reverse(h) == Reverse(hp) + [arena[i].item];
      var cp := EdgeCosts(step, initial, arena, p);
      var c := arena[i].cost - arena[p].cost;
      assert EdgeCosts(step, initial, arena, i) == cp + [c];
      assert (cp + [c])[..|cp|] == cp;
  }

  function ItemsOf<N>(arena: seq<Record<N>>): set<N>
  {
    set i | 0 <= i < |arena| :: arena[i].item
  }

  predicate DistinctItems<N(==)>(arena: seq<Record<N>>)
  {
    forall i, j | 0 <= i < j < |arena| :: arena[i].item != arena[j].item
  }

  /** An arena with distinct nodes holds as many nodes as records. */
  lemma {:induction false} ItemsOfCard<N>(arena: seq<Record<N>>)
    requires DistinctItems(arena)
    ensures |ItemsOf(arena)| == |arena|
  {
    if arena != [] {
      var init := arena[..|arena| - 1];
      ItemsOfCard(init);
      assert ItemsOf(arena) == ItemsOf(init) + {Last(arena).item};
      assert Last(arena).item !in ItemsOf(init);
    }
  }

  /** Every record's node lies in any closed set that holds the initial node. */
  lemma {:induction false} ArenaInClosed<N>(step: N -> seq<(N, nat)>, initial: N, arena: seq<Record<N>>,
                                            s: set<N>, i: nat)
    requires ArenaOk(step, initial, arena) && i < |arena|
    requires initial in s && Closed(step, s)
    ensures arena[i].item in s
    decreases i
  {
    assert Linked(step, initial, arena[..i], arena[i]);
    match arena[i].pred
    case None =>
    case Some(p) =>
      ArenaInClosed(step, initial, arena, s, p);
      var e := (arena[i].item, arena[i].cost - arena[p].cost);
      var k :| 0 <= k < |step(arena[p].item)| && step(arena[p].item)[k] == e;
  }

  /** The arena's nodes lie in every closed set that holds the initial node. */
  lemma ItemsInClosed<N>(step: N -> seq<(N, nat)>, initial: N, arena: seq<Record<N>>)
    requires ArenaOk(step, initial, arena)
    ensures forall s: set<N> | initial in s && Closed(step, s) :: ItemsOf(arena) <= s
  {
    forall s: set<N> | initial in s && Closed(step, s) ensures ItemsOf(arena) <= s {
      forall i | 0 <= i < |arena| ensures arena[i].item in s {
        ArenaInClosed(step, initial, arena, s, i);
      }
    }
  }

  /** Appending a record leaves the history of every earlier record alone. */
  lemma {:induction false} HistoryExtend<N>(arena: seq<Record<N>>, x: Record<N>, i: nat)
    requires Ordered(arena + [x]) && i < |arena|
    ensures Ordered(arena) && History(arena + [x], i) == History(arena, i)
    decreases i
  {
    assert forall j | 0 <= j < |arena| :: (arena + [x])[j] == arena[j];
    match arena[i].pred
    case None =>
    case Some(p) => HistoryExtend(arena, x, p);
  }

  /**
   * Appending a well-made record keeps the arena well made, keeps every
   * record that was well made so, and leaves the path of every earlier
   * record alone.
   */
  lemma AppendPopped<N>(step: N -> seq<(N, nat)>, initial: N, arena: seq<Record<N>>, x: Record<N>)
    requires ArenaOk(step, initial, arena) && Linked(step, initial, arena, x)
    ensures ArenaOk(step, initial, arena + [x])
    ensures forall r | Linked(step, initial, arena, r) :: Linked(step, initial, arena + [x], r)
    ensures forall i | 0 <= i < |arena| :: PathOf(arena + [x], i) == PathOf(arena, i)
  {
    var a := arena + [x];
    assert a[..|arena|] == arena;
    assert forall i | 0 <= i < |arena| :: a[..i] == arena[..i] && a[i] == arena[i];
    forall i | 0 <= i < |arena| ensures PathOf(a, i) == PathOf(arena, i) {
      HistoryExtend(arena, x, i);
    }
  }

  /** A record's history lies within any prefix of the arena that holds the record. */
  lemma {:induction false} HistoryPrefix<N>(arena: seq<Record<N>>, m: nat, i: nat)
    requires Ordered(arena) && i < m <= |arena|
    ensures Ordered(arena[..m]) && History(arena[..m], i) == History(arena, i)
    decreases i
  {
    assert forall j | 0 <= j < m :: arena[..m][j] == arena[j];
    match arena[i].pred
    case None =>
    case Some(p) => HistoryPrefix(arena, m, p);
  }

  lemma ItemsConcat<N>(a: seq<Record<N>>, b: seq<Record<N>>)
    ensures ItemsOf(a + b) == ItemsOf(a) + ItemsOf(b)
  {
    var c := a + b;
    forall n | n in ItemsOf(a) + ItemsOf(b) ensures n in ItemsOf(c) {
      if n in ItemsOf(a) {
        var i :| 0 <= i < |a| && a[i].item == n;
        assert c[i] == a[i];
      } else {
        var i :| 0 <= i < |b| && b[i].item == n;
        assert c[|a| + i] == b[i];
      }
    }
  }

  lemma DistinctConcat<N>(a: seq<Record<N>>, b: seq<Record<N>>)
    requires DistinctItems(a) && DistinctItems(b)
    requires forall q | 0 <= q < |b| :: b[q].item !in ItemsOf(a)
    ensures DistinctItems(a + b)
  {
    var c := a + b;
    forall i, j | 0 <= i < j < |c| ensures c[i].item != c[j].item {
      if i < |a| && j >= |a| {
        assert c[i] == a[i] && c[j] == b[j - |a|];
      } else if i >= |a| {
        assert c[i] == b[i - |a|] && c[j] == b[j - |a|];
      }
    }
  }

  /**
   * Appending records that are each well made from the arena keeps the arena
   * well made (a whole breadth-first layer at once).
   */
  lemma AppendAll<N>(step: N -> seq<(N, nat)>, initial: N, arena: seq<Record<N>>, layer: seq<Record<N>>)
    requires ArenaOk(step, initial, arena)
    requires forall k | 0 <= k < |layer| :: Linked(step, initial, arena, layer[k])
    ensures ArenaOk(step, initial, arena + layer)
  {
    var a := arena + layer;
    forall i | 0 <= i < |a| ensures Linked(step, initial, a[..i], a[i]) {
      if i < |arena| {
        assert a[..i] == arena[..i] && a[i] == arena[i];
      } else {
        var r := layer[i - |arena|];
        assert Linked(step, initial, arena, r) && a[i] == r;
        if r.pred.Some? {
          assert a[..i][r.pred.value] == arena[r.pred.value];
        }
      }
    }
    forall i | 0 <= i < |a| && a[i].pred.Some? ensures a[i].pred.value < i {
      if i >= |arena| {
        assert Linked(step, initial, arena, layer[i - |arena|]);
      }
    }
  }

  /**
   * The records `arena[..n]` have been reported; visiting record `n` reports
   * it when it is a target.
   */
  lemma ReportOne<N>(arena: seq<Record<N>>, n: nat, isTarget: N -> bool, results: seq<Path<N>>, idx: seq<nat>)
    requires Ordered(arena) && DistinctItems(arena) && n < |arena|
    requires ResultsOk(arena[..n], isTarget, results, idx)
    ensures isTarget(arena[n].item) ==>
      ResultsOk(arena[..n + 1], isTarget, results + [PathOf(arena, n)], idx + [n])
    ensures !isTarget(arena[n].item) ==> ResultsOk(arena[..n + 1], isTarget, results, idx)
  {
    var a := arena[..n];
    var x := arena[n];
    assert a + [x] == arena[..n + 1];
    HistoryPrefix(arena, n + 1, n);
    assert PathOf(a + [x], n) == PathOf(arena, n);
    assert x.item !in ItemsOf(a);
    ResultsAppend(a, x, isTarget, results, idx);
  }

  /** Every step from every arena record leads into `seen`. */
  ghost predicate Expanded<N>(step: N -> seq<(N, nat)>, arena: seq<Record<N>>, seen: set<N>)
  {
    forall i, k | 0 <= i < |arena| && 0 <= k < |step(arena[i].item)| :: step(arena[i].item)[k].0 in seen
  }

  /** A set of arena nodes that every step out of the arena stays in is closed. */
  lemma ExpandedClosed<N>(step: N -> seq<(N, nat)>, arena: seq<Record<N>>, visited: set<N>)
    requires visited == ItemsOf(arena) && Expanded(step, arena, visited)
    ensures Closed(step, visited)
  {
    forall n, k | n in visited && 0 <= k < |step(n)| ensures step(n)[k].0 in visited {
      var i :| 0 <= i < |arena| && arena[i].item == n;
    }
  }

  lemma ExpandedGrow<N>(step: N -> seq<(N, nat)>, arena: seq<Record<N>>, x: Record<N>, s1: set<N>, s2: set<N>)
    requires Expanded(step, arena, s1) && s1 <= s2
    requires forall k | 0 <= k < |step(x.item)| :: step(x.item)[k].0 in s2
    ensures Expanded(step, arena + [x], s2)
  {
    forall i, k | 0 <= i < |arena| + 1 && 0 <= k < |step((arena + [x])[i].item)|
      ensures step((arena + [x])[i].item)[k].0 in s2
    {
      if i < |arena| {
        assert (arena + [x])[i] == arena[i];
      }
    }
  }

  /** The paths of the arena records `idx`. */
  function PathsOf<N>(arena: seq<Record<N>>, idx: seq<nat>): (paths: seq<Path<N>>)
    requires Ordered(arena) && forall j | 0 <= j < |idx| :: idx[j] < |arena|
    ensures |paths| == |idx|
  {
    seq(|idx|, j requires 0 <= j < |idx| => PathOf(arena, idx[j]))
  }

  /**
   * The reported paths are the paths of the arena records `idx`, in arena
   * order, and every target in the arena is among them.
   */
  ghost predicate ResultsOk<N>(arena: seq<Record<N>>, isTarget: N -> bool, results: seq<Path<N>>, idx: seq<nat>)
  {
    && Ordered(arena)
    && (forall j | 0 <= j < |idx| :: idx[j] < |arena| && isTarget(arena[idx[j]].item))
    && results == PathsOf(arena, idx)
    && (forall i, j | 0 <= i < j < |idx| :: idx[i] < idx[j])
    && (forall i | 0 <= i < |arena| && isTarget(arena[i].item) :: i in idx)
  }

  /** Appending a record whose node is new, and reporting it when it is a target. */
  lemma ResultsAppend<N>(arena: seq<Record<N>>, x: Record<N>, isTarget: N -> bool,
                         results: seq<Path<N>>, idx: seq<nat>)
    requires ResultsOk(arena, isTarget, results, idx) && Ordered(arena + [x])
    requires DistinctItems(arena) && x.item !in ItemsOf(arena)
    ensures ItemsOf(arena + [x]) == ItemsOf(arena) + {x.item}
    ensures DistinctItems(arena + [x])
    ensures isTarget(x.item) ==>
      ResultsOk(arena + [x], isTarget, results + [PathOf(arena + [x], |arena|)], idx + [|arena|])
    ensures !isTarget(x.item) ==> ResultsOk(arena + [x], isTarget, results, idx)
  {
    var a := arena + [x];
    assert forall i | 0 <= i < |arena| :: a[i] == arena[i];
    forall i | 0 <= i < |arena| ensures PathOf(a, i) == PathOf(arena, i) {
      HistoryExtend(arena, x, i);
    }
    assert ItemsOf(a) == ItemsOf(arena) + {x.item} by {
      assert a[|arena|] == x;
    }
    assert PathsOf(a, idx) == PathsOf(arena, idx);
    if isTarget(x.item) {
      assert PathsOf(a, idx + [|arena|]) == PathsOf(arena, idx) + [PathOf(a, |arena|)];
    }
  }

  /** The edge costs of each reported path. */
  ghost function ResultCosts<N>(step: N -> seq<(N, nat)>, initial: N, arena: seq<Record<N>>, idx: seq<nat>)
    : (c: seq<seq<nat>>)
    requires ArenaOk(step, initial, arena)
    requires forall j | 0 <= j < |idx| :: idx[j] < |arena|
    ensures |c| == |idx|
    ensures forall j | 0 <= j < |idx| :: c[j] == EdgeCosts(step, initial, arena, idx[j])
  {
    seq(|idx|, j requires 0 <= j < |idx| => EdgeCosts(step, initial, arena, idx[j]))
  }

  /** What a search promises of its list, derived from the arena it built. */
  lemma ResultsSound<N>(step: N -> seq<(N, nat)>, initial: N, isTarget: N -> bool,
                        arena: seq<Record<N>>, results: seq<Path<N>>, idx: seq<nat>)
    requires ArenaOk(step, initial, arena) && DistinctItems(arena)
    requires ResultsOk(arena, isTarget, results, idx)
    ensures forall j | 0 <= j < |results| ::
      IsResult(step, initial, isTarget, results[j], ResultCosts(step, initial, arena, idx)[j])
    ensures forall i, j | 0 <= i < j < |results| :: results[i].target != results[j].target
    ensures forall n | n in ItemsOf(arena) && isTarget(n) :: n in Targets(results)
  {
    var c := ResultCosts(step, initial, arena, idx);
    forall j | 0 <= j < |results| ensures IsResult(step, initial, isTarget, results[j], c[j]) {
      assert results[j] == PathOf(arena, idx[j]);
      PathOfIsWalk(step, initial, arena, idx[j]);
    }
    forall i, j | 0 <= i < j < |results| ensures results[i].target != results[j].target {
      assert results[i] == PathOf(arena, idx[i]) && results[j] == PathOf(arena, idx[j]);
    }
    forall n | n in ItemsOf(arena) && isTarget(n) ensures n in Targets(results) {
      var i :| 0 <= i < |arena| && arena[i].item == n;
      var j :| 0 <= j < |idx| && idx[j] == i;
      assert results[j] == PathOf(arena, idx[j]);
    }
  }

  /** The record a step from the record at `predIdx` makes: the predecessor's cost plus the step's. */
  function Child<N>(pred: Record<N>, predIdx: nat, edge: (N, nat)): (c: Record<N>)
    ensures c.item == edge.0 && c.pred == Some(predIdx) && c.cost == pred.cost + edge.1
  {
    Record(edge.0, Some(predIdx), pred.cost + edge.1)
  }

  /**
   * The expansion of a record: a record per step to a node not yet visited
   * (`Where(...).Select(...)`), in the expander's order.
   */
  function Children<N(==)>(succ: seq<(N, nat)>, visited: set<N>, cur: Record<N>, curIdx: nat): seq<Record<N>>
  {
    if succ == [] then []
    else
      var rest := Children(succ[1..], visited, cur, curIdx);
      if succ[0].0 in visited then rest else [Child(cur, curIdx, succ[0])] + rest
  }

  /**
   * `Children` holds a record for every step to an unvisited node and
   * nothing else: each is a child of the expanded record through one of its
   * steps.
   */
  lemma {:induction false} ChildrenSpec<N>(succ: seq<(N, nat)>, visited: set<N>, cur: Record<N>, curIdx: nat)
    ensures var c := Children(succ, visited, cur, curIdx);
      forall k | 0 <= k < |c| ::
        c[k].item !in visited && exists j | 0 <= j < |succ| :: c[k] == Child(cur, curIdx, succ[j])
    ensures var c := Children(succ, visited, cur, curIdx);
      forall j | 0 <= j < |succ| && succ[j].0 !in visited :: Child(cur, curIdx, succ[j]) in c
  {
    if succ != [] {
      var t := succ[1..];
      ChildrenSpec(t, visited, cur, curIdx);
      var c := Children(succ, visited, cur, curIdx);
      var rest := Children(t, visited, cur, curIdx);
      var d := if succ[0].0 in visited then 0 else 1;
      assert c[d..] == rest;
      forall k | 0 <= k < |c|
        ensures c[k].item !in visited && exists j | 0 <= j < |succ| :: c[k] == Child(cur, curIdx, succ[j])
      {
        if k < d {
          assert c[k] == Child(cur, curIdx, succ[0]);
        } else {
          assert c[k] == rest[k - d];
          var j :| 0 <= j < |t| && rest[k - d] == Child(cur, curIdx, t[j]);
          assert t[j] == succ[j + 1];
        }
      }
      forall j | 0 <= j < |succ| && succ[j].0 !in visited ensures Child(cur, curIdx, succ[j]) in c {
        if j > 0 {
          assert succ[j] == t[j - 1];
          assert Child(cur, curIdx, t[j - 1]) in rest;
        }
      }
    }
  }

  /**
   * What a search promises of every path in its list `paths` (with the edge
   * costs `costs` of each): it is a genuine route from `initial` to a target
   * at its stated cost, and no target is reported twice.
   */
  ghost predicate Reports<N>(step: N -> seq<(N, nat)>, initial: N, isTarget: N -> bool,
                             paths: seq<Path<N>>, costs: seq<seq<nat>>)
  {
    && |costs| == |paths|
    && (forall j | 0 <= j < |paths| :: IsResult(step, initial, isTarget, paths[j], costs[j]))
    && (forall i, j | 0 <= i < j < |paths| :: paths[i].target != paths[j].target)
  }

  /** The whole region reachable from `initial` was explored and every target in it was reported. */
  ghost predicate Exhaustive<N>(step: N -> seq<(N, nat)>, initial: N, isTarget: N -> bool,
                                paths: seq<Path<N>>, explored: set<N>)
  {
    && initial in explored && Closed(step, explored)
    && forall n | n in explored && isTarget(n) :: n in Targets(paths)
  }

  /**
   * What a successful best-first search promises of its list: its paths are
   * reported correctly, at most `minResults` of them come back (one when
   * `minResults` is not positive), and a short list means the search was
   * exhaustive.
   */
  ghost predicate Answer<N>(step: N -> seq<(N, nat)>, initial: N, isTarget: N -> bool, minResults: int,
                            paths: seq<Path<N>>, explored: set<N>, costs: seq<seq<nat>>)
  {
    && Reports(step, initial, isTarget, paths, costs)
    && |paths| <= Max(minResults, 1)
    && (|paths| < minResults ==> Exhaustive(step, initial, isTarget, paths, explored))
  }

  /**
   * The reported records of a well-made arena make a correct report; when
   * the origin was visited and every step out of the arena stays in it, the
   * report is exhaustive.
   */
  lemma Complete<N>(step: N -> seq<(N, nat)>, initial: N, isTarget: N -> bool,
                    arena: seq<Record<N>>, visited: set<N>, results: seq<Path<N>>, idx: seq<nat>)
    returns (costs: seq<seq<nat>>)
    requires ArenaOk(step, initial, arena) && DistinctItems(arena) && visited == ItemsOf(arena)
    requires ResultsOk(arena, isTarget, results, idx)
    ensures Reports(step, initial, isTarget, results, costs)
    ensures initial in visited && Expanded(step, arena, visited) ==>
      Exhaustive(step, initial, isTarget, results, visited)
    ensures forall s: set<N> | initial in s && Closed(step, s) :: visited <= s
  {
    ResultsSound(step, initial, isTarget, arena, results, idx);
    ItemsInClosed(step, initial, arena);
    costs := ResultCosts(step, initial, arena, idx);
  }

  /** The search state at the end of a best-first search yields its answer. */
  lemma Conclude<N>(step: N -> seq<(N, nat)>, initial: N, isTarget: N -> bool, minResults: int,
                    arena: seq<Record<N>>, visited: set<N>, results: seq<Path<N>>, idx: seq<nat>)
    returns (costs: seq<seq<nat>>)
    requires ArenaOk(step, initial, arena) && DistinctItems(arena) && visited == ItemsOf(arena)
    requires ResultsOk(arena, isTarget, results, idx)
    requires |results| <= Max(minResults, 1)
    requires |results| < minResults ==> initial in visited && Expanded(step, arena, visited)
    ensures Answer(step, initial, isTarget, minResults, results, visited, costs)
    ensures forall s: set<N> | initial in s && Closed(step, s) :: visited <= s
  {
    costs := Complete(step, initial, isTarget, arena, visited, results, idx);
  }

  /** `w` is a walk from `initial` to `n` whose k-th edge costs `cs[k]`. */
  ghost predicate WalkTo<N>(step: N -> seq<(N, nat)>, initial: N, n: N, w: seq<N>, cs: seq<nat>)
  {
    |w| == |cs| + 1 && Walk(step, w, cs) && w[0] == initial && Last(w) == n
  }

  /** No walk from `initial` to `n` costs less than `cost`. */
  ghost predicate Cheapest<N(!new)>(step: N -> seq<(N, nat)>, initial: N, n: N, cost: nat)
  {
    forall w: seq<N>, cs: seq<nat> | WalkTo(step, initial, n, w, cs) :: cost <= Sum(cs)
  }

  /** Every arena record carries the cost of a cheapest walk to its node. */
  ghost predicate ArenaCheapest<N(!new)>(step: N -> seq<(N, nat)>, initial: N, arena: seq<Record<N>>)
  {
    forall i | 0 <= i < |arena| :: Cheapest(step, initial, arena[i].item, arena[i].cost)
  }

  /** Records enter the arena in order of cost. */
  predicate CostOrdered<N>(arena: seq<Record<N>>)
  {
    forall i, j | 0 <= i < j < |arena| :: arena[i].cost <= arena[j].cost
  }

  /** Every path costs no more than any walk from `initial` to its target. */
  ghost predicate AllCheapest<N(!new)>(step: N -> seq<(N, nat)>, initial: N, paths: seq<Path<N>>)
  {
    forall j | 0 <= j < |paths| :: Cheapest(step, initial, paths[j].target, paths[j].cost)
  }

  /** Every path is a cheapest route to its target, and the paths come cheapest first. */
  ghost predicate Shortest<N(!new)>(step: N -> seq<(N, nat)>, initial: N, paths: seq<Path<N>>)
  {
    && AllCheapest(step, initial, paths)
    && (forall i, j | 0 <= i < j < |paths| :: paths[i].cost <= paths[j].cost)
  }

  /** Appending a cheapest record keeps the arena cheapest. */
  lemma CheapestAppend<N(!new)>(step: N -> seq<(N, nat)>, initial: N, arena: seq<Record<N>>, x: Record<N>)
    requires ArenaCheapest(step, initial, arena) && Cheapest(step, initial, x.item, x.cost)
    ensures ArenaCheapest(step, initial, arena + [x])
  {
    var a := arena + [x];
    assert forall i | 0 <= i < |arena| :: a[i] == arena[i];
  }

  /** The paths reported from an arena of cheapest records are cheapest. */
  lemma ResultsCheapest<N(!new)>(step: N -> seq<(N, nat)>, initial: N, isTarget: N -> bool,
                                 arena: seq<Record<N>>, results: seq<Path<N>>, idx: seq<nat>)
    requires ResultsOk(arena, isTarget, results, idx)
    requires ArenaCheapest(step, initial, arena)
    ensures AllCheapest(step, initial, results)
    ensures forall j | 0 <= j < |results| ::
      results[j].target == arena[idx[j]].item && results[j].cost == arena[idx[j]].cost
  {
    forall j | 0 <= j < |results|
      ensures results[j].target == arena[idx[j]].item && results[j].cost == arena[idx[j]].cost
    {
      assert results[j] == PathOf(arena, idx[j]);
    }
  }

  /** The paths reported from an arena of cheapest records, in cost order, are shortest and sorted by cost. */
  lemma ResultsShortest<N(!new)>(step: N -> seq<(N, nat)>, initial: N, isTarget: N -> bool,
                                 arena: seq<Record<N>>, results: seq<Path<N>>, idx: seq<nat>)
    requires ResultsOk(arena, isTarget, results, idx)
    requires ArenaCheapest(step, initial, arena) && CostOrdered(arena)
    ensures Shortest(step, initial, results)
  {
    ResultsCheapest(step, initial, isTarget, arena, results, idx);
  }

  /** A non-empty arena holds the origin. */
  lemma OriginInArena<N>(step: N -> seq<(N, nat)>, initial: N, arena: seq<Record<N>>)
    requires ArenaOk(step, initial, arena)
    ensures arena != [] ==> initial in ItemsOf(arena)
  {
    if arena != [] {
      assert Linked(step, initial, arena[..0], arena[0]);
    }
  }

  /** The cost of a prefix grows by the next edge. */
  lemma SumSnoc(s: seq<nat>, j: nat)
    requires 0 < j <= |s|
    ensures Sum(s[..j]) == Sum(s[..j - 1]) + s[j - 1]
  {
    assert s[..j][..j - 1] == s[..j - 1];
  }

  /** Edge costs are never negative, so a prefix of a walk costs no more than the walk. */
  lemma {:induction false} SumPrefix(s: seq<nat>, j: nat)
    requires j <= |s|
    ensures Sum(s[..j]) <= Sum(s)
    decreases |s| - j
  {
    if j < |s| {
      SumPrefix(s, j + 1);
      SumSnoc(s, j + 1);
    } else {
      assert s[..j] == s;
    }
  }

  /** The first `j + 1` nodes of a walk are a walk from the same start to its j-th node. */
  lemma WalkPrefix<N>(step: N -> seq<(N, nat)>, initial: N, w: seq<N>, cs: seq<nat>, j: nat)
    requires |w| == |cs| + 1 && Walk(step, w, cs) && w[0] == initial && j < |w|
    ensures WalkTo(step, initial, w[j], w[..j + 1], cs[..j])
  {
  }

  /** A walk ending outside `s` has a first node outside `s`. */
  lemma {:induction false} FirstOutside<N>(w: seq<N>, s: set<N>, from: nat) returns (j: nat)
    requires from < |w| && Last(w) !in s
    requires forall k | 0 <= k < from :: w[k] in s
    ensures from <= j < |w| && w[j] !in s
    ensures forall k | 0 <= k < j :: w[k] in s
    decreases |w| - from
  {
    if w[from] !in s {
      j := from;
    } else {
      j := FirstOutside(w, s, from + 1);
    }
  }
}
