/**
 * A* search with decrease-key (`AStarSearch<TNode>` in Core/AStar.cs).
 *
 * The graph is the expander callback.  Every record that leaves the queue is
 * appended to an arena, and a record's predecessor is the arena index of the
 * record it was expanded from; `GetHistory` walks those indices back to the
 * origin.  The queue is an interval heap ordered by the overall estimate,
 * and `openSet` maps each queued node to its heap handle.
 */
module AStar {

  import opened Wrappers
  import opened IntervalHeaps
  import opened Graphs
  import opened SearchArena

  /** `AStarNode`: a node, its predecessor's arena index, the cost so far and the estimated rest. */
  datatype AStarNode<N> = AStarNode(item: N, pred: Option<nat>, cost: nat, remaining: nat)

  /** `OverallEstimate` = Cost + Remaining. */
  function OverallEstimate<N>(n: AStarNode<N>): (r: nat)
    ensures r >= n.cost && r >= n.remaining
  {
    n.cost + n.remaining
  }

  /** The queue's order as a rank on records. */
  function ByEstimate<N>(): AStarNode<N> -> int
  {
    (n: AStarNode<N>) => OverallEstimate(n)
  }

  /** `CompareTo`: a missing other record compares below; otherwise the estimates decide. */
  function CompareTo<N>(n: AStarNode<N>, other: Option<AStarNode<N>>): (c: int)
    ensures other.None? ==> c == 1
    ensures other.Some? ==> (c < 0 <==> OverallEstimate(n) < OverallEstimate(other.value))
    ensures other.Some? ==> (c == 0 <==> OverallEstimate(n) == OverallEstimate(other.value))
  {
    match other
    case None => 1
    case Some(o) =>
      if OverallEstimate(n) < OverallEstimate(o) then -1
      else if OverallEstimate(n) == OverallEstimate(o) then 0
      else 1
  }

  /** The popped record as it goes into the arena. */
  function AsRecord<N>(n: AStarNode<N>): Record<N>
  {
    Record(n.item, n.pred, n.cost)
  }

  /**
   * What holds of the search state right after a record has been popped,
   * appended to the arena, marked visited and reported if it is a target.
   */
  ghost predicate PoppedInv<N>(expander: N -> seq<(N, nat)>, heuristic: N -> nat, initial: N, isTarget: N -> bool,
                               queued: map<Handle, AStarNode<N>>, openSet: map<N, Handle>,
                               arena: seq<Record<N>>, visited: set<N>, results: seq<Path<N>>, idx: seq<nat>)
  {
    && ArenaOk(expander, initial, arena)
    && QueueLinked(expander, heuristic, initial, arena, queued)
    && visited == ItemsOf(arena) && DistinctItems(arena)
    && visited !! openSet.Keys
    && (initial in visited || initial in openSet)
    && ResultsOk(arena, isTarget, results, idx)
  }

  /** The loop invariant of `FindAll`: also, every visited record has been expanded. */
  ghost predicate SearchInv<N>(expander: N -> seq<(N, nat)>, heuristic: N -> nat, initial: N, isTarget: N -> bool,
                               minResults: int, queued: map<Handle, AStarNode<N>>, openSet: map<N, Handle>,
                               arena: seq<Record<N>>, visited: set<N>, results: seq<Path<N>>, idx: seq<nat>)
  {
    && PoppedInv(expander, heuristic, initial, isTarget, queued, openSet, arena, visited, results, idx)
    && Expanded(expander, arena, visited + openSet.Keys)
    && (results == [] || |results| < minResults)
  }

  /** Popping the least record keeps the popped-state facts. */
  lemma PopStep<N>(expander: N -> seq<(N, nat)>, heuristic: N -> nat, initial: N, isTarget: N -> bool, minResults: int,
                   q0: map<Handle, AStarNode<N>>, o0: map<N, Handle>, a0: seq<Record<N>>, v0: set<N>,
                   r0: seq<Path<N>>, i0: seq<nat>, x: AStarNode<N>,
                   q1: map<Handle, AStarNode<N>>, o1: map<N, Handle>, r1: seq<Path<N>>, i1: seq<nat>)
    requires SearchInv(expander, heuristic, initial, isTarget, minResults, q0, o0, a0, v0, r0, i0)
    requires x.item in o0 && o0[x.item] in q0 && q0[o0[x.item]] == x
    requires q1 == q0 - {o0[x.item]} && o1 == o0 - {x.item}
    requires isTarget(x.item) ==> r1 == r0 + [PathOf(a0 + [AsRecord(x)], |a0|)] && i1 == i0 + [|a0|]
    requires !isTarget(x.item) ==> r1 == r0 && i1 == i0
    ensures PoppedInv(expander, heuristic, initial, isTarget, q1, o1, a0 + [AsRecord(x)], v0 + {x.item}, r1, i1)
    ensures Expanded(expander, a0, (v0 + {x.item}) + o1.Keys)
    ensures !isTarget(x.item) || r0 == [] ==> r1 == [] || |r1| < minResults || |r1| == 1
    ensures |r1| <= Max(minResults, 1)
    ensures initial in v0 + {x.item}
  {
    assert Linked(expander, initial, a0, AsRecord(x));
    PopArena(expander, heuristic, initial, q0, a0, AsRecord(x), q1);
    assert (a0 + [AsRecord(x)])[0].item == initial;
    assert x.item !in ItemsOf(a0);
    PopReport(a0, AsRecord(x), isTarget, minResults, v0, r0, i0, r1, i1);
    assert v0 + o0.Keys <= (v0 + {x.item}) + o1.Keys;
  }

  /** The popped record is new to the arena; it is reported when it is a target, within the count asked for. */
  lemma PopReport<N>(a0: seq<Record<N>>, x: Record<N>, isTarget: N -> bool, minResults: int,
                     v0: set<N>, r0: seq<Path<N>>, i0: seq<nat>, r1: seq<Path<N>>, i1: seq<nat>)
    requires ResultsOk(a0, isTarget, r0, i0) && Ordered(a0 + [x])
    requires v0 == ItemsOf(a0) && DistinctItems(a0) && x.item !in v0
    requires isTarget(x.item) ==> r1 == r0 + [PathOf(a0 + [x], |a0|)] && i1 == i0 + [|a0|]
    requires !isTarget(x.item) ==> r1 == r0 && i1 == i0
    requires r0 == [] || |r0| < minResults
    ensures ItemsOf(a0 + [x]) == v0 + {x.item} && DistinctItems(a0 + [x])
    ensures ResultsOk(a0 + [x], isTarget, r1, i1)
    ensures !isTarget(x.item) || r0 == [] ==> r1 == [] || |r1| < minResults || |r1| == 1
    ensures |r1| <= Max(minResults, 1)
  {
    ResultsAppend(a0, x, isTarget, r0, i0);
  }

  /** The popped record extends the arena, and the records still queued stay well made over it. */
  lemma PopArena<N>(expander: N -> seq<(N, nat)>, heuristic: N -> nat, initial: N,
                    q0: map<Handle, AStarNode<N>>, a0: seq<Record<N>>, x: Record<N>, q1: map<Handle, AStarNode<N>>)
    requires ArenaOk(expander, initial, a0) && QueueLinked(expander, heuristic, initial, a0, q0)
    requires Linked(expander, initial, a0, x)
    requires q1.Keys <= q0.Keys && forall h | h in q1 :: q1[h] == q0[h]
    ensures ArenaOk(expander, initial, a0 + [x])
    ensures QueueLinked(expander, heuristic, initial, a0 + [x], q1)
  {
    AppendPopped(expander, initial, a0, x);
  }

  /** Queueing the successors of the popped record restores the loop invariant. */
  lemma ExpandStep<N>(expander: N -> seq<(N, nat)>, heuristic: N -> nat, initial: N, isTarget: N -> bool, minResults: int,
                      a0: seq<Record<N>>, x: Record<N>,
                      q1: map<Handle, AStarNode<N>>, o1: map<N, Handle>,
                      q2: map<Handle, AStarNode<N>>, o2: map<N, Handle>,
                      visited: set<N>, results: seq<Path<N>>, idx: seq<nat>)
    requires PoppedInv(expander, heuristic, initial, isTarget, q1, o1, a0 + [x], visited, results, idx)
    requires Expanded(expander, a0, visited + o1.Keys)
    requires results == [] || |results| < minResults
    requires QueueLinked(expander, heuristic, initial, a0 + [x], q2)
    requires visited !! o2.Keys && o1.Keys <= o2.Keys
    requires forall k | 0 <= k < |expander(x.item)| :: expander(x.item)[k].0 in visited || expander(x.item)[k].0 in o2
    ensures SearchInv(expander, heuristic, initial, isTarget, minResults, q2, o2, a0 + [x], visited, results, idx)
  {
    ExpandedGrow(expander, a0, x, visited + o1.Keys, visited + o2.Keys);
  }

  /**
   * Every queued record is well made, and every record but the origin
   * carries the heuristic of its node as its Remaining.
   */
  ghost predicate QueueLinked<N>(expander: N -> seq<(N, nat)>, heuristic: N -> nat, initial: N,
                                 arena: seq<Record<N>>, queued: map<Handle, AStarNode<N>>)
  {
    forall q | q in queued ::
      && (queued[q].pred.Some? ==> queued[q].remaining == heuristic(queued[q].item))
      && Linked(expander, initial, arena, AsRecord(queued[q]))
  }

  /**
   * The effect of `QueueOrUpdateNode` on the queue `q0` and the table `o0`:
   * an open node is relaxed only by a strictly cheaper route, keeping its
   * handle and, in the current search, its Remaining (the older search of
   * AStar.cs gives the new record the heuristic of the node instead); an
   * unseen node is queued under a new handle with the heuristic of the node.
   */
  ghost predicate Relaxed<N>(legacy: bool, heuristic: N -> nat, current: AStarNode<N>, currentIdx: nat, edge: (N, nat),
                             q0: map<Handle, AStarNode<N>>, o0: map<N, Handle>,
                             q1: map<Handle, AStarNode<N>>, o1: map<N, Handle>)
  {
    if edge.0 in o0 then
      && o0[edge.0] in q0
      && o1 == o0
      && var h := o0[edge.0];
         var existing := q0[h];
         q1 == if current.cost + edge.1 < existing.cost
               then q0[h := AStarNode(edge.0, Some(currentIdx), current.cost + edge.1,
                                      if legacy then heuristic(edge.0) else existing.remaining)]
               else q0
    else
      && edge.0 in o1 && o1 == o0[edge.0 := o1[edge.0]]
      && o1[edge.0] !in q0
      && q1 == q0[o1[edge.0] := AStarNode(edge.0, Some(currentIdx), current.cost + edge.1, heuristic(edge.0))]
  }

  /** Relaxing or inserting a successor of an arena record keeps every queued record well made. */
  lemma RelaxKeepsLinked<N>(legacy: bool, expander: N -> seq<(N, nat)>, heuristic: N -> nat, initial: N,
                            arena: seq<Record<N>>, current: AStarNode<N>, i: nat, edge: (N, nat),
                            q0: map<Handle, AStarNode<N>>, o0: map<N, Handle>,
                            q1: map<Handle, AStarNode<N>>, o1: map<N, Handle>)
    requires i < |arena| && arena[i] == AsRecord(current) && edge in expander(current.item) && edge.0 != initial
    requires QueueLinked(expander, heuristic, initial, arena, q0)
    requires forall n | n in o0 :: o0[n] in q0 && q0[o0[n]].item == n
    requires Relaxed(legacy, heuristic, current, i, edge, q0, o0, q1, o1)
    ensures QueueLinked(expander, heuristic, initial, arena, q1)
  {
    var child := Record(edge.0, Some(i), arena[i].cost + edge.1);
    assert Linked(expander, initial, arena, child);
    if edge.0 in o0 {
      assert Linked(expander, initial, arena, AsRecord(q0[o0[edge.0]]));
    }
  }

  /**
   * Away from the origin, the two relaxation policies agree: the Remaining
   * an open record keeps is the heuristic of its node.
   */
  lemma PoliciesAgree<N>(expander: N -> seq<(N, nat)>, heuristic: N -> nat, initial: N,
                         arena: seq<Record<N>>, current: AStarNode<N>, i: nat, edge: (N, nat),
                         q0: map<Handle, AStarNode<N>>, o0: map<N, Handle>,
                         q1: map<Handle, AStarNode<N>>, o1: map<N, Handle>)
    requires QueueLinked(expander, heuristic, initial, arena, q0) && edge.0 != initial
    requires forall n | n in o0 :: o0[n] in q0 && q0[o0[n]].item == n
    ensures Relaxed(true, heuristic, current, i, edge, q0, o0, q1, o1)
        <==> Relaxed(false, heuristic, current, i, edge, q0, o0, q1, o1)
  {
    if edge.0 in o0 {
      var existing := q0[o0[edge.0]];
      assert Linked(expander, initial, arena, AsRecord(existing));
      assert existing.remaining == heuristic(edge.0);
    }
  }

  /** The loop invariant of `FindAll` together with its cost invariant. */
  ghost predicate LoopInv<N(!new)>(expander: N -> seq<(N, nat)>, heuristic: N -> nat, initial: N, isTarget: N -> bool,
                                   minResults: int, queued: map<Handle, AStarNode<N>>, openSet: map<N, Handle>,
                                   arena: seq<Record<N>>, visited: set<N>, results: seq<Path<N>>, idx: seq<nat>)
  {
    && SearchInv(expander, heuristic, initial, isTarget, minResults, queued, openSet, arena, visited, results, idx)
    && CostInv(expander, heuristic, initial, queued, openSet, arena, visited)
  }

  /**
   * The heuristic is consistent: along any step it drops by at most the
   * step's cost.
   */
  ghost predicate Consistent<N(!new)>(expander: N -> seq<(N, nat)>, heuristic: N -> nat)
  {
    forall n, k | 0 <= k < |expander(n)| :: heuristic(n) <= expander(n)[k].1 + heuristic(expander(n)[k].0)
  }

  /** Every open node's handle names a queued record for that node. */
  ghost predicate OpenHandles<N>(queued: map<Handle, AStarNode<N>>, openSet: map<N, Handle>)
  {
    forall n | n in openSet :: openSet[n] in queued && queued[openSet[n]].item == n
  }

  /** `u` is open and its queued record costs at most `bound`. */
  ghost predicate OpenBelow<N>(queued: map<Handle, AStarNode<N>>, openSet: map<N, Handle>, u: N, bound: nat)
  {
    u in openSet && openSet[u] in queued && queued[openSet[u]].item == u && queued[openSet[u]].cost <= bound
  }

  /**
   * Every step out of an arena record to an unvisited node leads to an open
   * node queued at no more than the route through that step.
   */
  ghost predicate OpenFrontier<N>(expander: N -> seq<(N, nat)>, arena: seq<Record<N>>, visited: set<N>,
                                  queued: map<Handle, AStarNode<N>>, openSet: map<N, Handle>)
  {
    forall i, k | 0 <= i < |arena| && 0 <= k < |expander(arena[i].item)| && expander(arena[i].item)[k].0 !in visited ::
      OpenBelow(queued, openSet, expander(arena[i].item)[k].0, arena[i].cost + expander(arena[i].item)[k].1)
  }

  /** The cost invariant of the loop of `FindAll`: the frontier is open, and with a consistent heuristic the arena is cheapest. */
  ghost predicate CostInv<N(!new)>(expander: N -> seq<(N, nat)>, heuristic: N -> nat, initial: N,
                                   queued: map<Handle, AStarNode<N>>, openSet: map<N, Handle>,
                                   arena: seq<Record<N>>, visited: set<N>)
  {
    && OpenFrontier(expander, arena, visited, queued, openSet)
    && (Consistent(expander, heuristic) ==> ArenaCheapest(expander, initial, arena))
  }

  /**
   * Along a walk, a consistent heuristic never promises less at a node than
   * the rest of the walk costs plus the heuristic at its end.
   */
  lemma {:induction false} ConsistentAlong<N(!new)>(expander: N -> seq<(N, nat)>, heuristic: N -> nat,
                                              w: seq<N>, cs: seq<nat>, j: nat)
    requires Consistent(expander, heuristic)
    requires |w| == |cs| + 1 && Walk(expander, w, cs) && j < |w|
    ensures Sum(cs[..j]) + heuristic(w[j]) <= Sum(cs) + heuristic(Last(w))
    decreases |w| - j
  {
    if j < |cs| {
      ConsistentAlong(expander, heuristic, w, cs, j + 1);
      SumSnoc(cs, j + 1);
      assert (w[j + 1], cs[j]) in expander(w[j]);
      var k :| 0 <= k < |expander(w[j])| && expander(w[j])[k] == (w[j + 1], cs[j]);
    } else {
      assert cs[..j] == cs;
    }
  }

  /**
   * Where a walk from the origin first leaves the visited nodes, at its j-th
   * node, that node is open at no more than the walk so far costs.
   */
  lemma LeaveOpen<N(!new)>(expander: N -> seq<(N, nat)>, initial: N,
                           q0: map<Handle, AStarNode<N>>, o0: map<N, Handle>,
                           arena: seq<Record<N>>, visited: set<N>, w: seq<N>, cs: seq<nat>, j: nat)
    requires visited == ItemsOf(arena)
    requires ArenaCheapest(expander, initial, arena) && OpenFrontier(expander, arena, visited, q0, o0)
    requires |w| == |cs| + 1 && Walk(expander, w, cs) && w[0] == initial
    requires 0 < j < |w| && w[j - 1] in visited && w[j] !in visited
    ensures OpenBelow(q0, o0, w[j], Sum(cs[..j]))
  {
    var i :| 0 <= i < |arena| && arena[i].item == w[j - 1];
    assert (w[j], cs[j - 1]) in expander(arena[i].item);
    var k :| 0 <= k < |expander(arena[i].item)| && expander(arena[i].item)[k] == (w[j], cs[j - 1]);
    assert OpenBelow(q0, o0, w[j], arena[i].cost + cs[j - 1]);
    WalkPrefix(expander, initial, w, cs, j - 1);
    assert Cheapest(expander, initial, arena[i].item, arena[i].cost);
    SumSnoc(cs, j);
  }

  /**
   * With a consistent heuristic, a walk to the node of the queued record of
   * least overall estimate costs at least that record: where the walk leaves
   * the visited nodes it meets an open record whose estimate is at most the
   * walk's cost plus the heuristic at its end.
   */
  lemma WalkCostsAtLeast<N(!new)>(expander: N -> seq<(N, nat)>, heuristic: N -> nat, initial: N,
                                  q0: map<Handle, AStarNode<N>>, o0: map<N, Handle>,
                                  arena: seq<Record<N>>, visited: set<N>, x: AStarNode<N>, w: seq<N>, cs: seq<nat>)
    requires Consistent(expander, heuristic)
    requires ArenaOk(expander, initial, arena) && visited == ItemsOf(arena)
    requires QueueLinked(expander, heuristic, initial, arena, q0)
    requires ArenaCheapest(expander, initial, arena) && OpenFrontier(expander, arena, visited, q0, o0)
    requires x in q0.Values && x.item !in visited
    requires forall h | h in q0 :: OverallEstimate(x) <= OverallEstimate(q0[h])
    requires WalkTo(expander, initial, x.item, w, cs)
    ensures x.cost <= Sum(cs)
  {
    OriginInArena(expander, initial, arena);
    var hx :| hx in q0 && q0[hx] == x;
    assert Linked(expander, initial, arena, AsRecord(x));
    var j := FirstOutside(w, visited, 0);
    if j > 0 {
      LeaveOpen(expander, initial, q0, o0, arena, visited, w, cs, j);
      var y := q0[o0[w[j]]];
      assert Linked(expander, initial, arena, AsRecord(y));
      assert OverallEstimate(x) <= OverallEstimate(y);
      ConsistentAlong(expander, heuristic, w, cs, j);
    }
  }

  /** With a consistent heuristic the record of least overall estimate carries the cost of a cheapest walk. */
  lemma PopCheapest<N(!new)>(expander: N -> seq<(N, nat)>, heuristic: N -> nat, initial: N,
                             q0: map<Handle, AStarNode<N>>, o0: map<N, Handle>,
                             arena: seq<Record<N>>, visited: set<N>, x: AStarNode<N>)
    requires Consistent(expander, heuristic)
    requires ArenaOk(expander, initial, arena) && visited == ItemsOf(arena)
    requires QueueLinked(expander, heuristic, initial, arena, q0)
    requires ArenaCheapest(expander, initial, arena) && OpenFrontier(expander, arena, visited, q0, o0)
    requires x in q0.Values && x.item !in visited
    requires forall h | h in q0 :: OverallEstimate(x) <= OverallEstimate(q0[h])
    ensures Cheapest(expander, initial, x.item, x.cost)
  {
    forall w: seq<N>, cs: seq<nat> | WalkTo(expander, initial, x.item, w, cs) ensures x.cost <= Sum(cs) {
      WalkCostsAtLeast(expander, heuristic, initial, q0, o0, arena, visited, x, w, cs);
    }
  }

  /**
   * Popping the least record keeps the cost facts: the arena stays cheapest
   * under a consistent heuristic, and the steps out of the old arena stay
   * open at their bounds.
   */
  lemma PopCosts<N(!new)>(expander: N -> seq<(N, nat)>, heuristic: N -> nat, initial: N,
                          q0: map<Handle, AStarNode<N>>, o0: map<N, Handle>,
                          q1: map<Handle, AStarNode<N>>, o1: map<N, Handle>,
                          arena: seq<Record<N>>, visited: set<N>, x: AStarNode<N>)
    requires ArenaOk(expander, initial, arena) && visited == ItemsOf(arena)
    requires QueueLinked(expander, heuristic, initial, arena, q0) && OpenHandles(q0, o0)
    requires CostInv(expander, heuristic, initial, q0, o0, arena, visited)
    requires x.item in o0 && q0[o0[x.item]] == x && x.item !in visited
    requires forall h | h in q0 :: OverallEstimate(x) <= OverallEstimate(q0[h])
    requires q1 == q0 - {o0[x.item]} && o1 == o0 - {x.item}
    ensures Consistent(expander, heuristic) ==> ArenaCheapest(expander, initial, arena + [AsRecord(x)])
    ensures OpenFrontier(expander, arena, visited + {x.item}, q1, o1)
  {
    if Consistent(expander, heuristic) {
      PopCheapest(expander, heuristic, initial, q0, o0, arena, visited, x);
      CheapestAppend(expander, initial, arena, AsRecord(x));
    }
  }

  /**
   * `QueueOrUpdateNode` only lowers the cost of an open node, keeps every
   * open node open, and leaves the stepped-to node open at no more than the
   * route through the step.
   */
  lemma RelaxLowers<N>(legacy: bool, heuristic: N -> nat, current: AStarNode<N>, currentIdx: nat, edge: (N, nat),
                       q0: map<Handle, AStarNode<N>>, o0: map<N, Handle>,
                       q1: map<Handle, AStarNode<N>>, o1: map<N, Handle>)
    requires OpenHandles(q0, o0) && OpenHandles(q1, o1)
    requires Relaxed(legacy, heuristic, current, currentIdx, edge, q0, o0, q1, o1)
    ensures forall u, b | OpenBelow(q0, o0, u, b) :: OpenBelow(q1, o1, u, b)
    ensures OpenBelow(q1, o1, edge.0, current.cost + edge.1)
  {
  }

  /**
   * The expansion of `current` after its first `k` successors: every node
   * open at the start (`qs`, `os`) is still open at no more than its cost
   * then, and every unvisited successor so far is open at no more than the
   * route through `current`.
   */
  ghost predicate Relaxing<N>(succ: seq<(N, nat)>, k: nat, visited: set<N>, current: AStarNode<N>,
                              qs: map<Handle, AStarNode<N>>, os: map<N, Handle>,
                              q: map<Handle, AStarNode<N>>, o: map<N, Handle>)
  {
    && (forall u | u in os && os[u] in qs :: OpenBelow(q, o, u, qs[os[u]].cost))
    && (forall j | 0 <= j < k && j < |succ| && succ[j].0 !in visited :: OpenBelow(q, o, succ[j].0, current.cost + succ[j].1))
  }

  /** One `QueueOrUpdateNode` call of the expansion keeps `Relaxing` for one more successor. */
  lemma RelaxNext<N>(legacy: bool, heuristic: N -> nat, current: AStarNode<N>, currentIdx: nat,
                     succ: seq<(N, nat)>, k: nat, visited: set<N>,
                     qs: map<Handle, AStarNode<N>>, os: map<N, Handle>,
                     q0: map<Handle, AStarNode<N>>, o0: map<N, Handle>,
                     q1: map<Handle, AStarNode<N>>, o1: map<N, Handle>)
    requires k < |succ| && Relaxing(succ, k, visited, current, qs, os, q0, o0)
    requires OpenHandles(q0, o0) && OpenHandles(q1, o1)
    requires succ[k].0 !in visited ==> Relaxed(legacy, heuristic, current, currentIdx, succ[k], q0, o0, q1, o1)
    requires succ[k].0 in visited ==> q1 == q0 && o1 == o0
    ensures Relaxing(succ, k + 1, visited, current, qs, os, q1, o1)
  {
    if succ[k].0 !in visited {
      RelaxLowers(legacy, heuristic, current, currentIdx, succ[k], q0, o0, q1, o1);
    }
  }

  /** Queueing the successors of the popped record puts its steps on the open frontier. */
  lemma ExpandCosts<N(!new)>(expander: N -> seq<(N, nat)>, heuristic: N -> nat, initial: N,
                             q1: map<Handle, AStarNode<N>>, o1: map<N, Handle>,
                             q2: map<Handle, AStarNode<N>>, o2: map<N, Handle>,
                             arena: seq<Record<N>>, visited: set<N>, x: AStarNode<N>)
    requires OpenFrontier(expander, arena, visited, q1, o1)
    requires Consistent(expander, heuristic) ==> ArenaCheapest(expander, initial, arena + [AsRecord(x)])
    requires Relaxing(expander(x.item), |expander(x.item)|, visited, x, q1, o1, q2, o2)
    ensures CostInv(expander, heuristic, initial, q2, o2, arena + [AsRecord(x)], visited)
  {
    var a := arena + [AsRecord(x)];
    forall i, k | 0 <= i < |a| && 0 <= k < |expander(a[i].item)| && expander(a[i].item)[k].0 !in visited
      ensures OpenBelow(q2, o2, expander(a[i].item)[k].0, a[i].cost + expander(a[i].item)[k].1)
    {
      if i < |arena| {
        assert a[i] == arena[i];
        var u := expander(arena[i].item)[k].0;
        assert OpenBelow(q1, o1, u, arena[i].cost + expander(arena[i].item)[k].1);
        assert OpenBelow(q2, o2, u, q1[o1[u]].cost);
      }
    }
  }

  /** The answer the loop of `FindAll` gives from the state it ends in; with a consistent heuristic every path is cheapest. */
  lemma Finish<N(!new)>(expander: N -> seq<(N, nat)>, heuristic: N -> nat, initial: N, isTarget: N -> bool,
                        minResults: int, arena: seq<Record<N>>, visited: set<N>, results: seq<Path<N>>, idx: seq<nat>)
    returns (costs: seq<seq<nat>>)
    requires ArenaOk(expander, initial, arena) && DistinctItems(arena) && visited == ItemsOf(arena)
    requires ResultsOk(arena, isTarget, results, idx)
    requires |results| <= Max(minResults, 1)
    requires |results| < minResults ==> initial in visited && Expanded(expander, arena, visited)
    requires Consistent(expander, heuristic) ==> ArenaCheapest(expander, initial, arena)
    ensures Answer(expander, initial, isTarget, minResults, results, visited, costs)
    ensures Consistent(expander, heuristic) ==> AllCheapest(expander, initial, results)
    ensures forall s: set<N> | initial in s && Closed(expander, s) :: visited <= s
  {
    costs := Conclude(expander, initial, isTarget, minResults, arena, visited, results, idx);
    if Consistent(expander, heuristic) {
      ResultsCheapest(expander, initial, isTarget, arena, results, idx);
    }
  }

  /** The working set of one search: the queue and the node-to-handle table `openSet`. */
  class Frontier<N(==)> {
    /** Whether this is the working set of the older search of AStar.cs. */
    const legacy: bool
    const heuristic: N -> nat
    const queue: IntervalHeap<AStarNode<N>>
    var openSet: map<N, Handle>

    /** `openSet` names exactly the queued records, one handle per node. */
    ghost predicate Valid()
      reads this, queue
    {
      && queue.Valid()
      && queue.rank == ByEstimate()
      && (forall n | n in openSet :: openSet[n] in queue.items && queue.items[openSet[n]].item == n)
      && (forall h | h in queue.items :: queue.items[h].item in openSet && openSet[queue.items[h].item] == h)
    }

    constructor (legacy: bool, heuristic: N -> nat)
      ensures Valid() && fresh(queue) && this.legacy == legacy && this.heuristic == heuristic
      ensures openSet == map[] && queue.items == map[]
    {
      this.legacy := legacy;
      this.heuristic := heuristic;
      queue := new IntervalHeap(ByEstimate());
      openSet := map[];
    }

    /** `QueueNewNode`: queues the record and records its handle. */
    method QueueNewNode(node: AStarNode<N>) returns (h: Handle)
      requires Valid() && node.item !in openSet
      modifies this, queue
      ensures Valid()
      ensures h !in old(queue.items) && queue.items == old(queue.items)[h := node]
      ensures openSet == old(openSet)[node.item := h]
    {
      h := queue.Add(node);
      openSet := openSet[node.item := h];
    }

    /** `PopMinNode`: takes a record of least overall estimate out of the queue and of `openSet`. */
    method PopMinNode() returns (node: AStarNode<N>)
      requires Valid() && queue.items != map[]
      modifies this, queue
      ensures Valid()
      ensures node.item in old(openSet) && old(queue.items)[old(openSet)[node.item]] == node
      ensures forall h | h in old(queue.items) :: OverallEstimate(node) <= OverallEstimate(old(queue.items)[h])
      ensures queue.items == old(queue.items) - {old(openSet)[node.item]}
      ensures openSet == old(openSet) - {node.item}
    {
      var h;
      h, node := queue.DeleteMin();
      openSet := openSet - {node.item};
    }

    /** `QueueOrUpdateNode`: see `Relaxed`. */
    method QueueOrUpdateNode(current: AStarNode<N>, currentIdx: nat, edge: (N, nat))
      requires Valid()
      modifies this, queue
      ensures Valid()
      ensures Relaxed(legacy, heuristic, current, currentIdx, edge, old(queue.items), old(openSet), queue.items, openSet)
    {
      var newCost := current.cost + edge.1;
      if edge.0 in openSet {
        var existingHandle := openSet[edge.0];
        var found, existing := queue.Find(existingHandle);
        if found && newCost < existing.value.cost {
          var remaining := if legacy then heuristic(edge.0) else existing.value.remaining;
          var newNode := AStarNode(edge.0, Some(currentIdx), newCost, remaining);
          var _ := queue.Replace(existingHandle, newNode);
          openSet := openSet[newNode.item := existingHandle];
        }
      } else {
        var _ := QueueNewNode(AStarNode(edge.0, Some(currentIdx), newCost, heuristic(edge.0)));
      }
    }
  }

  /**
   * The search of Core/AStar.cs, or (`legacy`) the older one of AStar.cs,
   * which gives the origin a Remaining of 0 and a relaxed record the
   * heuristic of its node.
   */
  class AStarSearch<N(==,!new)> {
    const expander: N -> seq<(N, nat)>
    const legacy: bool

    constructor (expander: N -> seq<(N, nat)>)
      ensures this.expander == expander && !legacy
    {
      this.expander := expander;
      legacy := false;
    }

    /** The constructor of the older search in AStar.cs. */
    constructor Legacy(expander: N -> seq<(N, nat)>)
      ensures this.expander == expander && legacy
    {
      this.expander := expander;
      legacy := true;
    }

    /**
     * The origin's `AStarNode`: no predecessor and cost 0; the older
     * constructor ignores its `remainder` argument and leaves Remaining at 0.
     */
    function OriginNode(initial: N, remainder: nat): (n: AStarNode<N>)
      ensures Linked(expander, initial, [], AsRecord(n))
      ensures n.remaining == if legacy then 0 else remainder
    {
      AStarNode(initial, None, 0, if legacy then 0 else remainder)
    }

    /**
     * `FindAll`: best-first search from `initial`, reporting every popped
     * node that satisfies `isTarget`, until `minResults` paths are found or
     * the queue runs dry.  `fuel` bounds the number of nodes popped.
     * `explored` is the visited set and `costs[j]` the edge costs of the
     * j-th path.
     */
    method FindAll(initial: N, isTarget: N -> bool, heuristic: Option<N -> nat>, minResults: int, fuel: nat)
      returns (r: Result<seq<Path<N>>>, ghost explored: set<N>, ghost costs: seq<seq<nat>>)
      ensures heuristic.None? ==> r == Err(ArgumentNull)
      ensures r.Err? ==> (heuristic.None? && r.error == ArgumentNull) || (r.error == OutOfFuel && |explored| == fuel)
      ensures r.Ok? ==> Answer(expander, initial, isTarget, minResults, r.value, explored, costs)
      ensures r.Ok? && heuristic.Some? && Consistent(expander, heuristic.value) ==> AllCheapest(expander, initial, r.value)
      ensures forall s: set<N> | initial in s && Closed(expander, s) :: explored <= s
    {
      if heuristic.None? {
        return Err(ArgumentNull), {}, [];
      }
      var h := heuristic.value;
      var frontier := new Frontier(legacy, h);
      var origin := OriginNode(initial, h(initial));
      var _ := frontier.QueueNewNode(origin);
      r, explored, costs := Explore(frontier, h, initial, isTarget, minResults, fuel);
    }

    /** The loop of `FindAll`, from the queue that holds the origin alone. */
    method Explore(frontier: Frontier<N>, h: N -> nat, initial: N, isTarget: N -> bool, minResults: int, fuel: nat)
      returns (r: Result<seq<Path<N>>>, ghost explored: set<N>, ghost costs: seq<seq<nat>>)
      requires frontier.Valid() && frontier.heuristic == h
      requires SearchInv(expander, h, initial, isTarget, minResults, frontier.queue.items, frontier.openSet, [], {}, [], [])
      modifies frontier, frontier.queue
      ensures r.Err? ==> r.error == OutOfFuel && |explored| == fuel
      ensures r.Ok? ==> Answer(expander, initial, isTarget, minResults, r.value, explored, costs)
      ensures r.Ok? && Consistent(expander, h) ==> AllCheapest(expander, initial, r.value)
      ensures forall s: set<N> | initial in s && Closed(expander, s) :: explored <= s
    {
      var visited: set<N> := {};
      var arena: seq<Record<N>> := [];
      var results: seq<Path<N>> := [];
      ghost var resultIdx: seq<nat> := [];

      while frontier.queue.Count() > 0
        invariant frontier.Valid() && frontier.heuristic == h
        invariant |arena| <= fuel
        invariant LoopInv(expander, h, initial, isTarget, minResults, frontier.queue.items, frontier.openSet,
                          arena, visited, results, resultIdx)
        decreases fuel - |arena|
      {
        if |arena| == fuel {
          ItemsOfCard(arena);
          ItemsInClosed(expander, initial, arena);
          return Err(OutOfFuel), visited, [];
        }
        var done;
        arena, visited, results, resultIdx, done := SearchStep(frontier, h, initial, isTarget, minResults,
                                                               arena, visited, results, resultIdx);
        if done {
          break;
        }
      }

      costs := Finish(expander, h, initial, isTarget, minResults, arena, visited, results, resultIdx);
      r := Ok(results);
      explored := visited;
    }

    /**
     * One turn of the loop of `FindAll`: pop the least record, append it to
     * the arena, report it if it is a target, and stop (`done`) once
     * `minResults` paths are known; otherwise queue its successors.
     */
    method SearchStep(frontier: Frontier<N>, ghost h: N -> nat, ghost initial: N, isTarget: N -> bool, minResults: int,
                      arena: seq<Record<N>>, visited: set<N>, results: seq<Path<N>>, ghost idx: seq<nat>)
      returns (arena': seq<Record<N>>, visited': set<N>, results': seq<Path<N>>, ghost idx': seq<nat>,
               done: bool)
      requires frontier.Valid() && frontier.heuristic == h && frontier.queue.items != map[]
      requires LoopInv(expander, h, initial, isTarget, minResults, frontier.queue.items, frontier.openSet,
                       arena, visited, results, idx)
      modifies frontier, frontier.queue
      ensures frontier.Valid() && |arena'| == |arena| + 1
      ensures !done ==> LoopInv(expander, h, initial, isTarget, minResults, frontier.queue.items, frontier.openSet,
                                arena', visited', results', idx')
      ensures Consistent(expander, h) ==> ArenaCheapest(expander, initial, arena')
      ensures done ==> && PoppedInv(expander, h, initial, isTarget, frontier.queue.items, frontier.openSet,
                                    arena', visited', results', idx')
                       && minResults <= |results'| <= Max(minResults, 1)
    {
      ghost var q0, o0 := frontier.queue.items, frontier.openSet;
      assert OpenHandles(q0, o0);
      var current := frontier.PopMinNode();
      var currentIdx: nat := |arena|;
      arena' := arena + [AsRecord(current)];
      visited' := visited + {current.item};
      results', idx' := results, idx;
      if isTarget(current.item) {
        results' := results + [PathOf(arena', currentIdx)];
        idx' := idx + [currentIdx];
      }
      PopStep(expander, h, initial, isTarget, minResults, q0, o0, arena, visited, results, idx, current,
              frontier.queue.items, frontier.openSet, results', idx');
      PopCosts(expander, h, initial, q0, o0, frontier.queue.items, frontier.openSet, arena, visited, current);
      done := |results'| >= minResults && results' != [];
      if !done {
        ghost var q1, o1 := frontier.queue.items, frontier.openSet;
        QueueSuccessors(frontier, current, currentIdx, visited', h, initial, arena');
        ExpandStep(expander, h, initial, isTarget, minResults, arena, AsRecord(current), q1, o1,
                   frontier.queue.items, frontier.openSet, visited', results', idx');
        ExpandCosts(expander, h, initial, q1, o1, frontier.queue.items, frontier.openSet, arena, visited', current);
      }
    }

    /**
     * The expansion step of `FindAll`: every successor of the record just
     * popped that is not visited goes through `QueueOrUpdateNode`.
     */
    method QueueSuccessors(frontier: Frontier<N>, current: AStarNode<N>, currentIdx: nat, visited: set<N>,
                           ghost h: N -> nat, ghost initial: N, ghost arena: seq<Record<N>>)
      requires frontier.Valid() && frontier.heuristic == h
      requires currentIdx < |arena| && arena[currentIdx] == AsRecord(current)
      requires QueueLinked(expander, h, initial, arena, frontier.queue.items)
      requires visited !! frontier.openSet.Keys && initial in visited
      modifies frontier, frontier.queue
      ensures frontier.Valid()
      ensures QueueLinked(expander, h, initial, arena, frontier.queue.items)
      ensures visited !! frontier.openSet.Keys
      ensures old(frontier.openSet).Keys <= frontier.openSet.Keys
      ensures forall k | 0 <= k < |expander(current.item)| ::
        expander(current.item)[k].0 in visited || expander(current.item)[k].0 in frontier.openSet
      ensures Relaxing(expander(current.item), |expander(current.item)|, visited, current,
                       old(frontier.queue.items), old(frontier.openSet), frontier.queue.items, frontier.openSet)
    {
      var succ := expander(current.item);
      var k := 0;
      while k < |succ|
        invariant 0 <= k <= |succ|
        invariant frontier.Valid()
        invariant QueueLinked(expander, h, initial, arena, frontier.queue.items)
        invariant visited !! frontier.openSet.Keys
        invariant old(frontier.openSet).Keys <= frontier.openSet.Keys
        invariant forall k' | 0 <= k' < k :: succ[k'].0 in visited || succ[k'].0 in frontier.openSet
        invariant Relaxing(succ, k, visited, current, old(frontier.queue.items), old(frontier.openSet),
                           frontier.queue.items, frontier.openSet)
      {
        ghost var q0, o0 := frontier.queue.items, frontier.openSet;
        if succ[k].0 !in visited {
          frontier.QueueOrUpdateNode(current, currentIdx, succ[k]);
          RelaxKeepsLinked(frontier.legacy, expander, h, initial, arena, current, currentIdx, succ[k], q0, o0, frontier.queue.items, frontier.openSet);
        }
        RelaxNext(frontier.legacy, h, current, currentIdx, succ, k, visited, old(frontier.queue.items), old(frontier.openSet),
                  q0, o0, frontier.queue.items, frontier.openSet);
        k := k + 1;
      }
    }

    /** `FindFirst`: `FindAll` with `minResults` 1, then the first path if any. */
    method FindFirst(initial: N, isTarget: N -> bool, heuristic: Option<N -> nat>, fuel: nat)
      returns (r: Result<Option<Path<N>>>, ghost explored: set<N>, ghost cost: seq<nat>)
      ensures heuristic.None? ==> r == Err(ArgumentNull)
      ensures r.Ok? && r.value.Some? ==> IsResult(expander, initial, isTarget, r.value.value, cost)
      ensures r.Ok? && r.value.Some? && heuristic.Some? && Consistent(expander, heuristic.value) ==>
        Cheapest(expander, initial, r.value.value.target, r.value.value.cost)
      ensures r.Ok? && r.value.None? ==>
        && initial in explored && Closed(expander, explored)
        && forall n | n in explored :: !isTarget(n)
    {
      var all;
      ghost var costs;
      all, explored, costs := FindAll(initial, isTarget, heuristic, 1, fuel);
      match all
      case Err(e) =>
        r, cost := Err(e), [];
      case Ok(paths) =>
        if |paths| > 0 {
          r, cost := Ok(Some(paths[0])), costs[0];
        } else {
          r, cost := Ok(None), [];
        }
    }
  }
}
