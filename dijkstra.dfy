/**
 * Dijkstra search with lazy deletion (`DijkstraSearch<TNode>` in
 * Core/Dijkstra.cs).
 *
 * The queue is an interval heap of records ordered by cost alone.  A node
 * may be queued several times; entries for nodes that were visited in the
 * meantime are skipped when they come out ("lazy deletion").  Several seeds
 * may start the search: the one seed of cost 0 is the origin, and when
 * there is more than one seed the origin counts as visited at once and every
 * seed of positive cost is queued as a child of the origin.
 */
module Dijkstra {

  import opened Wrappers
  import opened IntervalHeaps
  import opened Graphs
  import opened SearchArena

  /** The queue's order: `DijkstraNode.CompareTo` compares costs. */
  function ByCost<N>(): Record<N> -> int
  {
    (r: Record<N>) => r.cost
  }

  /** `DijkstraNode.CompareTo`: a missing other record compares below; otherwise the costs decide. */
  function CompareTo<N>(n: Record<N>, other: Option<Record<N>>): (c: int)
    ensures other.None? ==> c == 1
    ensures other.Some? ==> (c < 0 <==> n.cost < other.value.cost)
    ensures other.Some? ==> (c == 0 <==> n.cost == other.value.cost)
  {
    match other
    case None => 1
    case Some(o) =>
      if n.cost < o.cost then -1
      else if n.cost == o.cost then 0
      else 1
  }

  /** The nodes of the seeds of cost 0, in order. */
  function ZeroSeeds<N>(seeds: seq<(N, nat)>): (z: seq<N>)
    ensures |z| <= |seeds|
  {
    if seeds == [] then []
    else (if seeds[0].1 == 0 then [seeds[0].0] else []) + ZeroSeeds(seeds[1..])
  }

  /** `ZeroSeeds` is empty iff no seed costs 0, and has two entries iff two seeds cost 0. */
  lemma {:induction false} ZeroSeedsSpec<N>(seeds: seq<(N, nat)>)
    ensures forall k | 0 <= k < |ZeroSeeds(seeds)| :: (ZeroSeeds(seeds)[k], 0) in seeds
    ensures |ZeroSeeds(seeds)| == 0 <==> forall i | 0 <= i < |seeds| :: seeds[i].1 != 0
    ensures |ZeroSeeds(seeds)| >= 2 <==> exists i, j | 0 <= i < j < |seeds| :: seeds[i].1 == 0 && seeds[j].1 == 0
  {
    if seeds != [] {
      var t := seeds[1..];
      ZeroSeedsSpec(t);
      assert forall k | 1 <= k < |seeds| :: seeds[k] == t[k - 1];
      if |ZeroSeeds(seeds)| >= 2 {
        if seeds[0].1 == 0 {
          assert |ZeroSeeds(t)| >= 1;
          var j :| 0 <= j < |t| && t[j].1 == 0;
          assert seeds[0].1 == 0 && seeds[j + 1].1 == 0;
        } else {
          var i, j :| 0 <= i < j < |t| && t[i].1 == 0 && t[j].1 == 0;
          assert seeds[i + 1].1 == 0 && seeds[j + 1].1 == 0;
        }
      }
      if exists i, j | 0 <= i < j < |seeds| :: seeds[i].1 == 0 && seeds[j].1 == 0 {
        var i, j :| 0 <= i < j < |seeds| && seeds[i].1 == 0 && seeds[j].1 == 0;
        if i > 0 {
          assert t[i - 1].1 == 0 && t[j - 1].1 == 0;
        } else {
          assert t[j - 1].1 == 0;
        }
      }
    }
  }

  /**
   * `initialNodes.Single(t => t.cost == 0).node`: the origin, provided
   * exactly one seed costs 0; otherwise `Single` throws.
   */
  function SingleOrigin<N>(seeds: seq<(N, nat)>): (r: Result<N>)
    ensures r.Ok? ==> (r.value, 0) in seeds
    ensures r.Ok? ==> forall i, j | 0 <= i < |seeds| && 0 <= j < |seeds| && seeds[i].1 == 0 && seeds[j].1 == 0 :: i == j
    ensures r.Err? ==> r.error == InvalidOperation
    ensures r.Err? ==>
      || (forall i | 0 <= i < |seeds| :: seeds[i].1 != 0)
      || (exists i, j | 0 <= i < j < |seeds| :: seeds[i].1 == 0 && seeds[j].1 == 0)
  {
    ZeroSeedsSpec(seeds);
    var z := ZeroSeeds(seeds);
    if |z| == 1 then Ok(z[0]) else Err(InvalidOperation)
  }

  /** `initialNodes.Where(t => t.cost > 0)`. */
  function PositiveSeeds<N>(seeds: seq<(N, nat)>): (p: seq<(N, nat)>)
    ensures forall k | 0 <= k < |p| :: p[k] in seeds && p[k].1 > 0
    ensures forall k | 0 <= k < |seeds| && seeds[k].1 > 0 :: seeds[k] in p
  {
    if seeds == [] then []
    else
      var rest := PositiveSeeds(seeds[1..]);
      assert forall k | 1 <= k < |seeds| :: seeds[k] == seeds[1..][k - 1];
      (if seeds[0].1 > 0 then [seeds[0]] else []) + rest
  }

  /**
   * The steps the search actually takes: with several seeds the origin is
   * never expanded, its successors are the seeds of positive cost instead;
   * with one seed the expander alone.
   */
  function SeedStep<N(==)>(expander: N -> seq<(N, nat)>, seeds: seq<(N, nat)>, origin: N): N -> seq<(N, nat)>
  {
    if |seeds| > 1 then (n: N) => if n == origin then PositiveSeeds(seeds) else expander(n)
    else expander
  }

  /** The nodes that can be reported: with several seeds the origin is visited without being reported. */
  function Reportable<N(==)>(isTarget: N -> bool, seeds: seq<(N, nat)>, origin: N): N -> bool
  {
    if |seeds| > 1 then (n: N) => isTarget(n) && n != origin
    else isTarget
  }

  /** The nodes that have an entry in the queue. */
  function QueuedItems<N>(queued: map<Handle, Record<N>>): set<N>
  {
    set h | h in queued :: queued[h].item
  }

  /** Every queued record is well made. */
  ghost predicate QueueLinked<N>(step: N -> seq<(N, nat)>, origin: N, arena: seq<Record<N>>,
                                 queued: map<Handle, Record<N>>)
  {
    forall h | h in queued :: Linked(step, origin, arena, queued[h])
  }

  /**
   * The arena is well made, the visited nodes are the arena's, and the
   * results are the paths of the reportable arena records.
   */
  ghost predicate ArenaState<N>(step: N -> seq<(N, nat)>, origin: N, isTarget: N -> bool,
                                arena: seq<Record<N>>, visited: set<N>, results: seq<Path<N>>, idx: seq<nat>)
  {
    && ArenaOk(step, origin, arena) && DistinctItems(arena) && visited == ItemsOf(arena)
    && ResultsOk(arena, isTarget, results, idx)
  }

  /**
   * What holds whenever the loop of `FindAll` is entered: also, the queued
   * records are well made and the search has a record to start from.
   */
  ghost predicate StateOk<N>(step: N -> seq<(N, nat)>, origin: N, isTarget: N -> bool,
                             queued: map<Handle, Record<N>>, arena: seq<Record<N>>, visited: set<N>,
                             results: seq<Path<N>>, idx: seq<nat>)
  {
    && ArenaState(step, origin, isTarget, arena, visited, results, idx)
    && QueueLinked(step, origin, arena, queued)
    && (arena == [] ==> queued != map[])
  }

  /** The loop invariant of `FindAll`: also, every step out of the arena leads to a visited or a queued node. */
  ghost predicate SearchInv<N>(step: N -> seq<(N, nat)>, origin: N, isTarget: N -> bool, minResults: int,
                               queued: map<Handle, Record<N>>, arena: seq<Record<N>>, visited: set<N>,
                               results: seq<Path<N>>, idx: seq<nat>)
  {
    && StateOk(step, origin, isTarget, queued, arena, visited, results, idx)
    && Expanded(step, arena, visited + QueuedItems(queued))
    && (results == [] || |results| < minResults)
  }

  /**
   * The state the loop of `FindAll` ends in: enough results, or else the
   * origin visited and every step out of the arena leading to a visited node.
   */
  ghost predicate Settled<N>(step: N -> seq<(N, nat)>, origin: N, isTarget: N -> bool, minResults: int,
                             arena: seq<Record<N>>, visited: set<N>, results: seq<Path<N>>, idx: seq<nat>)
  {
    && ArenaState(step, origin, isTarget, arena, visited, results, idx)
    && |results| <= Max(minResults, 1)
    && (|results| < minResults ==> origin in visited && Expanded(step, arena, visited))
  }

  /** The state just after an unvisited record `x` came out of the queue. */
  ghost predicate Popped<N>(step: N -> seq<(N, nat)>, origin: N, isTarget: N -> bool, minResults: int,
                            queued: map<Handle, Record<N>>, arena: seq<Record<N>>, x: Record<N>,
                            visited: set<N>, results: seq<Path<N>>, idx: seq<nat>)
  {
    && ArenaState(step, origin, isTarget, arena, visited, results, idx)
    && QueueLinked(step, origin, arena, queued)
    && Linked(step, origin, arena, x) && x.item !in visited
    && Expanded(step, arena, visited + QueuedItems(queued) + {x.item})
    && (results == [] || |results| < minResults)
  }

  /**
   * Popping entries until an unvisited one comes out keeps the invariant
   * facts about what stays queued; the entries thrown away were visited.
   */
  lemma DropStale<N>(step: N -> seq<(N, nat)>, origin: N, isTarget: N -> bool, minResults: int,
                         q0: map<Handle, Record<N>>, q1: map<Handle, Record<N>>, arena: seq<Record<N>>,
                         visited: set<N>, results: seq<Path<N>>, idx: seq<nat>, x: Option<Record<N>>)
    requires SearchInv(step, origin, isTarget, minResults, q0, arena, visited, results, idx)
    requires q1.Keys <= q0.Keys && forall h | h in q1 :: q1[h] == q0[h]
    requires forall h | h in q0 && h !in q1 :: q0[h].item in visited || Some(q0[h]) == x
    ensures QueueLinked(step, origin, arena, q1)
    ensures Expanded(step, arena, visited + QueuedItems(q1) + (if x.Some? then {x.value.item} else {}))
  {
    var extra := if x.Some? then {x.value.item} else {};
    assert QueuedItems(q0) <= visited + QueuedItems(q1) + extra by {
      forall n | n in QueuedItems(q0) ensures n in visited + QueuedItems(q1) + extra {
        var h :| h in q0 && q0[h].item == n;
        if h in q1 {
          assert q1[h].item == n;
        }
      }
    }
  }

  /** Deleting stale entries and then the unvisited record `x`. */
  lemma AfterPop<N>(step: N -> seq<(N, nat)>, origin: N, isTarget: N -> bool, minResults: int,
                    q0: map<Handle, Record<N>>, q1: map<Handle, Record<N>>, arena: seq<Record<N>>,
                    visited: set<N>, results: seq<Path<N>>, idx: seq<nat>, x: Record<N>)
    requires SearchInv(step, origin, isTarget, minResults, q0, arena, visited, results, idx)
    requires q1.Keys <= q0.Keys && forall h | h in q1 :: q1[h] == q0[h]
    requires forall h | h in q0 && h !in q1 :: q0[h].item in visited || q0[h] == x
    requires x in q0.Values && x.item !in visited
    ensures Popped(step, origin, isTarget, minResults, q1, arena, x, visited, results, idx)
    ensures Ordered(arena + [x])
  {
    DropStale(step, origin, isTarget, minResults, q0, q1, arena, visited, results, idx, Some(x));
    var h :| h in q0 && q0[h] == x;
    assert Linked(step, origin, arena, x);
    AppendPopped(step, origin, arena, x);
  }

  /** Deleting entries until the queue is empty, all of them stale. */
  lemma AfterDrain<N>(step: N -> seq<(N, nat)>, origin: N, isTarget: N -> bool, minResults: int,
                      q0: map<Handle, Record<N>>, arena: seq<Record<N>>,
                      visited: set<N>, results: seq<Path<N>>, idx: seq<nat>)
    requires SearchInv(step, origin, isTarget, minResults, q0, arena, visited, results, idx)
    requires q0 != map[] && forall h | h in q0 :: q0[h].item in visited
    ensures Settled(step, origin, isTarget, minResults, arena, visited, results, idx)
    ensures origin in visited && Closed(step, visited)
  {
    DropStale(step, origin, isTarget, minResults, q0, map[], arena, visited, results, idx, None);
    assert QueuedItems<N>(map[]) == {};
    DrainedStart(step, origin, isTarget, q0, arena, visited, results, idx);
    ExpandedClosed(step, arena, visited);
  }

  /** The loop of `FindAll` ends normally once the queue is empty. */
  lemma AfterEmpty<N>(step: N -> seq<(N, nat)>, origin: N, isTarget: N -> bool, minResults: int,
                      arena: seq<Record<N>>, visited: set<N>, results: seq<Path<N>>, idx: seq<nat>)
    requires SearchInv(step, origin, isTarget, minResults, map[], arena, visited, results, idx)
    ensures Settled(step, origin, isTarget, minResults, arena, visited, results, idx)
  {
    assert QueuedItems<N>(map[]) == {};
    assert Linked(step, origin, arena[..0], arena[0]);
  }

  /** Where the fuel runs out, the visited nodes are as many as the arena's records, and all reachable. */
  lemma OutOfFuelState<N>(step: N -> seq<(N, nat)>, origin: N, isTarget: N -> bool, minResults: int,
                          queued: map<Handle, Record<N>>, arena: seq<Record<N>>, visited: set<N>,
                          results: seq<Path<N>>, idx: seq<nat>)
    requires SearchInv(step, origin, isTarget, minResults, queued, arena, visited, results, idx)
    ensures |visited| == |arena|
    ensures forall s: set<N> | origin in s && Closed(step, s) :: visited <= s
  {
    ItemsOfCard(arena);
    ItemsInClosed(step, origin, arena);
  }

  /** The answer the loop of `FindAll` gives from the state it ends in. */
  lemma ConcludeSettled<N>(step: N -> seq<(N, nat)>, origin: N, isTarget: N -> bool, minResults: int,
                           arena: seq<Record<N>>, visited: set<N>, results: seq<Path<N>>, idx: seq<nat>)
    returns (costs: seq<seq<nat>>)
    requires Settled(step, origin, isTarget, minResults, arena, visited, results, idx)
    ensures Answer(step, origin, isTarget, minResults, results, visited, costs)
    ensures forall s: set<N> | origin in s && Closed(step, s) :: visited <= s
  {
    costs := Conclude(step, origin, isTarget, minResults, arena, visited, results, idx);
  }

  /** Appending the popped record to the arena, reporting it when it is a target. */
  lemma AfterVisit<N>(step: N -> seq<(N, nat)>, origin: N, isTarget: N -> bool, minResults: int,
                      q1: map<Handle, Record<N>>, arena: seq<Record<N>>, x: Record<N>,
                      visited: set<N>, r0: seq<Path<N>>, i0: seq<nat>, r1: seq<Path<N>>, i1: seq<nat>)
    requires Popped(step, origin, isTarget, minResults, q1, arena, x, visited, r0, i0)
    requires Ordered(arena + [x])
    requires isTarget(x.item) ==> r1 == r0 + [PathOf(arena + [x], |arena|)] && i1 == i0 + [|arena|]
    requires !isTarget(x.item) ==> r1 == r0 && i1 == i0
    ensures StateOk(step, origin, isTarget, q1, arena + [x], visited + {x.item}, r1, i1)
    ensures Expanded(step, arena, visited + QueuedItems(q1) + {x.item})
    ensures !(isTarget(x.item) && |r1| >= minResults) ==> r1 == [] || |r1| < minResults
    ensures isTarget(x.item) && |r1| >= minResults ==>
      Settled(step, origin, isTarget, minResults, arena + [x], visited + {x.item}, r1, i1)
  {
    AppendPopped(step, origin, arena, x);
    ResultsAppend(arena, x, isTarget, r0, i0);
  }

  /** A record made from an arena record and one of its steps is well made. */
  lemma ChildLinked<N>(step: N -> seq<(N, nat)>, origin: N, arena: seq<Record<N>>, i: nat, j: nat)
    requires i < |arena| && j < |step(arena[i].item)|
    ensures Linked(step, origin, arena, Child(arena[i], i, step(arena[i].item)[j]))
  {
    var e := step(arena[i].item)[j];
    assert (e.0, e.1) == e;
  }

  /** Queueing well-made children of an arena record keeps every queued record well made. */
  lemma QueueChildrenLinked<N>(step: N -> seq<(N, nat)>, origin: N, arena: seq<Record<N>>, x: Record<N>, i: nat,
                               visited: set<N>,
                               q1: map<Handle, Record<N>>, q2: map<Handle, Record<N>>,
                               handles: seq<Handle>, children: seq<Record<N>>)
    requires i < |arena| && arena[i] == x && QueueLinked(step, origin, arena, q1)
    requires children == Children(step(x.item), visited, x, i)
    requires |handles| == |children|
    requires forall h | h in q1 :: h in q2 && q2[h] == q1[h]
    requires forall k | 0 <= k < |handles| :: handles[k] in q2 && q2[handles[k]] == children[k]
    requires forall h | h in q2 :: h in q1 || h in handles
    ensures QueueLinked(step, origin, arena, q2)
  {
    ChildrenSpec(step(x.item), visited, x, i);
    forall h | h in q2 ensures Linked(step, origin, arena, q2[h]) {
      if h in q1 {
        assert q2[h] == q1[h];
      } else {
        var k :| 0 <= k < |handles| && handles[k] == h;
        var j :| 0 <= j < |step(x.item)| && children[k] == Child(x, i, step(x.item)[j]);
        ChildLinked(step, origin, arena, i, j);
      }
    }
  }

  /** Once the children of the popped record are queued, every step out of the arena is seen. */
  lemma ChildrenQueued<N>(step: N -> seq<(N, nat)>, arena: seq<Record<N>>, x: Record<N>, visited: set<N>,
                          q1: map<Handle, Record<N>>, q2: map<Handle, Record<N>>,
                          handles: seq<Handle>, children: seq<Record<N>>)
    requires Expanded(step, arena, visited + QueuedItems(q1) + {x.item})
    requires children == Children(step(x.item), visited + {x.item}, x, |arena|)
    requires |handles| == |children|
    requires forall h | h in q1 :: h in q2 && q2[h] == q1[h]
    requires forall k | 0 <= k < |handles| :: handles[k] in q2 && q2[handles[k]] == children[k]
    ensures Expanded(step, arena + [x], visited + {x.item} + QueuedItems(q2))
  {
    ChildrenSpec(step(x.item), visited + {x.item}, x, |arena|);
    var seen := visited + {x.item} + QueuedItems(q2);
    assert QueuedItems(q1) <= QueuedItems(q2) by {
      forall n | n in QueuedItems(q1) ensures n in QueuedItems(q2) {
        var h :| h in q1 && q1[h].item == n;
        assert q2[h].item == n;
      }
    }
    forall k | 0 <= k < |step(x.item)| ensures step(x.item)[k].0 in seen {
      var e := step(x.item)[k];
      if e.0 !in visited + {x.item} {
        var j :| 0 <= j < |children| && children[j] == Child(x, |arena|, e);
        assert q2[handles[j]].item == e.0;
      }
    }
    ExpandedGrow(step, arena, x, visited + QueuedItems(q1) + {x.item}, seen);
  }

  /** Queueing the children of the popped record restores the loop invariant. */
  lemma ExpandStep<N>(step: N -> seq<(N, nat)>, origin: N, isTarget: N -> bool, minResults: int,
                          q1: map<Handle, Record<N>>, q2: map<Handle, Record<N>>,
                          arena: seq<Record<N>>, x: Record<N>, visited: set<N>,
                          results: seq<Path<N>>, idx: seq<nat>, handles: seq<Handle>, children: seq<Record<N>>)
    requires StateOk(step, origin, isTarget, q1, arena + [x], visited + {x.item}, results, idx)
    requires Expanded(step, arena, visited + QueuedItems(q1) + {x.item})
    requires results == [] || |results| < minResults
    requires children == Children(step(x.item), visited + {x.item}, x, |arena|)
    requires |handles| == |children|
    requires forall h | h in q1 :: h in q2 && q2[h] == q1[h]
    requires forall k | 0 <= k < |handles| :: handles[k] in q2 && q2[handles[k]] == children[k]
    requires forall h | h in q2 :: h in q1 || h in handles
    ensures SearchInv(step, origin, isTarget, minResults, q2, arena + [x], visited + {x.item}, results, idx)
  {
    assert QueueLinked(step, origin, arena + [x], q2) by {
      QueueChildrenLinked(step, origin, arena + [x], x, |arena|, visited + {x.item}, q1, q2, handles, children);
    }
    assert Expanded(step, arena + [x], visited + {x.item} + QueuedItems(q2)) by {
      ChildrenQueued(step, arena, x, visited, q1, q2, handles, children);
    }
    assert StateOk(step, origin, isTarget, q2, arena + [x], visited + {x.item}, results, idx) by {
      StateOkQueue(step, origin, isTarget, q1, q2, arena + [x], visited + {x.item}, results, idx);
    }
  }

  /** The state facts do not depend on the queue beyond its records being well made. */
  lemma StateOkQueue<N>(step: N -> seq<(N, nat)>, origin: N, isTarget: N -> bool,
                        q1: map<Handle, Record<N>>, q2: map<Handle, Record<N>>,
                        arena: seq<Record<N>>, visited: set<N>, results: seq<Path<N>>, idx: seq<nat>)
    requires StateOk(step, origin, isTarget, q1, arena, visited, results, idx)
    requires QueueLinked(step, origin, arena, q2) && arena != []
    ensures StateOk(step, origin, isTarget, q2, arena, visited, results, idx)
  {
  }

  /** A queue whose every entry is visited belongs to a search that has visited its origin. */
  lemma DrainedStart<N>(step: N -> seq<(N, nat)>, origin: N, isTarget: N -> bool,
                        q0: map<Handle, Record<N>>, arena: seq<Record<N>>, visited: set<N>,
                        results: seq<Path<N>>, idx: seq<nat>)
    requires StateOk(step, origin, isTarget, q0, arena, visited, results, idx)
    requires q0 != map[] && forall h | h in q0 :: q0[h].item in visited
    ensures origin in visited
  {
    var h :| h in q0;
    assert arena != [];
    assert Linked(step, origin, arena[..0], arena[0]);
  }

  /** With one seed the search starts from the origin, queued. */
  lemma StartSingle<N>(step: N -> seq<(N, nat)>, origin: N, isTarget: N -> bool, minResults: int,
                       queued: map<Handle, Record<N>>, h: Handle)
    requires queued == map[h := Record(origin, None, 0)]
    ensures SearchInv(step, origin, isTarget, minResults, queued, [], {}, [], [])
  {
    assert h in queued;
    assert ItemsOf<N>([]) == {};
    assert PathsOf<N>([], []) == [];
  }

  /** Every step out of the origin is queued. */
  lemma StartExpanded<N>(step: N -> seq<(N, nat)>, origin: N,
                         queued: map<Handle, Record<N>>, handles: seq<Handle>, children: seq<Record<N>>)
    requires children == Children(step(origin), {}, Record(origin, None, 0), 0)
    requires |handles| == |children|
    requires forall k | 0 <= k < |handles| :: handles[k] in queued && queued[handles[k]] == children[k]
    ensures Expanded(step, [Record(origin, None, 0)], {origin} + QueuedItems(queued))
  {
    var o := Record(origin, None, 0);
    ChildrenSpec(step(origin), {}, o, 0);
    forall i, k | 0 <= i < 1 && 0 <= k < |step([o][i].item)|
      ensures step([o][i].item)[k].0 in {origin} + QueuedItems(queued)
    {
      assert [o][i] == o;
      var j :| 0 <= j < |children| && children[j] == Child(o, 0, step(origin)[k]);
      assert queued[handles[j]].item == step(origin)[k].0;
    }
  }

  /**
   * With several seeds the search starts from the origin, visited and not
   * reported, and its steps, queued.
   */
  lemma StartMulti<N>(step: N -> seq<(N, nat)>, origin: N, isTarget: N -> bool, minResults: int,
                      queued: map<Handle, Record<N>>, handles: seq<Handle>, children: seq<Record<N>>)
    requires !isTarget(origin)
    requires children == Children(step(origin), {}, Record(origin, None, 0), 0)
    requires |handles| == |children|
    requires forall k | 0 <= k < |handles| :: handles[k] in queued && queued[handles[k]] == children[k]
    requires forall h | h in queued :: h in handles
    ensures SearchInv(step, origin, isTarget, minResults, queued, [Record(origin, None, 0)], {origin}, [], [])
  {
    var o := Record(origin, None, 0);
    var arena := [o];
    QueueChildrenLinked(step, origin, arena, o, 0, {}, map[], queued, handles, children);
    StartExpanded(step, origin, queued, handles, children);
    assert ItemsOf(arena) == {origin};
    assert PathsOf(arena, []) == [];
    assert Linked(step, origin, arena[..0], arena[0]);
  }

  /** No queued record is cheaper than the record last appended to the arena. */
  ghost predicate QueueAbove<N>(arena: seq<Record<N>>, queued: map<Handle, Record<N>>)
  {
    arena != [] ==> forall h | h in queued :: Last(arena).cost <= queued[h].cost
  }

  /**
   * Every step out of an arena record to an unvisited node has a queued
   * record for that node at most as expensive as the route through the step.
   */
  ghost predicate Frontier<N>(step: N -> seq<(N, nat)>, arena: seq<Record<N>>, visited: set<N>,
                              queued: map<Handle, Record<N>>)
  {
    forall i, k | 0 <= i < |arena| && 0 <= k < |step(arena[i].item)| && step(arena[i].item)[k].0 !in visited ::
      exists h | h in queued ::
        queued[h].item == step(arena[i].item)[k].0 && queued[h].cost <= arena[i].cost + step(arena[i].item)[k].1
  }

  /**
   * The cost invariant of the loop of `FindAll`: the arena holds cheapest
   * records in order of cost, the queue lies above the arena, and the
   * frontier of the arena is queued at its route costs.
   */
  ghost predicate CostInv<N(!new)>(step: N -> seq<(N, nat)>, origin: N, queued: map<Handle, Record<N>>,
                                   arena: seq<Record<N>>, visited: set<N>)
  {
    && ArenaCheapest(step, origin, arena) && CostOrdered(arena)
    && QueueAbove(arena, queued) && Frontier(step, arena, visited, queued)
  }

  /** The loop invariant of `FindAll` together with its cost invariant. */
  ghost predicate LoopInv<N(!new)>(step: N -> seq<(N, nat)>, origin: N, isTarget: N -> bool, minResults: int,
                                   queued: map<Handle, Record<N>>, arena: seq<Record<N>>, visited: set<N>,
                                   results: seq<Path<N>>, idx: seq<nat>)
  {
    && SearchInv(step, origin, isTarget, minResults, queued, arena, visited, results, idx)
    && CostInv(step, origin, queued, arena, visited)
  }

  /**
   * A walk to the node of the least unvisited queued record costs at least
   * that record: the walk leaves the visited nodes somewhere, and the step
   * that leaves them is queued at no more than the walk's prefix costs.
   */
  lemma WalkCostsAtLeast<N(!new)>(step: N -> seq<(N, nat)>, origin: N, q0: map<Handle, Record<N>>,
                                  arena: seq<Record<N>>, visited: set<N>, x: Record<N>, w: seq<N>, cs: seq<nat>)
    requires ArenaOk(step, origin, arena) && visited == ItemsOf(arena)
    requires QueueLinked(step, origin, arena, q0)
    requires ArenaCheapest(step, origin, arena) && Frontier(step, arena, visited, q0)
    requires x in q0.Values && x.item !in visited
    requires forall h | h in q0 && q0[h].item !in visited :: x.cost <= q0[h].cost
    requires WalkTo(step, origin, x.item, w, cs)
    ensures x.cost <= Sum(cs)
  {
    var j := FirstOutside(w, visited, 0);
    if j == 0 {
      OriginInArena(step, origin, arena);
      var h :| h in q0 && q0[h] == x;
      assert Linked(step, origin, arena, x);
    } else {
      LeaveVisited(step, origin, q0, arena, visited, x, w, cs, j);
      SumPrefix(cs, j);
    }
  }

  /** The queued record the frontier promises for a step out of an arena record. */
  lemma FrontierEntry<N>(step: N -> seq<(N, nat)>, arena: seq<Record<N>>, visited: set<N>,
                         q0: map<Handle, Record<N>>, i: nat, e: (N, nat)) returns (h: Handle)
    requires Frontier(step, arena, visited, q0)
    requires i < |arena| && e in step(arena[i].item) && e.0 !in visited
    ensures h in q0 && q0[h].item == e.0 && q0[h].cost <= arena[i].cost + e.1
  {
    var k :| 0 <= k < |step(arena[i].item)| && step(arena[i].item)[k] == e;
    h :| h in q0 && q0[h].item == e.0 && q0[h].cost <= arena[i].cost + e.1;
  }

  /**
   * Where a walk from the origin first leaves the visited nodes, at its j-th
   * node, the walk so far costs at least the least unvisited queued record.
   */
  lemma LeaveVisited<N(!new)>(step: N -> seq<(N, nat)>, origin: N, q0: map<Handle, Record<N>>,
                              arena: seq<Record<N>>, visited: set<N>, x: Record<N>, w: seq<N>, cs: seq<nat>, j: nat)
    requires visited == ItemsOf(arena)
    requires ArenaCheapest(step, origin, arena) && Frontier(step, arena, visited, q0)
    requires forall h | h in q0 && q0[h].item !in visited :: x.cost <= q0[h].cost
    requires |w| == |cs| + 1 && Walk(step, w, cs) && w[0] == origin
    requires 0 < j < |w| && w[j - 1] in visited && w[j] !in visited
    ensures x.cost <= Sum(cs[..j])
  {
    var i :| 0 <= i < |arena| && arena[i].item == w[j - 1];
    var h := FrontierEntry(step, arena, visited, q0, i, (w[j], cs[j - 1]));
    WalkPrefix(step, origin, w, cs, j - 1);
    assert Cheapest(step, origin, arena[i].item, arena[i].cost);
    SumSnoc(cs, j);
  }

  /** The least unvisited queued record carries the cost of a cheapest walk to its node. */
  lemma PopCheapest<N(!new)>(step: N -> seq<(N, nat)>, origin: N, q0: map<Handle, Record<N>>,
                             arena: seq<Record<N>>, visited: set<N>, x: Record<N>)
    requires ArenaOk(step, origin, arena) && visited == ItemsOf(arena)
    requires QueueLinked(step, origin, arena, q0)
    requires ArenaCheapest(step, origin, arena) && Frontier(step, arena, visited, q0)
    requires x in q0.Values && x.item !in visited
    requires forall h | h in q0 && q0[h].item !in visited :: x.cost <= q0[h].cost
    ensures Cheapest(step, origin, x.item, x.cost)
  {
    forall w: seq<N>, cs: seq<nat> | WalkTo(step, origin, x.item, w, cs) ensures x.cost <= Sum(cs) {
      WalkCostsAtLeast(step, origin, q0, arena, visited, x, w, cs);
    }
  }

  /** Appending a cheapest record no cheaper than the last keeps the arena cheapest and in cost order. */
  lemma AppendCheapest<N(!new)>(step: N -> seq<(N, nat)>, origin: N, arena: seq<Record<N>>, x: Record<N>)
    requires ArenaCheapest(step, origin, arena) && CostOrdered(arena)
    requires Cheapest(step, origin, x.item, x.cost)
    requires arena != [] ==> Last(arena).cost <= x.cost
    ensures ArenaCheapest(step, origin, arena + [x]) && CostOrdered(arena + [x])
  {
    CheapestAppend(step, origin, arena, x);
    var a := arena + [x];
    assert forall i | 0 <= i < |arena| :: a[i] == arena[i];
  }

  /** Appending the least unvisited record keeps the arena cheapest and in cost order. */
  lemma PopCosts<N(!new)>(step: N -> seq<(N, nat)>, origin: N, q0: map<Handle, Record<N>>,
                          arena: seq<Record<N>>, visited: set<N>, x: Record<N>)
    requires ArenaOk(step, origin, arena) && visited == ItemsOf(arena)
    requires QueueLinked(step, origin, arena, q0)
    requires CostInv(step, origin, q0, arena, visited)
    requires x in q0.Values && x.item !in visited
    requires forall h | h in q0 && q0[h].item !in visited :: x.cost <= q0[h].cost
    ensures ArenaCheapest(step, origin, arena + [x]) && CostOrdered(arena + [x])
  {
    PopCheapest(step, origin, q0, arena, visited, x);
    if arena != [] {
      var h :| h in q0 && q0[h] == x;
      assert Last(arena).cost <= q0[h].cost;
    }
    AppendCheapest(step, origin, arena, x);
  }

  /** Queueing the children of the popped record restores the queue half of the cost invariant. */
  lemma FrontierStep<N>(step: N -> seq<(N, nat)>, q0: map<Handle, Record<N>>,
                        q1: map<Handle, Record<N>>, q2: map<Handle, Record<N>>,
                        arena: seq<Record<N>>, visited: set<N>, x: Record<N>,
                        handles: seq<Handle>, children: seq<Record<N>>)
    requires Frontier(step, arena, visited, q0) && x.item !in visited
    requires forall h | h in q1 :: x.cost <= q1[h].cost
    requires q1.Keys <= q0.Keys && forall h | h in q1 :: q1[h] == q0[h]
    requires forall h | h in q0 && h !in q1 :: q0[h].item in visited || q0[h] == x
    requires children == Children(step(x.item), visited + {x.item}, x, |arena|)
    requires |handles| == |children|
    requires forall h | h in q1 :: h in q2 && q2[h] == q1[h]
    requires forall k | 0 <= k < |handles| :: handles[k] in q2 && q2[handles[k]] == children[k]
    requires forall h | h in q2 :: h in q1 || h in handles
    ensures QueueAbove(arena + [x], q2) && Frontier(step, arena + [x], visited + {x.item}, q2)
  {
    ChildrenSpec(step(x.item), visited + {x.item}, x, |arena|);
    var a := arena + [x];
    forall h | h in q2 ensures x.cost <= q2[h].cost {
      if h !in q1 {
        var k :| 0 <= k < |handles| && handles[k] == h;
        var j :| 0 <= j < |step(x.item)| && children[k] == Child(x, |arena|, step(x.item)[j]);
      }
    }
    forall i, k | 0 <= i < |a| && 0 <= k < |step(a[i].item)| && step(a[i].item)[k].0 !in visited + {x.item}
      ensures exists h | h in q2 :: q2[h].item == step(a[i].item)[k].0 && q2[h].cost <= a[i].cost + step(a[i].item)[k].1
    {
      var e := step(a[i].item)[k];
      if i < |arena| {
        assert a[i] == arena[i];
        var h :| h in q0 && q0[h].item == e.0 && q0[h].cost <= arena[i].cost + e.1;
        assert h in q1;
        assert q2[h] == q0[h];
      } else {
        var j :| 0 <= j < |children| && children[j] == Child(x, |arena|, e);
        assert q2[handles[j]] == children[j];
      }
    }
  }

  /** The cost invariant holds at the start, with one seed or with several. */
  lemma StartCosts<N(!new)>(step: N -> seq<(N, nat)>, origin: N,
                            queued: map<Handle, Record<N>>, handles: seq<Handle>, children: seq<Record<N>>)
    requires children == Children(step(origin), {}, Record(origin, None, 0), 0)
    requires |handles| == |children|
    requires forall k | 0 <= k < |handles| :: handles[k] in queued && queued[handles[k]] == children[k]
    ensures CostInv(step, origin, queued, [Record(origin, None, 0)], {origin})
  {
    var o := Record(origin, None, 0);
    ChildrenSpec(step(origin), {}, o, 0);
    forall i, k | 0 <= i < 1 && 0 <= k < |step([o][i].item)| && step([o][i].item)[k].0 !in {origin}
      ensures exists h | h in queued ::
        queued[h].item == step([o][i].item)[k].0 && queued[h].cost <= [o][i].cost + step([o][i].item)[k].1
    {
      assert [o][i] == o;
      var j :| 0 <= j < |children| && children[j] == Child(o, 0, step(origin)[k]);
      assert queued[handles[j]] == children[j];
    }
  }

  /** `DijkstraSearch<TNode>`: the expander is fixed at construction. */
  class DijkstraSearch<N(==,!new)> {
    const expander: N -> seq<(N, nat)>

    constructor (expander: N -> seq<(N, nat)>)
      ensures this.expander == expander
    {
      this.expander := expander;
    }

    /**
     * The do-while of `FindAll`: delete the least entry until one for an
     * unvisited node comes out.  A delete from an empty queue fails with
     * `NoSuchItem`, as the heap does.
     */
    method PopUnvisited(queue: IntervalHeap<Record<N>>, visited: set<N>) returns (r: Result<Record<N>>)
      requires queue.Valid() && queue.rank == ByCost() && queue.items != map[]
      modifies queue
      ensures queue.Valid()
      ensures queue.items.Keys <= old(queue.items).Keys
      ensures forall h | h in queue.items :: queue.items[h] == old(queue.items)[h]
      ensures forall h | h in old(queue.items) && h !in queue.items ::
        old(queue.items)[h].item in visited || (r.Ok? && old(queue.items)[h] == r.value)
      ensures r.Ok? ==> r.value.item !in visited && r.value in old(queue.items).Values
      ensures r.Ok? ==> forall h | h in old(queue.items) && old(queue.items)[h].item !in visited ::
        r.value.cost <= old(queue.items)[h].cost
      ensures r.Ok? ==> forall h | h in queue.items :: r.value.cost <= queue.items[h].cost
      ensures r.Err? ==> r.error == NoSuchItem && queue.items == map[]
    {
      var h, x := queue.DeleteMin();
      while x.item in visited
        invariant queue.Valid() && queue.rank == ByCost()
        invariant queue.items.Keys <= old(queue.items).Keys
        invariant forall h' | h' in queue.items :: queue.items[h'] == old(queue.items)[h']
        invariant x in old(queue.items).Values
        invariant forall h' | h' in old(queue.items) && h' !in queue.items ::
          old(queue.items)[h'].item in visited || old(queue.items)[h'] == x
        invariant forall h' | h' in queue.items :: x.cost <= queue.items[h'].cost
        decreases queue.items.Keys
      {
        if queue.Count() == 0 {
          return Err(NoSuchItem);
        }
        h, x := queue.DeleteMin();
      }
      r := Ok(x);
    }

    /**
     * One turn of the loop of `FindAll`: pop the least unvisited record,
     * append it to the arena, report it if it is a target and stop (`Ok(true)`)
     * once `minResults` paths are known; otherwise queue its unvisited
     * successors.  `Err(NoSuchItem)` when only visited entries were left.
     */
    method SearchStep(queue: IntervalHeap<Record<N>>, step: N -> seq<(N, nat)>, ghost origin: N,
                      isTarget: N -> bool, minResults: int,
                      arena: seq<Record<N>>, visited: set<N>, results: seq<Path<N>>, ghost idx: seq<nat>)
      returns (arena': seq<Record<N>>, visited': set<N>, results': seq<Path<N>>, ghost idx': seq<nat>,
               status: Result<bool>)
      requires queue.Valid() && queue.rank == ByCost() && queue.items != map[]
      requires LoopInv(step, origin, isTarget, minResults, queue.items, arena, visited, results, idx)
      modifies queue
      ensures queue.Valid()
      ensures status.Err? ==> status.error == NoSuchItem && queue.items == map[] && arena' == arena
      ensures status.Err? ==> (results' == [] || |results'| < minResults) && origin in visited' && Closed(step, visited')
      ensures status.Ok? ==> |arena'| == |arena| + 1
      ensures status != Ok(false) ==> Settled(step, origin, isTarget, minResults, arena', visited', results', idx')
      ensures status == Ok(false) ==>
        LoopInv(step, origin, isTarget, minResults, queue.items, arena', visited', results', idx')
      ensures status != Ok(false) ==> ArenaCheapest(step, origin, arena') && CostOrdered(arena')
    {
      ghost var q0 := queue.items;
      var popped := PopUnvisited(queue, visited);
      if popped.Err? {
        AfterDrain(step, origin, isTarget, minResults, q0, arena, visited, results, idx);
        return arena, visited, results, idx, Err(NoSuchItem);
      }
      var cur := popped.value;
      ghost var q1 := queue.items;
      AfterPop(step, origin, isTarget, minResults, q0, q1, arena, visited, results, idx, cur);
      PopCosts(step, origin, q0, arena, visited, cur);
      var curIdx := |arena|;
      arena' := arena + [cur];
      visited' := visited + {cur.item};
      results', idx' := results, idx;
      if isTarget(cur.item) {
        results' := results + [PathOf(arena', curIdx)];
        idx' := idx + [curIdx];
      }
      AfterVisit(step, origin, isTarget, minResults, q1, arena, cur, visited, results, idx, results', idx');
      if isTarget(cur.item) && |results'| >= minResults {
        return arena', visited', results', idx', Ok(true);
      }
      var children := Children(step(cur.item), visited', cur, curIdx);
      var handles := queue.AddAll(children);
      ExpandStep(step, origin, isTarget, minResults, q1, queue.items, arena, cur, visited, results', idx',
                 handles, children);
      FrontierStep(step, q0, q1, queue.items, arena, visited, cur, handles, children);
      status := Ok(false);
    }

    /**
     * The loop of `FindAll` from a start state.  `drained` tells that it
     * ended because only visited entries were left in the queue.
     */
    method Explore(queue: IntervalHeap<Record<N>>, step: N -> seq<(N, nat)>, origin: N, isTarget: N -> bool,
                   minResults: int, fuel: nat, arena0: seq<Record<N>>, visited0: set<N>)
      returns (r: Result<seq<Path<N>>>, drained: bool, ghost explored: set<N>, ghost costs: seq<seq<nat>>)
      requires queue.Valid() && queue.rank == ByCost()
      requires SearchInv(step, origin, isTarget, minResults, queue.items, arena0, visited0, [], [])
      requires CostInv(step, origin, queue.items, arena0, visited0)
      modifies queue
      ensures r.Err? ==> r.error == OutOfFuel && fuel <= |explored| && !drained
      ensures r.Ok? ==> Answer(step, origin, isTarget, minResults, r.value, explored, costs)
      ensures r.Ok? ==> Shortest(step, origin, r.value)
      ensures drained ==> r.Ok? && (r.value == [] || |r.value| < minResults)
      ensures drained ==> Exhaustive(step, origin, isTarget, r.value, explored)
      ensures forall s: set<N> | origin in s && Closed(step, s) :: explored <= s
    {
      var visited := visited0;
      var arena := arena0;
      var results: seq<Path<N>> := [];
      ghost var resultIdx: seq<nat> := [];
      var stopped := false;
      drained := false;

      while queue.Count() > 0
        invariant queue.Valid() && queue.rank == ByCost() && !drained
        invariant LoopInv(step, origin, isTarget, minResults, queue.items, arena, visited, results, resultIdx)
        decreases if |arena| <= fuel then fuel - |arena| else 0
      {
        if |arena| >= fuel {
          explored := visited;
          OutOfFuelState(step, origin, isTarget, minResults, queue.items, arena, visited, results, resultIdx);
          return Err(OutOfFuel), false, explored, [];
        }
        var status;
        arena, visited, results, resultIdx, status :=
          SearchStep(queue, step, origin, isTarget, minResults, arena, visited, results, resultIdx);
        if status != Ok(false) {
          stopped := true;
          drained := status.Err?;
          break;
        }
      }
      if !stopped {
        AfterEmpty(step, origin, isTarget, minResults, arena, visited, results, resultIdx);
      }
      costs := ConcludeSettled(step, origin, isTarget, minResults, arena, visited, results, resultIdx);
      ResultsShortest(step, origin, isTarget, arena, results, resultIdx);
      if drained {
        ResultsSound(step, origin, isTarget, arena, results, resultIdx);
      }
      r := Ok(results);
      explored := visited;
    }

    /**
     * `FindAll` over seeds up to the end of its loop: the single seed of cost
     * 0 is the origin (`InvalidOperation` when there is none or more than
     * one); with several seeds the origin is visited at once and the seeds
     * of positive cost are queued as its children, otherwise the origin
     * alone is queued.  `drained` tells that the loop met a queue holding
     * only visited entries.
     */
    method Run(seeds: seq<(N, nat)>, isTarget: N -> bool, minResults: int, fuel: nat)
      returns (r: Result<seq<Path<N>>>, drained: bool, ghost explored: set<N>, ghost costs: seq<seq<nat>>)
      ensures SingleOrigin(seeds).Err? ==> r == Err(InvalidOperation) && !drained
      ensures r.Err? ==> SingleOrigin(seeds).Err? || (r.error == OutOfFuel && fuel <= |explored| && !drained)
      ensures r.Ok? ==> SingleOrigin(seeds).Ok?
      ensures SingleOrigin(seeds).Ok? ==>
        var o := SingleOrigin(seeds).value;
        var step := SeedStep(expander, seeds, o);
        && (r.Ok? ==> Answer(step, o, Reportable(isTarget, seeds, o), minResults, r.value, explored, costs))
        && (r.Ok? ==> Shortest(step, o, r.value))
        && (drained ==> r.Ok? && (r.value == [] || |r.value| < minResults))
        && (drained ==> r.Ok? && Exhaustive(step, o, Reportable(isTarget, seeds, o), r.value, explored))
        && forall s: set<N> | o in s && Closed(step, s) :: explored <= s
    {
      var single := SingleOrigin(seeds);
      if single.Err? {
        return Err(InvalidOperation), false, {}, [];
      }
      var origin := single.value;
      var step := SeedStep(expander, seeds, origin);
      var isT := Reportable(isTarget, seeds, origin);
      var queue := new IntervalHeap(ByCost());
      var o := Record(origin, None, 0);
      var arena, visited;
      if |seeds| > 1 {
        arena, visited := [o], {origin};
        var children := Children(PositiveSeeds(seeds), {}, o, 0);
        var handles := queue.AddAll(children);
        assert step(origin) == PositiveSeeds(seeds);
        StartMulti(step, origin, isT, minResults, queue.items, handles, children);
        StartCosts(step, origin, queue.items, handles, children);
      } else {
        arena, visited := [], {};
        var h := queue.Add(o);
        StartSingle(step, origin, isT, minResults, queue.items, h);
      }
      r, drained, explored, costs := Explore(queue, step, origin, isT, minResults, fuel, arena, visited);
    }

    /**
     * `FindAll` over seeds as written: the do-while deletes from the queue
     * without checking that it is empty, so a search whose queue ends with
     * visited entries only fails with `NoSuchItem`, and it does so exactly
     * where the whole reachable region has been explored.
     */
    method FindAllSeeded(seeds: seq<(N, nat)>, isTarget: N -> bool, minResults: int, fuel: nat)
      returns (r: Result<seq<Path<N>>>, ghost explored: set<N>, ghost costs: seq<seq<nat>>)
      ensures r.Err? ==> r.error in {InvalidOperation, OutOfFuel, NoSuchItem}
      ensures r == Err(InvalidOperation) <==> SingleOrigin(seeds).Err?
      ensures r == Err(OutOfFuel) ==> fuel <= |explored|
      ensures SingleOrigin(seeds).Ok? ==>
        var o := SingleOrigin(seeds).value;
        var step := SeedStep(expander, seeds, o);
        && (r.Ok? ==> Answer(step, o, Reportable(isTarget, seeds, o), minResults, r.value, explored, costs))
        && (r.Ok? ==> Shortest(step, o, r.value))
        && (r == Err(NoSuchItem) ==> exists paths ::
              (paths == [] || |paths| < minResults) && Exhaustive(step, o, Reportable(isTarget, seeds, o), paths, explored))
        && forall s: set<N> | o in s && Closed(step, s) :: explored <= s
    {
      var drained;
      r, drained, explored, costs := Run(seeds, isTarget, minResults, fuel);
      if drained {
        ghost var found := r.value;
        assert found == [] || |found| < minResults;
        r := Err(NoSuchItem);
      }
    }

    /** `FindAll(initialNode, ...)` as written: the search from one seed of cost 0. */
    method FindAll(initial: N, isTarget: N -> bool, minResults: int, fuel: nat)
      returns (r: Result<seq<Path<N>>>, ghost explored: set<N>, ghost costs: seq<seq<nat>>)
      ensures r.Err? ==> r.error in {OutOfFuel, NoSuchItem}
      ensures r == Err(OutOfFuel) ==> fuel <= |explored|
      ensures r.Ok? ==> Answer(expander, initial, isTarget, minResults, r.value, explored, costs)
      ensures r.Ok? ==> Shortest(expander, initial, r.value)
      ensures r == Err(NoSuchItem) ==> exists paths ::
        (paths == [] || |paths| < minResults) && Exhaustive(expander, initial, isTarget, paths, explored)
      ensures forall s: set<N> | initial in s && Closed(expander, s) :: explored <= s
    {
      var seeds := [(initial, 0)];
      assert ZeroSeeds(seeds) == [initial];
      r, explored, costs := FindAllSeeded(seeds, isTarget, minResults, fuel);
    }

    /**
     * `FindFirst` as written: `FindAll` with `minResults` 1, then the first
     * path if any.  A search that explores the whole region without meeting
     * a target ends in `NoSuchItem` when stale entries are left, and with no
     * path when the queue empties.
     */
    method FindFirst(initial: N, isTarget: N -> bool, fuel: nat)
      returns (r: Result<Option<Path<N>>>, ghost explored: set<N>, ghost cost: seq<nat>)
      ensures r.Err? ==> r.error in {OutOfFuel, NoSuchItem}
      ensures r.Ok? && r.value.Some? ==> IsResult(expander, initial, isTarget, r.value.value, cost)
      ensures r.Ok? && r.value.Some? ==> Cheapest(expander, initial, r.value.value.target, r.value.value.cost)
      ensures r == Ok(None) || r == Err(NoSuchItem) ==>
        && initial in explored && Closed(expander, explored)
        && forall n | n in explored :: !isTarget(n)
    {
      var all;
      ghost var costs;
      all, explored, costs := FindAll(initial, isTarget, 1, fuel);
      match all
      case Err(e) =>
        if e == NoSuchItem {
          ghost var paths :| (paths == [] || |paths| < 1) && Exhaustive(expander, initial, isTarget, paths, explored);
          assert Targets(paths) == {};
        }
        r, cost := Err(e), [];
      case Ok(paths) =>
        if |paths| > 0 {
          r, cost := Ok(Some(paths[0])), costs[0];
        } else {
          r, cost := Ok(None), [];
        }
    }

    /**
     * `FindAll` over seeds, with the queue's emptiness checked before every
     * delete: a search that runs out of unvisited entries ends with the
     * paths found so far.
     */
    method FindAllSeededChecked(seeds: seq<(N, nat)>, isTarget: N -> bool, minResults: int, fuel: nat)
      returns (r: Result<seq<Path<N>>>, ghost explored: set<N>, ghost costs: seq<seq<nat>>)
      ensures r == Err(InvalidOperation) <==> SingleOrigin(seeds).Err?
      ensures r.Err? ==> SingleOrigin(seeds).Err? || (r.error == OutOfFuel && fuel <= |explored|)
      ensures SingleOrigin(seeds).Ok? ==>
        var o := SingleOrigin(seeds).value;
        var step := SeedStep(expander, seeds, o);
        && (r.Ok? ==> Answer(step, o, Reportable(isTarget, seeds, o), minResults, r.value, explored, costs))
        && (r.Ok? ==> Shortest(step, o, r.value))
        && forall s: set<N> | o in s && Closed(step, s) :: explored <= s
    {
      var drained;
      r, drained, explored, costs := Run(seeds, isTarget, minResults, fuel);
    }

    /** `FindAll(initialNode, ...)` with the emptiness check: fails only when the fuel runs out. */
    method FindAllChecked(initial: N, isTarget: N -> bool, minResults: int, fuel: nat)
      returns (r: Result<seq<Path<N>>>, ghost explored: set<N>, ghost costs: seq<seq<nat>>)
      ensures r.Err? ==> r.error == OutOfFuel && fuel <= |explored|
      ensures r.Ok? ==> Answer(expander, initial, isTarget, minResults, r.value, explored, costs)
      ensures r.Ok? ==> Shortest(expander, initial, r.value)
      ensures forall s: set<N> | initial in s && Closed(expander, s) :: explored <= s
    {
      var seeds := [(initial, 0)];
      assert ZeroSeeds(seeds) == [initial];
      r, explored, costs := FindAllSeededChecked(seeds, isTarget, minResults, fuel);
    }

    /** `FindFirst` over `FindAllChecked`: no path exactly when the whole region holds no target. */
    method FindFirstChecked(initial: N, isTarget: N -> bool, fuel: nat)
      returns (r: Result<Option<Path<N>>>, ghost explored: set<N>, ghost cost: seq<nat>)
      ensures r.Err? ==> r.error == OutOfFuel
      ensures r.Ok? && r.value.Some? ==> IsResult(expander, initial, isTarget, r.value.value, cost)
      ensures r.Ok? && r.value.Some? ==> Cheapest(expander, initial, r.value.value.target, r.value.value.cost)
      ensures r.Ok? && r.value.None? ==>
        && initial in explored && Closed(expander, explored)
        && forall n | n in explored :: !isTarget(n)
    {
      var all;
      ghost var costs;
      all, explored, costs := FindAllChecked(initial, isTarget, 1, fuel);
      match all
      case Err(e) =>
        r, cost := Err(e), [];
      case Ok(paths) =>
        if |paths| > 0 {
          r, cost := Ok(Some(paths[0])), costs[0];
        } else {
          r, cost := Ok(None), [];
        }
    }
}

  /** A graph on which the search ends with a stale entry: `c` is queued from `a` at 5 and from `b` at 2. */
  function StaleGraph(n: char): (succ: seq<(char, nat)>)
    ensures n == 'a' ==> succ == [('b', 1), ('c', 5)]
    ensures n == 'b' ==> succ == [('c', 1)]
  {
    if n == 'a' then [('b', 1), ('c', 5)]
    else if n == 'b' then [('c', 1)]
    else []
  }

  /**
   * The search on `StaleGraph` from `a`: expanding `a` queues `b` at 1 and
   * `c` at 5; expanding `b`, popped first, queues `c` again at 2, which is
   * popped before the entry at 5; expanding `c` queues nothing.  So once
   * `a`, `b` and `c` are visited the queue holds the stale `c` at 5 alone,
   * and `{a, b, c}` is closed.
   */
  lemma StaleTrace()
    ensures var a := Record('a', None, 0);
      Children(StaleGraph('a'), {'a'}, a, 0) == [Record('b', Some(0), 1), Record('c', Some(0), 5)]
    ensures var b := Record('b', Some(0), 1);
      Children(StaleGraph('b'), {'a', 'b'}, b, 1) == [Record('c', Some(1), 2)]
    ensures Children(StaleGraph('c'), {'a', 'b', 'c'}, Record('c', Some(1), 2), 2) == []
    ensures Closed(StaleGraph, {'a', 'b', 'c'})
  {
    var a := Record('a', None, 0);
    assert Children(StaleGraph('a')[1..], {'a'}, a, 0) == [Record('c', Some(0), 5)];
  }

  /**
   * The turn of the loop of `FindAll` after `a`, `b` and `c` are visited:
   * the queue is not empty, so the loop goes round again, and the do-while
   * deletes the stale entry and then deletes from the empty queue.
   */
  method StaleEntryExample() returns (r: Result<Record<char>>)
    ensures r == Err(NoSuchItem)
  {
    var search := new DijkstraSearch(StaleGraph);
    var queue := new IntervalHeap(ByCost());
    var _ := queue.Add(Record('c', Some(0), 5));
    r := search.PopUnvisited(queue, {'a', 'b', 'c'});
  }
}
