/**
 * The older Dijkstra search of Dijkstra.cs (`DijkstraSearch<TNode, TEdge>`).
 *
 * It differs from the search of Core/Dijkstra.cs in three ways, all kept
 * here: costs are `uint` and wrap around on overflow; a successor is tested
 * against the target predicate when it is generated, not when it leaves the
 * queue; and the visited set holds `DijkstraNode` objects compared by
 * reference, only ever one of them, which is never in the queue, so it keeps
 * no successor out.  To state that last point a `DijkstraNode` carries an
 * identity `id`: the objects are numbered in the order they are created.
 *
 * Popped records go into an arena as in the other searches; a generated
 * record's predecessor is the arena index of the record it was expanded from.
 */
module LegacyDijkstra {

  import opened Wrappers
  import opened IntWidths
  import opened IntervalHeaps
  import opened Graphs
  import opened SearchArena

  /** `DijkstraNode`: object identity, node, predecessor's arena index, cost. */
  datatype DijkstraNode<N> = DijkstraNode(id: nat, item: N, pred: Option<nat>, cost: nat)

  /** The origin object put into the queue. */
  const QUEUED_ORIGIN: nat := 0
  /** The second origin object, the one in `nextNodes`, which is all `visitedNodes` ever receives. */
  const SEED: nat := 1

  /** `CompareTo`: the queue is ordered by Cost alone. */
  function ByCost<N>(): DijkstraNode<N> -> int
  {
    (n: DijkstraNode<N>) => n.cost
  }

  function AsRecord<N>(n: DijkstraNode<N>): Record<N>
  {
    Record(n.item, n.pred, n.cost)
  }

  /** `predecessor.Cost + edgeCost` in unchecked `uint` arithmetic. */
  function AddCost(cost: nat, edgeCost: nat): (c: nat)
    ensures c < TWO_32 && (c - (cost + edgeCost)) % TWO_32 == 0
    ensures cost + edgeCost < TWO_32 ==> c == cost + edgeCost
    ensures TWO_32 <= cost + edgeCost < 2 * TWO_32 ==> c == cost + edgeCost - TWO_32
  {
    WrapU32(cost + edgeCost)
  }

  /** A record made by the search: the origin at cost 0, or a successor of an arena record at the wrapped cost. */
  ghost predicate WrapLinked<N>(expander: N -> seq<(N, nat)>, initial: N, arena: seq<Record<N>>, r: Record<N>)
  {
    match r.pred
    case None => r.item == initial && r.cost == 0
    case Some(p) =>
      p < |arena| && exists e :: (r.item, e) in expander(arena[p].item) && r.cost == AddCost(arena[p].cost, e)
  }

  ghost predicate WrapArenaOk<N>(expander: N -> seq<(N, nat)>, initial: N, arena: seq<Record<N>>)
  {
    && Ordered(arena)
    && forall i | 0 <= i < |arena| :: WrapLinked(expander, initial, arena, arena[i])
  }

  /** The edge costs along the predecessor chain, origin first. */
  ghost function WrapEdgeCosts<N>(expander: N -> seq<(N, nat)>, initial: N, arena: seq<Record<N>>, i: nat): seq<nat>
    requires WrapArenaOk(expander, initial, arena) && i < |arena|
    decreases i
  {
    assert WrapLinked(expander, initial, arena, arena[i]);
    match arena[i].pred
    case None => []
    case Some(p) =>
      var e :| (arena[i].item, e) in expander(arena[p].item) && arena[i].cost == AddCost(arena[p].cost, e);
      WrapEdgeCosts(expander, initial, arena, p) + [e]
  }

  /** A reported path: from the origin to a target, its cost the wrapped sum of its edge costs. */
  ghost predicate WrapResult<N>(expander: N -> seq<(N, nat)>, initial: N, isTarget: N -> bool, p: Path<N>, costs: seq<nat>)
  {
    && |p.steps| > 0
    && p.steps[0] == initial
    && Last(p.steps) == p.target
    && isTarget(p.target)
    && p.length == |p.steps| - 1
    && Walk(expander, p.steps, costs)
    && p.cost == WrapU32(Sum(costs))
  }

  ghost predicate Sound<N>(expander: N -> seq<(N, nat)>, initial: N, isTarget: N -> bool, p: Path<N>)
  {
    exists costs :: WrapResult(expander, initial, isTarget, p, costs)
  }

  lemma SumAppend(s: seq<nat>, e: nat)
    ensures Sum(s + [e]) == Sum(s) + e
  {
    assert (s + [e])[..|s|] == s;
  }

  lemma WrapAdd(a: nat, e: nat)
    ensures AddCost(WrapU32(a), e) == WrapU32(a + e)
  {
  }

  /** The path of an arena record runs from the origin to it, at the wrapped cost of its edges. */
  lemma {:induction false} WrapPathOfIsWalk<N>(expander: N -> seq<(N, nat)>, initial: N, arena: seq<Record<N>>, i: nat)
    requires WrapArenaOk(expander, initial, arena) && i < |arena|
    ensures var p := PathOf(arena, i);
      var costs := WrapEdgeCosts(expander, initial, arena, i);
      && p.steps[0] == initial && Last(p.steps) == p.target == arena[i].item
      && p.length == |p.steps| - 1
      && Walk(expander, p.steps, costs)
      && p.cost == WrapU32(Sum(costs))
    decreases i
  {
    assert WrapLinked(expander, initial, arena, arena[i]);
    var h := History(arena, i);
    match arena[i].pred
    case None =>
    case Some(p) =>
      WrapPathOfIsWalk(expander, initial, arena, p);
      var hp := History(arena, p);
      assert h[1..] == hp;
      assert Reverse(h) == Reverse(hp) + [arena[i].item];
      var cp := WrapEdgeCosts(expander, initial, arena, p);
      var c := WrapEdgeCosts(expander, initial, arena, i);
      var e := c[|c| - 1];
      assert c == cp + [e];
      assert (cp + [e])[..|cp|] == cp;
      SumAppend(cp, e);
      WrapAdd(Sum(cp), e);
  }

  /** Appending a well-made record keeps the arena well made, and every record made from it so. */
  lemma WrapAppend<N>(expander: N -> seq<(N, nat)>, initial: N, arena: seq<Record<N>>, x: Record<N>)
    requires WrapArenaOk(expander, initial, arena) && WrapLinked(expander, initial, arena, x)
    ensures WrapArenaOk(expander, initial, arena + [x])
    ensures forall r | WrapLinked(expander, initial, arena, r) :: WrapLinked(expander, initial, arena + [x], r)
  {
    var a := arena + [x];
    forall r | WrapLinked(expander, initial, arena, r) ensures WrapLinked(expander, initial, a, r) {
      if r.pred.Some? {
        assert a[r.pred.value] == arena[r.pred.value];
      }
    }
  }

  /** The path constructor for a generated record whose predecessor is in the arena. */
  function NodePath<N>(arena: seq<Record<N>>, node: DijkstraNode<N>): Path<N>
    requires Ordered(arena) && (node.pred.Some? ==> node.pred.value < |arena|)
  {
    PathOf(arena + [AsRecord(node)], |arena|)
  }

  /** A generated record's path is a sound result when it is a target. */
  lemma NodePathSound<N>(expander: N -> seq<(N, nat)>, initial: N, isTarget: N -> bool, arena: seq<Record<N>>,
                         node: DijkstraNode<N>)
    requires WrapArenaOk(expander, initial, arena) && WrapLinked(expander, initial, arena, AsRecord(node))
    requires isTarget(node.item)
    ensures Sound(expander, initial, isTarget, NodePath(arena, node))
    ensures NodePath(arena, node).target == node.item
  {
    WrapAppend(expander, initial, arena, AsRecord(node));
    WrapPathOfIsWalk(expander, initial, arena + [AsRecord(node)], |arena|);
    var costs := WrapEdgeCosts(expander, initial, arena + [AsRecord(node)], |arena|);
    assert WrapResult(expander, initial, isTarget, NodePath(arena, node), costs);
  }

  /**
   * The successors of the popped record `cur` as new `DijkstraNode` objects
   * numbered from `nextId`, less those `visitedNodes` holds by reference.
   */
  function Expand<N>(succ: seq<(N, nat)>, cur: DijkstraNode<N>, curIdx: nat, nextId: nat, visited: set<nat>)
    : seq<DijkstraNode<N>>
  {
    if succ == [] then []
    else
      var d := DijkstraNode(nextId, succ[0].0, Some(curIdx), AddCost(cur.cost, succ[0].1));
      (if d.id in visited then [] else [d]) + Expand(succ[1..], cur, curIdx, nextId + 1, visited)
  }

  /**
   * Every successor is a new object, so the visited set, whose objects are
   * all older, keeps none of them out: each edge gives one queued record.
   */
  lemma {:induction false} ExpandKeepsAll<N>(succ: seq<(N, nat)>, cur: DijkstraNode<N>, curIdx: nat, nextId: nat,
                                             visited: set<nat>)
    requires forall id | id in visited :: id < nextId
    ensures |Expand(succ, cur, curIdx, nextId, visited)| == |succ|
    ensures forall k | 0 <= k < |succ| ::
      (Expand(succ, cur, curIdx, nextId, visited)[k]
       == DijkstraNode(nextId + k, succ[k].0, Some(curIdx), AddCost(cur.cost, succ[k].1)))
    decreases |succ|
  {
    if succ != [] {
      ExpandKeepsAll(succ[1..], cur, curIdx, nextId + 1, visited);
      var rest := Expand(succ[1..], cur, curIdx, nextId + 1, visited);
      var d := DijkstraNode(nextId, succ[0].0, Some(curIdx), AddCost(cur.cost, succ[0].1));
      assert Expand(succ, cur, curIdx, nextId, visited) == [d] + rest;
      forall k | 1 <= k < |succ| ensures succ[1..][k - 1] == succ[k] {
      }
    }
  }

  /** The paths the `foreach` over the expanded records adds: one per target, in order. */
  function TargetPaths<N>(arena: seq<Record<N>>, nodes: seq<DijkstraNode<N>>, isTarget: N -> bool): seq<Path<N>>
    requires Ordered(arena) && forall k | 0 <= k < |nodes| :: nodes[k].pred.Some? && nodes[k].pred.value < |arena|
  {
    if nodes == [] then []
    else
      var init := nodes[..|nodes| - 1];
      var x := nodes[|nodes| - 1];
      TargetPaths(arena, init, isTarget) + if isTarget(x.item) then [NodePath(arena, x)] else []
  }

  /** Each added path is sound, and the targets it names are the targets among the records. */
  lemma {:induction false} TargetPathsSpec<N>(expander: N -> seq<(N, nat)>, initial: N, isTarget: N -> bool,
                                              arena: seq<Record<N>>, nodes: seq<DijkstraNode<N>>)
    requires WrapArenaOk(expander, initial, arena)
    requires forall k | 0 <= k < |nodes| :: nodes[k].pred.Some? && nodes[k].pred.value < |arena|
    requires forall k | 0 <= k < |nodes| :: WrapLinked(expander, initial, arena, AsRecord(nodes[k]))
    ensures var ps := TargetPaths(arena, nodes, isTarget);
      && (forall j | 0 <= j < |ps| :: Sound(expander, initial, isTarget, ps[j]))
      && forall k | 0 <= k < |nodes| && isTarget(nodes[k].item) :: nodes[k].item in Targets(ps)
  {
    if nodes != [] {
      var init := nodes[..|nodes| - 1];
      var x := nodes[|nodes| - 1];
      TargetPathsSpec(expander, initial, isTarget, arena, init);
      var pi := TargetPaths(arena, init, isTarget);
      var ps := TargetPaths(arena, nodes, isTarget);
      assert forall j | 0 <= j < |pi| :: ps[j] == pi[j];
      if isTarget(x.item) {
        NodePathSound(expander, initial, isTarget, arena, x);
        assert ps[|pi|] == NodePath(arena, x);
      }
      forall k | 0 <= k < |nodes| && isTarget(nodes[k].item) ensures nodes[k].item in Targets(ps) {
        if k < |init| {
          assert init[k] == nodes[k];
          var j :| 0 <= j < |pi| && pi[j].target == nodes[k].item;
          assert ps[j] == pi[j];
        } else {
          assert ps[|pi|] == NodePath(arena, x);
        }
      }
    }
  }

  function QueuedItems<N>(queued: map<Handle, DijkstraNode<N>>): set<N>
  {
    set h | h in queued :: queued[h].item
  }

  /** Every queued record is well made, and every queued target has been reported. */
  ghost predicate QueueOk<N>(expander: N -> seq<(N, nat)>, initial: N, isTarget: N -> bool,
                             queued: map<Handle, DijkstraNode<N>>, arena: seq<Record<N>>, known: set<N>)
  {
    forall h | h in queued ::
      && WrapLinked(expander, initial, arena, AsRecord(queued[h]))
      && (isTarget(queued[h].item) ==> queued[h].item in known)
  }

  ghost predicate AllSound<N>(expander: N -> seq<(N, nat)>, initial: N, isTarget: N -> bool, results: seq<Path<N>>)
  {
    forall j | 0 <= j < |results| :: Sound(expander, initial, isTarget, results[j])
  }

  /** The origin, when it is a target, is reported first, as the path of one node. */
  ghost predicate OriginFirst<N>(initial: N, isTarget: N -> bool, results: seq<Path<N>>)
  {
    isTarget(initial) ==> |results| > 0 && results[0] == SingleNodePath(initial)
  }

  ghost predicate ArenaReported<N>(isTarget: N -> bool, arena: seq<Record<N>>, known: set<N>)
  {
    forall i | 0 <= i < |arena| && isTarget(arena[i].item) :: arena[i].item in known
  }

  /** Every successor of a popped record was popped or is queued, and so was the origin. */
  ghost predicate Reached<N>(expander: N -> seq<(N, nat)>, initial: N, queued: map<Handle, DijkstraNode<N>>,
                             arena: seq<Record<N>>)
  {
    && Expanded(expander, arena, ItemsOf(arena) + QueuedItems(queued))
    && initial in ItemsOf(arena) + QueuedItems(queued)
  }

  /**
   * The loop invariant of `FindAll`: the arena and every queued record are
   * well made, the visited set holds at most the seed object and every
   * object to come is newer, every result is sound and the origin's comes
   * first, every target generated so far has been reported, and every
   * successor of a popped record was popped or is queued.
   */
  ghost predicate Inv<N>(expander: N -> seq<(N, nat)>, initial: N, isTarget: N -> bool,
                         queued: map<Handle, DijkstraNode<N>>, arena: seq<Record<N>>, visited: set<nat>,
                         nextId: nat, results: seq<Path<N>>)
  {
    && WrapArenaOk(expander, initial, arena)
    && QueueOk(expander, initial, isTarget, queued, arena, Targets(results))
    && visited <= {SEED} && SEED < nextId
    && AllSound(expander, initial, isTarget, results)
    && OriginFirst(initial, isTarget, results)
    && ArenaReported(isTarget, arena, Targets(results))
    && Reached(expander, initial, queued, arena)
  }

  /** Popping a record and appending it to the arena keeps every part of the invariant but expansion. */
  lemma PopKeeps<N>(expander: N -> seq<(N, nat)>, initial: N, isTarget: N -> bool,
                    q0: map<Handle, DijkstraNode<N>>, h: Handle, arena: seq<Record<N>>, visited: set<nat>,
                    nextId: nat, results: seq<Path<N>>)
    requires Inv(expander, initial, isTarget, q0, arena, visited, nextId, results) && h in q0
    ensures var a := arena + [AsRecord(q0[h])];
      && WrapArenaOk(expander, initial, a)
      && QueueOk(expander, initial, isTarget, q0 - {h}, a, Targets(results))
      && ArenaReported(isTarget, a, Targets(results))
      && Expanded(expander, arena, ItemsOf(a) + QueuedItems(q0 - {h}))
      && initial in ItemsOf(a) + QueuedItems(q0 - {h})
  {
    var x := AsRecord(q0[h]);
    var a := arena + [x];
    WrapAppend(expander, initial, arena, x);
    ItemsConcat(arena, [x]);
    assert [x][0] == x;
    assert ItemsOf([x]) == {x.item};
    forall n | n in QueuedItems(q0) ensures n in ItemsOf(a) + QueuedItems(q0 - {h}) {
      var h' :| h' in q0 && q0[h'].item == n;
      if h' != h {
        assert h' in q0 - {h} && (q0 - {h})[h'].item == n;
        assert n in QueuedItems(q0 - {h});
      }
    }
    forall i | 0 <= i < |a| && isTarget(a[i].item) ensures a[i].item in Targets(results) {
      if i < |arena| {
        assert a[i] == arena[i];
      }
    }
  }

  /** The records `Expand` made from the arena's last record `x`, one per edge, at the wrapped costs. */
  ghost predicate Generated<N>(expander: N -> seq<(N, nat)>, arena: seq<Record<N>>, x: Record<N>,
                               expanded: seq<DijkstraNode<N>>)
  {
    && |expanded| == |expander(x.item)|
    && forall k | 0 <= k < |expanded| ::
      && expanded[k].item == expander(x.item)[k].0 && expanded[k].pred == Some(|arena|)
      && expanded[k].cost == AddCost(x.cost, expander(x.item)[k].1)
  }

  /** `AddAll`'s effect: the queue keeps its records and gains the expanded ones under `handles`. */
  ghost predicate AddedAll<N>(q1: map<Handle, DijkstraNode<N>>, q2: map<Handle, DijkstraNode<N>>, handles: seq<Handle>,
                        expanded: seq<DijkstraNode<N>>)
  {
    && |handles| == |expanded|
    && (forall h | h in q1 :: h in q2 && q2[h] == q1[h])
    && (forall k | 0 <= k < |handles| :: handles[k] in q2 && q2[handles[k]] == expanded[k])
    && (forall h | h in q2 :: h in q1 || h in handles)
  }

  /** The successors of the arena's last record, made at the wrapped costs, are well made. */
  lemma ExpandedLinked<N>(expander: N -> seq<(N, nat)>, initial: N, arena: seq<Record<N>>, x: Record<N>,
                          expanded: seq<DijkstraNode<N>>)
    requires Generated(expander, arena, x, expanded)
    ensures forall k | 0 <= k < |expanded| :: WrapLinked(expander, initial, arena + [x], AsRecord(expanded[k]))
  {
    var a := arena + [x];
    var succ := expander(x.item);
    forall k | 0 <= k < |expanded| ensures WrapLinked(expander, initial, a, AsRecord(expanded[k])) {
      assert a[|arena|] == x;
      assert succ[k] in succ;
      assert (expanded[k].item, succ[k].1) in expander(a[|arena|].item);
    }
  }

  /** Reporting more sound paths keeps the results sound, the origin first and every target known. */
  lemma ResultsExtend<N>(expander: N -> seq<(N, nat)>, initial: N, isTarget: N -> bool,
                         results: seq<Path<N>>, added: seq<Path<N>>)
    requires AllSound(expander, initial, isTarget, results) && OriginFirst(initial, isTarget, results)
    requires forall j | 0 <= j < |added| :: Sound(expander, initial, isTarget, added[j])
    ensures AllSound(expander, initial, isTarget, results + added)
    ensures OriginFirst(initial, isTarget, results + added)
    ensures Targets(results) + Targets(added) <= Targets(results + added)
  {
    var r := results + added;
    forall n | n in Targets(results) ensures n in Targets(r) {
      var j :| 0 <= j < |results| && results[j].target == n;
      assert r[j] == results[j];
    }
    forall n | n in Targets(added) ensures n in Targets(r) {
      var j :| 0 <= j < |added| && added[j].target == n;
      assert r[|results| + j] == added[j];
    }
    forall j | 0 <= j < |r| ensures Sound(expander, initial, isTarget, r[j]) {
      if j >= |results| {
        assert r[j] == added[j - |results|];
      } else {
        assert r[j] == results[j];
      }
    }
    if isTarget(initial) {
      assert r[0] == results[0];
    }
  }

  /** The queue after `AddAll`: every record well made, every target reported, every successor queued. */
  lemma QueueExtend<N>(expander: N -> seq<(N, nat)>, initial: N, isTarget: N -> bool,
                       q1: map<Handle, DijkstraNode<N>>, q2: map<Handle, DijkstraNode<N>>, handles: seq<Handle>,
                       a: seq<Record<N>>, expanded: seq<DijkstraNode<N>>, known0: set<N>, known: set<N>)
    requires QueueOk(expander, initial, isTarget, q1, a, known0) && known0 <= known
    requires forall k | 0 <= k < |expanded| :: WrapLinked(expander, initial, a, AsRecord(expanded[k]))
    requires forall k | 0 <= k < |expanded| && isTarget(expanded[k].item) :: expanded[k].item in known
    requires AddedAll(q1, q2, handles, expanded)
    ensures QueueOk(expander, initial, isTarget, q2, a, known)
    ensures QueuedItems(q1) <= QueuedItems(q2)
    ensures forall k | 0 <= k < |expanded| :: expanded[k].item in QueuedItems(q2)
  {
    forall h | h in q2 ensures
      && WrapLinked(expander, initial, a, AsRecord(q2[h]))
      && (isTarget(q2[h].item) ==> q2[h].item in known)
    {
      if h !in q1 {
        var k :| 0 <= k < |handles| && handles[k] == h;
      }
    }
    forall k | 0 <= k < |expanded| ensures expanded[k].item in QueuedItems(q2) {
      assert q2[handles[k]] == expanded[k];
    }
  }

  /** Once the successors of the last record are seen, every arena record is expanded. */
  lemma ExpandedExtend<N>(expander: N -> seq<(N, nat)>, arena: seq<Record<N>>, x: Record<N>,
                          expanded: seq<DijkstraNode<N>>, seen0: set<N>, seen1: set<N>)
    requires Expanded(expander, arena, seen0) && seen0 <= seen1 && Generated(expander, arena, x, expanded)
    requires forall k | 0 <= k < |expanded| :: expanded[k].item in seen1
    ensures Expanded(expander, arena + [x], seen1)
  {
    var a := arena + [x];
    forall i, k | 0 <= i < |a| && 0 <= k < |expander(a[i].item)| ensures expander(a[i].item)[k].0 in seen1 {
      if i < |arena| {
        assert a[i] == arena[i];
      } else {
        assert expanded[k].item == expander(x.item)[k].0;
      }
    }
  }

  /** Queueing every successor of the popped record and reporting the targets among them restores the invariant. */
  lemma ExpandKeeps<N>(expander: N -> seq<(N, nat)>, initial: N, isTarget: N -> bool,
                       q1: map<Handle, DijkstraNode<N>>, q2: map<Handle, DijkstraNode<N>>, handles: seq<Handle>,
                       arena: seq<Record<N>>, x: Record<N>, visited: set<nat>, nextId: nat,
                       results: seq<Path<N>>, expanded: seq<DijkstraNode<N>>, results': seq<Path<N>>)
    requires WrapArenaOk(expander, initial, arena + [x])
    requires QueueOk(expander, initial, isTarget, q1, arena + [x], Targets(results))
    requires ArenaReported(isTarget, arena + [x], Targets(results))
    requires Expanded(expander, arena, ItemsOf(arena + [x]) + QueuedItems(q1))
    requires initial in ItemsOf(arena + [x]) + QueuedItems(q1)
    requires visited <= {SEED} && SEED < nextId
    requires AllSound(expander, initial, isTarget, results) && OriginFirst(initial, isTarget, results)
    requires Generated(expander, arena, x, expanded) && AddedAll(q1, q2, handles, expanded)
    requires results' == results + TargetPaths(arena + [x], expanded, isTarget)
    ensures Inv(expander, initial, isTarget, q2, arena + [x], visited, nextId + |expanded|, results')
  {
    var a := arena + [x];
    ExpandedLinked(expander, initial, arena, x, expanded);
    TargetPathsSpec(expander, initial, isTarget, a, expanded);
    var added := TargetPaths(a, expanded, isTarget);
    ResultsExtend(expander, initial, isTarget, results, added);
    QueueExtend(expander, initial, isTarget, q1, q2, handles, a, expanded, Targets(results), Targets(results'));
    ExpandedExtend(expander, arena, x, expanded, ItemsOf(a) + QueuedItems(q1), ItemsOf(a) + QueuedItems(q2));
    assert Reached(expander, initial, q2, a);
  }

  /** With nothing left in the queue, the popped nodes are closed under expansion and every target among them was reported. */
  lemma Drained<N>(expander: N -> seq<(N, nat)>, initial: N, isTarget: N -> bool, arena: seq<Record<N>>,
                   visited: set<nat>, nextId: nat, results: seq<Path<N>>)
    requires Inv(expander, initial, isTarget, map[], arena, visited, nextId, results)
    ensures initial in ItemsOf(arena) && Closed(expander, ItemsOf(arena))
    ensures forall n | n in ItemsOf(arena) && isTarget(n) :: n in Targets(results)
  {
    assert QueuedItems<N>(map[]) == {};
    ExpandedClosed(expander, arena, ItemsOf(arena));
  }

  /** `DijkstraSearch<TNode, TEdge>`: the expander is fixed at construction. */
  class DijkstraSearch<N(==), E> {
    const expander: N -> seq<(N, nat)>

    constructor (expander: N -> seq<(N, nat)>)
      ensures this.expander == expander
    {
      this.expander := expander;
    }

    /** The combiner constructor: successors are combiner(node, edge), nulls dropped, with the edge's cost. */
    constructor Combining(edges: N -> seq<(E, nat)>, combiner: (N, E) -> Option<N>)
      ensures expander == CombineWeighted(edges, combiner)
    {
      expander := CombineWeighted(edges, combiner);
    }

    /** The `foreach` that reports every target among the expanded records. */
    method ReportTargets(arena: seq<Record<N>>, expanded: seq<DijkstraNode<N>>, isTarget: N -> bool,
                         results: seq<Path<N>>)
      returns (results': seq<Path<N>>)
      requires Ordered(arena)
      requires forall k | 0 <= k < |expanded| :: expanded[k].pred.Some? && expanded[k].pred.value < |arena|
      ensures results' == results + TargetPaths(arena, expanded, isTarget)
    {
      results' := results;
      var k := 0;
      while k < |expanded|
        invariant 0 <= k <= |expanded|
        invariant results' == results + TargetPaths(arena, expanded[..k], isTarget)
      {
        assert expanded[..k + 1][..k] == expanded[..k];
        if isTarget(expanded[k].item) {
          results' := results' + [NodePath(arena, expanded[k])];
        }
        k := k + 1;
      }
      assert expanded[..k] == expanded;
    }

    /**
     * One turn of the loop of `FindAll`: join the seed to the visited set,
     * delete the least record, expand it into new objects, queue all of
     * them, report the targets among them, and tell whether `minResults`
     * is reached.
     */
    method SearchStep(queue: IntervalHeap<DijkstraNode<N>>, ghost initial: N, isTarget: N -> bool, minResults: int,
                      arena: seq<Record<N>>, visited: set<nat>, nextId: nat, results: seq<Path<N>>)
      returns (arena': seq<Record<N>>, visited': set<nat>, nextId': nat, results': seq<Path<N>>, stop: bool)
      requires queue.Valid() && queue.rank == ByCost() && queue.items != map[]
      requires Inv(expander, initial, isTarget, queue.items, arena, visited, nextId, results)
      modifies queue
      ensures queue.Valid()
      ensures Inv(expander, initial, isTarget, queue.items, arena', visited', nextId', results')
      ensures |arena'| == |arena| + 1 && stop == (|results'| >= minResults)
      ensures forall h | h in old(queue.items) :: arena'[|arena|].cost <= old(queue.items)[h].cost
    {
      visited' := visited + {SEED};
      ghost var q0 := queue.items;
      var h, cur := queue.DeleteMin();
      PopKeeps(expander, initial, isTarget, q0, h, arena, visited, nextId, results);
      var curIdx := |arena|;
      arena' := arena + [AsRecord(cur)];
      var succ := expander(cur.item);
      var expanded := Expand(succ, cur, curIdx, nextId, visited');
      ExpandKeepsAll(succ, cur, curIdx, nextId, visited');
      ghost var q1 := queue.items;
      var handles := queue.AddAll(expanded);
      results' := ReportTargets(arena', expanded, isTarget, results);
      ExpandKeeps(expander, initial, isTarget, q1, queue.items, handles, arena, AsRecord(cur), visited', nextId,
                  results, expanded, results');
      nextId' := nextId + |expanded|;
      stop := |results'| >= minResults;
    }

    /**
     * `FindAll`: reports the origin if it is a target, then, while the queue
     * is not empty, pops the cheapest record and reports every target among
     * its successors, until `minResults` paths are known.  `fuel` bounds the
     * number of records popped; `drained` tells that the queue ran empty,
     * and `explored` holds the popped nodes.
     */
    method FindAll(initial: N, isTarget: N -> bool, minResults: int, fuel: nat)
      returns (r: Result<seq<Path<N>>>, drained: bool, ghost explored: set<N>)
      ensures r.Err? ==> r.error == OutOfFuel && !drained
      ensures r.Ok? ==> forall j | 0 <= j < |r.value| :: Sound(expander, initial, isTarget, r.value[j])
      ensures r.Ok? && isTarget(initial) ==> |r.value| > 0 && r.value[0] == SingleNodePath(initial)
      ensures r.Ok? ==> |r.value| >= minResults || drained
      ensures drained ==> r.Ok? && initial in explored && Closed(expander, explored)
      ensures drained ==> forall n | n in explored && isTarget(n) :: n in Targets(r.value)
    {
      var queue := new IntervalHeap(ByCost());
      var _ := queue.Add(DijkstraNode(QUEUED_ORIGIN, initial, None, 0));
      var visited: set<nat> := {};
      var nextId: nat := SEED + 1;
      var arena: seq<Record<N>> := [];
      var results: seq<Path<N>> := [];
      if isTarget(initial) {
        results := [SingleNodePath(initial)];
        assert WrapResult(expander, initial, isTarget, results[0], []);
      }
      assert QueuedItems(queue.items) == {initial};
      var stop := false;
      while queue.Count() > 0
        invariant fresh(queue) && queue.Valid() && queue.rank == ByCost()
        invariant Inv(expander, initial, isTarget, queue.items, arena, visited, nextId, results)
        invariant stop ==> |results| >= minResults
        decreases if |arena| <= fuel then fuel - |arena| else 0
      {
        if |arena| >= fuel {
          return Err(OutOfFuel), false, ItemsOf(arena);
        }
        arena, visited, nextId, results, stop := SearchStep(queue, initial, isTarget, minResults,
                                                            arena, visited, nextId, results);
        if stop {
          break;
        }
      }
      drained := !stop;
      explored := ItemsOf(arena);
      if drained {
        Drained(expander, initial, isTarget, arena, visited, nextId, results);
      }
      r := Ok(results);
    }

    /** `FindFirst`: `FindAll` with `minResults` 1, then the first path if any. */
    method FindFirst(initial: N, isTarget: N -> bool, fuel: nat) returns (r: Result<Option<Path<N>>>)
      ensures r.Ok? && r.value.Some? ==> Sound(expander, initial, isTarget, r.value.value)
      ensures r.Ok? && isTarget(initial) ==> r.value == Some(SingleNodePath(initial))
      ensures r.Ok? && r.value.None? ==>
        exists s: set<N> :: initial in s && Closed(expander, s) && forall n | n in s :: !isTarget(n)
    {
      var all, drained, explored := FindAll(initial, isTarget, 1, fuel);
      match all
      case Err(e) =>
        r := Err(e);
      case Ok(paths) =>
        if |paths| > 0 {
          r := Ok(Some(paths[0]));
        } else {
          assert forall n | n in explored :: !isTarget(n);
          r := Ok(None);
        }
    }
  }
}
