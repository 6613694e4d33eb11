/**
 * The layered breadth-first search (`BreadthFirstSearch<TNode>`).
 *
 * The expander lists the successor nodes of a node.  Every step costs one,
 * so a record's cost is its `Distance`: the number of edges back to the
 * origin.  The search keeps the records it made in an arena (see
 * SearchArena): `arena[..start]` are the expanded records (`visitedNodes`),
 * `arena[start..]` the current layer (`nextNodes`).  Node equality is
 * Dafny equality on `N` (the comparer compares `Item`s only).
 */
module BreadthFirst {

  import opened Wrappers
  import opened Graphs
  import opened SearchArena

  /** The successors of a node as steps of cost one. */
  function Units<N>(succ: seq<N>): (steps: seq<(N, nat)>)
    ensures |steps| == |succ|
    ensures forall k | 0 <= k < |succ| :: steps[k] == (succ[k], 1)
  {
    seq(|succ|, k requires 0 <= k < |succ| => (succ[k], 1))
  }

  /** The expander as a step relation in which every step costs one. */
  function UnitSteps<N>(expander: N -> seq<N>): N -> seq<(N, nat)>
  {
    n => Units(expander(n))
  }

  /** `w` is a route through the graph: every node is a successor of the one before it. */
  ghost predicate Route<N>(expander: N -> seq<N>, w: seq<N>)
  {
    |w| > 0 && forall k | 0 <= k < |w| - 1 :: w[k + 1] in expander(w[k])
  }

  /** `n` can be reached from `initial`. */
  ghost predicate Reachable<N(!new)>(expander: N -> seq<N>, initial: N, n: N)
  {
    exists w :: Route(expander, w) && w[0] == initial && Last(w) == n
  }

  lemma {:induction false} SumOnes(s: seq<nat>)
    requires forall k | 0 <= k < |s| :: s[k] == 1
    ensures Sum(s) == |s|
  {
    if s != [] {
      SumOnes(s[..|s| - 1]);
    }
  }

  /** A walk of unit steps is a route, and its cost is its number of edges. */
  lemma UnitWalk<N>(expander: N -> seq<N>, steps: seq<N>, costs: seq<nat>)
    requires Walk(UnitSteps(expander), steps, costs)
    ensures Route(expander, steps) && Sum(costs) == |steps| - 1
  {
    forall k | 0 <= k < |costs| ensures costs[k] == 1 && steps[k + 1] in expander(steps[k]) {
      var u := Units(expander(steps[k]));
      assert (steps[k + 1], costs[k]) in u;
      var j :| 0 <= j < |u| && u[j] == (steps[k + 1], costs[k]);
    }
    SumOnes(costs);
  }

  /**
   * `Distance` is the length of the record's path (origin 0, a child one
   * more than its predecessor), and the path is a route from the origin.
   */
  lemma DistanceIsLength<N>(expander: N -> seq<N>, initial: N, arena: seq<Record<N>>, i: nat)
    requires ArenaOk(UnitSteps(expander), initial, arena) && i < |arena|
    ensures var p := PathOf(arena, i);
      && p.length == arena[i].cost
      && Route(expander, p.steps) && p.steps[0] == initial && Last(p.steps) == arena[i].item
  {
    PathOfIsWalk(UnitSteps(expander), initial, arena, i);
    UnitWalk(expander, PathOf(arena, i).steps, EdgeCosts(UnitSteps(expander), initial, arena, i));
  }

  /** A route that starts in a set closed under the expander stays in it. */
  lemma {:induction false} RouteInClosed<N>(expander: N -> seq<N>, s: set<N>, w: seq<N>)
    requires Route(expander, w) && w[0] in s && Closed(UnitSteps(expander), s)
    ensures Last(w) in s
    decreases |w|
  {
    if |w| > 1 {
      var v := w[..|w| - 1];
      assert Route(expander, v) by {
        assert forall k | 0 <= k < |v| :: v[k] == w[k];
      }
      RouteInClosed(expander, s, v);
      var n := Last(v);
      var j :| 0 <= j < |expander(n)| && expander(n)[j] == Last(w);
      assert UnitSteps(expander)(n)[j].0 == Last(w);
    }
  }

  /**
   * `new HashSet<NodeWithPredecessor>(records, comparer)`, or adding the
   * records to a set already holding the nodes `seen`: the first record of
   * each node that is not yet present, in order.
   */
  function Dedupe<N(==)>(rs: seq<Record<N>>, seen: set<N>): seq<Record<N>>
    decreases |rs|
  {
    if rs == [] then []
    else if rs[0].item in seen then Dedupe(rs[1..], seen)
    else [rs[0]] + Dedupe(rs[1..], seen + {rs[0].item})
  }

  /** `Dedupe` keeps at most one record per node, and none for the nodes already present. */
  lemma {:induction false} DedupeDistinct<N>(rs: seq<Record<N>>, seen: set<N>)
    ensures DistinctItems(Dedupe(rs, seen))
    ensures forall q | 0 <= q < |Dedupe(rs, seen)| :: Dedupe(rs, seen)[q].item !in seen
  {
    if rs != [] {
      var x, t := rs[0], rs[1..];
      if x.item !in seen {
        DedupeDistinct(t, seen + {x.item});
      } else {
        DedupeDistinct(t, seen);
      }
    }
  }

  /** `r` is the first record of its node in `rs`. */
  ghost predicate FirstOf<N>(rs: seq<Record<N>>, r: Record<N>)
  {
    exists k | 0 <= k < |rs| :: rs[k] == r && forall k' | 0 <= k' < k :: rs[k'].item != r.item
  }

  /** Each record `Dedupe` keeps is the first record of its node. */
  lemma {:induction false} DedupeFirst<N>(rs: seq<Record<N>>, seen: set<N>)
    ensures forall q | 0 <= q < |Dedupe(rs, seen)| :: FirstOf(rs, Dedupe(rs, seen)[q])
  {
    if rs != [] {
      var x, t := rs[0], rs[1..];
      var seen' := if x.item in seen then seen else seen + {x.item};
      DedupeFirst(t, seen');
      DedupeDistinct(t, seen');
      var rest := Dedupe(t, seen');
      var d := Dedupe(rs, seen);
      var o := if x.item in seen then 0 else 1;
      assert d[o..] == rest;
      forall q | 0 <= q < |d| ensures FirstOf(rs, d[q]) {
        if q < o {
          assert rs[0] == d[q];
        } else {
          var y := rest[q - o];
          assert d[q] == y && y.item !in seen' && FirstOf(t, y);
          var k :| 0 <= k < |t| && t[k] == y && forall k' | 0 <= k' < k :: t[k'].item != y.item;
          assert rs[k + 1] == y;
          forall k' | 0 <= k' < k + 1 ensures rs[k'].item != y.item {
            if k' > 0 {
              assert rs[k'] == t[k' - 1];
            }
          }
        }
      }
    }
  }

  /** Every record `Dedupe` keeps comes from its input. */
  lemma {:induction false} DedupeSub<N>(rs: seq<Record<N>>, seen: set<N>)
    ensures forall q | 0 <= q < |Dedupe(rs, seen)| :: Dedupe(rs, seen)[q] in rs
  {
    if rs != [] {
      var x, t := rs[0], rs[1..];
      var seen' := if x.item in seen then seen else seen + {x.item};
      DedupeSub(t, seen');
      var d := Dedupe(rs, seen);
      var o := if x.item in seen then 0 else 1;
      assert d[o..] == Dedupe(t, seen');
      forall q | 0 <= q < |d| ensures d[q] in rs {
        if q >= o {
          assert d[q] in t;
        }
      }
    }
  }

  /** `Dedupe` drops no node that was not already present. */
  lemma {:induction false} DedupeCovers<N>(rs: seq<Record<N>>, seen: set<N>)
    ensures forall k | 0 <= k < |rs| && rs[k].item !in seen :: rs[k].item in ItemsOf(Dedupe(rs, seen))
  {
    if rs != [] {
      var x, t := rs[0], rs[1..];
      var seen' := if x.item in seen then seen else seen + {x.item};
      DedupeCovers(t, seen');
      var rest := Dedupe(t, seen');
      var d := Dedupe(rs, seen);
      var o := if x.item in seen then 0 else 1;
      assert d[o..] == rest;
      forall k | 0 <= k < |rs| && rs[k].item !in seen ensures rs[k].item in ItemsOf(d) {
        if rs[k].item == x.item {
          assert d[0] == x;
        } else {
          assert rs[k] == t[k - 1];
          var q :| 0 <= q < |rest| && rest[q].item == rs[k].item;
          assert d[q + o] == rest[q];
        }
      }
    }
  }

  /**
   * `SequentialExpand`: the children of the layer records `arena[from..]`,
   * layer record after layer record, without the visited nodes.
   */
  function SequentialExpand<N(==)>(expander: N -> seq<N>, arena: seq<Record<N>>, from: nat, visited: set<N>)
    : seq<Record<N>>
    requires from <= |arena|
    decreases |arena| - from
  {
    if from == |arena| then []
    else
      Children(Units(expander(arena[from].item)), visited, arena[from], from)
      + SequentialExpand(expander, arena, from + 1, visited)
  }

  /** `r` is the record made for one successor of one of the layer records `arena[start..end]`. */
  ghost predicate ChildOf<N>(expander: N -> seq<N>, arena: seq<Record<N>>, start: nat, end: nat, r: Record<N>)
    requires end <= |arena|
  {
    exists i, j | start <= i < end && 0 <= j < |expander(arena[i].item)| ::
      r == Child(arena[i], i, Units(expander(arena[i].item))[j])
  }

  /**
   * The expansion of a layer holds a child record for every step from a
   * layer record to an unvisited node, and nothing else.
   */
  lemma {:induction false} ExpandSpec<N>(expander: N -> seq<N>, arena: seq<Record<N>>, from: nat, visited: set<N>)
    requires from <= |arena|
    ensures var e := SequentialExpand(expander, arena, from, visited);
      forall q | 0 <= q < |e| ::
        e[q].item !in visited && ChildOf(expander, arena, from, |arena|, e[q])
    ensures var e := SequentialExpand(expander, arena, from, visited);
      forall i, j | from <= i < |arena| && 0 <= j < |expander(arena[i].item)| && expander(arena[i].item)[j] !in visited ::
        Child(arena[i], i, Units(expander(arena[i].item))[j]) in e
    decreases |arena| - from
  {
    if from < |arena| {
      ExpandSpec(expander, arena, from + 1, visited);
      var x := arena[from];
      ChildrenSpec(Units(expander(x.item)), visited, x, from);
      var c := Children(Units(expander(x.item)), visited, x, from);
      var rest := SequentialExpand(expander, arena, from + 1, visited);
      var e := c + rest;
      forall q | 0 <= q < |e|
        ensures e[q].item !in visited &&
          exists i, j | from <= i < |arena| && 0 <= j < |expander(arena[i].item)| ::
            e[q] == Child(arena[i], i, Units(expander(arena[i].item))[j])
      {
        if q < |c| {
          assert e[q] == c[q];
        } else {
          assert e[q] == rest[q - |c|];
        }
      }
    }
  }

  /** `SequentialExpandTuple`: each layer record paired with its children. */
  function SequentialExpandTuple<N(==)>(expander: N -> seq<N>, arena: seq<Record<N>>, from: nat, visited: set<N>)
    : seq<(Record<N>, seq<Record<N>>)>
    requires from <= |arena|
  {
    seq(|arena| - from, k requires 0 <= k < |arena| - from =>
      (arena[from + k], Children(Units(expander(arena[from + k].item)), visited, arena[from + k], from + k)))
  }

  /** The `k`-th pair of the paired expansion. */
  lemma ExpandTupleAt<N>(expander: N -> seq<N>, arena: seq<Record<N>>, from: nat, visited: set<N>, k: nat)
    requires from + k < |arena|
    ensures SequentialExpandTuple(expander, arena, from, visited)[k]
         == (arena[from + k], Children(Units(expander(arena[from + k].item)), visited, arena[from + k], from + k))
  {
  }

  function Flatten<N>(t: seq<(Record<N>, seq<Record<N>>)>): seq<Record<N>>
  {
    if t == [] then [] else t[0].1 + Flatten(t[1..])
  }

  /** The paired expansion holds the same children, in the same order, as `SequentialExpand`. */
  lemma {:induction false} ExpandTupleFlatten<N>(expander: N -> seq<N>, arena: seq<Record<N>>, from: nat, visited: set<N>)
    requires from <= |arena|
    ensures Flatten(SequentialExpandTuple(expander, arena, from, visited)) == SequentialExpand(expander, arena, from, visited)
    decreases |arena| - from
  {
    if from < |arena| {
      ExpandTupleFlatten(expander, arena, from + 1, visited);
      assert SequentialExpandTuple(expander, arena, from, visited)[1..]
          == SequentialExpandTuple(expander, arena, from + 1, visited);
    }
  }

  /** `HashSet.UnionWith`: the records of `add` whose node is not yet present, appended. */
  function UnionWith<N(==)>(hs: seq<Record<N>>, add: seq<Record<N>>): seq<Record<N>>
  {
    hs + Dedupe(add, ItemsOf(hs))
  }

  /** New records: distinct nodes, none of them in the arena yet. */
  ghost predicate Fresh<N>(arena: seq<Record<N>>, next: seq<Record<N>>)
  {
    && DistinctItems(next)
    && forall q | 0 <= q < |next| :: next[q].item !in ItemsOf(arena)
  }

  /** Each record of `next` is a child of one of the layer records `arena[start..end]`. */
  ghost predicate ChildrenOf<N>(expander: N -> seq<N>, arena: seq<Record<N>>, start: nat, end: nat, next: seq<Record<N>>)
    requires end <= |arena|
  {
    forall q | 0 <= q < |next| :: ChildOf(expander, arena, start, end, next[q])
  }

  /** Every successor of the layer records `arena[start..end]` is in the arena or in `next`. */
  ghost predicate Covers<N>(expander: N -> seq<N>, arena: seq<Record<N>>, start: nat, end: nat, next: seq<Record<N>>)
    requires end <= |arena|
  {
    forall i, j | start <= i < end && 0 <= j < |expander(arena[i].item)| ::
      expander(arena[i].item)[j] in ItemsOf(arena) + ItemsOf(next)
  }

  /**
   * `next` is the next layer gathered from the layer records
   * `arena[start..end]`: distinct new nodes, each a child of one of those
   * records, and every successor of those records is found.
   */
  ghost predicate Gathered<N>(expander: N -> seq<N>, arena: seq<Record<N>>, start: nat, end: nat, next: seq<Record<N>>)
  {
    && start <= end <= |arena|
    && Fresh(arena, next)
    && ChildrenOf(expander, arena, start, end, next)
    && Covers(expander, arena, start, end, next)
  }

  /** One record of the expansion is new and a child of the layer. */
  lemma ExpandAt<N>(expander: N -> seq<N>, arena: seq<Record<N>>, from: nat, visited: set<N>, k: nat)
    requires from <= |arena| && k < |SequentialExpand(expander, arena, from, visited)|
    ensures var r := SequentialExpand(expander, arena, from, visited)[k];
      r.item !in visited && ChildOf(expander, arena, from, |arena|, r)
  {
    ExpandSpec(expander, arena, from, visited);
  }

  /** `new HashSet(SequentialExpand(...))` gathers the whole next layer. */
  lemma ExpandGathers<N>(expander: N -> seq<N>, arena: seq<Record<N>>, start: nat)
    requires start <= |arena|
    ensures Gathered(expander, arena, start, |arena|,
                     Dedupe(SequentialExpand(expander, arena, start, ItemsOf(arena)), {}))
  {
    var e := SequentialExpand(expander, arena, start, ItemsOf(arena));
    var d := Dedupe(e, {});
    ExpandSpec(expander, arena, start, ItemsOf(arena));
    DedupeDistinct(e, {});
    DedupeSub(e, {});
    DedupeCovers(e, {});
    forall q | 0 <= q < |d|
      ensures d[q].item !in ItemsOf(arena)
      ensures ChildOf(expander, arena, start, |arena|, d[q])
    {
      var k :| 0 <= k < |e| && e[k] == d[q];
      ExpandAt(expander, arena, start, ItemsOf(arena), k);
    }
    forall i, j | start <= i < |arena| && 0 <= j < |expander(arena[i].item)|
      ensures expander(arena[i].item)[j] in ItemsOf(arena) + ItemsOf(d)
    {
      var n := expander(arena[i].item)[j];
      if n !in ItemsOf(arena) {
        var c := Child(arena[i], i, Units(expander(arena[i].item))[j]);
        assert c in e;
        var k :| 0 <= k < |e| && e[k] == c;
      }
    }
  }

  /** Appending new records whose nodes are not yet in `next` keeps the records of `next` distinct and new. */
  lemma UnionFresh<N>(arena: seq<Record<N>>, next: seq<Record<N>>, nodes: seq<Record<N>>)
    requires Fresh(arena, next)
    requires forall m | 0 <= m < |nodes| :: nodes[m].item !in ItemsOf(arena)
    ensures Fresh(arena, UnionWith(next, nodes))
  {
    var d := Dedupe(nodes, ItemsOf(next));
    DedupeDistinct(nodes, ItemsOf(next));
    DedupeSub(nodes, ItemsOf(next));
    forall q | 0 <= q < |d| ensures d[q].item !in ItemsOf(next) && d[q].item !in ItemsOf(arena) {
      var m :| 0 <= m < |nodes| && nodes[m] == d[q];
    }
    DistinctConcat(next, d);
  }

  /** The records `UnionWith` adds from the children of `arena[end]` are children of the wider layer. */
  lemma UnionChildren<N>(expander: N -> seq<N>, arena: seq<Record<N>>, start: nat, end: nat, next: seq<Record<N>>)
    requires start <= end < |arena| && ChildrenOf(expander, arena, start, end, next)
    ensures var x := arena[end];
      var nodes := Children(Units(expander(x.item)), ItemsOf(arena), x, end);
      && ChildrenOf(expander, arena, start, end + 1, UnionWith(next, nodes))
      && ChildrenOf(expander, arena, start, end + 1, next)
  {
    var x := arena[end];
    var nodes := Children(Units(expander(x.item)), ItemsOf(arena), x, end);
    ChildrenSpec(Units(expander(x.item)), ItemsOf(arena), x, end);
    var d := Dedupe(nodes, ItemsOf(next));
    DedupeSub(nodes, ItemsOf(next));
    var u := next + d;
    forall q | 0 <= q < |u|
      ensures ChildOf(expander, arena, start, end + 1, u[q])
    {
      if q >= |next| {
        var r := d[q - |next|];
        assert u[q] == r && r in nodes;
        var m :| 0 <= m < |nodes| && nodes[m] == r;
        var j :| 0 <= j < |Units(expander(x.item))| && r == Child(x, end, Units(expander(x.item))[j]);
      } else {
        assert u[q] == next[q];
        var i, j :| start <= i < end && 0 <= j < |expander(arena[i].item)|
          && next[q] == Child(arena[i], i, Units(expander(arena[i].item))[j]);
      }
    }
  }

  /** After `UnionWith` of the children of `arena[end]`, the successors of that record are covered too. */
  lemma UnionCovers<N>(expander: N -> seq<N>, arena: seq<Record<N>>, start: nat, end: nat, next: seq<Record<N>>)
    requires start <= end < |arena| && Covers(expander, arena, start, end, next)
    ensures var x := arena[end];
      var nodes := Children(Units(expander(x.item)), ItemsOf(arena), x, end);
      && Covers(expander, arena, start, end + 1, UnionWith(next, nodes))
      && (nodes == [] ==> Covers(expander, arena, start, end + 1, next))
  {
    var x := arena[end];
    var nodes := Children(Units(expander(x.item)), ItemsOf(arena), x, end);
    ChildrenSpec(Units(expander(x.item)), ItemsOf(arena), x, end);
    var d := Dedupe(nodes, ItemsOf(next));
    DedupeCovers(nodes, ItemsOf(next));
    var u := next + d;
    ItemsConcat(next, d);
    forall j | 0 <= j < |expander(x.item)| ensures expander(x.item)[j] in ItemsOf(arena) + ItemsOf(u) {
      var n := expander(x.item)[j];
      if n !in ItemsOf(arena) {
        var c := Child(x, end, Units(expander(x.item))[j]);
        assert c in nodes;
        var m :| 0 <= m < |nodes| && nodes[m] == c;
      }
    }
    if nodes == [] {
      forall j | 0 <= j < |expander(x.item)| ensures expander(x.item)[j] in ItemsOf(arena) {
        assert Child(x, end, Units(expander(x.item))[j]).item == expander(x.item)[j];
      }
    }
  }

  /**
   * One step of the `foreach` over the paired expansion: the children of
   * the next layer record join the gathered layer (`UnionWith`), or there
   * are none.
   */
  lemma UnionStep<N>(expander: N -> seq<N>, arena: seq<Record<N>>, start: nat, k: nat, next: seq<Record<N>>)
    requires start + k < |arena| && Gathered(expander, arena, start, start + k, next)
    ensures var x := arena[start + k];
      var nodes := Children(Units(expander(x.item)), ItemsOf(arena), x, start + k);
      && Gathered(expander, arena, start, start + k + 1, UnionWith(next, nodes))
      && (nodes == [] ==> Gathered(expander, arena, start, start + k + 1, next))
  {
    var x := arena[start + k];
    var nodes := Children(Units(expander(x.item)), ItemsOf(arena), x, start + k);
    ChildrenSpec(Units(expander(x.item)), ItemsOf(arena), x, start + k);
    UnionFresh(arena, next, nodes);
    UnionChildren(expander, arena, start, start + k, next);
    UnionCovers(expander, arena, start, start + k, next);
  }

  /** `visitedNodes.UnionWith(nextNodes)`: the visited nodes are then the whole arena's. */
  lemma VisitLayer<N>(arena: seq<Record<N>>, start: nat, visited: set<N>)
    requires start <= |arena| && visited == ItemsOf(arena[..start])
    ensures visited + ItemsOf(arena[start..]) == ItemsOf(arena)
  {
    assert arena[..start] + arena[start..] == arena;
    ItemsConcat(arena[..start], arena[start..]);
  }

  /** After appending the next layer, the visited nodes are those before it. */
  lemma ItemsBefore<N>(arena: seq<Record<N>>, next: seq<Record<N>>, visited: set<N>)
    requires visited == ItemsOf(arena)
    ensures visited == ItemsOf((arena + next)[..|arena|])
  {
    assert (arena + next)[..|arena|] == arena;
  }

  /**
   * The state at the head of a layer loop at distance `depth`: a well-made
   * arena of distinct nodes starting at the origin, the expanded records
   * (before `start`) closer than `depth`, the layer at exactly `depth`, and
   * every successor of an expanded record found.
   */
  ghost predicate Layered<N>(expander: N -> seq<N>, initial: N, arena: seq<Record<N>>, start: nat, depth: nat)
  {
    && 0 < |arena| && start <= |arena| && arena[0] == Record(initial, None, 0)
    && ArenaOk(UnitSteps(expander), initial, arena) && DistinctItems(arena)
    && (forall i, j | 0 <= i < start && 0 <= j < |expander(arena[i].item)| ::
          expander(arena[i].item)[j] in ItemsOf(arena))
    && (forall i | 0 <= i < |arena| :: arena[i].cost <= depth && (arena[i].cost == depth <==> start <= i))
    && (forall i, j | 0 <= i < j < |arena| :: arena[i].cost <= arena[j].cost)
  }

  /** The nodes found at distance at most `d`. */
  ghost function Within<N>(arena: seq<Record<N>>, d: int): set<N>
  {
    set i | 0 <= i < |arena| && arena[i].cost <= d :: arena[i].item
  }

  /** Every node a route of at most `depth` edges reaches was found, no farther than that route. */
  ghost predicate Frontier<N(!new)>(expander: N -> seq<N>, initial: N, arena: seq<Record<N>>, depth: nat)
  {
    forall w | Route(expander, w) && w[0] == initial && |w| <= depth + 1 :: Last(w) in Within(arena, |w| - 1)
  }

  lemma StartLayer<N(!new)>(expander: N -> seq<N>, initial: N)
    ensures Layered(expander, initial, [Record(initial, None, 0)], 0, 0)
    ensures Frontier(expander, initial, [Record(initial, None, 0)], 0)
  {
    var a := [Record(initial, None, 0)];
    assert a[..0] == [];
    assert Linked(UnitSteps(expander), initial, a[..0], a[0]);
    forall w | Route(expander, w) && w[0] == initial && |w| <= 1 ensures Last(w) in Within(a, |w| - 1) {
      assert a[0].item == Last(w);
    }
  }

  /** Appending the gathered next layer moves the loop one layer on. */
  lemma LayerStep<N>(expander: N -> seq<N>, initial: N, arena: seq<Record<N>>, start: nat, depth: nat,
                     layer: seq<Record<N>>)
    requires Layered(expander, initial, arena, start, depth)
    requires Gathered(expander, arena, start, |arena|, layer)
    ensures Layered(expander, initial, arena + layer, |arena|, depth + 1)
    ensures ItemsOf(arena + layer) == ItemsOf(arena) + ItemsOf(layer)
  {
    var step := UnitSteps(expander);
    var a := arena + layer;
    ItemsConcat(arena, layer);
    forall k | 0 <= k < |layer| ensures Linked(step, initial, arena, layer[k]) && layer[k].cost == depth + 1 {
      var i, j :| start <= i < |arena| && 0 <= j < |expander(arena[i].item)|
        && layer[k] == Child(arena[i], i, Units(expander(arena[i].item))[j]);
      assert step(arena[i].item)[j] == (layer[k].item, 1);
    }
    AppendAll(step, initial, arena, layer);
    forall i, j | 0 <= i < j < |a| ensures a[i].item != a[j].item {
      if i >= |arena| {
        assert a[i] == layer[i - |arena|] && a[j] == layer[j - |arena|];
      } else if j >= |arena| {
        assert a[j] == layer[j - |arena|] && a[i].item in ItemsOf(arena);
      }
    }
    forall i, j | 0 <= i < |arena| && 0 <= j < |expander(a[i].item)|
      ensures expander(a[i].item)[j] in ItemsOf(a)
    {
      assert a[i] == arena[i];
    }
    forall i | 0 <= i < |a| ensures a[i].cost <= depth + 1 && (a[i].cost == depth + 1 <==> |arena| <= i) {
      if i >= |arena| {
        assert a[i] == layer[i - |arena|];
      }
    }
    forall i, j | 0 <= i < j < |a| ensures a[i].cost <= a[j].cost {
      if j >= |arena| {
        assert a[j] == layer[j - |arena|];
      }
    }
  }

  /** Nodes found stay found, no farther, when a layer is appended. */
  lemma FrontierKeep<N(!new)>(expander: N -> seq<N>, initial: N, arena: seq<Record<N>>, depth: nat,
                              layer: seq<Record<N>>)
    requires Frontier(expander, initial, arena, depth)
    ensures forall w | Route(expander, w) && w[0] == initial && |w| <= depth + 1 ::
      Last(w) in Within(arena + layer, |w| - 1)
  {
    var a := arena + layer;
    forall w | Route(expander, w) && w[0] == initial && |w| <= depth + 1 ensures Last(w) in Within(a, |w| - 1) {
      assert Last(w) in Within(arena, |w| - 1);
      var i :| 0 <= i < |arena| && arena[i].cost <= |w| - 1 && arena[i].item == Last(w);
      assert a[i] == arena[i];
    }
  }

  /** A route one edge longer than the frontier ends at a successor of a found node, so in the next layer at the latest. */
  lemma FrontierGrow<N(!new)>(expander: N -> seq<N>, initial: N, arena: seq<Record<N>>, depth: nat,
                              layer: seq<Record<N>>)
    requires Frontier(expander, initial, arena, depth)
    requires Layered(expander, initial, arena + layer, |arena|, depth + 1)
    ensures forall w | Route(expander, w) && w[0] == initial && |w| == depth + 2 ::
      Last(w) in Within(arena + layer, |w| - 1)
  {
    var a := arena + layer;
    forall w | Route(expander, w) && w[0] == initial && |w| == depth + 2 ensures Last(w) in Within(a, |w| - 1) {
      var v := w[..|w| - 1];
      assert Route(expander, v) by {
        assert forall k | 0 <= k < |v| :: v[k] == w[k];
      }
      assert Last(v) in Within(arena, depth);
      var i :| 0 <= i < |arena| && arena[i].cost <= depth && arena[i].item == Last(v);
      var n := Last(w);
      var j :| 0 <= j < |expander(arena[i].item)| && expander(arena[i].item)[j] == n;
      assert a[i] == arena[i];
      assert n in ItemsOf(a);
      var m :| 0 <= m < |a| && a[m].item == n;
    }
  }

  /** After appending the next layer, every node within one more edge was found. */
  lemma FrontierStep<N(!new)>(expander: N -> seq<N>, initial: N, arena: seq<Record<N>>, start: nat, depth: nat,
                        layer: seq<Record<N>>)
    requires Frontier(expander, initial, arena, depth)
    requires Layered(expander, initial, arena + layer, |arena|, depth + 1)
    ensures Frontier(expander, initial, arena + layer, depth + 1)
  {
    FrontierKeep(expander, initial, arena, depth, layer);
    FrontierGrow(expander, initial, arena, depth, layer);
  }

  /** One round of `FindAll2`: the next layer keeps the arena layered and extends the frontier by one edge. */
  lemma LayerAdvance<N(!new)>(expander: N -> seq<N>, initial: N, arena: seq<Record<N>>, start: nat, depth: nat,
                              visited: set<N>)
    requires Layered(expander, initial, arena, start, depth) && Frontier(expander, initial, arena, depth)
    requires visited == ItemsOf(arena[..start])
    ensures var v := visited + ItemsOf(arena[start..]);
      var layer := Dedupe(SequentialExpand(expander, arena, start, v), {});
      && Layered(expander, initial, arena + layer, |arena|, depth + 1)
      && Frontier(expander, initial, arena + layer, depth + 1)
      && v == ItemsOf((arena + layer)[..|arena|])
      && (arena + layer)[..|arena|] == arena
  {
    VisitLayer(arena, start, visited);
    var v := visited + ItemsOf(arena[start..]);
    var layer := Dedupe(SequentialExpand(expander, arena, start, v), {});
    ExpandGathers(expander, arena, start);
    LayerStep(expander, initial, arena, start, depth, layer);
    FrontierStep(expander, initial, arena, start, depth, layer);
    ItemsBefore(arena, layer, v);
  }

  /** A record's distance is at most the length of any route to its node: the search finds shortest routes. */
  lemma Shortest<N(!new)>(expander: N -> seq<N>, initial: N, arena: seq<Record<N>>, start: nat, depth: nat,
                    i: nat, w: seq<N>)
    requires Layered(expander, initial, arena, start, depth) && Frontier(expander, initial, arena, depth)
    requires i < |arena| && Route(expander, w) && w[0] == initial && Last(w) == arena[i].item
    ensures arena[i].cost <= |w| - 1
  {
    if |w| <= depth + 1 {
      assert Last(w) in Within(arena, |w| - 1);
      var m :| 0 <= m < |arena| && arena[m].cost <= |w| - 1 && arena[m].item == Last(w);
      assert m == i;
    }
  }

  /**
   * The order the breadth-first search reports in: by nondecreasing length,
   * each path a shortest route to its target, and every target no farther
   * than the last reported one is among the reported.
   */
  ghost predicate BreadthFirstOrder<N(!new)>(expander: N -> seq<N>, initial: N, isTarget: N -> bool, paths: seq<Path<N>>)
  {
    && LengthsSorted(paths)
    && NoShorterRoute(expander, initial, paths)
    && NoTargetSkipped(expander, initial, isTarget, paths)
  }

  /** Paths are reported in order of nondecreasing length. */
  ghost predicate LengthsSorted<N>(paths: seq<Path<N>>)
  {
    forall i, j | 0 <= i < j < |paths| :: paths[i].length <= paths[j].length
  }

  /** No route from the origin reaches a reported target in fewer steps. */
  ghost predicate NoShorterRoute<N(!new)>(expander: N -> seq<N>, initial: N, paths: seq<Path<N>>)
  {
    forall j, w | 0 <= j < |paths| && Route(expander, w) && w[0] == initial && Last(w) == paths[j].target ::
      paths[j].length <= |w| - 1
  }

  /** Every target no farther away than the last reported one was reported. */
  ghost predicate NoTargetSkipped<N(!new)>(expander: N -> seq<N>, initial: N, isTarget: N -> bool, paths: seq<Path<N>>)
  {
    forall w | Route(expander, w) && w[0] == initial && isTarget(Last(w))
      && |paths| > 0 && |w| - 1 <= Last(paths).length :: Last(w) in Targets(paths)
  }

  /** A reported path is as long as its record's distance. */
  lemma ResultLengths<N>(expander: N -> seq<N>, initial: N, isTarget: N -> bool, arena: seq<Record<N>>,
                         start: nat, depth: nat, results: seq<Path<N>>, idx: seq<nat>)
    requires Layered(expander, initial, arena, start, depth)
    requires ResultsOk(arena, isTarget, results, idx)
    ensures forall j | 0 <= j < |results| :: results[j].length == arena[idx[j]].cost
  {
    forall j | 0 <= j < |results| ensures results[j].length == arena[idx[j]].cost {
      assert results[j] == PathOf(arena, idx[j]);
      DistanceIsLength(expander, initial, arena, idx[j]);
    }
  }

  lemma LayeredSorted<N>(expander: N -> seq<N>, initial: N, isTarget: N -> bool, arena: seq<Record<N>>,
                         start: nat, depth: nat, results: seq<Path<N>>, idx: seq<nat>)
    requires Layered(expander, initial, arena, start, depth)
    requires ResultsOk(arena, isTarget, results, idx)
    ensures LengthsSorted(results)
  {
    ResultLengths(expander, initial, isTarget, arena, start, depth, results, idx);
  }

  lemma LayeredShortest<N(!new)>(expander: N -> seq<N>, initial: N, isTarget: N -> bool, arena: seq<Record<N>>,
                                 start: nat, depth: nat, results: seq<Path<N>>, idx: seq<nat>)
    requires Layered(expander, initial, arena, start, depth) && Frontier(expander, initial, arena, depth)
    requires ResultsOk(arena, isTarget, results, idx)
    ensures NoShorterRoute(expander, initial, results)
  {
    ResultLengths(expander, initial, isTarget, arena, start, depth, results, idx);
    forall j, w | 0 <= j < |results| && Route(expander, w) && w[0] == initial && Last(w) == results[j].target
      ensures results[j].length <= |w| - 1
    {
      assert results[j] == PathOf(arena, idx[j]);
      Shortest(expander, initial, arena, start, depth, idx[j], w);
    }
  }

  lemma LayeredComplete<N(!new)>(expander: N -> seq<N>, initial: N, isTarget: N -> bool, arena: seq<Record<N>>,
                                 start: nat, depth: nat, results: seq<Path<N>>, idx: seq<nat>)
    requires Layered(expander, initial, arena, start, depth) && Frontier(expander, initial, arena, depth)
    requires ResultsOk(arena, isTarget, results, idx)
    ensures NoTargetSkipped(expander, initial, isTarget, results)
  {
    ResultLengths(expander, initial, isTarget, arena, start, depth, results, idx);
    forall w | Route(expander, w) && w[0] == initial && isTarget(Last(w))
        && |results| > 0 && |w| - 1 <= Last(results).length
      ensures Last(w) in Targets(results)
    {
      assert Last(w) in Within(arena, |w| - 1);
      var i :| 0 <= i < |arena| && arena[i].cost <= |w| - 1 && arena[i].item == Last(w);
      var j :| 0 <= j < |idx| && idx[j] == i;
      assert results[j] == PathOf(arena, idx[j]);
    }
  }

  /** The layered search reports its paths in breadth-first order. */
  lemma LayeredOrder<N(!new)>(expander: N -> seq<N>, initial: N, isTarget: N -> bool, arena: seq<Record<N>>,
                              start: nat, depth: nat, results: seq<Path<N>>, idx: seq<nat>)
    requires Layered(expander, initial, arena, start, depth) && Frontier(expander, initial, arena, depth)
    requires ResultsOk(arena, isTarget, results, idx)
    ensures BreadthFirstOrder(expander, initial, isTarget, results)
  {
    LayeredSorted(expander, initial, isTarget, arena, start, depth, results, idx);
    LayeredShortest(expander, initial, isTarget, arena, start, depth, results, idx);
    LayeredComplete(expander, initial, isTarget, arena, start, depth, results, idx);
  }

  /** The first path of a breadth-first order is a shortest route to any target at all. */
  lemma NearestFirst<N(!new)>(expander: N -> seq<N>, initial: N, isTarget: N -> bool, paths: seq<Path<N>>, w: seq<N>)
    requires BreadthFirstOrder(expander, initial, isTarget, paths) && |paths| > 0
    requires Route(expander, w) && w[0] == initial && isTarget(Last(w))
    ensures paths[0].length <= |w| - 1
  {
    assert paths[0].length <= Last(paths).length;
    if |w| - 1 <= Last(paths).length {
      assert Last(w) in Targets(paths);
      var j :| 0 <= j < |paths| && paths[j].target == Last(w);
    }
  }

  /** With the whole layer expanded, every step out of the arena stays in it. */
  lemma Drained<N>(expander: N -> seq<N>, initial: N, arena: seq<Record<N>>, depth: nat)
    requires Layered(expander, initial, arena, |arena|, depth)
    ensures Expanded(UnitSteps(expander), arena, ItemsOf(arena))
    ensures initial in ItemsOf(arena)
  {
    assert arena[0].item == initial;
    forall i, k | 0 <= i < |arena| && 0 <= k < |UnitSteps(expander)(arena[i].item)|
      ensures UnitSteps(expander)(arena[i].item)[k].0 in ItemsOf(arena)
    {
      assert UnitSteps(expander)(arena[i].item)[k].0 == expander(arena[i].item)[k];
    }
  }

  /** The nodes of the first `upto` records, in arena order. */
  function NodesOf<N>(arena: seq<Record<N>>, upto: nat): (nodes: seq<N>)
    requires upto <= |arena|
    ensures |nodes| == upto && forall i | 0 <= i < upto :: nodes[i] == arena[i].item
  {
    seq(upto, i requires 0 <= i < upto => arena[i].item)
  }

  /** Each node is listed once, and a drained arena lists exactly its nodes. */
  lemma NodesDistinct<N>(arena: seq<Record<N>>, upto: nat)
    requires DistinctItems(arena) && upto <= |arena|
    ensures forall i, j | 0 <= i < j < upto :: NodesOf(arena, upto)[i] != NodesOf(arena, upto)[j]
    ensures upto == |arena| ==> forall n :: n in NodesOf(arena, upto) <==> n in ItemsOf(arena)
  {
    var nodes := NodesOf(arena, upto);
    if upto == |arena| {
      forall n | n in ItemsOf(arena) ensures n in nodes {
        var i :| 0 <= i < |arena| && arena[i].item == n;
        assert nodes[i] == n;
      }
    }
  }

  /** What the breadth-first search reports once its loop ends. */
  lemma FinishLayers<N(!new)>(expander: N -> seq<N>, initial: N, isTarget: N -> bool, arena: seq<Record<N>>,
                              start: nat, depth: nat, results: seq<Path<N>>, idx: seq<nat>)
    returns (costs: seq<seq<nat>>)
    requires Layered(expander, initial, arena, start, depth) && Frontier(expander, initial, arena, depth)
    requires ResultsOk(arena, isTarget, results, idx)
    ensures Reports(UnitSteps(expander), initial, isTarget, results, costs)
    ensures BreadthFirstOrder(expander, initial, isTarget, results)
    ensures start == |arena| ==> Exhaustive(UnitSteps(expander), initial, isTarget, results, ItemsOf(arena))
    ensures forall s: set<N> | initial in s && Closed(UnitSteps(expander), s) :: ItemsOf(arena) <= s
    ensures forall i, j | 0 <= i < j < start :: NodesOf(arena, start)[i] != NodesOf(arena, start)[j]
    ensures start == |arena| ==> forall n :: n in NodesOf(arena, start) <==> n in ItemsOf(arena)
  {
    if start == |arena| {
      Drained(expander, initial, arena, depth);
    }
    costs := Complete(UnitSteps(expander), initial, isTarget, arena, ItemsOf(arena), results, idx);
    LayeredOrder(expander, initial, isTarget, arena, start, depth, results, idx);
    NodesDistinct(arena, start);
  }

  /** A node is a leaf when every successor was found no farther away than itself. */
  ghost predicate IsLeaf<N>(expander: N -> seq<N>, arena: seq<Record<N>>, i: nat)
    requires i < |arena|
  {
    forall j | 0 <= j < |expander(arena[i].item)| :: expander(arena[i].item)[j] in Within(arena, arena[i].cost)
  }

  /** A layer record has no unvisited successor exactly when it is a leaf. */
  lemma LeafNow<N>(expander: N -> seq<N>, initial: N, arena: seq<Record<N>>, start: nat, depth: nat, i: nat)
    requires Layered(expander, initial, arena, start, depth) && start <= i < |arena|
    ensures Children(Units(expander(arena[i].item)), ItemsOf(arena), arena[i], i) == [] <==> IsLeaf(expander, arena, i)
  {
    var x := arena[i];
    var c := Children(Units(expander(x.item)), ItemsOf(arena), x, i);
    ChildrenSpec(Units(expander(x.item)), ItemsOf(arena), x, i);
    assert Within(arena, x.cost) == ItemsOf(arena);
    if c != [] {
      var j :| 0 <= j < |Units(expander(x.item))| && c[0] == Child(x, i, Units(expander(x.item))[j]);
      assert expander(x.item)[j] !in Within(arena, x.cost);
    }
  }

  /**
   * `paths` are the leaves among the records `arena[..upto]`, in arena
   * order: the paths of exactly those records.
   */
  ghost predicate LeavesOk<N>(expander: N -> seq<N>, arena: seq<Record<N>>, upto: nat, paths: seq<Path<N>>, idx: seq<nat>)
  {
    && Ordered(arena) && upto <= |arena|
    && (forall j | 0 <= j < |idx| :: idx[j] < upto && IsLeaf(expander, arena, idx[j]))
    && (forall i, j | 0 <= i < j < |idx| :: idx[i] < idx[j])
    && paths == PathsOf(arena, idx)
    && (forall i | 0 <= i < upto && IsLeaf(expander, arena, i) :: i in idx)
  }

  /** Looking at one more record adds its path exactly when it is a leaf. */
  lemma LeafStep<N>(expander: N -> seq<N>, arena: seq<Record<N>>, upto: nat, paths: seq<Path<N>>, idx: seq<nat>,
                    leaf: bool)
    requires LeavesOk(expander, arena, upto, paths, idx) && upto < |arena|
    requires leaf == IsLeaf(expander, arena, upto)
    ensures LeavesOk(expander, arena, upto + 1,
                     if leaf then paths + [PathOf(arena, upto)] else paths, if leaf then idx + [upto] else idx)
  {
    if leaf {
      var idx' := idx + [upto];
      assert PathsOf(arena, idx') == paths + [PathOf(arena, upto)];
    }
  }

  /** The next layer, all farther away, changes neither which records are leaves nor their paths. */
  lemma LeavesExtend<N>(expander: N -> seq<N>, initial: N, arena: seq<Record<N>>, start: nat, depth: nat,
                        layer: seq<Record<N>>, paths: seq<Path<N>>, idx: seq<nat>)
    requires Layered(expander, initial, arena, start, depth)
    requires Layered(expander, initial, arena + layer, |arena|, depth + 1)
    requires LeavesOk(expander, arena, |arena|, paths, idx)
    ensures LeavesOk(expander, arena + layer, |arena|, paths, idx)
  {
    var a := arena + layer;
    forall c | 0 <= c <= depth ensures Within(a, c) == Within(arena, c) {
      forall n | n in Within(a, c) ensures n in Within(arena, c) {
        var i :| 0 <= i < |a| && a[i].cost <= c && a[i].item == n;
        assert i < |arena|;
        assert a[i] == arena[i];
      }
      forall n | n in Within(arena, c) ensures n in Within(a, c) {
        var i :| 0 <= i < |arena| && arena[i].cost <= c && arena[i].item == n;
        assert a[i] == arena[i];
      }
    }
    forall i | 0 <= i < |arena| ensures (IsLeaf(expander, a, i) <==> IsLeaf(expander, arena, i)) && PathOf(a, i) == PathOf(arena, i) {
      assert a[i] == arena[i];
      assert Within(a, arena[i].cost) == Within(arena, arena[i].cost);
      HistoryPrefix(a, |arena|, i);
      assert a[..|arena|] == arena;
    }
    assert PathsOf(a, idx) == PathsOf(arena, idx);
  }

  class BreadthFirstSearch<N(==,!new)> {

    const expander: N -> seq<N>

    constructor(expander: N -> seq<N>)
      ensures this.expander == expander
    {
      this.expander := expander;
    }

    /** The combiner constructor of BreadthFirstSearch.cs: successors are combiner(node, edge), nulls dropped. */
    constructor Combining<E>(edges: N -> seq<E>, combiner: (N, E) -> Option<N>)
      ensures expander == Combine(edges, combiner)
    {
      expander := Combine(edges, combiner);
    }

    /** The `foreach` over a new layer `arena[m..]`: a path for each target in it, in order. */
    method ReportLayer(arena: seq<Record<N>>, m: nat, isTarget: N -> bool, results: seq<Path<N>>, ghost idx: seq<nat>)
      returns (results': seq<Path<N>>, ghost idx': seq<nat>)
      requires Ordered(arena) && DistinctItems(arena) && m <= |arena|
      requires ResultsOk(arena[..m], isTarget, results, idx)
      ensures ResultsOk(arena, isTarget, results', idx')
      ensures |results| <= |results'| && results'[..|results|] == results
    {
      results', idx' := results, idx;
      var k := m;
      while k < |arena|
        invariant m <= k <= |arena|
        invariant ResultsOk(arena[..k], isTarget, results', idx')
        invariant |results| <= |results'| && results'[..|results|] == results
      {
        ReportOne(arena, k, isTarget, results', idx');
        if isTarget(arena[k].item) {
          results', idx' := results' + [PathOf(arena, k)], idx' + [k];
        }
        k := k + 1;
      }
      assert arena[..k] == arena;
    }

    /**
     * The layer loop of `FindAll2`: expands layer after layer until a layer
     * leaves at least `minResults` paths or no layer is left; `fuel` bounds
     * the number of layers, and `outOfFuel` says the bound stopped it.
     */
    method Layers(initial: N, target: N -> bool, minResults: int, fuel: nat)
      returns (arena: seq<Record<N>>, start: nat, results: seq<Path<N>>, outOfFuel: bool,
               ghost idx: seq<nat>, ghost depth: nat)
      ensures Layered(expander, initial, arena, start, depth) && Frontier(expander, initial, arena, depth)
      ensures ResultsOk(arena, target, results, idx)
      ensures target(initial) ==> |results| > 0 && results[0] == SingleNodePath(initial)
      ensures outOfFuel ==> start < |arena| && fuel <= start
      ensures !outOfFuel && |results| < minResults ==> start == |arena|
    {
      arena := [Record(initial, None, 0)];
      start := 0;
      var visited: set<N> := {};
      results, idx, depth := [], [], 0;
      StartLayer(expander, initial);
      if target(initial) {
        results, idx := [SingleNodePath(initial)], [0];
        assert Reverse([initial]) == [initial];
      }
      var layers := 0;
      while start < |arena|
        invariant Layered(expander, initial, arena, start, depth) && Frontier(expander, initial, arena, depth)
        invariant visited == ItemsOf(arena[..start])
        invariant ResultsOk(arena, target, results, idx)
        invariant target(initial) ==> |results| > 0 && results[0] == SingleNodePath(initial)
        invariant layers <= fuel && layers <= start
        decreases fuel - layers
      {
        if layers == fuel {
          return arena, start, results, true, idx, depth;
        }
        LayerAdvance(expander, initial, arena, start, depth, visited);
        visited := visited + ItemsOf(arena[start..]);
        var layer := Dedupe(SequentialExpand(expander, arena, start, visited), {});
        var m := |arena|;
        arena, start, depth, layers := arena + layer, m, depth + 1, layers + 1;
        results, idx := ReportLayer(arena, m, target, results, idx);
        if |results| >= minResults {
          break;
        }
      }
      outOfFuel := false;
    }

    /**
     * `FindAll2`: the paths to the targets, layer by layer; the loop stops
     * once a layer leaves at least `minResults` paths, or when no layer is
     * left.  `fuel` bounds the number of layers.
     */
    method FindAll2(initial: N, isTarget: Option<N -> bool>, minResults: int, fuel: nat)
      returns (r: Result<seq<Path<N>>>, drained: bool, ghost explored: set<N>, ghost expanded: seq<N>,
               ghost costs: seq<seq<nat>>)
      ensures isTarget.None? ==> r == Err(ArgumentNull) && !drained
      ensures isTarget.Some? && r.Err? ==> r.error == OutOfFuel && fuel <= |explored| && !drained
      ensures r.Ok? ==> isTarget.Some? && Reports(UnitSteps(expander), initial, isTarget.value, r.value, costs)
      ensures r.Ok? ==> BreadthFirstOrder(expander, initial, isTarget.value, r.value)
      ensures r.Ok? && isTarget.value(initial) ==> |r.value| > 0 && r.value[0] == SingleNodePath(initial)
      ensures r.Ok? && |r.value| < minResults ==> drained
      ensures drained ==> r.Ok? && Exhaustive(UnitSteps(expander), initial, isTarget.value, r.value, explored)
      ensures forall s: set<N> | initial in s && Closed(UnitSteps(expander), s) :: explored <= s
      ensures forall i, j | 0 <= i < j < |expanded| :: expanded[i] != expanded[j]
      ensures drained ==> forall n :: n in expanded <==> n in explored
    {
      if isTarget.None? {
        return Err(ArgumentNull), false, {}, [], [];
      }
      var target := isTarget.value;
      var arena, start, results, outOfFuel, idx, depth := Layers(initial, target, minResults, fuel);
      if outOfFuel {
        ItemsOfCard(arena);
        ItemsInClosed(UnitSteps(expander), initial, arena);
        NodesDistinct(arena, start);
        return Err(OutOfFuel), false, ItemsOf(arena), NodesOf(arena, start), [];
      }
      drained := start == |arena|;
      explored := ItemsOf(arena);
      expanded := NodesOf(arena, start);
      costs := FinishLayers(expander, initial, target, arena, start, depth, results, idx);
      r := Ok(results);
    }

    /** `FindAll`: `FindAll2` with a predicate on the node. */
    method FindAll(initial: N, isTarget: N -> bool, minResults: int, fuel: nat)
      returns (r: Result<seq<Path<N>>>, drained: bool, ghost explored: set<N>, ghost costs: seq<seq<nat>>)
      ensures r.Err? ==> r.error == OutOfFuel && fuel <= |explored| && !drained
      ensures r.Ok? ==> Reports(UnitSteps(expander), initial, isTarget, r.value, costs)
      ensures r.Ok? ==> BreadthFirstOrder(expander, initial, isTarget, r.value)
      ensures r.Ok? && isTarget(initial) ==> |r.value| > 0 && r.value[0] == SingleNodePath(initial)
      ensures r.Ok? && |r.value| < minResults ==> drained
      ensures drained ==> r.Ok? && Exhaustive(UnitSteps(expander), initial, isTarget, r.value, explored)
      ensures forall s: set<N> | initial in s && Closed(UnitSteps(expander), s) :: explored <= s
    {
      ghost var expanded;
      r, drained, explored, expanded, costs := FindAll2(initial, Some(isTarget), minResults, fuel);
    }

    /**
     * `FindFirst`: `FindAll` with `minResults` 1, then the first path or
     * nothing.  The path found is a shortest route to any target; nothing
     * found means no target can be reached.
     */
    method FindFirst(initial: N, isTarget: N -> bool, fuel: nat) returns (r: Result<Option<Path<N>>>)
      ensures r.Err? ==> r.error == OutOfFuel
      ensures r.Ok? && r.value.Some? ==>
        var p := r.value.value;
        && Route(expander, p.steps) && p.steps[0] == initial && Last(p.steps) == p.target
        && isTarget(p.target) && p.length == |p.steps| - 1
        && forall w | Route(expander, w) && w[0] == initial && isTarget(Last(w)) :: p.length <= |w| - 1
      ensures r.Ok? && r.value.None? ==> forall w | Route(expander, w) && w[0] == initial :: !isTarget(Last(w))
    {
      var all, drained, explored, costs := FindAll(initial, isTarget, 1, fuel);
      if all.Err? {
        return Err(all.error);
      }
      if |all.value| == 0 {
        forall w | Route(expander, w) && w[0] == initial ensures !isTarget(Last(w)) {
          RouteInClosed(expander, explored, w);
        }
        return Ok(None);
      }
      var p := all.value[0];
      assert IsResult(UnitSteps(expander), initial, isTarget, p, costs[0]);
      UnitWalk(expander, p.steps, costs[0]);
      forall w | Route(expander, w) && w[0] == initial && isTarget(Last(w)) ensures p.length <= |w| - 1 {
        NearestFirst(expander, initial, isTarget, all.value, w);
      }
      r := Ok(Some(p));
    }

    /**
     * The `foreach` of `FindLeafs` over the paired expansion of the layer
     * `arena[start..]`: a record with children adds them to the next layer
     * (`UnionWith`), a record without is reported as a leaf.
     */
    method GatherLeaves(ghost initial: N, arena: seq<Record<N>>, start: nat, ghost depth: nat, visited: set<N>,
                        results: seq<Path<N>>, ghost idx: seq<nat>)
      returns (next: seq<Record<N>>, results': seq<Path<N>>, ghost idx': seq<nat>)
      requires Layered(expander, initial, arena, start, depth) && visited == ItemsOf(arena)
      requires LeavesOk(expander, arena, start, results, idx)
      ensures Gathered(expander, arena, start, |arena|, next)
      ensures LeavesOk(expander, arena, |arena|, results', idx')
    {
      var expandedPairs := SequentialExpandTuple(expander, arena, start, visited);
      next, results', idx' := [], results, idx;
      var k := 0;
      while k < |expandedPairs|
        invariant 0 <= k <= |expandedPairs| == |arena| - start
        invariant Gathered(expander, arena, start, start + k, next)
        invariant LeavesOk(expander, arena, start + k, results', idx')
      {
        var (pred, nodes) := expandedPairs[k];
        ExpandTupleAt(expander, arena, start, visited, k);
        UnionStep(expander, arena, start, k, next);
        LeafNow(expander, initial, arena, start, depth, start + k);
        LeafStep(expander, arena, start + k, results', idx', nodes == []);
        if nodes != [] {
          next := UnionWith(next, nodes);
        } else {
          results', idx' := results' + [PathOf(arena, start + k)], idx' + [start + k];
        }
        k := k + 1;
      }
    }

    /**
     * `FindLeafs`: the paths to the nodes that have no unvisited successor
     * when expanded, layer by layer, until a layer leaves at least
     * `minResults` of them or no layer is left.  `arena` holds every record
     * made and `expandedCount` the number of expanded ones.
     */
    method FindLeafs(initial: N, minResults: int, fuel: nat)
      returns (r: Result<seq<Path<N>>>, drained: bool, ghost records: seq<Record<N>>, ghost expandedCount: nat,
               ghost idx: seq<nat>)
      ensures ArenaOk(UnitSteps(expander), initial, records) && DistinctItems(records) && expandedCount <= |records|
      ensures r.Err? ==> r.error == OutOfFuel && fuel <= expandedCount && !drained
      ensures r.Ok? ==> LeavesOk(expander, records, expandedCount, r.value, idx)
      ensures r.Ok? && |r.value| < minResults ==> drained
      ensures drained ==> r.Ok? && expandedCount == |records| && Expanded(UnitSteps(expander), records, ItemsOf(records))
    {
      var arena := [Record(initial, None, 0)];
      var start: nat := 0;
      var visited: set<N> := {};
      var results: seq<Path<N>> := [];
      idx := [];
      ghost var depth: nat := 0;
      StartLayer(expander, initial);
      var layers := 0;
      while start < |arena|
        invariant Layered(expander, initial, arena, start, depth)
        invariant visited == ItemsOf(arena[..start])
        invariant LeavesOk(expander, arena, start, results, idx)
        invariant layers <= fuel && layers <= start
        decreases fuel - layers
      {
        if layers == fuel {
          return Err(OutOfFuel), false, arena, start, idx;
        }
        VisitLayer(arena, start, visited);
        visited := visited + ItemsOf(arena[start..]);
        var next;
        next, results, idx := GatherLeaves(initial, arena, start, depth, visited, results, idx);
        LayerStep(expander, initial, arena, start, depth, next);
        LeavesExtend(expander, initial, arena, start, depth, next, results, idx);
        var m := |arena|;
        ItemsBefore(arena, next, visited);
        arena, start, depth, layers := arena + next, m, depth + 1, layers + 1;
        if |results| >= minResults {
          break;
        }
      }
      drained := start == |arena|;
      records, expandedCount := arena, start;
      if drained {
        Drained(expander, initial, arena, depth);
      }
      r := Ok(results);
    }

    /**
     * The `foreach` of `FindReachable` over the paired expansion of the
     * layer `arena[start..]`: every non-empty list of children joins the next
     * layer (`UnionWith`).
     */
    method GatherLayer(arena: seq<Record<N>>, start: nat, visited: set<N>) returns (next: seq<Record<N>>)
      requires start <= |arena| && visited == ItemsOf(arena)
      ensures Gathered(expander, arena, start, |arena|, next)
    {
      var expandedPairs := SequentialExpandTuple(expander, arena, start, visited);
      next := [];
      var k := 0;
      while k < |expandedPairs|
        invariant 0 <= k <= |expandedPairs| == |arena| - start
        invariant Gathered(expander, arena, start, start + k, next)
      {
        var (pred, nodes) := expandedPairs[k];
        ExpandTupleAt(expander, arena, start, visited, k);
        UnionStep(expander, arena, start, k, next);
        if |nodes| > 0 {
          next := UnionWith(next, nodes);
        }
        k := k + 1;
      }
    }

    /**
     * `FindReachable`: every node reachable from `initial`, each once, in
     * the order they were found.
     */
    method FindReachable(initial: N, fuel: nat) returns (r: Result<seq<N>>)
      ensures r.Err? ==> r.error == OutOfFuel
      ensures r.Ok? ==> |r.value| > 0 && r.value[0] == initial
      ensures r.Ok? ==> forall i, j | 0 <= i < j < |r.value| :: r.value[i] != r.value[j]
      ensures r.Ok? ==> forall n :: n in r.value <==> Reachable(expander, initial, n)
    {
      var arena := [Record(initial, None, 0)];
      var start: nat := 0;
      var visited: set<N> := {};
      ghost var depth: nat := 0;
      StartLayer(expander, initial);
      var layers := 0;
      while start < |arena|
        invariant Layered(expander, initial, arena, start, depth)
        invariant visited == ItemsOf(arena[..start])
        invariant layers <= fuel
        decreases fuel - layers
      {
        if layers == fuel {
          return Err(OutOfFuel);
        }
        VisitLayer(arena, start, visited);
        visited := visited + ItemsOf(arena[start..]);
        var next := GatherLayer(arena, start, visited);
        LayerStep(expander, initial, arena, start, depth, next);
        ItemsBefore(arena, next, visited);
        arena, start, depth, layers := arena + next, |arena|, depth + 1, layers + 1;
      }
      var nodes := NodesOf(arena, |arena|);
      Drained(expander, initial, arena, depth);
      ReachableExactly(expander, initial, arena, depth, nodes);
      r := Ok(nodes);
    }
  }

  /** The nodes of a drained search are exactly the reachable ones. */
  lemma ReachableExactly<N(!new)>(expander: N -> seq<N>, initial: N, arena: seq<Record<N>>, depth: nat, nodes: seq<N>)
    requires Layered(expander, initial, arena, |arena|, depth)
    requires Expanded(UnitSteps(expander), arena, ItemsOf(arena))
    requires |nodes| == |arena| && forall i | 0 <= i < |arena| :: nodes[i] == arena[i].item
    ensures forall n :: n in nodes <==> Reachable(expander, initial, n)
  {
    assert ItemsOf(arena) == set n | n in nodes;
    assert Closed(UnitSteps(expander), ItemsOf(arena));
    forall n | Reachable(expander, initial, n) ensures n in nodes {
      var w :| Route(expander, w) && w[0] == initial && Last(w) == n;
      assert initial == arena[0].item;
      RouteInClosed(expander, ItemsOf(arena), w);
    }
    forall n | n in nodes ensures Reachable(expander, initial, n) {
      var i :| 0 <= i < |nodes| && nodes[i] == n;
      DistanceIsLength(expander, initial, arena, i);
      var p := PathOf(arena, i);
      assert Route(expander, p.steps) && p.steps[0] == initial && Last(p.steps) == n;
    }
  }
}
