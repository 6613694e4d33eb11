/**
 * The object graph of Core/Graph.cs: a directed multigraph built from a list
 * of edge values and a linker that names the two endpoint keys of each edge.
 * Nodes and edges are objects; every node keeps, in insertion order, the
 * edges that arrive at it and the edges that leave it.
 */
module EdgeGraphs {

  import opened Wrappers

  /** `GraphEdge`: an edge value between two node objects. */
  class GraphEdge<N, E> {
    const value: E
    const source: GraphNode<N, E>
    const destination: GraphNode<N, E>

    constructor (value: E, source: GraphNode<N, E>, destination: GraphNode<N, E>)
      ensures this.value == value && this.source == source && this.destination == destination
    {
      this.value := value;
      this.source := source;
      this.destination := destination;
    }
  }

  /** `GraphNode`: a node key with the lists of its incoming and outgoing edges. */
  class GraphNode<N, E> {
    const value: N
    var incoming: seq<GraphEdge<N, E>>
    var outgoing: seq<GraphEdge<N, E>>

    constructor (value: N)
      ensures this.value == value && incoming == [] && outgoing == []
    {
      this.value := value;
      incoming := [];
      outgoing := [];
    }

    /** `Neighbors`: the sources of the incoming edges, then the destinations of the outgoing ones. */
    function Neighbors(): (r: seq<GraphNode<N, E>>)
      reads this
      ensures |r| == |incoming| + |outgoing|
      ensures forall m | m in r :: (exists e | e in incoming :: e.source == m) || (exists e | e in outgoing :: e.destination == m)
      ensures forall e | e in incoming :: e.source in r
      ensures forall e | e in outgoing :: e.destination in r
    {
      Sources(incoming) + Destinations(outgoing)
    }
  }

  function Sources<N, E>(list: seq<GraphEdge<N, E>>): (r: seq<GraphNode<N, E>>)
    ensures |r| == |list|
    ensures forall i | 0 <= i < |list| :: r[i] == list[i].source
  {
    if list == [] then [] else [list[0].source] + Sources(list[1..])
  }

  function Destinations<N, E>(list: seq<GraphEdge<N, E>>): (r: seq<GraphNode<N, E>>)
    ensures |r| == |list|
    ensures forall i | 0 <= i < |list| :: r[i] == list[i].destination
  {
    if list == [] then [] else [list[0].destination] + Destinations(list[1..])
  }

  /** The edges of `list` that leave `n`, in list order. */
  function Leaving<N, E>(list: seq<GraphEdge<N, E>>, n: GraphNode<N, E>): (r: seq<GraphEdge<N, E>>)
    ensures |r| <= |list|
    ensures forall e | e in r :: e in list && e.source == n
    ensures forall e | e in list && e.source == n :: e in r
  {
    if list == [] then []
    else
      var front, last := list[..|list| - 1], list[|list| - 1];
      assert list == front + [last];
      Leaving(front, n) + (if last.source == n then [last] else [])
  }

  /** The edges of `list` that arrive at `n`, in list order. */
  function Arriving<N, E>(list: seq<GraphEdge<N, E>>, n: GraphNode<N, E>): (r: seq<GraphEdge<N, E>>)
    ensures |r| <= |list|
    ensures forall e | e in r :: e in list && e.destination == n
    ensures forall e | e in list && e.destination == n :: e in r
  {
    if list == [] then []
    else
      var front, last := list[..|list| - 1], list[|list| - 1];
      assert list == front + [last];
      Arriving(front, n) + (if last.destination == n then [last] else [])
  }

  lemma LeavingAppend<N, E>(list: seq<GraphEdge<N, E>>, e: GraphEdge<N, E>, n: GraphNode<N, E>)
    ensures Leaving(list + [e], n) == Leaving(list, n) + (if e.source == n then [e] else [])
    ensures Arriving(list + [e], n) == Arriving(list, n) + (if e.destination == n then [e] else [])
  {
    assert (list + [e])[..|list|] == list;
  }

  /** A node that no edge of `list` touches has empty lists. */
  lemma NoneLeaving<N, E>(list: seq<GraphEdge<N, E>>, n: GraphNode<N, E>)
    requires forall x | x in list :: x.source != n && x.destination != n
    ensures Leaving(list, n) == [] && Arriving(list, n) == []
  {
    if Leaving(list, n) != [] {
      assert Leaving(list, n)[0] in Leaving(list, n);
    }
    if Arriving(list, n) != [] {
      assert Arriving(list, n)[0] in Arriving(list, n);
    }
  }

  function NodeKey<N, E>(n: GraphNode<N, E>): N { n.value }

  function EdgeKey<N, E>(e: GraphEdge<N, E>): E { e.value }

  /** No two elements of `list` have the same key. */
  predicate Unique<K(==), V>(list: seq<V>, key: V -> K)
  {
    forall a, b | 0 <= a < b < |list| :: key(list[a]) != key(list[b])
  }

  /**
   * `Enumerable.ToDictionary(key)`: every element under its key, or an
   * `ArgumentException` when two elements share a key.
   */
  function ToDictionary<K(==), V(==)>(list: seq<V>, key: V -> K): (r: Result<map<K, V>>)
    ensures r.Ok? <==> Unique(list, key)
    ensures r.Err? ==> r.error == Argument
    ensures r.Ok? ==> r.value.Keys == (set v | v in list :: key(v))
    ensures r.Ok? ==> forall v | v in list :: r.value[key(v)] == v
  {
    if list == [] then Ok(map[])
    else
      var front, last := list[..|list| - 1], list[|list| - 1];
      assert list == front + [last];
      match ToDictionary(front, key)
      case Err(e) => Err(e)
      case Ok(m) =>
        if key(last) in m then
          var a :| a in front && key(a) == key(last);
          var x :| 0 <= x < |front| && front[x] == a;
          assert key(list[x]) == key(list[|list| - 1]);
          Err(Argument)
        else
          var r := m[key(last) := last];
          assert forall v | v in list :: v in front || v == last;
          Ok(r)
  }

  /** The `Graph` object: its nodes by key and its edges by value. */
  class Graph<N(==), E(==)> {
    const nodes: map<N, GraphNode<N, E>>
    const edges: map<E, GraphEdge<N, E>>

    constructor Init(nodes: map<N, GraphNode<N, E>>, edges: map<E, GraphEdge<N, E>>)
      ensures this.nodes == nodes && this.edges == edges
    {
      this.nodes := nodes;
      this.edges := edges;
    }

    /**
     * The `Graph` constructor: both collections become dictionaries keyed by
     * value, and a repeated node key or edge value is an `ArgumentException`.
     */
    static method Create(nodeList: seq<GraphNode<N, E>>, edgeList: seq<GraphEdge<N, E>>) returns (r: Result<Graph<N, E>>)
      ensures r.Ok? <==> Unique(nodeList, NodeKey) && Unique(edgeList, EdgeKey)
      ensures r.Err? ==> r.error == Argument
      ensures r.Ok? ==> (
        && fresh(r.value)
        && r.value.nodes.Keys == (set n | n in nodeList :: n.value)
        && (forall n | n in nodeList :: r.value.nodes[n.value] == n)
        && r.value.edges.Keys == (set e | e in edgeList :: e.value)
        && (forall e | e in edgeList :: r.value.edges[e.value] == e))
    {
      var byKey := ToDictionary(nodeList, NodeKey);
      var byValue := ToDictionary(edgeList, EdgeKey);
      if byKey.Err? {
        r := Err(byKey.error);
      } else if byValue.Err? {
        r := Err(byValue.error);
      } else {
        var g := new Graph<N, E>.Init(byKey.value, byValue.value);
        r := Ok(g);
      }
    }
  }

  /** Some of the first `i` edges starts or ends at the key `k`. */
  ghost predicate Linked<N, E>(edges: seq<E>, linker: E -> (N, N), i: nat, k: N)
    requires i <= |edges|
  {
    exists j | 0 <= j < i :: linker(edges[j]).0 == k || linker(edges[j]).1 == k
  }

  /**
   * The shape `FromEdges` gives the first `i` edges: one node per endpoint
   * key, one edge object per edge value between the nodes of its keys, and
   * under every key the lists `outs` and `ins` of exactly the edges that
   * leave and arrive at its node, in order.
   */
  ghost predicate Shape<N, E>(edges: seq<E>, linker: E -> (N, N), i: nat,
                              nodes: map<N, GraphNode<N, E>>, edgeList: seq<GraphEdge<N, E>>,
                              outs: map<N, seq<GraphEdge<N, E>>>, ins: map<N, seq<GraphEdge<N, E>>>)
    requires i <= |edges|
  {
    && |edgeList| == i
    && (forall k | k in nodes :: nodes[k].value == k && Linked(edges, linker, i, k))
    && Joined(edges, linker, i, nodes, edgeList)
    && Lists(nodes, edgeList, outs, ins)
  }

  /** The outgoing lists of the nodes, by key. */
  ghost function OutgoingOf<N, E>(nodes: map<N, GraphNode<N, E>>): (r: map<N, seq<GraphEdge<N, E>>>)
    reads nodes.Values
  {
    map k | k in nodes :: nodes[k].outgoing
  }

  /** The incoming lists of the nodes, by key. */
  ghost function IncomingOf<N, E>(nodes: map<N, GraphNode<N, E>>): (r: map<N, seq<GraphEdge<N, E>>>)
    reads nodes.Values
  {
    map k | k in nodes :: nodes[k].incoming
  }

  /** `lists` with an empty list under every key of `keys` it lacks, and `e` appended under `at`. */
  ghost function Grown<N, E>(lists: map<N, seq<GraphEdge<N, E>>>, keys: set<N>, at: N, e: GraphEdge<N, E>): map<N, seq<GraphEdge<N, E>>>
  {
    map k | k in keys :: (if k in lists then lists[k] else []) + (if k == at then [e] else [])
  }

  /** The preconditions of one `FromEdges` step: the new map keeps every old node and adds the edge's two keys. */
  ghost predicate StepReady<N, E>(edges: seq<E>, linker: E -> (N, N), i: nat,
                                  nodes: map<N, GraphNode<N, E>>, nodes1: map<N, GraphNode<N, E>>, e: GraphEdge<N, E>)
    requires i < |edges|
  {
    && nodes1.Keys == nodes.Keys + {linker(edges[i]).0, linker(edges[i]).1}
    && (forall k | k in nodes :: nodes1[k] == nodes[k])
    && (forall k | k in nodes1 :: nodes1[k].value == k)
    && e.value == edges[i]
    && e.source == nodes1[linker(edges[i]).0] && e.destination == nodes1[linker(edges[i]).1]
  }

  lemma StepLinked<N, E>(edges: seq<E>, linker: E -> (N, N), i: nat,
                         nodes: map<N, GraphNode<N, E>>, nodes1: map<N, GraphNode<N, E>>, e: GraphEdge<N, E>)
    requires i < |edges| && StepReady(edges, linker, i, nodes, nodes1, e)
    requires forall k | k in nodes :: Linked(edges, linker, i, k)
    ensures forall k | k in nodes1 :: Linked(edges, linker, i + 1, k)
  {
    forall k | k in nodes1
      ensures Linked(edges, linker, i + 1, k)
    {
      if k in nodes {
        var j :| 0 <= j < i && (linker(edges[j]).0 == k || linker(edges[j]).1 == k);
      } else {
        assert linker(edges[i]).0 == k || linker(edges[i]).1 == k;
      }
    }
  }

  /** The edge objects of the first `i` edges join the nodes of their keys. */
  ghost predicate Joined<N, E>(edges: seq<E>, linker: E -> (N, N), i: nat,
                               nodes: map<N, GraphNode<N, E>>, edgeList: seq<GraphEdge<N, E>>)
    requires i <= |edges| && |edgeList| == i
  {
    forall j | 0 <= j < i ::
      && linker(edges[j]).0 in nodes && linker(edges[j]).1 in nodes
      && edgeList[j].value == edges[j]
      && edgeList[j].source == nodes[linker(edges[j]).0]
      && edgeList[j].destination == nodes[linker(edges[j]).1]
  }

  lemma StepJoined<N, E>(edges: seq<E>, linker: E -> (N, N), i: nat, nodes: map<N, GraphNode<N, E>>,
                         edgeList: seq<GraphEdge<N, E>>, nodes1: map<N, GraphNode<N, E>>, e: GraphEdge<N, E>)
    requires i < |edges| && |edgeList| == i && StepReady(edges, linker, i, nodes, nodes1, e)
    requires Joined(edges, linker, i, nodes, edgeList)
    ensures Joined(edges, linker, i + 1, nodes1, edgeList + [e])
  {
    var list := edgeList + [e];
    forall j | 0 <= j < i + 1
      ensures && linker(edges[j]).0 in nodes1 && linker(edges[j]).1 in nodes1
              && list[j].value == edges[j]
              && list[j].source == nodes1[linker(edges[j]).0]
              && list[j].destination == nodes1[linker(edges[j]).1]
    {
      if j < i {
        assert list[j] == edgeList[j];
      }
    }
  }

  /** Under every key, `outs` and `ins` list the edges of `edgeList` that leave and arrive at its node. */
  ghost predicate Lists<N, E>(nodes: map<N, GraphNode<N, E>>, edgeList: seq<GraphEdge<N, E>>,
                              outs: map<N, seq<GraphEdge<N, E>>>, ins: map<N, seq<GraphEdge<N, E>>>)
  {
    && outs.Keys == nodes.Keys && ins.Keys == nodes.Keys
    && (forall k | k in nodes :: outs[k] == Leaving(edgeList, nodes[k]) && ins[k] == Arriving(edgeList, nodes[k]))
  }

  lemma StepLists<N, E>(edges: seq<E>, linker: E -> (N, N), i: nat, nodes: map<N, GraphNode<N, E>>,
                        edgeList: seq<GraphEdge<N, E>>, outs: map<N, seq<GraphEdge<N, E>>>, ins: map<N, seq<GraphEdge<N, E>>>,
                        nodes1: map<N, GraphNode<N, E>>, e: GraphEdge<N, E>)
    requires i < |edges| && |edgeList| == i && StepReady(edges, linker, i, nodes, nodes1, e)
    requires Joined(edges, linker, i, nodes, edgeList) && Lists(nodes, edgeList, outs, ins)
    ensures Lists(nodes1, edgeList + [e],
                  Grown(outs, nodes1.Keys, linker(edges[i]).0, e), Grown(ins, nodes1.Keys, linker(edges[i]).1, e))
  {
    var (src, dest) := linker(edges[i]);
    var list := edgeList + [e];
    var outs1, ins1 := Grown(outs, nodes1.Keys, src, e), Grown(ins, nodes1.Keys, dest, e);
    forall k | k in nodes1
      ensures outs1[k] == Leaving(list, nodes1[k]) && ins1[k] == Arriving(list, nodes1[k])
    {
      LeavingAppend(edgeList, e, nodes1[k]);
      assert e.source == nodes1[k] <==> k == src;
      assert e.destination == nodes1[k] <==> k == dest;
      if k !in nodes {
        forall x | x in edgeList
          ensures x.source != nodes1[k] && x.destination != nodes1[k]
        {
          var j :| 0 <= j < i && edgeList[j] == x;
        }
        NoneLeaving(edgeList, nodes1[k]);
      }
    }
  }

  /** `nodeList` holds every node of `nodes` once: the order of `Dictionary.Values`. */
  ghost predicate Listed<N, E>(nodes: map<N, GraphNode<N, E>>, nodeList: seq<GraphNode<N, E>>)
  {
    && (forall k | k in nodes :: nodes[k].value == k && nodes[k] in nodeList)
    && (forall x | 0 <= x < |nodeList| :: nodeList[x].value in nodes && nodes[nodeList[x].value] == nodeList[x])
    && Unique(nodeList, NodeKey)
  }

  ghost function EdgeList<N, E>(edges: seq<E>, edgeMap: map<E, GraphEdge<N, E>>): (r: seq<GraphEdge<N, E>>)
    requires forall j | 0 <= j < |edges| :: edges[j] in edgeMap
    ensures |r| == |edges|
    ensures forall j | 0 <= j < |edges| :: r[j] == edgeMap[edges[j]]
  {
    seq(|edges|, j requires 0 <= j < |edges| => edgeMap[edges[j]])
  }

  /** A graph whose maps `FromEdges` built from `edges`. */
  ghost predicate Built<N, E>(edges: seq<E>, linker: E -> (N, N),
                              nodes: map<N, GraphNode<N, E>>, edgeMap: map<E, GraphEdge<N, E>>)
    reads nodes.Values
  {
    && (forall j | 0 <= j < |edges| :: edges[j] in edgeMap)
    && edgeMap.Keys == (set e | e in edges)
    && Shape(edges, linker, |edges|, nodes, EdgeList(edges, edgeMap), OutgoingOf(nodes), IncomingOf(nodes))
  }

  /** The node for `key`, made and recorded when it is new: the `nodeFactory` of `FromEdges`. */
  method NodeFor<N, E>(nodes: map<N, GraphNode<N, E>>, nodeList: seq<GraphNode<N, E>>, key: N)
    returns (nodes': map<N, GraphNode<N, E>>, nodeList': seq<GraphNode<N, E>>, node: GraphNode<N, E>)
    requires Listed(nodes, nodeList)
    ensures Listed(nodes', nodeList')
    ensures nodes' == nodes[key := node] && node.value == key
    ensures key in nodes ==> node == nodes[key] && nodeList' == nodeList
    ensures key !in nodes ==> fresh(node) && node.incoming == [] && node.outgoing == [] && nodeList' == nodeList + [node]
    ensures nodes'.Keys == nodes.Keys + {key} && forall k | k in nodes :: nodes'[k] == nodes[k]
    ensures forall k | k in nodes' && k !in nodes :: fresh(nodes'[k]) && nodes'[k].outgoing == [] && nodes'[k].incoming == []
  {
    if key in nodes {
      nodes', nodeList', node := nodes, nodeList, nodes[key];
    } else {
      node := new GraphNode<N, E>(key);
      nodes', nodeList' := nodes[key := node], nodeList + [node];
      ListedAdd(nodes, nodeList, node);
    }
  }

  /** The two list updates of one `FromEdges` step; `source` and `destination` may be the same node. */
  method Attach<N, E>(source: GraphNode<N, E>, destination: GraphNode<N, E>, e: GraphEdge<N, E>)
    modifies source, destination
    ensures source.outgoing == old(source.outgoing) + [e]
    ensures destination.incoming == old(destination.incoming) + [e]
    ensures source != destination ==> source.incoming == old(source.incoming) && destination.outgoing == old(destination.outgoing)
  {
    source.outgoing := source.outgoing + [e];
    destination.incoming := destination.incoming + [e];
  }

  /** The two `nodeFactory` calls of one `FromEdges` step. */
  method EndpointsFor<N, E>(nodes: map<N, GraphNode<N, E>>, nodeList: seq<GraphNode<N, E>>, src: N, dest: N)
    returns (nodes': map<N, GraphNode<N, E>>, nodeList': seq<GraphNode<N, E>>,
             source: GraphNode<N, E>, destination: GraphNode<N, E>)
    requires Listed(nodes, nodeList)
    ensures Listed(nodes', nodeList')
    ensures nodes'.Keys == nodes.Keys + {src, dest}
    ensures forall k | k in nodes :: nodes'[k] == nodes[k]
    ensures source == nodes'[src] && destination == nodes'[dest]
    ensures forall k | k in nodes' && k !in nodes :: fresh(nodes'[k]) && nodes'[k].outgoing == [] && nodes'[k].incoming == []
  {
    nodes', nodeList', source := NodeFor(nodes, nodeList, src);
    ghost var mid := nodes';
    nodes', nodeList', destination := NodeFor(nodes', nodeList', dest);
    assert source == mid[src] && src in mid;
  }

  lemma ListedAdd<N, E>(nodes: map<N, GraphNode<N, E>>, nodeList: seq<GraphNode<N, E>>, node: GraphNode<N, E>)
    requires Listed(nodes, nodeList) && node.value !in nodes
    ensures Listed(nodes[node.value := node], nodeList + [node])
  {
    var l := nodeList + [node];
    forall a, b | 0 <= a < b < |l|
      ensures NodeKey(l[a]) != NodeKey(l[b])
    {
      if b == |nodeList| {
        assert l[a] == nodeList[a];
      }
    }
  }

  /** The edge objects have distinct values exactly when the edge values are distinct. */
  lemma UniqueEdges<N, E>(edges: seq<E>, linker: E -> (N, N), nodes: map<N, GraphNode<N, E>>,
                          edgeList: seq<GraphEdge<N, E>>, outs: map<N, seq<GraphEdge<N, E>>>, ins: map<N, seq<GraphEdge<N, E>>>)
    requires Shape(edges, linker, |edges|, nodes, edgeList, outs, ins)
    ensures Unique(edgeList, EdgeKey) <==> !exists a, b | 0 <= a < b < |edges| :: edges[a] == edges[b]
  {
    assert forall j | 0 <= j < |edges| :: EdgeKey(edgeList[j]) == edges[j];
  }

  /** The node dictionary the graph constructor makes from `Dictionary.Values` is the dictionary itself. */
  lemma NodesFromList<N, E>(nodes: map<N, GraphNode<N, E>>, nodeList: seq<GraphNode<N, E>>, gNodes: map<N, GraphNode<N, E>>)
    requires Listed(nodes, nodeList)
    requires gNodes.Keys == (set n | n in nodeList :: n.value) && (forall n | n in nodeList :: gNodes[n.value] == n)
    ensures gNodes == nodes
  {
    forall k | k in nodes
      ensures k in gNodes && gNodes[k] == nodes[k]
    {
      assert nodes[k] in nodeList;
    }
    forall k | k in gNodes
      ensures k in nodes
    {
      var n :| n in nodeList && n.value == k;
      var x :| 0 <= x < |nodeList| && nodeList[x] == n;
    }
    SameMap(gNodes, nodes);
  }

  /** The edge dictionary the graph constructor makes lists the edge objects in input order. */
  lemma EdgesFromList<N, E>(edges: seq<E>, edgeList: seq<GraphEdge<N, E>>, gEdges: map<E, GraphEdge<N, E>>)
    requires |edgeList| == |edges| && forall j | 0 <= j < |edges| :: edgeList[j].value == edges[j]
    requires gEdges.Keys == (set e | e in edgeList :: e.value) && (forall e | e in edgeList :: gEdges[e.value] == e)
    ensures forall j | 0 <= j < |edges| :: edges[j] in gEdges
    ensures EdgeList(edges, gEdges) == edgeList
    ensures gEdges.Keys == (set e | e in edges)
  {
    assert forall j | 0 <= j < |edges| :: edgeList[j] in edgeList;
    assert forall j | 0 <= j < |edges| :: edges[j] in gEdges;
    assert EdgeList(edges, gEdges) == edgeList;
    forall v | v in gEdges.Keys
      ensures v in edges
    {
      var e :| e in edgeList && e.value == v;
      var j :| 0 <= j < |edges| && edgeList[j] == e;
    }
  }

  /** The dictionaries the graph constructor makes from the finished lists describe the built graph. */
  lemma Finish<N, E>(edges: seq<E>, linker: E -> (N, N), nodes: map<N, GraphNode<N, E>>,
                     nodeList: seq<GraphNode<N, E>>, edgeList: seq<GraphEdge<N, E>>,
                     gNodes: map<N, GraphNode<N, E>>, gEdges: map<E, GraphEdge<N, E>>)
    requires Shape(edges, linker, |edges|, nodes, edgeList, OutgoingOf(nodes), IncomingOf(nodes))
    requires Listed(nodes, nodeList)
    requires gNodes.Keys == (set n | n in nodeList :: n.value) && (forall n | n in nodeList :: gNodes[n.value] == n)
    requires gEdges.Keys == (set e | e in edgeList :: e.value) && (forall e | e in edgeList :: gEdges[e.value] == e)
    ensures Built(edges, linker, gNodes, gEdges)
  {
    NodesFromList(nodes, nodeList, gNodes);
    assert forall j | 0 <= j < |edges| :: edgeList[j].value == edges[j];
    EdgesFromList(edges, edgeList, gEdges);
  }

  /** Lists kept beside the nodes, key by key, are the nodes' own lists. */
  lemma ListsOfNodes<N, E>(nodes: map<N, GraphNode<N, E>>, outs: map<N, seq<GraphEdge<N, E>>>, ins: map<N, seq<GraphEdge<N, E>>>)
    requires outs.Keys == nodes.Keys && ins.Keys == nodes.Keys
    requires forall k | k in nodes :: nodes[k].outgoing == outs[k] && nodes[k].incoming == ins[k]
    ensures OutgoingOf(nodes) == outs && IncomingOf(nodes) == ins
  {
    SameMap(OutgoingOf(nodes), outs);
    SameMap(IncomingOf(nodes), ins);
  }

  lemma SameMap<K, V>(m: map<K, V>, m': map<K, V>)
    requires forall k | k in m' :: k in m && m[k] == m'[k]
    requires forall k | k in m :: k in m'
    ensures m == m'
  {
  }

  /** One turn of the `FromEdges` loop: the endpoint nodes, the edge object, and the two list updates. */
  method AddEdge<N, E>(edges: seq<E>, linker: E -> (N, N), i: nat, nodes0: map<N, GraphNode<N, E>>,
                       nodeList0: seq<GraphNode<N, E>>, edgeList0: seq<GraphEdge<N, E>>,
                       ghost outs0: map<N, seq<GraphEdge<N, E>>>, ghost ins0: map<N, seq<GraphEdge<N, E>>>)
    returns (nodes: map<N, GraphNode<N, E>>, nodeList: seq<GraphNode<N, E>>, edgeList: seq<GraphEdge<N, E>>,
             ghost outs: map<N, seq<GraphEdge<N, E>>>, ghost ins: map<N, seq<GraphEdge<N, E>>>)
    requires i < |edges|
    requires Shape(edges, linker, i, nodes0, edgeList0, outs0, ins0) && Listed(nodes0, nodeList0)
    requires forall k | k in nodes0 :: nodes0[k].outgoing == outs0[k] && nodes0[k].incoming == ins0[k]
    modifies nodes0.Values
    ensures Shape(edges, linker, i + 1, nodes, edgeList, outs, ins) && Listed(nodes, nodeList)
    ensures forall k | k in nodes :: nodes[k].outgoing == outs[k] && nodes[k].incoming == ins[k]
    ensures forall k | k in nodes :: (k in nodes0 && nodes[k] == nodes0[k]) || fresh(nodes[k])
  {
    nodes, nodeList, edgeList, outs, ins := nodes0, nodeList0, edgeList0, outs0, ins0;
    var (src, dest) := linker(edges[i]);
    ghost var oldNodes := nodes;
    var source, destination;
    nodes, nodeList, source, destination := EndpointsFor(nodes, nodeList, src, dest);
    var e := new GraphEdge<N, E>(edges[i], source, destination);
    assert StepReady(edges, linker, i, oldNodes, nodes, e);
    StepLinked(edges, linker, i, oldNodes, nodes, e);
    StepJoined(edges, linker, i, oldNodes, edgeList, nodes, e);
    StepLists(edges, linker, i, oldNodes, edgeList, outs, ins, nodes, e);
    forall k | k in nodes
      ensures nodes[k].outgoing == (if k in outs0 then outs0[k] else [])
      ensures nodes[k].incoming == (if k in ins0 then ins0[k] else [])
    {
      if k !in oldNodes {
        assert k == src || k == dest;
      }
    }
    assert src == linker(edges[i]).0 && dest == linker(edges[i]).1;
    outs, ins := Grown(outs, nodes.Keys, src, e), Grown(ins, nodes.Keys, dest, e);
    assert Shape(edges, linker, i + 1, nodes, edgeList + [e], outs, ins);
    edgeList := edgeList + [e];
    label before:
    Attach(source, destination, e);
    forall k | k in nodes
      ensures nodes[k].outgoing == outs[k] && nodes[k].incoming == ins[k]
    {
      var n := nodes[k];
      assert n == source <==> k == src;
      assert n == destination <==> k == dest;
      assert old@before(n.outgoing) == if k in outs0 then outs0[k] else [];
      assert old@before(n.incoming) == if k in ins0 then ins0[k] else [];
      assert outs[k] == (if k in outs0 then outs0[k] else []) + (if k == src then [e] else []);
      assert ins[k] == (if k in ins0 then ins0[k] else []) + (if k == dest then [e] else []);
      if n != source && n != destination {
        assert n.outgoing == old@before(n.outgoing) && n.incoming == old@before(n.incoming);
      }
    }
  }

  /**
   * `Graph.FromEdges`: one edge object per edge value, one node object per
   * distinct endpoint key, each edge appended to its source's outgoing and
   * its destination's incoming list; the graph constructor then rejects a
   * repeated edge value.
   */
  method FromEdges<N(==), E(==)>(edges: seq<E>, linker: E -> (N, N)) returns (r: Result<Graph<N, E>>)
    ensures r.Err? <==> exists a, b | 0 <= a < b < |edges| :: edges[a] == edges[b]
    ensures r.Err? ==> r.error == Argument
    ensures r.Ok? ==> fresh(r.value) && Built(edges, linker, r.value.nodes, r.value.edges)
  {
    var edgeList: seq<GraphEdge<N, E>> := [];
    var nodes: map<N, GraphNode<N, E>> := map[];
    var nodeList: seq<GraphNode<N, E>> := [];
    ghost var outs: map<N, seq<GraphEdge<N, E>>> := map[];
    ghost var ins: map<N, seq<GraphEdge<N, E>>> := map[];
    var i := 0;
    assert Shape(edges, linker, i, nodes, edgeList, outs, ins);
    while i < |edges|
      invariant 0 <= i <= |edges|
      invariant Shape(edges, linker, i, nodes, edgeList, outs, ins)
      invariant forall k | k in nodes :: fresh(nodes[k])
      invariant forall k | k in nodes :: nodes[k].outgoing == outs[k] && nodes[k].incoming == ins[k]
      invariant Listed(nodes, nodeList)
    {
      nodes, nodeList, edgeList, outs, ins := AddEdge(edges, linker, i, nodes, nodeList, edgeList, outs, ins);
      i := i + 1;
    }
    ListsOfNodes(nodes, outs, ins);
    r := Graph<N, E>.Create(nodeList, edgeList);
    UniqueEdges(edges, linker, nodes, edgeList, outs, ins);
    if r.Ok? {
      Finish(edges, linker, nodes, nodeList, edgeList, r.value.nodes, r.value.edges);
    }
  }

  /** What a built graph says about each node and each edge, spelled out over the ordered edge objects. */
  ghost predicate Wired<N, E>(edges: seq<E>, linker: E -> (N, N), nodes: map<N, GraphNode<N, E>>, list: seq<GraphEdge<N, E>>)
    reads nodes.Values
  {
    && |list| == |edges|
    && (forall k | k in nodes :: nodes[k].value == k)
    && (forall j | 0 <= j < |edges| ::
          && linker(edges[j]).0 in nodes && linker(edges[j]).1 in nodes
          && list[j].source == nodes[linker(edges[j]).0]
          && list[j].destination == nodes[linker(edges[j]).1])
    && (forall k | k in nodes :: nodes[k].incoming == Arriving(list, nodes[k]) && nodes[k].outgoing == Leaving(list, nodes[k]))
  }

  lemma BuiltWired<N, E>(edges: seq<E>, linker: E -> (N, N), nodes: map<N, GraphNode<N, E>>, edgeMap: map<E, GraphEdge<N, E>>)
    requires Built(edges, linker, nodes, edgeMap)
    ensures Wired(edges, linker, nodes, EdgeList(edges, edgeMap))
  {
    var list := EdgeList(edges, edgeMap);
    assert Lists(nodes, list, OutgoingOf(nodes), IncomingOf(nodes));
    forall k | k in nodes
      ensures nodes[k].incoming == Arriving(list, nodes[k]) && nodes[k].outgoing == Leaving(list, nodes[k])
    {
      assert nodes[k].incoming == IncomingOf(nodes)[k];
      assert nodes[k].outgoing == OutgoingOf(nodes)[k];
    }
  }

  /**
   * In a built graph, another node is among a node's `Neighbors` exactly when
   * some input edge runs between their keys, in either direction.
   */
  lemma NeighborsAreLinked<N, E>(edges: seq<E>, linker: E -> (N, N),
                                 nodes: map<N, GraphNode<N, E>>, edgeMap: map<E, GraphEdge<N, E>>, k: N, other: N)
    requires Built(edges, linker, nodes, edgeMap)
    requires k in nodes && other in nodes
    ensures nodes[other] in nodes[k].Neighbors() <==>
      exists j | 0 <= j < |edges| :: linker(edges[j]) == (other, k) || linker(edges[j]) == (k, other)
  {
    BuiltWired(edges, linker, nodes, edgeMap);
    WiredNeighbors(edges, linker, nodes, EdgeList(edges, edgeMap), k, other);
  }

  lemma WiredNeighbors<N, E>(edges: seq<E>, linker: E -> (N, N),
                             nodes: map<N, GraphNode<N, E>>, list: seq<GraphEdge<N, E>>, k: N, other: N)
    requires Wired(edges, linker, nodes, list)
    requires k in nodes && other in nodes
    ensures nodes[other] in nodes[k].Neighbors() <==>
      exists j | 0 <= j < |edges| :: linker(edges[j]) == (other, k) || linker(edges[j]) == (k, other)
  {
    var n, m := nodes[k], nodes[other];
    if m in n.Neighbors() {
      if e :| e in n.incoming && e.source == m {
        var j :| 0 <= j < |edges| && list[j] == e;
        assert nodes[linker(edges[j]).1].value == k && nodes[linker(edges[j]).0].value == other;
        assert linker(edges[j]) == (other, k);
      } else {
        var e :| e in n.outgoing && e.destination == m;
        var j :| 0 <= j < |edges| && list[j] == e;
        assert nodes[linker(edges[j]).0].value == k && nodes[linker(edges[j]).1].value == other;
        assert linker(edges[j]) == (k, other);
      }
    }
    if j :| 0 <= j < |edges| && (linker(edges[j]) == (other, k) || linker(edges[j]) == (k, other)) {
      assert list[j] in list;
      if linker(edges[j]) == (other, k) {
        assert list[j] in n.incoming;
      } else {
        assert list[j] in n.outgoing;
      }
    }
  }

  /** Every neighbour of a node of a built graph is itself a node of that graph. */
  lemma NeighborsInGraph<N, E>(edges: seq<E>, linker: E -> (N, N),
                               nodes: map<N, GraphNode<N, E>>, edgeMap: map<E, GraphEdge<N, E>>, k: N)
    requires Built(edges, linker, nodes, edgeMap)
    requires k in nodes
    ensures forall m | m in nodes[k].Neighbors() :: m.value in nodes && nodes[m.value] == m
  {
    BuiltWired(edges, linker, nodes, edgeMap);
    WiredNeighborsInGraph(edges, linker, nodes, EdgeList(edges, edgeMap), k);
  }

  lemma WiredNeighborsInGraph<N, E>(edges: seq<E>, linker: E -> (N, N),
                                    nodes: map<N, GraphNode<N, E>>, list: seq<GraphEdge<N, E>>, k: N)
    requires Wired(edges, linker, nodes, list)
    requires k in nodes
    ensures forall m | m in nodes[k].Neighbors() :: m.value in nodes && nodes[m.value] == m
  {
    var n := nodes[k];
    forall m | m in n.Neighbors()
      ensures m.value in nodes && nodes[m.value] == m
    {
      if e :| e in n.incoming && e.source == m {
        var j :| 0 <= j < |edges| && list[j] == e;
      } else {
        var e :| e in n.outgoing && e.destination == m;
        var j :| 0 <= j < |edges| && list[j] == e;
      }
    }
  }

  /** `NodeComparer.Equals`: null equals only null; otherwise the key comparer decides on the two values. */
  function NodesEqual<N, E>(a: GraphNode?<N, E>, b: GraphNode?<N, E>, comparer: (N, N) -> bool): (r: bool)
    ensures a == null ==> (r <==> b == null)
    ensures b == null ==> (r <==> a == null)
  {
    if a == null || b == null then a == b else comparer(a.value, b.value)
  }

  /** `NodeComparer.GetHashCode`: the key comparer's hash of the node's value. */
  function NodeHash<N, E>(x: GraphNode<N, E>, hash: N -> int): int
  {
    hash(x.value)
  }

  /** `EqualityComparer<TNode>.Default` on a key type with value equality. */
  function DefaultEquals<N(==)>(x: N, y: N): bool { x == y }

  /**
   * With the default key comparer the graph installs, two nodes of a built
   * graph compare equal exactly when they are the same node object, and a
   * null node equals only null.
   */
  lemma NodeComparerOnBuilt<N, E>(edges: seq<E>, linker: E -> (N, N),
                                      nodes: map<N, GraphNode<N, E>>, edgeMap: map<E, GraphEdge<N, E>>,
                                      a: GraphNode?<N, E>, b: GraphNode?<N, E>)
    requires Built(edges, linker, nodes, edgeMap)
    requires a == null || a in nodes.Values
    requires b == null || b in nodes.Values
    ensures NodesEqual(a, b, DefaultEquals) <==> a == b
  {
    BuiltWired(edges, linker, nodes, edgeMap);
    if a != null && b != null {
      var ka :| ka in nodes && nodes[ka] == a;
      var kb :| kb in nodes && nodes[kb] == b;
      assert a.value == ka && b.value == kb;
    }
  }

  /**
   * Nodes the comparer calls equal get the same hash whenever the key
   * comparer and the key hash agree.
   */
  lemma NodeHashAgrees<N, E>(a: GraphNode<N, E>, b: GraphNode<N, E>, comparer: (N, N) -> bool, hash: N -> int)
    requires forall x, y :: comparer(x, y) ==> hash(x) == hash(y)
    requires NodesEqual(a, b, comparer)
    ensures NodeHash(a, hash) == NodeHash(b, hash)
  {
  }
}
