/** The graph value of main.go (types Graph, Node and Edge), the duplicate
    check relationExists, and the properties every generated graph has. */
module Graphs {
  import opened Decimal

  /** A node is its label; Go compares two nodes by comparing labels. */
  datatype Node = Node(name: string)

  /** An edge is stored with a source and a destination, but for duplicate
      detection it stands for the unordered pair of its endpoints. */
  datatype Edge = Edge(source: Node, destination: Node, weight: int)

  datatype Graph = Graph(nodes: seq<Node>, edges: seq<Edge>)

  /** Smallest and largest node count the generator picks. */
  const MinNodes := 4
  const MaxNodes := 7
  /** Largest edge weight; weights are drawn from [1, MaxWeight]. */
  const MaxWeight := 6

  /** The node labelled with the decimal text of `v`. */
  function NumberedNode(v: int): Node {
    Node(FormatDecimal(v))
  }

  /** Fewest edges for `n` nodes: as many edges as nodes. */
  function MinEdges(n: int): int { n }

  /** Most edges for `n` nodes: the number of distinct unordered pairs. */
  function MaxEdges(n: int): int { n * (n - 1) / 2 }

  /** Edge `e` joins `a` and `b`, in either direction. */
  predicate Connects(e: Edge, a: Node, b: Node) {
    (e.source == a && e.destination == b) || (e.source == b && e.destination == a)
  }

  /** Some edge joins the unordered pair {a, b}. */
  predicate Related(edges: seq<Edge>, a: Node, b: Node) {
    exists k :: 0 <= k < |edges| && Connects(edges[k], a, b)
  }

  /** relationExists: a linear scan of the edges that returns as soon as one
      joins node1 and node2 in either direction. */
  method RelationExists(graph: Graph, node1: Node, node2: Node) returns (value: bool)
    ensures value <==> Related(graph.edges, node1, node2)
  {
    for k := 0 to |graph.edges|
      invariant forall m :: 0 <= m < k ==> !Connects(graph.edges[m], node1, node2)
    {
      var edge := graph.edges[k];
      if (edge.source == node1 && edge.destination == node2) || (edge.source == node2 && edge.destination == node1) {
        return true;
      }
    }
    return false;
  }

  /** The relation does not depend on the order of its two nodes. */
  lemma RelatedSymmetric(edges: seq<Edge>, a: Node, b: Node)
    ensures Related(edges, a, b) <==> Related(edges, b, a)
  {
  }

  // ---------------------------------------------------------------------
  // Properties of a generated graph
  // ---------------------------------------------------------------------

  /** Node k carries the label k + 1: labels are 1..n in order. */
  predicate NumberedNodes(nodes: seq<Node>) {
    forall k :: 0 <= k < |nodes| ==> nodes[k] == NumberedNode(k + 1)
  }

  /** Both labels parse and the source's value is at most the destination's. */
  predicate Canonical(e: Edge) {
    var i, j := Atoi(e.source.name), Atoi(e.destination.name);
    i.Some? && j.Some? && i.value <= j.value
  }

  /** No edge joins the same unordered pair as an earlier edge. */
  predicate DistinctRelations(edges: seq<Edge>) {
    forall p, q :: 0 <= p < q < |edges| ==> !Connects(edges[q], edges[p].source, edges[p].destination)
  }

  /** Every edge joins two nodes of the graph, is canonically oriented and
      has a weight in [1, MaxWeight]; no unordered pair is joined twice. */
  predicate EdgesWellFormed(g: Graph) {
    && (forall e :: e in g.edges ==>
          && e.source in g.nodes && e.destination in g.nodes
          && Canonical(e)
          && 1 <= e.weight <= MaxWeight)
    && DistinctRelations(g.edges)
  }

  /** A numbered node's label parses back to its number, so the two calls
      to strconv.Atoi in the generator never fail. */
  lemma NumberedNodeParses(nodes: seq<Node>, k: int)
    requires NumberedNodes(nodes) && 0 <= k < |nodes| && |nodes| <= MaxInt
    ensures Atoi(nodes[k].name) == Some(k + 1)
  {
    FormatDecimalRoundTrip(k + 1);
  }

  /** Numbered labels are pairwise distinct. */
  lemma NumberedNodesDistinct(nodes: seq<Node>, p: int, q: int)
    requires NumberedNodes(nodes) && |nodes| <= MaxInt && 0 <= p < q < |nodes|
    ensures nodes[p] != nodes[q]
  {
    if nodes[p] == nodes[q] {
      FormatDecimalInjective(p + 1, q + 1);
    }
  }

  /** Appending an edge whose endpoints are not yet related keeps the
      relations distinct, whichever way round the edge is stored. */
  lemma AppendFreshEdge(edges: seq<Edge>, e: Edge)
    requires DistinctRelations(edges)
    requires !Related(edges, e.source, e.destination)
    ensures DistinctRelations(edges + [e])
  {
    var edges' := edges + [e];
    forall p, q | 0 <= p < q < |edges'|
      ensures !Connects(edges'[q], edges'[p].source, edges'[p].destination)
    {
      if q == |edges| && Connects(e, edges[p].source, edges[p].destination) {
        assert Connects(edges[p], e.source, e.destination);
      }
    }
  }

  /** Appending a fresh, canonically oriented edge between two nodes of the
      graph, with a weight in range, keeps every edge property. */
  lemma AppendPreservesWellFormed(g: Graph, e: Edge)
    requires EdgesWellFormed(g)
    requires e.source in g.nodes && e.destination in g.nodes
    requires Canonical(e) && 1 <= e.weight <= MaxWeight
    requires !Related(g.edges, e.source, e.destination)
    ensures EdgesWellFormed(g.(edges := g.edges + [e]))
  {
    AppendFreshEdge(g.edges, e);
  }

  // ---------------------------------------------------------------------
  // A fresh pair is always available to the rejection loop
  // ---------------------------------------------------------------------

  /** The 0-based position a label names, or -1 if it does not parse. */
  function Index(node: Node): int {
    match Atoi(node.name)
    case Some(v) => v - 1
    case None => -1
  }

  /** The unordered pair of positions an edge joins, smaller first. */
  function Key(e: Edge): (int, int) {
    var i, j := Index(e.source), Index(e.destination);
    if i <= j then (i, j) else (j, i)
  }

  /** The keys of all edges. */
  function Keys(edges: seq<Edge>): set<(int, int)> {
    if edges == [] then {} else Keys(edges[..|edges| - 1]) + {Key(edges[|edges| - 1])}
  }

  lemma {:induction false} KeyInKeys(edges: seq<Edge>, k: int)
    requires 0 <= k < |edges|
    ensures Key(edges[k]) in Keys(edges)
  {
    if k < |edges| - 1 {
      KeyInKeys(edges[..|edges| - 1], k);
    }
  }

  /** All pairs of distinct positions below n, smaller first. */
  function Pairs(n: nat): set<(int, int)> {
    set a, b | 0 <= a < b < n :: (a, b)
  }

  /** The pairs (a, b) with a below m. */
  function Column(m: nat, b: int): set<(int, int)> {
    set a | 0 <= a < m :: (a, b)
  }

  lemma {:induction false} ColumnSize(m: nat, b: int)
    ensures |Column(m, b)| == m
  {
    if m > 0 {
      ColumnSize(m - 1, b);
      assert Column(m, b) == Column(m - 1, b) + {(m - 1, b)};
    }
  }

  /** There are n(n-1)/2 pairs of distinct positions. */
  lemma {:induction false} PairsSize(n: nat)
    ensures |Pairs(n)| == MaxEdges(n)
  {
    if n > 0 {
      PairsSize(n - 1);
      ColumnSize(n - 1, n - 1);
      assert Pairs(n) == Pairs(n - 1) + Column(n - 1, n - 1);
      assert Pairs(n - 1) !! Column(n - 1, n - 1);
      assert n * (n - 1) == (n - 1) * (n - 2) + 2 * (n - 1);
    }
  }

  /** k edges join at most k distinct pairs. */
  lemma {:induction false} KeysSize(edges: seq<Edge>)
    ensures |Keys(edges)| <= |edges|
  {
    if edges != [] {
      KeysSize(edges[..|edges| - 1]);
    }
  }

  /** Before each draw of the rejection loop, some pair of distinct nodes is
      not yet related: while fewer than n(n-1)/2 edges exist, the loop can
      always stop. Self-loops only make such a pair easier to find. */
  lemma FreshPairExists(g: Graph)
    requires NumberedNodes(g.nodes) && |g.nodes| <= MaxInt
    requires |g.edges| < MaxEdges(|g.nodes|)
    ensures exists a, b :: 0 <= a < b < |g.nodes| && !Related(g.edges, g.nodes[a], g.nodes[b])
  {
    var n := |g.nodes|;
    PairsSize(n);
    KeysSize(g.edges);
    ElementOutside(Pairs(n), Keys(g.edges));
    var pair :| pair in Pairs(n) && pair !in Keys(g.edges);
    var a, b :| 0 <= a < b < n && pair == (a, b);
    forall k | 0 <= k < |g.edges|
      ensures !Connects(g.edges[k], g.nodes[a], g.nodes[b])
    {
      KeyInKeys(g.edges, k);
      ConnectsNumberedKey(g.nodes, g.edges[k], a, b);
    }
    assert !Related(g.edges, g.nodes[a], g.nodes[b]);
  }

  /** An edge that joins the numbered nodes at positions a and b has key (a, b). */
  lemma ConnectsNumberedKey(nodes: seq<Node>, e: Edge, a: int, b: int)
    requires NumberedNodes(nodes) && |nodes| <= MaxInt && 0 <= a < b < |nodes|
    ensures Connects(e, nodes[a], nodes[b]) ==> Key(e) == (a, b)
  {
    NumberedNodeParses(nodes, a);
    NumberedNodeParses(nodes, b);
    assert Index(nodes[a]) == a && Index(nodes[b]) == b;
  }

  /** A set larger than another has an element outside it. */
  lemma ElementOutside<T>(s: set<T>, t: set<T>)
    requires |t| < |s|
    ensures exists x :: x in s && x !in t
  {
    assert s == (s * t) + (s - t);
    assert t == (s * t) + (t - s);
    var x :| x in s - t;
  }

  /** An edge joining the endpoints of another has the same key. */
  lemma ConnectsSameKey(e: Edge, a: Node, b: Node)
    requires Connects(e, a, b)
    ensures Key(e) == Key(Edge(a, b, e.weight))
  {
  }

  // ---------------------------------------------------------------------
  // What the invariants do not promise
  // ---------------------------------------------------------------------

  /** The labels of the smallest graph, and their positions. */
  lemma SmallLabels()
    ensures NumberedNode(1) == Node("1") && NumberedNode(2) == Node("2")
    ensures NumberedNode(3) == Node("3") && NumberedNode(4) == Node("4")
    ensures Atoi("1") == Some(1) && Atoi("2") == Some(2) && Atoi("3") == Some(3) && Atoi("4") == Some(4)
  {
  }

  /** Four numbered nodes and six edges: a loop at node 1, the five pairs
      1-2, 1-3, 1-4, 2-3 and 2-4, and nothing between 3 and 4. */
  function LoopedGraph(): Graph {
    var n1, n2, n3, n4 := Node("1"), Node("2"), Node("3"), Node("4");
    Graph([n1, n2, n3, n4],
          [Edge(n1, n1, 1), Edge(n1, n2, 2), Edge(n1, n3, 3),
           Edge(n1, n4, 4), Edge(n2, n3, 5), Edge(n2, n4, 6)])
  }

  /** The key of each edge of LoopedGraph, which has every edge property. */
  lemma LoopedGraphEdges(k: int)
    requires 0 <= k < 6
    ensures var g := LoopedGraph();
      && g.edges[k].source in g.nodes && g.edges[k].destination in g.nodes
      && Canonical(g.edges[k]) && 1 <= g.edges[k].weight <= MaxWeight
      && Key(g.edges[k]) == if k < 4 then (0, k) else (1, k - 2)
  {
    SmallLabels();
    if k == 0 {} else if k == 1 {} else if k == 2 {} else if k == 3 {} else if k == 4 {} else {}
  }

  /** Two distinct edges of LoopedGraph join different pairs. */
  lemma LoopedGraphPair(p: int, q: int)
    requires 0 <= p < q < 6
    ensures var edges := LoopedGraph().edges;
      !Connects(edges[q], edges[p].source, edges[p].destination)
  {
    var edges := LoopedGraph().edges;
    LoopedGraphEdges(p);
    LoopedGraphEdges(q);
    if Connects(edges[q], edges[p].source, edges[p].destination) {
      ConnectsSameKey(edges[q], edges[p].source, edges[p].destination);
    }
  }

  lemma LoopedGraphDistinct()
    ensures DistinctRelations(LoopedGraph().edges)
  {
    var edges := LoopedGraph().edges;
    forall p, q | 0 <= p < q < |edges|
      ensures !Connects(edges[q], edges[p].source, edges[p].destination)
    {
      LoopedGraphPair(p, q);
    }
  }

  lemma LoopedGraphMissesPair()
    ensures !Related(LoopedGraph().edges, Node("3"), Node("4"))
  {
    var edges := LoopedGraph().edges;
    forall k | 0 <= k < |edges| ensures !Connects(edges[k], Node("3"), Node("4")) {
      LoopedGraphEdges(k);
      if Connects(edges[k], Node("3"), Node("4")) {
        SmallLabels();
        ConnectsSameKey(edges[k], Node("3"), Node("4"));
      }
    }
  }

  lemma LoopedGraphWellFormed()
    ensures NumberedNodes(LoopedGraph().nodes) && EdgesWellFormed(LoopedGraph())
  {
    var g := LoopedGraph();
    SmallLabels();
    assert NumberedNodes(g.nodes);
    forall e | e in g.edges
      ensures e.source in g.nodes && e.destination in g.nodes && Canonical(e) && 1 <= e.weight <= MaxWeight
    {
      var k :| 0 <= k < |g.edges| && g.edges[k] == e;
      LoopedGraphEdges(k);
    }
    LoopedGraphDistinct();
  }

  /** A graph with every property above, with n(n-1)/2 edges, may still miss
      a pair of distinct nodes, because a self-loop takes one of the slots. */
  lemma FullEdgeCountNeedNotBeComplete()
    ensures exists g: Graph ::
              && |g.nodes| == MinNodes && NumberedNodes(g.nodes)
              && EdgesWellFormed(g) && |g.edges| == MaxEdges(|g.nodes|)
              && !Related(g.edges, g.nodes[2], g.nodes[3])
  {
    var g := LoopedGraph();
    LoopedGraphWellFormed();
    LoopedGraphMissesPair();
    assert g.nodes[2] == Node("3") && g.nodes[3] == Node("4");
    assert |g.nodes| == MinNodes && |g.edges| == MaxEdges(|g.nodes|);
  }
}
