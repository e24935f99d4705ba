/** generateRandomGraph: draws a node count, an edge count, and then each
    edge by rejection sampling, all from one source of randomness. */
module Generator {
  import opened Decimal
  import opened Graphs
  import Rand

  /** generateRandomGraph, with the rejection loop bounded by `fuel`: the
      total number of endpoint pairs it may draw, over all edges. The
      source loops until a fresh pair comes up; here, when the draws run
      out first, the graph built so far is returned with `complete` false,
      and only then: by that point all `fuel` pairs (two `Intn` calls each)
      have been drawn, besides the two count draws. Either way the graph has every property of a generated graph, and an
      incomplete one still had a fresh pair to draw. */
  method GenerateRandomGraph(rng: Rand.Source, fuel: nat) returns (graph: Graph, complete: bool)
    modifies rng
    ensures MinNodes <= |graph.nodes| <= MaxNodes
    ensures NumberedNodes(graph.nodes)
    ensures EdgesWellFormed(graph)
    ensures |graph.edges| <= MaxEdges(|graph.nodes|)
    ensures complete ==> MinEdges(|graph.nodes|) <= |graph.edges|
    ensures !complete ==> rng.calls >= old(rng.calls) + 2 + 2 * fuel
    ensures !complete ==>
              exists a, b :: 0 <= a < b < |graph.nodes| && !Related(graph.edges, graph.nodes[a], graph.nodes[b])
  {
    graph := Graph([], []);
    var draws := fuel;
    var minNodes, maxNodes := MinNodes, MaxNodes;
    var nNodes := rng.Intn(maxNodes - minNodes + 1);
    nNodes := nNodes + minNodes;
    var minEdges, maxEdges := nNodes, (nNodes * (nNodes - 1)) / 2;
    assert minEdges <= maxEdges by {
      assert nNodes * (nNodes - 1) >= nNodes * 3;
    }
    var nEdges := rng.Intn(maxEdges - minEdges + 1);
    nEdges := nEdges + minEdges;

    // The nodes "1" to "nNodes", in order.
    for i := 0 to nNodes
      invariant graph.edges == [] && |graph.nodes| == i
      invariant NumberedNodes(graph.nodes)
    {
      graph := graph.(nodes := graph.nodes + [NumberedNode(i + 1)]);
    }

    // nEdges edges, each one appended after the previous ones.
    for i := 0 to nEdges
      invariant |graph.nodes| == nNodes && NumberedNodes(graph.nodes)
      invariant |graph.edges| == i
      invariant EdgesWellFormed(graph)
      invariant 0 <= draws <= fuel && rng.calls >= old(rng.calls) + 2 + 2 * (fuel - draws)
    {
      var source, destination := Node(""), Node("");
      while true
        invariant 0 <= draws <= fuel && rng.calls >= old(rng.calls) + 2 + 2 * (fuel - draws)
        decreases draws
      {
        if draws == 0 {
          complete := false;
          FreshPairExists(graph);
          return;
        }
        draws := draws - 1;
        var s := rng.Intn(|graph.nodes|);
        source := graph.nodes[s];
        var d := rng.Intn(|graph.nodes|);
        destination := graph.nodes[d];
        var related := RelationExists(graph, source, destination);
        if !related {
          break;
        }
      }
      // Both labels are numbered nodes, so parsing them cannot fail and
      // the two panics of the source are unreachable.
      ghost var p :| 0 <= p < nNodes && source == graph.nodes[p];
      ghost var q :| 0 <= q < nNodes && destination == graph.nodes[q];
      NumberedNodeParses(graph.nodes, p);
      NumberedNodeParses(graph.nodes, q);
      var parsedSource := Atoi(source.name);
      if parsedSource.None? {
        assert false;
      }
      var parsedDestination := Atoi(destination.name);
      if parsedDestination.None? {
        assert false;
      }
      // Orient the edge from the smaller label to the larger one.
      if parsedSource.value > parsedDestination.value {
        var temp := source;
        source := destination;
        destination := temp;
        RelatedSymmetric(graph.edges, source, destination);
      }
      var weight := rng.Intn(MaxWeight);
      var edge := Edge(source, destination, weight + 1);
      AppendPreservesWellFormed(graph, edge);
      graph := graph.(edges := graph.edges + [edge]);
    }
    complete := true;
  }
}
