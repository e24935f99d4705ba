# Random weighted graph generator

This project models the generator of a small Go program that builds a random
undirected weighted graph and renders it in a browser. The generator,
`generateRandomGraph`, works in four steps:

- it picks a node count N in [4, 7];
- it creates the nodes labelled "1" to "N", in order;
- it picks an edge count E in [N, N(N-1)/2];
- it draws each of the E edges by rejection sampling. Endpoints are drawn with
  replacement until their unordered pair is not yet an edge (the check is
  `relationExists`). The labels are parsed back to integers so that the smaller
  label becomes the source. Each edge gets a weight in [1, 6].

The model has four modules:

- `Decimal` (decimal.dfy) covers the text form of labels. `FormatDecimal` is
  `fmt.Sprintf("%d", v)` and `Atoi` is `strconv.Atoi` with a 64-bit `int`.
  `Atoi` is proved to undo `FormatDecimal` on every 64-bit value. The converse
  does not hold: `Atoi` also accepts texts such as "007", "+7" and "-0".
- `Rand` (rand.dfy) is the source of randomness. It is a class whose `Intn(n)`
  promises a value in [0, n) and counts, in a ghost field, the values drawn.
  Nothing else about the draws is assumed.
- `Graphs` (graph.dfy) holds the `Node`, `Edge` and `Graph` values and the
  `relationExists` scan. It also holds the properties of a generated graph and
  the counting argument that the rejection loop always has a fresh pair to find.
- `Generator` (generator.dfy) is `generateRandomGraph`, written as a method with
  the same loops, draws, swap and appends as the source.

The generated graph may contain self-loops: the two endpoint draws may pick the
same node, and such a pair passes the duplicate check the first time it is drawn.
The model therefore never claims the graph is simple. One might expect a graph
with the maximum edge count N(N-1)/2 to join every pair of distinct nodes. The
code does not guarantee this, because a self-loop can take one of the slots.
`Graphs.FullEdgeCountNeedNotBeComplete` exhibits a graph with every proved
property, four nodes and six edges, in which nodes 3 and 4 are not joined.

## Model

| member | source | states |
|---|---|---|
| `Decimal.Atoi` | main.go:61-68 | A label that parses has a value within Go's 64-bit `int` range, and the label is an optional sign followed by at least one decimal digit and nothing else. |
| `Decimal.DigitsRoundTrip` | main.go:49 | The digits written for a natural number are non-empty decimal digits that read back as that number. |
| `Decimal.FormatDecimalRoundTrip` | main.go:49-68 | Parsing the text `fmt.Sprintf("%d", v)` with `strconv.Atoi` gives back `v` for every 64-bit `v`, so parsing a label never fails. |
| `Decimal.FormatDecimalInjective` | main.go:48-50 | Distinct integers get distinct labels. |
| `Rand.Source.constructor` | main.go:41 | Seeding starts the source from a caller-supplied seed, with no value drawn yet. |
| `Rand.Source.Intn` | main.go:43 | A draw with a positive bound n lies in [0, n), and each draw adds one to the count of values drawn. |
| `Graphs.RelationExists` | main.go:127-134 | The scan returns true exactly when some edge joins the two nodes in either direction, and it reads only the edges. |
| `Graphs.RelatedSymmetric` | main.go:129 | The relation holds of (a, b) exactly when it holds of (b, a). |
| `Graphs.NumberedNodeParses` | main.go:61-68 | The label of the node at position k parses to k + 1, so neither `panic` can happen. |
| `Graphs.NumberedNodesDistinct` | main.go:48-50 | Nodes at different positions have different labels: labels are unique and run 1..N. |
| `Graphs.AppendFreshEdge` | main.go:57-79 | Appending an edge whose endpoints are not yet related keeps every unordered pair joined at most once, whichever way round the edge is stored. |
| `Graphs.AppendPreservesWellFormed` | main.go:75-79 | Appending a fresh, canonically oriented edge with a weight in [1, 6] between two nodes of the graph keeps every edge property; the nodes and earlier edges are kept as they were. |
| `Graphs.PairsSize` | main.go:44-45 | There are exactly N(N-1)/2 pairs of distinct nodes, the largest edge count drawn. |
| `Graphs.KeysSize` | main.go:52-80 | k edges join at most k distinct unordered pairs. |
| `Graphs.FreshPairExists` | main.go:54-60 | While fewer than N(N-1)/2 edges exist, some pair of distinct nodes is still unrelated, so the rejection loop can always stop. |
| `Graphs.FullEdgeCountNeedNotBeComplete` | main.go:52-80 | A graph can have every proved property and N(N-1)/2 edges and still leave a pair of distinct nodes unjoined, because self-loops are allowed. |
| `Generator.GenerateRandomGraph` | main.go:39-82 | The result has between 4 and 7 nodes, labelled "1".."N" in order. Every edge joins two of these nodes, has its smaller label as source and a weight in [1, 6], and no unordered pair is joined twice. When `complete` is true, N <= E <= N(N-1)/2 edges are returned. `complete` is false only once all `fuel` endpoint pairs have been drawn (two `Intn` calls each, after the two count draws), and then some pair of distinct nodes is still unjoined. |

## Left out

- `printGraph` (main.go:84-125): chart configuration for the go-echarts library, the `float32` weight conversion, the console lines and writing `graph.html` are rendering and file I/O.
- `openBrowser` (main.go:136-152): platform dispatch and launching an operating-system process.
- `main` (main.go:34-37): it only passes the generated graph to the renderer.
- The clock used as seed (main.go:41) is a parameter of `Rand.Source.constructor`. Go's own random-number algorithm is not modelled: the body of `Intn` is a stand-in linear congruential step, and only its range contract is used. Nothing is claimed about the distribution of graphs.
- Generator.GenerateRandomGraph: the rejection loop is bounded by a `fuel` count of endpoint-pair draws, since it terminates only with probability 1. When the fuel runs out, the graph built so far is returned with `complete` false and without the lower bound on its edge count. The ghost draw counter of `Rand.Source` shows that `complete` is false only after every one of the `fuel` draws was made. `Graphs.FreshPairExists` shows that a fresh pair was still available at that point.
- Decimal.Atoi: any error is `None`. The kind of error (syntax or range) is not modelled, because the only caller panics on every error.
- Go's `int` is taken to be 64 bits wide. The arithmetic on node and edge counts stays far below that width, so overflow is not modelled.
