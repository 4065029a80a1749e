/** Python/CurrencyExchangev2.py: the console version before V3.  Its
    `bellman_ford` is V3's (collect the cycle of every edge still
    relaxable, skipping lists already stored) but returns the stored list
    as well.  The constructor sets the misspelt `self.arbitrage` while
    `bellman_ford` appends to `self.arbitrages`, and `build_graph` calls
    the two-argument constructor with one argument; the model uses the
    `arbitrages` field throughout and passes an empty list. */
module CurrencyExchangeV2 {
  import opened Relaxation
  import opened GraphConstruction
  import opened ListDetection

  class Graph {
    var noVertices: nat
    var edges: seq<Edge<int>>
    var arbitrages: seq<seq<int>>

    /** The `arbitrages` argument is not used: the list starts empty. */
    constructor(noVertices: nat, arbitrages: seq<seq<int>>)
      ensures this.noVertices == noVertices && edges == [] && this.arbitrages == []
    {
      this.noVertices := noVertices;
      edges := [];
      this.arbitrages := [];
    }

    /** Appends one edge; nothing else changes. */
    method AddEdge(start: int, destination: int, weight: int)
      modifies this
      ensures edges == old(edges) + [Edge(start, destination, weight)]
      ensures noVertices == old(noVertices) && arbitrages == old(arbitrages)
    {
      edges := edges + [Edge(start, destination, weight)];
    }

    /** `no_vertices - 1` passes from `source`, then every still-relaxable
        edge's cycle is appended, in edge order, unless an equal list is
        already stored (`ExtendsDetermined`: there is one such list).
        Returns whether anything was appended, and the stored list. */
    method BellmanFord(source: int) returns (foundCycles: bool, result: seq<seq<int>>)
      requires 0 <= source < noVertices && EdgesBelow(edges, noVertices)
      requires VisitWalksDefined(ListTables(noVertices, edges, source), edges, noVertices)
      modifies this
      ensures noVertices == old(noVertices) && edges == old(edges)
      ensures result == arbitrages
      ensures foundCycles <==> |arbitrages| > |old(arbitrages)|
      ensures ExtendsWithNewCycles(ListTables(noVertices, edges, source), edges, old(arbitrages), arbitrages)
      ensures Distinct(old(arbitrages)) ==> Distinct(arbitrages)
    {
      foundCycles, result := RelaxAndCollect(noVertices, edges, source, arbitrages);
      if Distinct(arbitrages) {
        ExtendKeepsDistinct(ListTables(noVertices, edges, source), edges, arbitrages, result);
      }
      arbitrages := result;
    }
  }

  /** One row of `build_graph`: the edges `i -> j` for `j` in `0 .. n - 1`,
      `j != i`, appended in column order. */
  method AddRow(graph: Graph, matrix: seq<seq<real>>, weightOf: real -> int, n: nat, i: nat)
    requires CoversSquare(matrix, n) && i < n
    modifies graph
    ensures graph.noVertices == old(graph.noVertices) && graph.arbitrages == old(graph.arbitrages)
    ensures graph.edges == old(graph.edges) + RowEdges(i, Range(n), MatrixAdmit(matrix, weightOf))
  {
    ghost var R, admit, done := Range(n), MatrixAdmit(matrix, weightOf), graph.edges;
    assert R[..0] == [];
    for j := 0 to n
      invariant graph.noVertices == old(graph.noVertices) && graph.arbitrages == old(graph.arbitrages)
      invariant graph.edges == done + RowEdges(i, R[..j], admit)
    {
      MatrixStep(matrix, weightOf, n, i, j);
      if i != j {
        var rate := matrix[i][j];
        graph.AddEdge(i, j, weightOf(rate));
      }
    }
    assert R[..n] == R;
  }

  /** `build_graph`: a graph on `len(currencies)` vertices with one edge
      `i -> j` per ordered pair `i != j`, row by row. */
  method BuildGraph(currencies: seq<string>, matrix: seq<seq<real>>, weightOf: real -> int) returns (graph: Graph)
    requires CoversSquare(matrix, |currencies|)
    ensures fresh(graph)
    ensures graph.noVertices == |currencies| && graph.arbitrages == []
    ensures graph.edges == MatrixEdges(|currencies|, matrix, weightOf)
  {
    var n := |currencies|;
    graph := new Graph(n, []);
    MatrixEnds(matrix, weightOf, n);
    for i := 0 to n
      invariant graph.noVertices == n && graph.arbitrages == []
      invariant graph.edges == PairEdges(Range(n)[..i], Range(n), MatrixAdmit(matrix, weightOf))
    {
      MatrixRowDone(matrix, weightOf, n, i);
      AddRow(graph, matrix, weightOf, n, i);
    }
  }
}
