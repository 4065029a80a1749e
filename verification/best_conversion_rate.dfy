/** Python/BestConversionRate.py: an unfinished variant that adds a grid
    of best conversion rates to the graph.  The source does not parse as
    written (`calculate_best_conversion_rates` has no body); the
    constructor also reads an attribute `currency_matrix` that is never
    assigned, and `build_graph` calls the two-argument constructor with one
    argument.  The model covers the grid, `add_edge` and `build_graph`,
    passing an empty arbitrage list to the constructor. */
module BestConversionRate {
  import opened Relaxation
  import opened GraphConstruction

  /** The rates recorded for one ordered pair of currencies. */
  type RateBook = map<string, real>

  /** The `n × n` grid of empty maps the constructor builds. */
  function EmptyGrid(n: nat): (g: seq<seq<RateBook>>)
    ensures |g| == n
    ensures forall i :: 0 <= i < n ==> |g[i]| == n && forall j :: 0 <= j < n ==> g[i][j] == map[]
  {
    seq(n, _ => seq(n, _ => map[]))
  }

  class Graph {
    var noVertices: nat
    var edges: seq<Edge<int>>
    var arbitrage: seq<seq<int>>
    var bestConversionRates: seq<seq<RateBook>>

    /** The `arbitrages` argument is not used: the list starts empty. */
    constructor(noVertices: nat, arbitrages: seq<seq<int>>)
      ensures this.noVertices == noVertices && edges == [] && arbitrage == []
      ensures bestConversionRates == EmptyGrid(noVertices)
    {
      this.noVertices := noVertices;
      edges := [];
      arbitrage := [];
      bestConversionRates := EmptyGrid(noVertices);
    }

    /** Appends one edge; the edges already there and the other fields
        are unchanged. */
    method AddEdge(start: int, destination: int, weight: int)
      modifies this
      ensures edges == old(edges) + [Edge(start, destination, weight)]
      ensures noVertices == old(noVertices) && arbitrage == old(arbitrage)
      ensures bestConversionRates == old(bestConversionRates)
    {
      edges := edges + [Edge(start, destination, weight)];
    }

    /** `build_graph` (it does not use the graph it is called on): a new
        graph on `len(currencies)` vertices with one edge `i -> j` per
        ordered pair `i != j`, row by row. */
    method BuildGraph(currencies: seq<string>, matrix: seq<seq<real>>, weightOf: real -> int) returns (graph: Graph)
      requires CoversSquare(matrix, |currencies|)
      ensures fresh(graph)
      ensures graph.noVertices == |currencies| && graph.arbitrage == []
      ensures graph.bestConversionRates == EmptyGrid(|currencies|)
      ensures graph.edges == MatrixEdges(|currencies|, matrix, weightOf)
    {
      var n := |currencies|;
      graph := new Graph(n, []);
      MatrixEnds(matrix, weightOf, n);
      for i := 0 to n
        invariant graph.noVertices == n && graph.arbitrage == [] && graph.bestConversionRates == EmptyGrid(n)
        invariant graph.edges == PairEdges(Range(n)[..i], Range(n), MatrixAdmit(matrix, weightOf))
      {
        MatrixRowDone(matrix, weightOf, n, i);
        AddRow(graph, matrix, weightOf, n, i);
      }
    }
  }

  /** One row of `build_graph`: the edges `i -> j` for `j` in `0 .. n - 1`,
      `j != i`, appended in column order. */
  method AddRow(graph: Graph, matrix: seq<seq<real>>, weightOf: real -> int, n: nat, i: nat)
    requires CoversSquare(matrix, n) && i < n
    modifies graph
    ensures graph.noVertices == old(graph.noVertices) && graph.arbitrage == old(graph.arbitrage)
    ensures graph.bestConversionRates == old(graph.bestConversionRates)
    ensures graph.edges == old(graph.edges) + RowEdges(i, Range(n), MatrixAdmit(matrix, weightOf))
  {
    ghost var R, admit, done := Range(n), MatrixAdmit(matrix, weightOf), graph.edges;
    assert R[..0] == [];
    for j := 0 to n
      invariant graph.noVertices == old(graph.noVertices) && graph.arbitrage == old(graph.arbitrage)
      invariant graph.bestConversionRates == old(graph.bestConversionRates)
      invariant graph.edges == done + RowEdges(i, R[..j], admit)
    {
      MatrixStep(matrix, weightOf, n, i, j);
      if i != j {
        var rate := matrix[i][j];
        graph.AddEdge(i, j, weightOf(rate));
      }
    }
    assert R[..n] == R;
  }
}
