/** Python/CurrencyExchangeMerged.py: the early-return variant.  Its
    `bellman_ford` stops at the first edge still relaxable and returns
    `(True, cycle)`, and returns nothing when no edge is.  The source
    reads the misspelt `self.noVertices` for the number of passes and
    defines `get_negative_cycle` inside `bellman_ford`, after the return,
    while calling it as `self.get_negative_cycle`; the model reads
    `noVertices` and uses the cycle tracer shared with the other list
    variants. */
module CurrencyExchangeMerged {
  import opened Options
  import opened Relaxation
  import opened TableDetection
  import opened ListDetection

  class Graph {
    var noVertices: nat
    var edges: seq<Edge<int>>

    constructor(noVertices: nat)
      ensures this.noVertices == noVertices && edges == []
    {
      this.noVertices := noVertices;
      edges := [];
    }

    /** Appends one edge at the end; nothing else changes. */
    method AddEdge(start: int, destination: int, weight: int)
      modifies this
      ensures edges == old(edges) + [Edge(start, destination, weight)]
      ensures noVertices == old(noVertices)
    {
      edges := edges + [Edge(start, destination, weight)];
    }

    /** `Some(cycle)` stands for the pair `(True, cycle)` and `None` for the
        implicit `None` return: a cycle is returned exactly when some edge
        is still relaxable after the passes, and it is the one traced from
        the first such edge in list order. */
    method BellmanFord(source: int) returns (cycle: Option<seq<int>>)
      requires 0 <= source < noVertices && EdgesBelow(edges, noVertices)
      requires FirstVisitWalkDefined(ListTables(noVertices, edges, source), edges, noVertices)
      ensures cycle.None? <==> forall i :: !Witness(ListTables(noVertices, edges, source), edges, i)
      ensures cycle.Some? ==> exists i :: FirstWitness(ListTables(noVertices, edges, source), edges, i)
                                         && TracedCycle(ListTables(noVertices, edges, source).pred, edges[i].dest, cycle.value)
    {
      cycle := RelaxAndFindFirst(noVertices, edges, source);
    }
  }
}
