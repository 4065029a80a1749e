/** Python/BellmanFord.py: the stand-alone search.  The gain product reads
    the `rates` argument, and the best path is reconstructed in both
    branches by the unbounded walk. */
module BellmanFordScript {
  import opened Options
  import opened PredecessorWalk
  import opened Relaxation
  import opened PathReconstruction
  import opened Gain
  import opened TableDetection
  import opened Reports

  /** The result holder.  The source declares `cycle` and `arbitrage_info`
      and sets `path_info` on first use; `pathInfo` starts `Blank` here. */
  class Exchange {
    var cycle: Report
    var arbitrageInfo: Report
    var pathInfo: Report

    constructor()
      ensures cycle == Blank && arbitrageInfo == Blank && pathInfo == Blank
    {
      cycle := Blank;
      arbitrageInfo := Blank;
      pathInfo := Blank;
    }
  }

  class BellmanFord {
    const ex: Exchange

    constructor(ex: Exchange)
      ensures this.ex == ex
    {
      this.ex := ex;
    }

    /** The arbitrage label as in the other dictionary variants; the path
        label is the path when the predecessor chain of `endCurrency` is
        rooted at `startCurrency`, and "No path found." otherwise.  The
        chain must end (the unbounded walk loops on a predecessor cycle). */
    method FindArbitrageAndShortestPath(edges: seq<Edge<string>>, rates: RateTable<string>,
                                        startCurrency: string, endCurrency: string)
      requires AnchorWalkDefined(Tables(edges, startCurrency), edges)
      requires endCurrency in Endpoints(edges)
      requires exists m: nat :: Walk(Tables(edges, startCurrency).pred, Some(endCurrency), m) == None
      modifies ex`arbitrageInfo, ex`pathInfo
      ensures ArbitrageReported(Tables(edges, startCurrency), edges, rates, ex.arbitrageInfo)
      ensures RootedPathReported(Tables(edges, startCurrency).pred, startCurrency, endCurrency, ex.pathInfo)
    {
      var predecessor, arbitrage := ReportArbitrage(edges, rates, startCurrency);
      ex.arbitrageInfo := arbitrage;
      var path := ReportRootedPath(edges, predecessor, startCurrency, endCurrency);
      ex.pathInfo := path;
    }
  }
}
