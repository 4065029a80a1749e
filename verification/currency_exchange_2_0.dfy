/** Python/CurrencyExchange2.0.py: the Tk application's arbitrage and
    best-path search.  `exchange_rates`, the module-level table the gain
    product reads, is a parameter here. */
module CurrencyExchange20 {
  import opened Options
  import opened Relaxation
  import opened PathReconstruction
  import opened Gain
  import opened TableDetection
  import opened Reports

  /** The two result labels. */
  class Labels {
    var pathInfo: Report
    var arbitrageInfo: Report

    constructor()
      ensures pathInfo == Blank && arbitrageInfo == Blank
    {
      pathInfo := Blank;
      arbitrageInfo := Blank;
    }
  }

  class BellmanFord {
    const ex: Labels

    constructor(ex: Labels)
      ensures this.ex == ex
    {
      this.ex := ex;
    }

    /** With an edge still relaxable after the passes, the anchored cycle
        of the first such edge and its gain product are reported and the
        path label says no path; otherwise "no arbitrage" is reported and
        the path label changes only if the bounded reconstruction finds a
        path from `startCurrency` to `endCurrency`. */
    method FindArbitrageAndShortestPath(edges: seq<Edge<string>>, exchangeRates: RateTable<string>,
                                        startCurrency: string, endCurrency: string)
      requires AnchorWalkDefined(Tables(edges, startCurrency), edges)
      requires (forall i :: !Witness(Tables(edges, startCurrency), edges, i)) ==> endCurrency in Endpoints(edges)
      modifies ex
      ensures ArbitrageReported(Tables(edges, startCurrency), edges, exchangeRates, ex.arbitrageInfo)
      ensures GuardedPathReported(Tables(edges, startCurrency), edges, startCurrency, endCurrency, old(ex.pathInfo), ex.pathInfo)
    {
      var predecessor, arbitrage := ReportArbitrage(edges, exchangeRates, startCurrency);
      var path := ReportGuardedPath(edges, predecessor, arbitrage, startCurrency, endCurrency, ex.pathInfo);
      ex.arbitrageInfo := arbitrage;
      ex.pathInfo := path;
    }
  }
}
