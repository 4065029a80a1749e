/** Python/BellmanFordNew.py: the same search as CurrencyExchange2.0.py,
    reporting into `ex.cycle` instead of a path label.  Its `rates` and
    `epsilon` parameters are accepted and never read; the gain product
    reads the module-level `exchange_rates`, a parameter here. */
module BellmanFordNew {
  import opened Options
  import opened Relaxation
  import opened PathReconstruction
  import opened Gain
  import opened TableDetection
  import opened Reports

  class Labels {
    var cycle: Report
    var arbitrageInfo: Report

    constructor()
      ensures cycle == Blank && arbitrageInfo == Blank
    {
      cycle := Blank;
      arbitrageInfo := Blank;
    }
  }

  class BellmanFord {
    const ex: Labels

    constructor(ex: Labels)
      ensures this.ex == ex
    {
      this.ex := ex;
    }

    /** As in CurrencyExchange2.0.py, with `ex.cycle` for the path label;
        the result does not depend on `rates` or `epsilon`. */
    method FindArbitrageAndShortestPath(edges: seq<Edge<string>>, rates: RateTable<string>,
                                        startCurrency: string, endCurrency: string, epsilon: real,
                                        exchangeRates: RateTable<string>)
      requires AnchorWalkDefined(Tables(edges, startCurrency), edges)
      requires (forall i :: !Witness(Tables(edges, startCurrency), edges, i)) ==> endCurrency in Endpoints(edges)
      modifies ex
      ensures ArbitrageReported(Tables(edges, startCurrency), edges, exchangeRates, ex.arbitrageInfo)
      ensures GuardedPathReported(Tables(edges, startCurrency), edges, startCurrency, endCurrency, old(ex.cycle), ex.cycle)
    {
      var predecessor, arbitrage := ReportArbitrage(edges, exchangeRates, startCurrency);
      var path := ReportGuardedPath(edges, predecessor, arbitrage, startCurrency, endCurrency, ex.cycle);
      ex.arbitrageInfo := arbitrage;
      ex.cycle := path;
    }
  }
}
