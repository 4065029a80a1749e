/** What the result label fields of the dictionary variants hold, and how
    find_arbitrage_and_shortest_path fills them.  The source stores
    formatted text; the model stores the data the text is formatted from
    (`' -> '.join`, f-strings and `:.2f` are not modelled). */
module Reports {
  import opened Options
  import opened PredecessorWalk
  import opened Relaxation
  import opened PathReconstruction
  import opened Gain
  import opened TableDetection

  datatype Report =
    | Blank
      // the empty string the label starts with
    | ArbitrageFound(cycle: seq<string>, gain: real)
      // "Arbitrage opportunity found: <cycle>\nPotential gain: <(gain - 1) * 100>%"
    | NoArbitrage
      // "No arbitrage opportunity detected."
    | NoPathDueToArbitrage
      // "No path found. Due to arbitrage present."
    | PathFound(from: string, to: string, path: seq<string>)
      // "Path from <from> to <to>: <path>"
    | NoPathFound
      // "No path found."

  /** The arbitrage label after the search: with an edge still relaxable
      after the passes, the anchored cycle of the first such edge and its
      gain product under `rates`; otherwise "no arbitrage". */
  ghost predicate ArbitrageReported(s: State<string>, edges: seq<Edge<string>>, rates: RateTable<string>, r: Report) {
    if exists i :: Witness(s, edges, i) then
      && r.ArbitrageFound?
      && AnchoredCycle(s, edges, r.cycle)
      && r.gain == Product(rates, r.cycle)
    else r == NoArbitrage
  }

  /** The path label after the bounded reconstruction: when the walk back
      from `end` reaches `start` in time, the path that walk collects (the
      only `BoundedPath`), and otherwise the label as it was. */
  ghost predicate BoundedPathReported(pred: map<string, Option<string>>, start: string, end: string, before: Report, r: Report) {
    if ReachedWithin(pred, start, end) then
      && r.PathFound?
      && r.from == start && r.to == end
      && BoundedPath(pred, start, end, r.path)
      && |r.path| <= |pred| + 2
    else r == before
  }

  /** The path label of the guarded variants: "no path" on arbitrage,
      and the bounded reconstruction otherwise. */
  ghost predicate GuardedPathReported(s: State<string>, edges: seq<Edge<string>>, start: string, end: string, before: Report, r: Report) {
    if exists i :: Witness(s, edges, i) then r == NoPathDueToArbitrage
    else BoundedPathReported(s.pred, start, end, before, r)
  }

  /** The path label after the unbounded reconstruction: the whole chain
      from the root to `end` when that root is `start`, and "No path
      found." otherwise. */
  ghost predicate RootedPathReported(pred: map<string, Option<string>>, start: string, end: string, r: Report) {
    if RootedAt(pred, start, end) then
      && r.PathFound?
      && r.from == start && r.to == end
      && LinkedPath(pred, start, end, r.path)
    else r == NoPathFound
  }

  /** The first half of find_arbitrage_and_shortest_path: relaxation,
      detection, extraction and the gain product of the cycle found. */
  method ReportArbitrage(edges: seq<Edge<string>>, rates: RateTable<string>, start: string)
    returns (pred: map<string, Option<string>>, report: Report)
    requires AnchorWalkDefined(Tables(edges, start), edges)
    ensures pred == Tables(edges, start).pred
    ensures ArbitrageReported(Tables(edges, start), edges, rates, report)
  {
    var found;
    pred, found := DetectArbitrage(edges, start);
    if found.Some? {
      var cycle := found.value;
      var gain := GainProduct(rates, cycle);
      report := ArbitrageFound(cycle, gain);
    } else {
      report := NoArbitrage;
    }
  }

  /** The path half with the length-guarded reconstruction over the
      tables of the search: the label is set only when a path is found. */
  method ReportBoundedPath(edges: seq<Edge<string>>, pred: map<string, Option<string>>, start: string, end: string, before: Report)
    returns (report: Report)
    requires pred == Tables(edges, start).pred && end in Endpoints(edges)
    ensures BoundedPathReported(pred, start, end, before, report)
  {
    TablesSound(edges, start);
    var shortestPath := ReconstructBounded(pred, start, end);
    if shortestPath != [] {
      report := PathFound(start, end, shortestPath);
    } else {
      report := before;
    }
  }

  /** The path half of the guarded variants: the arbitrage report decides
      whether the path is reconstructed at all. */
  method ReportGuardedPath(edges: seq<Edge<string>>, pred: map<string, Option<string>>, arbitrage: Report,
                           start: string, end: string, before: Report)
    returns (report: Report)
    requires pred == Tables(edges, start).pred
    requires arbitrage.ArbitrageFound? <==> exists i :: Witness(Tables(edges, start), edges, i)
    requires (forall i :: !Witness(Tables(edges, start), edges, i)) ==> end in Endpoints(edges)
    ensures GuardedPathReported(Tables(edges, start), edges, start, end, before, report)
  {
    if arbitrage.ArbitrageFound? {
      report := NoPathDueToArbitrage;
    } else {
      report := ReportBoundedPath(edges, pred, start, end, before);
    }
  }

  /** The path half with the unguarded reconstruction over the tables of
      the search: the label is always set. */
  method ReportRootedPath(edges: seq<Edge<string>>, pred: map<string, Option<string>>, start: string, end: string)
    returns (report: Report)
    requires pred == Tables(edges, start).pred && end in Endpoints(edges)
    requires exists m: nat :: Walk(pred, Some(end), m) == None
    ensures RootedPathReported(pred, start, end, report)
  {
    TablesSound(edges, start);
    var shortestPath := ReconstructUnbounded(pred, start, end);
    if shortestPath != [] {
      report := PathFound(start, end, shortestPath);
    } else {
      report := NoPathFound;
    }
  }
}
