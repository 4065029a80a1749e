/** The detection half shared by the three dictionary variants
    (find_arbitrage_and_shortest_path in Python/CurrencyExchange2.0.py,
    Python/BellmanFordNew.py and Python/BellmanFord.py): relax over the
    node set of the edge list, stop at the first edge still relaxable, and
    extract the cycle by the |V|-step anchor walk from its destination. */
module TableDetection {
  import opened Options
  import opened Weights
  import opened PredecessorWalk
  import opened Relaxation
  import opened CycleExtraction

  lemma InitCovers<N>(edges: seq<Edge<N>>, src: N)
    ensures Covers(Init(Endpoints(edges), src), edges)
  {
  }

  /** The distance and predecessor tables after the `len(nodes) - 1`
      passes over the node set of `edges`. */
  ghost function Tables<N>(edges: seq<Edge<N>>, src: N): (s: State<N>)
    ensures s.pred.Keys == Endpoints(edges) && s.dist.Keys == Endpoints(edges) + {src}
  {
    InitCovers(edges, src);
    Relaxed(Endpoints(edges), src, edges, Rounds(|Endpoints(edges)|))
  }

  /** Edge `i` is still relaxable in `s`. */
  ghost predicate Witness<N>(s: State<N>, edges: seq<Edge<N>>, i: int) {
    && 0 <= i < |edges|
    && edges[i].start in s.dist && edges[i].dest in s.dist
    && Relaxable(s.dist[edges[i].start], edges[i].weight, s.dist[edges[i].dest])
  }

  /** Edge `i` is the first still-relaxable edge in list order. */
  ghost predicate FirstWitness<N>(s: State<N>, edges: seq<Edge<N>>, i: int) {
    Witness(s, edges, i) && forall j :: 0 <= j < i ==> !Witness(s, edges, j)
  }

  /** The anchor walk from the first witness's destination stays defined
      for |V| steps (otherwise the source fails on `predecessor[None]`). */
  ghost predicate AnchorWalkDefined<N>(s: State<N>, edges: seq<Edge<N>>) {
    forall i :: FirstWitness(s, edges, i) ==> Walk(s.pred, Some(edges[i].dest), |s.pred|).Some?
  }

  /** `c` is the cycle the anchor walk finds: a closed predecessor cycle
      through the node reached |V| steps back from the first witness's
      destination. */
  ghost predicate AnchoredCycle<N>(s: State<N>, edges: seq<Edge<N>>, c: seq<N>) {
    && PredCycle(s.pred, c)
    && exists i :: FirstWitness(s, edges, i) && Walk(s.pred, Some(edges[i].dest), |s.pred|) == Some(c[0])
  }

  /** The tables the passes leave behind keep the predecessor invariant,
      and every predecessor they name is a node. */
  lemma TablesSound<N>(edges: seq<Edge<N>>, src: N)
    ensures PredSound(Tables(edges, src), edges, src)
    ensures Closed(Tables(edges, src).pred)
  {
    InitCovers(edges, src);
    RelaxedSound(Endpoints(edges), src, edges, Rounds(|Endpoints(edges)|));
  }

  /** Relaxation, detection and extraction.  `cycle` is `None` exactly
      when no edge is still relaxable after the passes; otherwise it is
      the anchored cycle of the first such edge. */
  method DetectArbitrage<N>(edges: seq<Edge<N>>, src: N) returns (pred: map<N, Option<N>>, cycle: Option<seq<N>>)
    requires AnchorWalkDefined(Tables(edges, src), edges)
    ensures pred == Tables(edges, src).pred
    ensures cycle.Some? <==> exists i :: Witness(Tables(edges, src), edges, i)
    ensures cycle.Some? ==> AnchoredCycle(Tables(edges, src), edges, cycle.value)
  {
    var nodes, dist;
    nodes, dist, pred := RelaxTables(edges, src);
    ghost var s := Tables(edges, src);
    assert State(dist, pred) == s;
    forall e | e in edges ensures e.start in dist && e.dest in dist {
    }
    var w := FirstRelaxable(dist, edges);
    if w.None? {
      forall i | 0 <= i < |edges| ensures !Witness(s, edges, i) {
        assert edges[i] in edges;
      }
      return pred, None;
    }
    var i := w.value;
    assert FirstWitness(s, edges, i);
    TablesSound(edges, src);
    var start := edges[i].dest;
    var c := AnchorCycle(pred, start);
    cycle := Some(c);
  }
}
