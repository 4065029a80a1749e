/** Python/CurrencyExchange.py: the first, distance-only search over a
    hard-coded graph whose vertices are numbered from 1.  The distance
    list has `no_vertices + 1` slots, relaxation makes `no_vertices - 1`
    passes, and the method either reports a negative cycle (and stops) or
    prints the distances.  The source keeps no predecessor list; the
    model carries the predecessors as ghost state only, to read the list
    through the shared specification of the passes. */
module CurrencyExchangeDistances {
  import opened Options
  import opened Weights
  import opened Relaxation
  import opened TableDetection
  import opened ListDetection

  /** The tables after the passes: nodes `0 .. n`, `Rounds(n)` passes. */
  ghost function DistanceTables(n: nat, edges: seq<Edge<int>>, src: int): (s: State<int>)
    requires 0 <= src <= n && EdgesBelow(edges, n + 1)
    ensures s.dist.Keys == Indices(n + 1)
  {
    ListInitCovers(n + 1, edges, src);
    Relaxed(Indices(n + 1), src, edges, Rounds(n))
  }

  /** One relaxation of the distance list; the ghost predecessors follow
      along as the list variants' predecessor list would. */
  method RelaxEdgeDistances(distance: array<Dist>, ghost p: seq<int>, e: Edge<int>) returns (ghost p': seq<int>)
    requires |p| == distance.Length && PredRange(p)
    requires 0 <= e.start < distance.Length && 0 <= e.dest < distance.Length
    modifies distance
    ensures |p'| == |p| && PredRange(p')
    ensures State(Dists(distance[..]), Preds(p')) == RelaxEdge(State(Dists(old(distance[..])), Preds(p)), e)
  {
    ghost var d := distance[..];
    p' := p;
    if distance[e.start] != Inf && Relaxable(distance[e.start], e.weight, distance[e.dest]) {
      distance[e.dest] := Add(distance[e.start], e.weight);
      assert distance[..] == d[e.dest := Add(d[e.start], e.weight)];
      p' := p[e.dest := e.start];
      RelaxEdgeViews(d, p, e);
    }
  }

  /** One pass over the edge list. */
  method RelaxPassDistances(distance: array<Dist>, ghost p: seq<int>, edges: seq<Edge<int>>) returns (ghost p': seq<int>)
    requires |p| == distance.Length && PredRange(p)
    requires EdgesBelow(edges, distance.Length)
    modifies distance
    ensures |p'| == |p| && PredRange(p')
    ensures State(Dists(distance[..]), Preds(p')) == Pass(State(Dists(old(distance[..])), Preds(p)), edges)
  {
    ghost var before := State(Dists(distance[..]), Preds(p));
    assert Covers(before, edges);
    assert edges[..0] == [];
    p' := p;
    for i := 0 to |edges|
      invariant |p'| == |p| && PredRange(p')
      invariant Covers(before, edges[..i])
      invariant State(Dists(distance[..]), Preds(p')) == Pass(before, edges[..i])
    {
      PassSnoc(before, edges, i);
      assert edges[i] in edges;
      p' := RelaxEdgeDistances(distance, p', edges[i]);
    }
    assert edges[..|edges|] == edges;
  }

  /** `[inf] * (n + 1)` and `d[src] = 0`, with no ghost predecessor. */
  method InitDistances(n: nat, src: int) returns (distance: array<Dist>, ghost p: seq<int>)
    requires 0 <= src <= n
    ensures fresh(distance) && distance.Length == n + 1 && |p| == n + 1 && PredRange(p)
    ensures State(Dists(distance[..]), Preds(p)) == Init(Indices(n + 1), src)
  {
    distance := new Dist[n + 1](_ => Inf);
    distance[src] := Fin(0);
    p := seq(n + 1, _ => -1);
    ListsInit(distance[..], p, src);
  }

  /** The initial list, then `n - 1` passes. */
  method RelaxDistances(n: nat, edges: seq<Edge<int>>, src: int) returns (distance: array<Dist>)
    requires 0 <= src <= n && EdgesBelow(edges, n + 1)
    ensures distance.Length == n + 1
    ensures Dists(distance[..]) == DistanceTables(n, edges, src).dist
  {
    ghost var p;
    distance, p := InitDistances(n, src);
    ghost var s0 := Init(Indices(n + 1), src);
    assert Covers(s0, edges);
    for k := 0 to Rounds(n)
      invariant |p| == n + 1 && PredRange(p)
      invariant State(Dists(distance[..]), Preds(p)) == Passes(s0, edges, k)
    {
      p := RelaxPassDistances(distance, p, edges);
    }
  }

  /** The detection scan with its early return: `None` when some edge is
      still relaxable, and otherwise the distance list itself, under
      which no edge can be relaxed any more. */
  method CheckDistances(distance: seq<Dist>, edges: seq<Edge<int>>, ghost s: State<int>) returns (r: Option<seq<Dist>>)
    requires EdgesBelow(edges, |distance|) && Dists(distance) == s.dist
    ensures r.None? <==> exists i :: Witness(s, edges, i)
    ensures r.Some? ==> r.value == distance
    ensures r.Some? ==> forall e :: e in edges ==> Le(distance[e.dest], Add(distance[e.start], e.weight))
  {
    for i := 0 to |edges|
      invariant forall j :: 0 <= j < i ==> !Witness(s, edges, j)
      invariant forall j :: 0 <= j < i ==> Le(distance[edges[j].dest], Add(distance[edges[j].start], edges[j].weight))
    {
      var e := edges[i];
      assert e in edges;
      if distance[e.start] != Inf && Relaxable(distance[e.start], e.weight, distance[e.dest]) {
        assert Witness(s, edges, i);
        return None;
      }
    }
    forall e | e in edges ensures Le(distance[e.dest], Add(distance[e.start], e.weight)) {
      var j :| 0 <= j < |edges| && edges[j] == e;
    }
    return Some(distance);
  }

  class Graph {
    var noVertices: nat
    var edges: seq<Edge<int>>

    constructor(noVertices: nat)
      ensures this.noVertices == noVertices && edges == []
    {
      this.noVertices := noVertices;
      edges := [];
    }

    /** Appends one `(start, destination, weight)` triple at the end;
        nothing else changes. */
    method AddEdge(start: int, destination: int, weight: int)
      modifies this
      ensures edges == old(edges) + [Edge(start, destination, weight)]
      ensures noVertices == old(noVertices)
    {
      edges := edges + [Edge(start, destination, weight)];
    }

    /** `None` stands for "Graph contains a negative weight cycle" and
        `Some(d)` for the distances printed: a cycle is reported exactly
        when some edge is still relaxable after the `no_vertices - 1`
        passes, and otherwise the list holds the distances the passes
        leave, under which every edge satisfies `d[u] + w >= d[v]`. */
    method BellmanFord(src: int) returns (distances: Option<seq<Dist>>)
      requires 0 <= src <= noVertices && EdgesBelow(edges, noVertices + 1)
      ensures distances.None? <==> exists i :: Witness(DistanceTables(noVertices, edges, src), edges, i)
      ensures distances.Some? ==> |distances.value| == noVertices + 1
      ensures distances.Some? ==> Dists(distances.value) == DistanceTables(noVertices, edges, src).dist
      ensures distances.Some? ==> forall e :: e in edges ==> Le(distances.value[e.dest], Add(distances.value[e.start], e.weight))
    {
      var d := RelaxDistances(noVertices, edges, src);
      distances := CheckDistances(d[..], edges, DistanceTables(noVertices, edges, src));
    }
  }
}
