/** The Bellman-Ford relaxation shared by every variant: an initial state,
    one strict relaxation of one edge, a pass over the edge list, and
    repeated passes.  The variants' loops are proved equal to these
    functions; the facts the algorithm relies on (distances never increase,
    every predecessor link records an edge that relaxed) are proved here. */
module Relaxation {
  import opened Options
  import opened Weights
  import opened PredecessorWalk

  /** A directed edge `start -> dest` of weight `-log(rate)` in thousandths. */
  datatype Edge<N> = Edge(start: N, dest: N, weight: int)

  /** The distance and predecessor tables of one run. */
  datatype State<N> = State(dist: map<N, Dist>, pred: map<N, Option<N>>)

  /** Every endpoint the edges use has a distance and a predecessor slot
      (otherwise the source would fail on a missing key). */
  ghost predicate Covers<N>(s: State<N>, edges: seq<Edge<N>>) {
    forall e :: e in edges ==> e.start in s.dist && e.dest in s.dist && e.start in s.pred && e.dest in s.pred
  }

  /** The node set of the dictionary variants: all edge endpoints. */
  function Endpoints<N>(edges: seq<Edge<N>>): (nodes: set<N>)
    ensures forall e :: e in edges ==> e.start in nodes && e.dest in nodes
    ensures forall v :: v in nodes ==> exists e :: e in edges && (e.start == v || e.dest == v)
  {
    (set e | e in edges :: e.start) + (set e | e in edges :: e.dest)
  }

  /** `range(n - 1)` as the passes loop runs it: no pass for an empty graph. */
  function Rounds(n: nat): nat {
    if n == 0 then 0 else n - 1
  }

  /** Every node at infinity with no predecessor, and the source at 0.
      The source gets a distance even when it is not a node, as a
      dictionary assignment would give it. */
  function Init<N>(nodes: set<N>, src: N): (s: State<N>)
    ensures s.dist.Keys == nodes + {src} && s.pred.Keys == nodes
    ensures s.dist[src] == Fin(0)
    ensures forall v :: v in s.dist && v != src ==> s.dist[v] == Inf
    ensures forall v :: v in s.pred ==> s.pred[v] == None
  {
    State((map v | v in nodes :: Inf)[src := Fin(0)], map v | v in nodes :: None)
  }

  /** Relax one edge: only on a strict improvement, and then distance and
      predecessor of the destination change together. */
  function RelaxEdge<N>(s: State<N>, e: Edge<N>): (r: State<N>)
    requires e.start in s.dist && e.dest in s.dist
    ensures r.dist.Keys == s.dist.Keys
    ensures s.pred.Keys <= r.pred.Keys && (e.dest in s.pred ==> r.pred.Keys == s.pred.Keys)
    ensures s.dist[e.start].Inf? ==> r == s
    ensures forall v :: v in s.dist ==> Le(r.dist[v], s.dist[v])
    ensures forall v :: v in s.dist && v != e.dest ==> r.dist[v] == s.dist[v]
    ensures forall v :: v in s.pred && v != e.dest ==> r.pred[v] == s.pred[v]
  {
    if Relaxable(s.dist[e.start], e.weight, s.dist[e.dest]) then
      State(s.dist[e.dest := Add(s.dist[e.start], e.weight)], s.pred[e.dest := Some(e.start)])
    else
      s
  }

  /** One pass over `es` in list order. */
  function Pass<N>(s: State<N>, es: seq<Edge<N>>): (r: State<N>)
    requires Covers(s, es)
    ensures r.dist.Keys == s.dist.Keys && r.pred.Keys == s.pred.Keys
    decreases |es|
  {
    if es == [] then s
    else
      var t := Pass(s, es[..|es| - 1]);
      RelaxEdge(t, es[|es| - 1])
  }

  /** `k` passes over the whole edge list. */
  function Passes<N>(s: State<N>, edges: seq<Edge<N>>, k: nat): (r: State<N>)
    requires Covers(s, edges)
    ensures r.dist.Keys == s.dist.Keys && r.pred.Keys == s.pred.Keys
    decreases k
  {
    if k == 0 then s else Pass(Passes(s, edges, k - 1), edges)
  }

  /** The state every variant reaches: `Rounds(|nodes|)` passes from `Init`. */
  function Relaxed<N>(nodes: set<N>, src: N, edges: seq<Edge<N>>, rounds: nat): (r: State<N>)
    requires Covers(Init(nodes, src), edges)
    ensures r.dist.Keys == nodes + {src} && r.pred.Keys == nodes
  {
    Passes(Init(nodes, src), edges, rounds)
  }

  /** A pass over one more edge is the shorter pass followed by that edge. */
  lemma PassSnoc<N>(s: State<N>, es: seq<Edge<N>>, i: nat)
    requires i < |es| && Covers(s, es)
    ensures Covers(s, es[..i]) && Covers(s, es[..i + 1])
    ensures Pass(s, es[..i + 1]) == RelaxEdge(Pass(s, es[..i]), es[i])
  {
    assert forall e :: e in es[..i + 1] ==> e in es;
    assert es[..i + 1][..i] == es[..i];
  }

  /** Edge `e` could still be relaxed in `s`. */
  predicate StillRelaxable<N>(s: State<N>, e: Edge<N>)
    requires e.start in s.dist && e.dest in s.dist
  {
    Relaxable(s.dist[e.start], e.weight, s.dist[e.dest])
  }

  /** What the predecessor table means: each link `pred[v] == Some(u)`
      records an edge `u -> v` of the list whose relaxation gave `v` its
      distance, and that distance has not been beaten through `u` since
      (`d[u] + w <= d[v]`, both finite); and every reached node other than
      the source has a predecessor. */
  ghost predicate PredSound<N>(s: State<N>, edges: seq<Edge<N>>, src: N) {
    && (forall v :: v in s.pred && s.pred[v].Some? ==>
          && v in s.dist && s.dist[v].Fin?
          && exists e :: e in edges && e.start == s.pred[v].value && e.dest == v
                         && e.start in s.dist && Le(Add(s.dist[e.start], e.weight), s.dist[v]))
    && (forall v :: v in s.dist && s.dist[v].Fin? && v != src ==> v in s.pred && s.pred[v].Some?)
  }

  lemma InitPredSound<N>(nodes: set<N>, src: N, edges: seq<Edge<N>>)
    ensures PredSound(Init(nodes, src), edges, src)
  {
  }

  /** Relaxing an edge of the list keeps the predecessor table sound. */
  lemma RelaxEdgePredSound<N>(s: State<N>, e: Edge<N>, edges: seq<Edge<N>>, src: N)
    requires e in edges && e.start in s.dist && e.dest in s.dist && e.dest in s.pred
    requires PredSound(s, edges, src)
    ensures PredSound(RelaxEdge(s, e), edges, src)
  {
    var r := RelaxEdge(s, e);
    if r != s {
      forall v | v in r.pred && r.pred[v].Some?
        ensures v in r.dist && r.dist[v].Fin?
        ensures exists f :: f in edges && f.start == r.pred[v].value && f.dest == v
                            && f.start in r.dist && Le(Add(r.dist[f.start], f.weight), r.dist[v])
      {
        if v == e.dest {
          assert e.start in r.dist && Le(Add(r.dist[e.start], e.weight), r.dist[v]);
        } else {
          var f :| f in edges && f.start == s.pred[v].value && f.dest == v
                   && f.start in s.dist && Le(Add(s.dist[f.start], f.weight), s.dist[v]);
          assert Le(Add(r.dist[f.start], f.weight), Add(s.dist[f.start], f.weight));
        }
      }
    }
  }

  lemma {:induction false} PassPredSound<N>(s: State<N>, es: seq<Edge<N>>, edges: seq<Edge<N>>, src: N)
    requires Covers(s, es) && (forall e :: e in es ==> e in edges)
    requires PredSound(s, edges, src)
    ensures PredSound(Pass(s, es), edges, src)
    decreases |es|
  {
    if es != [] {
      var init := es[..|es| - 1];
      assert forall e :: e in init ==> e in es;
      PassPredSound(s, init, edges, src);
      RelaxEdgePredSound(Pass(s, init), es[|es| - 1], edges, src);
    }
  }

  lemma {:induction false} PassesPredSound<N>(s: State<N>, edges: seq<Edge<N>>, k: nat, src: N)
    requires Covers(s, edges)
    requires PredSound(s, edges, src)
    ensures PredSound(Passes(s, edges, k), edges, src)
    decreases k
  {
    if k > 0 {
      PassesPredSound(s, edges, k - 1, src);
      PassPredSound(Passes(s, edges, k - 1), edges, edges, src);
    }
  }

  /** After any number of passes from `Init`, the predecessor table is
      sound and closed (every predecessor is a node), so walks along it
      stay inside the node set. */
  lemma RelaxedSound<N>(nodes: set<N>, src: N, edges: seq<Edge<N>>, k: nat)
    requires Covers(Init(nodes, src), edges)
    ensures PredSound(Relaxed(nodes, src, edges, k), edges, src)
    ensures Closed(Relaxed(nodes, src, edges, k).pred)
  {
    InitPredSound(nodes, src, edges);
    PassesPredSound(Init(nodes, src), edges, k, src);
    var r := Relaxed(nodes, src, edges, k);
    forall x | x in r.pred && r.pred[x].Some? ensures r.pred[x].value in r.pred {
      var e :| e in edges && e.start == r.pred[x].value && e.dest == x
               && e.start in r.dist && Le(Add(r.dist[e.start], e.weight), r.dist[x]);
    }
  }

  /** A pass lowers or keeps every distance. */
  lemma {:induction false} PassLowers<N>(s: State<N>, es: seq<Edge<N>>, v: N)
    requires Covers(s, es) && v in s.dist
    ensures Le(Pass(s, es).dist[v], s.dist[v])
    decreases |es|
  {
    if es != [] {
      var init := es[..|es| - 1];
      assert forall e :: e in init ==> e in es;
      PassLowers(s, init, v);
      var t := Pass(s, init);
      assert Le(RelaxEdge(t, es[|es| - 1]).dist[v], t.dist[v]);
    }
  }

  /** Distances never increase: after `k` passes every distance is at most
      what it was after `j <= k` passes. */
  lemma {:induction false} PassesDecrease<N>(s: State<N>, edges: seq<Edge<N>>, j: nat, k: nat, v: N)
    requires Covers(s, edges) && j <= k && v in s.dist
    ensures Le(Passes(s, edges, k).dist[v], Passes(s, edges, j).dist[v])
    decreases k
  {
    if j < k {
      PassesDecrease(s, edges, j, k - 1, v);
      PassLowers(Passes(s, edges, k - 1), edges, v);
    }
  }

  /** The list-based variants index nodes `0 .. n-1`. */
  function Indices(n: nat): (r: set<int>)
    ensures forall i :: i in r <==> 0 <= i < n
    ensures |r| == n
  {
    if n == 0 then {} else Indices(n - 1) + {n - 1}
  }

  /** A distance list read as a table from index to distance. */
  function Dists(s: seq<Dist>): (m: map<int, Dist>)
    ensures m.Keys == Indices(|s|)
    ensures forall i :: 0 <= i < |s| ==> m[i] == s[i]
  {
    map i | 0 <= i < |s| :: s[i]
  }

  /** A predecessor list, where `-1` stands for "no predecessor", read as a
      table from index to optional predecessor. */
  function Preds(p: seq<int>): (m: map<int, Option<int>>)
    ensures m.Keys == Indices(|p|)
    ensures forall i :: 0 <= i < |p| ==> m[i] == if p[i] < 0 then None else Some(p[i])
  {
    map i | 0 <= i < |p| :: if p[i] < 0 then None else Some(p[i])
  }

  /** Every entry is `-1` or an index of the list. */
  ghost predicate PredRange(predecessor: seq<int>) {
    forall i :: 0 <= i < |predecessor| ==> -1 <= predecessor[i] < |predecessor|
  }

  lemma DistsUpdate(s: seq<Dist>, i: int, x: Dist)
    requires 0 <= i < |s|
    ensures Dists(s[i := x]) == Dists(s)[i := x]
  {
  }

  lemma PredsUpdate(p: seq<int>, i: int, u: int)
    requires 0 <= i < |p| && 0 <= u
    ensures Preds(p[i := u]) == Preds(p)[i := Some(u)]
  {
  }

  /** Edge endpoints are indices below `n`. */
  ghost predicate EdgesBelow(edges: seq<Edge<int>>, n: nat) {
    forall e :: e in edges ==> 0 <= e.start < n && 0 <= e.dest < n
  }

  /** One pass of the dictionary variants' relaxation loop over the edge
      list, in list order. */
  method RelaxPassTables<N>(dist0: map<N, Dist>, pred0: map<N, Option<N>>, edges: seq<Edge<N>>)
    returns (dist: map<N, Dist>, pred: map<N, Option<N>>)
    requires Covers(State(dist0, pred0), edges)
    ensures State(dist, pred) == Pass(State(dist0, pred0), edges)
  {
    ghost var before := State(dist0, pred0);
    dist, pred := dist0, pred0;
    assert edges[..0] == [];
    var i := 0;
    while i < |edges|
      invariant i <= |edges|
      invariant Covers(before, edges[..i])
      invariant State(dist, pred) == Pass(before, edges[..i])
    {
      PassSnoc(before, edges, i);
      var e := edges[i];
      assert e in edges;
      if Relaxable(dist[e.start], e.weight, dist[e.dest]) {
        dist := dist[e.dest := Add(dist[e.start], e.weight)];
        pred := pred[e.dest := Some(e.start)];
      }
      i := i + 1;
    }
    assert edges[..|edges|] == edges;
  }

  /** The dictionary variants' relaxation (find_arbitrage_and_shortest_path,
      first half): node set from the edge endpoints, tables initialised,
      then `len(nodes) - 1` passes of strict relaxation in list order. */
  method RelaxTables<N>(edges: seq<Edge<N>>, src: N) returns (nodes: set<N>, dist: map<N, Dist>, pred: map<N, Option<N>>)
    ensures nodes == Endpoints(edges)
    ensures Covers(Init(nodes, src), edges)
    ensures State(dist, pred) == Relaxed(nodes, src, edges, Rounds(|nodes|))
  {
    nodes := Endpoints(edges);
    dist := map v | v in nodes :: Inf;
    pred := map v | v in nodes :: None;
    dist := dist[src := Fin(0)];
    ghost var s0 := Init(nodes, src);
    assert State(dist, pred) == s0;
    assert Covers(s0, edges);
    assert State(dist, pred) == Passes(s0, edges, 0);
    var k := 0;
    while k < Rounds(|nodes|)
      invariant k <= Rounds(|nodes|)
      invariant State(dist, pred) == Passes(s0, edges, k)
    {
      ghost var before := Passes(s0, edges, k);
      assert Covers(before, edges);
      dist, pred := RelaxPassTables(dist, pred, edges);
      assert State(dist, pred) == Pass(before, edges) == Passes(s0, edges, k + 1);
      k := k + 1;
    }
  }

  /** The list update of one relaxation is the map update seen through
      `Dists` and `Preds`. */
  lemma RelaxEdgeViews(d: seq<Dist>, p: seq<int>, e: Edge<int>)
    requires |d| == |p| && 0 <= e.start < |d| && 0 <= e.dest < |d|
    requires PredRange(p)
    requires Relaxable(d[e.start], e.weight, d[e.dest])
    ensures PredRange(p[e.dest := e.start])
    ensures State(Dists(d[e.dest := Add(d[e.start], e.weight)]), Preds(p[e.dest := e.start]))
         == RelaxEdge(State(Dists(d), Preds(p)), e)
  {
    DistsUpdate(d, e.dest, Add(d[e.start], e.weight));
    PredsUpdate(p, e.dest, e.start);
  }

  /** The body of the list variants' relaxation loop for one edge. */
  method RelaxEdgeLists(distance: array<Dist>, predecessor: array<int>, e: Edge<int>)
    requires distance != predecessor as object
    requires distance.Length == predecessor.Length
    requires 0 <= e.start < distance.Length && 0 <= e.dest < distance.Length
    requires PredRange(predecessor[..])
    modifies distance, predecessor
    ensures PredRange(predecessor[..])
    ensures State(Dists(distance[..]), Preds(predecessor[..]))
         == RelaxEdge(State(Dists(old(distance[..])), Preds(old(predecessor[..]))), e)
  {
    ghost var d, p := distance[..], predecessor[..];
    if Relaxable(distance[e.start], e.weight, distance[e.dest]) {
      distance[e.dest] := Add(distance[e.start], e.weight);
      predecessor[e.dest] := e.start;
      assert distance[..] == d[e.dest := Add(d[e.start], e.weight)];
      assert predecessor[..] == p[e.dest := e.start];
      RelaxEdgeViews(d, p, e);
    }
  }

  /** One pass of the list variants' relaxation loop, updating the two
      lists in place. */
  method RelaxPassLists(distance: array<Dist>, predecessor: array<int>, edges: seq<Edge<int>>)
    requires distance != predecessor as object
    requires distance.Length == predecessor.Length
    requires EdgesBelow(edges, distance.Length)
    requires PredRange(predecessor[..])
    modifies distance, predecessor
    ensures PredRange(predecessor[..])
    ensures State(Dists(distance[..]), Preds(predecessor[..]))
         == Pass(State(Dists(old(distance[..])), Preds(old(predecessor[..]))), edges)
  {
    var n := distance.Length;
    ghost var before := State(Dists(distance[..]), Preds(predecessor[..]));
    assert Covers(before, edges);
    assert edges[..0] == [];
    var i := 0;
    while i < |edges|
      invariant i <= |edges|
      invariant Covers(before, edges[..i])
      invariant State(Dists(distance[..]), Preds(predecessor[..])) == Pass(before, edges[..i])
      invariant PredRange(predecessor[..])
    {
      PassSnoc(before, edges, i);
      assert edges[i] in edges;
      RelaxEdgeLists(distance, predecessor, edges[i]);
      i := i + 1;
    }
    assert edges[..|edges|] == edges;
  }

  lemma DistsInit(ds: seq<Dist>, src: int)
    requires 0 <= src < |ds|
    requires forall i :: 0 <= i < |ds| ==> ds[i] == if i == src then Fin(0) else Inf
    ensures Dists(ds) == Init(Indices(|ds|), src).dist
  {
    var d, e := Dists(ds), Init(Indices(|ds|), src).dist;
    assert Indices(|ds|) + {src} == Indices(|ds|);
    forall i | i in e ensures d[i] == e[i] {
    }
  }

  lemma PredsInit(ps: seq<int>, src: int)
    requires forall i :: 0 <= i < |ps| ==> ps[i] == -1
    ensures Preds(ps) == Init(Indices(|ps|), src).pred
  {
    var p, e := Preds(ps), Init(Indices(|ps|), src).pred;
    forall i | i in e ensures p[i] == e[i] {
    }
  }

  lemma ListsInit(ds: seq<Dist>, ps: seq<int>, src: int)
    requires |ds| == |ps| && 0 <= src < |ds|
    requires forall i :: 0 <= i < |ds| ==> ds[i] == if i == src then Fin(0) else Inf
    requires forall i :: 0 <= i < |ps| ==> ps[i] == -1
    ensures State(Dists(ds), Preds(ps)) == Init(Indices(|ds|), src)
  {
    DistsInit(ds, src);
    PredsInit(ps, src);
  }

  /** `[inf] * n`, `[-1] * n` and `distance[src] = 0`. */
  method InitLists(n: nat, src: int) returns (distance: array<Dist>, predecessor: array<int>)
    requires 0 <= src < n
    ensures fresh(distance) && fresh(predecessor)
    ensures distance.Length == n && predecessor.Length == n
    ensures State(Dists(distance[..]), Preds(predecessor[..])) == Init(Indices(n), src)
    ensures forall i :: 0 <= i < n ==> predecessor[i] == -1
    ensures PredRange(predecessor[..])
  {
    distance := new Dist[n](_ => Inf);
    predecessor := new int[n](_ => -1);
    distance[src] := Fin(0);
    ListsInit(distance[..], predecessor[..], src);
  }

  /** The list variants' relaxation (bellman_ford, first half): `n`
      distances at infinity and `n` predecessors at -1, the source at 0,
      then `n - 1` passes that skip unreached starts and relax strictly. */
  method RelaxLists(n: nat, edges: seq<Edge<int>>, src: int) returns (distance: array<Dist>, predecessor: array<int>)
    requires 0 <= src < n
    requires EdgesBelow(edges, n)
    ensures distance.Length == n && predecessor.Length == n
    ensures Covers(Init(Indices(n), src), edges)
    ensures State(Dists(distance[..]), Preds(predecessor[..])) == Relaxed(Indices(n), src, edges, Rounds(n))
    ensures PredRange(predecessor[..])
  {
    distance, predecessor := InitLists(n, src);
    ghost var s0 := Init(Indices(n), src);
    assert Covers(s0, edges);
    var k := 0;
    while k < Rounds(n)
      invariant k <= Rounds(n)
      invariant State(Dists(distance[..]), Preds(predecessor[..])) == Passes(s0, edges, k)
      invariant PredRange(predecessor[..])
    {
      RelaxPassLists(distance, predecessor, edges);
      k := k + 1;
    }
  }

  /** The detection scan that stops at the first edge still relaxable after
      the passes; `None` when no edge is. */
  method FirstRelaxable<N>(dist: map<N, Dist>, edges: seq<Edge<N>>) returns (w: Option<nat>)
    requires forall e :: e in edges ==> e.start in dist && e.dest in dist
    ensures w.Some? ==> w.value < |edges|
                        && Relaxable(dist[edges[w.value].start], edges[w.value].weight, dist[edges[w.value].dest])
    ensures w.Some? ==> forall j :: 0 <= j < w.value ==> !Relaxable(dist[edges[j].start], edges[j].weight, dist[edges[j].dest])
    ensures w.None? ==> forall e :: e in edges ==> !Relaxable(dist[e.start], e.weight, dist[e.dest])
  {
    var i := 0;
    while i < |edges|
      invariant i <= |edges|
      invariant forall j :: 0 <= j < i ==> !Relaxable(dist[edges[j].start], edges[j].weight, dist[edges[j].dest])
    {
      var e := edges[i];
      assert e in edges;
      if Relaxable(dist[e.start], e.weight, dist[e.dest]) {
        return Some(i);
      }
      i := i + 1;
    }
    return None;
  }
}
