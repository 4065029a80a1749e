/** Negative-cycle extraction from a predecessor table, in the two styles
    the variants use:
    - the anchor walk of the dictionary variants: step back |V| times from
      the start, then walk from that anchor until it comes back;
    - the visited-set walk of the list variants: step back until the first
      node seen twice, then walk from it until it comes back.
    Both collect the nodes backwards and reverse them, so the result reads
    forwards along the edges and starts and ends at the same node. */
module CycleExtraction {
  import opened Options
  import opened PredecessorWalk
  import opened Relaxation

  /** `list.reverse()`. */
  function Reverse<T>(s: seq<T>): (r: seq<T>)
    ensures |r| == |s|
    ensures forall i :: 0 <= i < |s| ==> r[i] == s[|s| - 1 - i]
  {
    if s == [] then [] else Reverse(s[1..]) + [s[0]]
  }

  /** The first `q + 1` nodes of the walk from `a`, where `q` is the
      first return to `a`, reversed, form a closed predecessor cycle. */
  lemma ClosedOrbit<N>(pred: map<N, Option<N>>, a: N, back: seq<N>, q: nat)
    requires q >= 1 && |back| == q + 1
    requires forall i :: 0 <= i <= q ==> Walk(pred, Some(a), i) == Some(back[i])
    requires forall m :: 1 <= m < q ==> Walk(pred, Some(a), m) != Some(a)
    requires back[q] == a
    ensures PredCycle(pred, Reverse(back))
  {
    var c := Reverse(back);
    var L := |back|;
    forall i | 1 <= i < L ensures c[i] in pred && pred[c[i]] == Some(c[i - 1]) {
      var j := L - 1 - i;
      WalkStep(pred, Some(a), j);
    }
    forall i, j | 0 <= i < j < L - 1 ensures c[i] != c[j] {
      var bi, bj := L - 1 - i, L - 1 - j;
      if bi < q {
        OrbitDistinct(pred, a, q, bj, bi);
      } else {
        assert back[bi] == a && Walk(pred, Some(a), bj) != Some(a);
      }
    }
  }

  /** The dictionary variants' extraction (find_arbitrage_and_shortest_path,
      the arbitrage branch).  `pred` has one entry per node, so `|pred|` is
      `len(nodes)`; the walk from the start must stay defined for that
      many steps (otherwise the source fails on a missing key). */
  method AnchorCycle<N>(pred: map<N, Option<N>>, start: N) returns (cycle: seq<N>)
    requires Closed(pred) && start in pred
    requires Walk(pred, Some(start), |pred|).Some?
    ensures PredCycle(pred, cycle)
    ensures Walk(pred, Some(start), |pred|) == Some(cycle[0])
  {
    var current := start;
    var k := 0;
    while k < |pred|
      invariant k <= |pred|
      invariant Walk(pred, Some(start), k) == Some(current)
    {
      WalkStep(pred, Some(start), k);
      WalkDefinedBelow(pred, Some(start), k + 1, |pred|);
      current := pred[current].value;
      k := k + 1;
    }
    var anchor := current;
    AnchorOnCycle(pred, start);
    ghost var p :| 1 <= p <= |pred| && OnCycle(pred, anchor, p);
    var back: seq<N> := [];
    while true
      invariant |back| < p
      invariant forall i :: 0 <= i < |back| ==> Walk(pred, Some(anchor), i) == Some(back[i])
      invariant Walk(pred, Some(anchor), |back|) == Some(current)
      invariant forall m :: 1 <= m <= |back| ==> Walk(pred, Some(anchor), m) != Some(anchor)
      decreases p - |back|
    {
      WalkStep(pred, Some(anchor), |back|);
      WalkDefinedBelow(pred, Some(anchor), |back| + 1, p);
      back := back + [current];
      current := pred[current].value;
      if current == anchor {
        back := back + [current];
        break;
      }
    }
    ClosedOrbit(pred, anchor, back, |back| - 1);
    cycle := Reverse(back);
  }

  /** `k` is the first step of the walk from `x` that meets a node already
      met: the walk is defined that far, its first `k` nodes are distinct,
      and node `k` is one of them. */
  ghost predicate FirstRepeat<N>(pred: map<N, Option<N>>, x: N, k: nat) {
    && Walk(pred, Some(x), k).Some?
    && (forall a, b :: 0 <= a < b < k ==> Walk(pred, Some(x), a) != Walk(pred, Some(x), b))
    && exists j :: 0 <= j < k && Walk(pred, Some(x), j) == Walk(pred, Some(x), k)
  }

  /** The first repeat of a walk is unique. */
  lemma FirstRepeatUnique<N>(pred: map<N, Option<N>>, x: N, k: nat, k': nat)
    requires FirstRepeat(pred, x, k) && FirstRepeat(pred, x, k')
    ensures k == k'
  {
  }

  /** A closed predecessor cycle is determined by its first node: read
      backwards it is the walk from that node up to its first return. */
  lemma PredCycleUnique<N>(pred: map<N, Option<N>>, c: seq<N>, d: seq<N>)
    requires PredCycle(pred, c) && PredCycle(pred, d) && c[0] == d[0]
    ensures c == d
  {
    if |c| < |d| {
      FollowsWalk(pred, c, |c| - 1);
      FollowsWalk(pred, d, |c| - 1);
    } else if |d| < |c| {
      FollowsWalk(pred, c, |d| - 1);
      FollowsWalk(pred, d, |d| - 1);
    } else {
      forall i | 0 <= i < |c| ensures c[i] == d[i] {
        FollowsWalk(pred, c, |c| - 1 - i);
        FollowsWalk(pred, d, |c| - 1 - i);
      }
    }
  }

  /** The first loop of get_negative_cycle: step back from `start`,
      recording visited nodes, until a node is met a second time.  That
      node lies on a predecessor cycle. */
  method FirstRevisited(predecessor: seq<int>, start: int) returns (node: int)
    requires 0 <= start < |predecessor| && PredRange(predecessor)
    requires Walk(Preds(predecessor), Some(start), |predecessor|).Some?
    ensures 0 <= node < |predecessor|
    ensures exists k :: FirstRepeat(Preds(predecessor), start, k) && Walk(Preds(predecessor), Some(start), k) == Some(node)
    ensures exists p :: 1 <= p <= |predecessor| && OnCycle(Preds(predecessor), node, p)
  {
    ghost var P := Preds(predecessor);
    var n := |predecessor|;
    var visited: set<int> := {};
    ghost var trail: seq<int> := [];
    node := start;
    while node !in visited
      invariant 0 <= node < n
      invariant forall x :: x in visited <==> x in trail
      invariant forall i :: 0 <= i < |trail| ==> 0 <= trail[i] < n
      invariant forall i :: 0 <= i < |trail| ==> Walk(P, Some(start), i) == Some(trail[i])
      invariant Walk(P, Some(start), |trail|) == Some(node)
      invariant forall a, b :: 0 <= a < b < |trail| ==> trail[a] != trail[b]
      invariant |trail| <= n
      decreases n - |trail|
    {
      DistinctBound(trail + [node], Indices(n));
      WalkStep(P, Some(start), |trail| + 0);
      WalkDefinedBelow(P, Some(start), |trail| + 1, n);
      visited := visited + {node};
      trail := trail + [node];
      node := predecessor[node];
    }
    ghost var k := |trail|;
    ghost var j :| 0 <= j < k && trail[j] == node;
    assert FirstRepeat(P, start, k);
    WalkAdd(P, Some(start), j, k - j);
    assert OnCycle(P, node, k - j);
  }

  /** The second loop of get_negative_cycle: from a node on a predecessor
      cycle, step back until it comes round again, then reverse. */
  method CollectOrbit(predecessor: seq<int>, cycleStart: int) returns (cycle: seq<int>)
    requires 0 <= cycleStart < |predecessor| && PredRange(predecessor)
    requires exists p :: 1 <= p <= |predecessor| && OnCycle(Preds(predecessor), cycleStart, p)
    ensures PredCycle(Preds(predecessor), cycle)
    ensures cycle[0] == cycleStart
  {
    ghost var P := Preds(predecessor);
    ghost var p :| 1 <= p <= |predecessor| && OnCycle(P, cycleStart, p);
    WalkStep(P, Some(cycleStart), 0);
    WalkDefinedBelow(P, Some(cycleStart), 1, p);
    var back := [cycleStart];
    var node := predecessor[cycleStart];
    while node != cycleStart
      invariant 1 <= |back| < p || (|back| <= p && node == cycleStart)
      invariant forall i :: 0 <= i < |back| ==> Walk(P, Some(cycleStart), i) == Some(back[i])
      invariant Walk(P, Some(cycleStart), |back|) == Some(node)
      invariant forall m :: 1 <= m < |back| ==> Walk(P, Some(cycleStart), m) != Some(cycleStart)
      decreases p - |back|
    {
      WalkStep(P, Some(cycleStart), |back|);
      WalkDefinedBelow(P, Some(cycleStart), |back| + 1, p);
      back := back + [node];
      node := predecessor[node];
    }
    back := back + [cycleStart];
    ClosedOrbit(P, cycleStart, back, |back| - 1);
    cycle := Reverse(back);
  }

  /** The list variants' extraction (get_negative_cycle).  The walk from
      `start` must not meet `-1` within `n` steps (otherwise the source
      would index the list with -1). */
  method VisitedCycle(predecessor: seq<int>, start: int) returns (cycle: seq<int>)
    requires 0 <= start < |predecessor| && PredRange(predecessor)
    requires Walk(Preds(predecessor), Some(start), |predecessor|).Some?
    ensures PredCycle(Preds(predecessor), cycle)
    ensures exists k :: FirstRepeat(Preds(predecessor), start, k) && Walk(Preds(predecessor), Some(start), k) == Some(cycle[0])
  {
    var cycleStart := FirstRevisited(predecessor, start);
    cycle := CollectOrbit(predecessor, cycleStart);
  }
}
