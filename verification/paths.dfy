/** Best-path reconstruction (`_reconstruct_path`): walk the predecessor
    table back from the target, collecting nodes, and reverse.  Two forms:
    the bounded one gives up once the walk is longer than the table, the
    unbounded one walks until a node without predecessor. */
module PathReconstruction {
  import opened Options
  import opened PredecessorWalk
  import opened CycleExtraction

  /** `path` runs from `start` to `end` along predecessor links. */
  ghost predicate LinkedPath<N>(pred: map<N, Option<N>>, start: N, end: N, path: seq<N>) {
    |path| >= 1 && path[0] == start && path[|path| - 1] == end && FollowsPred(pred, path)
  }

  /** `path` is what the bounded walk collects: a path from `start` to
      `end` along predecessor links that stops at the first return to
      `start`, so `start` is nowhere inside it, and is the single node
      `[end]` only when `end` has no predecessor. */
  ghost predicate BoundedPath<N>(pred: map<N, Option<N>>, start: N, end: N, path: seq<N>) {
    && LinkedPath(pred, start, end, path)
    && (forall i :: 0 < i < |path| - 1 ==> path[i] != start)
    && (|path| == 1 ==> end in pred && pred[end] == None)
  }

  /** There is at most one such path: read backwards it is the walk from
      `end` up to its first step onto `start`. */
  lemma BoundedPathUnique<N>(pred: map<N, Option<N>>, start: N, end: N, p: seq<N>, q: seq<N>)
    requires BoundedPath(pred, start, end, p) && BoundedPath(pred, start, end, q)
    ensures p == q
  {
    NoShorterBounded(pred, start, end, p, q);
    NoShorterBounded(pred, start, end, q, p);
    forall i | 0 <= i < |p| ensures p[i] == q[i] {
      FollowsWalk(pred, p, |p| - 1 - i);
      FollowsWalk(pred, q, |p| - 1 - i);
    }
  }

  /** A shorter bounded path would put `start` inside the longer one. */
  lemma NoShorterBounded<N>(pred: map<N, Option<N>>, start: N, end: N, p: seq<N>, q: seq<N>)
    requires BoundedPath(pred, start, end, p) && BoundedPath(pred, start, end, q)
    ensures |q| <= |p|
  {
    if |p| < |q| {
      FollowsWalk(pred, q, |p| - 1);
      if |p| == 1 {
        FollowsWalk(pred, q, 1);
      } else {
        FollowsWalk(pred, p, |p| - 1);
      }
    }
  }

  /** The walk back from `end` meets `start` within `len(predecessor) + 1`
      steps, or `end` is `start` and has no predecessor. */
  ghost predicate ReachedWithin<N>(pred: map<N, Option<N>>, start: N, end: N) {
    || (exists m :: 1 <= m <= |pred| + 1 && Walk(pred, Some(end), m) == Some(start))
    || (end == start && end in pred && pred[end] == None)
  }

  /** The walk back from `end` ends at a node without predecessor, and
      that node is `start`. */
  ghost predicate RootedAt<N>(pred: map<N, Option<N>>, start: N, end: N) {
    exists m: nat :: 1 <= m && Walk(pred, Some(end), m) == None && Walk(pred, Some(end), m - 1) == Some(start)
  }

  /** `_reconstruct_path` with the length guard.  Returns `[]` or the
      `BoundedPath` from `start` to `end`.  It is non-empty exactly when
      the walk back from `end` meets `start` within `len(predecessor) + 1`
      steps, or when `end` is `start` and has no predecessor. */
  method ReconstructBounded<N>(pred: map<N, Option<N>>, start: N, end: N) returns (path: seq<N>)
    requires Closed(pred) && end in pred
    ensures path == [] || BoundedPath(pred, start, end, path)
    ensures |path| <= |pred| + 2
    ensures path != [] <==> ReachedWithin(pred, start, end)
  {
    var back: seq<N> := [];
    var current: Option<N> := Some(end);
    while current.Some?
      invariant |back| <= |pred|
      invariant forall i :: 0 <= i < |back| ==> Walk(pred, Some(end), i) == Some(back[i])
      invariant Walk(pred, Some(end), |back|) == current
      invariant forall j :: 1 <= j <= |back| ==> Walk(pred, Some(end), j) != Some(start)
      decreases |pred| + 1 - |back|
    {
      WalkInKeys(pred, end, |back|);
      WalkStep(pred, Some(end), |back|);
      back := back + [current.value];
      current := pred[current.value];
      if current == Some(start) {
        back := back + [start];
        break;
      }
      if |back| > |pred| {
        WalkDefinedBelow(pred, Some(end), 1, |back| - 1);
        return [];
      }
    }
    ghost var m := |back|;
    if current.None? {
      forall j | j >= m ensures Walk(pred, Some(end), j) == None {
        if Walk(pred, Some(end), j).Some? {
          WalkDefinedBelow(pred, Some(end), m, j);
        }
      }
    }
    path := Reverse(back);
    forall i | 1 <= i < |path| ensures path[i] in pred && pred[path[i]] == Some(path[i - 1]) {
      WalkStep(pred, Some(end), |path| - 1 - i);
    }
    if path[0] != start {
      path := [];
    }
  }

  /** `_reconstruct_path` without a length guard (Python/BellmanFord.py):
      it ends only if the walk back from `end` reaches a node without
      predecessor, which the caller must guarantee.  The result is `[]`
      unless that root is `start`, and then it is the whole chain from
      the root to `end`. */
  method ReconstructUnbounded<N>(pred: map<N, Option<N>>, start: N, end: N) returns (path: seq<N>)
    requires Closed(pred) && end in pred
    requires exists m: nat :: Walk(pred, Some(end), m) == None
    ensures path == [] || LinkedPath(pred, start, end, path)
    ensures path != [] ==> path[0] in pred && pred[path[0]] == None
    ensures path != [] <==> RootedAt(pred, start, end)
  {
    ghost var bound: nat :| Walk(pred, Some(end), bound) == None;
    var back: seq<N> := [];
    var current: Option<N> := Some(end);
    while current.Some?
      invariant |back| <= bound
      invariant forall i :: 0 <= i < |back| ==> Walk(pred, Some(end), i) == Some(back[i])
      invariant Walk(pred, Some(end), |back|) == current
      decreases bound - |back|
    {
      WalkInKeys(pred, end, |back|);
      WalkStep(pred, Some(end), |back|);
      back := back + [current.value];
      current := pred[current.value];
    }
    ghost var m := |back|;
    assert m >= 1;
    forall j | j >= m ensures Walk(pred, Some(end), j) == None {
      if Walk(pred, Some(end), j).Some? {
        WalkDefinedBelow(pred, Some(end), m, j);
      }
    }
    path := Reverse(back);
    forall i | 1 <= i < |path| ensures path[i] in pred && pred[path[i]] == Some(path[i - 1]) {
      WalkStep(pred, Some(end), |path| - 1 - i);
    }
    WalkInKeys(pred, end, m - 1);
    WalkStep(pred, Some(end), m - 1);
    if path[0] != start {
      assert forall k: nat :: 1 <= k && Walk(pred, Some(end), k) == None ==> Walk(pred, Some(end), k - 1) != Some(start);
      path := [];
    }
  }
}
