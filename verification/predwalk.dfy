/** Walking a predecessor map backwards, shared by cycle extraction and
    path reconstruction.  A predecessor map sends every node to the node
    whose edge last lowered its distance, or to `None`; following it is
    walking a functional graph, so a long enough walk must repeat a node. */
module PredecessorWalk {
  import opened Options

  /** One step back; a node without a predecessor (or outside the map)
      ends the walk in `None`, which then stays `None`. */
  function Next<N>(pred: map<N, Option<N>>, o: Option<N>): Option<N> {
    match o
    case None => None
    case Some(x) => if x in pred then pred[x] else None
  }

  /** `k` steps back from `o`. */
  function Walk<N>(pred: map<N, Option<N>>, o: Option<N>, k: nat): Option<N>
    decreases k
  {
    if k == 0 then o else Walk(pred, Next(pred, o), k - 1)
  }

  /** Every predecessor named in the map is itself a node of the map. */
  ghost predicate Closed<N>(pred: map<N, Option<N>>) {
    forall x :: x in pred && pred[x].Some? ==> pred[x].value in pred
  }

  /** `c` is read forwards along edges: each element's predecessor is the
      element before it. */
  ghost predicate FollowsPred<N>(pred: map<N, Option<N>>, c: seq<N>) {
    forall i :: 1 <= i < |c| ==> c[i] in pred && pred[c[i]] == Some(c[i - 1])
  }

  /** A closed predecessor cycle: first and last element agree, every step
      follows a predecessor link, and no node repeats before the closing one. */
  ghost predicate PredCycle<N>(pred: map<N, Option<N>>, c: seq<N>) {
    && |c| >= 2
    && c[0] == c[|c| - 1]
    && FollowsPred(pred, c)
    && forall i, j :: 0 <= i < j < |c| - 1 ==> c[i] != c[j]
  }

  /** Walks compose: `a + b` steps are `a` steps and then `b` more. */
  lemma {:induction false} WalkAdd<N>(pred: map<N, Option<N>>, o: Option<N>, a: nat, b: nat)
    ensures Walk(pred, o, a + b) == Walk(pred, Walk(pred, o, a), b)
    decreases a
  {
    if a > 0 {
      WalkAdd(pred, Next(pred, o), a - 1, b);
    }
  }

  /** The last step of a walk is one `Next`. */
  lemma WalkStep<N>(pred: map<N, Option<N>>, o: Option<N>, k: nat)
    ensures Walk(pred, o, k + 1) == Next(pred, Walk(pred, o, k))
  {
    WalkAdd(pred, o, k, 1);
  }

  /** A walk that has ended stays ended. */
  lemma {:induction false} NoneStays<N>(pred: map<N, Option<N>>, k: nat)
    ensures Walk(pred, None, k) == None
    decreases k
  {
    if k > 0 {
      NoneStays(pred, k - 1);
    }
  }

  /** A walk defined for `k` steps is defined for every shorter length. */
  lemma WalkDefinedBelow<N>(pred: map<N, Option<N>>, o: Option<N>, j: nat, k: nat)
    requires j <= k && Walk(pred, o, k).Some?
    ensures Walk(pred, o, j).Some?
  {
    WalkAdd(pred, o, j, k - j);
    if Walk(pred, o, j).None? {
      NoneStays(pred, k - j);
    }
  }

  /** In a closed map every node reached from a node is a node. */
  lemma {:induction false} WalkInKeys<N>(pred: map<N, Option<N>>, x: N, k: nat)
    requires Closed(pred) && x in pred
    requires Walk(pred, Some(x), k).Some?
    ensures Walk(pred, Some(x), k).value in pred
    decreases k
  {
    if k > 0 {
      WalkDefinedBelow(pred, Some(x), k - 1, k);
      WalkInKeys(pred, x, k - 1);
      WalkStep(pred, Some(x), k - 1);
    }
  }

  /** The nodes `x = x_0, x_1, ..., x_k` met on a walk defined for `k` steps. */
  ghost function Trail<N>(pred: map<N, Option<N>>, x: N, k: nat): (t: seq<N>)
    requires Walk(pred, Some(x), k).Some?
    ensures |t| == k + 1
    ensures forall i :: 0 <= i <= k ==> Walk(pred, Some(x), i) == Some(t[i])
    decreases k
  {
    if k == 0 then [x]
    else
      WalkDefinedBelow(pred, Some(x), 1, k);
      var y := pred[x].value;
      assert Walk(pred, Some(y), k - 1).Some?;
      var rest := Trail(pred, y, k - 1);
      assert forall i :: 1 <= i <= k ==> Walk(pred, Some(x), i) == Walk(pred, Some(y), i - 1);
      [x] + rest
  }

  /** Pigeonhole: a sequence longer than the set it lives in repeats. */
  lemma {:induction false} Pigeonhole<N>(s: seq<N>, K: set<N>)
    requires forall i :: 0 <= i < |s| ==> s[i] in K
    requires |s| > |K|
    ensures exists i, j :: 0 <= i < j < |s| && s[i] == s[j]
    decreases |s|
  {
    var h := s[0];
    if h in s[1..] {
      var j :| 0 <= j < |s[1..]| && s[1..][j] == h;
      assert s[0] == s[j + 1];
    } else {
      var t := s[1..];
      assert forall i :: 0 <= i < |t| ==> t[i] in K - {h};
      assert |K - {h}| == |K| - 1;
      Pigeonhole(t, K - {h});
      var i, j :| 0 <= i < j < |t| && t[i] == t[j];
      assert s[i + 1] == s[j + 1];
    }
  }

  /** A sequence without repeats inside `K` is no longer than `K`. */
  lemma DistinctBound<N>(s: seq<N>, K: set<N>)
    requires forall i :: 0 <= i < |s| ==> s[i] in K
    requires forall i, j :: 0 <= i < j < |s| ==> s[i] != s[j]
    ensures |s| <= |K|
  {
    if |s| > |K| {
      Pigeonhole(s, K);
    }
  }

  /** If node `a` is reached again after `p >= 1` steps, it lies on a
      predecessor cycle: walking from `a` until the first return gives a
      closed cycle. */
  ghost predicate OnCycle<N>(pred: map<N, Option<N>>, a: N, p: nat) {
    p >= 1 && Walk(pred, Some(a), p) == Some(a)
  }

  /** The nodes of a trail are nodes of the map. */
  lemma TrailInKeys<N>(pred: map<N, Option<N>>, x: N, n: nat)
    requires Closed(pred) && x in pred
    requires Walk(pred, Some(x), n).Some?
    ensures forall i :: 0 <= i < |Trail(pred, x, n)| ==> Trail(pred, x, n)[i] in pred.Keys
  {
    var t := Trail(pred, x, n);
    forall i | 0 <= i < |t| ensures t[i] in pred.Keys {
      WalkDefinedBelow(pred, Some(x), i, n);
      WalkInKeys(pred, x, i);
    }
  }

  /** A walk that meets the same node after `i` and after `j` steps
      repeats with period `j - i` from then on; in particular the node
      reached after `n >= i` steps is met again `j - i` steps later. */
  lemma RepeatFrom<N>(pred: map<N, Option<N>>, x: N, n: nat, i: nat, j: nat)
    requires i < j && i <= n
    requires Walk(pred, Some(x), i) == Walk(pred, Some(x), j)
    ensures Walk(pred, Walk(pred, Some(x), n), j - i) == Walk(pred, Some(x), n)
  {
    var a := Walk(pred, Some(x), n);
    calc {
      Walk(pred, a, j - i);
      { WalkAdd(pred, Some(x), n, j - i); }
      Walk(pred, Some(x), n + (j - i));
      { WalkAdd(pred, Some(x), j, n - i); }
      Walk(pred, Walk(pred, Some(x), j), n - i);
      Walk(pred, Walk(pred, Some(x), i), n - i);
      { WalkAdd(pred, Some(x), i, n - i); }
      a;
    }
  }

  /** The |V|-step anchor walk: in a closed map with |V| nodes, the node
      reached after |V| steps from a node lies on a predecessor cycle of
      length at most |V|. */
  lemma AnchorOnCycle<N>(pred: map<N, Option<N>>, x: N)
    requires Closed(pred) && x in pred
    requires Walk(pred, Some(x), |pred|).Some?
    ensures exists p :: 1 <= p <= |pred| && OnCycle(pred, Walk(pred, Some(x), |pred|).value, p)
  {
    var n := |pred|;
    var t := Trail(pred, x, n);
    TrailInKeys(pred, x, n);
    assert |pred.Keys| == n;
    Pigeonhole(t, pred.Keys);
    var i, j :| 0 <= i < j < |t| && t[i] == t[j];
    RepeatFrom(pred, x, n, i, j);
    assert OnCycle(pred, Walk(pred, Some(x), n).value, j - i);
  }

  /** Walking around a cycle whose first return to `a` is after `q` steps
      meets no node twice before returning. */
  lemma OrbitDistinct<N>(pred: map<N, Option<N>>, a: N, q: nat, i: nat, j: nat)
    requires q >= 1 && Walk(pred, Some(a), q) == Some(a)
    requires forall m :: 1 <= m < q ==> Walk(pred, Some(a), m) != Some(a)
    requires i < j < q
    ensures Walk(pred, Some(a), i) != Walk(pred, Some(a), j)
  {
    var d := q - j;
    WalkAdd(pred, Some(a), j, d);
    WalkAdd(pred, Some(a), i, d);
    assert 1 <= i + d < q;
  }

  /** A sequence that follows predecessor links is the walk back from its
      last element, read backwards. */
  lemma {:induction false} FollowsWalk<N>(pred: map<N, Option<N>>, c: seq<N>, m: nat)
    requires FollowsPred(pred, c) && m < |c|
    ensures Walk(pred, Some(c[|c| - 1]), m) == Some(c[|c| - 1 - m])
    decreases m
  {
    if m > 0 {
      FollowsWalk(pred, c, m - 1);
      WalkStep(pred, Some(c[|c| - 1]), m - 1);
    }
  }
}
