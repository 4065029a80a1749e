/** The detection half shared by the list variants (Graph.bellman_ford in
    Python/CurrencyExchangeV3.py, Python/CurrencyExchangev2.py and
    Python/CurrencyExchangeMerged.py): vertices are the indices
    `0 .. no_vertices - 1`, and a cycle is extracted from a witness's
    destination by the visited-set walk (get_negative_cycle). */
module ListDetection {
  import opened Options
  import opened Weights
  import opened PredecessorWalk
  import opened Relaxation
  import opened CycleExtraction
  import opened TableDetection
  import opened GraphConstruction

  lemma ListInitCovers(n: nat, edges: seq<Edge<int>>, src: int)
    requires 0 <= src < n && EdgesBelow(edges, n)
    ensures Covers(Init(Indices(n), src), edges)
  {
  }

  /** The distance and predecessor lists after the `no_vertices - 1`
      passes, read as tables over the indices. */
  ghost function ListTables(n: nat, edges: seq<Edge<int>>, src: int): (s: State<int>)
    requires 0 <= src < n && EdgesBelow(edges, n)
    ensures s.pred.Keys == Indices(n) && s.dist.Keys == Indices(n)
  {
    ListInitCovers(n, edges, src);
    Relaxed(Indices(n), src, edges, Rounds(n))
  }

  /** The lists as tables. */
  ghost function ListState(distance: seq<Dist>, predecessor: seq<int>): State<int> {
    State(Dists(distance), Preds(predecessor))
  }

  /** `c` is what get_negative_cycle returns from `start`: a closed
      predecessor cycle through the first node the walk from `start`
      meets twice. */
  ghost predicate TracedCycle(pred: map<int, Option<int>>, start: int, c: seq<int>) {
    && PredCycle(pred, c)
    && exists k :: FirstRepeat(pred, start, k) && Walk(pred, Some(start), k) == Some(c[0])
  }

  /** get_negative_cycle gives one answer from each start. */
  lemma TracedCycleUnique(pred: map<int, Option<int>>, start: int, c: seq<int>, d: seq<int>)
    requires TracedCycle(pred, start, c) && TracedCycle(pred, start, d)
    ensures c == d
  {
    var k :| FirstRepeat(pred, start, k) && Walk(pred, Some(start), k) == Some(c[0]);
    var k' :| FirstRepeat(pred, start, k') && Walk(pred, Some(start), k') == Some(d[0]);
    FirstRepeatUnique(pred, start, k, k');
    PredCycleUnique(pred, c, d);
  }

  /** The walk from every witness's destination stays clear of `-1` for
      `n` steps (the source would otherwise index the list with -1). */
  ghost predicate VisitWalksDefined(s: State<int>, edges: seq<Edge<int>>, n: nat) {
    forall i :: Witness(s, edges, i) ==> Walk(s.pred, Some(edges[i].dest), n).Some?
  }

  /** The same for the first witness only. */
  ghost predicate FirstVisitWalkDefined(s: State<int>, edges: seq<Edge<int>>, n: nat) {
    forall i :: FirstWitness(s, edges, i) ==> Walk(s.pred, Some(edges[i].dest), n).Some?
  }

  /** The entries of `result` after `known` come in edge order: whatever
      witness traces a later entry, an earlier witness traces each entry
      before it. */
  ghost predicate InWitnessOrder(s: State<int>, edges: seq<Edge<int>>, known: seq<seq<int>>, result: seq<seq<int>>) {
    forall k, k', j' :: |known| <= k < k' < |result| && Witness(s, edges, j') && TracedCycle(s.pred, edges[j'].dest, result[k'])
      ==> exists j :: j < j' && Witness(s, edges, j) && TracedCycle(s.pred, edges[j].dest, result[k])
  }

  /** `result` is `known` followed by new cycles only, in edge order: each
      new entry is traced from some witness and equals no entry before it;
      and every witness's traced cycle is somewhere in `result`. */
  ghost predicate ExtendsWithNewCycles(s: State<int>, edges: seq<Edge<int>>, known: seq<seq<int>>, result: seq<seq<int>>) {
    && |known| <= |result| && result[..|known|] == known
    && (forall k :: |known| <= k < |result| ==> result[k] !in result[..k])
    && (forall k :: |known| <= k < |result| ==>
          exists j :: Witness(s, edges, j) && TracedCycle(s.pred, edges[j].dest, result[k]))
    && (forall j :: Witness(s, edges, j) ==> exists c :: c in result && TracedCycle(s.pred, edges[j].dest, c))
    && InWitnessOrder(s, edges, known, result)
  }

  /** A prefix one longer is the shorter prefix and one more entry. */
  lemma PrefixSnoc<T>(r: seq<T>, p: int)
    requires 0 < p <= |r|
    ensures r[..p] == r[..p - 1] + [r[p - 1]]
  {
  }

  /** An element of `r` outside its first `p` entries is at `p` or later. */
  lemma SplitAt<T>(r: seq<T>, p: int, x: T) returns (q: int)
    requires 0 <= p <= |r| && x in r && x !in r[..p]
    ensures p <= q < |r| && r[q] == x
  {
    assert r == r[..p] + r[p..];
    var i :| 0 <= i < |r[p..]| && r[p..][i] == x;
    q := p + i;
  }

  /** Two sequences that agree on their first `lo` entries but not on
      their first `p` differ first somewhere in between. */
  lemma {:induction false} FirstDifference<T>(a: seq<T>, b: seq<T>, lo: int, p: int) returns (d: int)
    requires 0 <= lo <= p <= |a| && p <= |b| && a[..lo] == b[..lo] && a[..p] != b[..p]
    ensures lo <= d < p && a[..d] == b[..d] && a[d] != b[d]
    decreases p
  {
    PrefixSnoc(a, p);
    PrefixSnoc(b, p);
    if a[..p - 1] == b[..p - 1] {
      d := p - 1;
    } else {
      d := FirstDifference(a, b, lo, p - 1);
    }
  }

  /** The whole sequence is its longest prefix. */
  lemma PrefixAll<T>(r: seq<T>)
    ensures r[..|r|] == r
  {
  }

  /** `m` is the first witness whose traced cycle is `c`. */
  ghost predicate FirstTracerOf(s: State<int>, edges: seq<Edge<int>>, c: seq<int>, m: int) {
    && Witness(s, edges, m) && TracedCycle(s.pred, edges[m].dest, c)
    && forall j0 :: 0 <= j0 < m && Witness(s, edges, j0) ==> !TracedCycle(s.pred, edges[j0].dest, c)
  }

  /** Among the witnesses that trace `c` there is a first one. */
  lemma {:induction false} FirstTracer(s: State<int>, edges: seq<Edge<int>>, c: seq<int>, j: int)
    requires Witness(s, edges, j) && TracedCycle(s.pred, edges[j].dest, c)
    ensures exists m :: m <= j && FirstTracerOf(s, edges, c, m)
    decreases j
  {
    if exists j0 :: 0 <= j0 < j && Witness(s, edges, j0) && TracedCycle(s.pred, edges[j0].dest, c) {
      var j0 :| 0 <= j0 < j && Witness(s, edges, j0) && TracedCycle(s.pred, edges[j0].dest, c);
      FirstTracer(s, edges, c, j0);
    } else {
      assert FirstTracerOf(s, edges, c, j);
    }
  }

  /** A traced cycle missing from the first `p` entries sits at `p` or
      later. */
  lemma StoredAfter(s: State<int>, edges: seq<Edge<int>>, known: seq<seq<int>>, r: seq<seq<int>>, p: int, x: seq<int>, j: int)
    returns (q: int)
    requires ExtendsWithNewCycles(s, edges, known, r) && 0 <= p <= |r|
    requires Witness(s, edges, j) && TracedCycle(s.pred, edges[j].dest, x) && x !in r[..p]
    ensures p <= q < |r| && r[q] == x
  {
    var c :| c in r && TracedCycle(s.pred, edges[j].dest, c);
    TracedCycleUnique(s.pred, edges[j].dest, c, x);
    q := SplitAt(r, p, x);
  }

  /** If position `p` of `r` holds `y` and a later position holds `x`,
      `y` is traced first. */
  lemma FirstTracedFirst(s: State<int>, edges: seq<Edge<int>>, known: seq<seq<int>>, r: seq<seq<int>>, p: int, q: int,
                         mx: int, my: int)
    requires InWitnessOrder(s, edges, known, r) && |known| <= p < q < |r|
    requires FirstTracerOf(s, edges, r[q], mx) && FirstTracerOf(s, edges, r[p], my)
    ensures my < mx
  {
    var j :| j < mx && Witness(s, edges, j) && TracedCycle(s.pred, edges[j].dest, r[p]);
  }


  /** Each new entry has a first tracing witness. */
  lemma EntryTracer(s: State<int>, edges: seq<Edge<int>>, known: seq<seq<int>>, r: seq<seq<int>>, p: int) returns (m: int)
    requires ExtendsWithNewCycles(s, edges, known, r) && |known| <= p < |r|
    ensures FirstTracerOf(s, edges, r[p], m)
  {
    var j :| Witness(s, edges, j) && TracedCycle(s.pred, edges[j].dest, r[p]);
    FirstTracer(s, edges, r[p], j);
    m :| m <= j && FirstTracerOf(s, edges, r[p], m);
  }

  /** Two results that agree before position `p` agree at `p`: the entry
      there is the unstored cycle whose first tracing witness comes first. */
  lemma SameNextEntry(s: State<int>, edges: seq<Edge<int>>, known: seq<seq<int>>, r1: seq<seq<int>>, r2: seq<seq<int>>, p: int)
    requires ExtendsWithNewCycles(s, edges, known, r1) && ExtendsWithNewCycles(s, edges, known, r2)
    requires |known| <= p < |r1| && p < |r2| && r1[..p] == r2[..p]
    ensures r1[p] == r2[p]
  {
    if r1[p] != r2[p] {
      var mx := EntryTracer(s, edges, known, r1, p);
      var my := EntryTracer(s, edges, known, r2, p);
      var q2 := StoredAfter(s, edges, known, r2, p, r1[p], mx);
      FirstTracedFirst(s, edges, known, r2, p, q2, mx, my);
      var q1 := StoredAfter(s, edges, known, r1, p, r2[p], my);
      FirstTracedFirst(s, edges, known, r1, p, q1, my, mx);
    }
  }

  /** The results agree on every position both have. */
  lemma SamePrefix(s: State<int>, edges: seq<Edge<int>>, known: seq<seq<int>>, r1: seq<seq<int>>, r2: seq<seq<int>>, m: int)
    requires ExtendsWithNewCycles(s, edges, known, r1) && ExtendsWithNewCycles(s, edges, known, r2)
    requires m == if |r1| <= |r2| then |r1| else |r2|
    ensures r1[..m] == r2[..m]
  {
    if r1[..m] != r2[..m] {
      var d := FirstDifference(r1, r2, |known|, m);
      SameNextEntry(s, edges, known, r1, r2, d);
    }
  }

  /** A result cannot stop short of another: the next entry of the longer
      one is a traced cycle, so the shorter one holds it already. */
  lemma NotShorter(s: State<int>, edges: seq<Edge<int>>, known: seq<seq<int>>, r1: seq<seq<int>>, r2: seq<seq<int>>)
    requires ExtendsWithNewCycles(s, edges, known, r1) && ExtendsWithNewCycles(s, edges, known, r2)
    requires |r1| <= |r2| && r1 == r2[..|r1|]
    ensures |r1| == |r2|
  {
    if |r1| < |r2| {
      var y := r2[|r1|];
      var j :| Witness(s, edges, j) && TracedCycle(s.pred, edges[j].dest, y);
      var c :| c in r1 && TracedCycle(s.pred, edges[j].dest, c);
      TracedCycleUnique(s.pred, edges[j].dest, c, y);
    }
  }

  /** `ExtendsWithNewCycles` leaves no choice: given the tables and the
      cycles already stored, there is one list it allows. */
  lemma ExtendsDetermined(s: State<int>, edges: seq<Edge<int>>, known: seq<seq<int>>, r1: seq<seq<int>>, r2: seq<seq<int>>)
    requires ExtendsWithNewCycles(s, edges, known, r1) && ExtendsWithNewCycles(s, edges, known, r2)
    ensures r1 == r2
  {
    var m := if |r1| <= |r2| then |r1| else |r2|;
    SamePrefix(s, edges, known, r1, r2, m);
    PrefixAll(r1);
    PrefixAll(r2);
    if |r1| <= |r2| {
      NotShorter(s, edges, known, r1, r2);
    } else {
      NotShorter(s, edges, known, r2, r1);
    }
  }

  /** Appending only unseen cycles keeps a list free of duplicates. */
  lemma ExtendKeepsDistinct(s: State<int>, edges: seq<Edge<int>>, known: seq<seq<int>>, result: seq<seq<int>>)
    requires Distinct(known) && ExtendsWithNewCycles(s, edges, known, result)
    ensures Distinct(result)
  {
    forall a, b | 0 <= a < b < |result| ensures result[a] != result[b] {
      if b < |known| {
        assert result[a] == known[a] && result[b] == known[b];
      } else {
        assert result[a] in result[..b];
      }
    }
  }

  /** `result` is `known` followed by entries each unequal to all before it. */
  ghost predicate FreshAfter(known: seq<seq<int>>, result: seq<seq<int>>) {
    && |known| <= |result| && result[..|known|] == known
    && forall k :: |known| <= k < |result| ==> result[k] !in result[..k]
  }

  /** Each entry after `known` is traced from a witness before edge `i`. */
  ghost predicate TracedBefore(s: State<int>, edges: seq<Edge<int>>, known: seq<seq<int>>, result: seq<seq<int>>, i: int) {
    forall k :: |known| <= k < |result| ==>
      exists j :: 0 <= j < i && Witness(s, edges, j) && TracedCycle(s.pred, edges[j].dest, result[k])
  }

  /** The cycle of each witness before edge `i` is in `result`. */
  ghost predicate CoveredBefore(s: State<int>, edges: seq<Edge<int>>, result: seq<seq<int>>, i: int) {
    forall j :: 0 <= j < i && Witness(s, edges, j) ==> exists c :: c in result && TracedCycle(s.pred, edges[j].dest, c)
  }

  /** What the all-witness scan has established after the first `i` edges. */
  ghost predicate ScannedUpTo(s: State<int>, edges: seq<Edge<int>>, known: seq<seq<int>>, result: seq<seq<int>>, i: int) {
    && FreshAfter(known, result)
    && TracedBefore(s, edges, known, result, i)
    && CoveredBefore(s, edges, result, i)
    && InWitnessOrder(s, edges, known, result)
  }

  /** One step of the scan: edge `i` is a witness whose cycle is already
      stored. */
  lemma ScanKnown(s: State<int>, edges: seq<Edge<int>>, known: seq<seq<int>>, result: seq<seq<int>>, i: int, cycle: seq<int>)
    requires ScannedUpTo(s, edges, known, result, i) && Witness(s, edges, i)
    requires TracedCycle(s.pred, edges[i].dest, cycle) && cycle in result
    ensures ScannedUpTo(s, edges, known, result, i + 1)
  {
  }

  /** Appending a list not yet present keeps the new entries distinct
      from all entries before them. */
  lemma AppendFresh(known: seq<seq<int>>, result: seq<seq<int>>, cycle: seq<int>)
    requires FreshAfter(known, result) && cycle !in result
    ensures FreshAfter(known, result + [cycle])
  {
    var r := result + [cycle];
    assert r[..|known|] == result[..|known|];
    forall k | |known| <= k < |r| ensures r[k] !in r[..k] {
      if k < |result| {
        assert r[..k] == result[..k];
      } else {
        assert r[..k] == result;
      }
    }
  }

  /** Appending the cycle of witness `i` keeps every new entry traced from
      some witness up to `i`. */
  lemma AppendTraced(s: State<int>, edges: seq<Edge<int>>, known: seq<seq<int>>, result: seq<seq<int>>, i: int, cycle: seq<int>)
    requires TracedBefore(s, edges, known, result, i)
    requires Witness(s, edges, i) && TracedCycle(s.pred, edges[i].dest, cycle)
    ensures TracedBefore(s, edges, known, result + [cycle], i + 1)
  {
    var r := result + [cycle];
    forall k | |known| <= k < |r|
      ensures exists j :: 0 <= j < i + 1 && Witness(s, edges, j) && TracedCycle(s.pred, edges[j].dest, r[k])
    {
      if k == |result| {
        assert r[k] == cycle;
      } else {
        assert r[k] == result[k];
      }
    }
  }

  /** Appending the cycle of witness `i` covers witnesses up to `i`. */
  lemma AppendCovers(s: State<int>, edges: seq<Edge<int>>, result: seq<seq<int>>, i: int, cycle: seq<int>)
    requires 0 <= i < |edges|
    requires CoveredBefore(s, edges, result, i)
    requires TracedCycle(s.pred, edges[i].dest, cycle)
    ensures CoveredBefore(s, edges, result + [cycle], i + 1)
  {
    var r := result + [cycle];
    forall j | 0 <= j < i + 1 && Witness(s, edges, j) ensures exists c :: c in r && TracedCycle(s.pred, edges[j].dest, c) {
      if j < i {
        var c :| c in result && TracedCycle(s.pred, edges[j].dest, c);
        assert c in r;
      } else {
        assert cycle in r;
      }
    }
  }

  /** No witness before `i` traces a cycle absent from `result`, since
      those witnesses' cycles are all stored already: so every earlier new
      entry has a tracing witness before any witness of that cycle. */
  lemma FreshCycleLater(s: State<int>, edges: seq<Edge<int>>, known: seq<seq<int>>, result: seq<seq<int>>, i: int,
                        cycle: seq<int>, r: seq<seq<int>>, k: int, j': int)
    requires r == result + [cycle] && |known| <= k < |result|
    requires TracedBefore(s, edges, known, result, i) && CoveredBefore(s, edges, result, i)
    requires Witness(s, edges, j') && TracedCycle(s.pred, edges[j'].dest, cycle) && cycle !in result
    ensures exists j :: j < j' && Witness(s, edges, j) && TracedCycle(s.pred, edges[j].dest, r[k])
  {
    var entry := result[k];
    assert r[k] == entry;
    var j0 :| 0 <= j0 < i && Witness(s, edges, j0) && TracedCycle(s.pred, edges[j0].dest, entry);
    if j' < i {
      var c :| c in result && TracedCycle(s.pred, edges[j'].dest, c);
      TracedCycleUnique(s.pred, edges[j'].dest, c, cycle);
    }
  }

  /** Appending leaves the order among the old entries as it was. */
  lemma OrderKept(s: State<int>, edges: seq<Edge<int>>, known: seq<seq<int>>, result: seq<seq<int>>,
                  cycle: seq<int>, r: seq<seq<int>>, k: int, k': int, j': int)
    requires r == result + [cycle] && |known| <= k < k' < |result|
    requires InWitnessOrder(s, edges, known, result)
    requires Witness(s, edges, j') && TracedCycle(s.pred, edges[j'].dest, r[k'])
    ensures exists j :: j < j' && Witness(s, edges, j) && TracedCycle(s.pred, edges[j].dest, r[k])
  {
    assert r[k] == result[k] && r[k'] == result[k'];
  }


  /** Appending a cycle absent so far keeps the new entries in edge order. */
  lemma AppendOrdered(s: State<int>, edges: seq<Edge<int>>, known: seq<seq<int>>, result: seq<seq<int>>, i: int, cycle: seq<int>)
    requires InWitnessOrder(s, edges, known, result)
    requires TracedBefore(s, edges, known, result, i) && CoveredBefore(s, edges, result, i)
    requires cycle !in result
    ensures InWitnessOrder(s, edges, known, result + [cycle])
  {
    var r := result + [cycle];
    forall k, k', j' | |known| <= k < k' < |r| && Witness(s, edges, j') && TracedCycle(s.pred, edges[j'].dest, r[k'])
      ensures exists j :: j < j' && Witness(s, edges, j) && TracedCycle(s.pred, edges[j].dest, r[k])
    {
      if k' < |result| {
        OrderKept(s, edges, known, result, cycle, r, k, k', j');
      } else {
        FreshCycleLater(s, edges, known, result, i, cycle, r, k, j');
      }
    }
  }


  /** One step of the scan: edge `i` is a witness whose cycle is new and
      is appended. */
  lemma ScanAppend(s: State<int>, edges: seq<Edge<int>>, known: seq<seq<int>>, result: seq<seq<int>>, i: int, cycle: seq<int>)
    requires ScannedUpTo(s, edges, known, result, i) && Witness(s, edges, i)
    requires TracedCycle(s.pred, edges[i].dest, cycle) && cycle !in result
    ensures ScannedUpTo(s, edges, known, result + [cycle], i + 1)
  {
    AppendFresh(known, result, cycle);
    AppendTraced(s, edges, known, result, i, cycle);
    AppendCovers(s, edges, result, i, cycle);
    AppendOrdered(s, edges, known, result, i, cycle);
  }

  /** One step of the scan over an edge that is not a witness. */
  lemma ScanOther(s: State<int>, edges: seq<Edge<int>>, known: seq<seq<int>>, result: seq<seq<int>>, i: int)
    requires ScannedUpTo(s, edges, known, result, i) && !Witness(s, edges, i)
    ensures ScannedUpTo(s, edges, known, result, i + 1)
  {
  }

  lemma ScanStart(s: State<int>, edges: seq<Edge<int>>, known: seq<seq<int>>)
    ensures ScannedUpTo(s, edges, known, known, 0)
  {
    assert known[..|known|] == known;
  }

  lemma ScanDone(s: State<int>, edges: seq<Edge<int>>, known: seq<seq<int>>, result: seq<seq<int>>)
    requires ScannedUpTo(s, edges, known, result, |edges|)
    ensures ExtendsWithNewCycles(s, edges, known, result)
  {
  }

  /** The body of the all-witness scan for edge `i`: if it is still
      relaxable, trace its cycle and append it unless already stored. */
  method ScanEdge(distance: seq<Dist>, predecessor: seq<int>, edges: seq<Edge<int>>, known: seq<seq<int>>,
                  found: bool, arbitrages: seq<seq<int>>, i: int)
    returns (found': bool, arbitrages': seq<seq<int>>)
    requires |distance| == |predecessor| && PredRange(predecessor) && EdgesBelow(edges, |predecessor|)
    requires VisitWalksDefined(ListState(distance, predecessor), edges, |predecessor|)
    requires 0 <= i < |edges|
    requires found <==> |arbitrages| > |known|
    requires ScannedUpTo(ListState(distance, predecessor), edges, known, arbitrages, i)
    ensures found' <==> |arbitrages'| > |known|
    ensures !Witness(ListState(distance, predecessor), edges, i) ==> arbitrages' == arbitrages
    ensures Witness(ListState(distance, predecessor), edges, i) ==>
              exists c :: TracedCycle(ListState(distance, predecessor).pred, edges[i].dest, c)
                          && arbitrages' == (if c in arbitrages then arbitrages else arbitrages + [c])
    ensures ScannedUpTo(ListState(distance, predecessor), edges, known, arbitrages', i + 1)
  {
    ghost var s := ListState(distance, predecessor);
    found', arbitrages' := found, arbitrages;
    var e := edges[i];
    assert e in edges;
    if Relaxable(distance[e.start], e.weight, distance[e.dest]) {
      assert Witness(s, edges, i);
      var cycle := VisitedCycle(predecessor, e.dest);
      if cycle !in arbitrages {
        ScanAppend(s, edges, known, arbitrages, i, cycle);
        arbitrages' := arbitrages + [cycle];
        found' := true;
      } else {
        ScanKnown(s, edges, known, arbitrages, i, cycle);
      }
    } else {
      ScanOther(s, edges, known, arbitrages, i);
    }
  }

  /** The all-witness scan: for each edge still relaxable, in list order,
      trace its cycle and append it unless an equal list is already stored
      (`cycle not in self.arbitrages`).  `found` is whether anything was
      appended. */
  method AppendNewCycles(distance: seq<Dist>, predecessor: seq<int>, edges: seq<Edge<int>>, known: seq<seq<int>>)
    returns (found: bool, arbitrages: seq<seq<int>>)
    requires |distance| == |predecessor| && PredRange(predecessor) && EdgesBelow(edges, |predecessor|)
    requires VisitWalksDefined(ListState(distance, predecessor), edges, |predecessor|)
    ensures found <==> |arbitrages| > |known|
    ensures ExtendsWithNewCycles(ListState(distance, predecessor), edges, known, arbitrages)
  {
    ghost var s := ListState(distance, predecessor);
    found := false;
    arbitrages := known;
    ScanStart(s, edges, known);
    for i := 0 to |edges|
      invariant found <==> |arbitrages| > |known|
      invariant ScannedUpTo(s, edges, known, arbitrages, i)
    {
      found, arbitrages := ScanEdge(distance, predecessor, edges, known, found, arbitrages, i);
    }
    ScanDone(s, edges, known, arbitrages);
  }

  /** The first-witness scan with its early return: the cycle traced from
      the first edge still relaxable, or `None` when no edge is. */
  method FirstCycle(distance: seq<Dist>, predecessor: seq<int>, edges: seq<Edge<int>>) returns (cycle: Option<seq<int>>)
    requires |distance| == |predecessor| && PredRange(predecessor) && EdgesBelow(edges, |predecessor|)
    requires FirstVisitWalkDefined(ListState(distance, predecessor), edges, |predecessor|)
    ensures cycle.None? <==> forall i :: !Witness(ListState(distance, predecessor), edges, i)
    ensures cycle.Some? ==> exists i :: FirstWitness(ListState(distance, predecessor), edges, i)
                                       && TracedCycle(ListState(distance, predecessor).pred, edges[i].dest, cycle.value)
  {
    ghost var s := ListState(distance, predecessor);
    for i := 0 to |edges|
      invariant forall j :: 0 <= j < i ==> !Witness(s, edges, j)
    {
      var e := edges[i];
      assert e in edges;
      if Relaxable(distance[e.start], e.weight, distance[e.dest]) {
        assert FirstWitness(s, edges, i);
        var c := VisitedCycle(predecessor, e.dest);
        return Some(c);
      }
    }
    return None;
  }

  /** `bellman_ford` of the collecting variants, apart from the object:
      the passes from `source`, then the all-witness scan against the
      cycles already `known`. */
  method RelaxAndCollect(n: nat, edges: seq<Edge<int>>, source: int, known: seq<seq<int>>)
    returns (found: bool, arbitrages: seq<seq<int>>)
    requires 0 <= source < n && EdgesBelow(edges, n)
    requires VisitWalksDefined(ListTables(n, edges, source), edges, n)
    ensures found <==> |arbitrages| > |known|
    ensures ExtendsWithNewCycles(ListTables(n, edges, source), edges, known, arbitrages)
  {
    var distance, predecessor := RelaxLists(n, edges, source);
    var ds, ps := distance[..], predecessor[..];
    assert ListState(ds, ps) == ListTables(n, edges, source);
    found, arbitrages := AppendNewCycles(ds, ps, edges, known);
  }

  /** `bellman_ford` of the early-return variant, apart from the object:
      the passes from `source`, then the cycle traced from the first edge
      still relaxable, or `None` when no edge is. */
  method RelaxAndFindFirst(n: nat, edges: seq<Edge<int>>, source: int) returns (cycle: Option<seq<int>>)
    requires 0 <= source < n && EdgesBelow(edges, n)
    requires FirstVisitWalkDefined(ListTables(n, edges, source), edges, n)
    ensures cycle.None? <==> forall i :: !Witness(ListTables(n, edges, source), edges, i)
    ensures cycle.Some? ==> exists i :: FirstWitness(ListTables(n, edges, source), edges, i)
                                       && TracedCycle(ListTables(n, edges, source).pred, edges[i].dest, cycle.value)
  {
    var distance, predecessor := RelaxLists(n, edges, source);
    var ds, ps := distance[..], predecessor[..];
    assert ListState(ds, ps) == ListTables(n, edges, source);
    cycle := FirstCycle(ds, ps, edges);
  }
}
