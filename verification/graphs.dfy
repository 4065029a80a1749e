/** Building the edge list from a rate table or a rate matrix: every
    ordered pair of currencies, outer currency first, is offered to an
    admission test which either rejects it (self-pair, blank name, no
    rate) or gives the weight of its edge.  The weight `-log10(rate)` is
    not modelled; it is a given function of the rate. */
module GraphConstruction {
  import opened Options
  import opened Relaxation

  /** The edge the pair `(a, b)` contributes: none, or one with weight `w`. */
  function Emit<N>(a: N, b: N, weight: Option<int>): seq<Edge<N>> {
    match weight
    case Some(w) => [Edge(a, b, w)]
    case None => []
  }

  /** The edges of row `a`: one per admitted candidate, in candidate order. */
  function RowEdges<N>(a: N, bs: seq<N>, admit: (N, N) -> Option<int>): seq<Edge<N>>
    decreases |bs|
  {
    if bs == [] then []
    else RowEdges(a, bs[..|bs| - 1], admit) + Emit(a, bs[|bs| - 1], admit(a, bs[|bs| - 1]))
  }

  /** The edges of all rows: row `as_[0]` first, then row `as_[1]`, ... */
  function PairEdges<N>(as_: seq<N>, bs: seq<N>, admit: (N, N) -> Option<int>): seq<Edge<N>>
    decreases |as_|
  {
    if as_ == [] then []
    else PairEdges(as_[..|as_| - 1], bs, admit) + RowEdges(as_[|as_| - 1], bs, admit)
  }

  lemma RowSnoc<N>(a: N, bs: seq<N>, j: nat, admit: (N, N) -> Option<int>)
    requires j < |bs|
    ensures RowEdges(a, bs[..j + 1], admit) == RowEdges(a, bs[..j], admit) + Emit(a, bs[j], admit(a, bs[j]))
  {
    assert bs[..j + 1][..j] == bs[..j];
  }

  lemma PairSnoc<N>(as_: seq<N>, bs: seq<N>, i: nat, admit: (N, N) -> Option<int>)
    requires i < |as_|
    ensures PairEdges(as_[..i + 1], bs, admit) == PairEdges(as_[..i], bs, admit) + RowEdges(as_[i], bs, admit)
  {
    assert as_[..i + 1][..i] == as_[..i];
  }

  /** Position of `x` in `s` (`|s|` if absent). */
  function IndexOf<N(==)>(s: seq<N>, x: N): (i: nat)
    ensures i <= |s|
    ensures i < |s| <==> x in s
    ensures i < |s| ==> s[i] == x
  {
    if s == [] then 0 else if s[0] == x then 0 else 1 + IndexOf(s[1..], x)
  }

  ghost predicate Distinct<N>(s: seq<N>) {
    forall i, j :: 0 <= i < j < |s| ==> s[i] != s[j]
  }

  lemma IndexOfAt<N>(s: seq<N>, i: nat)
    requires Distinct(s) && i < |s|
    ensures IndexOf(s, s[i]) == i
  {
  }

  /** An edge of a row is the row's node paired with an admitted candidate. */
  lemma {:induction false} RowMember<N>(a: N, bs: seq<N>, admit: (N, N) -> Option<int>, e: Edge<N>)
    ensures e in RowEdges(a, bs, admit) <==> e.start == a && e.dest in bs && admit(a, e.dest) == Some(e.weight)
    decreases |bs|
  {
    if bs != [] {
      var bs' := bs[..|bs| - 1];
      RowMember(a, bs', admit, e);
      assert bs == bs' + [bs[|bs| - 1]];
    }
  }

  /** An edge of the whole list is an admitted pair of an outer and an
      inner node, with the weight the admission test gives. */
  lemma {:induction false} PairMember<N>(as_: seq<N>, bs: seq<N>, admit: (N, N) -> Option<int>, e: Edge<N>)
    ensures e in PairEdges(as_, bs, admit) <==>
              e.start in as_ && e.dest in bs && admit(e.start, e.dest) == Some(e.weight)
    decreases |as_|
  {
    if as_ != [] {
      var as' := as_[..|as_| - 1];
      PairMember(as', bs, admit, e);
      RowMember(as_[|as_| - 1], bs, admit, e);
      assert as_ == as' + [as_[|as_| - 1]];
    }
  }

  /** Within a row, edges come in candidate order. */
  lemma {:induction false} RowOrdered<N>(a: N, bs: seq<N>, j: nat, admit: (N, N) -> Option<int>)
    requires Distinct(bs) && j <= |bs|
    ensures DestOrdered(bs, RowEdges(a, bs[..j], admit))
    decreases j
  {
    if j > 0 {
      RowOrdered(a, bs, j - 1, admit);
      assert bs[..j][..j - 1] == bs[..j - 1];
      var r' := RowEdges(a, bs[..j - 1], admit);
      var r := RowEdges(a, bs[..j], admit);
      IndexOfAt(bs, j - 1);
      forall p | 0 <= p < |r'| ensures IndexOf(bs, r'[p].dest) < j - 1 {
        RowMember(a, bs[..j - 1], admit, r'[p]);
        var k :| 0 <= k < j - 1 && bs[k] == r'[p].dest;
        IndexOfAt(bs, k);
      }
      assert forall p :: 0 <= p < |r'| ==> r[p] == r'[p];
    }
  }

  /** `e` comes before `f` in row-major order of `as_` by `bs`. */
  ghost predicate RowMajorBefore<N>(as_: seq<N>, bs: seq<N>, e: Edge<N>, f: Edge<N>) {
    || IndexOf(as_, e.start) < IndexOf(as_, f.start)
    || (IndexOf(as_, e.start) == IndexOf(as_, f.start) && IndexOf(bs, e.dest) < IndexOf(bs, f.dest))
  }

  /** Every edge of `r` comes before every later one in row-major order. */
  ghost predicate RowMajor<N>(as_: seq<N>, bs: seq<N>, r: seq<Edge<N>>) {
    forall p, q :: 0 <= p < q < |r| ==> RowMajorBefore(as_, bs, r[p], r[q])
  }

  /** The destinations of `r` come in `bs` order. */
  ghost predicate DestOrdered<N>(bs: seq<N>, r: seq<Edge<N>>) {
    forall p, q :: 0 <= p < q < |r| ==> IndexOf(bs, r[p].dest) < IndexOf(bs, r[q].dest)
  }

  /** Appending a row whose start comes after every earlier start, and
      whose edges are in candidate order, keeps the list row-major. */
  lemma AppendRowOrdered<N>(as_: seq<N>, bs: seq<N>, P: seq<Edge<N>>, R: seq<Edge<N>>, a: N)
    requires RowMajor(as_, bs, P) && DestOrdered(bs, R)
    requires forall p :: 0 <= p < |P| ==> IndexOf(as_, P[p].start) < IndexOf(as_, a)
    requires forall q :: 0 <= q < |R| ==> R[q].start == a
    ensures RowMajor(as_, bs, P + R)
  {
    var r := P + R;
    forall p, q | 0 <= p < q < |r| ensures RowMajorBefore(as_, bs, r[p], r[q]) {
      if q < |P| {
        assert r[p] == P[p] && r[q] == P[q];
      } else if p < |P| {
        assert r[p] == P[p] && r[q] == R[q - |P|];
      } else {
        assert r[p] == R[p - |P|] && r[q] == R[q - |P|];
      }
    }
  }

  /** Edges come in outer-node then inner-node order (so no ordered pair
      is emitted twice). */
  lemma {:induction false} PairOrdered<N>(as_: seq<N>, bs: seq<N>, i: nat, admit: (N, N) -> Option<int>)
    requires Distinct(as_) && Distinct(bs) && i <= |as_|
    ensures RowMajor(as_, bs, PairEdges(as_[..i], bs, admit))
    decreases i
  {
    if i > 0 {
      var a := as_[i - 1];
      var P := PairEdges(as_[..i - 1], bs, admit);
      var R := RowEdges(a, bs, admit);
      assert PairEdges(as_[..i], bs, admit) == P + R by {
        PairSnoc(as_, bs, i - 1, admit);
      }
      PairOrdered(as_, bs, i - 1, admit);
      RowOrdered(a, bs, |bs|, admit);
      assert bs[..|bs|] == bs;
      IndexOfAt(as_, i - 1);
      forall p | 0 <= p < |P| ensures IndexOf(as_, P[p].start) < IndexOf(as_, a) {
        PairMember(as_[..i - 1], bs, admit, P[p]);
        var k :| 0 <= k < i - 1 && as_[k] == P[p].start;
        IndexOfAt(as_, k);
      }
      forall q | 0 <= q < |R| ensures R[q].start == a {
        RowMember(a, bs, admit, R[q]);
      }
      AppendRowOrdered(as_, bs, P, R, a);
    }
  }

  // ---------------------------------------------------------------------
  // The rate-table builder (create_graph_from_rates)
  // ---------------------------------------------------------------------

  /** A rate table keyed by currency name. */
  type Rates = map<string, map<string, real>>

  /** Whether the pair `(a, b)` of table keys gives an edge, and its weight:
      not a self-pair, (with `skipBlanks`) neither name blank, and `rates[a]`
      has a rate for `b`. */
  function RateWeight(rates: Rates, weightOf: real -> int, skipBlanks: bool, a: string, b: string): Option<int> {
    if a != b && (!skipBlanks || (a != "" && b != "")) && a in rates && b in rates[a]
    then Some(weightOf(rates[a][b]))
    else None
  }

  function RateAdmit(rates: Rates, weightOf: real -> int, skipBlanks: bool): (string, string) -> Option<int> {
    (a, b) => RateWeight(rates, weightOf, skipBlanks, a, b)
  }

  /** The edges built from a table whose keys, in iteration order, are `keys`. */
  function RateEdges(keys: seq<string>, rates: Rates, weightOf: real -> int, skipBlanks: bool): seq<Edge<string>> {
    PairEdges(keys, keys, RateAdmit(rates, weightOf, skipBlanks))
  }

  /** The inner loop of `create_graph_from_rates` for one outer key
      `from`: the edges `from -> to`, `to` in key order. */
  method RateRow(keys: seq<string>, rates: Rates, weightOf: real -> int, skipBlanks: bool, from: string)
    returns (row: seq<Edge<string>>)
    requires forall x :: x in keys <==> x in rates
    requires from in rates
    ensures row == RowEdges(from, keys, RateAdmit(rates, weightOf, skipBlanks))
  {
    ghost var admit := RateAdmit(rates, weightOf, skipBlanks);
    row := [];
    for j := 0 to |keys|
      invariant row == RowEdges(from, keys[..j], admit)
    {
      var to := keys[j];
      RowSnoc(from, keys, j, admit);
      assert admit(from, to) == RateWeight(rates, weightOf, skipBlanks, from, to);
      if from != to && (!skipBlanks || (from != "" && to != "")) {
        if to in rates[from] {
          row := row + [Edge(from, to, weightOf(rates[from][to]))];
        }
      }
    }
    assert keys[..|keys|] == keys;
  }

  /** `create_graph_from_rates`: `keys` is the table's key order.  With
      `skipBlanks` it is the version that also skips blank names. */
  method CreateGraphFromRates(keys: seq<string>, rates: Rates, weightOf: real -> int, skipBlanks: bool)
    returns (edges: seq<Edge<string>>)
    requires forall x :: x in keys <==> x in rates
    ensures edges == RateEdges(keys, rates, weightOf, skipBlanks)
  {
    ghost var admit := RateAdmit(rates, weightOf, skipBlanks);
    edges := [];
    for i := 0 to |keys|
      invariant edges == PairEdges(keys[..i], keys, admit)
    {
      var row := RateRow(keys, rates, weightOf, skipBlanks, keys[i]);
      PairSnoc(keys, keys, i, admit);
      edges := edges + row;
    }
    assert keys[..|keys|] == keys;
  }

  /** What `create_graph_from_rates` emits: exactly one edge for each
      ordered pair of distinct keys that `rates[a]` has a rate for (and,
      with `skipBlanks`, whose names are not blank), weighted by that rate. */
  lemma RateEdgesMember(keys: seq<string>, rates: Rates, weightOf: real -> int, skipBlanks: bool, e: Edge<string>)
    requires forall x :: x in keys <==> x in rates
    ensures e in RateEdges(keys, rates, weightOf, skipBlanks) <==>
              && e.start in rates && e.dest in rates && e.start != e.dest
              && (skipBlanks ==> e.start != "" && e.dest != "")
              && e.dest in rates[e.start] && e.weight == weightOf(rates[e.start][e.dest])
  {
    PairMember(keys, keys, RateAdmit(rates, weightOf, skipBlanks), e);
  }

  /** Edges come in outer-key then inner-key order of the table. */
  lemma RateEdgesOrdered(keys: seq<string>, rates: Rates, weightOf: real -> int, skipBlanks: bool)
    requires Distinct(keys)
    ensures RowMajor(keys, keys, RateEdges(keys, rates, weightOf, skipBlanks))
  {
    PairOrdered(keys, keys, |keys|, RateAdmit(rates, weightOf, skipBlanks));
    assert keys[..|keys|] == keys;
    assert PairEdges(keys[..|keys|], keys, RateAdmit(rates, weightOf, skipBlanks)) == RateEdges(keys, rates, weightOf, skipBlanks);
  }

  // ---------------------------------------------------------------------
  // The matrix builder (build_graph)
  // ---------------------------------------------------------------------

  /** `range(n)`. */
  function Range(n: nat): (r: seq<int>)
    ensures |r| == n && forall i :: 0 <= i < n ==> r[i] == i
  {
    if n == 0 then [] else Range(n - 1) + [n - 1]
  }

  /** The pair `(i, j)` gives an edge iff `i != j`; its weight comes from `matrix[i][j]`. */
  function MatrixWeight(matrix: seq<seq<real>>, weightOf: real -> int, i: int, j: int): Option<int> {
    if i != j && 0 <= i < |matrix| && 0 <= j < |matrix[i]| then Some(weightOf(matrix[i][j])) else None
  }

  function MatrixAdmit(matrix: seq<seq<real>>, weightOf: real -> int): (int, int) -> Option<int> {
    (i, j) => MatrixWeight(matrix, weightOf, i, j)
  }

  /** The edges `build_graph` adds for `n` currencies. */
  function MatrixEdges(n: nat, matrix: seq<seq<real>>, weightOf: real -> int): seq<Edge<int>> {
    PairEdges(Range(n), Range(n), MatrixAdmit(matrix, weightOf))
  }

  /** `matrix[i][j]` exists for every pair `i != j` below `n`, the pairs
      `build_graph` reads (row `i` is read up to column `n - 1`, or `n - 2`
      for the last row). */
  ghost predicate CoversSquare(matrix: seq<seq<real>>, n: nat) {
    n >= 2 ==> |matrix| >= n && forall i :: 0 <= i < n ==> |matrix[i]| >= (if i == n - 1 then n - 1 else n)
  }

  /** One step of `build_graph`'s inner loop: the pair `(i, j)` adds the
      edge `i -> j` weighted by `matrix[i][j]` unless `i == j`. */
  lemma MatrixStep(matrix: seq<seq<real>>, weightOf: real -> int, n: nat, i: nat, j: nat)
    requires CoversSquare(matrix, n) && i < n && j < n
    ensures RowEdges(i, Range(n)[..j + 1], MatrixAdmit(matrix, weightOf))
            == RowEdges(i, Range(n)[..j], MatrixAdmit(matrix, weightOf))
               + if i != j then [Edge(i, j, weightOf(matrix[i][j]))] else []
    ensures i != j ==> i < |matrix| && j < |matrix[i]|
  {
    RowSnoc(i, Range(n), j, MatrixAdmit(matrix, weightOf));
    assert MatrixAdmit(matrix, weightOf)(i, j) == MatrixWeight(matrix, weightOf, i, j);
  }

  /** One step of `build_graph`'s outer loop. */
  lemma MatrixRowDone(matrix: seq<seq<real>>, weightOf: real -> int, n: nat, i: nat)
    requires i < n
    ensures PairEdges(Range(n)[..i + 1], Range(n), MatrixAdmit(matrix, weightOf))
            == PairEdges(Range(n)[..i], Range(n), MatrixAdmit(matrix, weightOf))
               + RowEdges(i, Range(n), MatrixAdmit(matrix, weightOf))
  {
    PairSnoc(Range(n), Range(n), i, MatrixAdmit(matrix, weightOf));
    assert Range(n)[..n] == Range(n);
  }

  /** Before either loop has run, and after both, of `build_graph`. */
  lemma MatrixEnds(matrix: seq<seq<real>>, weightOf: real -> int, n: nat)
    ensures PairEdges(Range(n)[..0], Range(n), MatrixAdmit(matrix, weightOf)) == []
    ensures PairEdges(Range(n)[..n], Range(n), MatrixAdmit(matrix, weightOf)) == MatrixEdges(n, matrix, weightOf)
  {
    assert Range(n)[..0] == [];
    assert Range(n)[..n] == Range(n);
  }

  lemma {:induction false} MatrixRowCount(matrix: seq<seq<real>>, weightOf: real -> int, n: nat, i: nat, j: nat)
    requires CoversSquare(matrix, n) && i < n && j <= n
    ensures |RowEdges(i, Range(n)[..j], MatrixAdmit(matrix, weightOf))| == if i < j then j - 1 else j
    decreases j
  {
    if j > 0 {
      MatrixRowCount(matrix, weightOf, n, i, j - 1);
      MatrixStep(matrix, weightOf, n, i, j - 1);
    }
  }

  lemma {:induction false} MatrixPrefixCount(matrix: seq<seq<real>>, weightOf: real -> int, n: nat, i: nat)
    requires CoversSquare(matrix, n) && i <= n
    ensures |PairEdges(Range(n)[..i], Range(n), MatrixAdmit(matrix, weightOf))| == i * (n - 1)
    decreases i
  {
    if i > 0 {
      var R, admit := Range(n), MatrixAdmit(matrix, weightOf);
      var m: nat := n - 1;
      assert |PairEdges(R[..i - 1], R, admit)| == (i - 1) * m by {
        MatrixPrefixCount(matrix, weightOf, n, i - 1);
      }
      assert |RowEdges(i - 1, R, admit)| == m by {
        MatrixRowCount(matrix, weightOf, n, i - 1, n);
        assert R[..n] == R;
      }
      assert PairEdges(R[..i], R, admit) == PairEdges(R[..i - 1], R, admit) + RowEdges(i - 1, R, admit) by {
        PairSnoc(R, R, i - 1, admit);
      }
      assert (i - 1) * m + m == i * m;
    }
  }

  /** `build_graph` adds exactly `n * (n - 1)` edges, one for each ordered
      pair `i != j` of indices below `n`, weighted by `matrix[i][j]`, and
      no self-loop. */
  lemma MatrixEdgesExact(n: nat, matrix: seq<seq<real>>, weightOf: real -> int)
    requires CoversSquare(matrix, n)
    ensures |MatrixEdges(n, matrix, weightOf)| == n * (n - 1)
    ensures forall e :: e in MatrixEdges(n, matrix, weightOf) <==>
              0 <= e.start < n && 0 <= e.dest < n && e.start != e.dest && e.weight == weightOf(matrix[e.start][e.dest])
  {
    MatrixPrefixCount(matrix, weightOf, n, n);
    assert Range(n)[..n] == Range(n);
    forall e: Edge<int> ensures e in MatrixEdges(n, matrix, weightOf) <==>
        0 <= e.start < n && 0 <= e.dest < n && e.start != e.dest && e.weight == weightOf(matrix[e.start][e.dest]) {
      PairMember(Range(n), Range(n), MatrixAdmit(matrix, weightOf), e);
      if 0 <= e.start < n && 0 <= e.dest < n {
        assert Range(n)[e.start] == e.start && Range(n)[e.dest] == e.dest;
      }
    }
  }

  /** Edges come in row-major order: by start index, then by destination. */
  lemma MatrixEdgesRowMajor(n: nat, matrix: seq<seq<real>>, weightOf: real -> int)
    ensures var r := MatrixEdges(n, matrix, weightOf);
            forall p, q :: 0 <= p < q < |r| ==>
              r[p].start < r[q].start || (r[p].start == r[q].start && r[p].dest < r[q].dest)
  {
    var R := Range(n);
    var admit := MatrixAdmit(matrix, weightOf);
    PairOrdered(R, R, n, admit);
    assert R[..n] == R;
    var r := MatrixEdges(n, matrix, weightOf);
    forall p | 0 <= p < |r| ensures IndexOf(R, r[p].start) == r[p].start && IndexOf(R, r[p].dest) == r[p].dest {
      PairMember(R, R, admit, r[p]);
      IndexOfAt(R, r[p].start);
      IndexOfAt(R, r[p].dest);
    }
  }
}
