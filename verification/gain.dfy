/** The gain product of a detected cycle: start at 1 and multiply the
    table rate of each consecutive pair of the cycle, left to right,
    skipping pairs the table has no rate for
    (`rates.get(a, {}).get(b, 'N/A')`). */
module Gain {
  import opened Options

  /** A rate table: `rates[a][b]` is the rate for converting `a` into `b`. */
  type RateTable<N> = map<N, map<N, real>>

  /** The table lookup with both levels optional. */
  function RateOf<N>(rates: RateTable<N>, a: N, b: N): (r: Option<real>)
    ensures r.Some? <==> a in rates && b in rates[a]
    ensures r.Some? ==> r.value == rates[a][b]
  {
    if a in rates && b in rates[a] then Some(rates[a][b]) else None
  }

  /** What one pair contributes: its rate, or nothing (factor 1) if absent. */
  function Factor<N>(rates: RateTable<N>, a: N, b: N): real {
    match RateOf(rates, a, b)
    case Some(r) => r
    case None => 1.0
  }

  /** The running gain: starting from `g`, multiply by the factor of each
      consecutive pair of `c`, first pair first. */
  function GainFrom<N>(rates: RateTable<N>, g: real, c: seq<N>): real
    decreases |c|
  {
    if |c| < 2 then g else GainFrom(rates, g * Factor(rates, c[0], c[1]), c[1..])
  }

  /** The gain product of `c`. */
  function Product<N>(rates: RateTable<N>, c: seq<N>): real {
    GainFrom(rates, 1.0, c)
  }

  /** The gain-product loop of find_arbitrage_and_shortest_path. */
  method GainProduct<N>(rates: RateTable<N>, cycle: seq<N>) returns (gain: real)
    ensures gain == Product(rates, cycle)
  {
    gain := 1.0;
    if |cycle| < 2 {
      return;
    }
    var i := 0;
    while i < |cycle| - 1
      invariant 0 <= i <= |cycle| - 1
      invariant GainFrom(rates, gain, cycle[i..]) == Product(rates, cycle)
    {
      assert cycle[i..][1..] == cycle[i + 1..];
      var rate := RateOf(rates, cycle[i], cycle[i + 1]);
      if rate.Some? {
        gain := gain * rate.value;
      } else {
        assert gain * Factor(rates, cycle[i], cycle[i + 1]) == gain;
      }
      i := i + 1;
    }
  }

  /** One step of the running gain. */
  lemma GainStep<N>(rates: RateTable<N>, g: real, c: seq<N>)
    requires |c| >= 2
    ensures GainFrom(rates, g, c) == GainFrom(rates, g * Factor(rates, c[0], c[1]), c[1..])
  {
  }

  /** Two walks glued at a shared node: running the gain over `a`
      followed by `b` (whose first node is `a`'s last) is running it over
      `a` and then over `b`. */
  lemma {:induction false} GainJoin<N>(rates: RateTable<N>, g: real, a: seq<N>, b: seq<N>)
    requires |a| >= 1 && |b| >= 1 && a[|a| - 1] == b[0]
    ensures GainFrom(rates, g, a + b[1..]) == GainFrom(rates, GainFrom(rates, g, a), b)
    decreases |a|
  {
    if |a| == 1 {
      assert a + b[1..] == b;
    } else {
      GainJoin(rates, g * Factor(rates, a[0], a[1]), a[1..], b);
      GainStep(rates, g, a);
      GainStep(rates, g, a + b[1..]);
      assert (a + b[1..])[1..] == a[1..] + b[1..];
      assert (a + b[1..])[0] == a[0] && (a + b[1..])[1] == a[1];
      var h := g * Factor(rates, a[0], a[1]);
      assert GainFrom(rates, g, a + b[1..]) == GainFrom(rates, h, a[1..] + b[1..]);
      assert GainFrom(rates, g, a) == GainFrom(rates, h, a[1..]);
    }
  }

  /** Pairs without a rate are skipped: when none of the pairs of `c` is
      in the table, the running gain stays where it started. */
  lemma {:induction false} GainAllMissing<N>(rates: RateTable<N>, g: real, c: seq<N>)
    requires forall i :: 0 <= i < |c| - 1 ==> RateOf(rates, c[i], c[i + 1]).None?
    ensures GainFrom(rates, g, c) == g
    decreases |c|
  {
    if |c| >= 2 {
      assert RateOf(rates, c[0], c[1]).None?;
      GainStep(rates, g, c);
      GainAllMissing(rates, g * Factor(rates, c[0], c[1]), c[1..]);
    }
  }

  /** A product of positive reals is positive. */
  lemma PositiveProduct(g: real, f: real)
    requires g > 0.0 && f > 0.0
    ensures g * f > 0.0
  {
  }

  /** With positive rates the running gain from a positive start stays
      positive. */
  lemma {:induction false} GainPositive<N>(rates: RateTable<N>, g: real, c: seq<N>)
    requires g > 0.0
    requires forall a, b :: a in rates && b in rates[a] ==> rates[a][b] > 0.0
    ensures GainFrom(rates, g, c) > 0.0
    decreases |c|
  {
    if |c| >= 2 {
      if c[0] in rates && c[1] in rates[c[0]] {
        assert Factor(rates, c[0], c[1]) == rates[c[0]][c[1]];
      }
      PositiveProduct(g, Factor(rates, c[0], c[1]));
      GainStep(rates, g, c);
      GainPositive(rates, g * Factor(rates, c[0], c[1]), c[1..]);
    }
  }
}
