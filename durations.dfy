/** Statistics over step durations: the exact sum, the mean truncated to
    whole nanoseconds, and the 95% margin of error `2 * sqrt(variance) / n`,
    where the variance is the exact decimal sum of squared deviations from
    that mean. Also the millisecond rendering the serializers share. */
module Durations {
  import opened Wrappers
  import opened Strings
  import opened Messages
  import opened Decimals
  import opened UsageReport

  /** `Duration.ofNanos`: the normal form of a nanosecond count. */
  function OfNanos(n: int): (d: Duration)
    ensures d.Valid() && d.TotalNanos() == n
  {
    Duration(n / NanosPerSecond, n % NanosPerSecond)
  }

  /** A duration in normal form is fixed by its nanosecond count. */
  lemma OfNanosTotal(d: Duration)
    requires d.Valid()
    ensures OfNanos(d.TotalNanos()) == d
  {
    var n := d.TotalNanos();
    assert n == d.seconds * NanosPerSecond + d.nanos;
    DivModUnique(n, NanosPerSecond, d.seconds, d.nanos);
  }

  lemma DivModUnique(n: int, p: int, q: int, r: int)
    requires p > 0 && 0 <= r < p && n == q * p + r
    ensures n / p == q && n % p == r
  {
    var q', r' := n / p, n % p;
    assert n == q' * p + r' && 0 <= r' < p;
    var k := q - q';
    assert k * p == r' - r by { assert q * p - q' * p == k * p; }
  }

  /** `Duration.plus`: exact. */
  function Plus(a: Duration, b: Duration): (r: Duration)
    ensures r.Valid() && r.TotalNanos() == a.TotalNanos() + b.TotalNanos()
  {
    OfNanos(a.TotalNanos() + b.TotalNanos())
  }

  /** The exact total of the durations, in nanoseconds. */
  function SumNanos(ds: seq<Duration>): int
  {
    if |ds| == 0 then 0 else SumNanos(ds[..|ds| - 1]) + ds[|ds| - 1].TotalNanos()
  }

  predicate AllValid(ds: seq<Duration>)
  {
    forall i :: 0 <= i < |ds| ==> ds[i].Valid()
  }

  /** `durations.stream().reduce(Duration::plus)`: absent for no durations,
      otherwise their exact total. */
  function Reduce(ds: seq<Duration>): (r: Option<Duration>)
    ensures r.None? <==> |ds| == 0
    ensures r.Some? ==> r.value.TotalNanos() == SumNanos(ds)
    ensures r.Some? && AllValid(ds) ==> r.value.Valid()
  {
    if |ds| == 0 then None
    else if |ds| == 1 then
      assert ds[..0] == [];
      Some(ds[0])
    else Some(Plus(Reduce(ds[..|ds| - 1]).value, ds[|ds| - 1]))
  }

  /** Division truncating toward zero, as `BigDecimal.divide` with
      `RoundingMode.DOWN` does inside `Duration.dividedBy`. */
  function TruncDiv(a: int, n: int): (r: int)
    requires n > 0
    ensures a >= 0 ==> 0 <= r * n <= a < r * n + n
    ensures a < 0 ==> r * n - n < a <= r * n <= 0
  {
    var b: nat := if a >= 0 then a else -a;
    var q := b / n;
    QuotientBracket(b, n);
    MulSucc(q, n);
    if a >= 0 then q else
      assert (-q) * n == -(q * n);
      -q
  }

  /** `Duration.dividedBy(n)` for a positive `n`. */
  function DividedBy(d: Duration, n: int): (r: Duration)
    requires n > 0
    ensures r.Valid() && r.TotalNanos() == TruncDiv(d.TotalNanos(), n)
  {
    OfNanos(TruncDiv(d.TotalNanos(), n))
  }

  /** `toBigDecimalSeconds`: `valueOf(seconds).add(valueOf(nanos, 9))`, the
      duration in seconds at scale 9, which is its nanosecond count unscaled. */
  function ToBigDecimalSeconds(d: Duration): (r: Decimal)
    ensures r.scale == 9 && r.unscaled == d.TotalNanos()
  {
    assert Pow10(9) == NanosPerSecond;
    Add(Decimal(d.seconds, 0), Decimal(d.nanos, 9))
  }

  /** `(durationSeconds - meanSeconds)^2` for every duration. */
  function SquaredDeviations(ds: seq<Duration>, meanSeconds: Decimal): (r: seq<Decimal>)
    ensures |r| == |ds|
  {
    seq(|ds|, i requires 0 <= i < |ds| => Square(Subtract(ToBigDecimalSeconds(ds[i]), meanSeconds)))
  }

  /** `stream().reduce(BigDecimal::add)`. */
  function ReduceAdd(xs: seq<Decimal>): (r: Option<Decimal>)
    ensures r.None? <==> |xs| == 0
  {
    if |xs| == 0 then None
    else if |xs| == 1 then Some(xs[0])
    else Some(Add(ReduceAdd(xs[..|xs| - 1]).value, xs[|xs| - 1]))
  }

  /** The variance as `calculateMarginOfError95` computes it: the sum of the
      squared deviations from the given mean, or zero for no durations. */
  function Variance(ds: seq<Duration>, mean: Duration): Decimal
  {
    ReduceAdd(SquaredDeviations(ds, ToBigDecimalSeconds(mean))).GetOr(Decimal(0, 0))
  }

  /** The sum of squared deviations from `m`, in square nanoseconds. */
  function SumSquares(ds: seq<Duration>, m: int): (r: nat)
  {
    if |ds| == 0 then 0
    else
      var e := ds[|ds| - 1].TotalNanos() - m;
      SumSquares(ds[..|ds| - 1], m) + e * e
  }

  /** The variance is exact: at scale 18 (square seconds), its unscaled value is
      the sum of squared nanosecond deviations from the mean. */
  lemma {:induction false} VarianceExact(ds: seq<Duration>, mean: Duration)
    requires |ds| >= 1
    ensures Variance(ds, mean) == Decimal(SumSquares(ds, mean.TotalNanos()), 18)
  {
    ReduceAddSquares(ds, ToBigDecimalSeconds(mean));
  }

  lemma {:induction false} ReduceAddSquares(ds: seq<Duration>, meanSeconds: Decimal)
    requires |ds| >= 1 && meanSeconds.scale == 9
    ensures ReduceAdd(SquaredDeviations(ds, meanSeconds)) == Some(Decimal(SumSquares(ds, meanSeconds.unscaled), 18))
  {
    var xs := SquaredDeviations(ds, meanSeconds);
    var n := |ds|;
    var e := ds[n - 1].TotalNanos() - meanSeconds.unscaled;
    SameScale(ToBigDecimalSeconds(ds[n - 1]), meanSeconds);
    assert xs[n - 1] == Decimal(e * e, 18);
    if n == 1 {
      assert ds[..0] == [];
    } else {
      var prefix := ds[..n - 1];
      ReduceAddSquares(prefix, meanSeconds);
      assert xs[..n - 1] == SquaredDeviations(prefix, meanSeconds);
      var before := ReduceAdd(xs[..n - 1]).value;
      assert before == Decimal(SumSquares(prefix, meanSeconds.unscaled), 18);
      SameScale(before, xs[n - 1]);
      assert ReduceAdd(xs) == Some(Add(before, xs[n - 1]));
      assert SumSquares(ds, meanSeconds.unscaled) == SumSquares(prefix, meanSeconds.unscaled) + e * e;
    }
  }

  /** The integer square root. */
  function ISqrt(x: nat): (r: nat)
    ensures r * r <= x < (r + 1) * (r + 1)
  {
    if x == 0 then 0
    else
      var h := ISqrt(x / 4);
      ISqrtStep(x, h);
      if (2 * h + 1) * (2 * h + 1) <= x then 2 * h + 1 else 2 * h
  }

  /** The root of `x` is twice the root of `x / 4`, or one more. */
  lemma ISqrtStep(x: nat, h: nat)
    requires h * h <= x / 4 < (h + 1) * (h + 1)
    ensures (2 * h) * (2 * h) <= x < (2 * h + 1 + 1) * (2 * h + 1 + 1)
  {
    var q := x / 4;
    assert 4 * q <= x < 4 * q + 4;
    assert (2 * h) * (2 * h) == 4 * (h * h);
    assert (2 * h + 1 + 1) * (2 * h + 1 + 1) == 4 * ((h + 1) * (h + 1));
    assert q + 1 <= (h + 1) * (h + 1);
  }

  lemma SquareMonotonic(a: int, b: int)
    requires 0 <= a <= b
    ensures Sq(a) <= Sq(b)
  {
    assert a * a <= a * b <= b * b;
  }

  /** At most one `r` brackets `x` between consecutive squares. */
  lemma ISqrtUnique(x: nat, r: nat)
    requires r * r <= x < (r + 1) * (r + 1)
    ensures ISqrt(x) == r
  {
    BracketUnique(x, r, ISqrt(x));
  }

  lemma BracketUnique(x: nat, r: nat, s: nat)
    requires r * r <= x < (r + 1) * (r + 1)
    requires s * s <= x < (s + 1) * (s + 1)
    ensures r == s
  {
    if s < r {
      MulMonotonic(s + 1, r);
    } else if s > r {
      MulMonotonic(r + 1, s);
    }
  }

  lemma MulMonotonic(a: int, b: int)
    requires 0 <= a <= b
    ensures a * a <= b * b
  {
    assert a * a <= a * b <= b * b;
  }

  /** `m` is `sqrt(x) / n` cut to an integer: `m * n <= sqrt(x) < (m + 1) * n`. */
  predicate RootQuotientIs(x: int, n: int, m: int)
  {
    m >= 0 && Sq(m * n) <= x < Sq((m + 1) * n)
  }

  function Sq(a: int): int
  {
    a * a
  }

  lemma RootQuotient(x: nat, n: nat)
    requires n >= 1
    ensures RootQuotientIs(x, n, ISqrt(x) / n)
  {
    var s := ISqrt(x);
    var m := s / n;
    QuotientBracket(s, n);
    var lo: int, hi: int := m * n, (m + 1) * n;
    SquareMonotonic(lo, s);
    SquareMonotonic(s + 1, hi);
    assert Sq(s) <= x < Sq(s + 1);
  }

  lemma QuotientBracket(s: nat, n: nat)
    requires n >= 1
    ensures 0 <= (s / n) * n <= s < (s / n + 1) * n
  {
    var m := s / n;
    assert s == m * n + s % n && 0 <= s % n < n;
    assert (m + 1) * n == m * n + n;
  }

  /** `calculateMarginOfError95` in exact arithmetic: `2 * sqrt(variance) / n`
      seconds, cut to whole nanoseconds and split into seconds and nanos. */
  function MarginOfError95(ds: seq<Duration>, mean: Duration): (r: Duration)
    requires |ds| >= 1
    ensures r.Valid()
    ensures RootQuotientIs(4 * SumSquares(ds, mean.TotalNanos()), |ds|, r.TotalNanos())
  {
    VarianceExact(ds, mean);
    var u: nat := SumSquares(ds, mean.TotalNanos());
    assert Variance(ds, mean).unscaled == u;
    var n := |ds|;
    var m := ISqrt(4 * u) / n;
    RootQuotient(4 * u, n);
    var r := OfNanos(m);
    assert r.TotalNanos() == m;
    r
  }

  /** `Durations.createStatistics`: nothing for no durations, otherwise the
      exact sum, the truncated mean and the margin of error around that mean. */
  function CreateStatistics(ds: seq<Duration>): (r: Option<Statistics>)
    ensures r.None? <==> |ds| == 0
    ensures r.Some? && AllValid(ds) ==> r.value.sum.Valid()
    ensures r.Some? ==>
      && r.value.sum.TotalNanos() == SumNanos(ds)
      && r.value.mean.Valid()
      && r.value.mean.TotalNanos() == TruncDiv(SumNanos(ds), |ds|)
      && r.value.moe95 == MarginOfError95(ds, r.value.mean)
  {
    if |ds| == 0 then None
    else
      var sum := Reduce(ds).GetOr(Zero);
      var mean := DividedBy(sum, |ds|);
      Some(Statistics(sum, mean, MarginOfError95(ds, mean)))
  }

  /** The duration in whole milliseconds, rounded half-even as
      `setScale(3, HALF_EVEN)` rounds: the nearest count, and the even one on
      a tie. */
  function Millis(d: Duration): (r: int)
    ensures var diff := d.TotalNanos() - r * 1_000_000;
      && -1_000_000 <= 2 * diff <= 1_000_000
      && (2 * diff == 1_000_000 || 2 * diff == -1_000_000 ==> r % 2 == 0)
  {
    assert Pow10(9 - 3) == 1_000_000;
    SetScaleHalfEven(ToBigDecimalSeconds(d), 3).unscaled
  }

  /** `formatDuration`: the seconds to three decimals, rounded half-even,
      written out plainly and followed by "s". */
  function FormatDuration(d: Duration): (r: string)
  {
    ToPlainString(SetScaleHalfEven(ToBigDecimalSeconds(d), 3)) + "s"
  }

  /** A cell written by `formatDuration`: reads back as `d`'s milliseconds. */
  predicate ShowsMillis(cell: string, d: Duration)
  {
    |cell| >= 2 && cell[|cell| - 1] == 's' && ParsePlain(cell[..|cell| - 1], 3) == Some(Millis(d))
  }

  /** Reading a formatted duration back, without its "s", gives the rounded
      millisecond count. */
  lemma FormatDurationReadsBack(d: Duration)
    ensures ShowsMillis(FormatDuration(d), d)
  {
    var rounded := SetScaleHalfEven(ToBigDecimalSeconds(d), 3);
    var plain := ToPlainString(rounded);
    ToPlainStringRoundTrip(rounded);
    ToPlainStringNonEmpty(rounded);
    assert (plain + "s")[..|plain|] == plain;
  }

  /** The margin of error is fixed by its bracket: no other whole number of
      nanoseconds satisfies it. */
  lemma RootQuotientUnique(x: int, n: int, m1: int, m2: int)
    requires n >= 1 && RootQuotientIs(x, n, m1) && RootQuotientIs(x, n, m2)
    ensures m1 == m2
  {
    if m1 < m2 {
      SquareMonotonic((m1 + 1) * n, m2 * n);
    } else if m2 < m1 {
      SquareMonotonic((m2 + 1) * n, m1 * n);
    }
  }

  function Seconds(s: int): Duration
  {
    Duration(s, 0)
  }

  /** 1s, 1s, 2s and 4s: the sum is 8s, the mean 2s and the margin of error
      1.224744871s. */
  lemma StatisticsOfEvenCount(ds: seq<Duration>)
    requires ds == [Seconds(1), Seconds(1), Seconds(2), Seconds(4)]
    ensures CreateStatistics(ds) == Some(Statistics(Duration(8, 0), Duration(2, 0), Duration(1, 224744871)))
  {
    var st := CreateStatistics(ds).value;
    EvenCountTotals(ds);
    Known(st.sum, Duration(8, 0));
    Known(st.mean, Duration(2, 0));
    EvenCountBracket();
    RootQuotientUnique(24_000_000_000_000_000_000, 4, st.moe95.TotalNanos(), 1_224_744_871);
    Known(st.moe95, Duration(1, 224744871));
  }

  lemma EvenCountTotals(ds: seq<Duration>)
    requires ds == [Seconds(1), Seconds(1), Seconds(2), Seconds(4)]
    ensures SumNanos(ds) == 8_000_000_000
    ensures SumSquares(ds, 2_000_000_000) == 6_000_000_000_000_000_000
  {
    var d1, d2, d4 := Seconds(1), Seconds(2), Seconds(4);
    var m := 2_000_000_000;
    Snoc([], d1, m);
    Snoc([d1], d1, m);
    Snoc([d1, d1], d2, m);
    Snoc([d1, d1, d2], d4, m);
    assert [] + [d1] == [d1] && [d1] + [d1] == [d1, d1];
    assert [d1, d1] + [d2] == [d1, d1, d2] && [d1, d1, d2] + [d4] == ds;
  }

  lemma EvenCountBracket()
    ensures RootQuotientIs(24_000_000_000_000_000_000, 4, 1_224_744_871)
  {
    assert Sq(1_224_744_871 * 4) == 23_999_999_984_652_906_256;
    assert Sq(1_224_744_872 * 4) == 24_000_000_023_844_742_144;
  }

  /** 1s, 2s and 4s: the sum is 7s, the mean is cut to 2.333333333s and the
      margin of error is 1.440164599s. */
  lemma StatisticsOfOddCount(ds: seq<Duration>)
    requires ds == [Seconds(1), Seconds(2), Seconds(4)]
    ensures CreateStatistics(ds) == Some(Statistics(Duration(7, 0), Duration(2, 333333333), Duration(1, 440164599)))
  {
    var st := CreateStatistics(ds).value;
    OddCountTotals(ds);
    Known(st.sum, Duration(7, 0));
    Known(st.mean, Duration(2, 333333333));
    OddCountBracket();
    RootQuotientUnique(18_666_666_666_666_666_668, 3, st.moe95.TotalNanos(), 1_440_164_599);
    Known(st.moe95, Duration(1, 440164599));
  }

  lemma OddCountTotals(ds: seq<Duration>)
    requires ds == [Seconds(1), Seconds(2), Seconds(4)]
    ensures SumNanos(ds) == 7_000_000_000
    ensures SumSquares(ds, 2_333_333_333) == 4_666_666_666_666_666_667
  {
    var d1, d2, d4 := Seconds(1), Seconds(2), Seconds(4);
    var m := 2_333_333_333;
    Snoc([], d1, m);
    Snoc([d1], d2, m);
    Snoc([d1, d2], d4, m);
    assert [] + [d1] == [d1] && [d1] + [d2] == [d1, d2] && [d1, d2] + [d4] == ds;
  }

  lemma OddCountBracket()
    ensures RootQuotientIs(18_666_666_666_666_666_668, 3, 1_440_164_599)
  {
    assert Sq(1_440_164_599 * 3) == 18_666_666_649_915_477_209;
    assert Sq(1_440_164_600 * 3) == 18_666_666_675_838_440_000;
  }

  /** Two normal-form durations with the same nanosecond count are equal. */
  lemma Known(d: Duration, e: Duration)
    requires d.Valid() && e.Valid() && d.TotalNanos() == e.TotalNanos()
    ensures d == e
  {
    OfNanosTotal(d);
    OfNanosTotal(e);
  }

  lemma Snoc(ds: seq<Duration>, d: Duration, m: int)
    ensures SumNanos(ds + [d]) == SumNanos(ds) + d.TotalNanos()
    ensures SumSquares(ds + [d], m) == SumSquares(ds, m) + (d.TotalNanos() - m) * (d.TotalNanos() - m)
  {
    assert (ds + [d])[..|ds|] == ds;
  }
}
