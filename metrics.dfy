/** The metric engine: momentum return and RSL (price over its simple moving
    average), each computed from one chronologically ordered close-price series.
    A NaN result is `None`. */
module Metrics {
  import opened Wrappers

  const MOM_12M: nat := 252
  const MOM_6M: nat := 126
  const MOM_3M: nat := 63
  const MOM_SKIP: nat := 21
  const RSL_PERIOD: nat := 130

  /** Sum of a series, accumulated front to back. */
  function Sum(s: seq<real>): real
  {
    if s == [] then 0.0 else Sum(s[..|s| - 1]) + s[|s| - 1]
  }

  /** Simple mean of a non-empty series. */
  function Mean(s: seq<real>): real
    requires |s| > 0
  {
    Sum(s) / |s| as real
  }

  /** The last `n` closes of a series. */
  function Tail(prices: seq<real>, n: nat): seq<real>
    requires n <= |prices|
  {
    prices[|prices| - n..]
  }

  /** Percentage change from the close `lookback + skip` sessions back to the
      close `skip` sessions back; undefined for a series that is too short or
      whose start price is not positive. */
  function MomentumReturn(prices: seq<real>, lookback: nat, skip: nat): Option<real>
    requires skip >= 1
  {
    if |prices| < lookback + skip then None
    else
      var pStart := prices[|prices| - (lookback + skip)];
      var pEnd := prices[|prices| - skip];
      if pStart <= 0.0 then None
      else Some((pEnd / pStart - 1.0) * 100.0)
  }

  /** Latest close divided by the mean of the last `period` closes; undefined
      for a series shorter than `period` or a non-positive mean. */
  function RslScore(prices: seq<real>, period: nat): Option<real>
    requires period >= 1
  {
    if |prices| < period then None
    else
      var current := prices[|prices| - 1];
      var sma := Mean(Tail(prices, period));
      if sma <= 0.0 then None
      else Some(current / sma)
  }

  /** Every close multiplied by the positive factor `c` (a currency change or
      a uniform price adjustment). */
  function Scale(prices: seq<real>, c: real): (r: seq<real>)
    ensures |r| == |prices|
    ensures forall i :: 0 <= i < |prices| ==> r[i] == c * prices[i]
  {
    seq(|prices|, i requires 0 <= i < |prices| => c * prices[i])
  }

  // ---------------------------------------------------------------------------
  // Momentum return

  /** Momentum is undefined exactly when the series is shorter than
      `lookback + skip` or the start close is not positive; otherwise it is the
      percentage change from the start close to the end close. */
  lemma MomentumDefinedIff(prices: seq<real>, lookback: nat, skip: nat)
    requires skip >= 1
    ensures MomentumReturn(prices, lookback, skip).None? <==>
              |prices| < lookback + skip || prices[|prices| - (lookback + skip)] <= 0.0
    ensures MomentumReturn(prices, lookback, skip).Some? ==>
              var pStart := prices[|prices| - (lookback + skip)];
              var pEnd := prices[|prices| - skip];
              MomentumReturn(prices, lookback, skip).value * pStart == (pEnd - pStart) * 100.0
  {
  }

  /** The sign of a defined momentum is the direction of the price move, and a
      non-negative end price can lose at most 100 percent. */
  lemma MomentumSign(prices: seq<real>, lookback: nat, skip: nat)
    requires skip >= 1
    requires MomentumReturn(prices, lookback, skip).Some?
    ensures var m := MomentumReturn(prices, lookback, skip).value;
            var pStart := prices[|prices| - (lookback + skip)];
            var pEnd := prices[|prices| - skip];
            && (m > 0.0 <==> pEnd > pStart)
            && (m == 0.0 <==> pEnd == pStart)
            && (pEnd >= 0.0 ==> m >= -100.0)
  {
  }

  /** Only the closes of the last `lookback + skip` sessions matter: older
      history in front of the series does not change the momentum. */
  lemma MomentumWindowLocal(older: seq<real>, prices: seq<real>, lookback: nat, skip: nat)
    requires skip >= 1
    requires |prices| >= lookback + skip
    ensures MomentumReturn(older + prices, lookback, skip) == MomentumReturn(prices, lookback, skip)
  {
  }

  /** Momentum is a ratio of closes, so rescaling every close by a positive
      factor leaves it unchanged. */
  lemma MomentumScaleInvariant(prices: seq<real>, c: real, lookback: nat, skip: nat)
    requires skip >= 1
    requires c > 0.0
    ensures MomentumReturn(Scale(prices, c), lookback, skip) == MomentumReturn(prices, lookback, skip)
  {
    if |prices| >= lookback + skip {
      var sp := Scale(prices, c);
      var pStart := prices[|prices| - (lookback + skip)];
      var pEnd := prices[|prices| - skip];
      assert sp[|sp| - (lookback + skip)] == c * pStart;
      assert sp[|sp| - skip] == c * pEnd;
      ScaledSign(c, pStart);
      if pStart > 0.0 {
        CancelFactor(c, pEnd, pStart);
      }
    }
  }

  // ---------------------------------------------------------------------------
  // RSL

  /** RSL is undefined exactly when the series is shorter than `period` or the
      mean of the last `period` closes is not positive; otherwise it is the
      number that, multiplied by that mean, gives the latest close. */
  lemma RslDefinedIff(prices: seq<real>, period: nat)
    requires period >= 1
    ensures RslScore(prices, period).None? <==>
              |prices| < period || Mean(Tail(prices, period)) <= 0.0
    ensures RslScore(prices, period).Some? ==>
              RslScore(prices, period).value * Mean(Tail(prices, period)) == prices[|prices| - 1]
  {
  }

  /** The trend gate `rsl >= 1` holds exactly when the latest close is at or
      above its moving average. */
  lemma RslAtLeastOneIff(prices: seq<real>, period: nat)
    requires period >= 1
    requires RslScore(prices, period).Some?
    ensures RslScore(prices, period).value >= 1.0 <==>
              prices[|prices| - 1] >= Mean(Tail(prices, period))
  {
    QuotientVersusOne(prices[|prices| - 1], Mean(Tail(prices, period)));
  }

  /** A flat series sits exactly on its moving average. */
  lemma RslOfFlatSeries(prices: seq<real>, period: nat, c: real)
    requires period >= 1
    requires c > 0.0
    requires forall i :: 0 <= i < |prices| ==> prices[i] == c
    requires |prices| >= period
    ensures RslScore(prices, period) == Some(1.0)
  {
    var w := Tail(prices, period);
    assert forall i :: 0 <= i < |w| ==> w[i] == prices[|prices| - period + i];
    SumOfConstant(w, c);
    assert Mean(w) == c;
    assert prices[|prices| - 1] == c;
    QuotientVersusOne(c, c);
  }

  /** RSL is a ratio of closes, so rescaling every close by a positive factor
      leaves it unchanged. */
  lemma RslScaleInvariant(prices: seq<real>, c: real, period: nat)
    requires period >= 1
    requires c > 0.0
    ensures RslScore(Scale(prices, c), period) == RslScore(prices, period)
  {
    if |prices| >= period {
      var sp, w := Scale(prices, c), Tail(prices, period);
      var last, m := prices[|prices| - 1], Mean(w);
      TailOfScale(prices, c, period);
      MeanOfScale(w, c);
      var sma := Mean(Tail(sp, period));
      assert sma == c * m;
      ScaledSign(c, m);
      assert |sp| >= period && sp[|sp| - 1] == c * last;
      if m > 0.0 {
        CancelFactor(c, last, m);
        assert RslScore(sp, period) == Some((c * last) / sma);
      }
    }
  }

  // ---------------------------------------------------------------------------
  // Arithmetic helpers

  lemma QuotientVersusOne(a: real, b: real)
    requires b > 0.0
    ensures a / b > 1.0 <==> a > b
    ensures a / b == 1.0 <==> a == b
    ensures a / b >= 1.0 <==> a >= b
  {
    var q := a / b;
    assert q * b == a;
    if q > 1.0 { assert q * b > 1.0 * b; }
    if a > b { assert q * b > 1.0 * b; }
    if a >= b { assert q * b >= 1.0 * b; }
    if q >= 1.0 { assert q * b >= 1.0 * b; }
  }

  lemma ScaledSign(c: real, x: real)
    requires c > 0.0
    ensures c * x > 0.0 <==> x > 0.0
  {
    if x > 0.0 { assert c * x > c * 0.0; }
    if x <= 0.0 { assert c * x <= c * 0.0; }
  }

  lemma CancelFactor(c: real, a: real, b: real)
    requires c > 0.0 && b > 0.0
    ensures (c * a) / (c * b) == a / b
  {
    var q := a / b;
    assert q * b == a;
    assert (c * b) * q == c * a;
  }

  lemma {:induction false} SumOfConstant(s: seq<real>, c: real)
    requires forall i :: 0 <= i < |s| ==> s[i] == c
    ensures Sum(s) == |s| as real * c
  {
    if s != [] {
      SumOfConstant(s[..|s| - 1], c);
    }
  }

  lemma TailOfScale(prices: seq<real>, c: real, n: nat)
    requires n <= |prices|
    ensures Tail(Scale(prices, c), n) == Scale(Tail(prices, n), c)
  {
    var lhs, rhs := Tail(Scale(prices, c), n), Scale(Tail(prices, n), c);
    assert |lhs| == |rhs|;
    forall i | 0 <= i < |lhs| ensures lhs[i] == rhs[i] { }
  }

  lemma MeanOfScale(w: seq<real>, c: real)
    requires |w| > 0
    ensures Mean(Scale(w, c)) == c * Mean(w)
  {
    var sw, n := Scale(w, c), |w| as real;
    assert |sw| == |w|;
    SumOfScale(w, c);
    MeanTimesCount(w);
    MeanTimesCount(sw);
    assert Mean(sw) * n == c * (Mean(w) * n);
    CancelCount(Mean(sw), c * Mean(w), n);
  }

  /** The mean times the number of closes is the sum. */
  lemma MeanTimesCount(s: seq<real>)
    requires |s| > 0
    ensures Mean(s) * (|s| as real) == Sum(s)
  {
    QuotientTimesDivisor(Sum(s), |s| as real);
  }

  lemma QuotientTimesDivisor(a: real, n: real)
    requires n > 0.0
    ensures (a / n) * n == a
  {
  }

  lemma CancelCount(x: real, y: real, n: real)
    requires n > 0.0
    requires x * n == y * n
    ensures x == y
  {
    assert (x - y) * n == 0.0;
  }

  lemma {:induction false} SumOfScale(s: seq<real>, c: real)
    ensures Sum(Scale(s, c)) == c * Sum(s)
  {
    if s != [] {
      var t := Scale(s, c);
      var front, scaledFront := t[..|t| - 1], Scale(s[..|s| - 1], c);
      assert front == scaledFront by {
        assert |front| == |scaledFront|;
        forall i | 0 <= i < |front| ensures front[i] == scaledFront[i] { }
      }
      SumOfScale(s[..|s| - 1], c);
    }
  }
}
