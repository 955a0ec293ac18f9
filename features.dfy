/**
 * Feature engineering (`add_features`): log return, 30-row realised
 * volatility and 50-row simple moving average of the market proxy's close,
 * assigned into the caller's frame, then the warm-up rows dropped.
 */
module Features {
  import opened Wrappers
  import opened Tables

  const PRICE := "SPY_Close"
  const LOG_RET := "SPY_Log_Ret"
  const VOL := "SPY_Vol_30d"
  const SMA := "SPY_SMA_50"
  const VOL_WINDOW: nat := 30
  const SMA_WINDOW: nat := 50
  /** Trading days per year, the annualisation factor under the square root. */
  const TRADING_DAYS: real := 252.0

  /**
   * The floating-point primitives, left abstract: `logRatio(a, b)` stands for
   * `np.log(a / b)` and `sqrt` for `np.sqrt`.
   */
  datatype Numerics = Numerics(logRatio: (real, real) -> real, sqrt: real -> real)

  // ---------------------------------------------------------------------------
  // Exact arithmetic over windows

  /** The exact sum of `xs`. */
  function Sum(xs: seq<real>): (s: real) {
    if |xs| == 0 then 0.0 else xs[0] + Sum(xs[1..])
  }

  /** The exact arithmetic mean of `xs`. */
  function Mean(xs: seq<real>): (m: real)
    requires |xs| > 0
  {
    Sum(xs) / |xs| as real
  }

  /** The sum of squared deviations of `xs` from `m`. */
  function SquaredDeviations(xs: seq<real>, m: real): (s: real)
    ensures s >= 0.0
  {
    if |xs| == 0 then 0.0
    else
      var d := xs[0] - m;
      assert d * d >= 0.0;
      d * d + SquaredDeviations(xs[1..], m)
  }

  /** The sample variance (one degree of freedom removed), as pandas' `std` squares it. */
  function SampleVariance(xs: seq<real>): (v: real)
    requires |xs| >= 2
    ensures v >= 0.0
  {
    SquaredDeviations(xs, Mean(xs)) / (|xs| - 1) as real
  }

  // ---------------------------------------------------------------------------
  // The three derived series

  /**
   * `np.log(p / p.shift(1))`: present from row 1 on wherever today's and
   * yesterday's price are both present.
   */
  function LogReturns(num: Numerics, p: seq<Cell>): (r: seq<Cell>)
    ensures |r| == |p|
    ensures forall t :: 0 <= t < |p| ==>
              (r[t].Some? <==> 1 <= t && p[t].Some? && p[t - 1].Some?)
    ensures forall t :: 1 <= t < |p| && r[t].Some? ==>
              p[t].Some? && p[t - 1].Some? && r[t].value == num.logRatio(p[t].value, p[t - 1].value)
  {
    seq(|p|, t requires 0 <= t < |p| =>
      if 1 <= t && p[t].Some? && p[t - 1].Some? then Some(num.logRatio(p[t].value, p[t - 1].value))
      else None)
  }

  /** The values of `cs` when none is missing. */
  function Present(cs: seq<Cell>): (r: Option<seq<real>>)
    ensures r.Some? <==> forall k :: 0 <= k < |cs| ==> cs[k].Some?
    ensures r.Some? ==> |r.value| == |cs| && forall k :: 0 <= k < |cs| ==> cs[k] == Some(r.value[k])
  {
    if forall k :: 0 <= k < |cs| ==> cs[k].Some? then
      Some(seq(|cs|, k requires 0 <= k < |cs| => cs[k].value))
    else None
  }

  /**
   * The trailing window of `w` values ending at row `t`, when the window fits
   * and every value in it is present (pandas' `rolling(window=w)` with its
   * default `min_periods=w`).
   */
  function Window(xs: seq<Cell>, t: nat, w: nat): (r: Option<seq<real>>)
    requires t < |xs|
    ensures r.Some? <==> w <= t + 1 && forall k :: t + 1 - w <= k <= t ==> xs[k].Some?
    ensures r.Some? ==> |r.value| == w && forall k :: 0 <= k < w ==> xs[t + 1 - w + k] == Some(r.value[k])
  {
    if w <= t + 1 then
      var cs := xs[t + 1 - w..t + 1];
      assert forall k :: 0 <= k < w ==> cs[k] == xs[t + 1 - w + k];
      Present(cs)
    else None
  }

  /** `lr.rolling(window=30).std() * np.sqrt(252)`. */
  function RollingVol(num: Numerics, lr: seq<Cell>): (r: seq<Cell>)
    ensures |r| == |lr|
    ensures forall t :: 0 <= t < |lr| ==> (r[t].Some? <==> Window(lr, t, VOL_WINDOW).Some?)
    ensures forall t :: 0 <= t < |lr| && r[t].Some? ==>
              r[t].value == num.sqrt(SampleVariance(Window(lr, t, VOL_WINDOW).value)) * num.sqrt(TRADING_DAYS)
  {
    seq(|lr|, t requires 0 <= t < |lr| =>
      match Window(lr, t, VOL_WINDOW)
      case None => None
      case Some(ws) => Some(num.sqrt(SampleVariance(ws)) * num.sqrt(TRADING_DAYS)))
  }

  /** `p.rolling(window=w).mean()`. */
  function RollingMean(p: seq<Cell>, w: nat): (r: seq<Cell>)
    requires w > 0
    ensures |r| == |p|
    ensures forall t :: 0 <= t < |p| ==> (r[t].Some? <==> Window(p, t, w).Some?)
    ensures forall t :: 0 <= t < |p| && r[t].Some? ==> r[t].value == Mean(Window(p, t, w).value)
  {
    seq(|p|, t requires 0 <= t < |p| =>
      match Window(p, t, w)
      case None => None
      case Some(ws) => Some(Mean(ws)))
  }

  // ---------------------------------------------------------------------------
  // Properties of the series

  /** On a gap-free price column the log return is missing only at row 0. */
  lemma LogReturnWarmUp(num: Numerics, p: seq<Cell>, t: nat)
    requires forall k :: 0 <= k < |p| ==> p[k].Some?
    requires t < |p|
    ensures LogReturns(num, p)[t].Some? <==> 1 <= t
  {
  }

  /** On a gap-free price column the volatility is missing exactly in rows 0..29. */
  lemma VolatilityWarmUp(num: Numerics, p: seq<Cell>, t: nat)
    requires forall k :: 0 <= k < |p| ==> p[k].Some?
    requires t < |p|
    ensures RollingVol(num, LogReturns(num, p))[t].Some? <==> VOL_WINDOW <= t
  {
    var lr := LogReturns(num, p);
    if VOL_WINDOW <= t {
      assert forall k :: t + 1 - VOL_WINDOW <= k <= t ==> lr[k].Some?;
      assert Window(lr, t, VOL_WINDOW).Some?;
    } else if VOL_WINDOW <= t + 1 {
      assert lr[t + 1 - VOL_WINDOW].None?;
      assert Window(lr, t, VOL_WINDOW).None?;
    }
  }

  /**
   * On a gap-free price column the moving average is missing exactly in rows
   * 0..48, and from row 49 on it is the mean of the 50 prices ending there.
   */
  lemma MovingAverageWarmUp(p: seq<Cell>, t: nat)
    requires forall k :: 0 <= k < |p| ==> p[k].Some?
    requires t < |p|
    ensures RollingMean(p, SMA_WINDOW)[t].Some? <==> SMA_WINDOW - 1 <= t
    ensures SMA_WINDOW - 1 <= t ==>
              RollingMean(p, SMA_WINDOW)[t] ==
                Some(Sum(seq(SMA_WINDOW, k requires 0 <= k < SMA_WINDOW => p[t + 1 - SMA_WINDOW + k].value)) / 50.0)
  {
    if SMA_WINDOW - 1 <= t {
      var ws := Window(p, t, SMA_WINDOW).value;
      assert ws == seq(SMA_WINDOW, k requires 0 <= k < SMA_WINDOW => p[t + 1 - SMA_WINDOW + k].value);
    }
  }

  /** Annualised volatility is never negative when the square root is not. */
  lemma VolatilityNonNegative(num: Numerics, lr: seq<Cell>, t: nat)
    requires forall x: real :: x >= 0.0 ==> num.sqrt(x) >= 0.0
    requires t < |lr|
    ensures RollingVol(num, lr)[t].Some? ==> RollingVol(num, lr)[t].value >= 0.0
  {
    if Window(lr, t, VOL_WINDOW).Some? {
      var ws := Window(lr, t, VOL_WINDOW).value;
      var a, b := num.sqrt(SampleVariance(ws)), num.sqrt(TRADING_DAYS);
      assert a >= 0.0 && b >= 0.0;
      assert a * b >= 0.0;
    }
  }

  /**
   * No look-ahead: a window ending at row `t` is fixed by the values up to
   * row `t`.
   */
  lemma WindowCausal(xs: seq<Cell>, ys: seq<Cell>, t: nat, w: nat)
    requires t < |xs| && t < |ys| && xs[..t + 1] == ys[..t + 1]
    ensures Window(xs, t, w) == Window(ys, t, w)
  {
    if w <= t + 1 {
      assert xs[t + 1 - w..t + 1] == xs[..t + 1][t + 1 - w..];
      assert ys[t + 1 - w..t + 1] == ys[..t + 1][t + 1 - w..];
    }
  }

  /** No look-ahead for the log return: its first `t + 1` values follow from the first `t + 1` prices. */
  lemma LogReturnsCausal(num: Numerics, p: seq<Cell>, q: seq<Cell>, t: nat)
    requires t < |p| && t < |q| && p[..t + 1] == q[..t + 1]
    ensures LogReturns(num, p)[..t + 1] == LogReturns(num, q)[..t + 1]
  {
    var lp, lq := LogReturns(num, p), LogReturns(num, q);
    forall k | 0 <= k <= t ensures lp[k] == lq[k] {
      assert p[k] == p[..t + 1][k] == q[k];
      if 1 <= k {
        assert p[k - 1] == p[..t + 1][k - 1] == q[k - 1];
      }
    }
  }

  lemma VolatilityCausal(num: Numerics, xs: seq<Cell>, ys: seq<Cell>, t: nat)
    requires t < |xs| && t < |ys| && xs[..t + 1] == ys[..t + 1]
    ensures RollingVol(num, xs)[t] == RollingVol(num, ys)[t]
  {
    WindowCausal(xs, ys, t, VOL_WINDOW);
    var r, q := RollingVol(num, xs), RollingVol(num, ys);
    assert r[t].Some? <==> q[t].Some?;
    if r[t].Some? {
      assert r[t].value == q[t].value;
    }
  }

  lemma MovingAverageCausal(xs: seq<Cell>, ys: seq<Cell>, t: nat)
    requires t < |xs| && t < |ys| && xs[..t + 1] == ys[..t + 1]
    ensures RollingMean(xs, SMA_WINDOW)[t] == RollingMean(ys, SMA_WINDOW)[t]
  {
    WindowCausal(xs, ys, t, SMA_WINDOW);
  }

  /**
   * No look-ahead: the three features at row `t` depend only on the prices
   * up to row `t`.
   */
  lemma {:induction false} FeaturesCausal(num: Numerics, p: seq<Cell>, q: seq<Cell>, t: nat)
    requires t < |p| && t < |q| && p[..t + 1] == q[..t + 1]
    ensures LogReturns(num, p)[t] == LogReturns(num, q)[t]
    ensures RollingVol(num, LogReturns(num, p))[t] == RollingVol(num, LogReturns(num, q))[t]
    ensures RollingMean(p, SMA_WINDOW)[t] == RollingMean(q, SMA_WINDOW)[t]
  {
    var lp, lq := LogReturns(num, p), LogReturns(num, q);
    LogReturnsCausal(num, p, q, t);
    assert lp[t] == lp[..t + 1][t] == lq[..t + 1][t] == lq[t];
    VolatilityCausal(num, lp, lq, t);
    MovingAverageCausal(p, q, t);
  }

  // ---------------------------------------------------------------------------
  // The table transform

  /** The three feature columns assigned in source order, before `dropna`. */
  function WithFeatures(t: Table, num: Numerics): (r: Table)
    requires WellFormed(t) && PRICE in t.names
    ensures WellFormed(r) && r.index == t.index && |r.rows| == |t.rows|
  {
    var p := Column(t, PRICE);
    var t1 := WithColumn(t, LOG_RET, LogReturns(num, p));
    var t2 := WithColumn(t1, VOL, RollingVol(num, Column(t1, LOG_RET)));
    WithColumn(t2, SMA, RollingMean(Column(t2, PRICE), SMA_WINDOW))
  }

  /** `add_features` on a frame value: skipped without the price column. */
  function Featured(t: Table, num: Numerics): (r: Table)
    requires WellFormed(t)
    ensures WellFormed(r)
    ensures PRICE !in t.names ==> r == t
    ensures PRICE in t.names ==>
              && GapFree(r) && |t.names| <= |r.names|
              && r.names[..|t.names|] == t.names
              && LOG_RET in r.names && VOL in r.names && SMA in r.names
  {
    if PRICE !in t.names then t
    else
      WithFeaturesNames(t, num);
      DropNa(WithFeatures(t, num))
  }

  /** A label that the three assignments write. */
  predicate IsFeatureName(name: string) {
    name == LOG_RET || name == VOL || name == SMA
  }

  /** The three assignments with the columns they read spelled out. */
  lemma WithFeaturesIsAssignments(t: Table, num: Numerics)
    requires WellFormed(t) && PRICE in t.names
    ensures var p := Column(t, PRICE);
            var lr := LogReturns(num, p);
            var t1 := WithColumn(t, LOG_RET, lr);
            var t2 := WithColumn(t1, VOL, RollingVol(num, lr));
            WithFeatures(t, num) == WithColumn(t2, SMA, RollingMean(p, SMA_WINDOW))
  {
    var p := Column(t, PRICE);
    var lr := LogReturns(num, p);
    var t1 := WithColumn(t, LOG_RET, lr);
    ColumnAfterAssign(t, LOG_RET, lr);
    ColumnOfOtherLabel(t, LOG_RET, lr, PRICE);
    ColumnOfOtherLabel(t1, VOL, RollingVol(num, lr), PRICE);
  }

  /**
   * The assignments keep every existing column in place and add exactly the
   * feature labels that were absent, at the right.
   */
  lemma WithFeaturesNames(t: Table, num: Numerics)
    requires WellFormed(t) && PRICE in t.names
    ensures var r := WithFeatures(t, num);
            && |t.names| <= |r.names| <= |t.names| + 3
            && r.names[..|t.names|] == t.names
            && (forall j :: |t.names| <= j < |r.names| ==> IsFeatureName(r.names[j]))
            && LOG_RET in r.names && VOL in r.names && SMA in r.names
            && (LOG_RET !in t.names && VOL !in t.names && SMA !in t.names ==>
                  r.names == t.names + [LOG_RET, VOL, SMA])
  {
    WithFeaturesIsAssignments(t, num);
  }

  /** A column without a feature label keeps all of its cells. */
  lemma WithFeaturesKeeps(t: Table, num: Numerics)
    requires WellFormed(t) && PRICE in t.names
    ensures forall i, j :: 0 <= i < |t.rows| && 0 <= j < |t.names| && !IsFeatureName(t.names[j]) ==>
              WithFeatures(t, num).rows[i][j] == t.rows[i][j]
  {
    WithFeaturesIsAssignments(t, num);
    WithFeaturesNames(t, num);
  }

  /** Every feature-labelled column of the result holds its series of the price column. */
  lemma WithFeaturesValues(t: Table, num: Numerics)
    requires WellFormed(t) && PRICE in t.names
    ensures var r := WithFeatures(t, num);
            var p := Column(t, PRICE);
            forall i, j :: 0 <= i < |r.rows| && 0 <= j < |r.names| ==>
              && (r.names[j] == LOG_RET ==> r.rows[i][j] == LogReturns(num, p)[i])
              && (r.names[j] == VOL ==> r.rows[i][j] == RollingVol(num, LogReturns(num, p))[i])
              && (r.names[j] == SMA ==> r.rows[i][j] == RollingMean(p, SMA_WINDOW)[i])
  {
    WithFeaturesIsAssignments(t, num);
  }

  /**
   * On gap-free input a row of the assigned table is complete exactly from
   * row 49 on: the moving average has the longest warm-up.
   */
  lemma WithFeaturesCompleteIff(t: Table, num: Numerics, i: nat)
    requires WellFormed(t) && PRICE in t.names && GapFree(t) && i < |t.rows|
    ensures Complete(WithFeatures(t, num).rows[i]) <==> SMA_WINDOW - 1 <= i
  {
    var r := WithFeatures(t, num);
    var p := Column(t, PRICE);
    assert forall k :: 0 <= k < |p| ==> p[k].Some?;
    WithFeaturesNames(t, num);
    WithFeaturesKeeps(t, num);
    WithFeaturesValues(t, num);
    LogReturnWarmUp(num, p, i);
    VolatilityWarmUp(num, p, i);
    MovingAverageWarmUp(p, i);
    if SMA_WINDOW - 1 <= i {
      forall j | 0 <= j < |r.rows[i]| ensures r.rows[i][j].Some? {
        if j < |t.names| && !IsFeatureName(t.names[j]) {
          assert r.rows[i][j] == t.rows[i][j];
        } else {
          assert IsFeatureName(r.names[j]);
        }
      }
    } else {
      var j :| 0 <= j < |r.names| && r.names[j] == SMA;
    }
  }

  /**
   * On gap-free input `add_features` keeps the rows from 49 on, in order:
   * `max(0, n - 49)` rows.
   */
  lemma FeaturedGapFree(t: Table, num: Numerics)
    requires WellFormed(t) && PRICE in t.names && GapFree(t)
    ensures Featured(t, num).rows == WithFeatures(t, num).rows[if |t.rows| < 49 then |t.rows| else 49..]
    ensures Featured(t, num).index == t.index[if |t.rows| < 49 then |t.rows| else 49..]
    ensures |Featured(t, num).rows| == if |t.rows| < 49 then 0 else |t.rows| - 49
  {
    var r := WithFeatures(t, num);
    var flags := CompleteFlags(r.rows);
    forall i | 0 <= i < |flags| ensures flags[i] <==> SMA_WINDOW - 1 <= i {
      WithFeaturesCompleteIff(t, num, i);
    }
    PositionsOfUpwardClosed(flags, SMA_WINDOW - 1, 0);
    var s := if |t.rows| < 49 then |t.rows| else 49;
    assert Range(SMA_WINDOW - 1, |flags|) == Range(s, |flags|);
    PickRange(r.rows, s);
    PickRange(r.index, s);
  }

  /**
   * `add_features`: without the price column the caller's frame itself is
   * returned untouched; otherwise the three features are assigned into the
   * caller's frame and a new frame holding its complete rows is returned.
   */
  method AddFeatures(df: Frame, num: Numerics) returns (out: Frame)
    requires df.Valid()
    modifies df
    ensures out.Valid() && out.Value() == Featured(old(df.Value()), num)
    ensures PRICE !in old(df.names) ==> out == df && df.Value() == old(df.Value())
    ensures PRICE in old(df.names) ==>
              && fresh(out)
              && df.Valid() && df.Value() == WithFeatures(old(df.Value()), num)
              && out.Value() == DropNa(df.Value())
  {
    if PRICE !in df.names {
      return df;
    }
    ghost var t := df.Value();
    var p := Column(df.Value(), PRICE);
    df.Assign(LOG_RET, LogReturns(num, p));
    df.Assign(VOL, RollingVol(num, Column(df.Value(), LOG_RET)));
    df.Assign(SMA, RollingMean(Column(df.Value(), PRICE), SMA_WINDOW));
    out := df.DropNaCopy();
  }
}
