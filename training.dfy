/**
 * Data preparation for the crash-risk classifier (`prepare_data` after the
 * CSV read): derive the next-day crash label when none is present, check the
 * fixed feature list and split the rows chronologically 80/20.
 */
module Training {
  import opened Wrappers
  import opened Tables

  const TARGET := "Target"
  const NEXT_RETURN := "Next_Day_Return"
  const LOG_RET := "SPY_Log_Ret"
  /** A next-day log return below this is a crash. */
  const CRASH_THRESHOLD: real := -0.01
  /** The exact features the model expects, in the order it expects them. */
  const FEATURES: seq<string> := ["SPY_Log_Ret", "SPY_Vol_30d", "RSI", "BB_Width", "Trend_Signal"]

  /** The exceptions `prepare_data` can raise on an in-memory frame. */
  datatype Error =
    | KeyError(key: string)                    // reading a column that is not there
    | MissingFeatures(missing: seq<string>)    // the `ValueError` of the feature check

  /** A single column with its dates (`df['Target']`). */
  datatype Series = Series(index: seq<int>, values: seq<Cell>)

  /** The four parts `prepare_data` returns. */
  datatype Prepared = Prepared(xTrain: Table, xTest: Table, yTrain: Series, yTest: Series)

  // ---------------------------------------------------------------------------
  // Labelling

  /** `lr.shift(-1)`: the next row's return, missing on the last row. */
  function NextDay(lr: seq<Cell>): (r: seq<Cell>)
    ensures |r| == |lr|
    ensures forall t :: 0 <= t < |lr| ==> r[t] == if t + 1 < |lr| then lr[t + 1] else None
  {
    seq(|lr|, t requires 0 <= t < |lr| => if t + 1 < |lr| then lr[t + 1] else None)
  }

  /** `(next < -0.01).astype(int)`: a missing value compares false and labels 0. */
  function CrashLabel(next: Cell): (y: real)
    ensures y == 1.0 || y == 0.0
    ensures y == 1.0 <==> next.Some? && next.value < CRASH_THRESHOLD
  {
    if next.Some? && next.value < CRASH_THRESHOLD then 1.0 else 0.0
  }

  /** The two worked examples: a -1.2% next-day return is a crash, a -0.4% one is not. */
  lemma CrashLabelExamples()
    ensures CrashLabel(Some(-0.012)) == 1.0
    ensures CrashLabel(Some(-0.004)) == 0.0
  {
  }

  function Labels(next: seq<Cell>): (r: seq<Cell>)
    ensures |r| == |next|
    ensures forall t :: 0 <= t < |next| ==> r[t] == Some(CrashLabel(next[t]))
  {
    seq(|next|, t requires 0 <= t < |next| => Some(CrashLabel(next[t])))
  }

  /** The frame before the final `dropna` of the labelling step. */
  function WithLabels(t: Table): (r: Table)
    requires WellFormed(t) && LOG_RET in t.names
    ensures WellFormed(r) && r.index == t.index && |r.rows| == |t.rows|
  {
    var t1 := WithColumn(t, NEXT_RETURN, NextDay(Column(t, LOG_RET)));
    WithColumn(t1, TARGET, Labels(Column(t1, NEXT_RETURN)))
  }

  /**
   * The labelling step: a frame that already has `Target` is used as it is;
   * otherwise the label is derived from the next row's return (a `KeyError`
   * without a return column) and the incomplete rows are dropped.
   */
  function Labelled(t: Table): (r: Result<Table, Error>)
    requires WellFormed(t)
    ensures r.Err? <==> TARGET !in t.names && LOG_RET !in t.names
    ensures r.Err? ==> r.error == KeyError(LOG_RET)
    ensures r.Ok? ==> WellFormed(r.value) && TARGET in r.value.names
  {
    if TARGET in t.names then Ok(t)
    else if LOG_RET !in t.names then Err(KeyError(LOG_RET))
    else
      var r := DropNa(WithLabels(t));
      ColumnAfterAssign(WithColumn(t, NEXT_RETURN, NextDay(Column(t, LOG_RET))), TARGET,
        Labels(Column(WithColumn(t, NEXT_RETURN, NextDay(Column(t, LOG_RET))), NEXT_RETURN)));
      Ok(r)
  }

  /** An existing `Target` column is neither recomputed nor filtered. */
  lemma LabelledKeepsExisting(t: Table)
    requires WellFormed(t) && TARGET in t.names
    ensures Labelled(t) == Ok(t)
  {
  }

  /** The labelling assignments with the column they read spelled out. */
  lemma WithLabelsIsAssignments(t: Table)
    requires WellFormed(t) && LOG_RET in t.names
    ensures var next := NextDay(Column(t, LOG_RET));
            WithLabels(t) == WithColumn(WithColumn(t, NEXT_RETURN, next), TARGET, Labels(next))
  {
    ColumnAfterAssign(t, NEXT_RETURN, NextDay(Column(t, LOG_RET)));
  }

  /** Before `dropna`, row `i` is labelled from the next row's return; the last row from a missing one. */
  lemma WithLabelsTarget(t: Table)
    requires WellFormed(t) && LOG_RET in t.names
    ensures TARGET in WithLabels(t).names
    ensures forall i :: 0 <= i < |t.rows| ==>
              Column(WithLabels(t), TARGET)[i] ==
                Some(CrashLabel(if i + 1 < |t.rows| then Column(t, LOG_RET)[i + 1] else None))
  {
    var next := NextDay(Column(t, LOG_RET));
    var labels := Labels(next);
    var t1 := WithColumn(t, NEXT_RETURN, next);
    WithLabelsIsAssignments(t);
    ColumnAfterAssign(t1, TARGET, labels);
    assert Column(WithLabels(t), TARGET) == labels;
    forall i | 0 <= i < |t.rows|
      ensures labels[i] == Some(CrashLabel(if i + 1 < |t.rows| then Column(t, LOG_RET)[i + 1] else None))
    {
    }
  }

  /**
   * Before `dropna`, row `i` is complete iff it has a next row whose return
   * is present and no gap of its own outside `Next_Day_Return`, which the
   * step overwrites.
   */
  lemma WithLabelsComplete(t: Table, i: nat)
    requires WellFormed(t) && LOG_RET in t.names && TARGET !in t.names && i < |t.rows|
    ensures Complete(WithLabels(t).rows[i]) <==>
              && i + 1 < |t.rows| && Column(t, LOG_RET)[i + 1].Some?
              && forall j :: 0 <= j < |t.names| && t.names[j] != NEXT_RETURN ==> t.rows[i][j].Some?
  {
    var next := NextDay(Column(t, LOG_RET));
    var t1 := WithColumn(t, NEXT_RETURN, next);
    WithLabelsIsAssignments(t);
    assert TARGET !in t1.names;
    CompleteWithNewColumn(t1, TARGET, Labels(next), i);
    CompleteWithColumn(t, NEXT_RETURN, next, i);
  }

  /** Without a `Target` column the labelling step is `dropna` of the assigned frame. */
  lemma LabelledIsDropNa(t: Table)
    requires WellFormed(t) && LOG_RET in t.names && TARGET !in t.names
    ensures Labelled(t) == Ok(DropNa(WithLabels(t)))
  {
  }

  /**
   * Labelling without a `Target` column keeps exactly the rows that have a
   * next row with a present return and no gap of their own (outside
   * `Next_Day_Return`), in order. So the last row is always dropped.
   */
  lemma LabelledKeptRows(t: Table)
    requires WellFormed(t) && LOG_RET in t.names && TARGET !in t.names
    ensures var lr := Column(t, LOG_RET);
            var p := Kept(WithLabels(t));
            && (forall i :: 0 <= i < |t.rows| ==>
                  (i in p <==>
                     && i + 1 < |t.rows| && lr[i + 1].Some?
                     && forall j :: 0 <= j < |t.names| && t.names[j] != NEXT_RETURN ==> t.rows[i][j].Some?))
            && (forall k :: 0 <= k < |p| ==> p[k] + 1 < |t.rows| && lr[p[k] + 1].Some?)
  {
    var r := WithLabels(t);
    var p := Kept(r);
    forall i | 0 <= i < |t.rows|
      ensures i in p <==> Complete(r.rows[i])
    {
    }
    forall i | 0 <= i < |t.rows|
      ensures Complete(r.rows[i]) <==>
                && i + 1 < |t.rows| && Column(t, LOG_RET)[i + 1].Some?
                && forall j :: 0 <= j < |t.names| && t.names[j] != NEXT_RETURN ==> t.rows[i][j].Some?
    {
      WithLabelsComplete(t, i);
    }
  }

  /**
   * After labelling without a `Target` column, the label of the `k`-th kept
   * row, originally row `p[k]`, is 1 iff the return of row `p[k] + 1` is
   * below -1%, else 0.
   */
  lemma LabelledTargets(t: Table)
    requires WellFormed(t) && LOG_RET in t.names && TARGET !in t.names
    ensures var d := Labelled(t).value;
            var lr := Column(t, LOG_RET);
            var p := Kept(WithLabels(t));
            && |d.rows| == |p|
            && forall k :: 0 <= k < |p| ==>
                 && p[k] + 1 < |t.rows| && lr[p[k] + 1].Some?
                 && Column(d, TARGET)[k] == Some(if lr[p[k] + 1].value < CRASH_THRESHOLD then 1.0 else 0.0)
  {
    var r := WithLabels(t);
    var d := DropNa(r);
    var lr := Column(t, LOG_RET);
    var p := Kept(r);
    LabelledIsDropNa(t);
    LabelledKeptRows(t);
    WithLabelsTarget(t);
    assert IndexOf(d.names, TARGET) == IndexOf(r.names, TARGET);
    forall k | 0 <= k < |p|
      ensures Column(d, TARGET)[k] == Some(if lr[p[k] + 1].value < CRASH_THRESHOLD then 1.0 else 0.0)
    {
      assert d.rows[k] == r.rows[p[k]];
      assert Column(d, TARGET)[k] == Column(r, TARGET)[p[k]];
    }
  }

  /** Labelling keeps dates strictly increasing. */
  lemma LabelledChronological(t: Table)
    requires WellFormed(t) && Chronological(t.index) && (TARGET in t.names || LOG_RET in t.names)
    ensures Labelled(t).Ok? && Chronological(Labelled(t).value.index)
  {
    if TARGET !in t.names {
      LabelledIsDropNa(t);
      DropNaChronological(WithLabels(t));
    }
  }

  // ---------------------------------------------------------------------------
  // The feature check

  /** Which required names are absent from `names`. */
  function AbsentFlags(names: seq<string>, required: seq<string>): (f: seq<bool>)
    ensures |f| == |required| && forall k :: 0 <= k < |required| ==> (f[k] <==> required[k] !in names)
  {
    seq(|required|, k requires 0 <= k < |required| => required[k] !in names)
  }

  /** `[c for c in required if c not in names]`. */
  function Missing(names: seq<string>, required: seq<string>): (m: seq<string>)
    ensures forall c :: c in m <==> c in required && c !in names
    ensures m == Pick(required, Positions(AbsentFlags(names, required), 0))
  {
    var absent := AbsentFlags(names, required);
    var p := Positions(absent, 0);
    var m := Pick(required, p);
    forall c | c in required && c !in names ensures c in m {
      var i :| 0 <= i < |required| && required[i] == c;
      assert absent[i];
      assert i in p;
      var k :| 0 <= k < |p| && p[k] == i;
      assert m[k] == c;
    }
    m
  }

  // ---------------------------------------------------------------------------
  // The chronological split

  /** `int(n * 0.8)`, in exact integer arithmetic. */
  function SplitIndex(n: nat): (k: nat)
    ensures k <= n
  {
    n * 4 / 5
  }

  /**
   * The test part holds `ceil(n / 5)` rows, so it is never empty for a
   * non-empty frame; the training part is empty for a single row.
   */
  lemma SplitSizes(n: nat)
    ensures n - SplitIndex(n) == (n + 4) / 5
    ensures 1 <= n ==> SplitIndex(n) < n
    ensures 0 < SplitIndex(n) <==> 2 <= n
  {
    var q, r := n / 5, n % 5;
    assert n == 5 * q + r;
    assert n * 4 == 5 * (4 * q) + 4 * r;
    assert SplitIndex(n) == 4 * q + (4 * r) / 5;
    assert (n + 4) / 5 == q + (r + 4) / 5;
  }

  /** `X.iloc[lo:hi]`. */
  function Rows(t: Table, lo: nat, hi: nat): (r: Table)
    requires WellFormed(t) && lo <= hi <= |t.rows|
    ensures WellFormed(r) && r.names == t.names
  {
    Table(t.index[lo..hi], t.names, t.rows[lo..hi])
  }

  /** Every required feature labels a column. */
  ghost predicate HasFeatures(d: Table) {
    forall k :: 0 <= k < |FEATURES| ==> FEATURES[k] in d.names
  }

  /**
   * `X = df[FEATURES]`, `y = df['Target']`, both cut at `SplitIndex(n)`:
   * the features are the five fixed columns in order, train followed by test
   * gives back every row of `X` and of `y`, and the four parts are aligned.
   */
  function SplitData(d: Table): (pr: Prepared)
    requires WellFormed(d) && TARGET in d.names && HasFeatures(d)
    ensures var n := |d.rows|;
            && pr.xTrain.names == FEATURES && pr.xTest.names == FEATURES
            && |pr.xTrain.rows| == |pr.yTrain.values| == SplitIndex(n)
            && |pr.xTest.rows| == |pr.yTest.values| == n - SplitIndex(n)
            && pr.xTrain.rows + pr.xTest.rows == Select(d, FEATURES).rows
            && pr.yTrain.values + pr.yTest.values == Column(d, TARGET)
            && pr.xTrain.index + pr.xTest.index == d.index
            && pr.yTrain.index == pr.xTrain.index && pr.yTest.index == pr.xTest.index
  {
    var x := Select(d, FEATURES);
    var y := Column(d, TARGET);
    var n := |d.rows|;
    var k := SplitIndex(n);
    assert x.rows[..k] + x.rows[k..] == x.rows;
    assert y[..k] + y[k..] == y;
    assert d.index[..k] + d.index[k..] == d.index;
    Prepared(Rows(x, 0, k), Rows(x, k, n), Series(d.index[..k], y[..k]), Series(d.index[k..], y[k..]))
  }

  /** No absent feature means every feature is present. */
  lemma NoneMissing(d: Table)
    requires Missing(d.names, FEATURES) == []
    ensures HasFeatures(d)
  {
    forall k | 0 <= k < |FEATURES| ensures FEATURES[k] in d.names {
      assert FEATURES[k] in FEATURES;
    }
  }

  /** The whole preparation on a frame value. */
  function Prepare(t: Table): (r: Result<Prepared, Error>)
    requires WellFormed(t)
    ensures r.Ok? ==>
              && r.value.xTrain.names == FEATURES && r.value.xTest.names == FEATURES
              && |r.value.xTrain.rows| == |r.value.yTrain.values|
              && |r.value.xTest.rows| == |r.value.yTest.values|
              && |r.value.xTrain.rows| == SplitIndex(|r.value.xTrain.rows| + |r.value.xTest.rows|)
    ensures r.Err? ==>
              || r.error == KeyError(LOG_RET)
              || (r.error.MissingFeatures? && |r.error.missing| > 0 &&
                  forall c :: c in r.error.missing ==> c in FEATURES)
  {
    match Labelled(t)
    case Err(e) => Err(e)
    case Ok(d) =>
      var missing := Missing(d.names, FEATURES);
      if |missing| > 0 then Err(MissingFeatures(missing))
      else
        NoneMissing(d);
        Ok(SplitData(d))
  }

  /**
   * `prepare_data` fails exactly when the label cannot be derived (no return
   * column, no `Target`) or a required feature is absent after labelling; the
   * error then lists exactly the absent features, in the fixed order; on
   * success the result is the split of the labelled frame.
   */
  lemma PrepareOutcome(t: Table)
    requires WellFormed(t)
    ensures Prepare(t) == Err(KeyError(LOG_RET)) <==> TARGET !in t.names && LOG_RET !in t.names
    ensures Labelled(t).Ok? ==>
              var d := Labelled(t).value;
              var missing := Missing(d.names, FEATURES);
              && (Prepare(t).Err? <==> |missing| > 0)
              && (Prepare(t).Err? ==> Prepare(t).error == MissingFeatures(missing))
              && (Prepare(t).Ok? ==> HasFeatures(d) && Prepare(t).value == SplitData(d))
  {
    if Labelled(t).Ok? && Missing(Labelled(t).value.names, FEATURES) == [] {
      NoneMissing(Labelled(t).value);
    }
  }

  /** On dated rows every training date precedes every test date. */
  lemma SplitChronological(d: Table)
    requires WellFormed(d) && TARGET in d.names && HasFeatures(d) && Chronological(d.index)
    ensures var pr := SplitData(d);
            forall a, b :: 0 <= a < |pr.xTrain.index| && 0 <= b < |pr.xTest.index| ==>
              pr.xTrain.index[a] < pr.xTest.index[b]
  {
    var pr := SplitData(d);
    var k := SplitIndex(|d.rows|);
    assert pr.xTrain.index == d.index[..k] && pr.xTest.index == d.index[k..];
    forall a, b | 0 <= a < k && 0 <= b < |d.rows| - k ensures d.index[..k][a] < d.index[k..][b] {
      assert d.index[..k][a] == d.index[a] && d.index[k..][b] == d.index[k + b];
    }
  }

  /** The split of a dated frame is chronological: train strictly before test. */
  lemma PrepareChronological(t: Table)
    requires WellFormed(t) && Prepare(t).Ok? && Chronological(t.index)
    ensures var pr := Prepare(t).value;
            forall a, b :: 0 <= a < |pr.xTrain.index| && 0 <= b < |pr.xTest.index| ==>
              pr.xTrain.index[a] < pr.xTest.index[b]
  {
    PrepareOutcome(t);
    LabelledChronological(t);
    SplitChronological(Labelled(t).value);
  }

  // ---------------------------------------------------------------------------
  // The trainer

  /**
   * The trainer object. Only its model path is kept here; the gradient-boosted
   * classifier it also holds is external.
   */
  class LiquidityRiskModel {
    const modelPath: string

    constructor (modelPath: string := "models/xgb_risk_model.json")
      ensures this.modelPath == modelPath
    {
      this.modelPath := modelPath;
    }

    /**
     * `prepare_data` on the frame read from disk: the labelling assigns into
     * a local frame, which is then rebound to its `dropna` copy.
     */
    method PrepareData(t: Table) returns (r: Result<Prepared, Error>)
      requires WellFormed(t)
      ensures r == Prepare(t)
    {
      var df := new Frame(t);
      if TARGET !in df.names {
        if LOG_RET !in df.names {
          return Err(KeyError(LOG_RET));
        }
        df.Assign(NEXT_RETURN, NextDay(Column(df.Value(), LOG_RET)));
        df.Assign(TARGET, Labels(Column(df.Value(), NEXT_RETURN)));
        df := df.DropNaCopy();
      }
      var missing := Missing(df.names, FEATURES);
      if |missing| > 0 {
        return Err(MissingFeatures(missing));
      }
      NoneMissing(df.Value());
      var x := Select(df.Value(), FEATURES);
      var y := Column(df.Value(), TARGET);
      var n := |df.rows|;
      var k := SplitIndex(n);
      r := Ok(Prepared(Rows(x, 0, k), Rows(x, k, n), Series(df.index[..k], y[..k]), Series(df.index[k..], y[k..])));
    }
  }
}
