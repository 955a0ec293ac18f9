/**
 * The two stages composed: the frame `add_features` produces, handed to
 * `prepare_data`.
 */
module Pipeline {
  import opened Wrappers
  import opened Tables
  import Features
  import Training

  /** The three required features that `add_features` never writes. */
  const NOT_PRODUCED: seq<string> := ["RSI", "BB_Width", "Trend_Signal"]

  /** After `add_features` the column labels are the old ones and the three feature labels. */
  lemma FeaturedNames(t: Table, num: Features.Numerics)
    requires WellFormed(t) && Features.PRICE in t.names
    ensures var f := Features.Featured(t, num);
            forall c :: c in f.names <==> c in t.names || Features.IsFeatureName(c)
  {
    var f := Features.Featured(t, num);
    var r := Features.WithFeatures(t, num);
    Features.WithFeaturesNames(t, num);
    assert f.names == r.names;
    forall c ensures c in f.names <==> c in t.names || Features.IsFeatureName(c) {
      if c in f.names {
        var j :| 0 <= j < |f.names| && f.names[j] == c;
        if j < |t.names| {
          assert t.names[j] == f.names[j];
        }
      }
      if c in t.names {
        var j :| 0 <= j < |t.names| && t.names[j] == c;
        assert f.names[j] == c;
      }
    }
  }

  /** Labelling adds only `Next_Day_Return` and `Target` to the column labels. */
  lemma LabelledNames(t: Table)
    requires WellFormed(t) && Training.LOG_RET in t.names && Training.TARGET !in t.names
    ensures var d := Training.Labelled(t).value;
            forall c :: c in d.names <==> c in t.names || c == Training.NEXT_RETURN || c == Training.TARGET
  {
    Training.LabelledIsDropNa(t);
    var t1 := WithColumn(t, Training.NEXT_RETURN, Training.NextDay(Column(t, Training.LOG_RET)));
    assert Training.WithLabels(t) == WithColumn(t1, Training.TARGET, Training.Labels(Column(t1, Training.NEXT_RETURN)));
  }

  /** The positions of the absent features when exactly the last three are absent. */
  lemma LastThreeAbsent()
    ensures Positions([false, false, true, true, true], 0) == [2, 3, 4]
  {
    var absent := [false, false, true, true, true];
    assert Positions(absent, 5) == [];
    assert Positions(absent, 4) == [4];
    assert Positions(absent, 3) == [3, 4];
    assert Positions(absent, 2) == [2, 3, 4];
    assert Positions(absent, 1) == [2, 3, 4];
  }

  /** With both return features present and the other three absent, the absent flags are the last three. */
  lemma AbsentLastThree(names: seq<string>)
    requires Training.LOG_RET in names && Features.VOL in names
    requires forall k :: 0 <= k < |NOT_PRODUCED| ==> NOT_PRODUCED[k] !in names
    ensures Training.AbsentFlags(names, Training.FEATURES) == [false, false, true, true, true]
  {
    var required := Training.FEATURES;
    assert required[0] == Training.LOG_RET && required[1] == Features.VOL;
    assert required[2] == NOT_PRODUCED[0] && required[3] == NOT_PRODUCED[1] && required[4] == NOT_PRODUCED[2];
  }

  /** The feature check on labels with the two return features and none of the other three. */
  lemma MissingNotProduced(names: seq<string>)
    requires Training.LOG_RET in names && Features.VOL in names
    requires forall k :: 0 <= k < |NOT_PRODUCED| ==> NOT_PRODUCED[k] !in names
    ensures Training.Missing(names, Training.FEATURES) == NOT_PRODUCED
  {
    AbsentLastThree(names);
    LastThreeAbsent();
    assert Pick(Training.FEATURES, [2, 3, 4]) == NOT_PRODUCED;
  }

  /**
   * A frame with the two return features, no `Target` and none of the other
   * three is rejected listing exactly those three.
   */
  lemma PrepareRejects(f: Table)
    requires WellFormed(f) && Training.LOG_RET in f.names && Features.VOL in f.names && Training.TARGET !in f.names
    requires forall k :: 0 <= k < |NOT_PRODUCED| ==> NOT_PRODUCED[k] !in f.names
    ensures Training.Prepare(f) == Err(Training.MissingFeatures(NOT_PRODUCED))
  {
    LabelledNames(f);
    var d := Training.Labelled(f).value;
    forall k | 0 <= k < |NOT_PRODUCED| ensures NOT_PRODUCED[k] !in d.names {
      var c := NOT_PRODUCED[k];
      assert c !in f.names;
      assert c != Training.NEXT_RETURN && c != Training.TARGET;
    }
    MissingNotProduced(d.names);
    Training.PrepareOutcome(f);
  }

  /**
   * Labels made of old labels without a `Target` or the last three features,
   * plus the three feature labels, have both return features and none of
   * `Target`, `RSI`, `BB_Width`, `Trend_Signal`.
   */
  lemma FeatureLabelsOnly(names: seq<string>, old_names: seq<string>)
    requires forall c :: c in names <==> c in old_names || Features.IsFeatureName(c)
    requires Training.TARGET !in old_names
    requires forall k :: 0 <= k < |NOT_PRODUCED| ==> NOT_PRODUCED[k] !in old_names
    ensures Training.LOG_RET in names && Features.VOL in names && Training.TARGET !in names
    ensures forall k :: 0 <= k < |NOT_PRODUCED| ==> NOT_PRODUCED[k] !in names
  {
    assert Features.IsFeatureName(Training.LOG_RET) && Features.IsFeatureName(Features.VOL);
    assert !Features.IsFeatureName(Training.TARGET);
    forall k | 0 <= k < |NOT_PRODUCED| ensures NOT_PRODUCED[k] !in names {
      assert !Features.IsFeatureName(NOT_PRODUCED[k]);
    }
  }

  /** The labels of an `add_features` result for prices without a `Target` or the last three features. */
  lemma FeaturedLabels(t: Table, num: Features.Numerics)
    requires WellFormed(t) && Features.PRICE in t.names && Training.TARGET !in t.names
    requires forall k :: 0 <= k < |NOT_PRODUCED| ==> NOT_PRODUCED[k] !in t.names
    ensures var f := Features.Featured(t, num);
            && Training.LOG_RET in f.names && Features.VOL in f.names && Training.TARGET !in f.names
            && forall k :: 0 <= k < |NOT_PRODUCED| ==> NOT_PRODUCED[k] !in f.names
  {
    FeaturedNames(t, num);
    FeatureLabelsOnly(Features.Featured(t, num).names, t.names);
  }

  /**
   * A cleaned price frame without those three columns (and without a
   * `Target`) is always rejected by the feature check after `add_features`,
   * and the error names exactly those three.
   */
  lemma FeaturedIsRejected(t: Table, num: Features.Numerics)
    requires WellFormed(t) && Features.PRICE in t.names && Training.TARGET !in t.names
    requires forall k :: 0 <= k < |NOT_PRODUCED| ==> NOT_PRODUCED[k] !in t.names
    ensures Training.Prepare(Features.Featured(t, num)) == Err(Training.MissingFeatures(NOT_PRODUCED))
  {
    FeaturedLabels(t, num);
    PrepareRejects(Features.Featured(t, num));
  }
}
