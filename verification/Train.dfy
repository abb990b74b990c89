/** The data handling of `src/train.py`: the target added to the fetched
    features, the features and target separated for fitting, the pruning
    rule of a hyperparameter trial, and the bundle saved with the model. */
module Train {
  import opened Frames
  import opened Seconds
  import opened Features
  import opened Stats
  import opened Inference

  // ---------------------------------------------------------------------------
  // fetch_features_and_target

  const NoFeatures := "No features loaded from feature store!"

  /** The frame with `target_rides_next_hour` set to the next same-location
      `rides`, before the rows without one are dropped. */
  function WithTarget(df: Frame): (w: Frame)
    requires WellFormed(df) && LocationId in df.cols && Rides in df.cols
    ensures WellFormed(w) && w.cols == AddName(df.cols, Target) && |w.rows| == |df.rows|
  {
    var keys, vals := Column(df, LocationId), Column(df, Rides);
    SetColumn(df, Target, Lead(keys, vals))
  }

  function HasTarget(r: Row): bool {
    Target in r && r[Target] != Missing
  }

  /** `fetch_features_and_target()` on the batch the store returned. */
  function FetchFeaturesAndTarget(df: Frame): (r: Result<Frame>)
    requires WellFormed(df)
    ensures IsEmpty(df) ==> r == Err(ValueError(NoFeatures))
    ensures !IsEmpty(df) && Target in df.cols ==> r == Ok(df)
    ensures !IsEmpty(df) && Target !in df.cols && LocationId !in df.cols ==> r == Err(KeyError(LocationId))
    ensures !IsEmpty(df) && Target !in df.cols && LocationId in df.cols && Rides !in df.cols ==>
      r == Err(KeyError(Rides))
    ensures r.Ok? ==> WellFormed(r.value) && Target in r.value.cols
  {
    if IsEmpty(df) then Err(ValueError(NoFeatures))
    else if Target in df.cols then Ok(df)
    else if LocationId !in df.cols then Err(KeyError(LocationId))
    else if Rides !in df.cols then Err(KeyError(Rides))
    else
      assert Target in AddName(df.cols, Target);
      Ok(Where(WithTarget(df), HasTarget))
  }

  /** When the target is created: the rows kept are, in order, exactly those
      whose next same-location `rides` is defined; each is the input row,
      other missing cells included, with that value as its target. */
  lemma FetchKeepsRows(df: Frame)
    requires WellFormed(df) && !IsEmpty(df) && Target !in df.cols && LocationId in df.cols && Rides in df.cols
    ensures var out, ps := FetchFeaturesAndTarget(df).value, Positions(WithTarget(df).rows, HasTarget);
      var keys, vals := Column(df, LocationId), Column(df, Rides);
      && out.cols == df.cols + [Target]
      && |out.rows| == |ps|
      && (forall i :: 0 <= i < |df.rows| ==> (i in ps <==> LeadAt(keys, vals, i) != Missing))
      && (forall j :: 0 <= j < |ps| ==>
            ps[j] < |df.rows| && out.rows[j] == df.rows[ps[j]][Target := LeadAt(keys, vals, ps[j])])
  {
    var w := WithTarget(df);
    var keys, vals := Column(df, LocationId), Column(df, Rides);
    assert forall i :: 0 <= i < |w.rows| ==> w.rows[i] == df.rows[i][Target := LeadAt(keys, vals, i)];
  }

  /** The target of a row is the `rides` of the next row `q` of its
      location; the row is kept exactly when that value is defined. */
  lemma TargetIsNextRide(df: Frame, p: nat, q: nat)
    requires WellFormed(df) && LocationId in df.cols && Rides in df.cols
    requires p < q < |df.rows|
    requires var keys := Column(df, LocationId);
      keys[p] != Missing && keys[q] == keys[p] && Count(keys[p + 1..q], keys[p]) == 0
    ensures Rides in df.rows[q] && Target in WithTarget(df).rows[p]
    ensures WithTarget(df).rows[p][Target] == df.rows[q][Rides]
    ensures p in Positions(WithTarget(df).rows, HasTarget) <==> df.rows[q][Rides] != Missing
  {
    var keys, vals := Column(df, LocationId), Column(df, Rides);
    LeadAtIsNext(keys, vals, p, q);
  }

  /** A row with no later row of its location, or no location, has no
      target and is dropped. */
  lemma LastRowDropped(df: Frame, p: nat)
    requires WellFormed(df) && LocationId in df.cols && Rides in df.cols && p < |df.rows|
    requires var keys := Column(df, LocationId);
      keys[p] == Missing || Count(keys[p + 1..], keys[p]) == 0
    ensures p !in Positions(WithTarget(df).rows, HasTarget)
  {
    LeadAtDefined(Column(df, LocationId), Column(df, Rides), p);
  }

  // ---------------------------------------------------------------------------
  // split_data

  /** `X` and `y` of `split_data`, before sklearn's random split. */
  function SplitData(df: Frame): (r: Result<(Frame, seq<Value>)>)
    requires WellFormed(df)
    ensures r.Err? <==> Target !in df.cols
    ensures r.Err? ==> r.error == KeyError(Target)
    ensures r.Ok? ==> WellFormed(r.value.0) && r.value.0.cols == Without(df.cols, {Target})
    ensures r.Ok? ==> |r.value.0.rows| == |r.value.1| == |df.rows|
  {
    var names := [Target];
    assert ColSet(names) == {Target};
    match Drop(df, names)
    case Err(e) => Err(e)
    case Ok(x) => Ok((Converted(x), Column(df, Target)))
  }

  /** `y` is the target column, row by row; every cell of `X` is the input's,
      in whole seconds where its column is a datetime one. Dropping the
      target does not change which other columns are datetime. */
  lemma SplitDataCells(df: Frame)
    requires WellFormed(df) && Target in df.cols
    ensures var x, y := SplitData(df).value.0, SplitData(df).value.1;
      && (forall i :: 0 <= i < |y| ==> Target in df.rows[i] && y[i] == df.rows[i][Target])
      && (forall i, c :: 0 <= i < |x.rows| && c in x.cols ==>
            c in df.cols && x.rows[i][c] == ConvertedCell(df, i, c))
  {
    var names := [Target];
    assert ColSet(names) == {Target};
    var d := Drop(df, names).value;
    var x := SplitData(df).value.0;
    forall i, c | 0 <= i < |x.rows| && c in x.cols
      ensures c in df.cols && x.rows[i][c] == ConvertedCell(df, i, c)
    {
      assert d.rows[i] == df.rows[i] - {Target};
      assert Column(d, c) == Column(df, c);
      assert IsDatetimeColumn(d, c) == IsDatetimeColumn(df, c);
      assert c in DatetimeColumns(d) <==> c in DatetimeColumns(df);
    }
  }

  // ---------------------------------------------------------------------------
  // objective

  /** The hyperparameters a trial draws. */
  datatype Params = Params(numLeaves: int, featureFraction: real, baggingFraction: real, minChildSamples: int)

  /** The search space of the study. */
  predicate InSearchSpace(p: Params) {
    && 31 <= p.numLeaves <= 255
    && 0.5 <= p.featureFraction <= 1.0
    && 0.5 <= p.baggingFraction <= 1.0
    && 5 <= p.minChildSamples <= 100
  }

  /** The parameters of one trial, drawn with the trial's `suggest_int` and
      `suggest_float`; each returns a value in the range it is asked for. */
  function TrialParams(suggestInt: (string, int, int) -> int, suggestFloat: (string, real, real) -> real): (p: Params)
    requires forall name, lo, hi :: lo <= hi ==> lo <= suggestInt(name, lo, hi) <= hi
    requires forall name, lo, hi :: lo <= hi ==> lo <= suggestFloat(name, lo, hi) <= hi
    ensures InSearchSpace(p)
  {
    Params(suggestInt("num_leaves", 31, 255),
           suggestFloat("feature_fraction", 0.5, 1.0),
           suggestFloat("bagging_fraction", 0.5, 1.0),
           suggestInt("min_child_samples", 5, 100))
  }

  /** What a trial ends with: pruned, or its score; the mean of no errors
      is NaN, which is not above the threshold. */
  datatype TrialOutcome = Pruned | Score(mae: Value)

  /** `objective(trial, X_train, y_train)` given the trained pipeline's
      predictions on the training features. The empty case cannot arise in
      the program, since `pipeline.fit` rejects an empty training set
      before the mean is taken; it is kept so the function is total. */
  function Objective(y: seq<real>, pred: seq<real>, maxMae: real): (t: TrialOutcome)
    requires |y| == |pred|
    ensures t.Pruned? <==> |y| > 0 && Mean(AbsErrors(y, pred)) > maxMae
    ensures |y| == 0 ==> t == Score(Missing)
    ensures t.Score? && |y| > 0 ==> t.mae == Num(Mean(AbsErrors(y, pred)))
  {
    if |y| == 0 then Score(Missing)
    else
      var mae := Mean(AbsErrors(y, pred));
      if mae > maxMae then Pruned else Score(Num(mae))
  }

  /** A trial that is not pruned scores between 0 and the threshold, and
      scores 0 exactly when every prediction is exact. */
  lemma ObjectiveScore(y: seq<real>, pred: seq<real>, maxMae: real)
    requires |y| == |pred| && |y| > 0
    ensures Objective(y, pred, maxMae).Score? ==>
      var m := Objective(y, pred, maxMae).mae;
      && m.Num? && 0.0 <= m.x <= maxMae
      && (m.x == 0.0 <==> forall i :: 0 <= i < |y| ==> y[i] == pred[i])
  {
    var es := AbsErrors(y, pred);
    MeanZeroIff(es);
  }

  /** Exact predictions are never pruned unless the threshold is negative. */
  lemma ExactNeverPruned(y: seq<real>, maxMae: real)
    requires maxMae >= 0.0
    ensures Objective(y, y, maxMae) == if |y| == 0 then Score(Missing) else Score(Num(0.0))
  {
    if |y| > 0 {
      MeanZeroIff(AbsErrors(y, y));
    }
  }

  // ---------------------------------------------------------------------------
  // save_model_with_features

  /** The bundle `save_model_with_features` writes. */
  function SaveBundle<M>(model: M, xTrain: Frame): (b: Bundle<M>)
    ensures b.model == Some(model)
    ensures b.expectedFeatures == b.featureNames == Some(xTrain.cols)
  {
    Bundle(Some(model), Some(xTrain.cols), Some(xTrain.cols))
  }

  /** Loading the saved bundle gives back the model and the training
      features' column list, in order. */
  lemma SaveThenLoad<M>(model: M, xTrain: Frame)
    ensures LoadModel(SaveBundle(model, xTrain)) == Ok((model, xTrain.cols))
  {
  }

  /** Aligning the training features to the saved list changes nothing. */
  lemma AlignToSaved(xTrain: Frame)
    requires WellFormed(xTrain)
    ensures Align(xTrain, FeatureList(SaveBundle(0, xTrain))) == xTrain
  {
    var g := Align(xTrain, xTrain.cols);
    forall i | 0 <= i < |g.rows| ensures g.rows[i] == xTrain.rows[i] {
      assert g.rows[i].Keys == ColSet(xTrain.cols) == xTrain.rows[i].Keys;
    }
  }
}
