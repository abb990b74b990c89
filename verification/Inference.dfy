/** `src/inference.py`: the feature list read back from a saved model
    bundle, and one inference run: datetime columns to seconds, columns
    aligned to the saved list, and the model's predictions appended. The
    model is opaque, a function from the aligned frame to one value per
    row. */
module Inference {
  import opened Frames
  import opened Seconds
  import opened Features

  const PredictionCol := "predicted_rides_next_hour"
  const ModelKey := "model"

  /** The saved bundle, a dictionary: each field is absent when its key is. */
  datatype Bundle<M> = Bundle(model: Option<M>, expectedFeatures: Option<seq<string>>, featureNames: Option<seq<string>>)

  /** The feature list `load_model` returns: `feature_names` when the bundle
      has it, else `expected_features`, else none. */
  function FeatureList<M>(b: Bundle<M>): (names: seq<string>)
    ensures b.featureNames.Some? ==> names == b.featureNames.value
    ensures b.featureNames.None? && b.expectedFeatures.Some? ==> names == b.expectedFeatures.value
    ensures b.featureNames.None? && b.expectedFeatures.None? ==> names == []
  {
    match b.featureNames
    case Some(names) => names
    case None => if b.expectedFeatures.Some? then b.expectedFeatures.value else []
  }

  /** `load_model()` on a loaded bundle: `bundle["model"]` raises KeyError
      when the key is absent. */
  function LoadModel<M>(b: Bundle<M>): (r: Result<(M, seq<string>)>)
    ensures r.Err? <==> b.model.None?
    ensures r.Err? ==> r.error == KeyError(ModelKey)
    ensures r.Ok? ==> r.value == (b.model.value, FeatureList(b))
  {
    if b.model.None? then Err(KeyError(ModelKey)) else Ok((b.model.value, FeatureList(b)))
  }

  /** `features.reindex(columns=expected_features, fill_value=0)`. */
  function Align(f: Frame, expected: seq<string>): (g: Frame)
    requires WellFormed(f) && Distinct(expected)
    ensures WellFormed(g) && g.cols == expected && |g.rows| == |f.rows|
    ensures forall i, c :: 0 <= i < |g.rows| && c in expected && c !in f.cols ==> g.rows[i][c] == Int(0)
    ensures forall i, c :: 0 <= i < |g.rows| && c in expected && c in f.cols ==> g.rows[i][c] == f.rows[i][c]
  {
    Reindex(f, expected, Int(0))
  }

  /** `run_inference(model, features, expected_features)`. The caller's
      frame has its datetime columns converted in place, so the outcome
      carries it. Assigning a prediction list of the wrong length raises
      ValueError. */
  function RunInference(features: Frame, expected: seq<string>, predict: Frame -> seq<Value>): (o: Outcome)
    requires WellFormed(features) && Distinct(expected)
    ensures o.caller == Converted(features)
    ensures o.result.Err? <==> |predict(Align(Converted(features), expected))| != |features.rows|
    ensures o.result.Err? ==> o.result.error.ValueError?
    ensures o.result.Ok? ==> WellFormed(o.result.value) && |o.result.value.rows| == |features.rows|
  {
    var converted := Converted(features);
    var aligned := Align(converted, expected);
    var preds := predict(aligned);
    if |preds| != |aligned.rows| then
      Outcome(converted, Err(ValueError("Length of values does not match length of index")))
    else
      Outcome(converted, Ok(SetColumn(aligned, PredictionCol, preds)))
  }

  /** What an inference run returns: exactly the expected columns in order,
      then the prediction column; an expected column the input lacks is 0 on
      every row; a present one keeps its (converted) cells; the predictions
      are the model's, one per row, on a frame with exactly the expected
      columns. */
  lemma InferenceCells(features: Frame, expected: seq<string>, predict: Frame -> seq<Value>)
    requires WellFormed(features) && Distinct(expected)
    requires |predict(Align(Converted(features), expected))| == |features.rows|
    ensures var g, preds := RunInference(features, expected, predict).result.value,
                           predict(Align(Converted(features), expected));
      && g.cols == AddName(expected, PredictionCol)
      && Align(Converted(features), expected).cols == expected
      && (forall i, c :: 0 <= i < |g.rows| && c in expected && c != PredictionCol && c !in features.cols ==>
            g.rows[i][c] == Int(0))
      && (forall i, c :: 0 <= i < |g.rows| && c in expected && c != PredictionCol && c in features.cols ==>
            g.rows[i][c] == ConvertedCell(features, i, c))
      && (forall i :: 0 <= i < |g.rows| ==> g.rows[i][PredictionCol] == preds[i])
  {
    var g := RunInference(features, expected, predict).result.value;
    forall i, c | 0 <= i < |g.rows| && c in expected && c != PredictionCol && c in features.cols
      ensures g.rows[i][c] == ConvertedCell(features, i, c)
    {
      assert ConvertedCell(features, i, c) == Converted(features).rows[i][c];
    }
  }

  /** Alignment looks only at the expected columns: two inputs that agree
      on them align to the same frame, so any other input column is dropped
      without effect. */
  lemma AlignIgnoresOthers(f: Frame, f': Frame, expected: seq<string>)
    requires WellFormed(f) && WellFormed(f') && Distinct(expected) && |f.rows| == |f'.rows|
    requires forall c :: c in expected ==> (c in f.cols <==> c in f'.cols)
    requires forall i, c :: 0 <= i < |f.rows| && c in expected && c in f.cols ==> f.rows[i][c] == f'.rows[i][c]
    ensures Align(f, expected) == Align(f', expected)
  {
    var g, g' := Align(f, expected), Align(f', expected);
    forall i | 0 <= i < |g.rows| ensures g.rows[i] == g'.rows[i] {
      assert g.rows[i].Keys == ColSet(expected) == g'.rows[i].Keys;
    }
  }

  /** Aligning an aligned frame changes nothing, and so does converting
      the caller's frame a second time: running inference again on the
      frame a run left behind sees the same aligned input. */
  lemma AlignIdempotent(f: Frame, expected: seq<string>)
    requires WellFormed(f) && Distinct(expected)
    ensures Align(Align(f, expected), expected) == Align(f, expected)
    ensures Align(Converted(Converted(f)), expected) == Align(Converted(f), expected)
  {
    var g := Align(f, expected);
    var h := Align(g, expected);
    forall i | 0 <= i < |h.rows| ensures h.rows[i] == g.rows[i] {
      assert h.rows[i].Keys == ColSet(expected) == g.rows[i].Keys;
    }
    ConvertedHasNoDatetime(f);
  }
}
