/** `src/monitoring.py`: the error of logged predictions against the rides
    that followed (MAE, MSE, RMSE), and the append-only log of those
    metrics. The clock and the square root are parameters. */
module Monitoring {
  import opened Frames
  import opened Features
  import opened Stats
  import opened Inference

  const TimestampKey := "timestamp"
  const MaeKey := "MAE"
  const MseKey := "MSE"
  const RmseKey := "RMSE"

  /** The keys of a metrics record, in the order the dictionary lists them. */
  const MetricKeys := [TimestampKey, MaeKey, MseKey, RmseKey]

  const NoSamples := "Found array with 0 sample(s)"
  const NotANumber := "Input contains NaN or a value that is not a number"

  /** The dictionary `evaluate_predictions` returns. */
  datatype Metrics = Metrics(timestamp: Value, mae: real, mse: real, rmse: real)

  /** The metrics as a record with exactly the four keys. */
  function Record(m: Metrics): (r: Row)
    ensures r.Keys == ColSet(MetricKeys)
    ensures r[TimestampKey] == m.timestamp && r[MaeKey] == Num(m.mae)
    ensures r[MseKey] == Num(m.mse) && r[RmseKey] == Num(m.rmse)
  {
    assert MaeKey[1] != MseKey[1];
    map[TimestampKey := m.timestamp, MaeKey := Num(m.mae), MseKey := Num(m.mse), RmseKey := Num(m.rmse)]
  }

  /** The metrics keys are distinct. */
  lemma MetricKeysDistinct()
    ensures Distinct(MetricKeys)
  {
    assert MaeKey[1] != MseKey[1];
    forall i, j | 0 <= i < j < |MetricKeys| ensures MetricKeys[i] != MetricKeys[j] {
      assert |MetricKeys[0]| == 9 && |MetricKeys[1]| == |MetricKeys[2]| == 3 && |MetricKeys[3]| == 4;
    }
  }

  function Square(x: real): real {
    x * x
  }

  lemma SquareNonNegative(x: real)
    ensures Square(x) >= 0.0
  {
  }

  /** The squared errors of the predictions. */
  function SquaredErrors(y: seq<real>, pred: seq<real>): (es: seq<real>)
    requires |y| == |pred|
    ensures |es| == |y|
    ensures forall i :: 0 <= i < |es| ==> es[i] >= 0.0
    ensures forall i :: 0 <= i < |es| && y[i] == pred[i] ==> es[i] == 0.0
  {
    var es := seq(|y|, i requires 0 <= i < |y| => Square(y[i] - pred[i]));
    forall i | 0 <= i < |es| ensures es[i] >= 0.0 {
      SquareNonNegative(y[i] - pred[i]);
    }
    es
  }

  /** `sqrt` gives the non-negative square root of every non-negative real. */
  ghost predicate IsSquareRoot(sqrt: real -> real) {
    && sqrt(0.0) == 0.0
    && forall x :: x >= 0.0 ==> sqrt(x) >= 0.0 && sqrt(x) * sqrt(x) == x
  }

  predicate AllNumbers(vs: seq<Value>) {
    forall i :: 0 <= i < |vs| ==> IsNumber(vs[i])
  }

  /** A column of numbers as reals. */
  function Reals(vs: seq<Value>): (xs: seq<real>)
    requires AllNumbers(vs)
    ensures |xs| == |vs| && forall i :: 0 <= i < |vs| ==> xs[i] == RealOf(vs[i])
  {
    seq(|vs|, i requires 0 <= i < |vs| => RealOf(vs[i]))
  }

  /** `evaluate_predictions(df)` with `now` the clock's reading and `sqrt`
      the square root `mse ** 0.5` takes. Selecting an absent column raises
      KeyError, `rides` first; the metric functions reject an empty input and
      any cell that is NaN or not a number with ValueError. */
  function EvaluatePredictions(df: Frame, now: Value, sqrt: real -> real): (r: Result<Metrics>)
    requires WellFormed(df)
    requires IsSquareRoot(sqrt)
    ensures Rides !in df.cols ==> r == Err(KeyError(Rides))
    ensures Rides in df.cols && PredictionCol !in df.cols ==> r == Err(KeyError(PredictionCol))
    ensures Rides in df.cols && PredictionCol in df.cols ==>
      (r.Err? <==> |df.rows| == 0 || !AllNumbers(Column(df, Rides)) || !AllNumbers(Column(df, PredictionCol)))
    ensures Rides in df.cols && PredictionCol in df.cols && r.Err? ==> r.error.ValueError?
    ensures r.Ok? ==> r.value.timestamp == now
    ensures r.Ok? ==> 0.0 <= r.value.mae && 0.0 <= r.value.mse && 0.0 <= r.value.rmse
    ensures r.Ok? ==> r.value.rmse * r.value.rmse == r.value.mse
  {
    if Rides !in df.cols then Err(KeyError(Rides))
    else if PredictionCol !in df.cols then Err(KeyError(PredictionCol))
    else
      var yTrue, yPred := Column(df, Rides), Column(df, PredictionCol);
      if |df.rows| == 0 then Err(ValueError(NoSamples))
      else if !AllNumbers(yTrue) || !AllNumbers(yPred) then Err(ValueError(NotANumber))
      else Ok(Score(Reals(yTrue), Reals(yPred), now, sqrt))
  }

  /** The metrics of actual values `y` against predictions `p`. */
  function Score(y: seq<real>, p: seq<real>, now: Value, sqrt: real -> real): (m: Metrics)
    requires |y| == |p| > 0
    requires IsSquareRoot(sqrt)
    ensures m.timestamp == now && m.rmse == sqrt(m.mse)
    ensures m.mae == Mean(AbsErrors(y, p)) && m.mse == Mean(SquaredErrors(y, p))
    ensures 0.0 <= m.mae && 0.0 <= m.mse && 0.0 <= m.rmse && m.rmse * m.rmse == m.mse
  {
    var ae, se := AbsErrors(y, p), SquaredErrors(y, p);
    MeanZeroIff(ae);
    MeanZeroIff(se);
    var mse := Mean(se);
    Metrics(now, Mean(ae), mse, sqrt(mse))
  }

  /** The error of row `i`: its `rides` minus its prediction. */
  function RowError(df: Frame, i: nat): real
    requires WellFormed(df) && Rides in df.cols && PredictionCol in df.cols && i < |df.rows|
    requires IsNumber(Column(df, Rides)[i]) && IsNumber(Column(df, PredictionCol)[i])
  {
    RealOf(df.rows[i][Rides]) - RealOf(df.rows[i][PredictionCol])
  }

  /** MAE is the mean over all rows of the absolute error, MSE the mean of
      the squared error, and RMSE the square root of MSE. */
  lemma MetricsMeaning(df: Frame, now: Value, sqrt: real -> real)
    requires WellFormed(df)
    requires IsSquareRoot(sqrt)
    requires EvaluatePredictions(df, now, sqrt).Ok?
    ensures Rides in df.cols && PredictionCol in df.cols && |df.rows| > 0
    ensures AllNumbers(Column(df, Rides)) && AllNumbers(Column(df, PredictionCol))
    ensures var m := EvaluatePredictions(df, now, sqrt).value;
      var errs := seq(|df.rows|, i requires 0 <= i < |df.rows| => RowError(df, i));
      && m.mae == Mean(seq(|errs|, i requires 0 <= i < |errs| => Abs(errs[i])))
      && m.mse == Mean(seq(|errs|, i requires 0 <= i < |errs| => Square(errs[i])))
      && m.rmse == sqrt(m.mse)
  {
    var y, p := Reals(Column(df, Rides)), Reals(Column(df, PredictionCol));
    var errs := seq(|df.rows|, i requires 0 <= i < |df.rows| => RowError(df, i));
    assert AbsErrors(y, p) == seq(|errs|, i requires 0 <= i < |errs| => Abs(errs[i]));
    assert SquaredErrors(y, p) == seq(|errs|, i requires 0 <= i < |errs| => Square(errs[i]));
  }

  /** MAE is zero exactly when every prediction equals its row's `rides`;
      exact predictions also give zero MSE and RMSE. */
  lemma ZeroWhenExact(df: Frame, now: Value, sqrt: real -> real)
    requires WellFormed(df) && IsSquareRoot(sqrt)
    requires EvaluatePredictions(df, now, sqrt).Ok?
    ensures var m := EvaluatePredictions(df, now, sqrt).value;
      var exact := forall i :: 0 <= i < |df.rows| ==>
        RealOf(df.rows[i][Rides]) == RealOf(df.rows[i][PredictionCol]);
      && (m.mae == 0.0 <==> exact)
      && (exact ==> m.mse == 0.0 && m.rmse == 0.0)
  {
    var y, p := Reals(Column(df, Rides)), Reals(Column(df, PredictionCol));
    var ae, se := AbsErrors(y, p), SquaredErrors(y, p);
    MeanZeroIff(ae);
    assert (forall i :: 0 <= i < |df.rows| ==> RealOf(df.rows[i][Rides]) == RealOf(df.rows[i][PredictionCol]))
      <==> (forall i :: 0 <= i < |y| ==> y[i] == p[i]);
    if forall i :: 0 <= i < |y| ==> y[i] == p[i] {
      MeanOfConstant(se, 0.0);
    }
  }

  // ---------------------------------------------------------------------------
  // log_metrics

  /** The one-row frame `pd.DataFrame([metrics])`. */
  function MetricsFrame(m: Metrics): (g: Frame)
    ensures WellFormed(g) && g.cols == MetricKeys && |g.rows| == 1 && g.rows[0] == Record(m)
  {
    MetricKeysDistinct();
    Frame(MetricKeys, [Record(m)])
  }

  /** `log_metrics(metrics)` given the existing log, if the file exists; the
      result is what is written back. */
  function LogMetrics(m: Metrics, log: Option<Frame>): (g: Frame)
    requires log.Some? ==> WellFormed(log.value)
    ensures WellFormed(g)
    ensures log.None? ==> g.cols == MetricKeys && g.rows == [Record(m)]
    ensures log.Some? ==> |g.rows| == |log.value.rows| + 1
  {
    match log
    case None => MetricsFrame(m)
    case Some(prior) => Concat(prior, MetricsFrame(m))
  }

  /** Appending keeps the prior rows, in order, with their cells and columns
      unchanged and NaN in the metric columns they lacked; the log gains
      exactly the metric columns it did not have. */
  lemma LogKeepsPrior(m: Metrics, prior: Frame)
    requires WellFormed(prior)
    ensures var g := LogMetrics(m, Some(prior));
      && g.cols[..|prior.cols|] == prior.cols
      && (forall c :: c in g.cols <==> c in prior.cols || c in MetricKeys)
      && (forall i, c :: 0 <= i < |prior.rows| && c in prior.cols ==> g.rows[i][c] == prior.rows[i][c])
      && (forall i, c :: 0 <= i < |prior.rows| && c in MetricKeys && c !in prior.cols ==> g.rows[i][c] == Missing)
  {
    var n := MetricsFrame(m);
    ConcatCells(prior, n);
    var g := Concat(prior, n);
    assert g.cols[..|prior.cols|] == prior.cols;
  }

  /** The new last row of the log holds the metrics, with NaN in any other
      column the prior log has. */
  lemma LogAppends(m: Metrics, prior: Frame)
    requires WellFormed(prior)
    ensures var g := LogMetrics(m, Some(prior));
      && (forall c :: c in MetricKeys ==> c in g.cols && g.rows[|prior.rows|][c] == Record(m)[c])
      && (forall c :: c in g.cols && c !in MetricKeys ==> g.rows[|prior.rows|][c] == Missing)
  {
    var n := MetricsFrame(m);
    ConcatCells(prior, n);
    var g := Concat(prior, n);
    forall c | c in MetricKeys ensures c in g.cols && g.rows[|prior.rows|][c] == Record(m)[c] {
      assert g.rows[|prior.rows| + 0][c] == n.rows[0][c];
    }
  }

  /** Logging twice grows the log by two rows, the earlier record first. */
  lemma LogTwice(m1: Metrics, m2: Metrics, prior: Frame)
    requires WellFormed(prior)
    ensures var g := LogMetrics(m2, Some(LogMetrics(m1, Some(prior))));
      && |g.rows| == |prior.rows| + 2
      && (forall c :: c in MetricKeys ==> g.rows[|prior.rows|][c] == Record(m1)[c])
      && (forall c :: c in MetricKeys ==> g.rows[|prior.rows| + 1][c] == Record(m2)[c])
  {
    var g1 := LogMetrics(m1, Some(prior));
    LogAppends(m1, prior);
    LogKeepsPrior(m2, g1);
    LogAppends(m2, g1);
    var g := LogMetrics(m2, Some(g1));
    forall c | c in MetricKeys ensures g.rows[|prior.rows|][c] == Record(m1)[c] {
      assert c in g1.cols;
    }
  }

  /** Predictions 10, 12 and 9 against 8, 12 and 11 actual rides: MAE is
      4/3, MSE 8/3, and RMSE its square root. */
  lemma ThreeRowScore(now: Value, sqrt: real -> real)
    requires IsSquareRoot(sqrt)
    ensures var m := Score([8.0, 12.0, 11.0], [10.0, 12.0, 9.0], now, sqrt);
      m.mae == 4.0 / 3.0 && m.mse == 8.0 / 3.0 && m.rmse == sqrt(8.0 / 3.0)
  {
    var y, p := [8.0, 12.0, 11.0], [10.0, 12.0, 9.0];
    assert AbsErrors(y, p) == [2.0, 0.0, 2.0];
    assert SquaredErrors(y, p) == [4.0, 0.0, 4.0];
    SumOfThree(2.0, 0.0, 2.0);
    SumOfThree(4.0, 0.0, 4.0);
  }

  /** The same three rows as a frame of logged predictions. */
  lemma ThreeRowExample(now: Value, sqrt: real -> real)
    requires IsSquareRoot(sqrt)
    ensures var df := Frame([Rides, PredictionCol], [
          map[Rides := Int(8), PredictionCol := Int(10)],
          map[Rides := Int(12), PredictionCol := Int(12)],
          map[Rides := Int(11), PredictionCol := Int(9)]]);
      && EvaluatePredictions(df, now, sqrt).Ok?
      && EvaluatePredictions(df, now, sqrt).value.mae == 4.0 / 3.0
      && EvaluatePredictions(df, now, sqrt).value.mse == 8.0 / 3.0
      && EvaluatePredictions(df, now, sqrt).value.rmse == sqrt(8.0 / 3.0)
  {
    var df := Frame([Rides, PredictionCol], [
      map[Rides := Int(8), PredictionCol := Int(10)],
      map[Rides := Int(12), PredictionCol := Int(12)],
      map[Rides := Int(11), PredictionCol := Int(9)]]);
    assert Rides != PredictionCol by { assert |Rides| != |PredictionCol|; }
    assert WellFormed(df);
    var y, p := Reals(Column(df, Rides)), Reals(Column(df, PredictionCol));
    assert y == [8.0, 12.0, 11.0] && p == [10.0, 12.0, 9.0];
    assert AllNumbers(Column(df, Rides)) && AllNumbers(Column(df, PredictionCol));
    assert EvaluatePredictions(df, now, sqrt) == Ok(Score(y, p, now, sqrt));
    ThreeRowScore(now, sqrt);
  }
}
