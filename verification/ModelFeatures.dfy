/** The two feature steps of the model pipeline in `src/model.py`: the
    average of the four weekly lags, and the hour and weekday taken from
    `pickup_hour`. Both work on a copy, so here they are pure functions of
    their input. */
module ModelFeatures {
  import opened Frames
  import opened Features
  import opened Stats
  import Calendar

  /** `rides_previous_{h}_hour` for h = 7*24, 2*7*24, 3*7*24 and 4*7*24. */
  const WeeklyLagCols: seq<string> :=
    ["rides_previous_168_hour", "rides_previous_336_hour", "rides_previous_504_hour", "rides_previous_672_hour"]
  const AverageCol := "average_rides_last_4_weeks"

  const HourCol := "hour"

  /** The column names this module adds and removes are all different. */
  lemma ModelNamesDiffer()
    ensures HourCol != PickupHour && DayOfWeekCol != PickupHour && HourCol != DayOfWeekCol
    ensures forall k :: 0 <= k < 4 ==> WeeklyLagCols[k] != AverageCol
  {
    assert |HourCol| != |PickupHour| && |HourCol| != |DayOfWeekCol|;
    assert DayOfWeekCol[0] != PickupHour[0];
    assert forall k :: 0 <= k < 4 ==> |WeeklyLagCols[k]| != |AverageCol|;
  }

  // ---------------------------------------------------------------------------
  // Row means

  /** A cell `mean` can average: a number or NaN. */
  predicate Numeric(v: Value) {
    v.Missing? || v.Int? || v.Num?
  }

  /** The numbers among `vs`, in order; NaN is skipped, as `mean` skips it. */
  function Present(vs: seq<Value>): (xs: seq<real>)
    ensures |xs| <= |vs|
    decreases |vs|
  {
    if |vs| == 0 then []
    else
      var init, v := vs[..|vs| - 1], vs[|vs| - 1];
      Present(init) + (if IsNumber(v) then [RealOf(v)] else [])
  }

  /** `mean(axis=1)` of one row: the mean of the numbers, NaN when there are none. */
  function RowMean(vs: seq<Value>): Value {
    var xs := Present(vs);
    if |xs| == 0 then Missing else Num(Mean(xs))
  }

  /** The numbers kept are all bounded as the cells are. */
  lemma {:induction false} PresentBounds(vs: seq<Value>, lo: real, hi: real)
    requires forall j :: 0 <= j < |vs| && IsNumber(vs[j]) ==> lo <= RealOf(vs[j]) <= hi
    ensures forall k :: 0 <= k < |Present(vs)| ==> lo <= Present(vs)[k] <= hi
    decreases |vs|
  {
    if |vs| > 0 {
      var init := vs[..|vs| - 1];
      assert forall j :: 0 <= j < |init| ==> init[j] == vs[j];
      PresentBounds(init, lo, hi);
    }
  }

  /** There are no numbers exactly when every cell is NaN (for cells that
      are all numeric or NaN). */
  lemma {:induction false} PresentEmpty(vs: seq<Value>)
    requires forall j :: 0 <= j < |vs| ==> Numeric(vs[j])
    ensures |Present(vs)| == 0 <==> forall j :: 0 <= j < |vs| ==> vs[j].Missing?
    decreases |vs|
  {
    if |vs| > 0 {
      var init := vs[..|vs| - 1];
      assert forall j :: 0 <= j < |init| ==> init[j] == vs[j];
      PresentEmpty(init);
    }
  }

  /** A row's mean is NaN exactly when all its cells are, and otherwise lies
      between any bounds of its numbers; equal numbers average to themselves. */
  lemma RowMeanFacts(vs: seq<Value>, lo: real, hi: real)
    requires forall j :: 0 <= j < |vs| ==> Numeric(vs[j])
    requires forall j :: 0 <= j < |vs| && IsNumber(vs[j]) ==> lo <= RealOf(vs[j]) <= hi
    ensures RowMean(vs).Missing? <==> forall j :: 0 <= j < |vs| ==> vs[j].Missing?
    ensures RowMean(vs).Num? ==> lo <= RowMean(vs).x <= hi
  {
    PresentEmpty(vs);
    PresentBounds(vs, lo, hi);
    if |Present(vs)| > 0 {
      MeanBounds(Present(vs), lo, hi);
    }
  }

  // ---------------------------------------------------------------------------
  // average_rides_last_4_weeks

  /** Adds each of `names` the frame lacks, in order, as an all-NaN column. */
  function WithColumns(f: Frame, names: seq<string>): (g: Frame)
    requires WellFormed(f)
    ensures WellFormed(g) && |g.rows| == |f.rows|
    ensures PrefixOf(f.cols, g.cols)
    ensures forall c :: c in g.cols <==> c in f.cols || c in names
    ensures forall i, c :: 0 <= i < |g.rows| && c in f.cols ==> g.rows[i][c] == f.rows[i][c]
    ensures forall i, c :: 0 <= i < |g.rows| && c in names && c !in f.cols ==> g.rows[i][c] == Missing
    decreases |names|
  {
    if |names| == 0 then
      assert f.cols[..|f.cols|] == f.cols;
      f
    else
      var init, c := names[..|names| - 1], names[|names| - 1];
      var h := WithColumns(f, init);
      assert forall n :: n in names <==> n in init || n == c;
      if c in h.cols then h
      else
        AddNameExtends(f.cols, h.cols, c);
        SetColumn(h, c, seq(|h.rows|, _ => Missing))
  }

  /** A weekly lag cell of row `i` as the average sees it: NaN when the
      frame lacks the column. */
  function LagCell(x: Frame, i: nat, c: string): Value
    requires WellFormed(x) && i < |x.rows|
  {
    if c in x.cols then
      assert x.rows[i].Keys == ColSet(x.cols);
      x.rows[i][c]
    else Missing
  }

  /** The four weekly lag cells of row `i`. */
  function InputLags(x: Frame, i: nat): (vs: seq<Value>)
    requires WellFormed(x) && i < |x.rows|
    ensures |vs| == 4 && forall k :: 0 <= k < 4 ==> vs[k] == LagCell(x, i, WeeklyLagCols[k])
  {
    seq(4, k requires 0 <= k < 4 => LagCell(x, i, WeeklyLagCols[k]))
  }

  /** Some weekly lag cell the frame has is neither a number nor NaN. */
  predicate HasNonNumericLag(x: Frame)
    requires WellFormed(x)
  {
    exists i, k :: 0 <= i < |x.rows| && 0 <= k < 4 && !Numeric(LagCell(x, i, WeeklyLagCols[k]))
  }

  /** `average_rides_last_4_weeks(X)`: the missing weekly lag columns added
      as NaN, then their row mean as a new column. The mean of a column that
      is not numeric raises TypeError. */
  function AverageRides(x: Frame): (r: Result<Frame>)
    requires WellFormed(x)
    ensures r.Err? <==> HasNonNumericLag(x)
    ensures r.Err? ==> r.error == TypeError(AverageCol)
    ensures r.Ok? ==> WellFormed(r.value) && |r.value.rows| == |x.rows|
  {
    if HasNonNumericLag(x) then Err(TypeError(AverageCol))
    else
      var g := WithColumns(x, WeeklyLagCols);
      Ok(SetColumn(g, AverageCol, seq(|x.rows|, i requires 0 <= i < |x.rows| => RowMean(InputLags(x, i)))))
  }

  /** The columns of the result: the input's first, in order, then each
      weekly lag column it lacked, then the average. */
  lemma AverageRidesColumns(x: Frame)
    requires WellFormed(x) && !HasNonNumericLag(x)
    ensures var g := AverageRides(x).value;
      && PrefixOf(x.cols, g.cols)
      && forall c :: c in g.cols <==> c in x.cols || c in WeeklyLagCols || c == AverageCol
  {
    var w := WithColumns(x, WeeklyLagCols);
    AddNameExtends(x.cols, w.cols, AverageCol);
  }

  /** The cells of row `i`: the input's cells unchanged except a former
      average, the weekly lags the input lacked as NaN, and the average equal
      to the row mean of the four weekly lag cells the result holds. */
  lemma AverageRidesCells(x: Frame, i: nat)
    requires WellFormed(x) && !HasNonNumericLag(x) && i < |x.rows|
    ensures var g := AverageRides(x).value;
      && (forall c :: c in x.cols && c != AverageCol ==> c in g.rows[i] && g.rows[i][c] == x.rows[i][c])
      && (forall k :: 0 <= k < 4 ==>
            WeeklyLagCols[k] in g.rows[i] && g.rows[i][WeeklyLagCols[k]] == LagCell(x, i, WeeklyLagCols[k]))
      && AverageCol in g.rows[i] && g.rows[i][AverageCol] == RowMean(InputLags(x, i))
  {
    var w := WithColumns(x, WeeklyLagCols);
    var g := AverageRides(x).value;
    ModelNamesDiffer();
    assert g.rows[i] == w.rows[i][AverageCol := RowMean(InputLags(x, i))];
    assert w.rows[i].Keys == ColSet(w.cols);
    forall k | 0 <= k < 4
      ensures WeeklyLagCols[k] in w.rows[i] && w.rows[i][WeeklyLagCols[k]] == LagCell(x, i, WeeklyLagCols[k])
    {
      assert WeeklyLagCols[k] in WeeklyLagCols;
    }
  }

  /** The average of a row is NaN exactly when its four weekly lags are,
      and otherwise lies between any bounds of the lags present. */
  lemma AverageMeaning(x: Frame, i: nat, lo: real, hi: real)
    requires WellFormed(x) && !HasNonNumericLag(x) && i < |x.rows|
    requires forall k :: 0 <= k < 4 && IsNumber(LagCell(x, i, WeeklyLagCols[k])) ==>
      lo <= RealOf(LagCell(x, i, WeeklyLagCols[k])) <= hi
    ensures var avg := AverageRides(x).value.rows[i][AverageCol];
      && (avg.Missing? <==> forall k :: 0 <= k < 4 ==> LagCell(x, i, WeeklyLagCols[k]).Missing?)
      && (avg.Num? ==> lo <= avg.x <= hi)
  {
    AverageRidesCells(x, i);
    var vs := InputLags(x, i);
    assert forall k :: 0 <= k < 4 ==> Numeric(vs[k]);
    RowMeanFacts(vs, lo, hi);
  }

  // ---------------------------------------------------------------------------
  // TemporalFeaturesEngineer.transform

  /** `pd.to_datetime(errors="coerce")` where the column is not datetime yet,
      then NaT filled with `pd.Timestamp("1970-01-01")`. */
  function FilledTimestamp(parse: Value -> Option<int>, v: Value): (t: Value)
    ensures t.Time?
    ensures ParseTimestamp(parse, v).Missing? ==> t == Time(0)
    ensures ParseTimestamp(parse, v).Time? ==> t == ParseTimestamp(parse, v)
  {
    var p := ParseTimestamp(parse, v);
    if p.Missing? then Time(0) else p
  }

  /** One row after `transform`: hour and weekday of its filled timestamp,
      `pickup_hour` gone. */
  function TemporalRow(r: Row, parse: Value -> Option<int>): Row
    requires PickupHour in r
  {
    var s := Calendar.EpochSeconds(FilledTimestamp(parse, r[PickupHour]).ns);
    r[HourCol := Int(Calendar.HourOfDay(s))][DayOfWeekCol := Int(Calendar.DayOfWeek(s))] - {PickupHour}
  }

  /** The column list after `transform`. */
  function TemporalColumns(cols: seq<string>): seq<string> {
    Without(AddName(AddName(cols, HourCol), DayOfWeekCol), {PickupHour})
  }

  /** One row of a well-formed frame after `transform`; it has exactly the
      new column list. */
  function TemporalRowOf(x: Frame, i: nat, parse: Value -> Option<int>): (r: Row)
    requires WellFormed(x) && PickupHour in x.cols && i < |x.rows|
    ensures r.Keys == ColSet(TemporalColumns(x.cols))
  {
    assert x.rows[i].Keys == ColSet(x.cols);
    TemporalRowKeys(x.rows[i], x.cols, parse);
    TemporalRow(x.rows[i], parse)
  }

  lemma TemporalRowKeys(r: Row, cols: seq<string>, parse: Value -> Option<int>)
    requires r.Keys == ColSet(cols) && PickupHour in r && Distinct(cols)
    ensures TemporalRow(r, parse).Keys == ColSet(TemporalColumns(cols))
  {
    AddNameKeepsDistinct(cols, HourCol);
    AddNameKeepsDistinct(AddName(cols, HourCol), DayOfWeekCol);
    ModelNamesDiffer();
    var a := AddName(AddName(cols, HourCol), DayOfWeekCol);
    var s := Calendar.EpochSeconds(FilledTimestamp(parse, r[PickupHour]).ns);
    var u := r[HourCol := Int(Calendar.HourOfDay(s))][DayOfWeekCol := Int(Calendar.DayOfWeek(s))];
    assert u.Keys == ColSet(a);
    assert TemporalRow(r, parse).Keys == u.Keys - {PickupHour};
    assert ColSet(TemporalColumns(cols)) == ColSet(a) - {PickupHour};
  }

  /** `TemporalFeaturesEngineer().transform(X)`. */
  function Transform(x: Frame, parse: Value -> Option<int>): (r: Result<Frame>)
    requires WellFormed(x)
    ensures r.Err? <==> PickupHour !in x.cols
    ensures r.Err? ==> r.error == KeyError(PickupHour)
    ensures r.Ok? ==> WellFormed(r.value) && |r.value.rows| == |x.rows|
  {
    if PickupHour !in x.cols then Err(KeyError(PickupHour))
    else
      TransformColumns(x.cols);
      Ok(Frame(TemporalColumns(x.cols), seq(|x.rows|, i requires 0 <= i < |x.rows| => TemporalRowOf(x, i, parse))))
  }

  /** What `transform` returns: `pickup_hour` gone, `hour` in 0..23 and
      `day_of_week` in 0..6 from the parsed timestamp, 1970-01-01 00:00 (a
      Thursday) standing in for one that does not parse, and every other
      column as it was. */
  lemma TransformCells(x: Frame, parse: Value -> Option<int>, i: nat)
    requires WellFormed(x) && PickupHour in x.cols && i < |x.rows|
    ensures PickupHour in x.rows[i]
    ensures var g := Transform(x, parse).value;
      && g.cols == TemporalColumns(x.cols) && PickupHour !in g.cols
      && TemporalCells(x.rows[i], g.rows[i], parse)
  {
    assert x.rows[i].Keys == ColSet(x.cols);
    TransformColumns(x.cols);
    TemporalRowCells(x.rows[i], parse);
  }

  /** `out` is `r` after `transform`. */
  predicate TemporalCells(r: Row, out: Row, parse: Value -> Option<int>)
    requires PickupHour in r
  {
    var t := ParseTimestamp(parse, r[PickupHour]);
    && PickupHour !in out && HourCol in out && DayOfWeekCol in out
    && out[HourCol].Int? && 0 <= out[HourCol].i < 24
    && out[DayOfWeekCol].Int? && 0 <= out[DayOfWeekCol].i < 7
    && (t.Missing? ==> out[HourCol] == Int(0) && out[DayOfWeekCol] == Int(3))
    && (t.Time? ==>
          && out[HourCol] == Int(Calendar.HourOfDay(Calendar.EpochSeconds(t.ns)))
          && out[DayOfWeekCol] == Int(Calendar.DayOfWeek(Calendar.EpochSeconds(t.ns))))
    && (forall c :: c in r && c != PickupHour && c != HourCol && c != DayOfWeekCol ==>
          c in out && out[c] == r[c])
  }

  lemma TemporalRowCells(r: Row, parse: Value -> Option<int>)
    requires PickupHour in r
    ensures TemporalCells(r, TemporalRow(r, parse), parse)
  {
    ModelNamesDiffer();
    assert Calendar.EpochSeconds(0) == 0;
  }

  /** Besides the two new columns, `transform` keeps every column but
      `pickup_hour`, in order. */
  lemma TransformColumns(cols: seq<string>)
    requires Distinct(cols)
    ensures var out := TemporalColumns(cols);
      && Distinct(out) && HourCol in out && DayOfWeekCol in out && PickupHour !in out
      && forall c :: c in out <==> (c in cols && c != PickupHour) || c == HourCol || c == DayOfWeekCol
  {
    AddNameKeepsDistinct(cols, HourCol);
    AddNameKeepsDistinct(AddName(cols, HourCol), DayOfWeekCol);
  }
}
