/** The dashboard's side of the predictions file (`src/frontend.py`): the
    file normalised for display by `load_predictions`, and the size of the
    rolling window that smooths a location's trend line. Reading the CSV is
    a parameter; plotting is not modelled. */
module Frontend {
  import opened Frames
  import opened Features
  import opened Inference

  const DemandCol := "predicted_demand"

  /** The columns shown, in display order. */
  const DisplayCols := [LocationId, PickupTs, Rides, DemandCol]

  const NsPerMs := 1_000_000
  const MsPerHour := 3_600_000
  const NsPerHour := 3_600_000_000_000

  /** The nanosecond range of a pandas timestamp: 64-bit, the lowest value
      being reserved for NaT. */
  const MinNs := -9_223_372_036_854_775_807
  const MaxNs := 9_223_372_036_854_775_807

  const OutOfBounds := "Out of bounds nanosecond timestamp"

  /** The display columns, and the columns the normalisation touches, are
      distinct names. */
  lemma NamesDiffer()
    ensures Distinct(DisplayCols)
    ensures PredictionCol !in DisplayCols && PickupHour !in DisplayCols
    ensures PredictionCol != DemandCol && PickupHour != PickupTs && PickupHour != PredictionCol
  {
    assert |LocationId| == 18 && |PickupTs| == 9 && |Rides| == 5 && |DemandCol| == 16;
    assert |PredictionCol| == 25 && |PickupHour| == 11;
  }

  // ---------------------------------------------------------------------------
  // Timestamps

  predicate InRange(ns: int) {
    MinNs <= ns <= MaxNs
  }

  /** `pd.to_datetime(v, unit="ms", errors="coerce")` on one cell: a count of
      milliseconds since the epoch becomes that instant, or NaT when it lies
      outside the timestamp range; a fractional count is rounded down to
      whole nanoseconds here, where pandas' own rounding differs; NaN and
      text become NaT; a timestamp stays as it is. */
  function FromMillis(v: Value): (t: Value)
    ensures t.Missing? || (t.Time? && InRange(t.ns))
    ensures v.Int? ==> (t.Time? <==> InRange(v.i * NsPerMs)) && (t.Time? ==> t.ns == v.i * NsPerMs)
    ensures v.Missing? || v.Text? ==> t == Missing
  {
    match v
    case Int(ms) => if InRange(ms * NsPerMs) then Time(ms * NsPerMs) else Missing
    case Num(x) => var ns := (x * 1_000_000.0).Floor; if InRange(ns) then Time(ns) else Missing
    case Time(ns) => if InRange(ns) then Time(ns) else Missing
    case _ => Missing
  }

  /** The start of the hour holding instant `ns`. */
  function HourStart(ns: int): (h: int)
    ensures h % NsPerHour == 0 && h <= ns < h + NsPerHour
  {
    ns - ns % NsPerHour
  }

  /** `.dt.floor("h")` on one cell; NaT stays NaT. */
  function FloorHour(t: Value): (u: Value)
    ensures t.Time? ==> u == Time(HourStart(t.ns))
    ensures !t.Time? ==> u == t
  {
    if t.Time? then Time(HourStart(t.ns)) else t
  }

  /** Flooring a timestamp near the lower end of the range leaves it: pandas
      raises. */
  predicate FloorUnderflows(t: Value) {
    t.Time? && HourStart(t.ns) < MinNs
  }

  /** The start of an hour is its own start, and flooring keeps order. */
  lemma HourStartFacts(a: int, b: int)
    ensures HourStart(HourStart(a)) == HourStart(a)
    ensures a <= b ==> HourStart(a) <= HourStart(b)
    ensures HourStart(a) == HourStart(b) <==> a / NsPerHour == b / NsPerHour
  {
    var ha, hb := HourStart(a), HourStart(b);
    assert ha == (a / NsPerHour) * NsPerHour;
    assert hb == (b / NsPerHour) * NsPerHour;
  }

  /** An epoch-millisecond cell ends as a whole number of hours in
      milliseconds, at most the original and less than an hour before it. */
  lemma FloorOfMillis(ms: int)
    requires InRange(ms * NsPerMs) && !FloorUnderflows(FromMillis(Int(ms)))
    ensures var t := FloorHour(FromMillis(Int(ms)));
      && t.Time? && t.ns % NsPerMs == 0 && InRange(t.ns)
      && (t.ns / NsPerMs) % MsPerHour == 0
      && t.ns / NsPerMs <= ms < t.ns / NsPerMs + MsPerHour
  {
    var h := HourStart(ms * NsPerMs);
    var k := (ms * NsPerMs) / NsPerHour;
    assert h == k * NsPerHour;
    assert h == (k * MsPerHour) * NsPerMs;
    assert h / NsPerMs == k * MsPerHour;
  }

  // ---------------------------------------------------------------------------
  // load_predictions

  /** Step one: `predicted_rides_next_hour` becomes `predicted_demand`. */
  function RenamePrediction(df: Frame): (g: Frame)
    requires WellFormed(df)
    ensures WellFormed(g) && |g.rows| == |df.rows|
  {
    if PredictionCol in df.cols then Rename(df, PredictionCol, DemandCol) else df
  }

  /** Step two, when `pickup_ts` exists: epoch milliseconds to timestamps,
      then floored to the hour; a floor below the range raises. */
  function FloorTimestamps(df: Frame): (r: Result<Frame>)
    requires WellFormed(df) && PickupTs in df.cols
    ensures r.Err? <==> exists i :: 0 <= i < |df.rows| && FloorUnderflows(FromMillis(df.rows[i][PickupTs]))
    ensures r.Err? ==> r.error == ValueError(OutOfBounds)
    ensures r.Ok? ==> WellFormed(r.value) && r.value.cols == df.cols && |r.value.rows| == |df.rows|
  {
    var parsed := seq(|df.rows|, i requires 0 <= i < |df.rows| => FromMillis(df.rows[i][PickupTs]));
    if exists i :: 0 <= i < |df.rows| && FloorUnderflows(parsed[i]) then Err(ValueError(OutOfBounds))
    else Ok(SetColumn(df, PickupTs, seq(|df.rows|, i requires 0 <= i < |df.rows| => FloorHour(parsed[i]))))
  }

  /** Step three: `pickup_hour` is dropped if present. */
  function DropPickupHour(df: Frame): (g: Frame)
    requires WellFormed(df)
    ensures WellFormed(g) && |g.rows| == |df.rows|
    ensures forall c :: c in g.cols <==> c in df.cols && c != PickupHour
    ensures forall i, c :: 0 <= i < |g.rows| && c in g.cols ==> g.rows[i][c] == df.rows[i][c]
  {
    if PickupHour in df.cols then
      var names := [PickupHour];
      assert ColSet(names) == {PickupHour};
      Drop(df, names).value
    else df
  }

  /** The first two steps. */
  function Timed(df: Frame): (r: Result<Frame>)
    requires WellFormed(df)
    ensures r.Ok? ==> WellFormed(r.value) && |r.value.rows| == |df.rows|
    ensures r.Err? ==> r.error == ValueError(OutOfBounds)
  {
    var renamed := RenamePrediction(df);
    if PickupTs in renamed.cols then FloorTimestamps(renamed) else Ok(renamed)
  }

  /** The body of the `try` block on the frame read from the file: the three
      steps, then the display columns that exist, in display order. */
  function Normalise(df: Frame): (r: Result<Frame>)
    requires WellFormed(df)
    ensures r.Ok? ==> WellFormed(r.value) && |r.value.rows| == |df.rows|
    ensures r.Err? ==> r.error == ValueError(OutOfBounds)
  {
    match Timed(df)
    case Err(e) => Err(e)
    case Ok(t) =>
      NamesDiffer();
      Ok(SelectPresent(DropPickupHour(t), DisplayCols))
  }

  /** `load_predictions(path)` given what reading the file gave: any
      exception yields an empty frame. */
  function LoadPredictions(read: Result<Frame>): (g: Frame)
    requires read.Ok? ==> WellFormed(read.value)
    ensures WellFormed(g)
    ensures read.Err? ==> g == EmptyFrame
    ensures read.Ok? && Normalise(read.value).Err? ==> g == EmptyFrame
    ensures read.Ok? && Normalise(read.value).Ok? ==> |g.rows| == |read.value.rows|
  {
    match read
    case Err(_) => EmptyFrame
    case Ok(df) =>
      match Normalise(df)
      case Err(_) => EmptyFrame
      case Ok(g) => g
  }

  /** Whether display column `c` exists after the rename. */
  predicate Shown(df: Frame, c: string) {
    c in df.cols || (c == DemandCol && PredictionCol in df.cols)
  }

  /** The cell the dashboard shows for display column `c` of row `i`,
      stated on the file's own columns. */
  function ShownCell(df: Frame, i: nat, c: string): Value
    requires WellFormed(df) && i < |df.rows| && Shown(df, c)
  {
    if c == DemandCol && PredictionCol in df.cols then
      RowsHaveColumn(df, PredictionCol);
      df.rows[i][PredictionCol]
    else
      RowsHaveColumn(df, c);
      if c == PickupTs then FloorHour(FromMillis(df.rows[i][c])) else df.rows[i][c]
  }

  /** Loading fails only when some timestamp floors below the range. */
  lemma NormaliseFails(df: Frame)
    requires WellFormed(df)
    ensures Normalise(df).Err? <==>
      PickupTs in df.cols && exists i :: 0 <= i < |df.rows| && FloorUnderflows(FromMillis(df.rows[i][PickupTs]))
  {
    NamesDiffer();
    var renamed := RenamePrediction(df);
    assert PickupTs in renamed.cols <==> PickupTs in df.cols;
    if PickupTs in df.cols {
      assert forall i :: 0 <= i < |df.rows| ==> renamed.rows[i][PickupTs] == df.rows[i][PickupTs];
    }
  }

  /** After the three steps a display column exists exactly when the file
      has it, or has the prediction it is renamed from. */
  lemma PreparedColumns(df: Frame)
    requires WellFormed(df) && Timed(df).Ok?
    ensures forall k :: 0 <= k < |DisplayCols| ==>
      (DisplayCols[k] in DropPickupHour(Timed(df).value).cols <==> Shown(df, DisplayCols[k]))
  {
    NamesDiffer();
    var renamed := RenamePrediction(df);
    forall c | c in DisplayCols ensures c in renamed.cols <==> Shown(df, c) {
      if PredictionCol in df.cols {
        assert c in renamed.cols ==> c in df.cols || c == DemandCol;
      }
    }
  }

  /** The columns shown are exactly the display columns the file has (with
      `predicted_rides_next_hour` counting as `predicted_demand`), in display
      order. */
  lemma LoadedColumns(df: Frame)
    requires WellFormed(df) && Normalise(df).Ok?
    ensures Normalise(df).value.cols == Filter(DisplayCols, c => Shown(df, c))
    ensures forall c :: c in Normalise(df).value.cols <==> c in DisplayCols && Shown(df, c)
  {
    NamesDiffer();
    var d := DropPickupHour(Timed(df).value);
    PreparedColumns(df);
    PositionsAgree(DisplayCols, c => c in d.cols, DisplayCols, c => Shown(df, c));
    var g := Normalise(df).value;
    assert g.cols == Filter(DisplayCols, c => Shown(df, c));
    forall c | c in DisplayCols && Shown(df, c) ensures c in g.cols {
      var k :| 0 <= k < |DisplayCols| && DisplayCols[k] == c;
      var ps := Positions(DisplayCols, c => Shown(df, c));
      var j :| 0 <= j < |ps| && ps[j] == k;
      assert g.cols[j] == c;
    }
  }

  /** Every cell shown is the file's: `predicted_demand` holds the renamed
      prediction when the file has one, `pickup_ts` the floored timestamp,
      and the other columns their own values. */
  lemma LoadedCells(df: Frame, i: nat, c: string)
    requires WellFormed(df) && Normalise(df).Ok? && i < |df.rows|
    requires c in Normalise(df).value.cols
    ensures Shown(df, c) && Normalise(df).value.rows[i][c] == ShownCell(df, i, c)
  {
    NamesDiffer();
    LoadedColumns(df);
    var t := Timed(df).value;
    var g := Normalise(df).value;
    assert g.rows[i][c] == DropPickupHour(t).rows[i][c] == t.rows[i][c];
    TimedCell(df, i, c);
  }

  /** A display cell after the first two steps. */
  lemma TimedCell(df: Frame, i: nat, c: string)
    requires WellFormed(df) && Timed(df).Ok? && i < |df.rows|
    requires c in DisplayCols && Shown(df, c)
    ensures c in Timed(df).value.cols && Timed(df).value.rows[i][c] == ShownCell(df, i, c)
  {
    NamesDiffer();
    var renamed := RenamePrediction(df);
    RenamedCell(df, i, c);
    if c == PickupTs {
      RenamedCell(df, i, PickupTs);
    }
  }

  /** A display cell after the rename. */
  lemma RenamedCell(df: Frame, i: nat, c: string)
    requires WellFormed(df) && i < |df.rows| && c in DisplayCols && Shown(df, c)
    ensures var r := RenamePrediction(df);
      && c in r.cols
      && r.rows[i][c] == if c == DemandCol && PredictionCol in df.cols then df.rows[i][PredictionCol] else df.rows[i][c]
  {
    NamesDiffer();
    if PredictionCol in df.cols {
      RowsHaveColumn(df, PredictionCol);
    } else {
      RowsHaveColumn(df, c);
    }
  }


  // ---------------------------------------------------------------------------
  // plot_location_demand

  /** The rolling window of the trend line for `n` readings: about one
      twentieth of them, and at least one. */
  function TrendWindow(n: nat): (w: nat)
    ensures w >= 1
    ensures n >= 20 ==> 20 * w <= n < 20 * w + 20
    ensures n < 40 ==> w == 1
  {
    if n / 20 > 1 then n / 20 else 1
  }
}
