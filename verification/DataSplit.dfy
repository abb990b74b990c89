/** `train_test_split` of `src/data_split.py`: a time-based split on the
    `pickup_ts_split` column, the target and split columns taken off the
    features, and the remaining datetime columns turned into seconds. */
module DataSplit {
  import opened Frames
  import opened Seconds
  import opened Features

  /** `df.pickup_ts_split < cutoff_date`; NaT compares false. */
  function Before(cutoff: int): Row -> bool {
    (r: Row) => PickupTsSplit in r && r[PickupTsSplit].Time? && r[PickupTsSplit].ns < cutoff
  }

  /** `df.pickup_ts_split >= cutoff_date`; NaT compares false. */
  function NotBefore(cutoff: int): Row -> bool {
    (r: Row) => PickupTsSplit in r && r[PickupTsSplit].Time? && r[PickupTsSplit].ns >= cutoff
  }

  /** The row has a split timestamp at all. */
  function HasSplitTime(r: Row): bool {
    PickupTsSplit in r && r[PickupTsSplit].Time?
  }

  /** Comparing the column with a timestamp works only when it holds
      timestamps and NaT; anything else raises TypeError. */
  predicate Comparable(df: Frame)
    requires WellFormed(df) && PickupTsSplit in df.cols
  {
    var vs := Column(df, PickupTsSplit);
    forall i :: 0 <= i < |vs| ==> vs[i].Time? || vs[i].Missing?
  }

  datatype Split = Split(xTrain: Frame, yTrain: seq<Value>, xTest: Frame, yTest: seq<Value>)

  /** The features of one partition: target and split column dropped, then
      the columns that are datetime in the input turned into seconds. */
  function PartitionFeatures(part: Frame, target: string, dt: set<string>): (r: Result<Frame>)
    requires WellFormed(part)
    ensures r.Err? <==> target !in part.cols || PickupTsSplit !in part.cols
    ensures r.Ok? ==> WellFormed(r.value) && r.value.cols == Without(part.cols, {target, PickupTsSplit})
    ensures r.Ok? ==> |r.value.rows| == |part.rows|
  {
    var names := [target, PickupTsSplit];
    assert ColSet(names) == {target, PickupTsSplit};
    assert names[0] == target && names[1] == PickupTsSplit;
    match Drop(part, names)
    case Err(e) => Err(e)
    case Ok(x) => Ok(ToSeconds(x, dt))
  }

  /** `train_test_split(df, cutoff_date, target_column_name)`, the cutoff in
      nanoseconds since the epoch. */
  function TrainTestSplit(df: Frame, cutoff: int, target: string): (r: Result<Split>)
    requires WellFormed(df)
    ensures PickupTsSplit !in df.cols ==> r == Err(AttributeError(PickupTsSplit))
    ensures PickupTsSplit in df.cols && !Comparable(df) ==> r == Err(TypeError(PickupTsSplit))
    ensures PickupTsSplit in df.cols && Comparable(df) && target !in df.cols ==> r == Err(KeyError(target))
    ensures r.Ok? <==> PickupTsSplit in df.cols && Comparable(df) && target in df.cols
  {
    if PickupTsSplit !in df.cols then Err(AttributeError(PickupTsSplit))
    else if !Comparable(df) then Err(TypeError(PickupTsSplit))
    else if target !in df.cols then Err(KeyError(target))
    else
      var train, test := Where(df, Before(cutoff)), Where(df, NotBefore(cutoff));
      var dt := DatetimeColumns(df);
      var xTrain, xTest := PartitionFeatures(train, target, dt), PartitionFeatures(test, target, dt);
      Ok(Split(xTrain.value, Column(train, target), xTest.value, Column(test, target)))
  }

  /** What the training partition holds: the rows before the cutoff, in
      input order, each with its target in `y_train` at the same place, and
      every column but the target and the split column. */
  lemma TrainPartition(df: Frame, cutoff: int, target: string)
    requires WellFormed(df) && PickupTsSplit in df.cols && Comparable(df) && target in df.cols
    ensures var s, ps := TrainTestSplit(df, cutoff, target).value, Positions(df.rows, Before(cutoff));
      && s.xTrain.cols == Without(df.cols, {target, PickupTsSplit})
      && |s.xTrain.rows| == |s.yTrain| == |ps|
      && (forall j :: 0 <= j < |ps| ==>
            ps[j] < |df.rows| && target in df.rows[ps[j]] && s.yTrain[j] == df.rows[ps[j]][target])
      && (forall j, c :: 0 <= j < |ps| && c in s.xTrain.cols ==>
            ps[j] < |df.rows| && s.xTrain.rows[j][c] == ConvertedCell(df, ps[j], c))
  {
    PartitionCells(df, Before(cutoff), target);
  }

  /** The same for the test partition, the rows at or after the cutoff. */
  lemma TestPartition(df: Frame, cutoff: int, target: string)
    requires WellFormed(df) && PickupTsSplit in df.cols && Comparable(df) && target in df.cols
    ensures var s, ps := TrainTestSplit(df, cutoff, target).value, Positions(df.rows, NotBefore(cutoff));
      && s.xTest.cols == Without(df.cols, {target, PickupTsSplit})
      && |s.xTest.rows| == |s.yTest| == |ps|
      && (forall j :: 0 <= j < |ps| ==>
            ps[j] < |df.rows| && target in df.rows[ps[j]] && s.yTest[j] == df.rows[ps[j]][target])
      && (forall j, c :: 0 <= j < |ps| && c in s.xTest.cols ==>
            ps[j] < |df.rows| && s.xTest.rows[j][c] == ConvertedCell(df, ps[j], c))
  {
    PartitionCells(df, NotBefore(cutoff), target);
  }

  /** One partition, for either side of the cutoff. */
  lemma PartitionCells(df: Frame, keep: Row -> bool, target: string)
    requires WellFormed(df) && PickupTsSplit in df.cols && target in df.cols
    ensures var part, ps := Where(df, keep), Positions(df.rows, keep);
      var x := PartitionFeatures(part, target, DatetimeColumns(df)).value;
      && x.cols == Without(df.cols, {target, PickupTsSplit})
      && |x.rows| == |Column(part, target)| == |ps|
      && (forall j :: 0 <= j < |ps| ==>
            ps[j] < |df.rows| && target in df.rows[ps[j]] && Column(part, target)[j] == df.rows[ps[j]][target])
      && (forall j, c :: 0 <= j < |ps| && c in x.cols ==>
            ps[j] < |df.rows| && x.rows[j][c] == ConvertedCell(df, ps[j], c))
  {
    var part, ps := Where(df, keep), Positions(df.rows, keep);
    var x := PartitionFeatures(part, target, DatetimeColumns(df)).value;
    RowsHaveColumn(df, target);
    forall j, c | 0 <= j < |ps| && c in x.cols
      ensures x.rows[j][c] == ConvertedCell(df, ps[j], c)
    {
      var dropped := Drop(part, [target, PickupTsSplit]).value;
      assert c in dropped.cols;
      assert dropped.rows[j] == part.rows[j] - ColSet([target, PickupTsSplit]);
      assert c !in ColSet([target, PickupTsSplit]);
    }
  }

  /** Which rows land where: a row with a split timestamp lands in exactly
      one partition, on the side of the cutoff its timestamp is; a row whose
      timestamp is NaT lands in neither. */
  lemma SplitSides(df: Frame, cutoff: int, i: nat)
    requires WellFormed(df) && PickupTsSplit in df.cols && i < |df.rows|
    ensures var tr, te := Positions(df.rows, Before(cutoff)), Positions(df.rows, NotBefore(cutoff));
      var v := df.rows[i][PickupTsSplit];
      && (i in tr <==> v.Time? && v.ns < cutoff)
      && (i in te <==> v.Time? && v.ns >= cutoff)
      && !(i in tr && i in te)
      && (v.Missing? ==> i !in tr && i !in te)
  {
    RowsHaveColumn(df, PickupTsSplit);
  }

  /** Together the two partitions hold each row with a split timestamp
      exactly once. */
  lemma SplitCovers(df: Frame, cutoff: int)
    requires WellFormed(df)
    ensures multiset(Where(df, Before(cutoff)).rows) + multiset(Where(df, NotBefore(cutoff)).rows)
         == multiset(Filter(df.rows, HasSplitTime))
    ensures |Where(df, Before(cutoff)).rows| + |Where(df, NotBefore(cutoff)).rows|
         == |Filter(df.rows, HasSplitTime)|
  {
    FilterMultiset(df.rows, Before(cutoff), NotBefore(cutoff), HasSplitTime);
    var a, b := Where(df, Before(cutoff)).rows, Where(df, NotBefore(cutoff)).rows;
    assert |multiset(a) + multiset(b)| == |multiset(Filter(df.rows, HasSplitTime))|;
  }

  /** A cutoff after every split timestamp leaves the test partition empty,
      and one at or before every timestamp leaves the training partition
      empty; neither is an error. */
  lemma CutoffOutsideRange(df: Frame, cutoff: int, target: string)
    requires WellFormed(df) && PickupTsSplit in df.cols && Comparable(df) && target in df.cols
    ensures (forall i :: 0 <= i < |df.rows| ==> !NotBefore(cutoff)(df.rows[i])) ==>
      TrainTestSplit(df, cutoff, target).Ok? && |TrainTestSplit(df, cutoff, target).value.xTest.rows| == 0
    ensures (forall i :: 0 <= i < |df.rows| ==> !Before(cutoff)(df.rows[i])) ==>
      TrainTestSplit(df, cutoff, target).Ok? && |TrainTestSplit(df, cutoff, target).value.xTrain.rows| == 0
  {
    PartitionCells(df, Before(cutoff), target);
    PartitionCells(df, NotBefore(cutoff), target);
    if forall i :: 0 <= i < |df.rows| ==> !NotBefore(cutoff)(df.rows[i]) {
      NoneKept(df.rows, NotBefore(cutoff));
    }
    if forall i :: 0 <= i < |df.rows| ==> !Before(cutoff)(df.rows[i]) {
      NoneKept(df.rows, Before(cutoff));
    }
  }

  lemma NoneKept<T>(s: seq<T>, keep: T -> bool)
    requires forall i :: 0 <= i < |s| ==> !keep(s[i])
    ensures |Positions(s, keep)| == 0
  {
  }
}
