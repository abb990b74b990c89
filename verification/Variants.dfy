/** The two copies of `build_features` side by side: the one in
    `src/test_features.py` returns what the one in `src/features.py`
    returns, less the `pickup_ts_split` column, provided the input does not
    already carry a `pickup_ts_split` of its own. */
module Variants {
  import opened Frames
  import opened Features
  import opened FeatureRows

  // ---------------------------------------------------------------------------
  // Rows

  /** Setting lags commutes with removing a column that is not a lag. */
  lemma {:induction false} LaggedRowWithout(r: Row, keys: seq<Value>, vals: seq<Value>, i: nat, k: nat, s: string)
    requires |keys| == |vals| && i < |keys| && !IsLagColumn(s)
    ensures LaggedRow(r - {s}, keys, vals, i, k) == LaggedRow(r, keys, vals, i, k) - {s}
    decreases k
  {
    if k > 0 {
      LaggedRowWithout(r, keys, vals, i, k - 1, s);
      LagNameIsNot(k, s);
    }
  }

  /** Without the copy, the calendar step's row is the one with the copy
      minus the copy. */
  lemma CalendarRowWithoutSplit(dr: Row, parse: Value -> Option<int>)
    requires PickupTs in dr && PickupTsSplit !in dr
    ensures CalendarRow(dr, parse, false) == CalendarRow(dr, parse, true) - {PickupTsSplit}
  {
    FixedNamesDiffer();
  }

  /** The same holds for the row `dropna` sees. */
  lemma FullRowWithoutSplit(dr: Row, parse: Value -> Option<int>, keys: seq<Value>, vals: seq<Value>, i: nat, n: nat)
    requires PickupTs in dr && PickupTsSplit !in dr && |keys| == |vals| && i < |keys|
    ensures FullRow(dr, parse, false, keys, vals, i, n) == FullRow(dr, parse, true, keys, vals, i, n) - {PickupTsSplit}
  {
    CalendarRowWithoutSplit(dr, parse);
    FixedNamesAreNotLags();
    FixedNamesDiffer();
    LaggedRowWithout(CalendarRow(dr, parse, true), keys, vals, i, n, PickupTsSplit);
  }

  /** The copy repeats the timestamp, so it never decides whether a row is
      complete. */
  lemma FullRowCompleteAlike(dr: Row, parse: Value -> Option<int>, keys: seq<Value>, vals: seq<Value>, i: nat, n: nat)
    requires PickupTs in dr && PickupTsSplit !in dr && |keys| == |vals| && i < |keys|
    ensures Complete(FullRow(dr, parse, false, keys, vals, i, n)) <==> Complete(FullRow(dr, parse, true, keys, vals, i, n))
  {
    var cr := CalendarRow(dr, parse, true);
    var r := FullRow(dr, parse, true, keys, vals, i, n);
    FullRowWithoutSplit(dr, parse, keys, vals, i, n);
    CalendarRowCells(dr, parse, true);
    LaggedRowFacts(cr, keys, vals, i, n);
    FixedNamesAreNotLags();
    FixedNamesDiffer();
    assert PickupTsSplit in r && PickupTs in r && r[PickupTsSplit] == r[PickupTs];
    var r' := r - {PickupTsSplit};
    if Complete(r') {
      forall c | c in r ensures r[c] != Missing {
        if c == PickupTsSplit {
          assert r'[PickupTs] == r[PickupTs];
        } else {
          assert r'[c] == r[c];
        }
      }
    }
  }

  // ---------------------------------------------------------------------------
  // Column lists

  lemma WithoutSnoc(cols: seq<string>, c: string, gone: set<string>)
    ensures Without(cols + [c], gone) == Without(cols, gone) + (if c in gone then [] else [c])
  {
    assert (cols + [c])[..|cols|] == cols;
  }

  /** Adding a name other than `s` commutes with removing `s`. */
  lemma AddNameWithout(cols: seq<string>, c: string, s: string)
    requires c != s
    ensures Without(AddName(cols, c), {s}) == AddName(Without(cols, {s}), c)
  {
    if c !in cols {
      WithoutSnoc(cols, c, {s});
    }
  }

  /** Removing a name that is absent changes nothing. */
  lemma {:induction false} WithoutAbsent(cols: seq<string>, s: string)
    requires s !in cols
    ensures Without(cols, {s}) == cols
    decreases |cols|
  {
    if |cols| > 0 {
      var init := cols[..|cols| - 1];
      assert cols == init + [cols[|cols| - 1]];
      WithoutAbsent(init, s);
      WithoutSnoc(init, cols[|cols| - 1], {s});
    }
  }

  lemma LagNameIsNot(k: nat, s: string)
    requires !IsLagColumn(s)
    ensures LagName(k) != s
  {
    LagNameFacts(k, k);
  }

  lemma {:induction false} LagColumnsWithout(cols: seq<string>, k: nat, s: string)
    requires !IsLagColumn(s)
    ensures Without(LagColumns(cols, k), {s}) == LagColumns(Without(cols, {s}), k)
    decreases k
  {
    if k > 0 {
      var x, name := LagColumns(cols, k - 1), LagName(k);
      LagColumnsWithout(cols, k - 1, s);
      LagNameIsNot(k, s);
      AddNameWithout(x, name, s);
    }
  }

  /** The column lists of the two variants. */
  lemma CalendarColumnsWithoutSplit(cols: seq<string>)
    requires PickupTsSplit !in cols
    ensures Without(CalendarColumns(cols, true), {PickupTsSplit}) == CalendarColumns(cols, false)
  {
    FixedNamesDiffer();
    var c1 := AddName(cols, PickupTs);
    assert PickupTsSplit !in c1;
    WithoutAbsent(c1, PickupTsSplit);
    WithoutSnoc(c1, PickupTsSplit, {PickupTsSplit});
    var c2 := AddName(c1, PickupTsSplit);
    AddNameWithout(c2, HourOfDayCol, PickupTsSplit);
    AddNameWithout(AddName(c2, HourOfDayCol), DayOfWeekCol, PickupTsSplit);
    AddNameWithout(AddName(AddName(c2, HourOfDayCol), DayOfWeekCol), MonthCol, PickupTsSplit);
  }

  // ---------------------------------------------------------------------------
  // Frames

  /** Both variants keep the same input rows. */
  lemma SameSurvivors(df: Frame, parse: Value -> Option<int>, n: nat)
    requires Buildable(df, n) && PickupTsSplit !in df.cols
    ensures Survivors(df, parse, n, false) == Survivors(df, parse, n, true)
  {
    var keys, vals := Column(df, LocationId), Column(df, Rides);
    LaggedIsFullRows(df, parse, n, false);
    LaggedIsFullRows(df, parse, n, true);
    CalendarKeepsInputs(df, parse, false);
    CalendarKeepsInputs(df, parse, true);
    var a := Lagged(WithCalendar(df, parse, false), n).rows;
    var b := Lagged(WithCalendar(df, parse, true), n).rows;
    forall i | 0 <= i < |a| ensures Complete(a[i]) == Complete(b[i]) {
      assert df.rows[i].Keys == ColSet(df.cols);
      FullRowCompleteAlike(df.rows[i], parse, keys, vals, i, n);
    }
    PositionsAgree(a, Complete, b, Complete);
  }

  /** The column lists of the two returned frames. */
  lemma BuiltColumnsWithoutSplit(df: Frame, parse: Value -> Option<int>, n: nat)
    requires Buildable(df, n) && PickupTsSplit !in df.cols
    ensures Built(df, parse, n, false).cols == Without(Built(df, parse, n, true).cols, {PickupTsSplit})
  {
    FixedNamesDiffer();
    FixedNamesAreNotLags();
    CalendarColumnsWithoutSplit(df.cols);
    LagColumnsWithout(CalendarColumns(df.cols, true), n, PickupTsSplit);
    AddNameWithout(LagColumns(CalendarColumns(df.cols, true), n), Target, PickupTsSplit);
  }

  /** `build_features` of `src/test_features.py` returns the frame that of
      `src/features.py` returns, with the `pickup_ts_split` column removed:
      the same columns otherwise, in the same order, and the same rows with
      the same cells. */
  lemma WithoutSplitMatches(df: Frame, parse: Value -> Option<int>, n: nat)
    requires Buildable(df, n) && PickupTsSplit !in df.cols
    ensures var a, b := Built(df, parse, n, false), Built(df, parse, n, true);
      && a.cols == Without(b.cols, {PickupTsSplit})
      && |a.rows| == |b.rows|
      && forall j :: 0 <= j < |a.rows| ==> a.rows[j] == b.rows[j] - {PickupTsSplit}
  {
    var a, b := Built(df, parse, n, false), Built(df, parse, n, true);
    var keys, vals := Column(df, LocationId), Column(df, Rides);
    BuiltColumnsWithoutSplit(df, parse, n);
    SameSurvivors(df, parse, n);
    BuildKeepsRows(df, parse, n, false);
    BuildKeepsRows(df, parse, n, true);
    RowsHaveColumn(df, PickupTs);
    var ps := Survivors(df, parse, n, true);
    forall j | 0 <= j < |a.rows| ensures a.rows[j] == b.rows[j] - {PickupTsSplit} {
      assert df.rows[ps[j]].Keys == ColSet(df.cols);
      FullRowWithoutSplit(df.rows[ps[j]], parse, keys, vals, ps[j], n);
    }
  }
}
