/** What `build_features` returns, row by row: which input rows survive the
    final `dropna`, what their lag, target and other cells hold, how many
    rows each location keeps, and how the two variants of the builder
    relate. */
module FeatureRows {
  import opened Frames
  import opened Features

  /** The columns the builder writes into a row. */
  ghost predicate Derived(c: string, n: nat, copySplit: bool) {
    || c == PickupTs || (copySplit && c == PickupTsSplit)
    || c == HourOfDayCol || c == DayOfWeekCol || c == MonthCol
    || c == Target || IsLagOf(c, n)
  }

  /** Row `i` of the input survives `dropna`: its timestamp parses, the cells
      of its own that the builder does not overwrite are present, and so are
      all of its lags and its target. */
  ghost predicate RowSurvives(dr: Row, parse: Value -> Option<int>, copySplit: bool,
                              keys: seq<Value>, vals: seq<Value>, i: nat, n: nat)
    requires PickupTs in dr && |keys| == |vals| && i < |keys|
  {
    && ParseTimestamp(parse, dr[PickupTs]).Time?
    && (forall c :: c in dr && !Derived(c, n, copySplit) ==> dr[c] != Missing)
    && (forall k :: 1 <= k <= n ==> LagAt(keys, vals, i, k) != Missing)
    && LeadAt(keys, vals, i) != Missing
  }

  /** Row `i` of the frame `dropna` sees. */
  function FullRow(dr: Row, parse: Value -> Option<int>, copySplit: bool,
                   keys: seq<Value>, vals: seq<Value>, i: nat, n: nat): Row
    requires PickupTs in dr && |keys| == |vals| && i < |keys|
  {
    LaggedRow(CalendarRow(dr, parse, copySplit), keys, vals, i, n)[Target := LeadAt(keys, vals, i)]
  }

  /** What each cell of that row holds. */
  lemma FullRowCells(dr: Row, parse: Value -> Option<int>, copySplit: bool,
                     keys: seq<Value>, vals: seq<Value>, i: nat, n: nat)
    requires PickupTs in dr && |keys| == |vals| && i < |keys|
    ensures var r := FullRow(dr, parse, copySplit, keys, vals, i, n);
      && Target in r && r[Target] == LeadAt(keys, vals, i)
      && (forall k :: 1 <= k <= n ==> LagName(k) in r && r[LagName(k)] == LagAt(keys, vals, i, k))
      && (forall c :: c in dr && !Derived(c, n, copySplit) ==> c in r && r[c] == dr[c])
  {
    FullRowLagCells(dr, parse, copySplit, keys, vals, i, n);
    FullRowOwnCells(dr, parse, copySplit, keys, vals, i, n);
  }

  /** The target and the lags. */
  lemma FullRowLagCells(dr: Row, parse: Value -> Option<int>, copySplit: bool,
                        keys: seq<Value>, vals: seq<Value>, i: nat, n: nat)
    requires PickupTs in dr && |keys| == |vals| && i < |keys|
    ensures var r := FullRow(dr, parse, copySplit, keys, vals, i, n);
      && Target in r && r[Target] == LeadAt(keys, vals, i)
      && (forall k :: 1 <= k <= n ==> LagName(k) in r && r[LagName(k)] == LagAt(keys, vals, i, k))
  {
    var cr := CalendarRow(dr, parse, copySplit);
    LaggedRowFacts(cr, keys, vals, i, n);
    forall k | 1 <= k <= n ensures LagName(k) != Target {
      LagNameFacts(k, k);
      FixedNamesAreNotLags();
    }
  }

  /** The input row's own cells that the builder does not write. */
  lemma FullRowOwnCells(dr: Row, parse: Value -> Option<int>, copySplit: bool,
                        keys: seq<Value>, vals: seq<Value>, i: nat, n: nat)
    requires PickupTs in dr && |keys| == |vals| && i < |keys|
    ensures var r := FullRow(dr, parse, copySplit, keys, vals, i, n);
      forall c :: c in dr && !Derived(c, n, copySplit) ==> c in r && r[c] == dr[c]
  {
    var cr := CalendarRow(dr, parse, copySplit);
    var lr := LaggedRow(cr, keys, vals, i, n);
    CalendarRowCells(dr, parse, copySplit);
    LaggedRowOnlyLags(cr, keys, vals, i, n);
    forall c | c in dr && !Derived(c, n, copySplit) ensures c in lr && lr[c] == dr[c] {
      assert !Derived(c, 0, copySplit);
    }
  }

  /** The calendar step's row: the parsed timestamp, its copy, the three
      fields, and the rest of the row as it was. */
  lemma CalendarRowCells(dr: Row, parse: Value -> Option<int>, copySplit: bool)
    requires PickupTs in dr
    ensures var cr, t := CalendarRow(dr, parse, copySplit), ParseTimestamp(parse, dr[PickupTs]);
      && PickupTs in cr && cr[PickupTs] == t
      && (copySplit ==> PickupTsSplit in cr && cr[PickupTsSplit] == t)
      && HourOfDayCol in cr && cr[HourOfDayCol] == HourCell(t)
      && DayOfWeekCol in cr && cr[DayOfWeekCol] == DayOfWeekCell(t)
      && MonthCol in cr && cr[MonthCol] == MonthCell(t)
      && (forall c :: c in cr ==> c in dr || c == HourOfDayCol || c == DayOfWeekCol || c == MonthCol
                                   || (copySplit && c == PickupTsSplit))
      && (forall c :: c in dr && !Derived(c, 0, copySplit) ==> c in cr && cr[c] == dr[c])
  {
    CalendarRowNewCells(dr, parse, copySplit);
    CalendarRowOtherCells(dr, parse, copySplit);
  }

  /** The cells the calendar step writes. */
  lemma CalendarRowNewCells(dr: Row, parse: Value -> Option<int>, copySplit: bool)
    requires PickupTs in dr
    ensures var cr, t := CalendarRow(dr, parse, copySplit), ParseTimestamp(parse, dr[PickupTs]);
      && PickupTs in cr && cr[PickupTs] == t
      && (copySplit ==> PickupTsSplit in cr && cr[PickupTsSplit] == t)
      && HourOfDayCol in cr && cr[HourOfDayCol] == HourCell(t)
      && DayOfWeekCol in cr && cr[DayOfWeekCol] == DayOfWeekCell(t)
      && MonthCol in cr && cr[MonthCol] == MonthCell(t)
  {
    FixedNamesDiffer();
  }

  /** The cells it leaves alone. */
  lemma CalendarRowOtherCells(dr: Row, parse: Value -> Option<int>, copySplit: bool)
    requires PickupTs in dr
    ensures var cr := CalendarRow(dr, parse, copySplit);
      && (forall c :: c in cr ==> c in dr || c == HourOfDayCol || c == DayOfWeekCol || c == MonthCol
                                   || (copySplit && c == PickupTsSplit))
      && (forall c :: c in dr && !Derived(c, 0, copySplit) ==> c in cr && cr[c] == dr[c])
  {
  }

  /** In the row of a survivor, the cells the lag and target steps do not
      write are present. */
  lemma SurvivorCalendarCell(dr: Row, parse: Value -> Option<int>, copySplit: bool,
                             keys: seq<Value>, vals: seq<Value>, i: nat, n: nat, c: string)
    requires PickupTs in dr && |keys| == |vals| && i < |keys|
    requires RowSurvives(dr, parse, copySplit, keys, vals, i, n)
    requires c in CalendarRow(dr, parse, copySplit) && !IsLagOf(c, n) && c != Target
    ensures CalendarRow(dr, parse, copySplit)[c] != Missing
  {
    CalendarRowCells(dr, parse, copySplit);
    if !(c == PickupTs || c == PickupTsSplit || c == HourOfDayCol || c == DayOfWeekCol || c == MonthCol) {
      assert c in dr && !Derived(c, n, copySplit);
    }
  }

  lemma SurvivorIsComplete(dr: Row, parse: Value -> Option<int>, copySplit: bool,
                           keys: seq<Value>, vals: seq<Value>, i: nat, n: nat)
    requires PickupTs in dr && |keys| == |vals| && i < |keys|
    requires RowSurvives(dr, parse, copySplit, keys, vals, i, n)
    ensures Complete(FullRow(dr, parse, copySplit, keys, vals, i, n))
  {
    var cr := CalendarRow(dr, parse, copySplit);
    var r := FullRow(dr, parse, copySplit, keys, vals, i, n);
    FullRowLagCells(dr, parse, copySplit, keys, vals, i, n);
    LaggedRowOnlyLags(cr, keys, vals, i, n);
    forall c | c in r ensures r[c] != Missing {
      if c != Target && !IsLagOf(c, n) {
        SurvivorCalendarCell(dr, parse, copySplit, keys, vals, i, n, c);
      }
    }
  }

  lemma CompleteIsSurvivor(dr: Row, parse: Value -> Option<int>, copySplit: bool,
                           keys: seq<Value>, vals: seq<Value>, i: nat, n: nat)
    requires PickupTs in dr && |keys| == |vals| && i < |keys|
    requires Complete(FullRow(dr, parse, copySplit, keys, vals, i, n))
    ensures RowSurvives(dr, parse, copySplit, keys, vals, i, n)
  {
    var cr := CalendarRow(dr, parse, copySplit);
    var r := FullRow(dr, parse, copySplit, keys, vals, i, n);
    FullRowCells(dr, parse, copySplit, keys, vals, i, n);
    CalendarRowCells(dr, parse, copySplit);
    LaggedRowFacts(cr, keys, vals, i, n);
    FixedNamesAreNotLags();
    FixedNamesDiffer();
    assert r[PickupTs] == cr[PickupTs];
  }

  /** `dropna` keeps row `i` exactly when it survives. */
  lemma FullRowCompleteIff(dr: Row, parse: Value -> Option<int>, copySplit: bool,
                           keys: seq<Value>, vals: seq<Value>, i: nat, n: nat)
    requires PickupTs in dr && |keys| == |vals| && i < |keys|
    ensures Complete(FullRow(dr, parse, copySplit, keys, vals, i, n))
        <==> RowSurvives(dr, parse, copySplit, keys, vals, i, n)
  {
    if RowSurvives(dr, parse, copySplit, keys, vals, i, n) {
      SurvivorIsComplete(dr, parse, copySplit, keys, vals, i, n);
    } else if Complete(FullRow(dr, parse, copySplit, keys, vals, i, n)) {
      CompleteIsSurvivor(dr, parse, copySplit, keys, vals, i, n);
    }
  }
  /** The calendar step leaves the location and ride columns alone. */
  lemma CalendarKeepsInputs(df: Frame, parse: Value -> Option<int>, copySplit: bool)
    requires WellFormed(df) && PickupTs in df.cols && LocationId in df.cols && Rides in df.cols
    ensures var cal := WithCalendar(df, parse, copySplit);
      && LocationId in cal.cols && Rides in cal.cols
      && Column(cal, LocationId) == Column(df, LocationId)
      && Column(cal, Rides) == Column(df, Rides)
  {
    var cal := WithCalendar(df, parse, copySplit);
    CalendarColumnsGained(df, parse, copySplit);
    FixedNamesDiffer();
    forall i | 0 <= i < |df.rows|
      ensures cal.rows[i][LocationId] == df.rows[i][LocationId] && cal.rows[i][Rides] == df.rows[i][Rides]
    {
      CalendarRowCells(df.rows[i], parse, copySplit);
    }
  }

  /** The frame `dropna` sees holds the full rows. */
  lemma LaggedIsFullRows(df: Frame, parse: Value -> Option<int>, n: nat, copySplit: bool)
    requires WellFormed(df) && PickupTs in df.cols && LocationId in df.cols && Rides in df.cols
    ensures var cal := WithCalendar(df, parse, copySplit);
      && LocationId in cal.cols && Rides in cal.cols
      && forall i :: 0 <= i < |df.rows| ==>
           Lagged(cal, n).rows[i] == FullRow(df.rows[i], parse, copySplit, Column(df, LocationId), Column(df, Rides), i, n)
  {
    CalendarKeepsInputs(df, parse, copySplit);
  }

  /** The inputs on which the builder returns a frame (see `BuildOutcome`). */
  predicate Buildable(df: Frame, n: nat) {
    WellFormed(df) && PickupTs in df.cols && n > 0 && LocationId in df.cols && Rides in df.cols
  }

  /** The frame the builder returns on a buildable input. */
  function Built(df: Frame, parse: Value -> Option<int>, n: nat, copySplit: bool): Frame
    requires Buildable(df, n)
  {
    CalendarKeepsInputs(df, parse, copySplit);
    DropNa(Lagged(WithCalendar(df, parse, copySplit), n))
  }

  /** On a buildable input the builder returns `Built`. */
  lemma BuildReturnsBuilt(df: Frame, parse: Value -> Option<int>, n: nat, copySplit: bool)
    requires Buildable(df, n)
    ensures Build(df, parse, n, copySplit).result == Ok(Built(df, parse, n, copySplit))
  {
    CalendarKeepsInputs(df, parse, copySplit);
  }

  /** The positions of the input rows that the builder returns. */
  function Survivors(df: Frame, parse: Value -> Option<int>, n: nat, copySplit: bool): seq<nat>
    requires Buildable(df, n)
  {
    CalendarKeepsInputs(df, parse, copySplit);
    Positions(Lagged(WithCalendar(df, parse, copySplit), n).rows, Complete)
  }

  /** The builder returns the surviving input rows, in input order, each as
      its full row; a row is returned exactly when it survives. */
  lemma BuildKeepsRows(df: Frame, parse: Value -> Option<int>, n: nat, copySplit: bool)
    requires Buildable(df, n)
    ensures (RowsHaveColumn(df, PickupTs);
      var out, ps := Built(df, parse, n, copySplit), Survivors(df, parse, n, copySplit);
      var keys, vals := Column(df, LocationId), Column(df, Rides);
      && |out.rows| == |ps|
      && (forall j, j' :: 0 <= j < j' < |ps| ==> ps[j] < ps[j'])
      && (forall j :: 0 <= j < |ps| ==>
            ps[j] < |df.rows| && out.rows[j] == FullRow(df.rows[ps[j]], parse, copySplit, keys, vals, ps[j], n))
      && (forall i :: 0 <= i < |df.rows| ==>
            (i in ps <==> RowSurvives(df.rows[i], parse, copySplit, keys, vals, i, n))))
  {
    var cal := WithCalendar(df, parse, copySplit);
    LaggedIsFullRows(df, parse, n, copySplit);
    var lagged := Lagged(cal, n);
    var out, ps := Built(df, parse, n, copySplit), Survivors(df, parse, n, copySplit);
    assert out.rows == Filter(lagged.rows, Complete);
    var keys, vals := Column(df, LocationId), Column(df, Rides);
    forall i | 0 <= i < |df.rows|
      ensures Complete(lagged.rows[i]) <==> RowSurvives(df.rows[i], parse, copySplit, keys, vals, i, n)
    {
      FullRowCompleteIff(df.rows[i], parse, copySplit, keys, vals, i, n);
    }
  }

  /** In a returned row, lag_k is the ride count of the k-th earlier row of
      the same location (see `LagAtIsKthEarlier`), the target that of the next
      one (see `LeadAtIsNext`), and every cell the builder does not write is
      the input row's own. */
  lemma BuildRowCells(df: Frame, parse: Value -> Option<int>, n: nat, copySplit: bool)
    requires Buildable(df, n)
    ensures var out, ps := Built(df, parse, n, copySplit), Survivors(df, parse, n, copySplit);
      var keys, vals := Column(df, LocationId), Column(df, Rides);
      && |out.rows| == |ps|
      && forall j :: 0 <= j < |ps| ==>
           && ps[j] < |df.rows|
           && Target in out.rows[j] && out.rows[j][Target] == LeadAt(keys, vals, ps[j])
           && (forall k :: 1 <= k <= n ==>
                 LagName(k) in out.rows[j] && out.rows[j][LagName(k)] == LagAt(keys, vals, ps[j], k))
           && (forall c :: c in df.rows[ps[j]] && !Derived(c, n, copySplit) ==>
                 c in out.rows[j] && out.rows[j][c] == df.rows[ps[j]][c])
  {
    BuildKeepsRows(df, parse, n, copySplit);
    RowsHaveColumn(df, PickupTs);
    var out, ps := Built(df, parse, n, copySplit), Survivors(df, parse, n, copySplit);
    var keys, vals := Column(df, LocationId), Column(df, Rides);
    forall j | 0 <= j < |ps|
      ensures ps[j] < |df.rows|
      ensures Target in out.rows[j] && out.rows[j][Target] == LeadAt(keys, vals, ps[j])
      ensures forall k :: 1 <= k <= n ==>
        LagName(k) in out.rows[j] && out.rows[j][LagName(k)] == LagAt(keys, vals, ps[j], k)
      ensures forall c :: c in df.rows[ps[j]] && !Derived(c, n, copySplit) ==>
        c in out.rows[j] && out.rows[j][c] == df.rows[ps[j]][c]
    {
      FullRowCells(df.rows[ps[j]], parse, copySplit, keys, vals, ps[j], n);
    }
  }

  /** A row whose `pickup_ts` does not parse becomes NaT and is dropped. */
  lemma UnparseableRowDropped(df: Frame, parse: Value -> Option<int>, n: nat, copySplit: bool, i: nat)
    requires Buildable(df, n)
    requires i < |df.rows| && ParseTimestamp(parse, df.rows[i][PickupTs]).Missing?
    ensures i !in Survivors(df, parse, n, copySplit)
  {
    BuildKeepsRows(df, parse, n, copySplit);
  }

  /** A row with a missing cell of its own that the builder does not
      overwrite is dropped too. */
  lemma MissingCellDropped(df: Frame, parse: Value -> Option<int>, n: nat, copySplit: bool, i: nat, c: string)
    requires Buildable(df, n)
    requires i < |df.rows| && c in df.rows[i] && !Derived(c, n, copySplit) && df.rows[i][c] == Missing
    ensures i !in Survivors(df, parse, n, copySplit)
  {
    BuildKeepsRows(df, parse, n, copySplit);
  }
  // ---------------------------------------------------------------------------
  // How many rows a location keeps

  /** Row `i` has a location, at least `n` earlier rows of it and a later one. */
  predicate HasLagsAndNext(keys: seq<Value>, i: nat, n: nat)
    requires i < |keys|
  {
    keys[i] != Missing && Count(keys[..i], keys[i]) >= n && Count(keys[i + 1..], keys[i]) >= 1
  }

  /** How many of the first `i` rows are at location `l` and have their lags
      and next row. */
  function KeptBefore(keys: seq<Value>, n: nat, l: Value, i: nat): nat
    requires i <= |keys|
  {
    if i == 0 then 0
    else KeptBefore(keys, n, l, i - 1) + (if keys[i - 1] == l && HasLagsAndNext(keys, i - 1, n) then 1 else 0)
  }

  function Max0(x: int): nat {
    if x < 0 then 0 else x
  }

  lemma CountSnoc(keys: seq<Value>, i: nat, l: Value)
    requires i < |keys|
    ensures Count(keys[..i + 1], l) == Count(keys[..i], l) + (if keys[i] == l then 1 else 0)
  {
    assert keys[..i + 1][..i] == keys[..i];
  }

  /** The count of kept rows of `l` among the first `c` rows of `l`, when
      `l` has `m` rows in all. */
  function KeptOf(c: int, m: int, n: nat): nat {
    Max0((if c < m - 1 then c else m - 1) - n)
  }

  /** One more row of `l`, with `rest` rows of `l` after it, adds one to the
      count exactly when it has its lags and a later row. */
  lemma KeptOfStep(c: nat, rest: nat, n: nat)
    ensures KeptOf(c + 1, c + 1 + rest, n) == KeptOf(c, c + 1 + rest, n) + (if c >= n && rest >= 1 then 1 else 0)
  {
  }

  /** Of the rows of location `l` seen so far, all but the first `n` and
      the very last one of the whole input count. */
  lemma {:induction false} KeptBeforeCount(keys: seq<Value>, n: nat, l: Value, i: nat)
    requires i <= |keys| && l != Missing
    ensures KeptBefore(keys, n, l, i) == KeptOf(Count(keys[..i], l), Count(keys, l), n)
    decreases i
  {
    if i > 0 {
      var j := i - 1;
      KeptBeforeCount(keys, n, l, j);
      CountSnoc(keys, j, l);
      var c, rest := Count(keys[..j], l), Count(keys[j + 1..], l);
      assert Count(keys, l) == Count(keys[..j + 1], l) + rest by {
        assert keys == keys[..j + 1] + keys[j + 1..];
        CountAppend(keys[..j + 1], keys[j + 1..], l);
      }
      if keys[j] == l {
        assert HasLagsAndNext(keys, j, n) <==> c >= n && rest >= 1;
        KeptOfStep(c, rest, n);
      }
    } else {
      assert keys[..0] == [];
    }
  }

  lemma CountTotal(m: nat, n: nat)
    ensures KeptOf(m, m, n) == Max0(m - n - 1)
  {
  }

  /** Keeps the rows at location `l`. */
  function AtLocation(l: Value): Row -> bool {
    (r: Row) => LocationId in r && r[LocationId] == l
  }

  /** No missing cell anywhere in the input, and every timestamp parses. */
  predicate Clean(df: Frame, parse: Value -> Option<int>)
    requires WellFormed(df) && PickupTs in df.cols
  {
    forall i :: 0 <= i < |df.rows| ==> Complete(df.rows[i]) && ParseTimestamp(parse, df.rows[i][PickupTs]).Time?
  }

  lemma LocationNotDerived(n: nat, copySplit: bool)
    ensures !Derived(LocationId, n, copySplit)
  {
    FixedNamesDiffer();
    FixedNamesAreNotLags();
    if IsLagOf(LocationId, n) {
      LagOfIsLagColumn(LocationId, n);
    }
  }

  /** When no ride count is missing, a row has all its lags and its target
      exactly when it has `n` earlier rows of its location and a later one. */
  lemma LagsPresentIff(keys: seq<Value>, vals: seq<Value>, i: nat, n: nat)
    requires |keys| == |vals| && i < |keys| && n >= 1
    requires forall p :: 0 <= p < |vals| ==> vals[p] != Missing
    ensures ((forall k :: 1 <= k <= n ==> LagAt(keys, vals, i, k) != Missing) && LeadAt(keys, vals, i) != Missing)
        <==> HasLagsAndNext(keys, i, n)
  {
    LeadAtDefined(keys, vals, i);
    LagAtDefined(keys, vals, i, n);
    if HasLagsAndNext(keys, i, n) {
      forall k | 1 <= k <= n ensures LagAt(keys, vals, i, k) != Missing {
        LagAtDefined(keys, vals, i, k);
      }
    }
  }

  /** On a clean input a row survives exactly when it has `n` earlier rows of
      its location and a later one. */
  lemma CleanSurvives(df: Frame, parse: Value -> Option<int>, n: nat, copySplit: bool, i: nat)
    requires Buildable(df, n) && Clean(df, parse) && i < |df.rows|
    ensures RowSurvives(df.rows[i], parse, copySplit, Column(df, LocationId), Column(df, Rides), i, n)
        <==> HasLagsAndNext(Column(df, LocationId), i, n)
  {
    var keys, vals := Column(df, LocationId), Column(df, Rides);
    forall p | 0 <= p < |vals| ensures vals[p] != Missing {
      assert Complete(df.rows[p]);
    }
    LagsPresentIff(keys, vals, i, n);
    assert Complete(df.rows[i]);
  }

  /** The rows `dropna` sees, one per input row. */
  function FullRows(df: Frame, parse: Value -> Option<int>, n: nat, copySplit: bool): (rs: seq<Row>)
    requires Buildable(df, n)
    ensures |rs| == |df.rows|
  {
    var keys, vals := Column(df, LocationId), Column(df, Rides);
    seq(|df.rows|, i requires 0 <= i < |df.rows| => FullRow(df.rows[i], parse, copySplit, keys, vals, i, n))
  }

  /** Counting the kept rows of `l` row by row, for any `keep` that keeps
      exactly the rows with their lags and next row. */
  lemma {:induction false} KeptPrefix<T>(rs: seq<T>, keep: T -> bool, at: T -> bool,
                                         keys: seq<Value>, n: nat, l: Value, i: nat)
    requires |rs| == |keys| && i <= |rs|
    requires forall j :: 0 <= j < |rs| ==> (keep(rs[j]) <==> HasLagsAndNext(keys, j, n))
    requires forall j :: 0 <= j < |rs| ==> (at(rs[j]) <==> keys[j] == l)
    ensures |Filter(Filter(rs[..i], keep), at)| == KeptBefore(keys, n, l, i)
    decreases i
  {
    if i == 0 {
      assert rs[..0] == [];
    } else {
      var j := i - 1;
      KeptPrefix(rs, keep, at, keys, n, l, j);
      var x := rs[j];
      var f := Filter(rs[..j], keep);
      assert rs[..i] == rs[..j] + [x];
      FilterSnoc(rs[..j], x, keep);
      if keep(x) {
        assert Filter(rs[..i], keep) == f + [x];
        FilterSnoc(f, x, at);
        assert |Filter(f + [x], at)| == |Filter(f, at)| + (if at(x) then 1 else 0);
      } else {
        assert Filter(rs[..i], keep) == f;
      }
    }
  }

  /** The returned rows are the complete full rows. */
  lemma BuiltIsFilteredFullRows(df: Frame, parse: Value -> Option<int>, n: nat, copySplit: bool)
    requires Buildable(df, n)
    ensures Built(df, parse, n, copySplit).rows == Filter(FullRows(df, parse, n, copySplit), Complete)
  {
    LaggedIsFullRows(df, parse, n, copySplit);
    assert Lagged(WithCalendar(df, parse, copySplit), n).rows == FullRows(df, parse, n, copySplit);
  }

  /** On a clean input, which full rows are complete and which are at `l`. */
  lemma CleanFullRows(df: Frame, parse: Value -> Option<int>, n: nat, copySplit: bool, l: Value)
    requires Buildable(df, n) && Clean(df, parse)
    ensures var rs, keys := FullRows(df, parse, n, copySplit), Column(df, LocationId);
      && (forall j :: 0 <= j < |rs| ==> (Complete(rs[j]) <==> HasLagsAndNext(keys, j, n)))
      && (forall j :: 0 <= j < |rs| ==> (AtLocation(l)(rs[j]) <==> keys[j] == l))
  {
    var rs := FullRows(df, parse, n, copySplit);
    var keys, vals := Column(df, LocationId), Column(df, Rides);
    LocationNotDerived(n, copySplit);
    forall j | 0 <= j < |rs|
      ensures Complete(rs[j]) <==> HasLagsAndNext(keys, j, n)
      ensures AtLocation(l)(rs[j]) <==> keys[j] == l
    {
      FullRowCompleteIff(df.rows[j], parse, copySplit, keys, vals, j, n);
      CleanSurvives(df, parse, n, copySplit, j);
      FullRowCells(df.rows[j], parse, copySplit, keys, vals, j, n);
    }
  }

  /** `out` is `rs` filtered by `keep`, which keeps exactly the rows with
      their lags and next row, and `at` picks the rows of `l`. */
  ghost predicate CountSetup<T>(out: seq<T>, rs: seq<T>, keep: T -> bool, at: T -> bool,
                                keys: seq<Value>, n: nat, l: Value)
  {
    && out == Filter(rs, keep) && |rs| == |keys| && l != Missing
    && (forall j :: 0 <= j < |rs| ==> (keep(rs[j]) <==> HasLagsAndNext(keys, j, n)))
    && (forall j :: 0 <= j < |rs| ==> (at(rs[j]) <==> keys[j] == l))
  }

  /** The count over the whole sequence. */
  lemma KeptTotal<T>(out: seq<T>, rs: seq<T>, keep: T -> bool, at: T -> bool, keys: seq<Value>, n: nat, l: Value)
    requires CountSetup(out, rs, keep, at, keys, n, l)
    ensures |Filter(out, at)| == Max0(Count(keys, l) - n - 1)
  {
    var m := Count(keys, l);
    assert |Filter(out, at)| == KeptBefore(keys, n, l, |keys|) by {
      assert rs[..|rs|] == rs;
      KeptPrefix(rs, keep, at, keys, n, l, |rs|);
    }
    assert KeptBefore(keys, n, l, |keys|) == KeptOf(m, m, n) by {
      KeptBeforeCount(keys, n, l, |keys|);
      assert keys[..|keys|] == keys;
    }
    CountTotal(m, n);
  }

  /** With no other missing value, a location with m input rows keeps
      max(0, m - n - 1) of them: its first n rows lack lag_n and its last
      row lacks a target. `keys` is the input's location column. */
  lemma LocationRowCount(df: Frame, parse: Value -> Option<int>, n: nat, copySplit: bool, l: Value, keys: seq<Value>)
    requires Buildable(df, n) && Clean(df, parse) && l != Missing
    requires keys == Column(df, LocationId)
    ensures |Filter(Built(df, parse, n, copySplit).rows, AtLocation(l))| == Max0(Count(keys, l) - n - 1)
  {
    var rs := FullRows(df, parse, n, copySplit);
    var out := Built(df, parse, n, copySplit).rows;
    assert CountSetup(out, rs, Complete, AtLocation(l), keys, n, l) by {
      BuiltIsFilteredFullRows(df, parse, n, copySplit);
      CleanFullRows(df, parse, n, copySplit, l);
    }
    KeptTotal(out, rs, Complete, AtLocation(l), keys, n, l);
  }
}
