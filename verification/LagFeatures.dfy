/** `build_lag_features` of `src/features.py`: sort the rows by `pickup_ts`,
    shift the ride count across all rows at once (the location is ignored),
    and keep the rows with no missing cell. The caller's frame is copied
    first and stays as it was. */
module LagFeatures {
  import opened Frames
  import opened Features
  import opened FeatureStore

  /** A key column that puts every row in one group, so the grouped shift
      becomes the plain `Series.shift`. */
  function OneGroup(m: nat): (keys: seq<Value>)
    ensures |keys| == m
    ensures forall i :: 0 <= i < m ==> keys[i] == Int(0)
  {
    seq(m, _ => Int(0))
  }

  /** The positions 0 .. n - 1. */
  function Upto(n: nat): (ps: seq<nat>)
    ensures |ps| == n && forall j :: 0 <= j < n ==> ps[j] == j
  {
    seq(n, j requires 0 <= j => j)
  }

  /** In a key column that is `key` throughout, every position matches. */
  lemma {:induction false} MatchesEvery(keys: seq<Value>, key: Value)
    requires forall i :: 0 <= i < |keys| ==> keys[i] == key
    ensures Matches(keys, key) == Upto(|keys|)
    decreases |keys|
  {
    if |keys| > 0 {
      var init, x := keys[..|keys| - 1], keys[|keys| - 1];
      assert init + [x] == keys;
      MatchesEvery(init, key);
      MatchesLast(init, x, key);
      assert Upto(|init|) + [|init|] == Upto(|keys|);
    }
  }

  /** In one group, lag_k at row `i` is the value `k` rows earlier, or
      missing in the first `k` rows. */
  lemma OneGroupLag(vals: seq<Value>, i: nat, k: nat)
    requires i < |vals| && k >= 1
    ensures LagAt(OneGroup(|vals|), vals, i, k) == if i >= k then vals[i - k] else Missing
  {
    var keys := OneGroup(|vals|);
    MatchesEvery(keys[..i], keys[i]);
  }

  /** A rearrangement of a well-formed frame's rows is well formed too. */
  lemma ArrangedWellFormed(df: Frame, sorted: seq<Row>)
    requires WellFormed(df) && multiset(sorted) == multiset(df.rows)
    ensures WellFormed(Frame(df.cols, sorted)) && |sorted| == |df.rows|
  {
    forall i | 0 <= i < |sorted| ensures sorted[i].Keys == ColSet(df.cols) {
      assert sorted[i] in multiset(df.rows);
      var k :| 0 <= k < |df.rows| && df.rows[k] == sorted[i];
    }
    assert |multiset(sorted)| == |multiset(df.rows)|;
  }

  /** The ride counts the shift reads, one per sorted row; with no lags the
      column is never read and may be absent. */
  function RideValues(rows: seq<Row>): (vs: seq<Value>)
    ensures |vs| == |rows|
    ensures forall i :: 0 <= i < |rows| && Rides in rows[i] ==> vs[i] == rows[i][Rides]
  {
    seq(|rows|, i requires 0 <= i < |rows| => if Rides in rows[i] then rows[i][Rides] else Missing)
  }

  /** The sorted frame with lag_1 .. lag_lags set, before `dropna`. */
  function ShiftedAll(df: Frame, sorted: seq<Row>, lags: nat): (g: Frame)
    requires WellFormed(df) && multiset(sorted) == multiset(df.rows)
    ensures WellFormed(g) && g.cols == LagColumns(df.cols, lags) && |g.rows| == |sorted|
    ensures forall i :: 0 <= i < |g.rows| ==>
      g.rows[i] == LaggedRow(sorted[i], OneGroup(|sorted|), RideValues(sorted), i, lags)
  {
    ArrangedWellFormed(df, sorted);
    AddLags(Frame(df.cols, sorted), OneGroup(|sorted|), RideValues(sorted), lags)
  }

  /** `build_lag_features(df, lags)` (653 lags unless told otherwise), given,
      when the timestamps can be compared, one arrangement of the rows that
      `sort_values("pickup_ts")` may return: the sort is not stable, so rows
      with equal timestamps may come in any order. */
  function BuildLagFeatures(df: Frame, sorted: seq<Row>, lags: nat): (r: Result<Frame>)
    requires WellFormed(df)
    requires SortableTs(df.rows) ==> multiset(sorted) == multiset(df.rows) && SortedByTs(sorted)
    ensures PickupTs !in df.cols ==> r == Err(KeyError(PickupTs))
    ensures PickupTs in df.cols && !SortableTs(df.rows) ==> r == Err(TypeError(PickupTs))
    ensures PickupTs in df.cols && SortableTs(df.rows) && lags > 0 && Rides !in df.cols ==> r == Err(KeyError(Rides))
    ensures r.Ok? <==> PickupTs in df.cols && SortableTs(df.rows) && (lags == 0 || Rides in df.cols)
    ensures r.Ok? ==> WellFormed(r.value) && r.value.cols == LagColumns(df.cols, lags)
    ensures r.Ok? ==> |r.value.rows| <= |df.rows|
    ensures r.Ok? ==> forall j :: 0 <= j < |r.value.rows| ==> Complete(r.value.rows[j])
  {
    if PickupTs !in df.cols then Err(KeyError(PickupTs))
    else if !SortableTs(df.rows) then Err(TypeError(PickupTs))
    else if lags > 0 && Rides !in df.cols then Err(KeyError(Rides))
    else
      ArrangedWellFormed(df, sorted);
      Ok(DropNa(ShiftedAll(df, sorted, lags)))
  }

  /** The cells of the sorted row at `i` once the lags are set: lag_k is the
      ride count `k` rows earlier, missing in the first `k` rows, and every
      cell not named like a lag is the row's own. */
  lemma ShiftedRowCells(df: Frame, sorted: seq<Row>, lags: nat, i: nat)
    requires WellFormed(df) && multiset(sorted) == multiset(df.rows) && Rides in df.cols
    requires i < |sorted|
    ensures var r := ShiftedAll(df, sorted, lags).rows[i];
      && (forall k :: 1 <= k <= lags ==> LagName(k) in r)
      && (forall k :: 1 <= k <= lags && k <= i ==> Rides in sorted[i - k] && r[LagName(k)] == sorted[i - k][Rides])
      && (forall k :: 1 <= k <= lags && i < k ==> r[LagName(k)] == Missing)
      && (forall c :: c in sorted[i] && !IsLagColumn(c) ==> c in r && r[c] == sorted[i][c])
  {
    ArrangedWellFormed(df, sorted);
    var keys, vals := OneGroup(|sorted|), RideValues(sorted);
    LaggedRowFacts(sorted[i], keys, vals, i, lags);
    forall k | 1 <= k <= lags ensures LagAt(keys, vals, i, k) == if i >= k then vals[i - k] else Missing {
      OneGroupLag(vals, i, k);
    }
    forall p | 0 <= p < i ensures Rides in sorted[p] {
      assert sorted[p].Keys == ColSet(df.cols);
    }
  }

  /** `r` is the sorted row at `i`, at least `lags` places from the start,
      with lag_k holding the ride count `k` sorted rows earlier, whatever
      the location; every cell not named like a lag is the sorted row's. */
  predicate LaggedFrom(r: Row, sorted: seq<Row>, i: nat, lags: nat) {
    && lags <= i < |sorted|
    && (forall k :: 1 <= k <= lags ==>
          LagName(k) in r && Rides in sorted[i - k] && r[LagName(k)] == sorted[i - k][Rides])
    && (forall c :: c in sorted[i] && !IsLagColumn(c) ==> c in r && r[c] == sorted[i][c])
  }

  /** Each returned row is a sorted row with every lag defined, in sorted
      order. */
  lemma LagFeaturesCells(df: Frame, sorted: seq<Row>, lags: nat)
    requires WellFormed(df) && multiset(sorted) == multiset(df.rows) && SortedByTs(sorted)
    requires PickupTs in df.cols && Rides in df.cols && lags > 0
    ensures SortableTs(df.rows)
    ensures var out, ps := BuildLagFeatures(df, sorted, lags).value, Positions(ShiftedAll(df, sorted, lags).rows, Complete);
      && |out.rows| == |ps|
      && forall j :: 0 <= j < |ps| ==> LaggedFrom(out.rows[j], sorted, ps[j], lags)
  {
    SortedOnlySortable(df.rows, sorted);
    var ps := Positions(ShiftedAll(df, sorted, lags).rows, Complete);
    forall j | 0 <= j < |ps| {
      KeptRowCells(df, sorted, lags, ps[j], BuildLagFeatures(df, sorted, lags).value.rows[j]);
    }
  }

  /** A row that `dropna` keeps, taken from the sorted row at `i`. */
  lemma KeptRowCells(df: Frame, sorted: seq<Row>, lags: nat, i: nat, r: Row)
    requires WellFormed(df) && multiset(sorted) == multiset(df.rows) && Rides in df.cols
    requires i < |sorted| && lags > 0 && r == ShiftedAll(df, sorted, lags).rows[i] && Complete(r)
    ensures LaggedFrom(r, sorted, i, lags)
  {
    ShiftedRowCells(df, sorted, lags, i);
  }

  /** On sorted rows with no missing cell, the sorted row at `i` has all
      its lags exactly when at least `lags` rows come before it. */
  lemma CleanRowComplete(df: Frame, sorted: seq<Row>, lags: nat, i: nat)
    requires WellFormed(df) && multiset(sorted) == multiset(df.rows) && Rides in df.cols
    requires forall p :: 0 <= p < |sorted| ==> Complete(sorted[p])
    requires i < |sorted|
    ensures Complete(ShiftedAll(df, sorted, lags).rows[i]) <==> i >= lags
  {
    ShiftedRowCells(df, sorted, lags, i);
    if i >= lags {
      var r := ShiftedAll(df, sorted, lags).rows[i];
      forall c | c in r ensures r[c] != Missing {
        ShiftedCellDefined(df, sorted, lags, i, c);
      }
    }
  }

  /** One cell of such a row, when at least `lags` rows come before it. */
  lemma ShiftedCellDefined(df: Frame, sorted: seq<Row>, lags: nat, i: nat, c: string)
    requires WellFormed(df) && multiset(sorted) == multiset(df.rows) && Rides in df.cols
    requires forall p :: 0 <= p < |sorted| ==> Complete(sorted[p])
    requires lags <= i < |sorted| && c in ShiftedAll(df, sorted, lags).rows[i]
    ensures ShiftedAll(df, sorted, lags).rows[i][c] != Missing
  {
    LaggedRowOnlyLags(sorted[i], OneGroup(|sorted|), RideValues(sorted), i, lags);
    ShiftedRowCells(df, sorted, lags, i);
    if IsLagOf(c, lags) {
      var k :| 1 <= k <= lags && c == LagName(k);
      assert Complete(sorted[i - k]);
    } else {
      assert Complete(sorted[i]);
    }
  }

  /** With no missing cell in the input, the result is the sorted rows less
      the first `lags` of them, each with its lags from the rows before it. */
  lemma LagFeaturesDropsFirst(df: Frame, sorted: seq<Row>, lags: nat)
    requires WellFormed(df) && multiset(sorted) == multiset(df.rows) && SortedByTs(sorted)
    requires PickupTs in df.cols && Rides in df.cols && lags > 0
    requires forall p :: 0 <= p < |sorted| ==> Complete(sorted[p])
    ensures SortableTs(df.rows)
    ensures var out := BuildLagFeatures(df, sorted, lags).value;
      && |out.rows| == (if |sorted| <= lags then 0 else |sorted| - lags)
      && forall j :: 0 <= j < |out.rows| ==> LaggedFrom(out.rows[j], sorted, j + lags, lags)
  {
    SortedOnlySortable(df.rows, sorted);
    var g := ShiftedAll(df, sorted, lags);
    var out := BuildLagFeatures(df, sorted, lags).value;
    forall i | 0 <= i < |g.rows| ensures Complete(g.rows[i]) <==> i >= lags {
      CleanRowComplete(df, sorted, lags, i);
    }
    FilterFrom(g.rows, Complete, lags);
    forall j | 0 <= j < |out.rows| {
      KeptRowCells(df, sorted, lags, j + lags, out.rows[j]);
    }
  }

  /** With no lags nothing is shifted: the result is the sorted rows with no
      missing cell, as they were. */
  lemma NoLags(df: Frame, sorted: seq<Row>)
    requires WellFormed(df) && multiset(sorted) == multiset(df.rows) && SortedByTs(sorted)
    requires PickupTs in df.cols
    ensures BuildLagFeatures(df, sorted, 0) == Ok(Frame(df.cols, Filter(sorted, Complete)))
  {
    SortedOnlySortable(df.rows, sorted);
    var g := ShiftedAll(df, sorted, 0);
    assert g.rows == sorted;
  }

  /** Epoch-millisecond integers sort by value: of rows at 2 and 1, the one
      at 1 comes first, and with one lag only the other is kept, its lag the
      earlier row's ride count. */
  lemma IntegerTimestampsSort()
    ensures var a, b := map[PickupTs := Int(2), Rides := Int(5)], map[PickupTs := Int(1), Rides := Int(3)];
      var df := Frame([PickupTs, Rides], [a, b]);
      && WellFormed(df) && SortableTs(df.rows) && SortedByTs([b, a])
      && var r := BuildLagFeatures(df, [b, a], 1);
      && r.Ok? && |r.value.rows| == 1 && LaggedFrom(r.value.rows[0], [b, a], 1, 1)
  {
    var a, b := map[PickupTs := Int(2), Rides := Int(5)], map[PickupTs := Int(1), Rides := Int(3)];
    var df := Frame([PickupTs, Rides], [a, b]);
    assert ColSet(df.cols) == {PickupTs, Rides};
    assert WellFormed(df);
    assert multiset([b, a]) == multiset(df.rows);
    assert TsLe(Ts(b), Ts(a));
    assert Complete(a) && Complete(b);
    LagFeaturesDropsFirst(df, [b, a], 1);
  }

  /** A timestamp column mixing integers and strings cannot be sorted, and
      the build stops with TypeError. */
  lemma MixedTimestampsRaise()
    ensures var df := Frame([PickupTs], [map[PickupTs := Int(1)], map[PickupTs := Text("x")]]);
      && WellFormed(df) && !SortableTs(df.rows)
      && BuildLagFeatures(df, [], 1) == Err(TypeError(PickupTs))
  {
    var df := Frame([PickupTs], [map[PickupTs := Int(1)], map[PickupTs := Text("x")]]);
    assert ColSet(df.cols) == {PickupTs};
    assert !Comparable(Ts(df.rows[0]), Ts(df.rows[1]));
  }
}
