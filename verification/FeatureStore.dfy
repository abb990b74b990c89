/** The table logic of `src/feature_store_api.py`. The feature store itself
    is outside the model: what it returns (a frame, or a failed read) is a
    parameter, and what is asked of it is returned as a list of calls. */
module FeatureStore {
  import opened Frames
  import opened Features

  // ---------------------------------------------------------------------------
  // load_fallback_features

  const FallbackPath := "data/transformed/ts_data_2022_01.parquet"

  /** `load_fallback_features()`, given whether the file exists and what it
      holds. */
  function LoadFallbackFeatures(fileExists: bool, df: Frame): (r: Result<Frame>)
    requires WellFormed(df)
    ensures !fileExists ==> r == Err(FileNotFoundError(FallbackPath))
    ensures fileExists ==> r.Ok? && WellFormed(r.value) && |r.value.rows| == |df.rows|
    ensures fileExists && PickupHour !in df.cols ==> r.value == df
  {
    if !fileExists then Err(FileNotFoundError(FallbackPath))
    else if PickupHour in df.cols then Ok(Rename(df, PickupHour, PickupTs))
    else Ok(df)
  }

  /** A fallback file with `pickup_hour` comes back with that column called
      `pickup_ts`, row by row the same values, and the rest as it was. */
  lemma FallbackRenamed(df: Frame)
    requires WellFormed(df) && PickupHour in df.cols
    ensures var g := LoadFallbackFeatures(true, df).value;
      && PickupTs in g.cols && PickupHour !in g.cols
      && (forall i :: 0 <= i < |g.rows| ==>
            PickupTs in g.rows[i] && PickupHour in df.rows[i] && g.rows[i][PickupTs] == df.rows[i][PickupHour])
      && (forall c, i :: c in df.cols && c != PickupHour && c != PickupTs && 0 <= i < |g.rows| ==>
            c in g.rows[i] && g.rows[i][c] == df.rows[i][c])
  {
    var g := LoadFallbackFeatures(true, df).value;
    assert PickupHour != PickupTs by { assert |PickupHour| != |PickupTs|; }
    forall i | 0 <= i < |g.rows| ensures PickupTs in g.rows[i] && PickupHour in df.rows[i] {
      assert g.rows[i].Keys == ColSet(g.cols) && df.rows[i].Keys == ColSet(df.cols);
    }
  }

  // ---------------------------------------------------------------------------
  // load_batch_of_features_from_store

  /** The `pickup_ts` of a row, NaT when it has none. */
  function Ts(r: Row): Value {
    if PickupTs in r then r[PickupTs] else Missing
  }

  /** Python's order on strings: character by character, a proper prefix
      first. */
  predicate TextLe(a: string, b: string)
    decreases |a|
  {
    |a| == 0 || (|b| > 0 && (a[0] < b[0] || (a[0] == b[0] && TextLe(a[1..], b[1..]))))
  }

  /** Whether `sort_values` can compare two `pickup_ts` cells: a missing cell
      is set aside and goes with anything; otherwise both are timestamps, both
      numbers or both strings, and any other pair raises TypeError. */
  predicate Comparable(a: Value, b: Value) {
    a.Missing? || b.Missing? || (a.Time? && b.Time?) || (IsNumber(a) && IsNumber(b)) || (a.Text? && b.Text?)
  }

  /** Every two `pickup_ts` cells of the rows can be compared. */
  predicate SortableTs(rs: seq<Row>) {
    forall i, j :: 0 <= i < |rs| && 0 <= j < |rs| ==> Comparable(Ts(rs[i]), Ts(rs[j]))
  }

  /** The order of `sort_values`: ascending timestamps, numbers by value,
      strings as Python orders them, NaT and NaN last. */
  predicate TsLe(a: Value, b: Value) {
    || b.Missing?
    || (a.Time? && b.Time? && a.ns <= b.ns)
    || (IsNumber(a) && IsNumber(b) && RealOf(a) <= RealOf(b))
    || (a.Text? && b.Text? && TextLe(a.s, b.s))
  }

  predicate SortedByTs(rs: seq<Row>) {
    forall i, j :: 0 <= i < j < |rs| ==> TsLe(Ts(rs[i]), Ts(rs[j]))
  }

  /** Only a column whose cells can be compared has a sorted arrangement:
      any two rows sit in some order, and the earlier is no later. */
  lemma SortedOnlySortable(rows: seq<Row>, sorted: seq<Row>)
    requires multiset(sorted) == multiset(rows) && SortedByTs(sorted)
    ensures SortableTs(rows)
  {
    forall i, j | 0 <= i < |rows| && 0 <= j < |rows| ensures Comparable(Ts(rows[i]), Ts(rows[j])) {
      assert rows[i] in multiset(sorted) && rows[j] in multiset(sorted);
      var p :| 0 <= p < |sorted| && sorted[p] == rows[i];
      var q :| 0 <= q < |sorted| && sorted[q] == rows[j];
      if p < q {
        assert TsLe(Ts(sorted[p]), Ts(sorted[q]));
      } else if q < p {
        assert TsLe(Ts(sorted[q]), Ts(sorted[p]));
      }
    }
  }

  /** The location of a row, NaN when it has none. */
  function Loc(r: Row): Value {
    if LocationId in r then r[LocationId] else Missing
  }

  /** The rows of location `l`, in order. */
  function OfLoc(rs: seq<Row>, l: Value): (g: seq<Row>)
    ensures |g| <= |rs|
    ensures forall r :: r in g ==> r in rs && Loc(r) == l
    decreases |rs|
  {
    if |rs| == 0 then []
    else (if Loc(rs[0]) == l then [rs[0]] else []) + OfLoc(rs[1..], l)
  }

  /** A row occurs among a location's rows as often as in all the rows, or
      not at all when it is elsewhere. */
  lemma {:induction false} OfLocCount(rs: seq<Row>, l: Value, r: Row)
    ensures multiset(OfLoc(rs, l))[r] == if Loc(r) == l then multiset(rs)[r] else 0
    decreases |rs|
  {
    if |rs| > 0 {
      assert rs == [rs[0]] + rs[1..];
      OfLocCount(rs[1..], l, r);
    }
  }

  /** Rearranging the rows rearranges each location's rows. */
  lemma OfLocPermuted(s: seq<Row>, t: seq<Row>, l: Value)
    requires multiset(s) == multiset(t)
    ensures multiset(OfLoc(s, l)) == multiset(OfLoc(t, l))
    ensures |OfLoc(s, l)| == |OfLoc(t, l)|
  {
    forall r ensures multiset(OfLoc(s, l))[r] == multiset(OfLoc(t, l))[r] {
      OfLocCount(s, l, r);
      OfLocCount(t, l, r);
    }
    assert multiset(OfLoc(s, l)) == multiset(OfLoc(t, l));
    assert |multiset(OfLoc(s, l))| == |multiset(OfLoc(t, l))|;
  }

  /** `s.tail(n)`: the last `n` elements, or all of them when there are fewer. */
  function Last<T>(s: seq<T>, n: nat): (t: seq<T>)
    ensures |t| == if |s| <= n then |s| else n
  {
    if |s| <= n then s else s[|s| - n..]
  }

  /** `groupby("pickup_location_id").tail(n)` on rows already sorted: a row
      stays when fewer than `n` later rows share its location. Rows without
      a location belong to no group and go. */
  function TailPerLocation(rs: seq<Row>, n: nat): (out: seq<Row>)
    ensures |out| <= |rs|
    ensures forall r :: r in out ==> r in rs && Loc(r) != Missing
    decreases |rs|
  {
    if |rs| == 0 then []
    else
      var x, rest := rs[0], rs[1..];
      var keep := Loc(x) != Missing && |OfLoc(rest, Loc(x))| < n;
      (if keep then [x] else []) + TailPerLocation(rest, n)
  }

  /** What each location keeps: exactly its last `n` rows, in order. */
  lemma {:induction false} TailGroups(rs: seq<Row>, n: nat, l: Value)
    requires l != Missing
    ensures OfLoc(TailPerLocation(rs, n), l) == Last(OfLoc(rs, l), n)
    decreases |rs|
  {
    if |rs| > 0 {
      var x, rest := rs[0], rs[1..];
      var tail := TailPerLocation(rest, n);
      var f := OfLoc(rest, l);
      assert OfLoc(rs, l) == (if Loc(x) == l then [x] else []) + f;
      TailGroups(rest, n, l);
      if Loc(x) != Missing && |OfLoc(rest, Loc(x))| < n {
        var out := [x] + tail;
        assert TailPerLocation(rs, n) == out;
        assert out[0] == x && out[1..] == tail;
        assert OfLoc(out, l) == (if Loc(x) == l then [x] else []) + Last(f, n);
        if Loc(x) == l {
          assert Last(f, n) == f;
          assert OfLoc(rs, l) == [x] + f;
          assert Last([x] + f, n) == [x] + f;
        } else {
          assert OfLoc(rs, l) == f && OfLoc(out, l) == Last(f, n);
        }
      } else {
        assert TailPerLocation(rs, n) == tail;
        if Loc(x) == l {
          LastCons(x, f, n);
          assert OfLoc(rs, l) == [x] + f;
        } else {
          assert OfLoc(rs, l) == f;
        }
      }
    }
  }

  /** A front element beyond the last `n` makes no difference to them. */
  lemma LastCons<T>(x: T, f: seq<T>, n: nat)
    requires |f| >= n
    ensures Last([x] + f, n) == Last(f, n)
  {
    assert ([x] + f)[|f| + 1 - n..] == f[|f| - n..];
  }

  /** A location's rows, taken from sorted rows, are sorted. */
  lemma {:induction false} OfLocSorted(rs: seq<Row>, l: Value)
    requires SortedByTs(rs)
    ensures SortedByTs(OfLoc(rs, l))
    decreases |rs|
  {
    if |rs| > 0 {
      SortedRest(rs);
      OfLocSorted(rs[1..], l);
      if Loc(rs[0]) == l {
        SortedCons(rs[0], OfLoc(rs[1..], l));
      }
    }
  }

  /** The last `n` of a location's rows, sorted by time, are its latest: each
      of its rows that goes is no later than each that stays. */
  lemma LatestKept(rs: seq<Row>, n: nat, l: Value)
    requires SortedByTs(rs) && l != Missing
    ensures var f := OfLoc(rs, l);
      |f| > n ==> forall i, j :: 0 <= i < |f| - n <= j < |f| ==> TsLe(Ts(f[i]), Ts(f[j]))
  {
    OfLocSorted(rs, l);
  }

  /** Keeping rows of sorted rows keeps them sorted. */
  lemma {:induction false} TailKeepsOrder(rs: seq<Row>, n: nat)
    requires SortedByTs(rs)
    ensures SortedByTs(TailPerLocation(rs, n))
    decreases |rs|
  {
    if |rs| > 0 {
      var x, rest := rs[0], rs[1..];
      SortedRest(rs);
      TailKeepsOrder(rest, n);
      var tail := TailPerLocation(rest, n);
      if TailPerLocation(rs, n) != tail {
        SortedCons(x, tail);
      }
    }
  }

  lemma SortedRest(rs: seq<Row>)
    requires SortedByTs(rs) && |rs| > 0
    ensures SortedByTs(rs[1..])
    ensures forall y :: y in rs[1..] ==> TsLe(Ts(rs[0]), Ts(y))
  {
    var rest := rs[1..];
    forall i, j | 0 <= i < j < |rest| ensures TsLe(Ts(rest[i]), Ts(rest[j])) {
      assert rest[i] == rs[i + 1] && rest[j] == rs[j + 1];
    }
    forall y | y in rest ensures TsLe(Ts(rs[0]), Ts(y)) {
      var k :| 0 <= k < |rest| && rest[k] == y;
      assert rs[k + 1] == y;
    }
  }

  lemma SortedCons(x: Row, t: seq<Row>)
    requires SortedByTs(t) && forall y :: y in t ==> TsLe(Ts(x), Ts(y))
    ensures SortedByTs([x] + t)
  {
    var s := [x] + t;
    forall i, j | 0 <= i < j < |s| ensures TsLe(Ts(s[i]), Ts(s[j])) {
      assert s[j] == t[j - 1];
      if i > 0 {
        assert s[i] == t[i - 1];
      } else {
        assert t[j - 1] in t;
      }
    }
  }

  /** `load_batch_of_features_from_store(..., n_features)`, given the batch
      and, when its timestamps can be compared, one arrangement of it
      `sort_values("pickup_ts")` may return; the sort is not stable, so ties
      may come in any order. */
  function LoadBatch(df: Frame, sorted: seq<Row>, n: nat): (r: Result<Frame>)
    requires WellFormed(df)
    requires SortableTs(df.rows) ==> multiset(sorted) == multiset(df.rows) && SortedByTs(sorted)
    ensures PickupTs !in df.cols ==> r == Err(KeyError(PickupTs))
    ensures PickupTs in df.cols && !SortableTs(df.rows) ==> r == Err(TypeError(PickupTs))
    ensures PickupTs in df.cols && SortableTs(df.rows) && IsEmpty(df) ==> r == Ok(EmptyFrame)
    ensures PickupTs in df.cols && SortableTs(df.rows) && !IsEmpty(df) && LocationId !in df.cols ==> r == Err(KeyError(LocationId))
    ensures PickupTs in df.cols && SortableTs(df.rows) && !IsEmpty(df) && LocationId in df.cols ==> r.Ok? && r.value.cols == df.cols
    ensures r.Ok? ==> WellFormed(r.value) && SortedByTs(r.value.rows)
  {
    if PickupTs !in df.cols then Err(KeyError(PickupTs))
    else if !SortableTs(df.rows) then Err(TypeError(PickupTs))
    else if IsEmpty(df) then Ok(EmptyFrame)
    else if LocationId !in df.cols then Err(KeyError(LocationId))
    else
      var out := TailPerLocation(sorted, n);
      assert forall r :: r in out ==> r in df.rows by {
        forall r | r in out ensures r in df.rows {
          assert r in multiset(sorted);
        }
      }
      assert forall i :: 0 <= i < |out| ==> out[i].Keys == ColSet(df.cols) by {
        forall i | 0 <= i < |out| ensures out[i].Keys == ColSet(df.cols) {
          assert out[i] in out;
          var k :| 0 <= k < |df.rows| && df.rows[k] == out[i];
        }
      }
      TailKeepsOrder(sorted, n);
      Ok(Frame(df.cols, out))
  }

  /** How many rows each location keeps: `n` of them, or all of them when it
      has no more than `n`. */
  lemma BatchCounts(df: Frame, sorted: seq<Row>, n: nat, l: Value)
    requires WellFormed(df) && PickupTs in df.cols && LocationId in df.cols && !IsEmpty(df)
    requires multiset(sorted) == multiset(df.rows) && SortedByTs(sorted) && l != Missing
    ensures SortableTs(df.rows)
    ensures var out, m := LoadBatch(df, sorted, n).value.rows, |OfLoc(df.rows, l)|;
      && |OfLoc(out, l)| == (if m <= n then m else n)
      && (m <= n ==> multiset(OfLoc(out, l)) == multiset(OfLoc(df.rows, l)))
  {
    SortedOnlySortable(df.rows, sorted);
    assert LoadBatch(df, sorted, n).value.rows == TailPerLocation(sorted, n);
    OfLocPermuted(sorted, df.rows, l);
    TailGroups(sorted, n, l);
  }

  /** Every row kept has a location. */
  lemma BatchHasLocations(df: Frame, sorted: seq<Row>, n: nat)
    requires WellFormed(df) && PickupTs in df.cols && LocationId in df.cols && !IsEmpty(df)
    requires multiset(sorted) == multiset(df.rows) && SortedByTs(sorted)
    ensures SortableTs(df.rows)
    ensures forall r :: r in LoadBatch(df, sorted, n).value.rows ==> r in df.rows && Loc(r) != Missing
  {
    SortedOnlySortable(df.rows, sorted);
    assert LoadBatch(df, sorted, n).value.rows == TailPerLocation(sorted, n);
    forall r | r in TailPerLocation(sorted, n) ensures r in df.rows {
      assert r in multiset(sorted);
    }
  }

  // ---------------------------------------------------------------------------
  // load_predictions_from_store

  datatype ReadMode = Offline | Online

  /** The reads tried, in order, and what the function returns. */
  datatype PredictionsRead = PredictionsRead(attempts: seq<ReadMode>, result: Result<Frame>)

  /** `pickup_hour >= lo and pickup_hour <= hi`; NaT compares false. */
  function InWindow(lo: int, hi: int): Row -> bool {
    (r: Row) => PickupHour in r && r[PickupHour].Time? && lo <= r[PickupHour].ns <= hi
  }

  /** Comparing a column with timestamps works when it holds timestamps
      and NaT; anything else raises TypeError. */
  predicate TimesOrNaT(df: Frame, c: string)
    requires WellFormed(df) && c in df.cols
  {
    var vs := Column(df, c);
    forall i :: 0 <= i < |vs| ==> vs[i].Time? || vs[i].Missing?
  }

  /** `df.query("pickup_hour >= @lo and pickup_hour <= @hi")`. */
  function Query(df: Frame, lo: int, hi: int): (r: Result<Frame>)
    requires WellFormed(df)
    ensures PickupHour !in df.cols ==> r == Err(UndefinedVariableError(PickupHour))
    ensures PickupHour in df.cols && !TimesOrNaT(df, PickupHour) ==> r == Err(TypeError(PickupHour))
    ensures r.Ok? <==> PickupHour in df.cols && TimesOrNaT(df, PickupHour)
    ensures r.Ok? ==> WellFormed(r.value) && r.value.cols == df.cols
  {
    if PickupHour !in df.cols then Err(UndefinedVariableError(PickupHour))
    else if !TimesOrNaT(df, PickupHour) then Err(TypeError(PickupHour))
    else Ok(Where(df, InWindow(lo, hi)))
  }

  /** `load_predictions_from_store(from_pickup_hour, to_pickup_hour)`, given
      the outcome of the offline and the online read; `None` is a bound not
      given. */
  function LoadPredictions(offline: Result<Frame>, online: Result<Frame>, from: Option<int>, to: Option<int>): (p: PredictionsRead)
    requires offline.Ok? ==> WellFormed(offline.value)
    requires online.Ok? ==> WellFormed(online.value)
    ensures p.attempts == if offline.Ok? then [Offline] else [Offline, Online]
    ensures offline.Err? && online.Err? ==> p.result == Ok(EmptyFrame)
    ensures p.result.Err? ==> from.Some? && to.Some?
  {
    var attempts := if offline.Ok? then [Offline] else [Offline, Online];
    var read := if offline.Ok? then offline else online;
    if read.Err? then PredictionsRead(attempts, Ok(EmptyFrame))
    else if IsEmpty(read.value) || from.None? || to.None? then PredictionsRead(attempts, read)
    else PredictionsRead(attempts, Query(read.value, from.value, to.value))
  }

  /** What comes back from a successful read: the frame as read when it is
      empty or a bound is missing, and otherwise, in order, exactly its rows
      whose `pickup_hour` lies within both bounds, ends included. */
  lemma PredictionsWindow(read: Frame, fromOffline: bool, from: Option<int>, to: Option<int>)
    requires WellFormed(read)
    ensures var p := LoadPredictions(if fromOffline then Ok(read) else Err(ValueError("offline")),
                                     Ok(read), from, to);
      && (IsEmpty(read) || from.None? || to.None? ==> p.result == Ok(read))
      && (!IsEmpty(read) && from.Some? && to.Some? && PickupHour in read.cols && TimesOrNaT(read, PickupHour) ==>
            var g, ps := p.result.value, Positions(read.rows, InWindow(from.value, to.value));
            && |g.rows| == |ps|
            && (forall j :: 0 <= j < |ps| ==> ps[j] < |read.rows| && g.rows[j] == read.rows[ps[j]])
            && (forall i :: 0 <= i < |read.rows| ==>
                  PickupHour in read.rows[i] &&
                  (i in ps <==> read.rows[i][PickupHour].Time? &&
                                from.value <= read.rows[i][PickupHour].ns <= to.value)))
  {
    if PickupHour in read.cols {
      RowsHaveColumn(read, PickupHour);
    }
  }

  // ---------------------------------------------------------------------------
  // log_predictions_to_store

  /** A request to the predictions feature group. */
  datatype StoreCall = Insert(frame: Frame) | Materialize(start: Value, end: Value)

  /** `min()` of a column of timestamps, skipping NaT; NaT when none is left. */
  function MinTime(vs: seq<Value>): (m: Value)
    ensures m.Missing? <==> forall i :: 0 <= i < |vs| ==> !vs[i].Time?
    ensures m.Time? ==> m in vs && forall i :: 0 <= i < |vs| && vs[i].Time? ==> m.ns <= vs[i].ns
    ensures m.Missing? || m.Time?
    decreases |vs|
  {
    if |vs| == 0 then Missing
    else
      var init, v := vs[..|vs| - 1], vs[|vs| - 1];
      var m := MinTime(init);
      assert forall i :: 0 <= i < |init| ==> init[i] == vs[i];
      if !v.Time? then m
      else if m.Missing? || v.ns < m.ns then v
      else m
  }

  /** `max()` of a column of timestamps, skipping NaT; NaT when none is left. */
  function MaxTime(vs: seq<Value>): (m: Value)
    ensures m.Missing? <==> forall i :: 0 <= i < |vs| ==> !vs[i].Time?
    ensures m.Time? ==> m in vs && forall i :: 0 <= i < |vs| && vs[i].Time? ==> vs[i].ns <= m.ns
    ensures m.Missing? || m.Time?
    decreases |vs|
  {
    if |vs| == 0 then Missing
    else
      var init, v := vs[..|vs| - 1], vs[|vs| - 1];
      var m := MaxTime(init);
      assert forall i :: 0 <= i < |init| ==> init[i] == vs[i];
      if !v.Time? then m
      else if m.Missing? || v.ns > m.ns then v
      else m
  }

  /** `log_predictions_to_store(predictions_df)`: the calls made on the
      feature group. Materialisation is asked for over the span of
      `pickup_hour`; when that span cannot be computed, or materialisation
      fails, the exception is caught and nothing else happens. */
  function LogPredictions(df: Frame): (calls: seq<StoreCall>)
    requires WellFormed(df)
    ensures IsEmpty(df) <==> calls == []
    ensures !IsEmpty(df) ==> calls[0] == Insert(df) && |calls| <= 2
    ensures |calls| == 2 ==> PickupHour in df.cols && calls[1].Materialize?
  {
    if IsEmpty(df) then []
    else if PickupHour in df.cols && TimesOrNaT(df, PickupHour) then
      var vs := Column(df, PickupHour);
      [Insert(df), Materialize(MinTime(vs), MaxTime(vs))]
    else [Insert(df)]
  }

  /** The span asked for covers every `pickup_hour` of the frame and is
      bounded by two of them. */
  lemma MaterializeSpan(df: Frame)
    requires WellFormed(df) && !IsEmpty(df) && PickupHour in df.cols && TimesOrNaT(df, PickupHour)
    ensures var calls := LogPredictions(df);
      && |calls| == 2 && calls[1].Materialize?
      && (calls[1].start.Time? <==> exists i :: 0 <= i < |df.rows| && df.rows[i][PickupHour].Time?)
      && (calls[1].start.Time? ==> calls[1].end.Time? && calls[1].start.ns <= calls[1].end.ns)
      && (forall i :: 0 <= i < |df.rows| && df.rows[i][PickupHour].Time? ==>
            calls[1].start.ns <= df.rows[i][PickupHour].ns <= calls[1].end.ns)
  {
    var vs := Column(df, PickupHour);
    if MinTime(vs).Time? {
      var k :| 0 <= k < |vs| && vs[k] == MinTime(vs);
      assert vs[k].Time?;
    }
  }
}
