/** The feature builder of `src/features.py` (and its near-copy in
    `src/test_features.py`): parse the pickup timestamp, derive calendar
    fields, add per-location lags of the ride count and the next-hour target,
    then keep only the rows with no missing cell. */
module Features {
  import opened Frames
  import Calendar

  const PickupTs := "pickup_ts"
  const PickupTsSplit := "pickup_ts_split"
  const HourOfDayCol := "hour_of_day"
  const DayOfWeekCol := "day_of_week"
  const MonthCol := "month"
  const LocationId := "pickup_location_id"
  const Rides := "rides"
  const Target := "target_rides_next_hour"
  const PickupHour := "pickup_hour"

  // ---------------------------------------------------------------------------
  // Lag column names: "lag_1", "lag_2", ...

  function Digit(d: nat): char
    requires d < 10
  {
    (d + 48) as char
  }

  /** The decimal numeral of `n`, as Python's `f"{n}"` writes it. */
  function Decimal(n: nat): (s: string)
    ensures 1 <= |s|
    ensures n >= 10 ==> 2 <= |s|
    decreases n
  {
    if n < 10 then [Digit(n)] else Decimal(n / 10) + [Digit(n % 10)]
  }

  /** Different numbers have different numerals. */
  lemma {:induction false} DecimalInjective(a: nat, b: nat)
    requires Decimal(a) == Decimal(b)
    ensures a == b
    decreases a
  {
    if a >= 10 && b >= 10 {
      var da, db := Decimal(a), Decimal(b);
      assert da[|da| - 1] == Digit(a % 10) && db[|db| - 1] == Digit(b % 10);
      assert da[..|da| - 1] == Decimal(a / 10) && db[..|db| - 1] == Decimal(b / 10);
      DecimalInjective(a / 10, b / 10);
    }
  }

  function LagName(k: nat): string {
    "lag_" + Decimal(k)
  }

  /** A name of the shape "lag_…". */
  predicate IsLagColumn(c: string) {
    |c| >= 4 && c[0] == 'l' && c[1] == 'a' && c[2] == 'g' && c[3] == '_'
  }

  lemma LagNameFacts(j: nat, k: nat)
    ensures IsLagColumn(LagName(k))
    ensures j != k ==> LagName(j) != LagName(k)
  {
    assert LagName(k)[..4] == "lag_";
    assert LagName(k)[0] == 'l' && LagName(k)[1] == 'a' && LagName(k)[2] == 'g' && LagName(k)[3] == '_';
    if LagName(j) == LagName(k) {
      assert LagName(j)[4..] == Decimal(j) && LagName(k)[4..] == Decimal(k);
      DecimalInjective(j, k);
    }
  }

  /** None of the fixed column names looks like a lag column. */
  lemma FixedNamesAreNotLags()
    ensures !IsLagColumn(PickupTs) && !IsLagColumn(PickupTsSplit) && !IsLagColumn(HourOfDayCol)
    ensures !IsLagColumn(DayOfWeekCol) && !IsLagColumn(MonthCol) && !IsLagColumn(LocationId)
    ensures !IsLagColumn(Rides) && !IsLagColumn(Target)
  {
    assert PickupTs[0] == 'p' && PickupTsSplit[0] == 'p' && HourOfDayCol[0] == 'h';
    assert DayOfWeekCol[0] == 'd' && MonthCol[0] == 'm' && LocationId[0] == 'p';
    assert Rides[0] == 'r' && Target[0] == 't';
  }

  // ---------------------------------------------------------------------------
  // Timestamps and calendar fields

  /** `pd.to_datetime(v, utc=True, errors="coerce")` on one cell: a timestamp
      is kept, a missing cell stays missing, and anything else goes through
      the parser, whose failure gives NaT. The parser itself is pandas' and is
      a parameter here. */
  function ParseTimestamp(parse: Value -> Option<int>, v: Value): (t: Value)
    ensures t.Missing? || t.Time?
    ensures v.Time? ==> t == v
    ensures v.Missing? ==> t.Missing?
  {
    match v
    case Time(_) => v
    case Missing => Missing
    case _ => (match parse(v) case Some(ns) => Time(ns) case None => Missing)
  }

  function HourCell(t: Value): (h: Value)
    ensures t.Time? ==> h.Int? && 0 <= h.i < 24
    ensures !t.Time? ==> h.Missing?
  {
    if t.Time? then Int(Calendar.HourOfDay(Calendar.EpochSeconds(t.ns))) else Missing
  }

  function DayOfWeekCell(t: Value): (d: Value)
    ensures t.Time? ==> d.Int? && 0 <= d.i < 7
    ensures !t.Time? ==> d.Missing?
  {
    if t.Time? then Int(Calendar.DayOfWeek(Calendar.EpochSeconds(t.ns))) else Missing
  }

  function MonthCell(t: Value): (m: Value)
    ensures t.Time? ==> m.Int? && 1 <= m.i <= 12
    ensures !t.Time? ==> m.Missing?
  {
    if t.Time? then Int(Calendar.MonthOf(Calendar.EpochSeconds(t.ns))) else Missing
  }

  /** One row after the in-place steps: the parsed timestamp, optionally its
      copy for splitting, and the three calendar fields. */
  function CalendarRow(r: Row, parse: Value -> Option<int>, copySplit: bool): Row
    requires PickupTs in r
  {
    var t := ParseTimestamp(parse, r[PickupTs]);
    var r1 := r[PickupTs := t];
    var r2 := if copySplit then r1[PickupTsSplit := t] else r1;
    r2[HourOfDayCol := HourCell(t)][DayOfWeekCol := DayOfWeekCell(t)][MonthCol := MonthCell(t)]
  }

  function CalendarColumns(cols: seq<string>, copySplit: bool): seq<string> {
    var c1 := AddName(cols, PickupTs);
    var c2 := if copySplit then AddName(c1, PickupTsSplit) else c1;
    AddName(AddName(AddName(c2, HourOfDayCol), DayOfWeekCol), MonthCol)
  }

  /** The frame after the assignments to `df[...]` that precede the lags:
      this is also what the caller's frame has become when the call returns. */
  function WithCalendar(df: Frame, parse: Value -> Option<int>, copySplit: bool): (cal: Frame)
    requires WellFormed(df) && PickupTs in df.cols
    ensures WellFormed(cal) && |cal.rows| == |df.rows|
    ensures cal.cols == CalendarColumns(df.cols, copySplit)
    ensures forall i :: 0 <= i < |cal.rows| ==> cal.rows[i] == CalendarRow(df.rows[i], parse, copySplit)
  {
    var ts := seq(|df.rows|, i requires 0 <= i < |df.rows| => ParseTimestamp(parse, df.rows[i][PickupTs]));
    var f1 := SetColumn(df, PickupTs, ts);
    var f2 := if copySplit then SetColumn(f1, PickupTsSplit, ts) else f1;
    var f3 := SetColumn(f2, HourOfDayCol, seq(|ts|, i requires 0 <= i < |ts| => HourCell(ts[i])));
    var f4 := SetColumn(f3, DayOfWeekCol, seq(|ts|, i requires 0 <= i < |ts| => DayOfWeekCell(ts[i])));
    SetColumn(f4, MonthCol, seq(|ts|, i requires 0 <= i < |ts| => MonthCell(ts[i])))
  }

  // ---------------------------------------------------------------------------
  // Grouped shifts

  /** The positions whose key is `key`, ascending. */
  function Matches(keys: seq<Value>, key: Value): (ps: seq<nat>)
    ensures |ps| <= |keys|
    ensures forall j :: 0 <= j < |ps| ==> ps[j] < |keys| && keys[ps[j]] == key
    ensures forall j, j' :: 0 <= j < j' < |ps| ==> ps[j] < ps[j']
    ensures forall i :: 0 <= i < |keys| && keys[i] == key ==> i in ps
  {
    Positions(keys, (v: Value) => v == key)
  }

  lemma MatchesSnoc(keys: seq<Value>, i: nat, key: Value)
    requires i < |keys|
    ensures Matches(keys[..i + 1], key) == Matches(keys[..i], key) + (if keys[i] == key then [i] else [])
  {
    assert keys[..i + 1][..i] == keys[..i];
  }

  /** `df.groupby(key)[val].shift(k)` at row `i`, for `k >= 1`: among the
      earlier rows with the same key, in input order, the value of the k-th
      last one. Missing when there are fewer than k of them, and for a row
      whose key is missing (pandas leaves NaN keys out of every group). */
  function LagAt(keys: seq<Value>, vals: seq<Value>, i: nat, k: nat): Value
    requires |keys| == |vals| && i < |keys| && k >= 1
  {
    if keys[i] == Missing then Missing
    else
      var before := Matches(keys[..i], keys[i]);
      if |before| >= k then vals[before[|before| - k]] else Missing
  }

  /** `shift(-1)` within the group at row `i`: the value at the next row
      with the same key, missing when there is none. */
  function LeadAt(keys: seq<Value>, vals: seq<Value>, i: nat): Value
    requires |keys| == |vals| && i < |keys|
  {
    if keys[i] == Missing then Missing
    else
      var after := Matches(keys[i + 1..], keys[i]);
      if |after| >= 1 then vals[i + 1 + after[0]] else Missing
  }

  function Shift(keys: seq<Value>, vals: seq<Value>, k: nat): (out: seq<Value>)
    requires |keys| == |vals| && k >= 1
    ensures |out| == |keys|
  {
    seq(|keys|, i requires 0 <= i < |keys| => LagAt(keys, vals, i, k))
  }

  function Lead(keys: seq<Value>, vals: seq<Value>): (out: seq<Value>)
    requires |keys| == |vals|
    ensures |out| == |keys|
  {
    seq(|keys|, i requires 0 <= i < |keys| => LeadAt(keys, vals, i))
  }

  // ---------------------------------------------------------------------------
  // What the shifts mean, in terms of counting rows of a location

  /** How many entries of `keys` are `key`. */
  function Count(keys: seq<Value>, key: Value): (n: nat)
    ensures n <= |keys|
    decreases |keys|
  {
    if |keys| == 0 then 0
    else Count(keys[..|keys| - 1], key) + (if keys[|keys| - 1] == key then 1 else 0)
  }

  lemma {:induction false} CountAppend(a: seq<Value>, b: seq<Value>, key: Value)
    ensures Count(a + b, key) == Count(a, key) + Count(b, key)
    decreases |b|
  {
    if |b| == 0 {
      assert a + b == a;
    } else {
      var b', x := b[..|b| - 1], b[|b| - 1];
      assert (a + b)[..|a + b| - 1] == a + b' && (a + b)[|a + b| - 1] == x;
      CountAppend(a, b', key);
    }
  }

  /** The positions are one per counted entry. */
  lemma {:induction false} MatchesCount(keys: seq<Value>, key: Value)
    ensures |Matches(keys, key)| == Count(keys, key)
    decreases |keys|
  {
    if |keys| > 0 {
      var init, x := keys[..|keys| - 1], keys[|keys| - 1];
      assert keys == init + [x];
      MatchesCount(init, key);
      MatchesLast(init, x, key);
    }
  }

  function Offset(ps: seq<nat>, d: nat): (qs: seq<nat>)
    ensures |qs| == |ps|
  {
    seq(|ps|, j requires 0 <= j < |ps| => ps[j] + d)
  }

  lemma MatchesLast(s: seq<Value>, x: Value, key: Value)
    ensures Matches(s + [x], key) == Matches(s, key) + (if x == key then [|s|] else [])
  {
    assert (s + [x])[..|s|] == s;
  }

  /** The positions in `a + b` are those in `a`, then those in `b` moved right. */
  lemma {:induction false} MatchesAppend(a: seq<Value>, b: seq<Value>, key: Value)
    ensures Matches(a + b, key) == Matches(a, key) + Offset(Matches(b, key), |a|)
    decreases |b|
  {
    if |b| == 0 {
      assert a + b == a;
    } else {
      var b', x := b[..|b| - 1], b[|b| - 1];
      var s := a + b';
      assert a + b == s + [x];
      assert b == b' + [x];
      var last: seq<nat> := if x == key then [|b'|] else [];
      var tail: seq<nat> := if x == key then [|s|] else [];
      if x == key {
        assert Offset(last, |a|)[0] == |s|;
      }
      assert Offset(last, |a|) == tail;
      var ma, mb' := Matches(a, key), Matches(b', key);
      calc {
        Matches(a + b, key);
        { MatchesLast(s, x, key); }
        Matches(s, key) + tail;
        { MatchesAppend(a, b', key); }
        (ma + Offset(mb', |a|)) + tail;
        { AppendAssoc(ma, Offset(mb', |a|), tail); }
        ma + (Offset(mb', |a|) + Offset(last, |a|));
        { OffsetAppend(mb', last, |a|); }
        ma + Offset(mb' + last, |a|);
        { MatchesLast(b', x, key); }
        ma + Offset(Matches(b, key), |a|);
      }
    }
  }

  lemma AppendAssoc<T>(a: seq<T>, b: seq<T>, c: seq<T>)
    ensures (a + b) + c == a + (b + c)
  {
  }

  lemma OffsetAppend(ps: seq<nat>, qs: seq<nat>, d: nat)
    ensures Offset(ps + qs, d) == Offset(ps, d) + Offset(qs, d)
  {
  }

  /** A sequence that starts with `key` has its first match at 0. */
  lemma MatchesFirst(s: seq<Value>, key: Value)
    requires |s| > 0 && s[0] == key
    ensures |Matches(s, key)| > 0 && Matches(s, key)[0] == 0
  {
    var ps := Matches(s, key);
    assert 0 in ps;
  }

  /** lag_k at row `i` is the ride count at the row `p` before it with the
      same location such that rows p..i-1 hold exactly k rows of that
      location: the k-th earlier row of the location, in input order. */
  lemma LagAtIsKthEarlier(keys: seq<Value>, vals: seq<Value>, i: nat, k: nat, p: nat)
    requires |keys| == |vals| && p < i < |keys| && k >= 1
    requires keys[i] != Missing && keys[p] == keys[i]
    requires Count(keys[p..i], keys[i]) == k
    ensures LagAt(keys, vals, i, k) == vals[p]
  {
    var key := keys[i];
    assert keys[..i] == keys[..p] + keys[p..i];
    MatchesAppend(keys[..p], keys[p..i], key);
    MatchesCount(keys[p..i], key);
    MatchesFirst(keys[p..i], key);
  }

  /** lag_k is missing when the row has no location or fewer than k earlier
      rows of its location; otherwise it is one of the ride counts. */
  lemma LagAtDefined(keys: seq<Value>, vals: seq<Value>, i: nat, k: nat)
    requires |keys| == |vals| && i < |keys| && k >= 1
    ensures keys[i] == Missing || Count(keys[..i], keys[i]) < k ==> LagAt(keys, vals, i, k) == Missing
    ensures keys[i] != Missing && Count(keys[..i], keys[i]) >= k ==>
      exists p :: 0 <= p < i && LagAt(keys, vals, i, k) == vals[p]
  {
    if keys[i] != Missing {
      MatchesCount(keys[..i], keys[i]);
      var before := Matches(keys[..i], keys[i]);
      if |before| >= k {
        var p := before[|before| - k];
        assert p < i && LagAt(keys, vals, i, k) == vals[p];
      }
    }
  }

  /** The target at row `i` is the ride count of the next row `q` of the same
      location. */
  lemma LeadAtIsNext(keys: seq<Value>, vals: seq<Value>, i: nat, q: nat)
    requires |keys| == |vals| && i < q < |keys|
    requires keys[i] != Missing && keys[q] == keys[i]
    requires Count(keys[i + 1..q], keys[i]) == 0
    ensures LeadAt(keys, vals, i) == vals[q]
  {
    var key := keys[i];
    var mid, rest := keys[i + 1..q], keys[q..];
    var after := Matches(keys[i + 1..], key);
    assert after == Matches(mid, key) + Offset(Matches(rest, key), |mid|) by {
      assert keys[i + 1..] == mid + rest;
      MatchesAppend(mid, rest, key);
    }
    assert |Matches(mid, key)| == 0 by {
      MatchesCount(mid, key);
    }
    MatchesFirst(rest, key);
    assert after[0] == q - i - 1;
  }

  /** The target is missing when the row has no location or is the last row
      of its location; otherwise it is one of the later ride counts. */
  lemma LeadAtDefined(keys: seq<Value>, vals: seq<Value>, i: nat)
    requires |keys| == |vals| && i < |keys|
    ensures keys[i] == Missing || Count(keys[i + 1..], keys[i]) == 0 ==> LeadAt(keys, vals, i) == Missing
    ensures keys[i] != Missing && Count(keys[i + 1..], keys[i]) > 0 ==>
      exists q :: i < q < |keys| && LeadAt(keys, vals, i) == vals[q]
  {
    if keys[i] != Missing {
      MatchesCount(keys[i + 1..], keys[i]);
      var after := Matches(keys[i + 1..], keys[i]);
      if |after| > 0 {
        var q := i + 1 + after[0];
        assert i < q < |keys| && LeadAt(keys, vals, i) == vals[q];
      }
    }
  }

  function Pick(vals: seq<Value>, ps: seq<nat>): (r: seq<Value>)
    requires forall j :: 0 <= j < |ps| ==> ps[j] < |vals|
    ensures |r| == |ps|
  {
    seq(|ps|, j requires 0 <= j < |ps| => vals[ps[j]])
  }

  /** The values of the rows before `i` whose key is `key`, in order. */
  function History(keys: seq<Value>, vals: seq<Value>, i: nat, key: Value): seq<Value>
    requires |keys| == |vals| && i <= |keys|
  {
    Pick(vals, Matches(keys[..i], key))
  }

  lemma HistorySnoc(keys: seq<Value>, vals: seq<Value>, i: nat, key: Value)
    requires |keys| == |vals| && i < |keys|
    ensures History(keys, vals, i + 1, key)
         == History(keys, vals, i, key) + (if keys[i] == key then [vals[i]] else [])
  {
    MatchesSnoc(keys, i, key);
  }

  /** The lag is the k-th last value of the row's own group history. */
  lemma LagAtHistory(keys: seq<Value>, vals: seq<Value>, i: nat, k: nat)
    requires |keys| == |vals| && i < |keys| && k >= 1
    ensures var h := History(keys, vals, i, keys[i]);
      LagAt(keys, vals, i, k) == if keys[i] == Missing || |h| < k then Missing else h[|h| - k]
  {
  }

  /** `seen` holds, for every key met before row `i`, that key's history. */
  ghost predicate SeenBefore(seen: map<Value, seq<Value>>, keys: seq<Value>, vals: seq<Value>, i: nat)
    requires |keys| == |vals| && i <= |keys|
  {
    && Missing !in seen
    && (forall key :: key in seen ==> seen[key] == History(keys, vals, i, key))
    && (forall key :: key !in seen && key != Missing ==> History(keys, vals, i, key) == [])
  }

  function HistoryOr(seen: map<Value, seq<Value>>, key: Value): seq<Value> {
    if key in seen then seen[key] else []
  }

  /** What the single pass reads at row `i` is the lag there. */
  function SeenLag(seen: map<Value, seq<Value>>, key: Value, k: nat): Value {
    var h := HistoryOr(seen, key);
    if key == Missing || k == 0 || |h| < k then Missing else h[|h| - k]
  }

  lemma SeenLagIsLag(seen: map<Value, seq<Value>>, keys: seq<Value>, vals: seq<Value>, i: nat, k: nat)
    requires |keys| == |vals| && i < |keys| && k >= 1 && SeenBefore(seen, keys, vals, i)
    ensures SeenLag(seen, keys[i], k) == LagAt(keys, vals, i, k)
  {
    LagAtHistory(keys, vals, i, k);
    var key := keys[i];
    if key != Missing {
      assert HistoryOr(seen, key) == History(keys, vals, i, key);
    }
  }

  lemma SeenStep(seen: map<Value, seq<Value>>, keys: seq<Value>, vals: seq<Value>, i: nat)
    requires |keys| == |vals| && i < |keys| && SeenBefore(seen, keys, vals, i)
    ensures keys[i] != Missing ==>
      SeenBefore(seen[keys[i] := HistoryOr(seen, keys[i]) + [vals[i]]], keys, vals, i + 1)
    ensures keys[i] == Missing ==> SeenBefore(seen, keys, vals, i + 1)
  {
    var key := keys[i];
    if key != Missing {
      var seen' := seen[key := HistoryOr(seen, key) + [vals[i]]];
      forall c | c in seen' ensures seen'[c] == History(keys, vals, i + 1, c) {
        HistorySnoc(keys, vals, i, c);
      }
      forall c | c !in seen' && c != Missing ensures History(keys, vals, i + 1, c) == [] {
        HistorySnoc(keys, vals, i, c);
      }
    } else {
      forall c | c in seen ensures seen[c] == History(keys, vals, i + 1, c) {
        HistorySnoc(keys, vals, i, c);
      }
      forall c | c !in seen && c != Missing ensures History(keys, vals, i + 1, c) == [] {
        HistorySnoc(keys, vals, i, c);
      }
    }
  }

  /** The grouped shift computed the way a single pass over the rows does
      it: remember, per key, the values seen so far and read the k-th last. */
  method GroupShift(keys: seq<Value>, vals: seq<Value>, k: nat) returns (out: seq<Value>)
    requires |keys| == |vals| && k >= 1
    ensures out == Shift(keys, vals, k)
  {
    var seen: map<Value, seq<Value>> := map[];
    out := [];
    for i := 0 to |keys|
      invariant |out| == i
      invariant forall t :: 0 <= t < i ==> out[t] == LagAt(keys, vals, t, k)
      invariant SeenBefore(seen, keys, vals, i)
    {
      var key := keys[i];
      SeenLagIsLag(seen, keys, vals, i, k);
      SeenStep(seen, keys, vals, i);
      out := out + [SeenLag(seen, key, k)];
      if key != Missing {
        seen := seen[key := HistoryOr(seen, key) + [vals[i]]];
      }
    }
  }

  /** Row `r` (row `i` of the frame) with lag_1 .. lag_k set. */
  function LaggedRow(r: Row, keys: seq<Value>, vals: seq<Value>, i: nat, k: nat): Row
    requires |keys| == |vals| && i < |keys|
  {
    if k == 0 then r else LaggedRow(r, keys, vals, i, k - 1)[LagName(k) := LagAt(keys, vals, i, k)]
  }

  /** The column list after lag_1 .. lag_k were set. */
  function LagColumns(cols: seq<string>, k: nat): seq<string> {
    if k == 0 then cols else AddName(LagColumns(cols, k - 1), LagName(k))
  }

  /** Setting the lags adds the lag columns, each holding the grouped shift
      by its number, and leaves every column not shaped like a lag as it was. */
  lemma {:induction false} LaggedRowFacts(r: Row, keys: seq<Value>, vals: seq<Value>, i: nat, k: nat)
    requires |keys| == |vals| && i < |keys|
    ensures forall j :: 1 <= j <= k ==> LagName(j) in LaggedRow(r, keys, vals, i, k)
    ensures forall j :: 1 <= j <= k ==> LaggedRow(r, keys, vals, i, k)[LagName(j)] == LagAt(keys, vals, i, j)
    ensures forall c :: c in r ==> c in LaggedRow(r, keys, vals, i, k)
    ensures forall c :: c in LaggedRow(r, keys, vals, i, k) ==> c in r || IsLagColumn(c)
    ensures forall c :: c in r && !IsLagColumn(c) ==> LaggedRow(r, keys, vals, i, k)[c] == r[c]
    decreases k
  {
    if k > 0 {
      LaggedRowFacts(r, keys, vals, i, k - 1);
      forall j | 1 <= j < k ensures LagName(j) != LagName(k) {
        LagNameFacts(j, k);
      }
      LagNameFacts(k, k);
    }
  }

  /** More precisely: the only columns added or changed are lag_1 .. lag_k. */
  lemma {:induction false} LaggedRowOnlyLags(r: Row, keys: seq<Value>, vals: seq<Value>, i: nat, k: nat)
    requires |keys| == |vals| && i < |keys|
    ensures forall c :: c in LaggedRow(r, keys, vals, i, k) ==> c in r || IsLagOf(c, k)
    ensures forall c :: c in r ==> c in LaggedRow(r, keys, vals, i, k)
    ensures forall c :: c in r && !IsLagOf(c, k) ==> LaggedRow(r, keys, vals, i, k)[c] == r[c]
    decreases k
  {
    if k > 0 {
      LaggedRowOnlyLags(r, keys, vals, i, k - 1);
      var after := LaggedRow(r, keys, vals, i, k);
      forall c | c in after ensures c in r || IsLagOf(c, k) {
        if c == LagName(k) {
          assert IsLagOf(c, k);
        }
      }
      forall c | c in r && !IsLagOf(c, k) ensures after[c] == r[c] {
        assert !IsLagOf(c, k - 1) && c != LagName(k);
      }
    }
  }

  /** Is `c` one of lag_1 .. lag_k? */
  ghost predicate IsLagOf(c: string, k: nat) {
    exists j :: 1 <= j <= k && c == LagName(j)
  }

  lemma LagOfIsLagColumn(c: string, k: nat)
    requires IsLagOf(c, k)
    ensures IsLagColumn(c)
  {
    var j :| 1 <= j <= k && c == LagName(j);
    LagNameFacts(j, j);
  }

  /** The frame with lag_1 .. lag_k set, each the grouped shift of `vals`
      by its number. */
  function AddLags(f: Frame, keys: seq<Value>, vals: seq<Value>, k: nat): (g: Frame)
    requires WellFormed(f) && |keys| == |vals| == |f.rows|
    ensures WellFormed(g) && |g.rows| == |f.rows|
    ensures g.cols == LagColumns(f.cols, k)
    ensures forall i :: 0 <= i < |g.rows| ==> g.rows[i] == LaggedRow(f.rows[i], keys, vals, i, k)
    decreases k
  {
    if k == 0 then f
    else SetColumn(AddLags(f, keys, vals, k - 1), LagName(k), Shift(keys, vals, k))
  }

  /** The fixed column names are pairwise different. */
  lemma FixedNamesDiffer()
    ensures LocationId != PickupTs && LocationId != PickupTsSplit && LocationId != HourOfDayCol
    ensures LocationId != DayOfWeekCol && LocationId != MonthCol && LocationId != Target
    ensures Rides != PickupTs && Rides != PickupTsSplit && Rides != HourOfDayCol
    ensures Rides != DayOfWeekCol && Rides != MonthCol && Rides != Target && Rides != LocationId
    ensures PickupTsSplit != PickupTs && PickupTsSplit != HourOfDayCol
    ensures PickupTsSplit != DayOfWeekCol && PickupTsSplit != MonthCol && PickupTsSplit != Target
    ensures Target != PickupTs && Target != HourOfDayCol && Target != DayOfWeekCol && Target != MonthCol
    ensures HourOfDayCol != PickupTs && DayOfWeekCol != PickupTs && MonthCol != PickupTs
    ensures HourOfDayCol != DayOfWeekCol && HourOfDayCol != MonthCol && DayOfWeekCol != MonthCol
  {
    assert LocationId[7] != PickupTs[7] && LocationId[7] != PickupTsSplit[7];
    assert PickupTsSplit != PickupTs by { assert |PickupTsSplit| != |PickupTs|; }
    assert HourOfDayCol[0] != DayOfWeekCol[0] && Rides[0] != MonthCol[0];
  }

  /** The frame before `dropna`: lags 1..n and the next-hour target added. */
  function Lagged(cal: Frame, n: nat): (g: Frame)
    requires WellFormed(cal) && LocationId in cal.cols && Rides in cal.cols
    ensures WellFormed(g) && |g.rows| == |cal.rows|
    ensures g.cols == AddName(LagColumns(cal.cols, n), Target)
    ensures forall i :: 0 <= i < |g.rows| ==>
      g.rows[i] == LaggedRow(cal.rows[i], Column(cal, LocationId), Column(cal, Rides), i, n)
                     [Target := LeadAt(Column(cal, LocationId), Column(cal, Rides), i)]
  {
    var keys := Column(cal, LocationId);
    var vals := Column(cal, Rides);
    SetColumn(AddLags(cal, keys, vals, n), Target, Lead(keys, vals))
  }

  /** What a call leaves behind: the caller's frame as mutated in place, and
      the returned frame or the exception raised. */
  datatype Outcome = Outcome(caller: Frame, result: Result<Frame>)

  /** The shared body of both `build_features`; `copySplit` says whether
      the timestamp is also copied to `pickup_ts_split`. */
  function Build(df: Frame, parse: Value -> Option<int>, n: nat, copySplit: bool): Outcome
    requires WellFormed(df)
  {
    if PickupTs !in df.cols then Outcome(df, Err(KeyError(PickupTs)))
    else
      var cal := WithCalendar(df, parse, copySplit);
      if n == 0 then Outcome(cal, Err(ValueError("No objects to concatenate")))
      else if LocationId !in cal.cols then Outcome(cal, Err(KeyError(LocationId)))
      else if Rides !in cal.cols then Outcome(cal, Err(KeyError(Rides)))
      else Outcome(cal, Ok(DropNa(Lagged(cal, n))))
  }

  /** The columns the caller's frame holds after the call: its own, in
      order, followed by the derived ones it lacked. */
  predicate CallerGained(df: Frame, caller: Frame, copySplit: bool) {
    && WellFormed(caller) && |caller.rows| == |df.rows|
    && |df.cols| <= |caller.cols| && caller.cols[..|df.cols|] == df.cols
    && HourOfDayCol in caller.cols && DayOfWeekCol in caller.cols && MonthCol in caller.cols
    && (copySplit ==> PickupTsSplit in caller.cols)
    && (forall c :: c in caller.cols ==>
          c in df.cols || c == HourOfDayCol || c == DayOfWeekCol || c == MonthCol
          || (copySplit && c == PickupTsSplit))
  }

  /** A row as `build_features` returns it: no missing cell, every lag and
      the target present, a parsed timestamp, its copy, and the calendar
      fields of that timestamp. */
  predicate FeatureRow(r: Row, n: nat, copySplit: bool) {
    && Complete(r)
    && (forall k :: 1 <= k <= n ==> LagName(k) in r)
    && Target in r
    && PickupTs in r && r[PickupTs].Time?
    && (copySplit ==> PickupTsSplit in r && r[PickupTsSplit] == r[PickupTs])
    && HourOfDayCol in r && DayOfWeekCol in r && MonthCol in r
    && r[HourOfDayCol].Int? && 0 <= r[HourOfDayCol].i < 24
    && r[DayOfWeekCol].Int? && 0 <= r[DayOfWeekCol].i < 7
    && r[MonthCol].Int? && 1 <= r[MonthCol].i <= 12
    && var s := Calendar.EpochSeconds(r[PickupTs].ns);
    && r[HourOfDayCol].i == Calendar.HourOfDay(s)
    && r[DayOfWeekCol].i == Calendar.DayOfWeek(s)
    && r[MonthCol].i == Calendar.MonthOf(s)
  }

  /** `cols` is a prefix of `big`. */
  predicate PrefixOf(cols: seq<string>, big: seq<string>) {
    |cols| <= |big| && big[..|cols|] == cols
  }

  lemma AddNameExtends(pre: seq<string>, cols: seq<string>, c: string)
    requires PrefixOf(pre, cols)
    ensures PrefixOf(pre, AddName(cols, c))
  {
    if c !in cols {
      assert (cols + [c])[..|pre|] == cols[..|pre|];
    }
  }

  /** The calendar columns extend the caller's own list. */
  lemma CalendarColumnsExtend(cols: seq<string>, copySplit: bool)
    requires PickupTs in cols
    ensures PrefixOf(cols, CalendarColumns(cols, copySplit))
    ensures forall c :: c in CalendarColumns(cols, copySplit) <==>
      c in cols || c == HourOfDayCol || c == DayOfWeekCol || c == MonthCol || (copySplit && c == PickupTsSplit)
  {
    var c2 := if copySplit then AddName(cols, PickupTsSplit) else cols;
    assert PrefixOf(cols, cols);
    AddNameExtends(cols, cols, PickupTsSplit);
    AddNameExtends(cols, c2, HourOfDayCol);
    AddNameExtends(cols, AddName(c2, HourOfDayCol), DayOfWeekCol);
    AddNameExtends(cols, AddName(AddName(c2, HourOfDayCol), DayOfWeekCol), MonthCol);
  }

  /** The calendar step adds the derived columns behind the caller's own. */
  lemma CalendarColumnsGained(df: Frame, parse: Value -> Option<int>, copySplit: bool)
    requires WellFormed(df) && PickupTs in df.cols
    ensures CallerGained(df, WithCalendar(df, parse, copySplit), copySplit)
    ensures forall c :: c in df.cols ==> c in WithCalendar(df, parse, copySplit).cols
  {
    CalendarColumnsExtend(df.cols, copySplit);
  }

  /** A complete row of the lagged frame is a feature row. */
  lemma CompleteRowIsFeatureRow(dr: Row, parse: Value -> Option<int>, copySplit: bool,
                                keys: seq<Value>, vals: seq<Value>, i: nat, n: nat, lead: Value)
    requires PickupTs in dr && |keys| == |vals| && i < |keys|
    requires Complete(LaggedRow(CalendarRow(dr, parse, copySplit), keys, vals, i, n)[Target := lead])
    ensures FeatureRow(LaggedRow(CalendarRow(dr, parse, copySplit), keys, vals, i, n)[Target := lead], n, copySplit)
  {
    var cr := CalendarRow(dr, parse, copySplit);
    var t := ParseTimestamp(parse, dr[PickupTs]);
    var r := LaggedRow(cr, keys, vals, i, n)[Target := lead];
    CalendarRowBasics(dr, parse, copySplit);
    assert && (forall k :: 1 <= k <= n ==> LagName(k) in r)
           && PickupTs in r && r[PickupTs] == t
           && (copySplit ==> PickupTsSplit in r && r[PickupTsSplit] == t)
           && HourOfDayCol in r && r[HourOfDayCol] == HourCell(t)
           && DayOfWeekCol in r && r[DayOfWeekCol] == DayOfWeekCell(t)
           && MonthCol in r && r[MonthCol] == MonthCell(t) by {
      LaggedRowFacts(cr, keys, vals, i, n);
      FixedNamesAreNotLags();
      FixedNamesDiffer();
    }
    CalendarCellsMakeFeatureRow(r, t, n, copySplit);
  }

  /** The calendar step writes the parsed timestamp, its copy and the three
      fields of it. */
  lemma CalendarRowBasics(dr: Row, parse: Value -> Option<int>, copySplit: bool)
    requires PickupTs in dr
    ensures var cr, t := CalendarRow(dr, parse, copySplit), ParseTimestamp(parse, dr[PickupTs]);
      && PickupTs in cr && cr[PickupTs] == t
      && (copySplit ==> PickupTsSplit in cr && cr[PickupTsSplit] == t)
      && HourOfDayCol in cr && cr[HourOfDayCol] == HourCell(t)
      && DayOfWeekCol in cr && cr[DayOfWeekCol] == DayOfWeekCell(t)
      && MonthCol in cr && cr[MonthCol] == MonthCell(t)
  {
    FixedNamesDiffer();
  }

  /** A complete row holding the lags, the target and the calendar cells of
      its timestamp `t` is a feature row. */
  lemma CalendarCellsMakeFeatureRow(r: Row, t: Value, n: nat, copySplit: bool)
    requires Complete(r) && (forall k :: 1 <= k <= n ==> LagName(k) in r) && Target in r
    requires PickupTs in r && r[PickupTs] == t && (t.Missing? || t.Time?)
    requires copySplit ==> PickupTsSplit in r && r[PickupTsSplit] == t
    requires HourOfDayCol in r && r[HourOfDayCol] == HourCell(t)
    requires DayOfWeekCol in r && r[DayOfWeekCol] == DayOfWeekCell(t)
    requires MonthCol in r && r[MonthCol] == MonthCell(t)
    ensures FeatureRow(r, n, copySplit)
  {
  }

  lemma LaggedRowIsFeatureRow(df: Frame, parse: Value -> Option<int>, n: nat, copySplit: bool, i: nat)
    requires WellFormed(df) && PickupTs in df.cols && i < |df.rows|
    requires var cal := WithCalendar(df, parse, copySplit);
      LocationId in cal.cols && Rides in cal.cols && Complete(Lagged(cal, n).rows[i])
    ensures FeatureRow(Lagged(WithCalendar(df, parse, copySplit), n).rows[i], n, copySplit)
  {
    var cal := WithCalendar(df, parse, copySplit);
    var keys, vals := Column(cal, LocationId), Column(cal, Rides);
    CompleteRowIsFeatureRow(df.rows[i], parse, copySplit, keys, vals, i, n, LeadAt(keys, vals, i));
  }

  /** `build_features` of `src/features.py`. */
  function BuildFeatures(df: Frame, parse: Value -> Option<int>, n: nat): (o: Outcome)
    requires WellFormed(df)
    ensures o.result.Err? <==> PickupTs !in df.cols || n == 0 || LocationId !in df.cols || Rides !in df.cols
    ensures PickupTs !in df.cols ==> o.caller == df && o.result == Err(KeyError(PickupTs))
    ensures PickupTs in df.cols && n == 0 ==> o.result.Err? && o.result.error.ValueError?
    ensures PickupTs in df.cols && n > 0 && LocationId !in df.cols ==> o.result == Err(KeyError(LocationId))
    ensures PickupTs in df.cols && n > 0 && LocationId in df.cols && Rides !in df.cols ==>
      o.result == Err(KeyError(Rides))
    ensures PickupTs in df.cols ==> CallerGained(df, o.caller, true)
    ensures o.result.Ok? ==> |o.result.value.rows| <= |df.rows|
    ensures o.result.Ok? ==> forall j :: 0 <= j < |o.result.value.rows| ==> FeatureRow(o.result.value.rows[j], n, true)
  {
    BuildOutcome(df, parse, n, true);
    Build(df, parse, n, true)
  }

  /** `build_features` of `src/test_features.py`: the same steps without
      the `pickup_ts_split` copy. */
  function BuildFeaturesWithoutSplit(df: Frame, parse: Value -> Option<int>, n: nat): (o: Outcome)
    requires WellFormed(df)
    ensures o.result.Err? <==> PickupTs !in df.cols || n == 0 || LocationId !in df.cols || Rides !in df.cols
    ensures PickupTs !in df.cols ==> o.caller == df && o.result == Err(KeyError(PickupTs))
    ensures PickupTs in df.cols && n == 0 ==> o.result.Err? && o.result.error.ValueError?
    ensures PickupTs in df.cols && n > 0 && LocationId !in df.cols ==> o.result == Err(KeyError(LocationId))
    ensures PickupTs in df.cols && n > 0 && LocationId in df.cols && Rides !in df.cols ==>
      o.result == Err(KeyError(Rides))
    ensures PickupTs in df.cols ==> CallerGained(df, o.caller, false)
    ensures o.result.Ok? ==> |o.result.value.rows| <= |df.rows|
    ensures o.result.Ok? ==> forall j :: 0 <= j < |o.result.value.rows| ==> FeatureRow(o.result.value.rows[j], n, false)
  {
    BuildOutcome(df, parse, n, false);
    Build(df, parse, n, false)
  }

  /** The outcome of both variants: the error cases in the order the source
      meets them, the caller's new columns, and feature rows on success. */
  lemma BuildOutcome(df: Frame, parse: Value -> Option<int>, n: nat, copySplit: bool)
    requires WellFormed(df)
    ensures var o := Build(df, parse, n, copySplit);
      && (o.result.Err? <==> PickupTs !in df.cols || n == 0 || LocationId !in df.cols || Rides !in df.cols)
      && (PickupTs !in df.cols ==> o.caller == df && o.result == Err(KeyError(PickupTs)))
      && (PickupTs in df.cols && n == 0 ==> o.result.Err? && o.result.error.ValueError?)
      && (PickupTs in df.cols && n > 0 && LocationId !in df.cols ==> o.result == Err(KeyError(LocationId)))
      && (PickupTs in df.cols && n > 0 && LocationId in df.cols && Rides !in df.cols ==>
            o.result == Err(KeyError(Rides)))
      && (PickupTs in df.cols ==> CallerGained(df, o.caller, copySplit))
      && (o.result.Ok? ==> |o.result.value.rows| <= |df.rows|)
      && (o.result.Ok? ==> forall j :: 0 <= j < |o.result.value.rows| ==>
            FeatureRow(o.result.value.rows[j], n, copySplit))
  {
    if PickupTs in df.cols {
      var cal := WithCalendar(df, parse, copySplit);
      CalendarColumnsGained(df, parse, copySplit);
      FixedNamesDiffer();
      assert LocationId in cal.cols <==> LocationId in df.cols;
      assert Rides in cal.cols <==> Rides in df.cols;
      if n > 0 && LocationId in df.cols && Rides in df.cols {
        var lagged := Lagged(cal, n);
        var out := DropNa(lagged);
        var ps := Positions(lagged.rows, Complete);
        forall j | 0 <= j < |out.rows| ensures FeatureRow(out.rows[j], n, copySplit) {
          assert out.rows[j] == lagged.rows[ps[j]];
          LaggedRowIsFeatureRow(df, parse, n, copySplit, ps[j]);
        }
      }
    }
  }

  /** One location with rides 5, 6, 7, 8, 9 in five consecutive rows: the
      third row has lag_1 = 6 and lag_2 = 5; the first two rows lack lag_2. */
  lemma OneLocationLags()
    ensures var one := Int(1);
      var keys, vals := [one, one, one, one, one], [Int(5), Int(6), Int(7), Int(8), Int(9)];
      && LagAt(keys, vals, 2, 1) == Int(6) && LagAt(keys, vals, 2, 2) == Int(5)
      && LagAt(keys, vals, 0, 2) == Missing && LagAt(keys, vals, 1, 2) == Missing
  {
    var one := Int(1);
    var keys := [one, one, one, one, one];
    MatchesLast([], one, one);
    MatchesLast([one], one, one);
    assert [] + [one] == [one] && [one] + [one] == [one, one];
    assert keys[..0] == [] && keys[..1] == [one] && keys[..2] == [one, one];
  }

  /** The same location: the third row's target is 8, the last row has none. */
  lemma OneLocationTargets()
    ensures var one := Int(1);
      var keys, vals := [one, one, one, one, one], [Int(5), Int(6), Int(7), Int(8), Int(9)];
      LeadAt(keys, vals, 2) == Int(8) && LeadAt(keys, vals, 4) == Missing
  {
    var one := Int(1);
    var keys := [one, one, one, one, one];
    MatchesLast([], one, one);
    MatchesLast([one], one, one);
    assert [] + [one] == [one] && [one] + [one] == [one, one];
    assert keys[3..] == [one, one] && keys[5..] == [];
  }
}
