/** `df[col].astype("int64") // 10**9` on every datetime column: the way the
    training split, `split_data` and inference turn timestamps into whole
    seconds since the epoch before a model sees them. */
module Seconds {
  import opened Frames
  import Calendar

  /** A column pandas types as datetime64: it holds at least one timestamp
      and nothing but timestamps and NaT. */
  predicate IsDatetimeColumn(f: Frame, c: string)
    requires WellFormed(f) && c in f.cols
  {
    var vs := Column(f, c);
    && (exists i :: 0 <= i < |vs| && vs[i].Time?)
    && (forall i :: 0 <= i < |vs| ==> vs[i].Time? || vs[i].Missing?)
  }

  /** `select_dtypes(include=["datetime64[ns, UTC]", "datetime64[ns]"]).columns`. */
  function DatetimeColumns(f: Frame): (dt: set<string>)
    requires WellFormed(f)
    ensures forall c :: c in dt <==> c in f.cols && IsDatetimeColumn(f, c)
  {
    set c | c in f.cols && IsDatetimeColumn(f, c)
  }

  /** The int64 pandas stores for NaT (iNaT), the least 64-bit integer. */
  const INaT := -0x8000_0000_0000_0000

  /** One cell of a converted column: a timestamp becomes its whole seconds,
      rounded down as `//` does; NaT becomes the integer NaT is stored as,
      divided the same way. */
  function SecondsCell(v: Value): (w: Value)
    ensures v.Time? ==> w.Int? && w.i * Calendar.NanosPerSecond <= v.ns < (w.i + 1) * Calendar.NanosPerSecond
    ensures v.Missing? ==> w == Int(-9_223_372_037)
    ensures !v.Time? && !v.Missing? ==> w == v
  {
    if v.Time? then Int(Calendar.EpochSeconds(v.ns))
    else if v.Missing? then Int(Calendar.EpochSeconds(INaT))
    else v
  }

  /** Converts the columns named in `dt`; every other cell is left alone. */
  function ToSeconds(f: Frame, dt: set<string>): (g: Frame)
    requires WellFormed(f)
    ensures WellFormed(g) && g.cols == f.cols && |g.rows| == |f.rows|
    ensures forall i, c :: 0 <= i < |g.rows| && c in f.cols ==>
      g.rows[i][c] == (if c in dt then SecondsCell(f.rows[i][c]) else f.rows[i][c])
  {
    Frame(f.cols, seq(|f.rows|, i requires 0 <= i < |f.rows| =>
      map c | c in f.rows[i] :: if c in dt then SecondsCell(f.rows[i][c]) else f.rows[i][c]))
  }

  /** The conversion of the datetime columns a frame has. */
  function Converted(f: Frame): (g: Frame)
    requires WellFormed(f)
    ensures WellFormed(g) && g.cols == f.cols && |g.rows| == |f.rows|
  {
    ToSeconds(f, DatetimeColumns(f))
  }

  /** One cell of the converted frame: the input's cell, in seconds when
      its column is a datetime one. */
  function ConvertedCell(f: Frame, i: nat, c: string): (v: Value)
    requires WellFormed(f) && i < |f.rows| && c in f.cols
    ensures c in f.rows[i] && v == Converted(f).rows[i][c]
  {
    RowsHaveColumn(f, c);
    if c in DatetimeColumns(f) then SecondsCell(f.rows[i][c]) else f.rows[i][c]
  }

  /** After the conversion no datetime column is left, so converting again
      changes nothing. */
  lemma ConvertedHasNoDatetime(f: Frame)
    requires WellFormed(f)
    ensures DatetimeColumns(Converted(f)) == {}
    ensures Converted(Converted(f)) == Converted(f)
  {
    var g := Converted(f);
    var dt := DatetimeColumns(f);
    forall c | c in g.cols ensures !IsDatetimeColumn(g, c) {
      var vs, ws := Column(f, c), Column(g, c);
      if c in dt {
        forall i | 0 <= i < |ws| ensures !ws[i].Time? {
          assert ws[i] == SecondsCell(vs[i]);
        }
      } else if IsDatetimeColumn(g, c) {
        assert forall i :: 0 <= i < |ws| ==> ws[i] == vs[i];
        assert IsDatetimeColumn(f, c);
      }
    }
    assert DatetimeColumns(g) == {};
    var h := Converted(g);
    assert h.rows == g.rows by {
      forall i | 0 <= i < |g.rows| ensures h.rows[i] == g.rows[i] {
        assert h.rows[i].Keys == ColSet(g.cols) == g.rows[i].Keys;
      }
    }
  }

  /** A datetime column with a NaT: the timestamp becomes its seconds, and
      the NaT the large negative integer pandas 2 gives it, not a missing
      cell. */
  lemma NaTConverted(c: string)
    ensures var f := Frame([c], [map[c := Time(5_000_000_000)], map[c := Missing]]);
      && WellFormed(f) && c in DatetimeColumns(f)
      && Converted(f).rows[0][c] == Int(5) && Converted(f).rows[1][c] == Int(-9_223_372_037)
  {
    var f := Frame([c], [map[c := Time(5_000_000_000)], map[c := Missing]]);
    assert ColSet(f.cols) == {c};
    assert Column(f, c)[0].Time?;
  }
}
