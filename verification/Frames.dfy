/** Tables as the pipeline handles them: an ordered list of column names and a
    sequence of rows, each row a map from column name to cell. Together with
    the exceptions the pipeline's table code can raise, this is the vocabulary
    every other module is written in. */
module Frames {

  /** One cell. `Missing` stands for every pandas "not available" marker
      alike: NaN, NaT and None. `Time` is an instant in nanoseconds since the
      Unix epoch, the representation of pandas' datetime64[ns]. */
  datatype Value = Missing | Int(i: int) | Num(x: real) | Time(ns: int) | Text(s: string)

  type Row = map<string, Value>

  datatype Frame = Frame(cols: seq<string>, rows: seq<Row>)

  /** The exceptions the modelled code lets escape. */
  datatype Error =
    | KeyError(column: string)
    | TypeError(column: string)
    | ValueError(reason: string)
    | FileNotFoundError(path: string)
    | AttributeError(name: string)
    | UndefinedVariableError(name: string)

  datatype Result<T> = Ok(value: T) | Err(error: Error)

  predicate Distinct(s: seq<string>) {
    forall i, j :: 0 <= i < j < |s| ==> s[i] != s[j]
  }

  function ColSet(cols: seq<string>): set<string> {
    set c | c in cols
  }

  /** A cell holding a number. */
  predicate IsNumber(v: Value) {
    v.Int? || v.Num?
  }

  /** The number a numeric cell holds, as a real. */
  function RealOf(v: Value): real
    requires IsNumber(v)
  {
    if v.Int? then v.i as real else v.x
  }

  /** Column names are unique and every row has exactly the frame's columns. */
  predicate WellFormed(f: Frame) {
    && Distinct(f.cols)
    && forall i :: 0 <= i < |f.rows| ==> f.rows[i].Keys == ColSet(f.cols)
  }

  /** Every row of a well-formed frame has each of its columns. */
  lemma RowsHaveColumn(f: Frame, c: string)
    requires WellFormed(f) && c in f.cols
    ensures forall i :: 0 <= i < |f.rows| ==> c in f.rows[i]
  {
    forall i | 0 <= i < |f.rows| ensures c in f.rows[i] {
      assert c in ColSet(f.cols);
    }
  }

  /** `pd.DataFrame()`: no columns and no rows. */
  const EmptyFrame := Frame([], [])

  /** pandas' `DataFrame.empty`: true when either axis has length zero. */
  predicate IsEmpty(f: Frame) {
    |f.rows| == 0 || |f.cols| == 0
  }

  /** A row with no missing cell; `dropna()` keeps exactly these. */
  predicate Complete(r: Row) {
    forall c :: c in r ==> r[c] != Missing
  }

  // ---------------------------------------------------------------------------
  // Sequences

  lemma DistinctAppend(a: seq<string>, b: seq<string>)
    requires Distinct(a) && Distinct(b)
    requires forall c :: c in b ==> c !in a
    ensures Distinct(a + b)
  {
    forall i, j | 0 <= i < j < |a + b| ensures (a + b)[i] != (a + b)[j] {
      if j < |a| {
        assert (a + b)[i] == a[i] && (a + b)[j] == a[j];
      } else if i < |a| {
        assert (a + b)[i] == a[i] && (a + b)[j] == b[j - |a|] && b[j - |a|] in b;
      } else {
        assert (a + b)[i] == b[i - |a|] && (a + b)[j] == b[j - |a|];
      }
    }
  }

  /** The positions of `s` whose element satisfies `keep`, ascending. */
  function Positions<T>(s: seq<T>, keep: T -> bool): (ps: seq<nat>)
    ensures |ps| <= |s|
    ensures forall j :: 0 <= j < |ps| ==> ps[j] < |s| && keep(s[ps[j]])
    ensures forall j, j' :: 0 <= j < j' < |ps| ==> ps[j] < ps[j']
    ensures forall i :: 0 <= i < |s| && keep(s[i]) ==> i in ps
    decreases |s|
  {
    if |s| == 0 then []
    else
      var init := s[..|s| - 1];
      var ps := Positions(init, keep);
      assert forall j :: 0 <= j < |ps| ==> s[ps[j]] == init[ps[j]];
      assert forall i :: 0 <= i < |init| ==> s[i] == init[i];
      ps + (if keep(s[|s| - 1]) then [|s| - 1] else [])
  }

  /** The elements of `s` that satisfy `keep`, in their original order. */
  function Filter<T>(s: seq<T>, keep: T -> bool): (r: seq<T>)
    ensures |r| <= |s|
    ensures forall x :: x in r ==> keep(x)
  {
    var ps := Positions(s, keep);
    seq(|ps|, j requires 0 <= j < |ps| => s[ps[j]])
  }

  /** Filtering one step further: the last element is kept or not. */
  lemma FilterSnoc<T>(s: seq<T>, x: T, keep: T -> bool)
    ensures Filter(s + [x], keep) == Filter(s, keep) + (if keep(x) then [x] else [])
  {
    assert (s + [x])[..|s|] == s;
    var ps := Positions(s, keep);
    assert forall j :: 0 <= j < |ps| ==> (s + [x])[ps[j]] == s[ps[j]];
  }

  /** Filtering keeps exactly the elements from position `n` on when those
      are the ones `keep` accepts. */
  lemma {:induction false} FilterFrom<T>(s: seq<T>, keep: T -> bool, n: nat)
    requires forall i :: 0 <= i < |s| ==> (keep(s[i]) <==> i >= n)
    ensures Filter(s, keep) == if n <= |s| then s[n..] else []
    decreases |s|
  {
    if |s| > 0 {
      var init, x := s[..|s| - 1], s[|s| - 1];
      assert init + [x] == s;
      assert forall i :: 0 <= i < |init| ==> (keep(init[i]) <==> i >= n) by {
        assert forall i :: 0 <= i < |init| ==> init[i] == s[i];
      }
      FilterFrom(init, keep, n);
      FilterSnoc(init, x, keep);
      if n <= |init| {
        SuffixSnoc(init, x, n);
      }
    }
  }

  /** A suffix of a sequence one longer is the old suffix and the new last
      element. */
  lemma SuffixSnoc<T>(s: seq<T>, x: T, n: nat)
    requires n <= |s|
    ensures (s + [x])[n..] == s[n..] + [x]
  {
  }

  /** Whether a position is kept depends only on the element there. */
  lemma {:induction false} PositionsAgree<T, U>(s: seq<T>, keep: T -> bool, t: seq<U>, keep': U -> bool)
    requires |s| == |t|
    requires forall i :: 0 <= i < |s| ==> keep(s[i]) == keep'(t[i])
    ensures Positions(s, keep) == Positions(t, keep')
    decreases |s|
  {
    if |s| > 0 {
      PositionsAgree(s[..|s| - 1], keep, t[..|t| - 1], keep');
    }
  }

  /** Two disjoint filters together hold each qualifying element exactly once. */
  lemma {:induction false} FilterMultiset<T>(s: seq<T>, keep: T -> bool, other: T -> bool, either: T -> bool)
    requires forall x :: x in s ==> !(keep(x) && other(x))
    requires forall x :: x in s ==> either(x) == (keep(x) || other(x))
    ensures multiset(Filter(s, keep)) + multiset(Filter(s, other)) == multiset(Filter(s, either))
    decreases |s|
  {
    if |s| > 0 {
      var init, x := s[..|s| - 1], s[|s| - 1];
      assert s == init + [x];
      FilterMultiset(init, keep, other, either);
      FilterSnoc(init, x, keep);
      FilterSnoc(init, x, other);
      FilterSnoc(init, x, either);
    }
  }

  // ---------------------------------------------------------------------------
  // Columns

  /** The cells of column `c`, top to bottom. */
  function Column(f: Frame, c: string): (vs: seq<Value>)
    requires WellFormed(f) && c in f.cols
    ensures |vs| == |f.rows|
    ensures forall i :: 0 <= i < |vs| ==> c in f.rows[i] && vs[i] == f.rows[i][c]
  {
    seq(|f.rows|, i requires 0 <= i < |f.rows| => f.rows[i][c])
  }

  /** `cols` with `c` appended unless it is already there. */
  function AddName(cols: seq<string>, c: string): seq<string> {
    if c in cols then cols else cols + [c]
  }

  lemma AddNameKeepsDistinct(cols: seq<string>, c: string)
    requires Distinct(cols)
    ensures Distinct(AddName(cols, c)) && ColSet(AddName(cols, c)) == ColSet(cols) + {c}
  {
  }

  /** `df[c] = vs`: an existing column is overwritten in place, a new one is
      appended at the right. */
  function SetColumn(f: Frame, c: string, vs: seq<Value>): (g: Frame)
    requires WellFormed(f) && |vs| == |f.rows|
    ensures WellFormed(g)
    ensures g.cols == AddName(f.cols, c)
    ensures |g.rows| == |f.rows|
    ensures forall i :: 0 <= i < |g.rows| ==> g.rows[i] == f.rows[i][c := vs[i]]
  {
    AddNameKeepsDistinct(f.cols, c);
    Frame(AddName(f.cols, c), seq(|f.rows|, i requires 0 <= i < |f.rows| => f.rows[i][c := vs[i]]))
  }

  /** `cols` without the names in `gone`, order kept. */
  function Without(cols: seq<string>, gone: set<string>): (r: seq<string>)
    ensures forall c {:trigger c in r} :: c in r <==> c in cols && c !in gone
    ensures Distinct(cols) ==> Distinct(r)
  {
    if |cols| == 0 then []
    else
      var init, last := cols[..|cols| - 1], cols[|cols| - 1];
      assert cols == init + [last];
      var r := Without(init, gone);
      assert Distinct(cols) ==> Distinct(init) && last !in init;
      if last in gone then r
      else
        assert Distinct(cols) ==> Distinct(r + [last]) by {
          if Distinct(cols) { DistinctAppend(r, [last]); }
        }
        r + [last]
  }

  /** `df.drop(columns=names)`: every name must be a column, else KeyError
      naming the first absent one. */
  function Drop(f: Frame, names: seq<string>): (r: Result<Frame>)
    requires WellFormed(f)
    ensures r.Err? <==> exists k :: 0 <= k < |names| && names[k] !in f.cols
    ensures r.Err? ==> r.error.KeyError? && r.error.column in names && r.error.column !in f.cols
    ensures r.Ok? ==> WellFormed(r.value) && r.value.cols == Without(f.cols, ColSet(names))
    ensures r.Ok? ==> |r.value.rows| == |f.rows|
    ensures r.Ok? ==> forall i :: 0 <= i < |f.rows| ==> r.value.rows[i] == f.rows[i] - ColSet(names)
  {
    var absent := FirstAbsent(names, f.cols);
    if absent.Some? then Err(KeyError(absent.value))
    else Ok(Frame(Without(f.cols, ColSet(names)),
                  seq(|f.rows|, i requires 0 <= i < |f.rows| => f.rows[i] - ColSet(names))))
  }

  datatype Option<T> = None | Some(value: T)

  /** The first of `names` that is not in `cols`. */
  function FirstAbsent(names: seq<string>, cols: seq<string>): (r: Option<string>)
    ensures r.None? <==> forall k :: 0 <= k < |names| ==> names[k] in cols
    ensures r.Some? ==> r.value in names && r.value !in cols
  {
    if |names| == 0 then None
    else if names[0] !in cols then Some(names[0])
    else FirstAbsent(names[1..], cols)
  }

  /** `df.reindex(columns=cols, fill_value=fill)`: exactly `cols`, in that
      order; a column the frame lacks is `fill` on every row and a column it
      has but `cols` does not is dropped. */
  function Reindex(f: Frame, cols: seq<string>, fill: Value): (g: Frame)
    requires WellFormed(f) && Distinct(cols)
    ensures WellFormed(g) && g.cols == cols && |g.rows| == |f.rows|
    ensures forall i, c :: 0 <= i < |g.rows| && c in cols ==>
      g.rows[i][c] == (if c in f.cols then f.rows[i][c] else fill)
  {
    Frame(cols, seq(|f.rows|, i requires 0 <= i < |f.rows| =>
      map c | c in ColSet(cols) :: if c in f.rows[i] then f.rows[i][c] else fill))
  }

  /** `df.rename(columns={from: to})` for one pair; an absent `from` is
      ignored. The renamed column keeps its position; a column already
      called `to` gives way to it. */
  function Rename(f: Frame, from: string, to: string): (g: Frame)
    requires WellFormed(f)
    ensures WellFormed(g) && |g.rows| == |f.rows|
    ensures from !in f.cols ==> g == f
    ensures from in f.cols ==> to in g.cols && (from != to ==> from !in g.cols)
    ensures from in f.cols ==> forall i :: 0 <= i < |g.rows| ==> g.rows[i][to] == f.rows[i][from]
    ensures forall c, i :: c in f.cols && c != from && c != to && 0 <= i < |g.rows| ==>
      c in g.cols && g.rows[i][c] == f.rows[i][c]
    ensures forall c :: c in g.cols ==> c in f.cols || c == to
  {
    if from !in f.cols || from == to then f
    else
      var cols := RenameCols(f.cols, from, to);
      Frame(cols, seq(|f.rows|, i requires 0 <= i < |f.rows| =>
        (f.rows[i] - {from, to})[to := f.rows[i][from]]))
  }

  /** The column list after renaming `from` (present) to `to`: `to` takes
      the place of `from`, and an earlier `to` column leaves. */
  function RenameCols(cols: seq<string>, from: string, to: string): (r: seq<string>)
    requires Distinct(cols) && from in cols && from != to
    ensures Distinct(r)
    ensures forall c :: c in r <==> (c in cols && c != from) || c == to
  {
    var kept := Without(cols, {to});
    var r := seq(|kept|, k requires 0 <= k < |kept| => if kept[k] == from then to else kept[k]);
    assert from in kept && to !in kept;
    assert Distinct(r) by {
      forall k, k' | 0 <= k < k' < |r| ensures r[k] != r[k'] {
        assert kept[k] != kept[k'] && kept[k] in kept && kept[k'] in kept;
      }
    }
    assert forall c :: c in r <==> (c in cols && c != from) || c == to by {
      forall c ensures c in r <==> (c in cols && c != from) || c == to {
        assert c in kept <==> c in cols && c != to;
        if c in r {
          var k :| 0 <= k < |r| && r[k] == c;
          assert kept[k] in kept;
        }
        if c in cols && c != from && c != to {
          var k :| 0 <= k < |kept| && kept[k] == c;
          assert r[k] == c;
        }
        if c == to {
          var k :| 0 <= k < |kept| && kept[k] == from;
          assert r[k] == to;
        }
      }
    }
    r
  }

  /** `df[[c for c in wanted if c in df.columns]]`. */
  function SelectPresent(f: Frame, wanted: seq<string>): (g: Frame)
    requires WellFormed(f) && Distinct(wanted)
    ensures WellFormed(g) && |g.rows| == |f.rows|
    ensures g.cols == Filter(wanted, c => c in f.cols)
    ensures forall i, c :: 0 <= i < |g.rows| && c in g.cols ==> g.rows[i][c] == f.rows[i][c]
  {
    var cols := Filter(wanted, c => c in f.cols);
    FilterKeepsDistinct(wanted, c => c in f.cols);
    Frame(cols, seq(|f.rows|, i requires 0 <= i < |f.rows| => map c | c in ColSet(cols) :: f.rows[i][c]))
  }

  lemma {:induction false} FilterKeepsDistinct(s: seq<string>, keep: string -> bool)
    requires Distinct(s)
    ensures Distinct(Filter(s, keep))
    decreases |s|
  {
    if |s| > 0 {
      var init := s[..|s| - 1];
      FilterKeepsDistinct(init, keep);
      assert s[|s| - 1] !in init;
    }
  }

  /** Applies `g` to every cell of every row. */
  function MapCells(f: Frame, g: Value -> Value): (h: Frame)
    requires WellFormed(f)
    ensures WellFormed(h) && h.cols == f.cols && |h.rows| == |f.rows|
    ensures forall i, c :: 0 <= i < |h.rows| && c in f.cols ==> h.rows[i][c] == g(f.rows[i][c])
  {
    Frame(f.cols, seq(|f.rows|, i requires 0 <= i < |f.rows| => map c | c in f.rows[i] :: g(f.rows[i][c])))
  }

  // ---------------------------------------------------------------------------
  // Rows

  /** `df.dropna()`: the rows with no missing cell, in order. */
  function DropNa(f: Frame): (g: Frame)
    requires WellFormed(f)
    ensures WellFormed(g) && g.cols == f.cols
    ensures forall r :: r in g.rows ==> Complete(r)
  {
    Frame(f.cols, Filter(f.rows, Complete))
  }

  /** `df[mask].reset_index(drop=True)` for a mask computed row by row: the
      rows `keep` accepts, in order. */
  function Where(f: Frame, keep: Row -> bool): (g: Frame)
    requires WellFormed(f)
    ensures WellFormed(g) && g.cols == f.cols
    ensures |g.rows| == |Positions(f.rows, keep)|
    ensures forall j :: 0 <= j < |g.rows| ==> g.rows[j] == f.rows[Positions(f.rows, keep)[j]]
  {
    Frame(f.cols, Filter(f.rows, keep))
  }

  /** `pd.concat([a, b], ignore_index=True)`: the rows of `a` then those of
      `b`; the columns are those of `a` followed by the new ones of `b`, and a
      row lacking a column gets `Missing` there (see `ConcatCells`). */
  function Concat(a: Frame, b: Frame): (g: Frame)
    requires WellFormed(a) && WellFormed(b)
    ensures WellFormed(g) && |g.rows| == |a.rows| + |b.rows|
    ensures g.cols == a.cols + Without(b.cols, ColSet(a.cols))
    ensures g.rows == FillRows(a.rows, g.cols) + FillRows(b.rows, g.cols)
  {
    var extra := Without(b.cols, ColSet(a.cols));
    var cols := a.cols + extra;
    DistinctAppend(a.cols, extra);
    Frame(cols, FillRows(a.rows, cols) + FillRows(b.rows, cols))
  }

  /** Every row of `rs` fitted to `cols`. */
  function FillRows(rs: seq<Row>, cols: seq<string>): (out: seq<Row>)
    ensures |out| == |rs|
    ensures forall i :: 0 <= i < |rs| ==> out[i] == FillRow(rs[i], cols)
  {
    seq(|rs|, i requires 0 <= i < |rs| => FillRow(rs[i], cols))
  }

  lemma AppendIndex<T>(st: seq<T>, s: seq<T>, t: seq<T>, i: nat)
    requires st == s + t && i < |t|
    ensures st[|s| + i] == t[i]
  {
  }

  lemma ConcatTopRow(a: Frame, b: Frame, i: nat)
    requires WellFormed(a) && WellFormed(b) && i < |a.rows|
    ensures Concat(a, b).rows[i] == FillRow(a.rows[i], Concat(a, b).cols)
  {
    var g := Concat(a, b);
    assert g.rows[i] == FillRows(a.rows, g.cols)[i];
  }

  lemma ConcatBottomRow(a: Frame, b: Frame, i: nat)
    requires WellFormed(a) && WellFormed(b) && i < |b.rows|
    ensures Concat(a, b).rows[|a.rows| + i] == FillRow(b.rows[i], Concat(a, b).cols)
  {
    var g := Concat(a, b);
    AppendIndex(g.rows, FillRows(a.rows, g.cols), FillRows(b.rows, g.cols), i);
  }

  lemma ConcatColumns(a: Frame, b: Frame)
    requires WellFormed(a) && WellFormed(b)
    ensures forall c :: c in Concat(a, b).cols <==> c in a.cols || c in b.cols
  {
    var g := Concat(a, b);
    var extra := Without(b.cols, ColSet(a.cols));
    assert forall c :: c in g.cols <==> c in a.cols || c in extra;
    forall c | c in b.cols ensures c in g.cols {
      assert c in a.cols || c in extra;
    }
  }

  /** The cells of `Concat(a, b)`: those of `a`'s rows, then those of `b`'s,
      and `Missing` where the source row has no such column. */
  lemma ConcatCells(a: Frame, b: Frame)
    requires WellFormed(a) && WellFormed(b)
    ensures var g := Concat(a, b);
      && (forall c :: c in g.cols <==> c in a.cols || c in b.cols)
      && (forall i, c :: 0 <= i < |a.rows| && c in a.cols ==> c in g.rows[i] && g.rows[i][c] == a.rows[i][c])
      && (forall i, c :: 0 <= i < |b.rows| && c in b.cols ==>
            c in g.rows[|a.rows| + i] && g.rows[|a.rows| + i][c] == b.rows[i][c])
      && (forall i, c :: 0 <= i < |a.rows| && c in g.cols && c !in a.cols ==> g.rows[i][c] == Missing)
      && (forall j, c :: |a.rows| <= j < |g.rows| && c in g.cols && c !in b.cols ==> g.rows[j][c] == Missing)
  {
    var g := Concat(a, b);
    ConcatColumns(a, b);
    forall i, c | 0 <= i < |a.rows| && c in g.cols
      ensures c in g.rows[i] && g.rows[i][c] == if c in a.cols then a.rows[i][c] else Missing
    {
      ConcatTopRow(a, b, i);
      assert c in a.rows[i] <==> c in a.cols;
    }
    forall i, c | 0 <= i < |b.rows| && c in g.cols
      ensures c in g.rows[|a.rows| + i] && g.rows[|a.rows| + i][c] == if c in b.cols then b.rows[i][c] else Missing
    {
      ConcatBottomRow(a, b, i);
      assert c in b.rows[i] <==> c in b.cols;
    }
    forall j, c | |a.rows| <= j < |g.rows| && c in g.cols && c !in b.cols ensures g.rows[j][c] == Missing {
      ConcatBottomRow(a, b, j - |a.rows|);
      assert c !in b.rows[j - |a.rows|];
    }
  }

  /** Row `r` widened or narrowed to exactly `cols`, `Missing` where it has
      no cell. */
  function FillRow(r: Row, cols: seq<string>): (out: Row)
    ensures out.Keys == ColSet(cols)
    ensures forall c {:trigger out[c]} :: c in cols ==> out[c] == (if c in r then r[c] else Missing)
  {
    map c | c in ColSet(cols) :: if c in r then r[c] else Missing
  }
}
