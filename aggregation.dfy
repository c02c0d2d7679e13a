/** Per-year aggregation for the line charts: `df.groupby('Year')[col].mean()`,
    the sorted distinct years it is keyed by, and pandas' missing-skipping mean. */
module Aggregation {
  import opened Cells
  import opened Tables

  /** The distinct years present in `rows`. */
  function Years(rows: seq<Record>): set<int> {
    set r | r in rows :: r.year
  }

  predicate StrictlyIncreasing(s: seq<int>) {
    forall i, j :: 0 <= i < j < |s| ==> s[i] < s[j]
  }

  /** Inserts `y` into an ascending list of distinct years, unless already there. */
  function InsertYear(y: int, s: seq<int>): (r: seq<int>)
    requires StrictlyIncreasing(s)
    ensures StrictlyIncreasing(r)
    ensures forall x :: x in r <==> x in s || x == y
    decreases |s|
  {
    if |s| == 0 then [y]
    else if y < s[0] then [y] + s
    else if y == s[0] then s
    else
      var rest := InsertYear(y, s[1..]);
      assert forall k :: 0 <= k < |rest| ==> s[0] < rest[k] by {
        forall k | 0 <= k < |rest| ensures s[0] < rest[k] {
          assert rest[k] in rest;
        }
      }
      [s[0]] + rest
  }

  /** `sorted(rows['Year'].unique())`: the distinct years, ascending. */
  function SortedYears(rows: seq<Record>): (ys: seq<int>)
    ensures StrictlyIncreasing(ys)
    ensures forall y :: y in ys <==> y in Years(rows)
    decreases |rows|
  {
    if |rows| == 0 then []
    else
      var rest := SortedYears(rows[1..]);
      assert forall y :: y in Years(rows) <==> y == rows[0].year || y in Years(rows[1..]) by {
        assert rows == [rows[0]] + rows[1..];
      }
      InsertYear(rows[0].year, rest)
  }

  /** The numeric values of column `col`, in row order; missing cells are skipped. */
  function Numbers(rows: seq<Record>, col: string): seq<real> {
    if |rows| == 0 then []
    else (if Lookup(rows[0], col).Num? then [Lookup(rows[0], col).num] else []) + Numbers(rows[1..], col)
  }

  /** The values averaged are exactly the column's numbers, each as often as
      rows hold it. */
  lemma {:induction false} NumbersCounts(rows: seq<Record>, col: string)
    ensures forall x :: multiset(Numbers(rows, col))[x] == Occurrences(rows, col, Num(x))
    decreases |rows|
  {
    if |rows| > 0 {
      NumbersCounts(rows[1..], col);
    }
  }

  function Sum(xs: seq<real>): real {
    if |xs| == 0 then 0.0 else xs[0] + Sum(xs[1..])
  }

  /** The arithmetic mean of `xs`; NaN (None) for no values. */
  function Mean(xs: seq<real>): (m: Option<real>)
    ensures m.None? <==> |xs| == 0
  {
    if |xs| == 0 then None else Some(Sum(xs) / |xs| as real)
  }

  /** pandas' `Series.mean()` with its default `skipna=True`. */
  function ColumnMean(rows: seq<Record>, col: string): Option<real> {
    Mean(Numbers(rows, col))
  }

  /** A column's mean is missing exactly when no row holds a number in it. */
  lemma {:induction false} ColumnMeanMissing(rows: seq<Record>, col: string)
    ensures ColumnMean(rows, col).None? <==> forall r :: r in rows ==> !Lookup(r, col).Num?
    decreases |rows|
  {
    if |rows| > 0 {
      ColumnMeanMissing(rows[1..], col);
      assert rows == [rows[0]] + rows[1..];
    }
  }

  lemma {:induction false} SumBounds(xs: seq<real>, lo: real, hi: real)
    requires forall i :: 0 <= i < |xs| ==> lo <= xs[i] <= hi
    ensures |xs| as real * lo <= Sum(xs) <= |xs| as real * hi
    decreases |xs|
  {
    if |xs| > 0 {
      SumBounds(xs[1..], lo, hi);
    }
  }

  /** A mean lies between any lower and upper bound of the values averaged. */
  lemma MeanBounds(xs: seq<real>, lo: real, hi: real)
    requires forall i :: 0 <= i < |xs| ==> lo <= xs[i] <= hi
    ensures Mean(xs).Some? ==> lo <= Mean(xs).value <= hi
  {
    if |xs| > 0 {
      SumBounds(xs, lo, hi);
      var n := |xs| as real;
      assert Sum(xs) / n * n == Sum(xs);
    }
  }

  lemma {:induction false} NumbersBounds(rows: seq<Record>, col: string, lo: real, hi: real)
    requires forall r :: r in rows && Lookup(r, col).Num? ==> lo <= Lookup(r, col).num <= hi
    ensures forall i :: 0 <= i < |Numbers(rows, col)| ==> lo <= Numbers(rows, col)[i] <= hi
    decreases |rows|
  {
    if |rows| > 0 {
      NumbersBounds(rows[1..], col, lo, hi);
      assert rows == [rows[0]] + rows[1..];
    }
  }

  /** One point of a chart series: a year and the mean of the metric over it. */
  datatype Point = Point(year: int, mean: Option<real>)

  /** What `get_line_chart` hands to the renderer: "" or a per-year series. */
  datatype Chart = NoChart | Series(points: seq<Point>)

  /** `df.groupby('Year', as_index=False)[col].mean()`: one point per distinct
      year, ascending, holding the mean of that year's values. */
  function YearlyMeans(rows: seq<Record>, col: string): (ps: seq<Point>)
    ensures |ps| == |SortedYears(rows)|
  {
    var ys := SortedYears(rows);
    seq(|ys|, i requires 0 <= i < |ys| => Point(ys[i], ColumnMean(YearSlice(rows, ys[i]), col)))
  }

  /** `get_line_chart(df, y_col)` up to rendering: "" for an empty subset or an
      unknown column, otherwise the per-year means. */
  function LineChart(columns: set<string>, rows: seq<Record>, col: string): (c: Chart)
    ensures c.NoChart? <==> |rows| == 0 || col !in columns
  {
    if |rows| == 0 || col !in columns then NoChart else Series(YearlyMeans(rows, col))
  }

  /** The points are in strictly ascending year order, there is one for every
      year present in the rows and none for any other year. */
  lemma YearlyMeansYears(rows: seq<Record>, col: string)
    ensures forall i, j :: 0 <= i < j < |YearlyMeans(rows, col)| ==> YearlyMeans(rows, col)[i].year < YearlyMeans(rows, col)[j].year
    ensures forall r :: r in rows ==> exists i :: 0 <= i < |YearlyMeans(rows, col)| && YearlyMeans(rows, col)[i].year == r.year
    ensures forall i :: 0 <= i < |YearlyMeans(rows, col)| ==> exists r :: r in rows && r.year == YearlyMeans(rows, col)[i].year
  {
    var ys := SortedYears(rows);
    var ps := YearlyMeans(rows, col);
    forall r | r in rows ensures exists i :: 0 <= i < |ps| && ps[i].year == r.year {
      assert r.year in Years(rows);
      var i :| 0 <= i < |ys| && ys[i] == r.year;
      assert ps[i].year == r.year;
    }
    forall i | 0 <= i < |ps| ensures exists r :: r in rows && r.year == ps[i].year {
      assert ys[i] in Years(rows);
    }
  }

  /** A point's mean is missing exactly when none of that year's rows holds a
      number in the column; such a year keeps its point. */
  lemma YearlyMeansMissing(rows: seq<Record>, col: string, i: nat)
    requires i < |YearlyMeans(rows, col)|
    ensures YearlyMeans(rows, col)[i].mean.None? <==>
              forall r :: r in rows && r.year == YearlyMeans(rows, col)[i].year ==> !Lookup(r, col).Num?
  {
    var ys := SortedYears(rows);
    var slice := YearSlice(rows, ys[i]);
    ColumnMeanMissing(slice, col);
    forall r | r in rows && r.year == ys[i] ensures r in slice {
      var k :| 0 <= k < |rows| && rows[k] == r;
    }
  }

  /** A point's mean lies within the range of that year's values. */
  lemma YearlyMeansBounds(rows: seq<Record>, col: string, i: nat, lo: real, hi: real)
    requires i < |YearlyMeans(rows, col)|
    requires forall r :: r in rows && r.year == YearlyMeans(rows, col)[i].year && Lookup(r, col).Num? ==>
               lo <= Lookup(r, col).num <= hi
    ensures YearlyMeans(rows, col)[i].mean.Some? ==> lo <= YearlyMeans(rows, col)[i].mean.value <= hi
  {
    var ys := SortedYears(rows);
    var slice := YearSlice(rows, ys[i]);
    NumbersBounds(slice, col, lo, hi);
    MeanBounds(Numbers(slice, col), lo, hi);
  }

  /** A year present in the rows whose values are all missing still gets a
      point, with a missing mean: the series is not thinned to years with data. */
  lemma AllMissingYearKept(columns: set<string>, rows: seq<Record>, col: string, y: int)
    requires col in columns
    requires y in Years(rows)
    requires forall r :: r in rows && r.year == y ==> !Lookup(r, col).Num?
    ensures LineChart(columns, rows, col).Series?
    ensures Point(y, None) in LineChart(columns, rows, col).points
  {
    var r :| r in rows && r.year == y;
    var ps := YearlyMeans(rows, col);
    assert LineChart(columns, rows, col) == Series(ps);
    YearlyMeansYears(rows, col);
    var i :| 0 <= i < |ps| && ps[i].year == y;
    YearlyMeansMissing(rows, col, i);
    assert ps[i] == Point(y, None);
  }
}
