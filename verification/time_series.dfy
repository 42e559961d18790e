/** The wrecks-per-year chart (site/src/main.ts): rows are rolled up by
    year into total / inside / outside counts, the years are sorted, and
    every redraw slices the years to the chosen window, optionally
    normalises each series to sum 1, picks the y-axis top, builds the
    shown series, and shows correlation statistics only when there are at
    least two years. Parsing the CSV and the dates is not modelled: each
    row arrives with its year. */
module TimeSeries {
  import opened Seqs
  import opened StableSort
  import opened YearRange
  import opened Rank

  /** A wreck on the chart page: its year and whether it lies inside the
      Bermuda Triangle. */
  datatype Row = Row(year: int, inBermuda: bool)

  /** `{ total, in, out }` for one year. */
  datatype YearCounts = YearCounts(total: nat, inside: nat, outside: nat)

  // ---------------------------------------------------------------------
  // Yearly rollup

  function InYear(y: int): Row -> bool
  {
    (r: Row) => r.year == y
  }

  function IsInside(): Row -> bool
  {
    (r: Row) => r.inBermuda
  }

  function IsOutside(): Row -> bool
  {
    (r: Row) => !r.inBermuda
  }

  /** The grouping of `d3.rollup`: each year of the rows, mapped to its
      rows in input order. */
  function Group(rows: seq<Row>): map<int, seq<Row>>
  {
    if |rows| == 0 then map[]
    else
      var g := Group(rows[..|rows| - 1]);
      var r := rows[|rows| - 1];
      g[r.year := (if r.year in g then g[r.year] else []) + [r]]
  }

  /** The group of a year is the filter of the rows by that year, and the
      groups are exactly the years that occur. */
  lemma {:induction false} GroupIsFilter(rows: seq<Row>)
    ensures forall y :: y in Group(rows) <==> exists i :: 0 <= i < |rows| && rows[i].year == y
    ensures forall y :: y in Group(rows) ==> Group(rows)[y] == Filter(rows, InYear(y))
  {
    if |rows| > 0 {
      var init, r := rows[..|rows| - 1], rows[|rows| - 1];
      var g := Group(init);
      GroupIsFilter(init);
      assert rows == init + [r];
      forall y
        ensures y in Group(rows) <==> exists i :: 0 <= i < |rows| && rows[i].year == y
      {
        if y in g {
          var i :| 0 <= i < |init| && init[i].year == y;
          assert rows[i] == init[i];
        }
        if exists i :: 0 <= i < |rows| && rows[i].year == y {
          var i :| 0 <= i < |rows| && rows[i].year == y;
          if i < |init| {
            assert init[i] == rows[i];
          }
        }
      }
      forall y | y in Group(rows)
        ensures Group(rows)[y] == Filter(rows, InYear(y))
      {
        FilterAppend(init, [r], InYear(y));
        assert [r][1..] == [];
        assert Filter([r], InYear(y)) == if r.year == y then [r] else [];
        if y !in g {
          forall i | 0 <= i < |init|
            ensures !InYear(y)(init[i])
          {
          }
          FilterNone(init, InYear(y));
        }
      }
    }
  }

  /** The summary of one year's rows. */
  function Summarise(v: seq<Row>): YearCounts
  {
    YearCounts(|v|, |Filter(v, IsInside())|, |Filter(v, IsOutside())|)
  }

  /** `d3.rollup(wrecks, summarise, year)` */
  function Rollup(rows: seq<Row>): map<int, YearCounts>
  {
    var g := Group(rows);
    map y | y in g :: Summarise(g[y])
  }

  /** Every row is inside or outside, never both. */
  lemma {:induction false} InsidePlusOutside(v: seq<Row>)
    ensures |Filter(v, IsInside())| + |Filter(v, IsOutside())| == |v|
  {
    if |v| > 0 {
      InsidePlusOutside(v[1..]);
    }
  }

  /** The rollup has a record for exactly the years that occur; a year's
      `total` is the number of rows of that year, of which `in` lie inside
      and `out` outside, so `in + out = total`. */
  lemma RollupCounts(rows: seq<Row>)
    ensures forall y :: y in Rollup(rows) <==> exists i :: 0 <= i < |rows| && rows[i].year == y
    ensures forall y :: y in Rollup(rows) ==>
      && Rollup(rows)[y].total == |Filter(rows, InYear(y))|
      && Rollup(rows)[y].inside == |Filter(Filter(rows, InYear(y)), IsInside())|
      && Rollup(rows)[y].outside == |Filter(Filter(rows, InYear(y)), IsOutside())|
      && Rollup(rows)[y].inside + Rollup(rows)[y].outside == Rollup(rows)[y].total
  {
    GroupIsFilter(rows);
    forall y | y in Rollup(rows)
      ensures Rollup(rows)[y].inside + Rollup(rows)[y].outside == Rollup(rows)[y].total
    {
      InsidePlusOutside(Group(rows)[y]);
    }
  }

  // ---------------------------------------------------------------------
  // Sorted years

  predicate Distinct(s: seq<int>)
  {
    forall i, j :: 0 <= i < j < |s| ==> s[i] != s[j]
  }

  predicate StrictlyAscending(s: seq<int>)
  {
    forall i, j :: 0 <= i < j < |s| ==> s[i] < s[j]
  }

  /** `Array.from(yearMap.keys())`: the years in order of first
      appearance. */
  function FirstSeen(rows: seq<Row>): (ys: seq<int>)
    ensures Distinct(ys)
    ensures forall y :: y in ys <==> exists i :: 0 <= i < |rows| && rows[i].year == y
  {
    if |rows| == 0 then []
    else
      var init, r := rows[..|rows| - 1], rows[|rows| - 1];
      var d := FirstSeen(init);
      assert forall i :: 0 <= i < |init| ==> init[i] == rows[i];
      if r.year in d then d else d + [r.year]
  }

  function YearKey(y: int): real { y as real }

  lemma {:induction false} DistinctCount(s: seq<int>)
    requires Distinct(s)
    ensures forall x :: multiset(s)[x] <= 1
  {
    if |s| > 0 {
      DistinctCount(s[1..]);
      assert s == [s[0]] + s[1..];
      assert s[0] !in s[1..];
    }
  }

  lemma RepeatCount(s: seq<int>, i: int, j: int)
    requires 0 <= i < j < |s| && s[i] == s[j]
    ensures multiset(s)[s[i]] >= 2
  {
    assert s == s[..j] + s[j..];
    assert s[i] == s[..j][i];
    assert s[j] == s[j..][0];
  }

  /** `.sort(d3.ascending)`: the distinct years in strictly ascending
      order. */
  function SortedYears(rows: seq<Row>): (ys: seq<int>)
    ensures StrictlyAscending(ys)
    ensures forall y :: y in ys <==> exists i :: 0 <= i < |rows| && rows[i].year == y
  {
    var seen := FirstSeen(rows);
    var ys := Sort(seen, YearKey);
    SortPermutes(seen, YearKey);
    DistinctCount(seen);
    forall i, j | 0 <= i < j < |ys|
      ensures ys[i] < ys[j]
    {
      if ys[i] == ys[j] {
        RepeatCount(ys, i, j);
      }
      assert YearKey(ys[i]) <= YearKey(ys[j]);
    }
    forall y
      ensures y in ys <==> y in seen
    {
      assert y in ys <==> y in multiset(ys);
      assert y in seen <==> y in multiset(seen);
    }
    ys
  }

  /** What the page loads once: the sorted years and the rollup. */
  datatype Data = Data(years: seq<int>, yearMap: map<int, YearCounts>)

  predicate WellFormed(data: Data)
  {
    forall k :: 0 <= k < |data.years| ==> data.years[k] in data.yearMap
  }

  function Load(rows: seq<Row>): (data: Data)
    ensures WellFormed(data)
  {
    var ys := SortedYears(rows);
    RollupCounts(rows);
    assert forall k :: 0 <= k < |ys| ==> ys[k] in ys;
    Data(ys, Rollup(rows))
  }

  // ---------------------------------------------------------------------
  // Slicing

  /** A year of the slice with its counts: `{ year, ...yearMap.get(year) }`. */
  datatype YearRow = YearRow(year: int, counts: YearCounts)

  function YearInWindow(window: Range): int -> bool
  {
    (y: int) => Contains(window, y)
  }

  lemma {:induction false} FilterAscending(s: seq<int>, p: int -> bool)
    requires StrictlyAscending(s)
    ensures StrictlyAscending(Filter(s, p))
  {
    if |s| > 0 {
      FilterAscending(s[1..], p);
      FilterMembers(s[1..], p);
      var rest := Filter(s[1..], p);
      forall k | 0 <= k < |rest|
        ensures s[0] < rest[k]
      {
        var j :| 0 <= j < |s[1..]| && s[1..][j] == rest[k];
        assert s[j + 1] == rest[k];
      }
    }
  }

  /** `years.filter(y => y >= fy && y <= ty).map(...)` */
  function SliceRows(data: Data, window: Range): (slice: seq<YearRow>)
    requires WellFormed(data)
  {
    var ys := Filter(data.years, YearInWindow(window));
    FilterMembers(data.years, YearInWindow(window));
    seq(|ys|, k requires 0 <= k < |ys| => YearRow(ys[k], data.yearMap[ys[k]]))
  }

  function SliceYears(slice: seq<YearRow>): seq<int>
  {
    seq(|slice|, k requires 0 <= k < |slice| => slice[k].year)
  }

  /** The slice holds exactly the data years in the window, strictly
      ascending, each with its rolled-up counts. */
  lemma SliceExactly(rows: seq<Row>, window: Range)
    ensures var slice := SliceRows(Load(rows), window);
            && StrictlyAscending(SliceYears(slice))
            && (forall y :: y in SliceYears(slice) <==>
                  (window.lo <= y <= window.hi && exists i :: 0 <= i < |rows| && rows[i].year == y))
            && (forall k :: 0 <= k < |slice| ==>
                  slice[k].year in Rollup(rows) && slice[k].counts == Rollup(rows)[slice[k].year])
  {
    var data := Load(rows);
    var ys := Filter(data.years, YearInWindow(window));
    var slice := SliceRows(data, window);
    assert SliceYears(slice) == ys;
    FilterAscending(data.years, YearInWindow(window));
    FilterMembers(data.years, YearInWindow(window));
    forall y
      ensures y in ys <==> (window.lo <= y <= window.hi && exists i :: 0 <= i < |rows| && rows[i].year == y)
    {
      if window.lo <= y <= window.hi && y in data.years {
        var j :| 0 <= j < |data.years| && data.years[j] == y;
        assert YearInWindow(window)(data.years[j]);
      }
      if y in ys {
        var j :| 0 <= j < |ys| && ys[j] == y;
        assert YearInWindow(window)(ys[j]);
      }
    }
  }

  // ---------------------------------------------------------------------
  // Columns and normalisation

  function Total(c: YearCounts): nat { c.total }
  function Inside(c: YearCounts): nat { c.inside }
  function Outside(c: YearCounts): nat { c.outside }

  /** `slice.map(d => d.total)` and its two siblings. */
  function Column(slice: seq<YearRow>, field: YearCounts -> nat): (vals: seq<real>)
    ensures |vals| == |slice|
    ensures forall k :: 0 <= k < |slice| ==> vals[k] == field(slice[k].counts) as real
  {
    seq(|slice|, k requires 0 <= k < |slice| => field(slice[k].counts) as real)
  }

  /** `vals.map(v => v / d)` */
  function Divide(vals: seq<real>, d: real): (r: seq<real>)
    requires d != 0.0
    ensures |r| == |vals|
    ensures forall k :: 0 <= k < |vals| ==> r[k] * d == vals[k]
  {
    seq(|vals|, k requires 0 <= k < |vals| => vals[k] / d)
  }

  lemma {:induction false} SumDivide(vals: seq<real>, d: real)
    requires d != 0.0
    ensures Sum(Divide(vals, d)) * d == Sum(vals)
  {
    if |vals| > 0 {
      var r := Divide(vals, d);
      SumDivide(vals[1..], d);
      assert r[1..] == Divide(vals[1..], d);
      assert Sum(r) * d == r[0] * d + Sum(r[1..]) * d;
    }
  }

  lemma Cancel(x: real, s: real)
    requires s != 0.0 && x * s == s
    ensures x == 1.0
  {
    assert (x - 1.0) * s == 0.0;
  }

  /** `const s = d3.sum(vals) || 1; vals.map(v => v / s)` */
  function Normalise(vals: seq<real>): (r: seq<real>)
    ensures |r| == |vals|
    ensures Sum(vals) != 0.0 ==> Sum(r) == 1.0
    ensures Sum(vals) != 0.0 ==> forall k :: 0 <= k < |vals| ==> r[k] * Sum(vals) == vals[k]
    ensures Sum(vals) == 0.0 ==> r == vals
  {
    var s := Sum(vals);
    if s == 0.0 then
      assert Divide(vals, 1.0) == vals;
      Divide(vals, 1.0)
    else
      SumDivide(vals, s);
      Cancel(Sum(Divide(vals, s)), s);
      Divide(vals, s)
  }

  // ---------------------------------------------------------------------
  // The y-axis

  /** What `d3.max(allY) || 1` means: the largest shown value when it is
      nonzero, and 1 when nothing is shown or the largest value is 0. */
  predicate AxisTop(allY: seq<real>, top: real)
  {
    || (top in allY && top != 0.0 && forall k :: 0 <= k < |allY| ==> allY[k] <= top)
    || (top == 1.0 && (|allY| == 0 || (0.0 in allY && forall k :: 0 <= k < |allY| ==> allY[k] <= 0.0)))
  }

  /** The description above fixes the axis top: at most one value meets it. */
  lemma AxisTopUnique(allY: seq<real>, a: real, b: real)
    requires AxisTop(allY, a) && AxisTop(allY, b)
    ensures a == b
  {
  }

  /** `d3.max(allY) || 1`: the largest value shown, or 1 when nothing is
      shown or the largest value is 0. */
  function YTop(allY: seq<real>): (top: real)
    ensures AxisTop(allY, top)
    ensures forall k :: 0 <= k < |allY| ==> allY[k] <= top
    ensures |allY| == 0 ==> top == 1.0
    ensures top == 1.0 || (top in allY && top != 0.0)
    ensures (exists k :: 0 <= k < |allY| && allY[k] > 0.0) ==> top in allY
    ensures |allY| > 0 && (forall k :: 0 <= k < |allY| ==> allY[k] == 0.0) ==> top == 1.0
  {
    if |allY| == 0 then 1.0
    else
      var m := MaxOf(allY);
      if m == 0.0 then 1.0 else m
  }

  // ---------------------------------------------------------------------
  // One redraw

  /** The chart's inputs: the two year boxes and the four check boxes. */
  datatype ChartInputs = ChartInputs(
    fromYear: int, toYear: int,
    showTotal: bool, showIn: bool, showOut: bool, normalize: bool)

  datatype SeriesPoint = SeriesPoint(year: int, value: real)

  datatype Series = Series(key: string, values: seq<SeriesPoint>)

  /** The statistics line: empty, or the two coefficients for inside vs
      outside. */
  datatype Stats = NoStats | Correlation(pearson: real, spearman: real)

  datatype Chart = Chart(xDomain: Range, yTop: real, series: seq<Series>, stats: Stats)

  /** `slice.map((d, i) => ({ year: d.year, value: vals[i] }))` */
  function Points(slice: seq<YearRow>, vals: seq<real>): (ps: seq<SeriesPoint>)
    requires |vals| == |slice|
    ensures |ps| == |slice|
    ensures forall k :: 0 <= k < |slice| ==> ps[k] == SeriesPoint(slice[k].year, vals[k])
  {
    seq(|slice|, k requires 0 <= k < |slice| => SeriesPoint(slice[k].year, vals[k]))
  }

  function Shown<T>(show: bool, xs: seq<T>): seq<T>
  {
    if show then xs else []
  }

  /** The three columns of the slice, normalised when asked. */
  datatype Columns = Columns(totals: seq<real>, inVals: seq<real>, outVals: seq<real>)

  function MaybeNormalise(normalize: bool, vals: seq<real>): (r: seq<real>)
    ensures |r| == |vals|
    ensures normalize && Sum(vals) != 0.0 ==> Sum(r) == 1.0
    ensures !normalize || Sum(vals) == 0.0 ==> r == vals
  {
    if normalize then Normalise(vals) else vals
  }

  function MakeColumns(slice: seq<YearRow>, normalize: bool): (cols: Columns)
    ensures |cols.totals| == |cols.inVals| == |cols.outVals| == |slice|
  {
    Columns(MaybeNormalise(normalize, Column(slice, Total)),
            MaybeNormalise(normalize, Column(slice, Inside)),
            MaybeNormalise(normalize, Column(slice, Outside)))
  }

  /** `allY`: the values of the shown columns. */
  function AllY(inputs: ChartInputs, cols: Columns): seq<real>
  {
    Shown(inputs.showTotal, cols.totals) + Shown(inputs.showIn, cols.inVals) + Shown(inputs.showOut, cols.outVals)
  }

  /** A series' legend key: the column's name, prefixed by "% " when the
      series are normalised. */
  function SeriesKey(normalize: bool, name: string): string
  {
    if normalize then "% " + name else name
  }

  /** The shown series, in the order total, inside, outside, each with one
      point per slice year carrying that year and its own column's value. */
  function MakeSeries(inputs: ChartInputs, slice: seq<YearRow>, cols: Columns): (series: seq<Series>)
    requires |cols.totals| == |cols.inVals| == |cols.outVals| == |slice|
    ensures |series| == (if inputs.showTotal then 1 else 0) + (if inputs.showIn then 1 else 0)
                         + (if inputs.showOut then 1 else 0)
    ensures forall s :: 0 <= s < |series| ==> |series[s].values| == |slice|
    ensures inputs.showTotal ==>
      && series[0].key == SeriesKey(inputs.normalize, "total")
      && forall k :: 0 <= k < |slice| ==> series[0].values[k] == SeriesPoint(slice[k].year, cols.totals[k])
    ensures inputs.showIn ==>
      var s := if inputs.showTotal then 1 else 0;
      && series[s].key == SeriesKey(inputs.normalize, "in Bermuda")
      && forall k :: 0 <= k < |slice| ==> series[s].values[k] == SeriesPoint(slice[k].year, cols.inVals[k])
    ensures inputs.showOut ==>
      var s := (if inputs.showTotal then 1 else 0) + (if inputs.showIn then 1 else 0);
      && series[s].key == SeriesKey(inputs.normalize, "outside")
      && forall k :: 0 <= k < |slice| ==> series[s].values[k] == SeriesPoint(slice[k].year, cols.outVals[k])
  {
    var n := inputs.normalize;
    Shown(inputs.showTotal, [Series(SeriesKey(n, "total"), Points(slice, cols.totals))])
    + Shown(inputs.showIn, [Series(SeriesKey(n, "in Bermuda"), Points(slice, cols.inVals))])
    + Shown(inputs.showOut, [Series(SeriesKey(n, "outside"), Points(slice, cols.outVals))])
  }

  /** The guard of the statistics line. */
  function MakeStats(cols: Columns, pearson: (seq<real>, seq<real>) -> real): Stats
  {
    if |cols.inVals| > 1 && |cols.outVals| > 1
    then Correlation(pearson(cols.inVals, cols.outVals), Spearman(cols.inVals, cols.outVals, pearson))
    else NoStats
  }

  /** `update()` of the chart page. `pearson` is the correlation the page
      computes; its value is a parameter. */
  function Update(data: Data, inputs: ChartInputs, pearson: (seq<real>, seq<real>) -> real): (chart: Chart)
    requires WellFormed(data)
    ensures chart.xDomain.lo <= chart.xDomain.hi
    ensures chart.xDomain == Range(Min(inputs.fromYear, inputs.toYear), Max(inputs.fromYear, inputs.toYear))
    ensures AxisTop(AllY(inputs, MakeColumns(SliceRows(data, chart.xDomain), inputs.normalize)), chart.yTop)
    ensures chart.series == MakeSeries(inputs, SliceRows(data, chart.xDomain),
                                       MakeColumns(SliceRows(data, chart.xDomain), inputs.normalize))
    ensures |chart.series| == (if inputs.showTotal then 1 else 0) + (if inputs.showIn then 1 else 0)
                              + (if inputs.showOut then 1 else 0)
    ensures forall s :: 0 <= s < |chart.series| ==>
      |chart.series[s].values| == |SliceRows(data, chart.xDomain)|
  {
    var window := Ordered(inputs.fromYear, inputs.toYear);
    var slice := SliceRows(data, window);
    var cols := MakeColumns(slice, inputs.normalize);
    Chart(window, YTop(AllY(inputs, cols)), MakeSeries(inputs, slice, cols), MakeStats(cols, pearson))
  }

  /** Statistics appear exactly when the window holds at least two data
      years, and then correlate the inside and outside columns. */
  lemma StatsNeedTwoYears(data: Data, inputs: ChartInputs, pearson: (seq<real>, seq<real>) -> real)
    requires WellFormed(data)
    ensures var chart := Update(data, inputs, pearson);
            var slice := SliceRows(data, Ordered(inputs.fromYear, inputs.toYear));
            var cols := MakeColumns(slice, inputs.normalize);
            && (chart.stats.Correlation? <==> |slice| > 1)
            && (chart.stats.Correlation? ==>
                  && chart.stats.pearson == pearson(cols.inVals, cols.outVals)
                  && chart.stats.spearman == Spearman(cols.inVals, cols.outVals, pearson))
  {
  }

  /** Point `k` of every series carries the `k`-th slice year and a value
      that is among the shown values. */
  lemma SeriesValuesShown(inputs: ChartInputs, slice: seq<YearRow>, cols: Columns)
    requires |cols.totals| == |cols.inVals| == |cols.outVals| == |slice|
    ensures var series := MakeSeries(inputs, slice, cols);
            forall s, k :: 0 <= s < |series| && 0 <= k < |slice| ==>
              && series[s].values[k].year == slice[k].year
              && series[s].values[k].value in AllY(inputs, cols)
  {
    var series := MakeSeries(inputs, slice, cols);
    var allY := AllY(inputs, cols);
    var a := Shown(inputs.showTotal, cols.totals);
    var b := Shown(inputs.showIn, cols.inVals);
    forall s, k | 0 <= s < |series| && 0 <= k < |slice|
      ensures series[s].values[k].year == slice[k].year
      ensures series[s].values[k].value in allY
    {
      var v := series[s].values[k].value;
      if inputs.showTotal && s == 0 {
        assert v == cols.totals[k] == allY[k];
      } else if inputs.showIn && s == (if inputs.showTotal then 1 else 0) {
        assert v == cols.inVals[k] == allY[|a| + k];
      } else {
        assert v == cols.outVals[k] == allY[|a| + |b| + k];
      }
    }
  }

  /** Every point of every series is dated with the slice year at its
      position, and the y-axis reaches every plotted value. */
  lemma SeriesFollowSlice(data: Data, inputs: ChartInputs, pearson: (seq<real>, seq<real>) -> real)
    requires WellFormed(data)
    ensures var chart := Update(data, inputs, pearson);
            var slice := SliceRows(data, chart.xDomain);
            forall s, k :: 0 <= s < |chart.series| && 0 <= k < |slice| ==>
              && chart.series[s].values[k].year == slice[k].year
              && chart.series[s].values[k].value <= chart.yTop
  {
    var window := Ordered(inputs.fromYear, inputs.toYear);
    var slice := SliceRows(data, window);
    var cols := MakeColumns(slice, inputs.normalize);
    SeriesValuesShown(inputs, slice, cols);
  }

  /** Entering the years the other way round draws the same chart. */
  lemma UpdateIgnoresYearOrder(data: Data, inputs: ChartInputs, pearson: (seq<real>, seq<real>) -> real)
    requires WellFormed(data)
    ensures Update(data, inputs, pearson)
         == Update(data, inputs.(fromYear := inputs.toYear, toYear := inputs.fromYear), pearson)
  {
    OrderedIsSymmetric(inputs.fromYear, inputs.toYear, inputs.fromYear);
  }
}
