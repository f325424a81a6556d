/** `compute_and_store_derived_metrics`: headline figures of the latest
    fiscal year and three-year growth rates, written as ratio rows. */
module Derived {
  import opened Wrappers
  import opened Text
  import opened Cleaning
  import opened Store

  // ---------------------------------------------------------------------
  // Fiscal-year order
  // ---------------------------------------------------------------------

  /** `sorted(years, key=lambda x: int(x.split()[-1]))`: by the four-digit
      year; Python's sort is stable, and labels of one year (such as
      "Mar 2024" and "Mar\t2024") keep the order the rows are read in, the
      order of the primary-key index, which is the text order. */
  predicate Before(a: string, b: string) {
    YearOf(a) < YearOf(b) || (YearOf(a) == YearOf(b) && LexLess(a, b))
  }

  function YearOf(col: string): nat {
    if |col| >= 8 && AllDigits(col[4..8]) then DigitsValue(col[4..8]) else 0
  }

  lemma YearOfFiscal(col: string)
    requires IsFiscalYear(col)
    ensures YearOf(col) == YearNumber(col)
  {
  }

  lemma BeforeTransitive(a: string, b: string, c: string)
    requires Before(a, b) && Before(b, c)
    ensures Before(a, c)
  {
    if YearOf(a) == YearOf(b) == YearOf(c) {
      LexTransitive(a, b, c);
    }
  }

  lemma BeforeTotal(a: string, b: string)
    requires a != b
    ensures Before(a, b) || Before(b, a)
  {
    if YearOf(a) == YearOf(b) {
      LexTotal(a, b);
    }
  }

  lemma BeforeAsymmetric(a: string, b: string)
    requires Before(a, b)
    ensures !Before(b, a)
  {
    if YearOf(a) == YearOf(b) && LexLess(b, a) {
      LexTransitive(a, b, a);
      LexIrreflexive(a);
    }
  }

  lemma BeforeIrreflexive(a: string)
    ensures !Before(a, a)
  {
    LexIrreflexive(a);
  }

  predicate AllFiscal(s: set<string>) {
    forall y | y in s :: IsFiscalYear(y)
  }

  /** The labels of `s` after `p` in fiscal-year order. */
  function Later(p: string, s: set<string>): set<string>
      {
    set y | y in s && Before(p, y)
  }

  /** `m` is the last of `s` in fiscal-year order. */
  predicate IsLast(m: string, s: set<string>)
  {
    m in s && forall y | y in s && y != m :: Before(y, m)
  }

  lemma {:induction false} LastExists(s: set<string>)
    requires s != {}
    ensures exists m :: IsLast(m, s)
    decreases |s|
  {
    var x :| x in s;
    if s == {x} {
      assert IsLast(x, s);
    } else {
      var rest := s - {x};
      LastExists(rest);
      var m :| IsLast(m, rest);
      if Before(x, m) {
        assert IsLast(m, s);
      } else {
        BeforeTotal(x, m);
        forall y | y in s && y != x
          ensures Before(y, x)
        {
          if y != m {
            BeforeTransitive(y, m, x);
          }
        }
        assert IsLast(x, s);
      }
    }
  }

  lemma LastUnique(s: set<string>)
    ensures forall m1, m2 | IsLast(m1, s) && IsLast(m2, s) :: m1 == m2
  {
    forall m1, m2 | IsLast(m1, s) && IsLast(m2, s)
      ensures m1 == m2
    {
      if m1 != m2 {
        BeforeAsymmetric(m1, m2);
      }
    }
  }

  /** The newest label of `s`. */
  function LastOf(s: set<string>): (m: string)
    requires s != {}
    ensures IsLast(m, s)
  {
    LastExists(s);
    LastUnique(s);
    var m :| IsLast(m, s);
    m
  }

  /** The labels of `s` in fiscal-year order. */
  function SortedLabels(s: set<string>): (r: seq<string>)
    ensures |r| == |s|
    ensures forall i | 0 <= i < |r| :: r[i] in s
    ensures forall y | y in s :: y in r
    ensures forall i, j | 0 <= i < j < |r| :: Before(r[i], r[j])
    decreases |s|
  {
    if s == {} then []
    else
      var m := LastOf(s);
      SortedLabels(s - {m}) + [m]
  }

  /** The distinct fiscal-year labels among the ticker's annual rows. */
  function FiscalLabels(annual: map<SeriesKey, Option<real>>, ticker: string): (s: set<string>)
    ensures AllFiscal(s)
  {
    set k | k in annual && k.ticker == ticker && IsFiscalYear(k.period) :: k.period
  }

  /** The last element of an increasing run of all of `s` is the last of `s`. */
  lemma IncreasingLast(r: seq<string>, s: set<string>)
    requires |r| >= 1
    requires forall i | 0 <= i < |r| :: r[i] in s
    requires forall y | y in s :: y in r
    requires forall i, j | 0 <= i < j < |r| :: Before(r[i], r[j])
    ensures IsLast(r[|r| - 1], s)
  {
    var n := |r|;
    forall y | y in s && y != r[n - 1]
      ensures Before(y, r[n - 1])
    {
      var i :| 0 <= i < n && r[i] == y;
      assert i < n - 1;
    }
  }

  /** In an increasing run of all of `s`, exactly the last three elements
      come after the fourth from last. */
  lemma IncreasingThreeAfter(r: seq<string>, s: set<string>)
    requires |r| >= 4
    requires forall i | 0 <= i < |r| :: r[i] in s
    requires forall y | y in s :: y in r
    requires forall i, j | 0 <= i < j < |r| :: Before(r[i], r[j])
    ensures Later(r[|r| - 4], s) == {r[|r| - 3], r[|r| - 2], r[|r| - 1]}
  {
    LaterWithinLastThree(r, s);
    var n := |r|;
    assert Before(r[n - 4], r[n - 3]) && Before(r[n - 4], r[n - 2]) && Before(r[n - 4], r[n - 1]);
  }

  lemma LaterWithinLastThree(r: seq<string>, s: set<string>)
    requires |r| >= 4
    requires forall i | 0 <= i < |r| :: r[i] in s
    requires forall y | y in s :: y in r
    requires forall i, j | 0 <= i < j < |r| :: Before(r[i], r[j])
    ensures Later(r[|r| - 4], s) <= {r[|r| - 3], r[|r| - 2], r[|r| - 1]}
  {
    var n := |r|;
    forall y | y in s && Before(r[n - 4], y)
      ensures y == r[n - 3] || y == r[n - 2] || y == r[n - 1]
    {
      var i :| 0 <= i < n && r[i] == y;
      LaterIndex(r, s, i);
    }
  }

  /** Only the last three elements of an increasing run come after the
      fourth from last. */
  lemma LaterIndex(r: seq<string>, s: set<string>, i: nat)
    requires 4 <= |r| && i < |r|
    requires forall i | 0 <= i < |r| :: r[i] in s
    requires forall i, j | 0 <= i < j < |r| :: Before(r[i], r[j])
    requires Before(r[|r| - 4], r[i])
    ensures i > |r| - 4
  {
    if i <= |r| - 4 {
      NotBeforeEarlier(r, s, i, |r| - 4);
    }
  }

  /** In an increasing run no element comes before an earlier (or the same) one. */
  lemma NotBeforeEarlier(r: seq<string>, s: set<string>, i: nat, k: nat)
    requires i <= k < |r|
    requires forall i | 0 <= i < |r| :: r[i] in s
    requires forall i, j | 0 <= i < j < |r| :: Before(r[i], r[j])
    ensures !Before(r[k], r[i])
  {
    if i < k {
      BeforeAsymmetric(r[i], r[k]);
    } else {
      BeforeIrreflexive(r[i]);
    }
  }

  /** The last label of the sorted run is the newest fiscal year, and the
      fourth from last has exactly three labels after it. */
  lemma SortedEnds(r: seq<string>, s: set<string>)
    requires |s| >= 2 && r == SortedLabels(s)
    ensures IsLast(r[|r| - 1], s)
    ensures |s| >= 4 ==> Later(r[|r| - 4], s) == {r[|r| - 3], r[|r| - 2], r[|r| - 1]}
  {
    IncreasingLast(r, s);
    if |s| >= 4 {
      IncreasingThreeAfter(r, s);
    }
  }

  // ---------------------------------------------------------------------
  // The derived figures
  // ---------------------------------------------------------------------

  /** What `get` returns for one row. The rows are loaded into a pandas
      frame: when at least one of the ticker's annual rows holds a number
      the value column is a float column and a NULL reads as NaN; when
      every value is NULL the column keeps `None`. A name with no row
      reads as `None`. */
  datatype Reading = Missing | NaN | Number(x: real)

  /** Some annual row of the ticker holds a number. */
  predicate HasNumber(annual: map<SeriesKey, Option<real>>, ticker: string) {
    exists k | k in annual && k.ticker == ticker :: annual[k].Some?
  }

  /** The reading of the row under (ticker, year, name). */
  function RowValue(annual: map<SeriesKey, Option<real>>, ticker: string, year: string, name: string): (r: Reading)
    ensures var key := SeriesKey(ticker, year, name);
      && (r.Number? <==> key in annual && annual[key].Some?)
      && (r.Number? ==> annual[key] == Some(r.x))
      && (r.NaN? <==> key in annual && annual[key].None? && HasNumber(annual, ticker))
  {
    var key := SeriesKey(ticker, year, name);
    if key !in annual then Missing
    else if annual[key].Some? then Number(annual[key].value)
    else if HasNumber(annual, ticker) then NaN
    else Missing
  }

  /** `get(metric, year)`: the row of the canonical name of `metric`. */
  function Lookup(annual: map<SeriesKey, Option<real>>, ticker: string, year: string, metric: string): Reading {
    RowValue(annual, ticker, year, NormalizeMetric(metric))
  }

  /** The figures of one fiscal year that the derived metrics are made of. */
  datatype YearFigures = YearFigures(sales: Reading, eps: Reading, opm: Reading,
                                     borrowings: Reading, equity: Reading,
                                     reserves: Reading, netProfit: Reading)

  /** The rows read for one year, each under the canonical name `get` turns
      its argument into (see `LookupOfTarget`). */
  function FiguresOf(annual: map<SeriesKey, Option<real>>, ticker: string, year: string): YearFigures {
    YearFigures(RowValue(annual, ticker, year, "Sales +"),
                RowValue(annual, ticker, year, "EPS in Rs"),
                RowValue(annual, ticker, year, "OPM %"),
                RowValue(annual, ticker, year, "Borrowings +"),
                RowValue(annual, ticker, year, "Equity Capital"),
                RowValue(annual, ticker, year, "Reserves"),
                RowValue(annual, ticker, year, "Net Profit +"))
  }

  /** Python truthiness of a reading: `None` and 0 are false, NaN is true. */
  predicate Truthy(x: Reading) {
    x.NaN? || (x.Number? && x.x != 0.0)
  }

  /** `x is not None and x > 0`: NaN is not greater than 0. */
  predicate Positive(x: Reading) {
    x.Number? && x.x > 0.0
  }

  /** The value placed in the `derived` dictionary for a reading. */
  function FigureOf(x: Reading): Option<Figure> {
    match x
    case Missing => None
    case NaN => Some(NotANumber)
    case Number(v) => Some(Value(v))
  }

  /** The `value` column of a written row: SQLite stores a NaN float as NULL. */
  function Stored(v: Option<Figure>): (s: Option<Figure>)
    ensures s.None? <==> v.None? || v.value.NotANumber?
    ensures s.Some? ==> s == v
  {
    if v == Some(NotANumber) then None else v
  }

  /** A derived metric and the row written for it: `raw_value=str(value)`. */
  function Entry(name: string, v: Option<Figure>): (string, RatioRow) {
    (name, RatioRow(Printed(v), Stored(v)))
  }

  function Num(x: Option<real>): Option<Figure> {
    if x.Some? then Some(Value(x.value)) else None
  }

  /** One entry of the `derived` dictionary, present when `cond` holds. */
  function Pick(name: string, cond: bool, v: Option<Figure>): (r: seq<(string, RatioRow)>)
    ensures forall m :: Written(r, m) <==> cond && m == name
    ensures cond ==> Written(r, name) && LastWrite(r, name) == RatioRow(Printed(v), Stored(v))
  {
    if cond then assert [Entry(name, v)][0].0 == name; [Entry(name, v)] else []
  }

  /** `equity + reserves`; NaN when either is NaN. The guard before it
      rules out `None`. */
  function Sum(a: Reading, b: Reading): Reading {
    if a.Number? && b.Number? then Number(a.x + b.x)
    else if a.Missing? || b.Missing? then Missing
    else NaN
  }

  /** `safe_div(n, d)` on readings: `None` when either is `None` or the
      divisor is 0; NaN, which is neither `None` nor 0, when either is NaN. */
  function DivReading(n: Reading, d: Reading): Option<Figure> {
    if n.Missing? || d.Missing? || d == Number(0.0) then None
    else if n.NaN? || d.NaN? then Some(NotANumber)
    else Num(SafeDiv(Some(n.x), Some(d.x)))
  }

  /** `borrowings / (equity + reserves)` through `safe_div`. */
  function DebtRatio(f: YearFigures): Option<Figure> {
    DivReading(f.borrowings, Sum(f.equity, f.reserves))
  }

  /** The two figures have opposite signs, so their ratio is negative. */
  predicate OppositeSigns(a: real, b: real) {
    (a < 0.0 && b > 0.0) || (a > 0.0 && b < 0.0)
  }

  /** A three-year growth rate from `start` to `end`. The readings are
      numpy floats: a NaN operand gives NaN, and so does the cube root of
      a negative ratio. */
  function GrowthOf(start: Reading, end: Reading): Option<Figure> {
    if start.Missing? || end.Missing? then None
    else if start.NaN? || end.NaN? then Some(NotANumber)
    else if OppositeSigns(start.x, end.x) then Some(NotANumber)
    else Some(Growth(start.x, end.x))
  }

  /** Sales, EPS and OPM of the latest year, each when its row exists. */
  function HeadEntries(f: YearFigures): seq<(string, RatioRow)> {
    Pick("Sales", !f.sales.Missing?, FigureOf(f.sales))
    + Pick("EPS", !f.eps.Missing?, FigureOf(f.eps))
    + Pick("OPM", !f.opm.Missing?, FigureOf(f.opm))
  }

  /** The entries of the latest year: the headline figures, then Debt to Equity. */
  function LatestEntries(f: YearFigures): seq<(string, RatioRow)> {
    HeadEntries(f)
    + Pick("Debt to Equity", Truthy(f.borrowings) && Truthy(f.equity) && Truthy(f.reserves), DebtRatio(f))
  }

  /** The growth entries from the year three back to the latest. */
  function GrowthEntries(f: YearFigures, p: YearFigures): seq<(string, RatioRow)> {
    Pick("Sales growth 3Years", Truthy(p.sales) && Truthy(f.sales), GrowthOf(p.sales, f.sales))
    + Pick("Profit Var 3Yrs", Positive(p.netProfit) && Positive(f.netProfit), GrowthOf(p.netProfit, f.netProfit))
  }

  /** The entries of the `derived` dictionary, in insertion order. */
  function Entries(f: YearFigures, prev: Option<YearFigures>): seq<(string, RatioRow)> {
    LatestEntries(f) + (if prev.Some? then GrowthEntries(f, prev.value) else [])
  }

  predicate HasAnnualRows(annual: map<SeriesKey, Option<real>>, ticker: string) {
    exists k | k in annual :: k.ticker == ticker
  }

  /** What the function computes before writing: `None` when it returns
      False, otherwise the entries to write. */
  function DerivedEntries(annual: map<SeriesKey, Option<real>>, ticker: string): (r: Option<seq<(string, RatioRow)>>)
    ensures r.None? <==> !HasAnnualRows(annual, ticker) || |FiscalLabels(annual, ticker)| < 2
  {
    if !HasAnnualRows(annual, ticker) then None
    else
      var years := SortedLabels(FiscalLabels(annual, ticker));
      if |years| < 2 then None
      else
        var latest := years[|years| - 1];
        var prev := if |years| >= 4 then Some(FiguresOf(annual, ticker, years[|years| - 4])) else None;
        Some(Entries(FiguresOf(annual, ticker, latest), prev))
  }

  /** `latest`: the newest fiscal-year label of the ticker. */
  function Latest(annual: map<SeriesKey, Option<real>>, ticker: string): (y: string)
    requires |FiscalLabels(annual, ticker)| >= 2
    ensures IsLast(y, FiscalLabels(annual, ticker))
  {
    var labels := FiscalLabels(annual, ticker);
    var years := SortedLabels(labels);
    SortedEnds(years, labels);
    years[|years| - 1]
  }

  /** `prev`: the label three years back, present exactly when there are at
      least four labels; exactly three labels come after it. */
  function ThreeBack(annual: map<SeriesKey, Option<real>>, ticker: string): (p: Option<string>)
    requires |FiscalLabels(annual, ticker)| >= 2
    ensures p.Some? <==> |FiscalLabels(annual, ticker)| >= 4
    ensures p.Some? ==> p.value in FiscalLabels(annual, ticker) && |Later(p.value, FiscalLabels(annual, ticker))| == 3
  {
    var labels := FiscalLabels(annual, ticker);
    var years := SortedLabels(labels);
    ThreeAfter(years, labels);
    if |years| >= 4 then Some(years[|years| - 4]) else None
  }

  /** With two or more labels the entries are those of the latest year and
      of the year three back, when there is one. */
  lemma DerivedFromYears(annual: map<SeriesKey, Option<real>>, ticker: string)
    requires HasAnnualRows(annual, ticker) && |FiscalLabels(annual, ticker)| >= 2
    ensures var p := ThreeBack(annual, ticker);
      DerivedEntries(annual, ticker)
        == Some(Entries(FiguresOf(annual, ticker, Latest(annual, ticker)),
                        if p.Some? then Some(FiguresOf(annual, ticker, p.value)) else None))
  {
  }

  lemma ThreeAfter(r: seq<string>, labels: set<string>)
    requires |labels| >= 2 && r == SortedLabels(labels)
    ensures |labels| >= 4 ==> r[|r| - 4] in labels && |Later(r[|r| - 4], labels)| == 3
  {
    SortedEnds(r, labels);
    if |labels| >= 4 {
      assert Later(r[|r| - 4], labels) == {r[|r| - 3], r[|r| - 2], r[|r| - 1]};
      assert r[|r| - 3] != r[|r| - 2] && r[|r| - 2] != r[|r| - 1] && r[|r| - 3] != r[|r| - 1] by {
        BeforeAsymmetric(r[|r| - 3], r[|r| - 2]);
        BeforeAsymmetric(r[|r| - 2], r[|r| - 1]);
        BeforeAsymmetric(r[|r| - 3], r[|r| - 1]);
      }
    }
  }

  /** Every name the figures are read under is an alias target, so `get`
      reads the row stored under that very name. */
  lemma LookupOfTarget(annual: map<SeriesKey, Option<real>>, ticker: string, year: string, key: string)
    requires key in MetricAliases
    ensures Lookup(annual, ticker, year, MetricAliases[key]) == RowValue(annual, ticker, year, MetricAliases[key])
  {
    AliasTargetFixed(key);
  }

  lemma LatestWritten(f: YearFigures, m: string)
    ensures Written(LatestEntries(f), m) <==>
      || (m == "Sales" && !f.sales.Missing?)
      || (m == "EPS" && !f.eps.Missing?)
      || (m == "OPM" && !f.opm.Missing?)
      || (m == "Debt to Equity" && Truthy(f.borrowings) && Truthy(f.equity) && Truthy(f.reserves))
  {
    var p1 := Pick("Sales", !f.sales.Missing?, FigureOf(f.sales));
    var p2 := Pick("EPS", !f.eps.Missing?, FigureOf(f.eps));
    var p3 := Pick("OPM", !f.opm.Missing?, FigureOf(f.opm));
    var p4 := Pick("Debt to Equity", Truthy(f.borrowings) && Truthy(f.equity) && Truthy(f.reserves), DebtRatio(f));
    WrittenConcat(p1, p2, m);
    WrittenConcat(p1 + p2, p3, m);
    WrittenConcat(p1 + p2 + p3, p4, m);
  }

  lemma GrowthWritten(f: YearFigures, p: YearFigures, m: string)
    ensures Written(GrowthEntries(f, p), m) <==>
      || (m == "Sales growth 3Years" && Truthy(p.sales) && Truthy(f.sales))
      || (m == "Profit Var 3Yrs" && Positive(p.netProfit) && Positive(f.netProfit))
  {
    WrittenConcat(Pick("Sales growth 3Years", Truthy(p.sales) && Truthy(f.sales), GrowthOf(p.sales, f.sales)),
                  Pick("Profit Var 3Yrs", Positive(p.netProfit) && Positive(f.netProfit), GrowthOf(p.netProfit, f.netProfit)),
                  m);
  }

  /** Which names the entries write. */
  lemma EntriesWritten(f: YearFigures, prev: Option<YearFigures>, m: string)
    ensures Written(Entries(f, prev), m) <==>
      || (m == "Sales" && !f.sales.Missing?)
      || (m == "EPS" && !f.eps.Missing?)
      || (m == "OPM" && !f.opm.Missing?)
      || (m == "Debt to Equity" && Truthy(f.borrowings) && Truthy(f.equity) && Truthy(f.reserves))
      || (prev.Some? && m == "Sales growth 3Years" && Truthy(prev.value.sales) && Truthy(f.sales))
      || (prev.Some? && m == "Profit Var 3Yrs" && Positive(prev.value.netProfit) && Positive(f.netProfit))
  {
    var g := if prev.Some? then GrowthEntries(f, prev.value) else [];
    LatestWritten(f, m);
    if prev.Some? {
      GrowthWritten(f, prev.value, m);
    }
    WrittenConcat(LatestEntries(f), g, m);
  }

  /** The row a headline figure is written as: a number is written with
      its value, NaN as the text "nan" over a NULL value. */
  predicate WrittenAs(row: RatioRow, x: Reading) {
    match x
    case Missing => false
    case NaN => row == RatioRow(Printed(Some(NotANumber)), None)
    case Number(v) => row == RatioRow(Printed(Some(Value(v))), Some(Value(v)))
  }

  /** Sales, EPS and OPM are each written exactly when the latest year has
      a row for them, as the number read or as NaN. */
  lemma HeadlineRows(f: YearFigures, prev: Option<YearFigures>)
    ensures var e := Entries(f, prev);
      && (Written(e, "Sales") <==> !f.sales.Missing?)
      && (Written(e, "Sales") ==> WrittenAs(LastWrite(e, "Sales"), f.sales))
      && (Written(e, "EPS") <==> !f.eps.Missing?)
      && (Written(e, "EPS") ==> WrittenAs(LastWrite(e, "EPS"), f.eps))
      && (Written(e, "OPM") <==> !f.opm.Missing?)
      && (Written(e, "OPM") ==> WrittenAs(LastWrite(e, "OPM"), f.opm))
  {
    HeadlineRow(f, prev, "Sales", f.sales);
    HeadlineRow(f, prev, "EPS", f.eps);
    HeadlineRow(f, prev, "OPM", f.opm);
  }

  /** The entries after the headline picks do not write a headline name. */
  lemma HeadlineTail(f: YearFigures, prev: Option<YearFigures>, m: string)
    requires m == "Sales" || m == "EPS" || m == "OPM"
    ensures var p4 := Pick("Debt to Equity", Truthy(f.borrowings) && Truthy(f.equity) && Truthy(f.reserves), DebtRatio(f));
      && Written(Entries(f, prev), m) == Written(LatestEntries(f), m)
      && (Written(LatestEntries(f), m) ==> LastWrite(Entries(f, prev), m) == LastWrite(LatestEntries(f), m))
      && !Written(p4, m)
  {
    EntriesNotGrowth(f, prev, m);
    DropTail(LatestEntries(f), if prev.Some? then GrowthEntries(f, prev.value) else [], m);
  }

  lemma HeadlineRow(f: YearFigures, prev: Option<YearFigures>, m: string, x: Reading)
    requires (m == "Sales" && x == f.sales) || (m == "EPS" && x == f.eps) || (m == "OPM" && x == f.opm)
    ensures Written(Entries(f, prev), m) <==> !x.Missing?
    ensures Written(Entries(f, prev), m) ==> WrittenAs(LastWrite(Entries(f, prev), m), x)
  {
    var p1 := Pick("Sales", !f.sales.Missing?, FigureOf(f.sales));
    var p2 := Pick("EPS", !f.eps.Missing?, FigureOf(f.eps));
    var p3 := Pick("OPM", !f.opm.Missing?, FigureOf(f.opm));
    var p4 := Pick("Debt to Equity", Truthy(f.borrowings) && Truthy(f.equity) && Truthy(f.reserves), DebtRatio(f));
    HeadlineTail(f, prev, m);
    DropTail(HeadEntries(f), p4, m);
    if m == "OPM" {
      WrittenConcat(p1, p2, m);
      WrittenConcat(p1 + p2, p3, m);
      if !x.Missing? {
        LastWriteConcat(p1 + p2, p3, m);
      }
    } else {
      DropTail(p1 + p2, p3, m);
      if m == "EPS" {
        WrittenConcat(p1, p2, m);
        if !x.Missing? {
          LastWriteConcat(p1, p2, m);
        }
      } else {
        DropTail(p1, p2, m);
      }
    }
  }

  /** Entries that do not write `m` leave its last write as it was. */
  lemma DropTail(a: seq<(string, RatioRow)>, b: seq<(string, RatioRow)>, m: string)
    requires !Written(b, m)
    ensures Written(a + b, m) <==> Written(a, m)
    ensures Written(a, m) ==> LastWrite(a + b, m) == LastWrite(a, m)
  {
    WrittenConcat(a, b, m);
    if Written(a, m) {
      LastWriteConcat(a, b, m);
    }
  }

  /** The case pandas creates: when the latest year's sales row is stored
      as NULL and some annual row of the ticker holds a number, "Sales" is
      written, as the text "nan" over a NULL value. */
  lemma NullSalesWrittenAsNaN(annual: map<SeriesKey, Option<real>>, ticker: string)
    requires HasAnnualRows(annual, ticker) && |FiscalLabels(annual, ticker)| >= 2
    requires var key := SeriesKey(ticker, Latest(annual, ticker), "Sales +");
      key in annual && annual[key].None? && HasNumber(annual, ticker)
    ensures DerivedEntries(annual, ticker).Some?
    ensures var e := DerivedEntries(annual, ticker).value;
      Written(e, "Sales") && LastWrite(e, "Sales") == RatioRow(Printed(Some(NotANumber)), None)
  {
    var p := ThreeBack(annual, ticker);
    DerivedFromYears(annual, ticker);
    HeadlineRows(FiguresOf(annual, ticker, Latest(annual, ticker)),
                 if p.Some? then Some(FiguresOf(annual, ticker, p.value)) else None);
  }

  /** Debt to Equity is written exactly when borrowings, equity capital and
      reserves are all truthy, NaN included, and its row is as `DebtRowOf`
      describes. */
  lemma DebtToEquityGuard(f: YearFigures, prev: Option<YearFigures>)
    ensures var e := Entries(f, prev);
      && (Written(e, "Debt to Equity") <==> Truthy(f.borrowings) && Truthy(f.equity) && Truthy(f.reserves))
      && (Written(e, "Debt to Equity") ==> DebtRowOf(f, LastWrite(e, "Debt to Equity")))
  {
    var m := "Debt to Equity";
    EntriesNotGrowth(f, prev, m);
    DropTail(LatestEntries(f), if prev.Some? then GrowthEntries(f, prev.value) else [], m);
    LatestWritten(f, m);
    if Truthy(f.borrowings) && Truthy(f.equity) && Truthy(f.reserves) {
      var p4 := Pick(m, true, DebtRatio(f));
      WrittenConcat(HeadEntries(f), p4, m);
      LastWriteConcat(HeadEntries(f), p4, m);
      DebtRow(f, LastWrite(Entries(f, prev), m));
    }
  }

  /** The row written for Debt to Equity once its guard holds. */
  lemma DebtRow(f: YearFigures, row: RatioRow)
    requires Truthy(f.borrowings) && Truthy(f.equity) && Truthy(f.reserves)
    requires row == RatioRow(Printed(DebtRatio(f)), Stored(DebtRatio(f)))
    ensures DebtRowOf(f, row)
  {
  }

  /** What the Debt to Equity row holds, given truthy borrowings, equity
      and reserves: `None` when equity and reserves are numbers summing to
      0; otherwise "nan" over NULL when any of the three is NaN; otherwise a
      value that times equity + reserves is the borrowings. */
  predicate DebtRowOf(f: YearFigures, row: RatioRow) {
    var zero := f.equity.Number? && f.reserves.Number? && f.equity.x + f.reserves.x == 0.0;
    var nan := f.borrowings.NaN? || f.equity.NaN? || f.reserves.NaN?;
    && (zero ==> row == RatioRow(Printed(None), None))
    && (!zero && nan ==> row == RatioRow(Printed(Some(NotANumber)), None))
    && (!zero && !nan ==>
          && f.borrowings.Number? && f.equity.Number? && f.reserves.Number?
          && row.value.Some? && row.raw == Printed(row.value) && row.value.value.Value?
          && row.value.value.x * (f.equity.x + f.reserves.x) == f.borrowings.x)
  }

  /** The growth entries write only the two growth names. */
  lemma EntriesNotGrowth(f: YearFigures, prev: Option<YearFigures>, m: string)
    requires m != "Sales growth 3Years" && m != "Profit Var 3Yrs"
    ensures !Written(if prev.Some? then GrowthEntries(f, prev.value) else [], m)
  {
    if prev.Some? {
      var p := prev.value;
      WrittenConcat(Pick("Sales growth 3Years", Truthy(p.sales) && Truthy(f.sales), GrowthOf(p.sales, f.sales)),
                    Pick("Profit Var 3Yrs", Positive(p.netProfit) && Positive(f.netProfit), GrowthOf(p.netProfit, f.netProfit)),
                    m);
    }
  }

  /** The sales growth is written exactly when the sales of both years are
      truthy (non-zero, or NaN). It runs from the sales three years back
      to the latest; a NaN figure, or sales of opposite signs, whose ratio
      has no real cube root in numpy, make it NaN, written as "nan" over
      NULL. */
  lemma SalesGuard(f: YearFigures, prev: Option<YearFigures>)
    ensures var e := Entries(f, prev);
      && (Written(e, "Sales growth 3Years") <==>
            prev.Some? && Truthy(prev.value.sales) && Truthy(f.sales))
      && (Written(e, "Sales growth 3Years") ==>
            var s0 := prev.value.sales;
            var s3 := f.sales;
            var row := LastWrite(e, "Sales growth 3Years");
            if s0.Number? && s3.Number? && (s0.x > 0.0 <==> s3.x > 0.0)
            then row == RatioRow(Printed(Some(Growth(s0.x, s3.x))), Some(Growth(s0.x, s3.x)))
            else row == RatioRow(Printed(Some(NotANumber)), None))
  {
    var m := "Sales growth 3Years";
    EntriesWritten(f, prev, m);
    if prev.Some? && Truthy(prev.value.sales) && Truthy(f.sales) {
      var p := prev.value;
      var first := Pick(m, true, GrowthOf(p.sales, f.sales));
      var second := Pick("Profit Var 3Yrs", Positive(p.netProfit) && Positive(f.netProfit), GrowthOf(p.netProfit, f.netProfit));
      WrittenConcat(first, second, m);
      LastWriteConcat(LatestEntries(f), GrowthEntries(f, p), m);
      LastWriteConcat(first, second, m);
    }
  }

  /** The profit growth is written exactly when the net profit of both
      years is a positive number (NaN is not), and runs from the profit
      three years back to the latest. */
  lemma ProfitGuard(f: YearFigures, prev: Option<YearFigures>)
    ensures var e := Entries(f, prev);
      && (Written(e, "Profit Var 3Yrs") <==>
            prev.Some? && Positive(prev.value.netProfit) && Positive(f.netProfit))
      && (Written(e, "Profit Var 3Yrs") ==>
            var g := Growth(prev.value.netProfit.x, f.netProfit.x);
            LastWrite(e, "Profit Var 3Yrs") == RatioRow(Printed(Some(g)), Some(g)))
  {
    var m := "Profit Var 3Yrs";
    EntriesWritten(f, prev, m);
    if prev.Some? && Positive(prev.value.netProfit) && Positive(f.netProfit) {
      var p := prev.value;
      var first := Pick("Sales growth 3Years", Truthy(p.sales) && Truthy(f.sales), GrowthOf(p.sales, f.sales));
      var second := Pick(m, true, GrowthOf(p.netProfit, f.netProfit));
      WrittenConcat(first, second, m);
      LastWriteConcat(LatestEntries(f), GrowthEntries(f, p), m);
      LastWriteConcat(first, second, m);
    }
  }

  // ---------------------------------------------------------------------
  // The stored procedure
  // ---------------------------------------------------------------------

  /** Reads the ticker's annual rows, and when there are at least two
      fiscal years deletes and re-inserts one ratio row per derived metric,
      commits and answers true; otherwise it writes nothing and answers false. */
  method ComputeAndStoreDerivedMetrics(db: Session, ticker: string, scrapedAt: Day) returns (ok: bool)
    modifies db
    ensures ok <==> DerivedEntries(old(db.current).annual, ticker).Some?
    ensures ok ==> db.current == old(db.current).(ratios := WriteRatios(old(db.current).ratios, ticker, scrapedAt,
                                                  DerivedEntries(old(db.current).annual, ticker).value))
    ensures ok ==> db.committed == db.current
    ensures !ok ==> db.current == old(db.current) && db.committed == old(db.committed)
  {
    var plan := DerivedEntries(db.current.annual, ticker);
    if plan.None? {
      return false;
    }
    WriteDerived(db, ticker, scrapedAt, plan.value);
    db.Commit();
    return true;
  }

  /** The delete-then-insert loop over the entries. */
  method WriteDerived(db: Session, ticker: string, scrapedAt: Day, entries: seq<(string, RatioRow)>)
    modifies db
    ensures db.current == old(db.current).(ratios := WriteRatios(old(db.current).ratios, ticker, scrapedAt, entries))
    ensures db.committed == old(db.committed)
  {
    var i := 0;
    while i < |entries|
      invariant 0 <= i <= |entries|
      invariant db.current == old(db.current).(ratios := WriteRatios(old(db.current).ratios, ticker, scrapedAt, entries[..i]))
      invariant db.committed == old(db.committed)
    {
      var metric := entries[i].0;
      var row := entries[i].1;
      var kept := map k | k in db.current.ratios && !(k.ticker == ticker && k.metric == metric) :: db.current.ratios[k];
      db.current := db.current.(ratios := kept);
      db.current := db.current.(ratios := db.current.ratios[RatioKey(ticker, scrapedAt, metric) := row]);
      assert entries[..i + 1][..i] == entries[..i];
      i := i + 1;
    }
    assert entries[..i] == entries;
  }
}
