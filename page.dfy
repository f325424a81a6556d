/** A fetched company page, after HTML parsing: the top-ratio items and the
    tables of each `<section>`, each table already read into a grid of a
    header row and labelled body rows. */
module Pages {
  import opened Wrappers
  import opened Text
  import opened Cleaning

  /** One body row: the text of its first column and its other cells; a
      missing or empty cell is `None` (pandas' NaN). */
  datatype GridRow = GridRow(name: string, cells: seq<Option<string>>)

  /** A table as `read_html` returns it: the header of the first column,
      the headers of the other columns, and the body rows. */
  datatype Grid = Grid(corner: string, periods: seq<string>, rows: seq<GridRow>)

  /** A `<table>` element: readable into a grid, or one `read_html` rejects
      with a `ValueError` carrying `error`. */
  datatype Table = Readable(grid: Grid) | Unreadable(error: string)

  /** A `<table>` in a section; `dataTable` says whether it has the class
      `data-table`. */
  datatype HtmlTable = HtmlTable(dataTable: bool, content: Table)

  /** One `li` of the top-ratios list: the text of its `span.name` and the
      space-joined, stripped text of its `span.nowrap.value`, each `None`
      when the span is missing. */
  datatype RatioItem = RatioItem(name: Option<string>, value: Option<string>)

  /** The page: its HTML text, the top-ratio items, and the tables of each
      section by its `id`, in document order. */
  datatype Page = Page(html: string, ratioItems: seq<RatioItem>, sections: map<string, seq<HtmlTable>>)

  /** `section.find("table", class_="data-table")`. */
  function FirstDataTable(tables: seq<HtmlTable>): (r: Option<Table>)
    ensures r.Some? <==> exists i | 0 <= i < |tables| :: tables[i].dataTable
    ensures r.Some? ==> exists i | 0 <= i < |tables| :: tables[i].dataTable && tables[i].content == r.value
                          && forall j | 0 <= j < i :: !tables[j].dataTable
  {
    if tables == [] then None
    else if tables[0].dataTable then Some(tables[0].content)
    else
      var r := FirstDataTable(tables[1..]);
      assert forall i | 1 <= i < |tables| :: tables[i] == tables[1..][i - 1];
      r
  }

  /** `soup.find("section", id=id)` followed by the first data table in it. */
  function SectionTable(p: Page, id: string): Option<Table> {
    if id in p.sections then FirstDataTable(p.sections[id]) else None
  }

  /** The cell in body row `row` under the `j`-th period column; a row
      shorter than the header reads as NaN there. */
  function CellAt(row: GridRow, j: nat): Option<string> {
    if j < |row.cells| then row.cells[j] else None
  }

  /** One row of the long format. */
  datatype MeltRow = MeltRow(name: string, period: string, cell: Option<string>)

  /** The long rows of the `j`-th period column, one per body row. */
  function Column(g: Grid, j: nat): (c: seq<MeltRow>)
    requires j < |g.periods|
    ensures |c| == |g.rows|
    ensures forall i | 0 <= i < |g.rows| ::
      c[i] == MeltRow(g.rows[i].name, g.periods[j], CellAt(g.rows[i], j))
  {
    seq(|g.rows|, i requires 0 <= i < |g.rows| => MeltRow(g.rows[i].name, g.periods[j], CellAt(g.rows[i], j)))
  }

  /** `melt` over the first `n` period columns: column by column. */
  function MeltUpTo(g: Grid, n: nat): seq<MeltRow>
    requires n <= |g.periods|
  {
    if n == 0 then [] else MeltUpTo(g, n - 1) + Column(g, n - 1)
  }

  /** `df.melt(id_vars=first column, var_name=..., value_name=...)`. */
  function Melt(g: Grid): seq<MeltRow> {
    MeltUpTo(g, |g.periods|)
  }

  lemma ProductStep(j: nat, i: nat, m: nat, n: nat)
    requires j < n && i < m
    ensures j * m + i < n * m
  {
    assert (j + 1) * m <= n * m by {
      assert j + 1 <= n;
    }
  }

  lemma {:induction false} MeltUpToLength(g: Grid, n: nat)
    requires n <= |g.periods|
    ensures |MeltUpTo(g, n)| == n * |g.rows|
  {
    if n > 0 {
      MeltUpToLength(g, n - 1);
      assert (n - 1) * |g.rows| + |g.rows| == n * |g.rows|;
    }
  }

  lemma {:induction false} MeltUpToIndex(g: Grid, n: nat, j: nat, i: nat)
    requires n <= |g.periods| && j < n && i < |g.rows|
    ensures j * |g.rows| + i < |MeltUpTo(g, n)|
    ensures MeltUpTo(g, n)[j * |g.rows| + i] == MeltRow(g.rows[i].name, g.periods[j], CellAt(g.rows[i], j))
  {
    var m := |g.rows|;
    var k := j * m + i;
    MeltUpToLength(g, n);
    MeltUpToLength(g, n - 1);
    ProductStep(j, i, m, n);
    var pre := MeltUpTo(g, n - 1);
    if j < n - 1 {
      ProductStep(j, i, m, n - 1);
      MeltUpToIndex(g, n - 1, j, i);
      assert MeltUpTo(g, n)[k] == pre[k];
    } else {
      assert k - |pre| == i;
      assert MeltUpTo(g, n)[k] == Column(g, n - 1)[i];
    }
  }

  /** The long format has one row per (period column, body row), in column
      order: row `i` under period `j` sits at `j * |rows| + i`. */
  lemma MeltAt(g: Grid)
    ensures |Melt(g)| == |g.periods| * |g.rows|
    ensures forall j, i | 0 <= j < |g.periods| && 0 <= i < |g.rows| ::
      j * |g.rows| + i < |Melt(g)| &&
      Melt(g)[j * |g.rows| + i] == MeltRow(g.rows[i].name, g.periods[j], CellAt(g.rows[i], j))
  {
    MeltUpToLength(g, |g.periods|);
    forall j, i | 0 <= j < |g.periods| && 0 <= i < |g.rows|
      ensures j * |g.rows| + i < |Melt(g)|
      ensures Melt(g)[j * |g.rows| + i] == MeltRow(g.rows[i].name, g.periods[j], CellAt(g.rows[i], j))
    {
      MeltUpToIndex(g, |g.periods|, j, i);
    }
  }

  /** The melt is empty exactly when there is no period column or no body row. */
  lemma MeltEmpty(g: Grid)
    ensures Melt(g) == [] <==> g.periods == [] || g.rows == []
  {
    MeltAt(g);
    if g.periods != [] && g.rows != [] {
      assert |g.periods| * |g.rows| >= 1 * |g.rows|;
    }
  }

  // ---------------------------------------------------------------------
  // Which page to keep
  // ---------------------------------------------------------------------

  /** `re.match(r"Mar\s\d{4}", c)`: a prefix match, so "Mar 2024 TTM"
      matches as well. */
  predicate FiscalPrefix(c: string) {
    |c| >= 8 && c[..3] == "Mar" && IsSpace(c[3]) && AllDigits(c[4..8])
  }

  /** The page has a profit-and-loss section whose first data table reads
      into a grid with a header that starts like a fiscal year (the header
      of the first column included). */
  predicate HasValidAnnualData(p: Page) {
    var t := SectionTable(p, "profit-loss");
    && t.Some? && t.value.Readable?
    && exists c | c in [t.value.grid.corner] + t.value.grid.periods :: FiscalPrefix(c)
  }

  /** Every full fiscal-year label passes the prefix test; the prefix test
      also accepts longer headers. */
  lemma FiscalYearHasPrefix(c: string)
    ensures IsFiscalYear(c) ==> FiscalPrefix(c)
    ensures FiscalPrefix(c) && |c| >= 9 && c[8] != '\n' ==> !IsFiscalYear(c)
  {
  }

  /** A page whose profit-and-loss data table has a fiscal-year column
      holds valid annual data. */
  lemma ValidAnnualData(p: Page, g: Grid, c: string)
    requires SectionTable(p, "profit-loss") == Some(Readable(g))
    requires c in g.periods && IsFiscalYear(c)
    ensures HasValidAnnualData(p)
  {
    FiscalYearHasPrefix(c);
    assert c in [g.corner] + g.periods;
  }
}
