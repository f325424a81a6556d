/** `_run_ingestion_once` and `fetch_and_store_fundamentals`: one pass
    over a fetched page, and the retrying background job around it. */
module Ingestion {
  import opened Wrappers
  import opened Text
  import opened Cleaning
  import opened Store
  import opened StatusTable
  import opened Derived
  import opened Pages

  const MaxRetries: nat := 3
  const BaseBackoffSeconds: nat := 2

  /** What one request for a company page gives: the parsed page, or the
      text of the HTTP error `raise_for_status` raises. */
  datatype Fetch = Fetched(page: Page) | HttpError(message: string)

  /** The two pages one attempt may request, consolidated first. */
  datatype Attempt = Attempt(consolidated: Fetch, standalone: Fetch)

  datatype Scope = Consolidated | Standalone

  // ---------------------------------------------------------------------
  // Choosing the page
  // ---------------------------------------------------------------------

  /** The consolidated page, unless it holds no valid annual data, in which
      case the standalone page; a failed request ends the attempt. */
  function SelectPage(a: Attempt): Result<(Scope, Page)> {
    if a.consolidated.HttpError? then Err(a.consolidated.message)
    else if HasValidAnnualData(a.consolidated.page) then Ok((Consolidated, a.consolidated.page))
    else if a.standalone.HttpError? then Err(a.standalone.message)
    else Ok((Standalone, a.standalone.page))
  }

  /** The standalone page is requested exactly when the consolidated page
      arrives without valid annual data, and the page kept is the one of
      the scope chosen. */
  lemma SelectPageScope(a: Attempt)
    ensures SelectPage(a).Ok? ==>
      var (scope, page) := SelectPage(a).value;
      && a.consolidated.Fetched?
      && (scope == Standalone <==> !HasValidAnnualData(a.consolidated.page))
      && page == (if scope == Consolidated then a.consolidated.page else a.standalone.page)
    ensures SelectPage(a).Err? <==>
      a.consolidated.HttpError? || (!HasValidAnnualData(a.consolidated.page) && a.standalone.HttpError?)
  {
  }

  // ---------------------------------------------------------------------
  // Ratios
  // ---------------------------------------------------------------------

  predicate HasBothSpans(item: RatioItem) {
    item.name.Some? && item.value.Some?
  }

  /** The metric an item with both spans is stored under. */
  function MetricOf(item: RatioItem): string
    requires HasBothSpans(item)
  {
    Strip(item.name.value)
  }

  /** The row stored for an item with both spans: the text shown on the
      page and its cleaned number. */
  function RowOf(item: RatioItem): RatioRow
    requires HasBothSpans(item)
  {
    RatioRow(Text(item.value.value), Num(CleanNumber(item.value)))
  }

  function ItemWrite(item: RatioItem): (string, RatioRow)
    requires HasBothSpans(item)
  {
    (MetricOf(item), RowOf(item))
  }

  /** The ratio writes of the page, in order: one per item that has both
      spans. */
  function RatioWrites(items: seq<RatioItem>): (w: seq<(string, RatioRow)>)
    ensures |w| <= |items|
    decreases |items|
  {
    if items == [] then []
    else
      var last := items[|items| - 1];
      RatioWrites(items[..|items| - 1]) + (if HasBothSpans(last) then [ItemWrite(last)] else [])
  }

  /** Every item with both spans writes its stripped name. */
  lemma {:induction false} ItemWritten(items: seq<RatioItem>, i: nat)
    requires i < |items| && HasBothSpans(items[i])
    ensures Written(RatioWrites(items), MetricOf(items[i]))
    decreases |items|
  {
    var pre := items[..|items| - 1];
    var last := items[|items| - 1];
    var tail := if HasBothSpans(last) then [ItemWrite(last)] else [];
    var w := RatioWrites(items);
    assert w == RatioWrites(pre) + tail;
    if i == |items| - 1 {
      assert w[|w| - 1] == ItemWrite(items[i]);
    } else {
      assert pre[i] == items[i];
      ItemWritten(pre, i);
      WrittenConcat(RatioWrites(pre), tail, MetricOf(items[i]));
    }
  }

  /** Every write comes from an item with both spans. */
  lemma {:induction false} WrittenItem(items: seq<RatioItem>, m: string)
    requires Written(RatioWrites(items), m)
    ensures exists i | 0 <= i < |items| :: HasBothSpans(items[i]) && MetricOf(items[i]) == m
    decreases |items|
  {
    var pre := items[..|items| - 1];
    var last := items[|items| - 1];
    var tail := if HasBothSpans(last) then [ItemWrite(last)] else [];
    assert RatioWrites(items) == RatioWrites(pre) + tail;
    WrittenConcat(RatioWrites(pre), tail, m);
    if Written(tail, m) {
      assert tail[0].0 == m;
      assert HasBothSpans(items[|items| - 1]) && MetricOf(items[|items| - 1]) == m;
    } else {
      WrittenItem(pre, m);
      var i :| 0 <= i < |pre| && HasBothSpans(pre[i]) && MetricOf(pre[i]) == m;
      assert items[i] == pre[i];
    }
  }

  /** A metric is written exactly when some item with both spans carries
      that name, once stripped. */
  lemma RatioWritesNames(items: seq<RatioItem>, m: string)
    ensures Written(RatioWrites(items), m) <==>
      exists i | 0 <= i < |items| :: HasBothSpans(items[i]) && MetricOf(items[i]) == m
  {
    if Written(RatioWrites(items), m) {
      WrittenItem(items, m);
    }
    if exists i | 0 <= i < |items| :: HasBothSpans(items[i]) && MetricOf(items[i]) == m {
      var i :| 0 <= i < |items| && HasBothSpans(items[i]) && MetricOf(items[i]) == m;
      ItemWritten(items, i);
    }
  }

  predicate Names(item: RatioItem, m: string) {
    HasBothSpans(item) && MetricOf(item) == m
  }

  /** The index of the last item before `n` with both spans named `m`, if any. */
  function LastNamedBelow(items: seq<RatioItem>, m: string, n: nat): Option<nat>
    requires n <= |items|
    decreases n
  {
    if n == 0 then None
    else if Names(items[n - 1], m) then Some(n - 1)
    else LastNamedBelow(items, m, n - 1)
  }

  /** The search below `n` finds the last named item there, and reports
      none only when there is none. */
  lemma {:induction false} LastNamedBelowFinds(items: seq<RatioItem>, m: string, n: nat)
    requires n <= |items|
    ensures var r := LastNamedBelow(items, m, n);
      && (r.Some? ==> r.value < n && Names(items[r.value], m)
                      && forall j | r.value < j < n :: !Names(items[j], m))
      && (r.None? ==> forall j | 0 <= j < n :: !Names(items[j], m))
    decreases n
  {
    if n > 0 && !Names(items[n - 1], m) {
      LastNamedBelowFinds(items, m, n - 1);
    }
  }

  /** The index of the last item with both spans named `m`, if any. */
  function LastNamed(items: seq<RatioItem>, m: string): (r: Option<nat>)
    ensures r.Some? ==> r.value < |items| && Names(items[r.value], m)
                        && forall j | r.value < j < |items| :: !Names(items[j], m)
    ensures r.None? ==> forall j | 0 <= j < |items| :: !Names(items[j], m)
  {
    LastNamedBelowFinds(items, m, |items|);
    LastNamedBelow(items, m, |items|)
  }

  /** The search below `n` reads only the first `n` items. */
  lemma {:induction false} LastNamedBelowPrefix(items: seq<RatioItem>, pre: seq<RatioItem>, m: string, n: nat)
    requires n <= |pre| <= |items| && pre == items[..|pre|]
    ensures LastNamedBelow(items, m, n) == LastNamedBelow(pre, m, n)
    decreases n
  {
    if n > 0 {
      assert items[n - 1] == pre[n - 1];
      LastNamedBelowPrefix(items, pre, m, n - 1);
    }
  }

  /** Dropping a last item that is not named `m` keeps the search's answer. */
  lemma LastNamedDrop(items: seq<RatioItem>, m: string)
    requires items != [] && !Names(items[|items| - 1], m)
    ensures LastNamed(items, m) == LastNamed(items[..|items| - 1], m)
  {
    LastNamedBelowPrefix(items, items[..|items| - 1], m, |items| - 1);
  }

  /** The writes of all items but the last, then the last item's. */
  lemma RatioWritesSplit(items: seq<RatioItem>, m: string)
    requires items != []
    ensures var pre := items[..|items| - 1];
      && (Written(RatioWrites(items), m) <==> Names(items[|items| - 1], m) || Written(RatioWrites(pre), m))
      && (Names(items[|items| - 1], m) ==> LastWrite(RatioWrites(items), m) == RowOf(items[|items| - 1]))
      && (!Names(items[|items| - 1], m) && Written(RatioWrites(items), m) ==>
            LastWrite(RatioWrites(items), m) == LastWrite(RatioWrites(pre), m))
  {
    var pre := items[..|items| - 1];
    var last := items[|items| - 1];
    var tail := if HasBothSpans(last) then [ItemWrite(last)] else [];
    assert RatioWrites(items) == RatioWrites(pre) + tail;
    WrittenConcat(RatioWrites(pre), tail, m);
    if Names(last, m) {
      assert tail[0].0 == m;
    }
    if Written(tail, m) {
      var i :| 0 <= i < |tail| && tail[i].0 == m;
      assert i == 0 && tail[0] == ItemWrite(last);
    }
    if Written(RatioWrites(items), m) {
      LastWriteConcat(RatioWrites(pre), tail, m);
    }
  }

  /** The row kept for a metric is the one of the last item with both
      spans and that name: the last write wins, and its raw text is the
      page's text. */
  lemma {:induction false} RatioWritesLast(items: seq<RatioItem>, m: string)
    requires Written(RatioWrites(items), m)
    ensures LastNamed(items, m).Some?
    ensures LastWrite(RatioWrites(items), m) == RowOf(items[LastNamed(items, m).value])
    decreases |items|
  {
    var pre := items[..|items| - 1];
    RatioWritesSplit(items, m);
    if !Names(items[|items| - 1], m) {
      LastNamedDrop(items, m);
      RatioWritesLast(pre, m);
      var j := LastNamed(pre, m).value;
      assert pre[j] == items[j];
    }
  }

  // ---------------------------------------------------------------------
  // The three long tables
  // ---------------------------------------------------------------------

  /** The `id` of the section each long table is read from. */
  function SectionId(s: Series): string {
    match s
    case Quarterly => "quarters"
    case Annual => "profit-loss"
    case Shareholding => "shareholding"
  }

  /** The insert made for one long row: quarters and fiscal years keyed by
      the canonical metric name (fiscal years stripped), holders as read. */
  function SeriesRow(s: Series, ticker: string, r: MeltRow): (SeriesKey, Option<real>) {
    match s
    case Quarterly => (SeriesKey(ticker, r.period, NormalizeMetric(r.name)), CleanNumber(r.cell))
    case Annual => (SeriesKey(ticker, Strip(r.period), NormalizeMetric(r.name)), CleanNumber(r.cell))
    case Shareholding => (SeriesKey(ticker, r.period, r.name), CleanNumber(r.cell))
  }

  /** The inserts of one table, in the order of the melted rows. */
  function SeriesRows(s: Series, ticker: string, g: Grid): (rows: seq<(SeriesKey, Option<real>)>)
    ensures |rows| == |Melt(g)|
  {
    var melted := Melt(g);
    seq(|melted|, k requires 0 <= k < |melted| => SeriesRow(s, ticker, melted[k]))
  }

  /** A section's table after its rows are inserted, and its flag. */
  datatype Loaded = Loaded(table: map<SeriesKey, Option<real>>, flag: Bit)

  /** One section block: nothing when the section or its data table is
      missing, the `ValueError` of an unreadable table, otherwise the rows
      loaded into the committed table and the flag set when there was a row. */
  function LoadSection(s: Series, ticker: string, page: Page, t: map<SeriesKey, Option<real>>): Result<Loaded> {
    var tb := SectionTable(page, SectionId(s));
    if tb.None? then Ok(Loaded(t, 0))
    else if tb.value.Unreadable? then Err(tb.value.error)
    else
      var rows := SeriesRows(s, ticker, tb.value.grid);
      if rows == [] then Ok(Loaded(t, 0)) else Ok(Loaded(Load(t, t, rows), 1))
  }

  /** The section fails exactly when its data table cannot be read; the
      flag is 1 exactly when the table has a period column and a body row;
      committed rows are never changed. */
  lemma LoadSectionSpec(s: Series, ticker: string, page: Page, t: map<SeriesKey, Option<real>>)
    ensures var r := LoadSection(s, ticker, page, t);
      var tb := SectionTable(page, SectionId(s));
      && (r.Err? <==> tb.Some? && tb.value.Unreadable?)
      && (r.Ok? ==> (r.value.flag == 1 <==>
                       tb.Some? && tb.value.Readable? && tb.value.grid.periods != [] && tb.value.grid.rows != []))
      && (r.Ok? ==> Extends(r.value.table, t))
  {
    var tb := SectionTable(page, SectionId(s));
    if tb.Some? && tb.value.Readable? {
      MeltEmpty(tb.value.grid);
      LoadKeepsBase(t, t, SeriesRows(s, ticker, tb.value.grid));
    }
  }

  /** A missing section leaves the table and the flag alone. */
  lemma MissingSection(s: Series, ticker: string, page: Page, t: map<SeriesKey, Option<real>>)
    requires SectionId(s) !in page.sections
    ensures LoadSection(s, ticker, page, t) == Ok(Loaded(t, 0))
  {
  }

  // ---------------------------------------------------------------------
  // One pass
  // ---------------------------------------------------------------------

  /** The outcome of one pass (its flags, or the text of the exception that
      ended it) and the tables it leaves. */
  datatype Run = Run(outcome: Result<Flags>, tables: Tables)

  function SnapshotKeyOf(ticker: string, date: Day): SnapshotKey {
    SnapshotKey(ticker, date, "full_page")
  }

  /** The sections, the derived metrics and the flags, from the tables
      after the snapshot and the ratios. */
  function IngestSections(t: Tables, ticker: string, date: Day, page: Page, ratiosDone: Bit): (r: Run)
    ensures r.tables.status == t.status && r.tables.snapshots == t.snapshots
    ensures r.outcome.Ok? ==> r.outcome.value.ratios == ratiosDone
  {
    var q := LoadSection(Quarterly, ticker, page, t.quarterly);
    if q.Err? then Run(Err(q.error), t)
    else
      var t1 := t.(quarterly := q.value.table);
      var a := LoadSection(Annual, ticker, page, t1.annual);
      if a.Err? then Run(Err(a.error), t1)
      else
        var t2 := t1.(annual := a.value.table);
        var h := LoadSection(Shareholding, ticker, page, t2.shareholding);
        if h.Err? then Run(Err(h.error), t2)
        else
          var t3 := t2.(shareholding := h.value.table);
          var d := DerivedEntries(t3.annual, ticker);
          var t4 := if d.Some? then t3.(ratios := WriteRatios(t3.ratios, ticker, date, d.value)) else t3;
          Run(Ok(Flags(ratiosDone, q.value.flag, a.value.flag, h.value.flag, if d.Some? then 1 else 0)), t4)
  }

  /** `_run_ingestion_once` on the tables `t`. A pass never touches the
      status table, and once a page is chosen it is stored as the snapshot
      of the day, whatever happens later. */
  function IngestOnce(t: Tables, ticker: string, date: Day, a: Attempt): (r: Run)
    ensures r.tables.status == t.status
    ensures SelectPage(a).Err? ==> r == Run(Err(SelectPage(a).error), t)
    ensures SelectPage(a).Ok? ==>
      r.tables.snapshots == t.snapshots[SnapshotKeyOf(ticker, date) := SelectPage(a).value.1.html]
  {
    var sel := SelectPage(a);
    if sel.Err? then Run(Err(sel.error), t)
    else
      var page := sel.value.1;
      var t1 := t.(snapshots := t.snapshots[SnapshotKeyOf(ticker, date) := page.html]);
      var writes := RatioWrites(page.ratioItems);
      var t2 := t1.(ratios := WriteRatios(t1.ratios, ticker, date, writes));
      IngestSections(t2, ticker, date, page, if writes == [] then 0 else 1)
  }

  /** A pass fails only on a failed request or an unreadable data table. */
  lemma IngestOnceFails(t: Tables, ticker: string, date: Day, a: Attempt)
    requires IngestOnce(t, ticker, date, a).outcome.Err?
    ensures || SelectPage(a).Err?
            || exists s: Series :: var tb := SectionTable(SelectPage(a).value.1, SectionId(s));
                                   tb.Some? && tb.value.Unreadable?
  {
    var sel := SelectPage(a);
    if sel.Ok? {
      var page := sel.value.1;
      var t1 := t.(snapshots := t.snapshots[SnapshotKeyOf(ticker, date) := page.html]);
      var writes := RatioWrites(page.ratioItems);
      var t2 := t1.(ratios := WriteRatios(t1.ratios, ticker, date, writes));
      var q := LoadSection(Quarterly, ticker, page, t2.quarterly);
      LoadSectionSpec(Quarterly, ticker, page, t2.quarterly);
      if q.Ok? {
        var t3 := t2.(quarterly := q.value.table);
        LoadSectionSpec(Annual, ticker, page, t3.annual);
        var an := LoadSection(Annual, ticker, page, t3.annual);
        if an.Ok? {
          var t4 := t3.(annual := an.value.table);
          LoadSectionSpec(Shareholding, ticker, page, t4.shareholding);
          var h := LoadSection(Shareholding, ticker, page, t4.shareholding);
          if h.Ok? {
            assert false;
          } else {
            assert SectionTable(page, SectionId(Shareholding)).value.Unreadable?;
          }
        } else {
          assert SectionTable(page, SectionId(Annual)).value.Unreadable?;
        }
      } else {
        assert SectionTable(page, SectionId(Quarterly)).value.Unreadable?;
      }
    }
  }

  /** The ratios flag is set exactly when some item had both spans. */
  lemma RatiosFlag(t: Tables, ticker: string, date: Day, a: Attempt)
    requires IngestOnce(t, ticker, date, a).outcome.Ok?
    ensures SelectPage(a).Ok?
    ensures var items := SelectPage(a).value.1.ratioItems;
      IngestOnce(t, ticker, date, a).outcome.value.ratios == 1 <==>
        exists i | 0 <= i < |items| :: HasBothSpans(items[i])
  {
    var items := SelectPage(a).value.1.ratioItems;
    if exists i | 0 <= i < |items| :: HasBothSpans(items[i]) {
      var i :| 0 <= i < |items| && HasBothSpans(items[i]);
      ItemWritten(items, i);
    }
    if RatioWrites(items) != [] {
      var w := RatioWrites(items);
      assert Written(w, w[0].0);
      WrittenItem(items, w[0].0);
    }
  }

  // ---------------------------------------------------------------------
  // The imperative pass
  // ---------------------------------------------------------------------

  lemma RatioWritesStep(items: seq<RatioItem>, i: nat)
    requires i < |items|
    ensures RatioWrites(items[..i + 1])
         == RatioWrites(items[..i]) + (if HasBothSpans(items[i]) then [ItemWrite(items[i])] else [])
  {
    assert items[..i + 1][..i] == items[..i];
  }

  /** The ratio loop: each item with both spans deletes the metric's rows
      on every date and inserts the new one; the flag is set by the first
      write. */
  method WriteRatioItems(db: Session, ticker: string, date: Day, items: seq<RatioItem>) returns (done: Bit)
    modifies db
    ensures db.current == old(db.current).(ratios := WriteRatios(old(db.current).ratios, ticker, date, RatioWrites(items)))
    ensures db.committed == old(db.committed)
    ensures done == if RatioWrites(items) == [] then 0 else 1
  {
    done := 0;
    var i := 0;
    while i < |items|
      invariant 0 <= i <= |items|
      invariant db.current == old(db.current).(ratios := WriteRatios(old(db.current).ratios, ticker, date, RatioWrites(items[..i])))
      invariant db.committed == old(db.committed)
      invariant done == if RatioWrites(items[..i]) == [] then 0 else 1
    {
      var item := items[i];
      RatioWritesStep(items, i);
      if item.name.Some? && item.value.Some? {
        var metric := MetricOf(item);
        var kept := map k | k in db.current.ratios && !(k.ticker == ticker && k.metric == metric) :: db.current.ratios[k];
        db.current := db.current.(ratios := kept[RatioKey(ticker, date, metric) := RowOf(item)]);
        WriteRatiosSnoc(old(db.current).ratios, ticker, date, RatioWrites(items[..i]), ItemWrite(item));
        assert RatioWrites(items[..i + 1]) == RatioWrites(items[..i]) + [ItemWrite(item)];
        done := 1;
      } else {
        assert RatioWrites(items[..i + 1]) == RatioWrites(items[..i]);
      }
      i := i + 1;
    }
    assert items[..i] == items;
  }

  /** The insert loop of a section: a duplicate key rolls the session back
      to the last commit, and the loop goes on. Answers whether there was
      a row. */
  method InsertRows(db: Session, s: Series, rows: seq<(SeriesKey, Option<real>)>) returns (rowsSeen: bool)
    requires db.current == db.committed
    modifies db
    ensures db.current == old(db.current).With(s, Load(old(db.current).Get(s), old(db.current).Get(s), rows))
    ensures db.committed == old(db.committed)
    ensures rowsSeen <==> rows != []
  {
    ghost var t0 := db.current;
    rowsSeen := false;
    var i := 0;
    while i < |rows|
      invariant 0 <= i <= |rows|
      invariant db.committed == t0
      invariant db.current == t0.With(s, Load(t0.Get(s), t0.Get(s), rows[..i]))
      invariant rowsSeen <==> i > 0
    {
      assert rows[..i + 1][..i] == rows[..i];
      rowsSeen := true;
      var key := rows[i].0;
      if key in db.current.Get(s) {
        db.Rollback();
        assert t0.With(s, t0.Get(s)) == t0;
      } else {
        db.current := db.current.With(s, db.current.Get(s)[key := rows[i].1]);
      }
      i := i + 1;
    }
    assert rows[..i] == rows;
    if !rowsSeen {
      assert t0.With(s, t0.Get(s)) == t0;
    }
  }

  /** One section block: read the data table, insert its melted rows, and
      commit when there was a row. */
  method IngestSection(db: Session, s: Series, ticker: string, page: Page) returns (r: Result<Bit>)
    requires db.current == db.committed
    modifies db
    ensures var l := LoadSection(s, ticker, page, old(db.current).Get(s));
      && (r.Err? <==> l.Err?)
      && (r.Err? ==> r.error == l.error && db.current == old(db.current))
      && (r.Ok? ==> r.value == l.value.flag && db.current == old(db.current).With(s, l.value.table))
    ensures db.committed == db.current
  {
    var tb := SectionTable(page, SectionId(s));
    if tb.None? {
      assert db.current.With(s, db.current.Get(s)) == db.current;
      return Ok(0);
    }
    if tb.value.Unreadable? {
      return Err(tb.value.error);
    }
    var rowsSeen := InsertRows(db, s, SeriesRows(s, ticker, tb.value.grid));
    if rowsSeen {
      db.Commit();
      return Ok(1);
    }
    return Ok(0);
  }

  /** `_run_ingestion_once`: choose the page, store its snapshot, write the
      ratios, load the three sections and compute the derived metrics,
      committing after each stage. */
  method RunIngestionOnce(db: Session, ticker: string, date: Day, a: Attempt) returns (r: Result<Flags>)
    modifies db
    ensures var run := IngestOnce(old(db.current), ticker, date, a);
      r == run.outcome && db.current == run.tables
    ensures SelectPage(a).Ok? ==> db.committed == db.current
    ensures SelectPage(a).Err? ==> db.committed == old(db.committed)
  {
    if a.consolidated.HttpError? {
      return Err(a.consolidated.message);
    }
    var page := a.consolidated.page;
    if !HasValidAnnualData(page) {
      if a.standalone.HttpError? {
        return Err(a.standalone.message);
      }
      page := a.standalone.page;
    }
    db.current := db.current.(snapshots := db.current.snapshots[SnapshotKeyOf(ticker, date) := page.html]);
    db.Commit();

    var ratiosDone := WriteRatioItems(db, ticker, date, page.ratioItems);
    db.Commit();

    ghost var t2 := db.current;
    var q := IngestSection(db, Quarterly, ticker, page);
    if q.Err? {
      return Err(q.error);
    }
    ghost var t3 := db.current;
    assert t3 == t2.(quarterly := t3.quarterly);
    var an := IngestSection(db, Annual, ticker, page);
    if an.Err? {
      return Err(an.error);
    }
    ghost var t4 := db.current;
    assert t4 == t3.(annual := t4.annual);
    var h := IngestSection(db, Shareholding, ticker, page);
    if h.Err? {
      return Err(h.error);
    }
    ghost var t5 := db.current;
    assert t5 == t4.(shareholding := t5.shareholding);
    var derived := ComputeAndStoreDerivedMetrics(db, ticker, date);
    return Ok(Flags(ratiosDone, q.value, an.value, h.value, if derived then 1 else 0));
  }

  // ---------------------------------------------------------------------
  // Retrying
  // ---------------------------------------------------------------------

  function Pow2(n: nat): (p: nat)
    ensures p >= 1
  {
    if n == 0 then 1 else 2 * Pow2(n - 1)
  }

  /** The wait after failed attempt `k`: `BASE_BACKOFF_SECONDS * 2 ** (k - 1)`. */
  function Backoff(k: nat): nat
    requires k >= 1
  {
    BaseBackoffSeconds * Pow2(k - 1)
  }

  /** One pass of the job: from the tables and what the attempt fetches,
      its outcome and the tables it leaves. */
  type Pass = (Tables, Attempt) -> Run

  /** The pass the job runs: `_run_ingestion_once` for the ticker, dated today. */
  function PassOf(ticker: string, today: Day): Pass {
    (t, a) => IngestOnce(t, ticker, today, a)
  }

  /** `pass` is the job's pass for the ticker, dated today. */
  ghost predicate IsJobPass(pass: Pass, ticker: string, today: Day) {
    forall t, a {:trigger IngestOnce(t, ticker, today, a)} :: pass(t, a) == IngestOnce(t, ticker, today, a)
  }

  lemma PassOfIsJobPass(ticker: string, today: Day)
    ensures IsJobPass(PassOf(ticker, today), ticker, today)
  {
  }

  /** A pass that leaves the status table alone. */
  ghost predicate KeepsStatus(pass: Pass) {
    forall t, a :: pass(t, a).tables.status == t.status
  }

  /** The tables the job leaves and the waits it made between attempts. */
  datatype Outcome = Outcome(tables: Tables, waits: seq<nat>)

  /** Attempts `k` to `MaxRetries`: a pass that succeeds records COMPLETE
      with its flags; the last failure records FAILED with its error and all
      flags 0; any other failure waits and tries again. */
  function Retry(pass: Pass, t: Tables, ticker: string, today: Day, attempts: seq<Attempt>, k: nat): Outcome
    requires |attempts| == MaxRetries && 1 <= k <= MaxRetries
    decreases MaxRetries - k
  {
    var run := pass(t, attempts[k - 1]);
    if run.outcome.Ok? then
      Outcome(Upsert(run.tables, ticker, NewRow(Complete, today, None, run.outcome.value)), [])
    else if k == MaxRetries then
      Outcome(Upsert(run.tables, ticker, NewRow(Failed, today, Some(run.outcome.error), NoFlags)), [])
    else
      var rest := Retry(pass, run.tables, ticker, today, attempts, k + 1);
      Outcome(rest.tables, [Backoff(k)] + rest.waits)
  }

  /** `fetch_and_store_fundamentals`: IN_PROGRESS first, then the attempts. */
  function FetchAndStore(t: Tables, ticker: string, today: Day, attempts: seq<Attempt>): Outcome
    requires |attempts| == MaxRetries
  {
    Retry(PassOf(ticker, today), Upsert(t, ticker, NewRow(InProgress, today, None, NoFlags)), ticker, today, attempts, 1)
  }

  /** A final status row dated today: COMPLETE without an error, or FAILED
      with an error, every flag 0 and progress 0. */
  predicate Settled(row: StatusRow, today: Day) {
    && row.lastUpdated == today
    && (|| (row.status == Complete && row.error.None?)
        || (row.status == Failed && row.error.Some? && row.flags == NoFlags && row.progress == 0))
  }

  /** Attempts `k` onwards leave the ticker settled; a FAILED row comes
      after a wait for every attempt but the last. */
  lemma {:induction false} RetryRow(pass: Pass, t: Tables, ticker: string, today: Day, attempts: seq<Attempt>, k: nat)
    requires |attempts| == MaxRetries && 1 <= k <= MaxRetries
    ensures var o := Retry(pass, t, ticker, today, attempts, k);
      && ticker in o.tables.status
      && Settled(o.tables.status[ticker], today)
      && (o.tables.status[ticker].status == Failed ==> |o.waits| == MaxRetries - k)
    decreases MaxRetries - k
  {
    var run := pass(t, attempts[k - 1]);
    if run.outcome.Err? && k < MaxRetries {
      RetryRow(pass, run.tables, ticker, today, attempts, k + 1);
    }
  }

  /** The waits after attempts `k` onwards are `Backoff(k)`, `Backoff(k + 1)`,
      ..., one per failure followed by another attempt. */
  lemma {:induction false} RetryWaits(pass: Pass, t: Tables, ticker: string, today: Day, attempts: seq<Attempt>, k: nat)
    requires |attempts| == MaxRetries && 1 <= k <= MaxRetries
    ensures var o := Retry(pass, t, ticker, today, attempts, k);
      && |o.waits| <= MaxRetries - k
      && forall i | 0 <= i < |o.waits| :: o.waits[i] == Backoff(k + i)
    decreases MaxRetries - k
  {
    var run := pass(t, attempts[k - 1]);
    if run.outcome.Err? && k < MaxRetries {
      RetryWaits(pass, run.tables, ticker, today, attempts, k + 1);
      var rest := Retry(pass, run.tables, ticker, today, attempts, k + 1);
      var o := Retry(pass, t, ticker, today, attempts, k);
      assert o.waits == [Backoff(k)] + rest.waits;
      forall i | 0 <= i < |o.waits|
        ensures o.waits[i] == Backoff(k + i)
      {
        if i > 0 {
          assert o.waits[i] == rest.waits[i - 1];
        }
      }
    }
  }

  /** With passes that keep the status table, the other tickers' rows are
      those of `t` and no other ticker appears. */
  lemma {:induction false} RetryOthers(pass: Pass, t: Tables, ticker: string, today: Day, attempts: seq<Attempt>, k: nat)
    requires KeepsStatus(pass)
    requires |attempts| == MaxRetries && 1 <= k <= MaxRetries
    ensures var o := Retry(pass, t, ticker, today, attempts, k);
      && (forall other | other in t.status && other != ticker ::
            other in o.tables.status && o.tables.status[other] == t.status[other])
      && (forall other | other in o.tables.status && other != ticker :: other in t.status)
    decreases MaxRetries - k
  {
    var run := pass(t, attempts[k - 1]);
    assert run.tables.status == t.status;
    if run.outcome.Err? && k < MaxRetries {
      RetryOthers(pass, run.tables, ticker, today, attempts, k + 1);
    }
  }

  /** The job never leaves the ticker IN_PROGRESS, waits 2 then 4 seconds
      at most, and leaves other tickers' rows alone. */
  lemma FetchAndStoreSettles(t: Tables, ticker: string, today: Day, attempts: seq<Attempt>)
    requires |attempts| == MaxRetries
    ensures var o := FetchAndStore(t, ticker, today, attempts);
      && ticker in o.tables.status
      && o.tables.status[ticker].status != InProgress
      && o.tables.status[ticker].lastUpdated == today
      && (o.tables.status[ticker].status == Failed ==> o.waits == [2, 4] && o.tables.status[ticker].flags == NoFlags)
      && |o.waits| <= 2
      && (forall i | 0 <= i < |o.waits| :: o.waits[i] == [2, 4][i])
      && forall other | other in t.status && other != ticker ::
           other in o.tables.status && o.tables.status[other] == t.status[other]
  {
    var t0 := Upsert(t, ticker, NewRow(InProgress, today, None, NoFlags));
    var pass := PassOf(ticker, today);
    assert KeepsStatus(pass) by {
      forall t1, a | true
        ensures pass(t1, a).tables.status == t1.status
      {
        assert pass(t1, a) == IngestOnce(t1, ticker, today, a);
      }
    }
    RetryRow(pass, t0, ticker, today, attempts, 1);
    RetryWaits(pass, t0, ticker, today, attempts, 1);
    RetryOthers(pass, t0, ticker, today, attempts, 1);
    assert Backoff(1) == 2 && Backoff(2) == 4;
  }

  /** Attempt `k` of the job: a pass, then the final status row when it
      succeeded or was the last; `done` says whether the job ends here. */
  method RunAttempt(db: Session, ticker: string, today: Day, attempts: seq<Attempt>, k: nat, ghost pass: Pass)
    returns (done: bool)
    requires IsJobPass(pass, ticker, today)
    requires |attempts| == MaxRetries && 1 <= k <= MaxRetries
    modifies db
    ensures var run := pass(old(db.current), attempts[k - 1]);
      done <==> run.outcome.Ok? || k == MaxRetries
    ensures done ==> Retry(pass, old(db.current), ticker, today, attempts, k) == Outcome(db.current, [])
                     && db.committed == db.current
    ensures !done ==> var rest := Retry(pass, db.current, ticker, today, attempts, k + 1);
      Retry(pass, old(db.current), ticker, today, attempts, k) == Outcome(rest.tables, [Backoff(k)] + rest.waits)
  {
    var r := RunIngestionOnce(db, ticker, today, attempts[k - 1]);
    assert pass(old(db.current), attempts[k - 1]) == Run(r, db.current);
    if r.Ok? {
      UpdateStatus(db, ticker, Complete, None, r.value, today);
      return true;
    }
    if k == MaxRetries {
      UpdateStatus(db, ticker, Failed, Some(r.error), NoFlags, today);
      return true;
    }
    return false;
  }

  /** `fetch_and_store_fundamentals` with the pages each attempt would
      fetch given as `attempts`; answers the waits it made. */
  method FetchAndStoreFundamentals(db: Session, ticker: string, today: Day, attempts: seq<Attempt>)
    returns (waits: seq<nat>)
    requires |attempts| == MaxRetries
    modifies db
    ensures var o := FetchAndStore(old(db.current), ticker, today, attempts);
      db.current == o.tables && waits == o.waits
    ensures db.committed == db.current
  {
    UpdateStatus(db, ticker, InProgress, None, NoFlags, today);
    PassOfIsJobPass(ticker, today);
    waits := RunAttempts(db, ticker, today, attempts, PassOf(ticker, today));
  }

  /** The attempts of the job, each after the wait the one before asked for. */
  method RunAttempts(db: Session, ticker: string, today: Day, attempts: seq<Attempt>, ghost pass: Pass)
    returns (waits: seq<nat>)
    requires IsJobPass(pass, ticker, today)
    requires |attempts| == MaxRetries
    modifies db
    ensures var o := Retry(pass, old(db.current), ticker, today, attempts, 1);
      db.current == o.tables && waits == o.waits
    ensures db.committed == db.current
  {
    ghost var goal := Retry(pass, db.current, ticker, today, attempts, 1);
    waits := [];
    var attempt := 1;
    var done := false;
    while !done
      invariant 1 <= attempt <= MaxRetries
      invariant !done ==> goal == Remaining(pass, db.current, ticker, today, attempts, attempt, waits)
      invariant done ==> goal == Outcome(db.current, waits) && db.committed == db.current
      decreases MaxRetries - attempt, if done then 0 else 1
    {
      done, waits := RunAttemptAfter(db, ticker, today, attempts, attempt, waits, pass);
      if !done {
        attempt := attempt + 1;
      }
    }
  }

  /** What the attempts from `k` on add to the waits made so far. */
  function Remaining(pass: Pass, t: Tables, ticker: string, today: Day, attempts: seq<Attempt>, k: nat,
                 waits: seq<nat>): Outcome
    requires |attempts| == MaxRetries && 1 <= k <= MaxRetries
  {
    var rest := Retry(pass, t, ticker, today, attempts, k);
    Outcome(rest.tables, waits + rest.waits)
  }

  /** Attempt `k` after the waits made so far. */
  method RunAttemptAfter(db: Session, ticker: string, today: Day, attempts: seq<Attempt>, k: nat,
                         waits: seq<nat>, ghost pass: Pass)
    returns (done: bool, waits': seq<nat>)
    requires IsJobPass(pass, ticker, today)
    requires |attempts| == MaxRetries && 1 <= k <= MaxRetries
    modifies db
    ensures !done ==> k < MaxRetries
    ensures var before := Remaining(pass, old(db.current), ticker, today, attempts, k, waits);
      if done then before == Outcome(db.current, waits') && db.committed == db.current
      else before == Remaining(pass, db.current, ticker, today, attempts, k + 1, waits')
  {
    done := RunAttempt(db, ticker, today, attempts, k, pass);
    if done {
      assert waits + [] == waits;
      waits' := waits;
    } else {
      ghost var rest := Retry(pass, db.current, ticker, today, attempts, k + 1);
      assert waits + ([Backoff(k)] + rest.waits) == (waits + [Backoff(k)]) + rest.waits;
      waits' := waits + [Backoff(k)];
    }
  }
}
