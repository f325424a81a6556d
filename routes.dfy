/** The fundamentals endpoints: which stored status, and how fresh the
    data is, decide whether an ingestion is handed to the background, and
    what each endpoint answers. */
module Routes {
  import opened Wrappers
  import opened Text
  import opened Store
  import opened Freshness

  /** `DATA_TTL_DAYS`. */
  const DataTtlDays: int := 30

  /** The five section booleans of a status answer. */
  datatype Sections = Sections(ratios: bool, quarterly: bool, annual: bool, shareholding: bool, derived: bool)

  const NoSections := Sections(false, false, false, false, false)

  /** `bool(row["..._done"])` for each flag. */
  function SectionsOf(f: Flags): (s: Sections)
    ensures s == NoSections <==> f == NoFlags
    ensures s == Sections(true, true, true, true, true) <==> f == Flags(1, 1, 1, 1, 1)
  {
    Sections(f.ratios != 0, f.quarterly != 0, f.annual != 0, f.shareholding != 0, f.derived != 0)
  }

  // ---------------------------------------------------------------------
  // GET /fundamentals/{ticker}
  // ---------------------------------------------------------------------

  /** The ticker's rows of the three tables the ready answer returns. */
  datatype Stored = Stored(ratios: map<RatioKey, RatioRow>, quarterly: map<SeriesKey, Option<real>>,
                           annual: map<SeriesKey, Option<real>>)

  /** The answers of `get_fundamentals`. */
  datatype Reply =
    | Forced(ticker: string)                                    // "forced"
    | Started(ticker: string)                                   // "processing", ingestion started
    | Processing(ticker: string, progress: int, sections: Sections) // "processing", with progress
    | Stale(ticker: string, progress: int)                      // "stale"
    | Ready(ticker: string, progress: int, data: Stored)        // "ready"

  /** An answer and the tickers handed to `fetch_and_store_fundamentals`
      in the background, in order. */
  datatype Response = Response(reply: Reply, scheduled: seq<string>)

  /** `get_fundamentals`, on the tables as they are when the request runs. */
  function GetFundamentals(t: Tables, ticker: string, force: bool, today: Day): (r: Response)
    ensures r.reply.ticker == Upper(ticker)
    ensures |r.scheduled| <= 1
    ensures forall x | x in r.scheduled :: x == Upper(ticker)
  {
    var tk := Upper(ticker);
    if force then Response(Forced(tk), [tk])
    else if tk !in t.status || t.status[tk].status in {Pending, Failed} then Response(Started(tk), [tk])
    else
      var row := t.status[tk];
      if row.status == InProgress then Response(Processing(tk, row.progress, SectionsOf(row.flags)), [])
      else if !IsDataFresh(t.ratios, tk, DataTtlDays, today) then Response(Stale(tk, row.progress), [tk])
      else Response(Ready(tk, 100, Stored(RatiosOf(t.ratios, tk), SeriesOf(t.quarterly, tk), SeriesOf(t.annual, tk))), [])
  }

  /** When an ingestion starts: when forced; when the ticker has no status
      row or one PENDING or FAILED; or when its row is neither IN_PROGRESS
      nor backed by fresh data. */
  predicate StartsIngestion(t: Tables, tk: string, force: bool, today: Day) {
    || force
    || tk !in t.status
    || t.status[tk].status == Pending
    || t.status[tk].status == Failed
    || (t.status[tk].status != InProgress && !IsDataFresh(t.ratios, tk, DataTtlDays, today))
  }

  /** The ticker is scheduled exactly once when an ingestion starts, and
      nothing is scheduled otherwise. */
  lemma GetFundamentalsSchedules(t: Tables, ticker: string, force: bool, today: Day)
    ensures GetFundamentals(t, ticker, force, today).scheduled ==
      (if StartsIngestion(t, Upper(ticker), force, today) then [Upper(ticker)] else [])
  {
  }

  /** A forced request answers "forced" whatever the status table holds. */
  lemma ForcedIgnoresStatus(t1: Tables, t2: Tables, ticker: string, today: Day)
    ensures GetFundamentals(t1, ticker, true, today) == GetFundamentals(t2, ticker, true, today)
    ensures GetFundamentals(t1, ticker, true, today).reply.Forced?
  {
  }

  /** Which answer each stored state gets, for a request that is not forced. */
  lemma GetFundamentalsReply(t: Tables, ticker: string, today: Day)
    ensures var tk := Upper(ticker);
      var r := GetFundamentals(t, ticker, false, today).reply;
      && (r.Started? <==> tk !in t.status || t.status[tk].status in {Pending, Failed})
      && (r.Processing? <==> tk in t.status && t.status[tk].status == InProgress)
      && (r.Processing? ==> r.progress == t.status[tk].progress && r.sections == SectionsOf(t.status[tk].flags))
      && (r.Stale? <==> tk in t.status && t.status[tk].status in {NotStarted, Complete}
                        && !IsDataFresh(t.ratios, tk, DataTtlDays, today))
      && (r.Stale? ==> r.progress == t.status[tk].progress)
      && (r.Ready? <==> tk in t.status && t.status[tk].status in {NotStarted, Complete}
                        && IsDataFresh(t.ratios, tk, DataTtlDays, today))
      && !r.Forced?
  {
  }

  /** A ready answer reports 100% and returns exactly the ticker's rows. */
  lemma ReadyHoldsTickerRows(t: Tables, ticker: string, force: bool, today: Day)
    requires GetFundamentals(t, ticker, force, today).reply.Ready?
    ensures var r := GetFundamentals(t, ticker, force, today).reply;
      && r.progress == 100
      && (forall k :: k in r.data.ratios <==> k in t.ratios && k.ticker == Upper(ticker))
      && (forall k :: k in r.data.annual <==> k in t.annual && k.ticker == Upper(ticker))
      && (forall k :: k in r.data.quarterly <==> k in t.quarterly && k.ticker == Upper(ticker))
      && (forall k | k in r.data.ratios :: r.data.ratios[k] == t.ratios[k])
  {
  }

  // ---------------------------------------------------------------------
  // GET /fundamentals/{ticker}/status and POST /fundamentals/status/bulk
  // ---------------------------------------------------------------------

  /** One status answer; `lastUpdated` and `error` are `None` where the
      answer has no such key. */
  datatype StatusReply = StatusReply(ticker: string, status: string, progress: int, sections: Sections,
                                     lastUpdated: Option<Day>, error: Option<Option<string>>)

  /** The answer for a ticker without a status row. */
  function NotStartedReply(tk: string): StatusReply {
    StatusReply(tk, "NOT_STARTED", 0, NoSections, None, None)
  }

  /** `get_fundamental_status`. */
  function GetFundamentalStatus(t: Tables, ticker: string): (r: StatusReply)
    ensures r.ticker == Upper(ticker)
    ensures Upper(ticker) !in t.status ==> r == NotStartedReply(Upper(ticker))
  {
    var tk := Upper(ticker);
    if tk !in t.status then NotStartedReply(tk)
    else
      var row := t.status[tk];
      StatusReply(tk, StatusName(row.status), row.progress, SectionsOf(row.flags), Some(row.lastUpdated), Some(row.error))
  }

  /** The status answer shows the stored row; "NOT_STARTED" comes from a
      missing row or a stored NOT_STARTED. */
  lemma StatusReplyShowsRow(t: Tables, ticker: string)
    ensures var tk := Upper(ticker);
      var r := GetFundamentalStatus(t, ticker);
      && (r.status == "NOT_STARTED" <==> tk !in t.status || t.status[tk].status == NotStarted)
      && (tk in t.status ==> r.progress == t.status[tk].progress && r.sections == SectionsOf(t.status[tk].flags)
                             && r.lastUpdated == Some(t.status[tk].lastUpdated) && r.error == Some(t.status[tk].error))
  {
    var tk := Upper(ticker);
    if tk in t.status {
      StatusNamesDiffer(t.status[tk].status);
    }
  }

  /** Only NOT_STARTED is named "NOT_STARTED". */
  lemma StatusNamesDiffer(s: Status)
    ensures StatusName(s) == "NOT_STARTED" <==> s == NotStarted
  {
  }

  /** One entry of the bulk answer, looked up in the rows fetched for the
      batch. */
  function BulkEntry(rows: map<string, StatusRow>, tk: string): StatusReply {
    if tk !in rows then NotStartedReply(tk)
    else
      var row := rows[tk];
      StatusReply(tk, StatusName(row.status), row.progress, SectionsOf(row.flags), None, Some(row.error))
  }

  /** `[t.upper() for t in tickers]`. */
  function UpperAll(tickers: seq<string>): (r: seq<string>)
    ensures |r| == |tickers|
    ensures forall i | 0 <= i < |tickers| :: r[i] == Upper(tickers[i])
  {
    seq(|tickers|, i requires 0 <= i < |tickers| => Upper(tickers[i]))
  }

  /** `{row["ticker"]: row for row in rows}` for the rows of the batch's
      tickers. */
  function BatchRows(status: map<string, StatusRow>, tks: seq<string>): (r: map<string, StatusRow>)
    ensures forall tk | tk in tks :: (tk in r <==> tk in status) && (tk in r ==> r[tk] == status[tk])
  {
    map tk | tk in status && tk in tks :: status[tk]
  }

  /** `get_bulk_fundamental_status`: the status rows of the batch are read
      once into a dictionary, then one entry per ticker is appended. */
  method GetBulkFundamentalStatus(t: Tables, tickers: seq<string>) returns (count: nat, results: seq<StatusReply>)
    ensures |results| == |tickers| && count == |results|
    ensures forall i | 0 <= i < |tickers| :: results[i] == BulkEntry(t.status, Upper(tickers[i]))
  {
    var upper := UpperAll(tickers);
    var statusMap := BatchRows(t.status, upper);
    results := [];
    var i := 0;
    while i < |upper|
      invariant 0 <= i <= |upper|
      invariant |results| == i
      invariant forall j | 0 <= j < i :: results[j] == BulkEntry(t.status, upper[j])
    {
      var tk := upper[i];
      assert tk in upper;
      if tk !in statusMap {
        results := results + [NotStartedReply(tk)];
      } else {
        var row := statusMap[tk];
        results := results + [StatusReply(tk, StatusName(row.status), row.progress, SectionsOf(row.flags),
                                          None, Some(row.error))];
      }
      i := i + 1;
    }
    count := |results|;
  }

  /** Each bulk entry is the single-ticker status answer without its
      `last_updated`. */
  lemma BulkEntryIsStatus(t: Tables, ticker: string)
    ensures BulkEntry(t.status, Upper(ticker)) == GetFundamentalStatus(t, ticker).(lastUpdated := None)
  {
  }

  // ---------------------------------------------------------------------
  // POST /fundamentals/ingest/bulk
  // ---------------------------------------------------------------------

  predicate NoDuplicates(s: seq<string>) {
    forall i, j | 0 <= i < j < |s| :: s[i] != s[j]
  }

  /** `list(set(xs))`, listing each value once in the order of its first
      occurrence. */
  function Distinct(xs: seq<string>): (d: seq<string>)
    ensures forall x :: x in d <==> x in xs
    ensures NoDuplicates(d)
    ensures |d| <= |xs|
    decreases |xs|
  {
    if xs == [] then []
    else
      var d := Distinct(xs[..|xs| - 1]);
      var x := xs[|xs| - 1];
      assert forall y | y in xs :: y in xs[..|xs| - 1] || y == x;
      if x in d then d else d + [x]
  }

  /** A list without duplicates is as long as the set of its values. */
  lemma {:induction false} DistinctCount(d: seq<string>)
    requires NoDuplicates(d)
    ensures |set x | x in d| == |d|
    decreases |d|
  {
    if d != [] {
      var pre := d[..|d| - 1];
      var x := d[|d| - 1];
      DistinctCount(pre);
      assert (set y | y in d) == (set y | y in pre) + {x};
      assert x !in pre;
    }
  }

  /** A ticker gets an ingestion from the bulk trigger when it has no
      status row, or one NOT_STARTED or FAILED. */
  predicate NeedsTrigger(status: map<string, StatusRow>, tk: string) {
    tk !in status || status[tk].status == NotStarted || status[tk].status == Failed
  }

  /** The tickers of `tks` that need a trigger, in order. */
  function Triggered(status: map<string, StatusRow>, tks: seq<string>): (r: seq<string>)
    ensures |r| <= |tks|
    decreases |tks|
  {
    if tks == [] then []
    else
      var tk := tks[|tks| - 1];
      Triggered(status, tks[..|tks| - 1]) + (if NeedsTrigger(status, tk) then [tk] else [])
  }

  /** The triggered tickers are exactly those of the list that need a
      trigger, and a list without duplicates triggers none twice. */
  lemma {:induction false} TriggeredMembers(status: map<string, StatusRow>, tks: seq<string>)
    ensures forall x :: x in Triggered(status, tks) <==> x in tks && NeedsTrigger(status, x)
    ensures NoDuplicates(tks) ==> NoDuplicates(Triggered(status, tks))
    decreases |tks|
  {
    if tks != [] {
      var pre := tks[..|tks| - 1];
      var tk := tks[|tks| - 1];
      TriggeredMembers(status, pre);
      assert forall y | y in tks :: y in pre || y == tk;
      assert forall y | y in pre :: y in tks;
      if NoDuplicates(tks) {
        assert NoDuplicates(pre);
        assert tk !in pre;
      }
    }
  }

  /** The deduplicated list has one entry per distinct value. */
  lemma DistinctSize(xs: seq<string>)
    ensures |Distinct(xs)| == |set x | x in xs|
  {
    var d := Distinct(xs);
    DistinctCount(d);
    assert (set x | x in d) == (set x | x in xs);
  }

  /** The loop of `bulk_trigger_ingestion`: look up each ticker's status
      row and schedule an ingestion for those that need one. */
  method TriggerEach(t: Tables, tks: seq<string>) returns (triggered: seq<string>, scheduled: seq<string>)
    ensures triggered == Triggered(t.status, tks)
    ensures scheduled == triggered
  {
    triggered := [];
    scheduled := [];
    var i := 0;
    while i < |tks|
      invariant 0 <= i <= |tks|
      invariant triggered == Triggered(t.status, tks[..i])
      invariant scheduled == triggered
    {
      var tk := tks[i];
      assert tks[..i + 1][..i] == tks[..i];
      if tk !in t.status || t.status[tk].status in {NotStarted, Failed} {
        scheduled := scheduled + [tk];
        triggered := triggered + [tk];
      }
      i := i + 1;
    }
    assert tks[..i] == tks;
  }

  /** `bulk_trigger_ingestion`: upper-case and deduplicate the tickers, then
      trigger those that need an ingestion. */
  method BulkTriggerIngestion(t: Tables, tickers: seq<string>)
    returns (requested: nat, triggered: seq<string>, scheduled: seq<string>)
    ensures requested == |set x | x in UpperAll(tickers)|
    ensures forall x :: x in triggered <==> x in UpperAll(tickers) && NeedsTrigger(t.status, x)
    ensures NoDuplicates(triggered)
    ensures |triggered| <= requested
    ensures scheduled == triggered
  {
    var tks := Distinct(UpperAll(tickers));
    triggered, scheduled := TriggerEach(t, tks);
    TriggeredMembers(t.status, tks);
    DistinctSize(UpperAll(tickers));
    requested := |tks|;
  }
}
