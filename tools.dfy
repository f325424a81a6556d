/** The agent tools over the stored fundamentals: trigger an ingestion,
    read a ticker's rows, report its status and staleness. The ticker is
    upper-cased only for the ingestion. */
module FundamentalsTools {
  import opened Wrappers
  import opened Text
  import opened Store
  import opened Freshness
  import opened Ingestion
  import opened ReadSide
  import Routes

  /** `ingest_fundamentals`: runs the job for the upper-cased ticker and
      answers with the ticker as it was given. */
  method IngestFundamentals(db: Session, ticker: string, today: Day, attempts: seq<Attempt>) returns (msg: string)
    requires |attempts| == MaxRetries
    modifies db
    ensures db.current == FetchAndStore(old(db.current), Upper(ticker), today, attempts).tables
    ensures db.committed == db.current
    ensures msg == "Ingestion triggered for " + ticker
  {
    var _ := FetchAndStoreFundamentals(db, Upper(ticker), today, attempts);
    msg := "Ingestion triggered for " + ticker;
  }

  /** `get_fundamentals`: the rows of the ticker exactly as given, the
      annual rows split three ways, and the quarterly rows. */
  method GetFundamentals(t: Tables, ticker: string, order: seq<SeriesKey>) returns (b: Bundle)
    requires ListsTickerRows(t.annual, ticker, order)
    ensures forall k :: k in b.ratios <==> k in t.ratios && k.ticker == ticker
    ensures forall k | k in b.ratios :: b.ratios[k] == t.ratios[k]
    ensures b.quarterly.Some? && b.quarterly.value == SeriesOf(t.quarterly, ticker)
    ensures b.shareholding == SeriesOf(t.shareholding, ticker)
    ensures var rows := AnnualRecords(t.annual, order);
      && b.annualFinancials == Bucket(rows, ProfitLoss)
      && b.balanceSheet == Bucket(rows, BalanceSheet)
      && b.cashFlows == Bucket(rows, CashFlow)
  {
    b := ReadFundamentals(t, ticker, order, true);
  }

  /** The answer of `check_data_status`: only the NOT_STARTED status, or
      the row's status, whether the data is stale, and the progress. */
  datatype DataStatus = NotStartedOnly | Info(status: string, stale: bool, progress: int)

  /** `check_data_status`, with the ticker as given. */
  function CheckDataStatus(t: Tables, ticker: string, today: Day): (r: DataStatus)
    ensures r.NotStartedOnly? <==> ticker !in t.status
    ensures r.Info? ==> r.status == StatusName(t.status[ticker].status) && r.progress == t.status[ticker].progress
  {
    if ticker !in t.status then NotStartedOnly
    else
      var row := t.status[ticker];
      var stale := !IsDataFresh(t.ratios, ticker, Routes.DataTtlDays, today);
      Info(StatusName(row.status), stale, row.progress)
  }

  /** Stale means no ratio row of the ticker was scraped in the last
      `DataTtlDays` days, whatever the status row says. */
  lemma StaleIffNoRecentRow(t: Tables, ticker: string, today: Day)
    requires ticker in t.status
    ensures CheckDataStatus(t, ticker, today).stale <==>
      forall k | k in t.ratios && k.ticker == ticker :: k.date < today - 30
  {
    FreshIffRecentRow(t.ratios, ticker, Routes.DataTtlDays, today);
  }

  /** A ticker whose status row exists but whose ratio rows were stored
      under another spelling (the ingestion upper-cases, this tool does
      not) is always reported stale. */
  lemma LowerCaseTickerIsStale(t: Tables, ticker: string, today: Day)
    requires ticker in t.status
    requires forall k | k in t.ratios :: k.ticker != ticker
    ensures CheckDataStatus(t, ticker, today).stale
  {
  }
}
