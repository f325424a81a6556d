/** The screener agent's tools: the same reads as the stand-alone tools,
    with the ticker upper-cased everywhere and the status as a sentence. */
module ScreenerAgent {
  import opened Wrappers
  import opened Text
  import opened Store
  import opened Ingestion
  import opened ReadSide

  /** `ingest_fundamentals`: runs the job for the upper-cased ticker and
      names it upper-cased. */
  method IngestFundamentals(db: Session, ticker: string, today: Day, attempts: seq<Attempt>) returns (msg: string)
    requires |attempts| == MaxRetries
    modifies db
    ensures db.current == FetchAndStore(old(db.current), Upper(ticker), today, attempts).tables
    ensures db.committed == db.current
    ensures msg == "Ingestion triggered for " + Upper(ticker)
  {
    var tk := Upper(ticker);
    var _ := FetchAndStoreFundamentals(db, tk, today, attempts);
    msg := "Ingestion triggered for " + tk;
  }

  /** `str(n)` for any integer. */
  function IntText(n: int): string {
    if n < 0 then "-" + NatToString(-n) else NatToString(n)
  }

  /** `int(str(n)) == n`: the digits read back as the number, after a minus
      sign when it is negative. */
  lemma IntTextReadsBack(n: int)
    ensures var r := IntText(n);
      && (n >= 0 ==> AllDigits(r) && DigitsValue(r) == n)
      && (n < 0 ==> |r| > 1 && r[0] == '-' && AllDigits(r[1..]) && DigitsValue(r[1..]) == -n)
  {
    if n < 0 {
      NatToStringRoundTrip(-n);
      assert IntText(n)[1..] == NatToString(-n);
    } else {
      NatToStringRoundTrip(n);
    }
  }

  /** `check_data_status`: "No data found", or the status and progress as
      a sentence. */
  function CheckDataStatus(t: Tables, ticker: string): (r: string)
    ensures Upper(ticker) !in t.status ==> r == "No data found"
    ensures Upper(ticker) in t.status ==> StartsWith(r, "Status=") && r[|r| - 1] == '%'
  {
    var tk := Upper(ticker);
    if tk !in t.status then "No data found"
    else
      var row := t.status[tk];
      "Status=" + StatusName(row.status) + ", Progress=" + IntText(row.progress) + "%"
  }

  /** The sentence shows the stored status name and a number that reads
      back as the stored progress. */
  lemma StatusTextShowsRow(t: Tables, ticker: string)
    requires Upper(ticker) in t.status && t.status[Upper(ticker)].progress >= 0
    ensures var row := t.status[Upper(ticker)];
      exists d | AllDigits(d) && DigitsValue(d) == row.progress ::
        CheckDataStatus(t, ticker) == "Status=" + StatusName(row.status) + ", Progress=" + d + "%"
  {
    var row := t.status[Upper(ticker)];
    var d := IntText(row.progress);
    IntTextReadsBack(row.progress);
    assert AllDigits(d) && DigitsValue(d) == row.progress;
  }

  /** Upper-casing makes the tools blind to the case of the ticker. */
  lemma CheckDataStatusIgnoresCase(t: Tables, ticker: string)
    ensures CheckDataStatus(t, ticker) == CheckDataStatus(t, Upper(ticker))
  {
    UpperIdempotent(ticker);
  }

  /** `get_fundamentals`: the rows of the upper-cased ticker, the annual
      rows split three ways, and no quarterly rows. */
  method GetFundamentals(t: Tables, ticker: string, order: seq<SeriesKey>) returns (b: Bundle)
    requires ListsTickerRows(t.annual, Upper(ticker), order)
    ensures forall k :: k in b.ratios <==> k in t.ratios && k.ticker == Upper(ticker)
    ensures forall k | k in b.ratios :: b.ratios[k] == t.ratios[k]
    ensures b.quarterly.None?
    ensures b.shareholding == SeriesOf(t.shareholding, Upper(ticker))
    ensures var rows := AnnualRecords(t.annual, order);
      && b.annualFinancials == Bucket(rows, ProfitLoss)
      && b.balanceSheet == Bucket(rows, BalanceSheet)
      && b.cashFlows == Bucket(rows, CashFlow)
  {
    b := ReadFundamentals(t, Upper(ticker), order, false);
  }
}
