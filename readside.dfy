/** The read side shared by the agent tools: annual rows split into profit
    and loss, balance sheet and cash flow lists by a prefix on the metric
    name, the prefix removed once. */
module ReadSide {
  import opened Wrappers
  import opened Text
  import opened Store

  /** A row of `annual_financials` as the tools return it. */
  datatype AnnualRecord = AnnualRecord(ticker: string, fiscalYear: string, metric: string, value: Option<real>)

  const BalancePrefix: string := "balance_sheet:"
  const CashPrefix: string := "cash_flow:"

  /** The list a row goes to. */
  datatype Kind = ProfitLoss | BalanceSheet | CashFlow

  /** `startswith("balance_sheet:")` is tested first, then
      `startswith("cash_flow:")`. */
  function KindOf(metric: string): Kind {
    if StartsWith(metric, BalancePrefix) then BalanceSheet
    else if StartsWith(metric, CashPrefix) then CashFlow
    else ProfitLoss
  }

  /** `replace(prefix, "", 1)` on the row's metric for the two prefixed
      lists; a profit-and-loss row is kept as it is. */
  function Relabel(r: AnnualRecord): AnnualRecord {
    match KindOf(r.metric)
    case BalanceSheet => r.(metric := ReplaceFirst(r.metric, BalancePrefix, ""))
    case CashFlow => r.(metric := ReplaceFirst(r.metric, CashPrefix, ""))
    case ProfitLoss => r
  }

  /** Replacing a prefix the text starts with drops it. */
  lemma ReplaceFirstPrefix(s: string, p: string)
    requires p != [] && StartsWith(s, p)
    ensures ReplaceFirst(s, p, "") == s[|p|..]
  {
    assert "" + s[|p|..] == s[|p|..];
  }

  /** Relabelling removes exactly the prefix that chose the list, keeps the
      other fields, and can be undone by putting the prefix back. */
  lemma RelabelRestores(r: AnnualRecord)
    ensures var x := Relabel(r);
      && x.ticker == r.ticker && x.fiscalYear == r.fiscalYear && x.value == r.value
      && (KindOf(r.metric) == BalanceSheet ==> BalancePrefix + x.metric == r.metric)
      && (KindOf(r.metric) == CashFlow ==> CashPrefix + x.metric == r.metric)
      && (KindOf(r.metric) == ProfitLoss ==> x == r)
  {
    match KindOf(r.metric)
    case BalanceSheet =>
      ReplaceFirstPrefix(r.metric, BalancePrefix);
      assert r.metric == r.metric[..|BalancePrefix|] + r.metric[|BalancePrefix|..];
    case CashFlow =>
      ReplaceFirstPrefix(r.metric, CashPrefix);
      assert r.metric == r.metric[..|CashPrefix|] + r.metric[|CashPrefix|..];
    case ProfitLoss =>
  }

  /** The list of kind `k`: the rows of that kind, relabelled, in order. */
  function Bucket(rows: seq<AnnualRecord>, k: Kind): seq<AnnualRecord>
    decreases |rows|
  {
    if rows == [] then []
    else
      var last := rows[|rows| - 1];
      Bucket(rows[..|rows| - 1], k) + (if KindOf(last.metric) == k then [Relabel(last)] else [])
  }

  /** The loop of `get_fundamentals` over the annual rows. */
  method PartitionAnnual(annual: seq<AnnualRecord>)
    returns (profitLoss: seq<AnnualRecord>, balanceSheet: seq<AnnualRecord>, cashFlows: seq<AnnualRecord>)
    ensures profitLoss == Bucket(annual, ProfitLoss)
    ensures balanceSheet == Bucket(annual, BalanceSheet)
    ensures cashFlows == Bucket(annual, CashFlow)
  {
    profitLoss, balanceSheet, cashFlows := [], [], [];
    for i := 0 to |annual|
      invariant profitLoss == Bucket(annual[..i], ProfitLoss)
      invariant balanceSheet == Bucket(annual[..i], BalanceSheet)
      invariant cashFlows == Bucket(annual[..i], CashFlow)
    {
      var row := annual[i];
      assert annual[..i + 1][..i] == annual[..i];
      var metric := row.metric;
      if StartsWith(metric, BalancePrefix) {
        balanceSheet := balanceSheet + [row.(metric := ReplaceFirst(metric, BalancePrefix, ""))];
      } else if StartsWith(metric, CashPrefix) {
        cashFlows := cashFlows + [row.(metric := ReplaceFirst(metric, CashPrefix, ""))];
      } else {
        profitLoss := profitLoss + [row];
      }
    }
    assert annual[..|annual|] == annual;
  }

  /** Every row lands in exactly one list. */
  lemma {:induction false} PartitionSizes(rows: seq<AnnualRecord>)
    ensures |Bucket(rows, ProfitLoss)| + |Bucket(rows, BalanceSheet)| + |Bucket(rows, CashFlow)| == |rows|
    decreases |rows|
  {
    if rows != [] {
      PartitionSizes(rows[..|rows| - 1]);
    }
  }

  lemma BucketAppend(rows: seq<AnnualRecord>, r: AnnualRecord, k: Kind)
    ensures Bucket(rows + [r], k) == Bucket(rows, k) + (if KindOf(r.metric) == k then [Relabel(r)] else [])
  {
    assert (rows + [r])[..|rows|] == rows;
  }

  /** A bucket of a longer list of rows extends the bucket of a prefix. */
  lemma {:induction false} BucketPrefix(rows: seq<AnnualRecord>, n: nat, k: Kind)
    requires n <= |rows|
    ensures |Bucket(rows[..n], k)| <= |Bucket(rows, k)|
    ensures Bucket(rows, k)[..|Bucket(rows[..n], k)|] == Bucket(rows[..n], k)
    decreases |rows| - n
  {
    if n < |rows| {
      BucketPrefix(rows, n + 1, k);
      assert rows[..n + 1] == rows[..n] + [rows[n]];
      BucketAppend(rows[..n], rows[n], k);
    } else {
      assert rows[..n] == rows;
    }
  }

  /** Order is kept: row `i` appears, relabelled, in the list of its kind
      right after the rows of that kind before it. */
  lemma BucketPosition(rows: seq<AnnualRecord>, i: nat)
    requires i < |rows|
    ensures var k := KindOf(rows[i].metric);
      var j := |Bucket(rows[..i], k)|;
      j < |Bucket(rows, k)| && Bucket(rows, k)[j] == Relabel(rows[i])
  {
    var k := KindOf(rows[i].metric);
    assert rows[..i + 1] == rows[..i] + [rows[i]];
    BucketAppend(rows[..i], rows[i], k);
    BucketPrefix(rows, i + 1, k);
    var b := Bucket(rows[..i + 1], k);
    assert b[|b| - 1] == Relabel(rows[i]);
  }

  /** Nothing else enters a list: each entry is some row of that kind,
      relabelled. */
  lemma {:induction false} BucketMembers(rows: seq<AnnualRecord>, k: Kind)
    ensures forall x | x in Bucket(rows, k) :: exists i | 0 <= i < |rows| :: KindOf(rows[i].metric) == k && x == Relabel(rows[i])
    decreases |rows|
  {
    if rows != [] {
      var pre := rows[..|rows| - 1];
      BucketMembers(pre, k);
      forall x | x in Bucket(rows, k)
        ensures exists i | 0 <= i < |rows| :: KindOf(rows[i].metric) == k && x == Relabel(rows[i])
      {
        if x in Bucket(pre, k) {
          var i :| 0 <= i < |pre| && KindOf(pre[i].metric) == k && x == Relabel(pre[i]);
          assert rows[i] == pre[i];
        } else {
          assert KindOf(rows[|rows| - 1].metric) == k && x == Relabel(rows[|rows| - 1]);
        }
      }
    }
  }

  /** The rows `select * from annual_financials where ticker = ...` returns,
      listed in `order`, the order the database gives them in. */
  function AnnualRecords(annual: map<SeriesKey, Option<real>>, order: seq<SeriesKey>): (rows: seq<AnnualRecord>)
    requires forall k | k in order :: k in annual
    ensures |rows| == |order|
    ensures forall i | 0 <= i < |order| :: rows[i] == AnnualRecord(order[i].ticker, order[i].period, order[i].name, annual[order[i]])
  {
    seq(|order|, i requires 0 <= i < |order| => AnnualRecord(order[i].ticker, order[i].period, order[i].name, annual[order[i]]))
  }

  /** `order` lists each annual row of the ticker once, and nothing else. */
  ghost predicate ListsTickerRows(annual: map<SeriesKey, Option<real>>, ticker: string, order: seq<SeriesKey>) {
    && (forall i, j | 0 <= i < j < |order| :: order[i] != order[j])
    && (forall k :: k in order <==> k in annual && k.ticker == ticker)
  }

  /** What `get_fundamentals` returns; the agent's version has no quarterly
      entry. */
  datatype Bundle = Bundle(
    ratios: map<RatioKey, RatioRow>,
    annualFinancials: seq<AnnualRecord>,
    balanceSheet: seq<AnnualRecord>,
    cashFlows: seq<AnnualRecord>,
    quarterly: Option<map<SeriesKey, Option<real>>>,
    shareholding: map<SeriesKey, Option<real>>)

  /** Reads the ticker's rows and splits the annual ones; `withQuarterly`
      says whether the quarterly rows are returned too. */
  method ReadFundamentals(t: Tables, ticker: string, order: seq<SeriesKey>, withQuarterly: bool) returns (b: Bundle)
    requires ListsTickerRows(t.annual, ticker, order)
    ensures b.ratios == RatiosOf(t.ratios, ticker)
    ensures b.shareholding == SeriesOf(t.shareholding, ticker)
    ensures b.quarterly == if withQuarterly then Some(SeriesOf(t.quarterly, ticker)) else None
    ensures var rows := AnnualRecords(t.annual, order);
      && b.annualFinancials == Bucket(rows, ProfitLoss)
      && b.balanceSheet == Bucket(rows, BalanceSheet)
      && b.cashFlows == Bucket(rows, CashFlow)
  {
    var rows := AnnualRecords(t.annual, order);
    var profitLoss, balanceSheet, cashFlows := PartitionAnnual(rows);
    var quarterly := if withQuarterly then Some(SeriesOf(t.quarterly, ticker)) else None;
    b := Bundle(RatiosOf(t.ratios, ticker), profitLoss, balanceSheet, cashFlows, quarterly, SeriesOf(t.shareholding, ticker));
  }

  /** Every annual row of the ticker is returned once, in exactly one list. */
  lemma ReadKeepsEveryRow(t: Tables, ticker: string, order: seq<SeriesKey>)
    requires ListsTickerRows(t.annual, ticker, order)
    ensures var rows := AnnualRecords(t.annual, order);
      |Bucket(rows, ProfitLoss)| + |Bucket(rows, BalanceSheet)| + |Bucket(rows, CashFlow)| == |SeriesOf(t.annual, ticker).Keys|
  {
    var rows := AnnualRecords(t.annual, order);
    PartitionSizes(rows);
    DistinctKeysCount(order);
    assert (set k | k in order) == SeriesOf(t.annual, ticker).Keys;
  }

  lemma {:induction false} DistinctKeysCount(order: seq<SeriesKey>)
    requires forall i, j | 0 <= i < j < |order| :: order[i] != order[j]
    ensures |set k | k in order| == |order|
    decreases |order|
  {
    if order != [] {
      var pre := order[..|order| - 1];
      DistinctKeysCount(pre);
      var last := order[|order| - 1];
      assert (set k | k in order) == (set k | k in pre) + {last};
      assert last !in (set k | k in pre);
    }
  }
}
