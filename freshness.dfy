/** `is_data_fresh`: whether the newest ratio row of a ticker was scraped
    within the time-to-live. */
module Freshness {
  import opened Wrappers
  import opened Store

  /** `m` is the largest element of `s`. */
  predicate IsMax(m: int, s: set<int>) {
    m in s && forall y | y in s :: y <= m
  }

  lemma HasElement(s: set<int>)
    requires s != {}
    ensures exists x :: x in s
  {
    if forall y :: y !in s {
      assert false;
    }
  }

  /** Every finite non-empty set of integers has a largest element. */
  lemma {:induction false} MaxExists(s: set<int>)
    requires s != {}
    ensures exists m :: IsMax(m, s)
    decreases |s|
  {
    HasElement(s);
    var x :| x in s;
    if s != {x} {
      var rest := s - {x};
      MaxExists(rest);
      var m :| IsMax(m, rest);
      assert forall y | y in s :: y == x || y in rest;
      if x <= m {
        assert IsMax(m, s);
      } else {
        assert IsMax(x, s);
      }
    } else {
      assert IsMax(x, s);
    }
  }

  /** SQL `max(...)` over a non-empty set. */
  function MaxOf(s: set<int>): (m: int)
    requires s != {}
    ensures IsMax(m, s)
  {
    MaxExists(s);
    var m :| IsMax(m, s);
    m
  }

  /** The `scraped_at` dates of the ticker's ratio rows. */
  function ScrapeDates(ratios: map<RatioKey, RatioRow>, ticker: string): set<Day> {
    set k | k in ratios && k.ticker == ticker :: k.date
  }

  /** `select max(scraped_at) from company_ratios where ticker = ...`:
      NULL when the ticker has no ratio row. */
  function LastScraped(ratios: map<RatioKey, RatioRow>, ticker: string): (d: Option<Day>)
    ensures d.None? <==> forall k | k in ratios :: k.ticker != ticker
    ensures d.Some? ==> && (exists k | k in ratios :: k.ticker == ticker && k.date == d.value)
                        && (forall k | k in ratios && k.ticker == ticker :: k.date <= d.value)
  {
    var dates := ScrapeDates(ratios, ticker);
    assert forall k | k in ratios && k.ticker == ticker :: k.date in dates;
    if dates == {} then
      None
    else
      var m := MaxOf(dates);
      Some(m)
  }

  /** `is_data_fresh`: the newest scrape date is no older than `today - ttl`;
      a ticker without ratio rows is never fresh. */
  function IsDataFresh(ratios: map<RatioKey, RatioRow>, ticker: string, ttl: int, today: Day): (r: bool)
    ensures (forall k | k in ratios :: k.ticker != ticker) ==> !r
  {
    match LastScraped(ratios, ticker)
    case None => false
    case Some(last) => last >= today - ttl
  }

  /** Freshness needs only one recent row: the ticker is fresh exactly when
      some ratio row of it was scraped on or after `today - ttl`. */
  lemma FreshIffRecentRow(ratios: map<RatioKey, RatioRow>, ticker: string, ttl: int, today: Day)
    ensures IsDataFresh(ratios, ticker, ttl, today) <==>
      exists k | k in ratios :: k.ticker == ticker && k.date >= today - ttl
  {
    if exists k | k in ratios :: k.ticker == ticker && k.date >= today - ttl {
      var k :| k in ratios && k.ticker == ticker && k.date >= today - ttl;
      assert LastScraped(ratios, ticker).Some?;
    }
  }

  /** The boundary: a newest row exactly `ttl` days old is fresh, one a day
      older is not. */
  lemma FreshBoundary(ratios: map<RatioKey, RatioRow>, ticker: string, ttl: int, today: Day)
    ensures LastScraped(ratios, ticker) == Some(today - ttl) ==> IsDataFresh(ratios, ticker, ttl, today)
    ensures LastScraped(ratios, ticker) == Some(today - (ttl + 1)) ==> !IsDataFresh(ratios, ticker, ttl, today)
  {
  }

  /** A longer time-to-live keeps fresh data fresh. */
  lemma FreshMonotone(ratios: map<RatioKey, RatioRow>, ticker: string, ttl: int, longer: int, today: Day)
    requires ttl <= longer
    ensures IsDataFresh(ratios, ticker, ttl, today) ==> IsDataFresh(ratios, ticker, longer, today)
  {
  }

  /** Only the ticker's own rows matter: two tables with the same keys for
      the ticker give the same answer, whatever else they hold. */
  lemma FreshOnlyTicker(r1: map<RatioKey, RatioRow>, r2: map<RatioKey, RatioRow>, ticker: string, ttl: int, today: Day)
    requires forall k: RatioKey | k.ticker == ticker :: k in r1 <==> k in r2
    ensures IsDataFresh(r1, ticker, ttl, today) == IsDataFresh(r2, ticker, ttl, today)
  {
    assert ScrapeDates(r1, ticker) == ScrapeDates(r2, ticker) by {
      forall d | d in ScrapeDates(r1, ticker) ensures d in ScrapeDates(r2, ticker) {
        var k :| k in r1 && k.ticker == ticker && k.date == d;
        assert k in r2;
      }
      forall d | d in ScrapeDates(r2, ticker) ensures d in ScrapeDates(r1, ticker) {
        var k :| k in r2 && k.ticker == ticker && k.date == d;
        assert k in r1;
      }
    }
  }
}
