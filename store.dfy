/** The database of the service: the six tables declared in the schema,
    keyed by their primary keys, and a session that holds uncommitted
    changes until `commit` and throws them away on `rollback`. */
module Store {
  import opened Wrappers

  /** Calendar days, counted from any fixed origin. */
  type Day = int

  /** A 0/1 section flag. */
  type Bit = x: int | 0 <= x <= 1

  /** A ratio value: a plain number, the three-year compound growth
      `((end / start) ** (1/3) - 1) * 100` between two figures, kept
      symbolic because the floating-point cube root is not modelled, or a
      float NaN, which `str` prints as "nan" and SQLite stores as NULL. */
  datatype Figure = Value(x: real) | Growth(start: real, end: real) | NotANumber

  /** `raw_value`: the text shown on the page, or `str(value)` for a
      derived metric (`Printed(None)` is the text "None"). */
  datatype RawText = Text(s: string) | Printed(of: Option<Figure>)

  /** Primary key of `company_ratios`: (ticker, scraped_at, metric). */
  datatype RatioKey = RatioKey(ticker: string, date: Day, metric: string)

  datatype RatioRow = RatioRow(raw: RawText, value: Option<Figure>)

  /** Primary key shared by the three long tables: `quarterly_financials`
      (ticker, quarter, metric), `annual_financials` (ticker, fiscal_year,
      metric) and `shareholding_pattern` (ticker, period, holder). */
  datatype SeriesKey = SeriesKey(ticker: string, period: string, name: string)

  /** Primary key of `raw_snapshots`: (ticker, scraped_at, section). */
  datatype SnapshotKey = SnapshotKey(ticker: string, date: Day, section: string)

  datatype Status = NotStarted | Pending | InProgress | Complete | Failed

  /** The text stored in the `status` column. */
  function StatusName(s: Status): (name: string)
    ensures name != []
  {
    match s
    case NotStarted => "NOT_STARTED"
    case Pending => "PENDING"
    case InProgress => "IN_PROGRESS"
    case Complete => "COMPLETE"
    case Failed => "FAILED"
  }

  /** The five section flags of one ingestion run. */
  datatype Flags = Flags(ratios: Bit, quarterly: Bit, annual: Bit, shareholding: Bit, derived: Bit)

  const NoFlags := Flags(0, 0, 0, 0, 0)

  /** One row of `fundamental_status`. */
  datatype StatusRow = StatusRow(status: Status, lastUpdated: Day, error: Option<string>,
                                 flags: Flags, progress: int)

  datatype Series = Quarterly | Annual | Shareholding

  datatype Tables = Tables(
    ratios: map<RatioKey, RatioRow>,
    quarterly: map<SeriesKey, Option<real>>,
    annual: map<SeriesKey, Option<real>>,
    shareholding: map<SeriesKey, Option<real>>,
    snapshots: map<SnapshotKey, string>,
    status: map<string, StatusRow>)
  {
    function Get(s: Series): map<SeriesKey, Option<real>> {
      match s
      case Quarterly => quarterly
      case Annual => annual
      case Shareholding => shareholding
    }

    function With(s: Series, m: map<SeriesKey, Option<real>>): (t: Tables)
      ensures t.Get(s) == m
      ensures forall o: Series | o != s :: t.Get(o) == Get(o)
      ensures t.ratios == ratios && t.snapshots == snapshots && t.status == status
    {
      match s
      case Quarterly => this.(quarterly := m)
      case Annual => this.(annual := m)
      case Shareholding => this.(shareholding := m)
    }
  }

  /** The rows of one ticker: a `where ticker = ...` query over a table
      whose key `tickerOf` reads the ticker from. */
  function RowsOf<K(!new), V>(rows: map<K, V>, tickerOf: K -> string, ticker: string): (r: map<K, V>)
    ensures forall k :: k in r <==> k in rows && tickerOf(k) == ticker
    ensures forall k | k in r :: r[k] == rows[k]
  {
    map k | k in rows && tickerOf(k) == ticker :: rows[k]
  }

  function RatiosOf(ratios: map<RatioKey, RatioRow>, ticker: string): (r: map<RatioKey, RatioRow>)
    ensures forall k :: k in r <==> k in ratios && k.ticker == ticker
    ensures forall k | k in r :: r[k] == ratios[k]
  {
    RowsOf(ratios, (k: RatioKey) => k.ticker, ticker)
  }

  function SeriesOf(rows: map<SeriesKey, Option<real>>, ticker: string): (r: map<SeriesKey, Option<real>>)
    ensures forall k :: k in r <==> k in rows && k.ticker == ticker
    ensures forall k | k in r :: r[k] == rows[k]
  {
    RowsOf(rows, (k: SeriesKey) => k.ticker, ticker)
  }

  /** A database session: `current` is what the session reads and writes,
      `committed` what a rollback returns to. */
  class Session {
    var current: Tables
    var committed: Tables

    constructor(t: Tables)
      ensures current == t && committed == t
    {
      current := t;
      committed := t;
    }

    method Commit()
      modifies this
      ensures current == old(current) && committed == old(current)
    {
      committed := current;
    }

    method Rollback()
      modifies this
      ensures current == old(committed) && committed == old(committed)
    {
      current := committed;
    }
  }

  // ---------------------------------------------------------------------
  // Inserting rows one by one, rolling back on a duplicate key
  // ---------------------------------------------------------------------

  /** One insert: a key already present raises IntegrityError, whose handler
      rolls the session back to `base`, the last committed state. */
  function InsertStep<K, V>(base: map<K, V>, cur: map<K, V>, row: (K, V)): map<K, V> {
    if row.0 in cur then base else cur[row.0 := row.1]
  }

  /** The table after inserting `rows` in order into `cur`, starting from the
      committed `base`. */
  function Load<K, V>(base: map<K, V>, cur: map<K, V>, rows: seq<(K, V)>): map<K, V>
    decreases |rows|
  {
    if rows == [] then cur
    else InsertStep(base, Load(base, cur, rows[..|rows| - 1]), rows[|rows| - 1])
  }

  predicate Extends<K, V(==)>(big: map<K, V>, small: map<K, V>) {
    forall k | k in small :: k in big && big[k] == small[k]
  }

  /** Committed rows are never changed by a load: a duplicate is skipped by
      rolling back, never overwritten. */
  lemma {:induction false} LoadKeepsBase<K, V>(base: map<K, V>, cur: map<K, V>, rows: seq<(K, V)>)
    requires Extends(cur, base)
    ensures Extends(Load(base, cur, rows), base)
    decreases |rows|
  {
    if rows != [] {
      LoadKeepsBase(base, cur, rows[..|rows| - 1]);
    }
  }

  /** A load adds nothing but given rows: each new entry is one of them. */
  lemma {:induction false} LoadOnlyRows<K, V>(base: map<K, V>, rows: seq<(K, V)>)
    ensures forall k | k in Load(base, base, rows) ::
      (k in base && Load(base, base, rows)[k] == base[k]) || (k, Load(base, base, rows)[k]) in rows
    decreases |rows|
  {
    if rows != [] {
      var pre := rows[..|rows| - 1];
      LoadOnlyRows(base, pre);
      forall k | k in Load(base, base, rows)
        ensures (k in base && Load(base, base, rows)[k] == base[k]) || (k, Load(base, base, rows)[k]) in rows
      {
        var p := Load(base, base, pre);
        if k in p && rows[|rows| - 1].0 !in p && k != rows[|rows| - 1].0 {
          assert Load(base, base, rows)[k] == p[k];
          if (k, p[k]) in pre {
            var i :| 0 <= i < |pre| && pre[i] == (k, p[k]);
            assert rows[i] == pre[i];
          }
        }
      }
    }
  }

  predicate DistinctKeys<K(==), V>(rows: seq<(K, V)>) {
    forall i, j | 0 <= i < j < |rows| :: rows[i].0 != rows[j].0
  }

  predicate NoneIn<K, V>(rows: seq<(K, V)>, base: map<K, V>) {
    forall i | 0 <= i < |rows| :: rows[i].0 !in base
  }

  /** Rows with new, distinct keys are all inserted. */
  lemma {:induction false} LoadFresh<K, V>(base: map<K, V>, rows: seq<(K, V)>)
    requires DistinctKeys(rows) && NoneIn(rows, base)
    ensures forall i | 0 <= i < |rows| :: rows[i].0 in Load(base, base, rows) && Load(base, base, rows)[rows[i].0] == rows[i].1
    ensures forall k | k in Load(base, base, rows) :: k in base || exists i | 0 <= i < |rows| :: rows[i].0 == k
    ensures Extends(Load(base, base, rows), base)
    decreases |rows|
  {
    if rows != [] {
      var pre := rows[..|rows| - 1];
      var last := rows[|rows| - 1];
      LoadFresh(base, pre);
      var p := Load(base, base, pre);
      assert last.0 !in p;
      assert Load(base, base, rows) == p[last.0 := last.1];
      forall k | k in Load(base, base, rows)
        ensures k in base || exists i | 0 <= i < |rows| :: rows[i].0 == k
      {
        if k != last.0 && k !in base {
          var i :| 0 <= i < |pre| && pre[i].0 == k;
          assert rows[i].0 == k;
        }
      }
    }
  }

  /** A key that shows up twice in one table makes the load discard every
      row it had inserted since the last commit, not only the duplicate. */
  lemma LoadDuplicateDiscards<K, V>(base: map<K, V>, a: (K, V), b: (K, V))
    requires a.0 !in base && b.0 !in base && a.0 != b.0
    ensures Load(base, base, [a, b, a]) == base
  {
    var rows := [a, b, a];
    assert rows[..2] == [a, b];
    assert [a, b][..1] == [a];
    assert [a][..0] == [];
    assert Load(base, base, [a]) == base[a.0 := a.1];
    assert Load(base, base, [a, b]) == base[a.0 := a.1][b.0 := b.1];
  }

  /** Loading the same rows again over the committed result changes nothing:
      every row of the second pass is a duplicate or rolls back to the
      first pass's result. */
  lemma LoadIdempotent<K, V>(base: map<K, V>, rows: seq<(K, V)>)
    ensures Load(Load(base, base, rows), Load(base, base, rows), rows) == Load(base, base, rows)
  {
    var r := Load(base, base, rows);
    if rows != [] {
      var pre := rows[..|rows| - 1];
      var last := rows[|rows| - 1];
      var p := Load(base, base, pre);
      if last.0 !in p {
        assert r == p[last.0 := last.1];
        LoadKeepsBase(r, r, pre);
      }
    }
  }

  // ---------------------------------------------------------------------
  // Delete-then-insert of ratio rows
  // ---------------------------------------------------------------------

  /** Every row of `ticker` named `metric`, on any date, is deleted, and
      the new row is inserted under `date`. */
  function WriteRatio(ratios: map<RatioKey, RatioRow>, ticker: string, date: Day,
                      metric: string, row: RatioRow): map<RatioKey, RatioRow>
  {
    var kept := map k | k in ratios && !(k.ticker == ticker && k.metric == metric) :: ratios[k];
    kept[RatioKey(ticker, date, metric) := row]
  }

  /** The writes of one loop, in order. */
  function WriteRatios(ratios: map<RatioKey, RatioRow>, ticker: string, date: Day,
                       writes: seq<(string, RatioRow)>): map<RatioKey, RatioRow>
    decreases |writes|
  {
    if writes == [] then ratios
    else
      var last := writes[|writes| - 1];
      WriteRatio(WriteRatios(ratios, ticker, date, writes[..|writes| - 1]), ticker, date, last.0, last.1)
  }

  lemma WriteRatiosSnoc(ratios: map<RatioKey, RatioRow>, ticker: string, date: Day,
                        writes: seq<(string, RatioRow)>, w: (string, RatioRow))
    ensures WriteRatios(ratios, ticker, date, writes + [w])
         == WriteRatio(WriteRatios(ratios, ticker, date, writes), ticker, date, w.0, w.1)
  {
    assert (writes + [w])[..|writes|] == writes;
  }

  predicate Written(writes: seq<(string, RatioRow)>, metric: string) {
    exists i | 0 <= i < |writes| :: writes[i].0 == metric
  }

  /** The row of the last write of `metric`. */
  function LastWrite(writes: seq<(string, RatioRow)>, metric: string): RatioRow
    requires Written(writes, metric)
    decreases |writes|
  {
    if writes[|writes| - 1].0 == metric then writes[|writes| - 1].1
    else
      var i :| 0 <= i < |writes| && writes[i].0 == metric;
      assert writes[..|writes| - 1][i].0 == metric;
      LastWrite(writes[..|writes| - 1], metric)
  }

  /** After the writes, each written metric of `ticker` has exactly one row,
      dated `date`, holding its last write; every other row is as before. */
  lemma {:induction false} WriteRatiosResult(ratios: map<RatioKey, RatioRow>, ticker: string, date: Day,
                                             writes: seq<(string, RatioRow)>)
    ensures forall k :: k in WriteRatios(ratios, ticker, date, writes) <==>
      (if k.ticker == ticker && Written(writes, k.metric) then k.date == date else k in ratios)
    ensures forall k | k in WriteRatios(ratios, ticker, date, writes) ::
      WriteRatios(ratios, ticker, date, writes)[k] ==
        (if k.ticker == ticker && Written(writes, k.metric) then LastWrite(writes, k.metric) else ratios[k])
    decreases |writes|
  {
    if writes != [] {
      var pre := writes[..|writes| - 1];
      var last := writes[|writes| - 1];
      WriteRatiosResult(ratios, ticker, date, pre);
      forall m ensures Written(writes, m) <==> Written(pre, m) || m == last.0 {
        if Written(writes, m) && m != last.0 {
          var i :| 0 <= i < |writes| && writes[i].0 == m;
          assert pre[i].0 == m;
        }
        if Written(pre, m) {
          var i :| 0 <= i < |pre| && pre[i].0 == m;
          assert writes[i].0 == m;
        }
      }
    }
  }

  /** Exactly one row per (ticker, metric) written. */
  lemma WriteRatiosUnique(ratios: map<RatioKey, RatioRow>, ticker: string, date: Day,
                          writes: seq<(string, RatioRow)>, metric: string)
    requires Written(writes, metric)
    ensures RatioKey(ticker, date, metric) in WriteRatios(ratios, ticker, date, writes)
    ensures WriteRatios(ratios, ticker, date, writes)[RatioKey(ticker, date, metric)] == LastWrite(writes, metric)
    ensures forall k | k in WriteRatios(ratios, ticker, date, writes) && k.ticker == ticker && k.metric == metric ::
      k.date == date
  {
    WriteRatiosResult(ratios, ticker, date, writes);
  }

  /** Writing the same rows twice is writing them once. */
  lemma WriteRatiosIdempotent(ratios: map<RatioKey, RatioRow>, ticker: string, date: Day,
                              writes: seq<(string, RatioRow)>)
    ensures WriteRatios(WriteRatios(ratios, ticker, date, writes), ticker, date, writes)
         == WriteRatios(ratios, ticker, date, writes)
  {
    var once := WriteRatios(ratios, ticker, date, writes);
    WriteRatiosResult(ratios, ticker, date, writes);
    WriteRatiosResult(once, ticker, date, writes);
  }
  lemma WrittenConcat(a: seq<(string, RatioRow)>, b: seq<(string, RatioRow)>, metric: string)
    ensures Written(a + b, metric) <==> Written(a, metric) || Written(b, metric)
  {
    if Written(a + b, metric) {
      var i :| 0 <= i < |a + b| && (a + b)[i].0 == metric;
      if i >= |a| {
        assert b[i - |a|].0 == metric;
      }
    }
    if Written(b, metric) {
      var i :| 0 <= i < |b| && b[i].0 == metric;
      assert (a + b)[|a| + i].0 == metric;
    }
    if Written(a, metric) {
      var i :| 0 <= i < |a| && a[i].0 == metric;
      assert (a + b)[i].0 == metric;
    }
  }

  /** The last write of a concatenation comes from its second part when that
      part writes the metric at all. */
  lemma {:induction false} LastWriteConcat(a: seq<(string, RatioRow)>, b: seq<(string, RatioRow)>, metric: string)
    requires Written(a + b, metric)
    ensures Written(b, metric) ==> LastWrite(a + b, metric) == LastWrite(b, metric)
    ensures !Written(b, metric) ==> Written(a, metric) && LastWrite(a + b, metric) == LastWrite(a, metric)
    decreases |b|
  {
    WrittenConcat(a, b, metric);
    if b == [] {
      assert a + b == a;
    } else if b[|b| - 1].0 != metric {
      var b' := b[..|b| - 1];
      assert (a + b)[..|a + b| - 1] == a + b';
      assert !Written(b, metric) ==> !Written(b', metric);
      if Written(b', metric) {
        var i :| 0 <= i < |b'| && b'[i].0 == metric;
        assert b[i].0 == metric;
      }
      WrittenConcat(a, b', metric);
      LastWriteConcat(a, b', metric);
    }
  }
}
