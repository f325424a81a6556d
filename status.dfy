/** `update_status`: the one-row-per-ticker progress record. */
module StatusTable {
  import opened Wrappers
  import opened Store

  function FlagSum(f: Flags): int {
    f.ratios + f.quarterly + f.annual + f.shareholding + f.derived
  }

  /** `int((ratios + quarterly + annual + shareholding + derived) / 5 * 100)`,
      in exact arithmetic. */
  function ProgressPct(f: Flags): (p: int)
    ensures p == 20 * FlagSum(f)
    ensures 0 <= p <= 100
    ensures p == 100 <==> f == Flags(1, 1, 1, 1, 1)
    ensures p == 0 <==> f == NoFlags
  {
    FlagSum(f) * 100 / 5
  }

  /** The values `update_status` writes. */
  function NewRow(status: Status, today: Day, error: Option<string>, flags: Flags): StatusRow {
    StatusRow(status, today, error, flags, ProgressPct(flags))
  }

  /** The status table after the upsert of `row` under `ticker`. */
  function Upsert(t: Tables, ticker: string, row: StatusRow): (r: Tables)
    ensures r.status.Keys == t.status.Keys + {ticker}
    ensures r.status[ticker] == row
    ensures forall other | other in t.status && other != ticker :: r.status[other] == t.status[other]
    ensures r.(status := t.status) == t
  {
    t.(status := t.status[ticker := row])
  }

  /** `update_status`: update the ticker's row when one exists, insert it
      otherwise, then commit everything the session holds. */
  method UpdateStatus(db: Session, ticker: string, status: Status, error: Option<string>,
                      flags: Flags, today: Day)
    modifies db
    ensures db.current == Upsert(old(db.current), ticker, NewRow(status, today, error, flags))
    ensures db.committed == db.current
  {
    // The update of an existing row and the insert of a new one both leave
    // exactly this row under the ticker's key.
    var row := NewRow(status, today, error, flags);
    db.current := db.current.(status := db.current.status[ticker := row]);
    db.Commit();
  }
}
