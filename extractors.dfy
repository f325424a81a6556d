/** The stand-alone extractors: a number cleaner that only reads unsigned
    numbers, and the annual and quarterly tables turned into long rows
    tagged with the ticker. */
module Extractors {
  import opened Wrappers
  import opened Text
  import opened Cleaning
  import opened Pages

  // ---------------------------------------------------------------------
  // clean_number
  // ---------------------------------------------------------------------

  /** The characters of the class `[â‚¹,%]`: the three characters the
      rupee sign's UTF-8 bytes read as in Windows-1252, a comma and a
      percent sign. The rupee sign itself is not among them. */
  const ExtractorNoise: set<char> := {'\U{00E2}', '\U{201A}', '\U{00B9}', ',', '%'}

  /** The text the cleaner tests: noise deleted, commas deleted, stripped. */
  function ExtractorText(s: string): string {
    Strip(Without(Without(s, ExtractorNoise), {','}))
  }

  /** `v.replace(".", "", 1).isdigit()` on ASCII digits. */
  predicate Accepts(v: string) {
    var w := ReplaceFirst(v, ".", "");
    w != [] && AllDigits(w)
  }

  /** Removing the first point splices it out. */
  lemma {:induction false} ReplaceFirstPoint(v: string)
    ensures var k := FirstIndexOf(v, '.');
      ReplaceFirst(v, ".", "") == if k < |v| then v[..k] + v[k + 1..] else v
    decreases |v|
  {
    if v != [] && v[0] != '.' {
      ReplaceFirstPoint(v[1..]);
      var k := FirstIndexOf(v[1..], '.');
      if k < |v[1..]| {
        assert [v[0]] + (v[1..][..k] + v[1..][k + 1..]) == v[..k + 1] + v[k + 2..];
      } else {
        assert [v[0]] + v[1..] == v;
      }
    } else if v != [] {
      assert "" + v[1..] == v[..0] + v[0 + 1..];
    }
  }

  /** An accepted text is digits around at most one point. */
  lemma AcceptedPieces(v: string)
    requires Accepts(v)
    ensures var k := FirstIndexOf(v, '.');
      && (k == |v| ==> AllDigits(v))
      && (k < |v| ==> AllDigits(v[..k]) && AllDigits(v[k + 1..]) && |v| > 1)
  {
    ReplaceFirstPoint(v);
    var k := FirstIndexOf(v, '.');
    if k < |v| {
      var w := v[..k] + v[k + 1..];
      assert forall i | 0 <= i < k :: v[..k][i] == w[i];
      assert forall i | k + 1 <= i < |v| :: v[i] == w[i - 1];
    }
  }

  /** `float(v)` of an accepted text; either side of the point may be empty. */
  function PointValue(v: string): (x: real)
    requires Accepts(v)
    ensures x >= 0.0
  {
    AcceptedPieces(v);
    var k := FirstIndexOf(v, '.');
    if k == |v| then DigitsValue(v) as real
    else DigitsValue(v[..k]) as real + DigitsValue(v[k + 1..]) as real / Pow10(|v| - k - 1) as real
  }

  /** `clean_number` of the extractors: `None` stays `None`; a text is read
      only when, once cleaned and with its first point removed, it is a
      non-empty run of digits, so no negative number is ever read. */
  function ExtractorCleanNumber(value: Option<string>): (r: Option<real>)
    ensures value.None? ==> r.None?
    ensures value.Some? ==> (r.Some? <==> Accepts(ExtractorText(value.value)))
    ensures r.Some? ==> r.value >= 0.0
  {
    match value
    case None => None
    case Some(s) =>
      var v := ExtractorText(s);
      if Accepts(v) then Some(PointValue(v)) else None
  }

  /** A cleaned text that starts with a minus sign is never read. */
  lemma SignRejected(v: string)
    requires v != [] && v[0] == '-'
    ensures !Accepts(v)
  {
    ReplaceFirstPoint(v);
  }

  /** Only the first point is removed, so a second one is never read. */
  lemma SecondPointRejected(v: string, i: nat, j: nat)
    requires i < j < |v| && v[i] == '.' && v[j] == '.'
    ensures !Accepts(v)
  {
    ReplaceFirstPoint(v);
    var k := FirstIndexOf(v, '.');
    assert v[k + 1..][j - k - 1] == '.';
    assert (v[..k] + v[k + 1..])[k + (j - k - 1)] == '.';
  }

  /** The cleaning leaves a text alone that has none of its characters and
      no outer whitespace. */
  lemma ExtractorTextUntouched(t: string)
    requires forall c | c in ExtractorNoise :: c !in t
    requires NoOuterSpace(t)
    ensures ExtractorText(t) == t
  {
    WithoutAbsent(t, ExtractorNoise);
    WithoutAbsent(t, {','});
    StripUnframed(t);
  }

  /** On the plain signed decimals the ingestion's cleaner reads, this one
      agrees on the unsigned ones and rejects the negative ones. */
  lemma AgreesWithIngestionCleaner(t: string)
    requires IsDecimal(t)
    ensures ExtractorCleanNumber(Some(t)) == if t[0] == '-' then None else CleanNumber(Some(t))
  {
    DecimalChars(t);
    assert NoOuterSpace(t) by {
      assert t[0] in t && t[|t| - 1] in t;
    }
    ExtractorTextUntouched(t);
    CleanNumberReadsDecimal(t);
    if t[0] == '-' {
      SignRejected(t);
    } else {
      UnsignedAccepted(t);
    }
  }

  lemma UnsignedAccepted(t: string)
    requires IsUnsignedDecimal(t)
    ensures Accepts(t) && PointValue(t) == UnsignedValue(t)
  {
    ReplaceFirstPoint(t);
    var k := FirstIndexOf(t, '.');
    if k < |t| {
      var w := t[..k] + t[k + 1..];
      assert forall i | 0 <= i < |w| :: w[i] == if i < k then t[..k][i] else t[k + 1..][i - k];
    }
  }

  /** `clean_number(str(n)) == float(n)` for every non-negative integer,
      as with the ingestion's cleaner; `clean_number("-" + str(n))` is
      `None` where the ingestion's cleaner reads `-n`. */
  lemma IntegersAndNegatives(n: nat)
    ensures ExtractorCleanNumber(Some(NatToString(n))) == Some(n as real)
    ensures ExtractorCleanNumber(Some("-" + NatToString(n))) == None
    ensures CleanNumber(Some("-" + NatToString(n))) == Some(-(n as real))
  {
    NatToStringRoundTrip(n);
    DigitsAreDecimal(NatToString(n));
    AgreesWithIngestionCleaner(NatToString(n));
    CleanNumberOfInteger(n);
    NegatedIntegerIsDecimal(n);
    AgreesWithIngestionCleaner("-" + NatToString(n));
    CleanNumberOfNegativeInteger(n);
  }

  // ---------------------------------------------------------------------
  // extract_annual_table / extract_quarterly_results
  // ---------------------------------------------------------------------

  /** One long row: the label as metric, the column header as fiscal year
      or quarter, the cleaned value and the ticker. */
  datatype LongRow = LongRow(metric: string, period: string, value: Option<real>, ticker: string)

  /** `section.find("table")`: the first table of the section, of any class. */
  function FirstTable(tables: seq<HtmlTable>): (r: Option<Table>)
    ensures r.None? <==> tables == []
    ensures r.Some? ==> r.value == tables[0].content
  {
    if tables == [] then None else Some(tables[0].content)
  }

  /** The melt of a grid with the values cleaned and the ticker added. */
  function LongRows(g: Grid, ticker: string): (rows: seq<LongRow>)
    ensures |rows| == |Melt(g)|
    ensures forall k | 0 <= k < |rows| ::
      rows[k] == LongRow(Melt(g)[k].name, Melt(g)[k].period, ExtractorCleanNumber(Melt(g)[k].cell), ticker)
  {
    var m := Melt(g);
    seq(|m|, k requires 0 <= k < |m| => LongRow(m[k].name, m[k].period, ExtractorCleanNumber(m[k].cell), ticker))
  }

  /** The long row of body row `i` under period column `j`. */
  lemma LongRowAt(g: Grid, ticker: string, j: nat, i: nat)
    requires j < |g.periods| && i < |g.rows|
    ensures j * |g.rows| + i < |LongRows(g, ticker)|
    ensures LongRows(g, ticker)[j * |g.rows| + i] ==
      LongRow(g.rows[i].name, g.periods[j], ExtractorCleanNumber(CellAt(g.rows[i], j)), ticker)
  {
    MeltUpToIndex(g, |g.periods|, j, i);
  }

  /** One long row per (period column, body row), in column order, each
      carrying the row's label, the column's header, the cleaned cell and
      the ticker. */
  lemma LongRowsAt(g: Grid, ticker: string)
    ensures |LongRows(g, ticker)| == |g.periods| * |g.rows|
    ensures forall j, i | 0 <= j < |g.periods| && 0 <= i < |g.rows| ::
      j * |g.rows| + i < |LongRows(g, ticker)| &&
      LongRows(g, ticker)[j * |g.rows| + i] ==
        LongRow(g.rows[i].name, g.periods[j], ExtractorCleanNumber(CellAt(g.rows[i], j)), ticker)
  {
    MeltUpToLength(g, |g.periods|);
    forall j, i | 0 <= j < |g.periods| && 0 <= i < |g.rows|
      ensures j * |g.rows| + i < |LongRows(g, ticker)|
      ensures LongRows(g, ticker)[j * |g.rows| + i] ==
        LongRow(g.rows[i].name, g.periods[j], ExtractorCleanNumber(CellAt(g.rows[i], j)), ticker)
    {
      LongRowAt(g, ticker, j, i);
    }
  }

  /** `extract_annual_table`: `None` without the section or without a table
      in it; the error of `read_html` when the table cannot be read;
      otherwise the long rows. */
  function ExtractAnnualTable(p: Page, sectionId: string, ticker: string): (r: Result<Option<seq<LongRow>>>)
    ensures r == Ok(None) <==> sectionId !in p.sections || p.sections[sectionId] == []
    ensures r.Err? <==> sectionId in p.sections && p.sections[sectionId] != [] && p.sections[sectionId][0].content.Unreadable?
    ensures r.Err? ==> r.error == p.sections[sectionId][0].content.error
    ensures r.Ok? && r.value.Some? ==> exists g :: p.sections[sectionId][0].content == Readable(g) && r.value.value == LongRows(g, ticker)
  {
    if sectionId !in p.sections then Ok(None)
    else
      match FirstTable(p.sections[sectionId])
      case None => Ok(None)
      case Some(Unreadable(e)) => Err(e)
      case Some(Readable(g)) => Ok(Some(LongRows(g, ticker)))
  }

  /** The `ValueError` of `read_html` on a text with no table in it. */
  const NoTablesFound: string := "No tables found"

  /** `extract_quarterly_results`: `None` only without the "quarters"
      section; a section without a table fails like an unreadable one,
      since the missing table is handed to `read_html` as the text "None". */
  function ExtractQuarterlyResults(p: Page, ticker: string): (r: Result<Option<seq<LongRow>>>)
    ensures r == Ok(None) <==> "quarters" !in p.sections
    ensures "quarters" in p.sections && p.sections["quarters"] == [] ==> r == Err(NoTablesFound)
    ensures r.Ok? && r.value.Some? ==> exists g :: p.sections["quarters"][0].content == Readable(g) && r.value.value == LongRows(g, ticker)
  {
    if "quarters" !in p.sections then Ok(None)
    else
      match FirstTable(p.sections["quarters"])
      case None => Err(NoTablesFound)
      case Some(Unreadable(e)) => Err(e)
      case Some(Readable(g)) => Ok(Some(LongRows(g, ticker)))
  }

  /** On a section holding a table the two extractors give the same rows;
      they differ only on a section without a table. */
  lemma QuarterlyLikeAnnual(p: Page, ticker: string)
    requires "quarters" in p.sections && p.sections["quarters"] != []
    ensures ExtractQuarterlyResults(p, ticker) == ExtractAnnualTable(p, "quarters", ticker)
  {
  }
}
