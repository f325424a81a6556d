# Screener fundamentals ingestion: a Dafny model

This project models the core of a service that scrapes company
fundamentals from screener.in. It stores them in six SQL tables and
serves them over an HTTP API and an LLM agent. The model covers:

- **The ingestion engine** (`app/services/background.py`):
  - the number cleaner, the label and metric canonicalisers, and the fiscal-year test;
  - the status/progress upsert;
  - one ingestion pass. A pass chooses the consolidated or standalone page and stores a snapshot. It then replaces the top ratios by delete-then-insert and unpivots the quarterly, profit-and-loss and shareholding tables into keyed rows. A duplicate-key insert rolls back the section's uncommitted inserts. Last come the derived metrics (latest year, the year three back, and the guards on debt to equity and the growth figures);
  - the retrying background job: IN_PROGRESS, then at most three attempts with waits of 2 and 4 seconds, ending in COMPLETE or FAILED.
- **The freshness test** (`app/services/fundamentals.py`).
- **The endpoint decisions** (`app/api/routes/fundamentals.py`): the single-ticker fetch, the status endpoint, bulk status and bulk trigger.
- **The agent nodes** (`app/agents/nodes.py`): the agent's metric normaliser, query parsing, the 7-day skip rule of `ingest_data`, and the lookup and no-data branch of `answer`.
- **The two tool sets** (`app/tools/fundamentals_tools.py`, `app/agents/screener_agent.py`): the split of annual rows by the `balance_sheet:` / `cash_flow:` prefix, the status tools and the ingestion tools.
- **The stand-alone extractors** (`app/extractors/*.py`): their own number cleaner, which rejects negative numbers, and the wide-to-long unpivot that adds the ticker.

The modules follow the program:

- `Text` holds the string operations Python provides.
- `Cleaning` holds the helpers of `background.py`.
- `Store` holds the tables and the session.
- `StatusTable`, `Derived` and `Ingestion` hold the three stages of the engine.
- `Pages` holds the abstract page.
- The remaining modules are `Freshness`, `Routes`, `Nodes`, `ReadSide` (shared by the two tool sets), `FundamentalsTools`, `ScreenerAgent` and `Extractors`.

Each table is a `map` keyed by its declared primary key (`app/database/schema.py:33`, `:47`, `:61`, `:75`, `:89`, `:99`). The database session is a class with the `current` and the `committed` tables. `commit` copies the first to the second, and `rollback` copies the second back. The page is a value: optional sections, each a list of tables, and a table is either a readable grid (header row, label column, cells) or the error `read_html` raises.

The model follows the code in these details:

- Only `Mar YYYY` labels are fiscal years.
- The derived metrics are named "Sales", "EPS", "OPM", "Debt to Equity", "Sales growth 3Years" and "Profit Var 3Yrs".
- A FAILED status resets every flag to 0.
- The derived step loads the ticker's annual rows into a pandas frame. When any of them holds a number, a NULL row reads as NaN, which is not `None` and is truthy. "Sales", "EPS", "OPM", "Debt to Equity" and the sales growth are then written with the text "nan" and a NULL value, since SQLite stores a NaN as NULL.
- Progress is truncated: `20 * (number of flags set)`.
- No ingestion writes the `balance_sheet:` / `cash_flow:` prefixes that the read side splits on.

Two behaviours of the code as written are kept and stated as lemmas:

- `parse_query` tests the P/E phrases first, and "PE" is one of them. So every query that contains "PE" asks for P/E. That includes "OPERATING …" and "EARNINGS PER SHARE" (`Nodes.FirstMetricCases`). "EPS" itself does not contain "PE".
- The extractors' cleaner deletes the three characters the rupee sign's UTF-8 bytes read as in Windows-1252, but not the rupee sign itself (`Extractors.ExtractorNoise`).

## Model

| member | source | states |
|---|---|---|
| Cleaning.CleanNumber | app/services/background.py:46-53 | `None` stays `None`. Otherwise a number comes out exactly when the text, after NBSP→space, deletion of ₹ , % "Cr." "Cr" and stripping, is `-?digits(.digits)?`, and the number is that decimal's value |
| Cleaning.CleanNumberReadsDecimal | app/services/background.py:46-53 | a plain signed decimal reads as its own value |
| Cleaning.CleanNumberOfInteger | app/services/background.py:46-53 | `clean_number(str(n)) == n` for every natural number |
| Cleaning.CleanNumberOfNegativeInteger | app/services/background.py:46-53 | `clean_number("-" + str(n)) == -n` |
| Cleaning.CleanText | app/services/background.py:49-52 | the cleaned text has no outer whitespace and contains no NBSP, ₹, comma or % |
| Cleaning.CleanTextOfCurrency | app/services/background.py:49-52 | cleaning "₹x Cr." leaves exactly x |
| Cleaning.CleanTextOfPercent | app/services/background.py:49-52 | cleaning "x%" leaves exactly x |
| Cleaning.CleanNumberIgnoresCurrency | app/services/background.py:46-53 | "₹x Cr." reads as the decimal x |
| Cleaning.CleanNumberIgnoresPercent | app/services/background.py:46-53 | "x%" reads as the decimal x |
| Cleaning.CleanNumberRejectsLetters | app/services/background.py:46-53 | a text containing any ASCII letter other than C or r is never read as a number, and nothing raises |
| Cleaning.CleanNumberOfPlaceholder | app/services/background.py:46-53 | "N/A" gives `None` |
| Cleaning.SafeDiv | app/services/background.py:56-57 | a result exactly when both operands are present and the divisor is non-zero; then result × divisor = numerator |
| Cleaning.FiscalYearLabel | app/services/background.py:60-61 | "Mar " followed by four digits is a fiscal year, and its year number is those digits' value |
| Cleaning.FiscalYearShape | app/services/background.py:60-61 | conversely, a fiscal-year label is "Mar", one whitespace character and the four digits of its year number, with at most a final newline |
| Cleaning.NormalizeLabel | app/services/background.py:64-75 | the key has no outer whitespace and contains no NBSP, + % ( ) or capital letter |
| Cleaning.NormalizeMetric | app/services/background.py:94-96 | a label whose key is an alias gets that alias's canonical name; any other label is only stripped |
| Cleaning.AliasTargetFixed | app/services/background.py:64-92 | each alias target's normalised label is its own alias key |
| Cleaning.AliasTargetsAreFixed | app/services/background.py:82-96 | `normalize_metric` maps every alias target to itself |
| Cleaning.NormalizeLabelOfStripped | app/services/background.py:64-75 | stripping before `normalize_label` changes nothing |
| Cleaning.NormalizeMetricIdempotent | app/services/background.py:94-96 | `normalize_metric` is idempotent |
| Store.RatiosOf | app/api/routes/fundamentals.py:91-94 | exactly the ticker's ratio rows, with their stored values |
| Store.SeriesOf | app/api/routes/fundamentals.py:96-104 | exactly the ticker's rows of a long table, with their stored values |
| Store.Session.constructor | app/database/session.py:4-8 | a new session starts with nothing uncommitted: it sees the committed tables |
| Store.Session.Commit | app/services/background.py:334 | the uncommitted changes become committed |
| Store.Session.Rollback | app/services/background.py:358-359 | every uncommitted change is discarded |
| Store.LoadKeepsBase | app/services/background.py:346-362 | loading a section's rows never changes or removes a committed row |
| Store.LoadOnlyRows | app/services/background.py:346-362 | after loading, every row is a committed row or one of the section's rows |
| Store.LoadFresh | app/services/background.py:346-362 | rows with distinct new keys are all stored with their values, and nothing else is added |
| Store.LoadDuplicateDiscards | app/services/background.py:349-359 | a repeated key rolls back the section's earlier uncommitted inserts (rows a, b, a leave the table as it was) |
| Store.LoadIdempotent | app/services/background.py:346-362 | loading the same rows again changes nothing |
| Store.WriteRatiosResult | app/services/background.py:225-240 | after delete-then-insert a key is present iff it is a written (ticker, metric) at this date or an untouched row, and a written key holds the last write of its name |
| Store.WriteRatiosUnique | app/services/background.py:317-331 | exactly one row per written (ticker, metric), dated this run, holding the last write |
| Store.WriteRatiosIdempotent | app/services/background.py:225-240 | repeating the same writes changes nothing |
| StatusTable.ProgressPct | app/services/background.py:114-117 | progress is 20 × the number of flags set, within 0..100; 100 iff all five flags are set, 0 iff none is |
| StatusTable.Upsert | app/services/background.py:131-148 | after the upsert the ticker has exactly the new row, other tickers' rows and all other tables are unchanged |
| StatusTable.UpdateStatus | app/services/background.py:103-150 | the session's tables become the upsert of the new row (dated today), and are committed |
| Derived.YearOfFiscal | app/services/background.py:176 | the sort key `int(x.split()[-1])` of a fiscal-year label is its year number |
| Derived.BeforeTransitive | app/services/background.py:174-177 | the year order is transitive |
| Derived.BeforeTotal | app/services/background.py:174-177 | any two distinct labels are ordered |
| Derived.BeforeAsymmetric | app/services/background.py:174-177 | the year order is asymmetric |
| Derived.LastOf | app/services/background.py:187 | a non-empty set of labels has a last label in year order |
| Derived.SortedLabels | app/services/background.py:174-177 | the labels, each once and none added, in strictly increasing year order |
| Derived.FiscalLabels | app/services/background.py:174-175 | only "Mar YYYY" labels are kept |
| Derived.SortedEnds | app/services/background.py:187-188 | the last sorted label is the latest year; with four or more labels, the fourth from last has exactly the last three after it |
| Derived.DerivedEntries | app/services/background.py:168-180 | nothing is derived iff the ticker has no annual rows or fewer than two fiscal-year labels |
| Derived.Latest | app/services/background.py:187 | `latest` is the last fiscal year |
| Derived.ThreeBack | app/services/background.py:188 | the year three back exists iff there are four or more years, and exactly three years follow it |
| Derived.DerivedFromYears | app/services/background.py:168-223 | the derived entries are those of the latest year's figures and, when present, the figures three years back |
| Derived.RowValue | app/services/background.py:172-185 | a row holding a number reads as that number; a row stored as NULL reads as NaN exactly when another annual row of the ticker holds a number (pandas makes the column float), and as `None` otherwise; a missing row reads as `None` |
| Derived.LookupOfTarget | app/services/background.py:182-185 | looking up an alias target reads that metric's row |
| Derived.Stored | app/services/background.py:232-240 | the stored value is NULL exactly when the derived value is `None` or NaN, which SQLite stores as NULL; otherwise it is the derived value |
| Derived.LatestWritten | app/services/background.py:192-208 | Sales, EPS and OPM are written iff their row exists (a NaN reading is not `None`), and Debt to Equity iff borrowings, equity and reserves are all truthy: non-zero numbers or NaN |
| Derived.GrowthWritten | app/services/background.py:210-223 | sales growth needs both sales readings truthy (NaN included); profit variation needs both profits to be numbers above 0, which NaN is not |
| Derived.EntriesWritten | app/services/background.py:192-223 | exactly which of the six names are written, for every combination of readings, NaN included |
| Derived.HeadlineRows | app/services/background.py:192-201 | Sales, EPS and OPM are each written iff their row exists: a number as itself, a NaN as the text "nan" over a NULL value |
| Derived.NullSalesWrittenAsNaN | app/services/background.py:172-201 | when the latest year's sales row is NULL and some annual row of the ticker holds a number, "Sales" is written as "nan" over NULL |
| Derived.DebtToEquityGuard | app/services/background.py:203-208 | Debt to Equity is written iff all three readings are truthy. It is `None` when equity and reserves are numbers summing to 0; otherwise a NaN among the three makes it "nan" over NULL; otherwise its value times equity + reserves is the borrowings |
| Derived.SalesGuard | app/services/background.py:210-216 | sales growth is written iff there is a year three back and both sales readings are truthy. It is the growth between them when both are numbers of the same sign; a NaN, or signs that differ (numpy's power of a negative ratio), make it "nan" over NULL |
| Derived.ProfitGuard | app/services/background.py:218-223 | profit variation is written iff there is a year three back and both profits are numbers above 0, and it is the growth between them, stored as itself |
| Derived.ComputeAndStoreDerivedMetrics | app/services/background.py:157-244 | returns true iff something is derived; then the derived entries are written by delete-then-insert and committed, otherwise nothing changes |
| Derived.WriteDerived | app/services/background.py:225-240 | the loop of delete-then-insert writes leaves the ratio table as `WriteRatios` of the entries |
| Pages.FirstDataTable | app/services/background.py:339-340 | the first table of class data-table in the section, found iff there is one |
| Pages.Column | app/services/background.py:341-344 | one melted row per body row for a period column, carrying the label, the header and the cell |
| Pages.MeltAt | app/services/background.py:341-344 | the melt has one row per (period column, body row), column by column |
| Pages.MeltEmpty | app/services/background.py:346-363 | the melt is empty iff the table has no period column or no body row |
| Pages.FiscalYearHasPrefix | app/services/background.py:251-268 | every fiscal-year header passes the page check's looser `Mar\s\d{4}` prefix match; a longer header that passes it (other than one ending in a single newline) is not a fiscal year |
| Pages.ValidAnnualData | app/services/background.py:251-268 | a readable profit-loss data table with a fiscal-year column makes the page valid |
| Ingestion.SelectPageScope | app/services/background.py:278-288 | the standalone page is used iff the consolidated page fails the annual-data check; the run fails iff a needed request fails |
| Ingestion.RatioWrites | app/services/background.py:308-316 | one ratio write per item that has both spans, in page order |
| Ingestion.RatioWritesNames | app/services/background.py:308-316 | a metric is written iff some item with both spans carries that name |
| Ingestion.LastNamed | app/services/background.py:317-331 | the last item carrying a name, and no later item carries it |
| Ingestion.RatioWritesLast | app/services/background.py:317-331 | a repeated name keeps the value and raw text of its last item |
| Ingestion.SeriesRows | app/services/background.py:343-357 | one insert per melted row |
| Ingestion.LoadSectionSpec | app/services/background.py:337-421 | a section fails iff its data table cannot be read; its flag is 1 iff the table has periods and rows; committed rows are kept |
| Ingestion.MissingSection | app/services/background.py:337-340 | a missing section changes nothing and leaves its flag 0 |
| Ingestion.IngestSections | app/services/background.py:337-426 | the sections pass leaves the status and snapshot tables alone and reports the ratios flag it was given |
| Ingestion.IngestOnce | app/services/background.py:275-305 | a failed fetch changes nothing; otherwise the selected page is stored as today's snapshot; the status table is untouched |
| Ingestion.IngestOnceFails | app/services/background.py:275-426 | a pass fails only for a failed request or an unreadable section table |
| Ingestion.RatiosFlag | app/services/background.py:308-332 | the ratios flag is 1 iff some ratio item has both spans |
| Ingestion.WriteRatioItems | app/services/background.py:308-334 | the loop leaves the ratios as `WriteRatios` of the items' writes and returns the flag |
| Ingestion.InsertRows | app/services/background.py:346-362 | the insert loop leaves the table as `Load` of the rows from the committed table; reports whether any row was seen |
| Ingestion.IngestSection | app/services/background.py:337-421 | the section step ends as `LoadSection` says: its error, or its table and flag, committed |
| Ingestion.RunIngestionOnce | app/services/background.py:275-426 | the run's result and tables are those of `IngestOnce` |
| Ingestion.RetryRow | app/services/background.py:440-466 | attempts from k onwards leave the ticker COMPLETE, or FAILED with all flags 0, dated today |
| Ingestion.RetryWaits | app/services/background.py:459-462 | the waits are `2 * 2^(k-1)` for each failed attempt but the last |
| Ingestion.RetryOthers | app/services/background.py:440-466 | other tickers' status rows are untouched |
| Ingestion.FetchAndStoreSettles | app/services/background.py:433-469 | the job never leaves IN_PROGRESS. It ends COMPLETE or FAILED, dated today. Waits are 2 then 4 seconds at most. FAILED comes after both waits with all flags 0. Other tickers are unchanged |
| Ingestion.RunAttempt | app/services/background.py:441-462 | one attempt ends the job iff it succeeds or is the last; otherwise the job's outcome is a wait followed by the rest |
| Ingestion.FetchAndStoreFundamentals | app/services/background.py:433-469 | the job's tables and waits are those of `FetchAndStore`, committed |
| Ingestion.RunAttempts | app/services/background.py:440-462 | the retry loop's tables and waits are those of `Retry` from attempt 1 |
| Ingestion.RunAttemptAfter | app/services/background.py:440-462 | each loop turn keeps the outcome still to come unchanged |
| Freshness.MaxOf | app/services/fundamentals.py:6-10 | the maximum of a non-empty set of dates |
| Freshness.LastScraped | app/services/fundamentals.py:6-13 | no date iff the ticker has no ratio row; otherwise the newest date of its rows |
| Freshness.IsDataFresh | app/services/fundamentals.py:12-13 | a ticker without ratio rows is never fresh |
| Freshness.FreshIffRecentRow | app/services/fundamentals.py:15 | fresh iff some ratio row of the ticker is dated on or after `today - ttl` |
| Freshness.FreshBoundary | app/services/fundamentals.py:15 | newest date exactly `ttl` days ago is fresh; `ttl + 1` days ago is not |
| Freshness.FreshMonotone | app/services/fundamentals.py:15 | fresh for a TTL implies fresh for every longer TTL |
| Freshness.FreshOnlyTicker | app/services/fundamentals.py:7-8 | only the ticker's own rows affect the answer |
| Routes.SectionsOf | app/api/routes/fundamentals.py:73-79 | all sections false iff no flag is set, all true iff every flag is |
| Routes.GetFundamentals | app/api/routes/fundamentals.py:36-113 | the reply carries the upper-cased ticker, and at most one ingestion of that ticker is scheduled |
| Routes.GetFundamentalsSchedules | app/api/routes/fundamentals.py:47-89 | an ingestion is scheduled iff forced, no row, PENDING or FAILED, or the data is stale outside IN_PROGRESS |
| Routes.ForcedIgnoresStatus | app/api/routes/fundamentals.py:47-53 | a forced call answers "forced" whatever the tables hold |
| Routes.GetFundamentalsReply | app/api/routes/fundamentals.py:55-113 | which reply each status/freshness combination gives, with the progress and sections each carries |
| Routes.ReadyHoldsTickerRows | app/api/routes/fundamentals.py:91-113 | a ready reply has progress 100 and exactly the ticker's ratio, quarterly and annual rows |
| Routes.GetFundamentalStatus | app/api/routes/fundamentals.py:121-144 | the ticker is upper-cased; with no row, NOT_STARTED, progress 0 and all sections false |
| Routes.StatusReplyShowsRow | app/api/routes/fundamentals.py:146-159 | a stored row is shown with its status, date, progress, sections and error |
| Routes.StatusNamesDiffer | app/api/routes/fundamentals.py:132-148 | "NOT_STARTED" is the name of no other status |
| Routes.UpperAll | app/api/routes/fundamentals.py:171 | each ticker upper-cased, in order |
| Routes.BatchRows | app/api/routes/fundamentals.py:173-178 | the status rows of the requested tickers |
| Routes.GetBulkFundamentalStatus | app/api/routes/fundamentals.py:167-215 | one result per input ticker, upper-cased, duplicates kept, in input order; `count` is the number of results |
| Routes.BulkEntryIsStatus | app/api/routes/fundamentals.py:181-210 | each bulk result is the single status reply without its date |
| Routes.Distinct | app/api/routes/fundamentals.py:228 | the same tickers, each once |
| Routes.DistinctSize | app/api/routes/fundamentals.py:228-242 | `requested` is the number of distinct tickers |
| Routes.Triggered | app/api/routes/fundamentals.py:231-239 | the tickers that need an ingestion, never more of them than were requested |
| Routes.TriggeredMembers | app/api/routes/fundamentals.py:231-239 | a ticker is triggered iff requested and it has no row, or is NOT_STARTED or FAILED |
| Routes.TriggerEach | app/api/routes/fundamentals.py:231-239 | the loop triggers and schedules exactly those tickers |
| Routes.BulkTriggerIngestion | app/api/routes/fundamentals.py:223-245 | tickers are upper-cased and deduplicated; the triggered ones are exactly those needing it, without repeats, at most `requested` of them, and each is scheduled |
| Nodes.PadPercentSpaced | app/agents/nodes.py:32 | every `%` is preceded by a space after the replacement |
| Nodes.SquashShape | app/agents/nodes.py:33 | after squashing, no two spaces are adjacent and `%` still follows a space |
| Nodes.NormalizeCanonical | app/agents/nodes.py:30-34 | the result has no lower-case letter, no outer whitespace, no run of whitespace, and a space before each `%` |
| Nodes.NormalizeFixed | app/agents/nodes.py:30-34 | a text of that shape is returned unchanged |
| Nodes.NormalizeIdempotent | app/agents/nodes.py:30-34 | normalising twice equals normalising once |
| Nodes.WordEnd | app/agents/nodes.py:45 | the end of the run of word characters starting at a position |
| Nodes.LastMatchBelowFinds | app/agents/nodes.py:45-46 | the last capital word starting before a bound, and none after it |
| Nodes.CapitalWordsLast | app/agents/nodes.py:45-46 | `findall` finds no word iff there is no match; its last word is the word at the last match |
| Nodes.TickerIsLastCapitalWord | app/agents/nodes.py:45-46 | no ticker iff no word of two or more capitals bounded by word boundaries; otherwise the last such word |
| Nodes.TickerShape | app/agents/nodes.py:45 | a ticker has at least two characters, all capitals |
| Nodes.FindMetric | app/agents/nodes.py:70-77 | the nested loops with breaks find the first canonical name having a phrase in the query |
| Nodes.PeSynonyms | app/agents/nodes.py:50-57 | some P/E phrase occurs iff the query contains "PRICE TO EARNING", "P E RATIO", "P/E" or "PE" |
| Nodes.OpmSynonyms | app/agents/nodes.py:58-63 | without a P/E cue, some OPM phrase occurs iff "OPM" does |
| Nodes.EpsSynonyms | app/agents/nodes.py:64-67 | without a P/E cue, some EPS phrase occurs iff "EPS" does |
| Nodes.FirstMetricCases | app/agents/nodes.py:49-77 | P/E iff a P/E cue occurs (so "OPERATING" and "EARNINGS PER SHARE" both give P/E); else OPM % iff "OPM"; else EPS iff "EPS"; else none |
| Nodes.ParseQuery | app/agents/nodes.py:41-88 | success iff both a ticker and a metric are found, returning the state with those two keys set; otherwise the error message naming both |
| Nodes.ParseKeepsState | app/agents/nodes.py:84-88 | only "ticker" and "metric" are added or overwritten |
| Nodes.IngestData | app/agents/nodes.py:108-139 | the state comes back unchanged. On a skip the database is untouched; otherwise the job runs exactly once |
| Nodes.IngestAgainSkipsIffComplete | app/agents/nodes.py:123-136 | a ticker without a row is ingested; right after the job, a second call skips iff the job ended COMPLETE |
| Nodes.SkipWindow | app/agents/nodes.py:121-128 | a COMPLETE row updated 7 days ago is skipped, one updated 8 days ago is not |
| Nodes.LookupKey | app/agents/nodes.py:153 | the key has no space, no `%` and no lower-case letter |
| Nodes.LookupKeyOpm | app/agents/nodes.py:153 | "OPM %" looks up "OPM" |
| Nodes.LookupKeyPe | app/agents/nodes.py:153 | "P/E" looks up "P/E" |
| Nodes.LookupKeyEps | app/agents/nodes.py:153 | "EPS" looks up "EPS" |
| Nodes.Newest | app/agents/nodes.py:163-168 | the newest matching rows: none iff no row matches, and none is older than any match |
| Nodes.AnswerOf | app/agents/nodes.py:148-176 | "No data found for {metric} of {ticker}" iff no ratio row of the ticker contains the key; otherwise a newest matching row |
| Nodes.AnswerFindsExactName | app/agents/nodes.py:163-165 | a row whose upper-cased name is the key is always found |
| ReadSide.RelabelRestores | app/tools/fundamentals_tools.py:55-60 | a prefixed row loses exactly its prefix and keeps its other fields; any other row is unchanged |
| ReadSide.PartitionAnnual | app/tools/fundamentals_tools.py:49-60 | the loop's three lists are the profit-and-loss, balance-sheet and cash-flow buckets of the rows |
| ReadSide.PartitionSizes | app/tools/fundamentals_tools.py:53-60 | the three lists together are as long as the input |
| ReadSide.BucketPosition | app/tools/fundamentals_tools.py:53-60 | each row appears, relabelled, in its kind's list right after the earlier rows of that kind, so order is kept |
| ReadSide.BucketMembers | app/tools/fundamentals_tools.py:53-60 | every list entry is a relabelled input row of that kind |
| ReadSide.AnnualRecords | app/tools/fundamentals_tools.py:37-39 | the annual rows in database order, one record per key |
| ReadSide.ReadFundamentals | app/tools/fundamentals_tools.py:31-69 | the ticker's ratios, quarterly (when asked) and shareholding rows, and the three annual lists |
| ReadSide.ReadKeepsEveryRow | app/tools/fundamentals_tools.py:37-60 | every annual row of the ticker is returned once, in exactly one list |
| FundamentalsTools.IngestFundamentals | app/tools/fundamentals_tools.py:17-23 | ingests the upper-cased ticker and names the ticker as given |
| FundamentalsTools.GetFundamentals | app/tools/fundamentals_tools.py:26-71 | the ticker as given; ratios, quarterly and shareholding rows and the three annual lists |
| FundamentalsTools.CheckDataStatus | app/tools/fundamentals_tools.py:74-97 | only NOT_STARTED iff there is no row; otherwise the row's status and progress |
| FundamentalsTools.StaleIffNoRecentRow | app/tools/fundamentals_tools.py:89 | `stale` iff every ratio row of the ticker is older than 30 days |
| FundamentalsTools.LowerCaseTickerIsStale | app/tools/fundamentals_tools.py:83-89 | with no ratio row under the ticker as given (e.g. lower case), the data is reported stale |
| ScreenerAgent.IngestFundamentals | app/agents/screener_agent.py:19-25 | ingests the upper-cased ticker and names it upper-cased |
| ScreenerAgent.IntTextReadsBack | app/agents/screener_agent.py:43 | the progress text reads back as the progress |
| ScreenerAgent.CheckDataStatus | app/agents/screener_agent.py:28-45 | "No data found" without a row; otherwise a text starting "Status=" and ending in `%` |
| ScreenerAgent.StatusTextShowsRow | app/agents/screener_agent.py:43 | the text is "Status=<status>, Progress=<digits>%" with digits reading back as the stored progress |
| ScreenerAgent.CheckDataStatusIgnoresCase | app/agents/screener_agent.py:37 | the answer does not depend on the ticker's case |
| ScreenerAgent.GetFundamentals | app/agents/screener_agent.py:48-91 | the upper-cased ticker; ratios and shareholding rows and the three annual lists, no quarterly entry |
| Extractors.ReplaceFirstPoint | app/extractors/annual_financials.py:10 | removing the first point splices it out, or leaves a text without one unchanged |
| Extractors.AcceptedPieces | app/extractors/annual_financials.py:10 | an accepted text is digits around at most one point |
| Extractors.PointValue | app/extractors/annual_financials.py:10 | an accepted text's value is never negative |
| Extractors.ExtractorCleanNumber | app/extractors/annual_financials.py:4-10 | `None` stays `None`; a number comes out iff the cleaned text minus its first point is non-empty and all digits, and it is never negative |
| Extractors.SignRejected | app/extractors/annual_financials.py:10 | a text starting with a minus sign is rejected |
| Extractors.SecondPointRejected | app/extractors/annual_financials.py:10 | a text with two points is rejected |
| Extractors.ExtractorTextUntouched | app/extractors/annual_financials.py:8-9 | a text without the deleted characters and outer whitespace is left as it is |
| Extractors.UnsignedAccepted | app/extractors/annual_financials.py:10 | an unsigned decimal is accepted with its decimal value |
| Extractors.AgreesWithIngestionCleaner | app/extractors/annual_financials.py:4-10 | on plain decimals, this cleaner agrees with the ingestion's on unsigned ones and rejects negative ones |
| Extractors.IntegersAndNegatives | app/extractors/quarterly.py:4-10 | `str(n)` reads as n; `"-" + str(n)` is rejected here but reads as -n in the ingestion's cleaner |
| Extractors.FirstTable | app/extractors/annual_financials.py:24 | the first table of the section, of any class |
| Extractors.LongRows | app/extractors/annual_financials.py:31-39 | one long row per melted row, with the cleaned value and the ticker |
| Extractors.LongRowAt | app/extractors/annual_financials.py:31-39 | the row of body row i under period column j carries its label, header, cleaned cell and ticker |
| Extractors.LongRowsAt | app/extractors/annual_financials.py:31-39 | exactly (period columns × body rows) rows, each as above |
| Extractors.ExtractAnnualTable | app/extractors/annual_financials.py:13-41 | `None` iff the section is missing or holds no table. The read error iff the first table cannot be read. Otherwise the long rows of that table |
| Extractors.ExtractQuarterlyResults | app/extractors/quarterly.py:13-31 | `None` iff there is no "quarters" section; a section without a table fails like `read_html` on "None"; otherwise the long rows |
| Extractors.QuarterlyLikeAnnual | app/extractors/quarterly.py:13-31 | on a section holding a table, the quarterly extractor gives what the annual one gives |

## Left out

- HTTP fetching (`app/scraper/client.py`) is not part of this model. Each attempt's two page requests are a parameter (`Ingestion.Attempt`): a parsed page or the error text of the request.
- `date.today()` is a parameter (`today` / `scrapedAt`). The waits of `time.sleep` are returned as a list of seconds instead of being slept.
- HTML parsing and pandas (`BeautifulSoup`, `read_html`, `melt`) are abstract. A section table is a grid of text cells or the error `read_html` raises. Duplicate column headers, which pandas renames, and cells pandas reads as numbers rather than text are not modelled. A NaN cell is the text "nan", which every cleaner rejects, so it is modelled as a missing cell.
- `has_valid_annual_data` is a predicate on the parsed grid (`Pages.HasValidAnnualData`). The failure of its own `read_html` counts as "not valid", as in the code.
- Derived.SalesGuard: growth values are kept symbolic (`Figure.Growth(start, end)`). The floating cube root, `round(..., 2)` and the rounding in `safe_div` are not computed. `str` of a float is kept symbolic too (`RawText.Printed`); a NaN prints as "nan".
- Cleaning.SafeDiv: returns the exact quotient; the rounding to two places is left out.
- Cleaning.CleanNumber: values are exact reals, not binary floats.
- Case mapping, digits and word characters are ASCII only. Python's Unicode `upper`, `lower`, `isdigit`, `\d` and `\b` on other characters are not modelled. Whitespace is Python's full `str.isspace` set.
- Fiscal-year labels with the same year number are ordered by their text. Python's stable sort keeps database order there, and that order is not modelled.
- Routes.BulkTriggerIngestion: `list(set(...))` iterates in an order Python does not fix. The model keeps first occurrences in input order and states only membership, no duplicates and counts.
- Nodes.AnswerOf: `order_by(scraped_at desc).limit(1)` picks one of the newest matching rows. The model returns the set of all of them, since the database does not fix which one comes first. The `ILIKE` match is modelled as case-insensitive substring search, and the `_` wildcard is not modelled.
- The LLM explanation in `answer` and the answer text built from it are not modelled. Neither are the agent graph, the FastAPI application, MCP and settings loading.
- ReadSide.ReadFundamentals: the database's row order for the annual query is a parameter (`order`). The ratios, quarterly and shareholding rows are returned as maps. `row.get("metric") or ""` is the metric itself, because the column is NOT NULL.
- Background scheduling, concurrency between jobs for the same ticker, session closing and logging are not modelled. An exception thrown by `update_status` or by the derived-metrics step is not modelled either.
