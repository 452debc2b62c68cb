# Brazilian CDS data feeder — a Dafny model

This project models the core of the Brazilian 5-year CDS data feeder, a
service that scrapes the daily CDS quotes from Investing.com, stores them in
a CSV file (development) or a PostgreSQL table (production), and serves them
through an HTTP API protected by API keys. It proves properties of that model.

The model covers:

- **The scraper** (`update_cds_investing.py`):
  - reading a quote cell in Brazilian notation (`_clean_number`,
    `_parse_change_pct`);
  - mapping the page's headers to the canonical columns
    `date, open, high, low, close, change_pct`, then converting, filtering
    and sorting the rows (`_normalize_investing_table`);
  - choosing the table by its headers, and the XPath fallback
    (`parse_table_with_read_html`, `parse_table_with_xpath`,
    `fetch_investing_cds`);
  - merging fetched rows into stored ones (`merge_and_dedup`);
  - the log-ingestion URL (`_build_ingest_url`);
  - which store a run writes to (`async_main`).
- **The CSV store** (`CSVDataSource`): a class whose `rows` field is the
  in-memory table, newest first.
- **The CDS repository** (`CDSRepository`): a class over a map from date to
  row, with PostgreSQL's `ON CONFLICT (date)` semantics.
- **The API key repository** (`APIKeyRepository`): a class over a sequence
  of key rows. `APIKey.is_expired`, `is_valid` and `to_dict` come from
  `models.py`.
- **The `GET /cds` route**: date parsing with `strptime("%Y-%m-%d")`, the
  order check, the ±30-day defaulting, the start-after-end check and the
  `date_range` summary.
- **The small validators and rewriters**:
  - `get_database_url`;
  - the `Settings` properties;
  - the cron endpoint's bearer-token check;
  - the command-line updater's choice of store and exit status.

Numbers are exact decimals (`real`). Dates are a `Date(year, month, day)`
datatype with Python's range 0001-01-01 … 9999-12-31. Adding or
subtracting days is proved to be ordinal arithmetic. It fails past either
end of that range, as Python's `OverflowError` does.

Nothing here talks to a network, a file or a database. The HTML parsers'
output, the fetch outcome, the hash function, the clock, the configured
environment and the outcome of a save are all parameters.

Where the written code and its evident intent part ways, the model follows
the code:

- The read_html candidate filter accepts a table whose headers contain
  "data" and one of "último", "ultimo" or "close". It does not look for
  "date" or "price". `InvestingTables.FirstCandidate` keeps exactly that
  test.
- `parse_date_or_error` answers "2025-13-28" with the *format* message,
  although its comment (src/api/routes/cds.py:79) lists that date as an
  invalid value. No alternative of the `%m` pattern can be followed by
  `-` there (`CdsRoutes.MonthThirteenIsFormatError`). The answer is a
  400 either way.
- The CDS repository's `bulk_insert` in update mode counts every row as
  inserted, new or not. `updated` and `skipped` stay 0
  (`CdsRepository.CdsRepository.BulkInsert`).
- `CSVDataSource._save_csv` writes nothing when the table is empty. A
  `delete_by_date_range` that removes the last rows therefore leaves the
  old file in place (`CsvSource.CsvDataSource.DeleteByDateRange` keeps a
  separate `file` field for this).
- `save_to_database` and `save_to_csv` read all six canonical columns of
  every row by name. A fetched frame that lacks one (a page without, say,
  an open column) raises KeyError and nothing is saved, although the
  normaliser accepts such a frame (`Records.ToRecords`,
  `InvestingMain.MissingColumnSavesNothing`).
- The command-line updater compares the environment with "production"
  case-sensitively. `Settings.is_production` lower-cases it first
  (`UpdateScript.AutoIsCaseSensitive`).

## Model

| member | source | states |
|---|---|---|
| InvestingCells.CleanNumber | update_cds_investing.py:69-82 | a missing cell, a blank cell and the tokens nan/none/null/- in any case give no value |
| InvestingCells.CleanNumberOfText | update_cds_investing.py:72-82 | on trimmed text that is not a null token: float of the text (points deleted, comma made a point, % dropped), divided by 100, or no value when float fails |
| InvestingCells.CleanNumberNullTokens | update_cds_investing.py:72-74 | every text whose stripped lower-case form is a null token gives no value |
| InvestingCells.CleanNumberPtBr | update_cds_investing.py:76-80 | a Brazilian literal (thousands points, decimal comma, optional %) reads back as its value divided by 100 |
| InvestingCells.CleanNumberGroupedInteger | update_cds_investing.py:76-80 | a Brazilian integer with thousands points reads back as its digits' value divided by 100 |
| InvestingCells.CleanNumberThousands | update_cds_investing.py:76 | "1.234,56" gives 12.3456 |
| InvestingCells.CleanNumberPointIsThousands | update_cds_investing.py:76 | "1.5" gives 0.15: a lone point is taken for a thousands separator |
| InvestingCells.ParseChangePct | update_cds_investing.py:84-87 | a missing cell gives no value |
| InvestingCells.ParseChangePctNone | update_cds_investing.py:88-102 | a present cell gives no value exactly when its rewritten text neither parses nor holds a digit |
| InvestingCells.SearchNumberFinds | update_cds_investing.py:96-101 | the fallback search finds a number exactly when a digit occurs in the text |
| InvestingCells.MatchAt | update_cds_investing.py:96 | the pattern `[+-]?\d+(?:\.\d+)?` matches at a position exactly when a digit follows the optional sign |
| InvestingCells.ParseChangePctSigned | update_cds_investing.py:88-93 | a signed Brazilian percentage keeps its sign and is not scaled |
| InvestingCells.ParseChangePctRise | update_cds_investing.py:88-93 | "+1,56%" gives 1.56 |
| InvestingCells.ParseChangePctFall | update_cds_investing.py:88-93 | "-0,32%" gives -0.32 |
| InvestingCells.ParseDayFirst | update_cds_investing.py:191 | a day-first cell converts only to a real calendar date that a pandas Timestamp can hold (1677-09-22 to 2262-04-11); anything else is NaT |
| InvestingCells.ParseDayFirstRoundTrip | update_cds_investing.py:190-191 | every date written dd.mm.yyyy or dd/mm/yyyy converts back to itself inside the Timestamp range, and to NaT outside it |
| PyFloat.FloatOfDecimal | update_cds_investing.py:80 | float of digits, a point and digits is that decimal's exact value |
| PyFloat.FloatOfSignedDecimal | update_cds_investing.py:93 | a leading sign is kept by float |
| PyFloat.FloatOfDigits | update_cds_investing.py:80 | float of a digit string is its integer value |
| InvestingTables.RuleTarget | update_cds_investing.py:165-180 | a header maps to the first rule in table order that matches it, and to nothing when no rule matches |
| InvestingTables.Target | update_cds_investing.py:159-182 | the canonical column of a header is the rule target of its stripped, lower-cased name |
| InvestingTables.KeepColumns | update_cds_investing.py:184-187 | the kept columns are exactly the canonical ones some header became, in canonical order |
| InvestingTables.NormalizeColumns | update_cds_investing.py:203-205 | the normalised columns are those some header was renamed to, each once, in canonical order, the date column always among them |
| InvestingTables.NormalizeRows | update_cds_investing.py:189-210 | a row is in the result exactly when some input row converts to it with a date, and with a close when there is a close column |
| InvestingTables.NormalizeFields | update_cds_investing.py:192-210 | with a close column every row has a close; an absent column leaves its field empty |
| InvestingTables.KeepRowsSpec | update_cds_investing.py:207-210 | the dropna calls keep exactly the converted rows with a date (and a close when there is a close column) |
| InvestingTables.KeepRowsClose | update_cds_investing.py:209-210 | with a close column no kept row lacks a close |
| InvestingTables.NormalizeSorted | update_cds_investing.py:212-214 | the normalised rows are in ascending date order |
| InvestingTables.Normalize | update_cds_investing.py:156-214 | _normalize_investing_table; stated by NormalizeColumns, NormalizeRows, NormalizeFields and NormalizeSorted |
| InvestingTables.FirstCandidate | update_cds_investing.py:117-126 | the chosen table is a candidate and no earlier table is; no index when no table is a candidate |
| InvestingTables.ReadHtmlFirstCandidate | update_cds_investing.py:110-130 | without a candidate the read_html strategy yields nothing; otherwise it normalises the first candidate |
| InvestingTables.ReadHtmlStrategy | update_cds_investing.py:110-130 | no tables gives no frame; a returned frame is in ascending date order |
| InvestingTables.IsCandidate | update_cds_investing.py:118-123 | a table is a candidate when a header contains "data" and one contains "último", "ultimo" or "close"; FirstCandidate states its use |
| InvestingTables.PadRow | update_cds_investing.py:150 | a short body row is padded with missing cells up to the width of the frame |
| InvestingTables.XPathRaw | update_cds_investing.py:140-151 | no frame exactly when there are no headers, no non-empty body row, or the widest row differs from the header count; otherwise the stripped headers over one row per non-empty body row, each cell the stripped text or missing past the row's end |
| InvestingTables.XPathStrategy | update_cds_investing.py:132-154 | no table gives no frame; otherwise a frame exactly when the table has headers, a non-empty body row and no row wider than the headers, and its normalisation succeeds (a normalisation error is caught and gives no frame); the frame is the normalisation of the padded table, in ascending date order |
| InvestingTables.FetchInvestingCds | update_cds_investing.py:216-234 | a normalisation error of the read_html candidate propagates; the fetch fails with no table exactly when read_html succeeded without rows and XPath gave no frame with rows; otherwise it returns a frame, and a returned frame always has rows |
| InvestingTables.FetchStrategyOrder | update_cds_investing.py:220-232 | a read_html frame with rows is returned as it is and the XPath result is then irrelevant, as it is when read_html raises; otherwise an XPath frame with rows is returned as it is |
| InvestingTables.FetchNormalized | update_cds_investing.py:216-234 | whichever strategy succeeds, the frame is sorted by date and has a close in every row when it has a close column |
| InvestingMerge.KeepLastSpec | update_cds_investing.py:252 | a row survives de-duplication exactly when no later row has its date |
| InvestingMerge.KeepLastDates | update_cds_investing.py:252 | de-duplication keeps one row per date and loses no date |
| InvestingMerge.MergeDates | update_cds_investing.py:246-254 | the merge holds each date of either input exactly once, in strictly ascending order |
| InvestingMerge.MergeLastWins | update_cds_investing.py:246-253 | the row kept for a date is the last one with that date in stored-then-fetched order |
| InvestingMerge.MergeNewWins | update_cds_investing.py:250-252 | a fetched row with no later fetched row of its date is kept, whatever was stored |
| InvestingMerge.KeepLast | update_cds_investing.py:252 | drop_duplicates keeping the last row; its contract is stated by KeepLastSpec and KeepLastDates |
| InvestingMerge.MergeAndDedup | update_cds_investing.py:246-254 | the merge; its contract is stated by MergeDates, MergeLastWins and MergeNewWins |
| InvestingMain.IngestUrlShape | update_cds_investing.py:267-278 | the URL always has an http or https scheme and never ends with "/" |
| InvestingMain.IngestUrlBareHost | update_cds_investing.py:275-278 | a bare host gets "https://" in front and is otherwise kept |
| InvestingMain.IngestDefaultAgrees | update_cds_investing.py:267-278 | the default host and the empty-host fallback give the same URL |
| InvestingMain.IngestBlankHost | update_cds_investing.py:273-278 | a host of blanks only gives "https:" |
| InvestingMain.IngestBlankHostFixed | update_cds_investing.py:273-278 | the corrected function falls back to the default URL for every blank host |
| InvestingMain.IngestFixedAgrees | update_cds_investing.py:273-278 | both functions agree on every host that is not blank |
| InvestingMain.BuildIngestUrl | update_cds_investing.py:267-278 | _build_ingest_url as written; stated by IngestUrlShape, IngestUrlBareHost, IngestDefaultAgrees and IngestBlankHost |
| InvestingMain.BuildIngestUrlFixed | update_cds_investing.py:267-278 | the corrected URL builder; stated by IngestBlankHostFixed and IngestFixedAgrees |
| InvestingMain.UseDatabase | update_cds_investing.py:363 | the database is used exactly when a URL is set and the environment is exactly "production"; AsyncMain and UpdateScript.AutoIsCaseSensitive state its effect |
| InvestingMain.AsyncMain | update_cds_investing.py:357-458 | nothing is saved exactly when the fetch fails or the frame lacks a canonical column; the run raises KeyError exactly in the second case, naming a column the frame lacks; otherwise one save of one record per row, to the database exactly when a URL is set and the environment is "production" |
| InvestingMain.MissingColumnSavesNothing | update_cds_investing.py:390-401 | a frame with rows that lacks a column saves nothing and raises |
| InvestingMain.SavedFrame | update_cds_investing.py:384-458 | for a frame with rows: nothing is saved exactly when a canonical column is missing; a saved batch is non-empty, every record has all its keys and a close |
| InvestingMain.SavedRecordsComplete | update_cds_investing.py:357-458 | for the frame a successful fetch returns: nothing is saved exactly when it lacks a canonical column; otherwise every record handed to a store has all its keys, and a close whenever the page had a close column |
| Records.MissingFields | src/database/csv_source.py:160-163 | the record is accepted exactly when date, open, high, low and close are all present |
| Records.ToRecords | update_cds_investing.py:390-401 | a KeyError exactly when the frame has rows and lacks a canonical column, naming the first such column in canonical order; otherwise one record per row, field by field |
| Records.FirstMissing | update_cds_investing.py:392-399 | no column exactly when all six canonical columns are present; otherwise a missing one, every column before it in canonical order being present |
| Records.ToRecordsComplete | update_cds_investing.py:390-401 | a frame that converts gives records that never lack a required key |
| Observations.Earliest | src/database/csv_source.py:263 | the earliest date is a date of the rows and no row is earlier |
| Observations.Latest | src/database/csv_source.py:264 | the latest date is a date of the rows and no row is later |
| CsvSource.CsvDataSource.constructor | src/database/csv_source.py:35-54 | the loaded rows are held newest first |
| CsvSource.CsvDataSource.SaveCsv | src/database/csv_source.py:56-73 | the file receives the rows unless there are none |
| CsvSource.CsvDataSource.GetByDate | src/database/csv_source.py:75-92 | a row is found exactly when its date is held, and it is the first row of that date |
| CsvSource.CsvDataSource.GetLatest | src/database/csv_source.py:94-109 | a prefix of the table of length min(limit, size), or size+limit for a negative limit; no row left out is newer |
| CsvSource.CsvDataSource.GetDateRange | src/database/csv_source.py:111-142 | exactly the rows within the bounds, each as often as it is held, ascending exactly when order_by lower-cases to "asc" |
| CsvSource.RangeRowsCount | src/database/csv_source.py:126-142 | the filter and sort keep each row within the bounds as often as the table holds it, and no other row |
| CsvSource.CsvDataSource.UpsertRecord | src/database/csv_source.py:144-196 | a record missing a required key is refused with nothing changed; otherwise the result is the row now held for its date |
| CsvSource.UpsertFound | src/database/csv_source.py:169-196 | after an upsert the first row of the date carries every value the record supplied |
| CsvSource.UpsertDates | src/database/csv_source.py:169-188 | an upsert adds its date, loses none, and leaves rows of other dates as they were |
| CsvSource.UpsertOrder | src/database/csv_source.py:181-182 | an upsert keeps the table newest first and its dates distinct |
| CsvSource.CsvDataSource.BulkInsert | src/database/csv_source.py:198-244 | the new table and the counts are those of the record-by-record loop (BulkRun), whose outcome the lemmas below characterise |
| CsvSource.BulkCounts | src/database/csv_source.py:215-244 | inserted + updated + skipped is the number of records, and the table grows by the inserted count |
| CsvSource.BulkDates | src/database/csv_source.py:222-237 | the table holds the dates it had plus every record's date |
| CsvSource.BulkSkipKeeps | src/database/csv_source.py:229-231 | in skip mode every row already stored stays as it was |
| CsvSource.BulkOrder | src/database/csv_source.py:222-237 | a bulk insert keeps the table newest first and its dates distinct |
| CsvSource.BulkFailureKeepsEarlier | src/database/csv_source.py:222-237 | a failing record leaves the effects of the records before it in place |
| CsvSource.BulkUpdateLastWins | src/database/csv_source.py:169-196 | in update mode every date's first row holds each value of the last record that supplied it, its stored value otherwise; rows of dates no record carries are kept |
| CsvSource.BulkUpdateReflectsLast | src/database/csv_source.py:169-196 | in update mode the last record of a date is reflected in full by the first row of that date |
| CsvSource.BulkIdempotent | src/database/csv_source.py:198-244 | a second update-mode run of the same records leaves the table as the first left it and counts every record as updated |
| CsvSource.RefreshIdempotent | src/database/csv_source.py:169-179 | applying the same records twice to a row gives what applying them once gives |
| CsvSource.RefreshLast | src/database/csv_source.py:169-179 | a row refreshed by records of its date holds the last record's required values |
| CsvSource.BulkRun | src/database/csv_source.py:215-244 | the record-by-record loop; its contract is stated by BulkCounts, BulkDates, BulkOrder and BulkUpdateLastWins |
| CsvSource.UpsertRows | src/database/csv_source.py:144-196 | the upsert on the rows; its contract is stated by UpsertFound, UpsertDates and UpsertOrder |
| CsvSource.CsvDataSource.GetStatistics | src/database/csv_source.py:246-266 | zero, no dates and no sources when empty; otherwise the row count, the earliest and latest dates, and "csv" |
| CsvSource.CsvDataSource.CountRecords | src/database/csv_source.py:268-277 | the count is get_statistics' total_records, zero exactly when there is no earliest date, and the number of distinct dates when dates are unique |
| CsvSource.UniqueDatesCount | src/database/csv_source.py:268-277 | rows with distinct dates number as many as their dates |
| CsvSource.CsvDataSource.DeleteByDateRange | src/database/csv_source.py:279-308 | exactly the rows within [start, end] go, the rest keep their order, and the count of removed rows is returned |
| Models.ExpiredStays | src/database/models.py:215-223 | once past its expiry a key stays expired and invalid |
| Models.NoExpiryValid | src/database/models.py:215-223 | a key without expiry is valid exactly while it is active |
| Models.IsExpired | src/database/models.py:215-219 | only a key with an expiry expires, once the clock is past it; ExpiredStays states its persistence |
| Models.IsValid | src/database/models.py:221-223 | active and not expired; ExpiredStays and NoExpiryValid state it |
| Models.ToDict | src/database/models.py:196-213 | the dictionary lists the public columns in order |
| Models.ToDictHidesHash | src/database/models.py:196-213 | the dictionary never holds key_hash |
| Models.ToDictFaithful | src/database/models.py:196-213 | two keys with the same dictionary differ at most in their hash |
| CdsRepository.RowOf | src/database/repositories/cds_repository.py:117-133 | the stored row carries the record's date, close, optional prices and the source |
| CdsRepository.UpsertAllLastWins | src/database/repositories/cds_repository.py:176-192 | after the upserts each record date holds the row of the last record with that date, and every other date keeps its row |
| CdsRepository.UpsertAllIdempotent | src/database/repositories/cds_repository.py:176-192 | repeating the same upserts changes nothing |
| CdsRepository.UpsertAll | src/database/repositories/cds_repository.py:176-192 | one upsert per record in order; its contract is stated by UpsertAllLastWins and UpsertAllIdempotent |
| CdsRepository.InsertNew | src/database/repositories/cds_repository.py:169-175 | after the skip-mode insert every record's date is held, and no more rows are counted than records given |
| CdsRepository.InsertNewKeys | src/database/repositories/cds_repository.py:169-175 | skipping keeps every stored row, adds each new date once and counts what it added |
| CdsRepository.InsertNewFirst | src/database/repositories/cds_repository.py:171-172 | a new date gets the row of the first record carrying it |
| CdsRepository.InsertNewKeyed | src/database/repositories/cds_repository.py:169-175 | the skip-mode insert keeps every row under its own date |
| CdsRepository.Ordered | src/database/repositories/cds_repository.py:53 | the selected rows of the table, each once, strictly ordered by date |
| CdsRepository.DateRangeAsWrittenFails | src/database/repositories/cds_repository.py:85-89 | every call of get_date_range as written raises AttributeError |
| CdsRepository.GetDateRangeAsWritten | src/database/repositories/cds_repository.py:85-89 | get_date_range as written; its outcome is stated by DateRangeAsWrittenFails |
| CdsRepository.CdsRepository.constructor | src/database/repositories/cds_repository.py:20-27 | the repository holds the given table |
| CdsRepository.CdsRepository.GetByDate | src/database/repositories/cds_repository.py:29-41 | a row is found exactly when the date is held, and it is that date's row |
| CdsRepository.CdsRepository.GetLatest | src/database/repositories/cds_repository.py:43-55 | min(limit, size) rows strictly newest first, and no newer row left out; a negative limit is an error |
| CdsRepository.CdsRepository.GetDateRange | src/database/repositories/cds_repository.py:74-92 | exactly the rows within the bounds, strictly ascending exactly when order_by lower-cases to "asc" |
| CdsRepository.CdsRepository.UpsertRecord | src/database/repositories/cds_repository.py:94-140 | a missing key or a null date or close changes nothing; otherwise the date's row is replaced by the record's |
| CdsRepository.CdsRepository.BulkInsert | src/database/repositories/cds_repository.py:142-205 | empty input counts nothing; skip mode inserts only new dates with skipped = records − inserted; update mode counts every record as inserted |
| CdsRepository.CdsRepository.GetStatistics | src/database/repositories/cds_repository.py:207-245 | zero and no dates when empty; otherwise the count, the least and greatest dates and the distinct non-empty sources |
| CdsRepository.CdsRepository.CountRecords | src/database/repositories/cds_repository.py:338-347 | the count is the number of stored dates, zero exactly when the table is empty |
| CdsRepository.CdsRepository.DeleteByDateRange | src/database/repositories/cds_repository.py:310-336 | exactly the rows within [start, end] go, the rest are untouched, and their number is returned |
| ApiKeyRepository.InactiveRejected | src/database/repositories/api_key_repository.py:55-64 | a hash without an active row is refused at every instant |
| ApiKeyRepository.RevokedRejected | src/database/repositories/api_key_repository.py:178-184 | after a revocation no active row carries the key's hash |
| ApiKeyRepository.DeletedGone | src/database/repositories/api_key_repository.py:199-205 | after a deletion one row fewer remains, with every other row and distinct ids and hashes |
| ApiKeyRepository.SortByAgeSpec | src/database/repositories/api_key_repository.py:163 | the sort orders by creation time, newest first, and is a permutation |
| ApiKeyRepository.ApiKeyRepository.constructor | src/database/repositories/api_key_repository.py:21-41 | an empty table whose first id is 1 |
| ApiKeyRepository.ApiKeyRepository.ValidateKey | src/database/repositories/api_key_repository.py:43-82 | a row is returned exactly when an active, unexpired row has the hash; only that row changes, its request count +1 and last use set |
| ApiKeyRepository.ApiKeyRepository.CreateKey | src/database/repositories/api_key_repository.py:84-118 | a new active row with no requests and a fresh id is appended and is accepted until it expires; a duplicate hash is refused with the rows unchanged, the refused INSERT having spent one serial id |
| ApiKeyRepository.ApiKeyRepository.GetById | src/database/repositories/api_key_repository.py:120-132 | a row is found exactly when one has the id |
| ApiKeyRepository.ApiKeyRepository.GetByName | src/database/repositories/api_key_repository.py:134-146 | no row when none has the name, the row when one has it, an error when two have it |
| ApiKeyRepository.ApiKeyRepository.ListAll | src/database/repositories/api_key_repository.py:148-166 | each active row, or each row when asked, as many times as it is stored and no other, newest first |
| ApiKeyRepository.ApiKeyRepository.RevokeKey | src/database/repositories/api_key_repository.py:168-187 | false and nothing changed for an unknown id; otherwise only that row is deactivated |
| ApiKeyRepository.ApiKeyRepository.DeleteKey | src/database/repositories/api_key_repository.py:189-208 | false and nothing changed for an unknown id; otherwise that row is gone and get_by_id finds nothing |
| Dates.AddDaysOrdinal | src/api/routes/cds.py:252 | adding days adds to the ordinal and fails exactly past 9999-12-31 |
| Dates.SubDaysOrdinal | src/api/routes/cds.py:259 | subtracting days subtracts from the ordinal and fails exactly before 0001-01-01 |
| Dates.AddThenSub | src/api/routes/cds.py:249-263 | going forward and back by the same days returns to the date |
| Dates.MinDate | src/api/routes/cds.py:297 | the least date is one of the list and no date is earlier |
| Dates.MaxDate | src/api/routes/cds.py:298 | the greatest date is one of the list and no date is later |
| CdsRoutes.StrpTime | src/api/routes/cds.py:57 | a parsed date is a real calendar date, and the format error occurs exactly when the pattern does not match |
| CdsRoutes.IsoFormatParses | src/api/routes/cds.py:57 | every date written yyyy-MM-dd parses back to itself |
| CdsRoutes.UnpaddedAccepted | src/api/routes/cds.py:57 | "2025-1-5" is accepted as 5 January 2025 |
| CdsRoutes.TrailingDataIsValueError | src/api/routes/cds.py:59-93 | "2025-01-15x" gets the invalid-value answer |
| CdsRoutes.ImpossibleDayIsValueError | src/api/routes/cds.py:78-93 | "2025-02-30" gets the invalid-value answer |
| CdsRoutes.MonthThirteenIsFormatError | src/api/routes/cds.py:63-77 | "2025-13-28" gets the format answer |
| CdsRoutes.StatusCode | src/api/routes/cds.py:224-330 | every failure is answered with 400 or 500 |
| CdsRoutes.ParseDateOrError | src/api/routes/cds.py:38-93 | the date when strptime accepts it; otherwise a 400 naming the parameter, the format message exactly when the pattern does not match |
| CdsRoutes.ParseParam | src/api/routes/cds.py:243-247 | an absent or empty parameter is no bound; a given one is parsed |
| CdsRoutes.Complete | src/api/routes/cds.py:249-263 | a lone bound gets its partner 30 days away in the right direction; a supplied bound is kept; overflow only with one bound |
| CdsRoutes.ResolveQuery | src/api/routes/cds.py:223-279 | an order other than asc/desc is refused; the bounds are both set or both unset, set exactly when a date was given, valid and in order |
| CdsRoutes.OnlyStartSpan | src/api/routes/cds.py:250-256 | with only data_inicial the end is 30 days later, or the request overflows exactly when that passes 9999-12-31 |
| CdsRoutes.OnlyEndSpan | src/api/routes/cds.py:257-263 | with only data_final the start is 30 days earlier, or the request overflows exactly when that precedes 0001-01-01 |
| CdsRoutes.NeitherUnbounded | src/api/routes/cds.py:239-247 | with neither date the query is unbounded |
| CdsRoutes.BothKept | src/api/routes/cds.py:266-279 | two given dates are kept, and refused exactly when the start is later |
| CdsRoutes.ListResponse | src/api/routes/cds.py:290-301 | total is the row count; no summary exactly when there are no rows; otherwise the least and greatest row dates and the requested bounds |
| CdsRoutes.RecordExtremes | src/api/routes/cds.py:295-298 | the least and greatest dates belong to returned rows |
| CdsRoutes.SummaryWithinRequest | src/api/routes/cds.py:286-301 | when the rows lie within the bounds, requested start ≤ earliest ≤ latest ≤ requested end |
| CdsRoutes.GetCdsRecords | src/api/routes/cds.py:184-330 | data exactly when the query resolves and the fetch succeeds; a 400 only for a query that does not resolve |
| CdsRoutes.NoRecordsAsWritten | src/api/routes/cds.py:281-330 | against get_date_range as written, every valid request ends in a 500 |
| Connection.DatabaseUrl | src/database/connection.py:31-72 | no URL for a missing or empty setting; the scheme swap; sync mode leaves sslmode alone |
| Connection.WithDriver | src/database/connection.py:50-52 | a leading postgresql:// becomes the driver's scheme and the rest is kept; other URLs come back as they are |
| Connection.RemoveSslClean | src/database/connection.py:60-61 | a URL without sslmode is left as it is |
| Connection.RemoveSsl | src/database/connection.py:60-61 | the regex substitution never lengthens the URL; RemoveSslClean, NoSslLeft and RemoveSslKeepsPrefix state the rest |
| Connection.NoSslLeft | src/database/connection.py:60-61 | the removal leaves no `[?&]sslmode=` behind |
| Connection.RemoveSslKeepsPrefix | src/database/connection.py:61 | nothing before the first separator is touched |
| Connection.SchemeSurvives | src/database/connection.py:62-63 | the trailing strip never reaches the scheme |
| Connection.AsyncUrlHasNoSsl | src/database/connection.py:58-63 | the async URL never carries sslmode |
| Connection.SeparatorLost | src/database/connection.py:60-63 | with sslmode first and another parameter after it, the `?` goes too and the URL is left without a query |
| Connection.DatabaseUrlFixed | src/database/connection.py:58-63 | the corrected rewrite refuses the same settings and agrees in sync mode |
| Connection.RemoveSslParamsKeeps | src/database/connection.py:58-63 | the corrected rewrite keeps every other parameter, in order, behind the `?` |
| Connection.RemoveSslParams | src/database/connection.py:58-63 | a URL without a query is returned as it is; RemoveSslParamsKeeps and SeparatorKept state the rest |
| Connection.FixedAgreesWithoutSsl | src/database/connection.py:58-63 | both rewrites agree on URLs without sslmode |
| Connection.SeparatorKept | src/database/connection.py:58-63 | on the URLs of SeparatorLost the corrected rewrite keeps `?param` |
| Config.ProductionNotDevelopment | src/config.py:64-72 | production and development never hold together |
| Config.ProductionAnyCase | src/config.py:64-67 | the environment is compared without regard to case |
| Config.IsProduction | src/config.py:64-67 | the lower-cased environment is "production"; ProductionAnyCase and ProductionNotDevelopment state it |
| Config.IsDevelopment | src/config.py:69-72 | the lower-cased environment is "development"; ProductionNotDevelopment states it |
| Config.IsVercel | src/config.py:74-77 | a Vercel setting is present; DefaultsAreDevelopment states the default |
| Config.CorsOriginsList | src/config.py:79-82 | one origin more than there are commas, none holding a comma, each stripped |
| Config.CorsRoundTrip | src/config.py:79-82 | origins written without blanks join back to the setting |
| Config.CorsPadded | src/config.py:79-82 | origins without commas or blanks at their ends, padded with blanks and joined by commas, come back exactly as they were |
| Strings.StripPadded | src/config.py:82 | strip removes exactly the blank padding around a text without blanks at its ends |
| Config.TwoOrigins | src/config.py:79-82 | "a,b" without blanks gives [a, b] |
| Config.EnvironmentClass | src/config.py:84-91 | production and staging, in any case, get their own badge; every other environment gets the development badge |
| Config.DevelopmentBadge | src/config.py:84-91 | development and unknown environments share the development badge |
| Config.DefaultsAreDevelopment | src/config.py:16-37 | with nothing configured the service is a development one, not on Vercel |
| Cron.Authorize | src/api/routes/cron.py:94-123 | without a secret every request passes; otherwise a missing header, a header not starting "Bearer " and a wrong token each get their own 401 |
| Cron.StatusCode | src/api/routes/cron.py:99-135 | 401 for a rejection, 500 for a failed run, 200 otherwise |
| Cron.UpdateCds | src/api/routes/cron.py:75-135 | a rejected request never runs; a failed run is a 500 with the error text; a success reports all counts as 0 |
| Cron.LowerCaseBearerRejected | src/api/routes/cron.py:107-112 | "bearer " in lower case is a format error |
| UpdateScript.StorageMode | scripts/update_cds_data.py:49-60 | forcing CSV picks CSV; forcing the database without a URL stops the run; otherwise the automatic rule |
| UpdateScript.RunUpdate | scripts/update_cds_data.py:39-96 | success exactly when a store was picked, the fetch succeeded, the frame converts to records and the save did not fail; no save attempted after a refused mode, a failed fetch or a missing column |
| UpdateScript.AutoMatchesScraper | scripts/update_cds_data.py:50 | without a flag the script saves what the scraper's own entry point saves |
| UpdateScript.AutoIsCaseSensitive | scripts/update_cds_data.py:50 | "Production" counts as production for the settings but sends the data to CSV |
| UpdateScript.RunScript | scripts/update_cds_data.py:99-158 | both flags exit 1 before anything runs; otherwise the exit status is 0 exactly when the update succeeded |

## Left out

- Fetching the page (`fetch_html`, the retrying session) is network I/O. The fetch outcome is a parameter.
- `pandas.read_html` and the lxml XPath query are foreign parsers. Their output is given as header and row strings.
- Python `float()` is modelled on plain decimals only: no exponent, `inf`, `nan` or underscores. `pd.to_datetime` is modelled on `dd.mm.yyyy` and `dd/mm/yyyy` only. Values are exact, with no binary floating point.
- InvestingCells.ParseDayFirst: each date cell is parsed on its own. pandas 2 infers one format for the whole column from its first non-null cell, so a later cell written with the other separator becomes NaT there while the model still reads it.
- `str.lower` folds ASCII and Latin-1 letters only. `\d` and strptime's digit classes are ASCII digits only.
- File I/O: `load_existing_csv`, `backup_file`, and reading and writing CSV text. The CSV store holds its rows in memory, plus the rows last written.
- SQLAlchemy engines, sessions, commit and rollback. A failed batch in the CDS repository leaves the table unchanged, as the transaction's rollback does.
- SHA-256 in `hash_key` is an arbitrary function given to the API key repository. That different keys get different hashes cannot be stated.
- The clock is a parameter wherever the code reads it. In `validate_key` the naive UTC comparison and the time-zone stripping of `expires_at` are not modelled; times are plain integers.
- Column length limits (`String(50)`, `String(64)`, `String(100)`) are not modelled.
- `log_update`, `get_recent_logs` and `DataUpdateLog` are not modelled, and neither is logging or telemetry.
- FastAPI wiring and Pydantic models are not modelled: headers and query strings arrive as optional strings, and responses are datatypes. The `/cds/latest`, `/cds/statistics` and `/cds/info` routes are not modelled; `get_period_comparisons`, which the last two call, is not part of this model.
- The command-line scripts' argument parsing, logging and timing are not modelled. `sys.exit` is a returned status.
- Concurrency and `async`: every operation is sequential.
- `str.strip` is modelled as removing ASCII and Latin-1 whitespace only (`Strings.Strip`, `Strings.IsSpace`); Python also strips the other Unicode white-space characters.
- Sorting by date is a stable insertion sort (`Sorting.Sort`); pandas `sort_values` defaults to quicksort, which is not stable, so rows that share a date may come out in another order there. The dates' order is the same.
- CdsRepository.CdsRepository.GetLatest: a negative limit is modelled as an error, since PostgreSQL refuses a negative `LIMIT`.
- Cron.UpdateCds: the run outcome is a parameter; the scraper's effects behind it are those of `InvestingMain.AsyncMain`, not repeated here.

## Findings

| source | as written | input that shows it | evidently intended | confidence | as-written member | corrected member |
|---|---|---|---|---|---|---|
| update_cds_investing.py:273-278 | the emptiness test runs before the strip, so a blank host passes it and only the scheme is left | host "   " gives "https:" | fall back to https://in.logtail.com for a blank host | high, not executed | InvestingMain.IngestBlankHost | InvestingMain.IngestBlankHostFixed |
| src/database/repositories/cds_repository.py:86-89 | ORDER BY reads `CDSRecord.date`, but the mapped attribute is `record_date` (src/database/models.py:40), so the call raises AttributeError | any call of get_date_range, hence every valid GET /cds, gives a 500 | order by the date column | high, not executed | CdsRepository.DateRangeAsWrittenFails | CdsRepository.CdsRepository.GetDateRange |
| src/database/connection.py:60-63 | the regex removes the `?` together with a leading `sslmode` parameter and leaves the next parameter glued to the path | "postgresql://u:p@h/db?sslmode=require&channel_binding=require" gives "postgresql+asyncpg://u:p@h/db&channel_binding=require" | drop only the sslmode parameter and keep `?channel_binding=require` | high, not executed | Connection.SeparatorLost | Connection.SeparatorKept |
