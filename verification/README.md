# Bhavcopy reload pipeline — a Dafny model

The system downloads the daily "bhavcopy" (the end-of-day trade summary) of Indian
exchanges and stores it in MySQL:

- **NSE/BSE reload** (`bhavcopy_app/reload_script.py`). `reload_data_for_date` takes a
  `YYYY-MM-DD` date, a segment and a source. It works in these steps:
  - obtains a session from the exchange's web site;
  - picks the archive URL from `BASE_URLS` (`config.py`);
  - downloads the archive with up to three attempts;
  - refuses block pages;
  - unzips the NSE archive, or saves the BSE file;
  - locates the CSV file;
  - cleans two numeric columns (`clean_data`);
  - upserts every row into `BhavCopy` with one commit at the end.
- **MCX download** (`bhavcopy_app/mcxdownloader.py`). `get_bhavcopy_data` fetches the
  MCX home page for cookies. It posts the date to the bhavcopy endpoint and passes the
  JSON records in `d.Data` to `insert_into_db`. That function maps each record to a
  16-column row and upserts the rows into `bhav_mcx` in committed batches of 50.
  `reload_data_for_date_mcx` is the entry point that takes an ISO date.
- **Views** (`bhavcopy_app/views.py`). `get_data` lists the business dates present,
  newest first, with their record counts and a status, ten to a page. `reload_date`
  reloads a date unless the table already holds it.

## How the model is organised

| module | file | concern |
|---|---|---|
| `Basics` | basics.dfy | `Option`, `Result`, bytes, `Flatten`, `Pow2` |
| `Text` | text.dfy | `str.strip`, `in`, `str.join`, `str.format` with one field, last URL segment |
| `Dates` | dates.dfy | `strptime` for `%Y-%m-%d`, `%m/%d/%Y` and `%d%b%Y`; `strftime` for `%Y%m%d` |
| `Config` | config.dfy | `BASE_URLS` and the shape of its templates |
| `Download` | download.dfy | the three-attempt download loop and the block-page check |
| `Frame` | frame.dfy | the CSV as a table, `clean_data`, `row.replace({np.nan: None})` |
| `BhavStore` | bhavstore.dfy | the `BhavCopy` upsert statement and the insert loop |
| `Reload` | reload.dfy | `fetch_cookies`, `reload_data_for_date` |
| `Json` | json.dfy | decoded JSON values and key lookup |
| `Cookies` | cookies.dfy | `session.cookies.get_dict()` and the `Cookie` header string |
| `McxIngest` | mcxingest.dfy | `insert_into_db`: record mapping, `bhav_mcx` upsert, batching |
| `Mcx` | mcx.dfy | `get_bhavcopy_data` |
| `ReloadMcx` | reload_mcx.dfy | `reload_data_for_date_mcx` |
| `Views` | views.dfy | `get_data` and `reload_date` |

What the code does outside the interpreter is an input of the model, with the exceptions
listed under "## Left out":

- what the network answers (`Attempt`: a response with a status and a body, or a raised
  request error);
- the cookies the home page sets;
- what unzipping yields, and the files already present;
- what `pd.read_csv` returns, and Python's `float` on text;
- the database's answer to each statement, and the `NOW()` of each statement;
- whether the connection and the commit succeed.

Sleeping is recorded as a `Sleep(seconds)` event in the download trace. Printing is
omitted. The unique keys of both tables are not part of the source. They are parameters:
`keyCols` lists the key's column positions (or columns).

## Model

| member | source | states |
|---|---|---|
| Config.FileUrl | config.py:19-27 | a URL exists exactly for keys present in `BASE_URLS` |
| Config.UrlKeyPresent | config.py:19-27 | the key `"{sgmt}_{src}"` is in the table exactly when the segment is CM, FO or CD and the source is NSE or BSE |
| Config.SixKeys | config.py:19-27 | the table holds six entries |
| Config.TemplateShape | config.py:19-27 | each template is folder + '/' + file stem + `{date}` + extension |
| Config.TemplateFormat | bhavcopy_app/reload_script.py:115 | `{date}` occurs once in every template; formatting with a brace-free date replaces exactly that field |
| Config.TemplateSuffix | config.py:20-26 | NSE templates end in `.csv.zip`, BSE templates in `.CSV` |
| Config.UrlKeySplit | bhavcopy_app/reload_script.py:109 | the key determines the segment and the source when neither holds `_` |
| Dates.ParseIso | bhavcopy_app/reload_script.py:96 | `strptime(s, '%Y-%m-%d')` yields only valid calendar dates |
| Dates.IsoRoundTrip | bhavcopy_app/reload_script.py:96-97 | formatting a date as `YYYY-MM-DD` and parsing it gives the date back |
| Dates.IsoCanonical | bhavcopy_app/reload_script.py:96 | a parsed string prints back unchanged exactly when it is zero-padded |
| Dates.FormatCompact | bhavcopy_app/reload_script.py:97 | `strftime('%Y%m%d')` is eight digits |
| Dates.CompactIsIsoWithoutDashes | bhavcopy_app/reload_script.py:96-97 | the compact form is the ISO form without its dashes |
| Dates.CompactInjective | bhavcopy_app/reload_script.py:97 | different dates have different compact forms |
| Dates.ParseMonthDayYear | bhavcopy_app/mcxdownloader.py:119 | `strptime(s, '%m/%d/%Y')` yields only valid dates |
| Dates.MonthDayYearRoundTrip | bhavcopy_app/mcxdownloader.py:119 | a date printed `MM/DD/YYYY` parses back to itself |
| Dates.ParseMonthName | bhavcopy_app/mcxdownloader.py:121 | `%b` matches a month abbreviation case-insensitively; no other token matches |
| Dates.MonthNameRoundTrip | bhavcopy_app/mcxdownloader.py:121 | an upper-case abbreviation parses to its month |
| Dates.ParseDayMonthNameYear | bhavcopy_app/mcxdownloader.py:121 | `strptime(s, '%d%b%Y')` yields only valid dates |
| Dates.DayMonthNameYearRoundTrip | bhavcopy_app/mcxdownloader.py:121 | a date printed like `28FEB2025` parses back to itself |
| Text.Strip | bhavcopy_app/mcxdownloader.py:120-125 | `str.strip()` drops exactly the leading and trailing whitespace |
| Text.StripUnique | bhavcopy_app/mcxdownloader.py:120-125 | there is only one stripped form of a string |
| Text.StripIdempotent | bhavcopy_app/mcxdownloader.py:120-125 | stripping twice equals stripping once |
| Text.ContainsIff | bhavcopy_app/reload_script.py:143 | `needle in hay` holds exactly when the needle occurs at some position |
| Text.JoinLength | bhavcopy_app/mcxdownloader.py:36 | the joined string's length is the parts' lengths plus one separator between each pair |
| Text.SubstituteOnce | bhavcopy_app/reload_script.py:115 | `format` with one field occurrence puts the value in its place |
| Text.LastSegmentAfterSlash | bhavcopy_app/reload_script.py:168 | the last path component of `dir/name` is `name` when `name` has no '/' |
| Download.DownloadLoop | bhavcopy_app/reload_script.py:119-140 | the loop ends as the reference exit says and emits the reference trace of requests, sleeps and refetches |
| Download.RunLoopExit | bhavcopy_app/reload_script.py:122-140 | from any reachable iteration, the loop ends with the first decisive attempt's exit |
| Download.RunLoopTrace | bhavcopy_app/reload_script.py:122-140 | from any reachable iteration, the loop's events are the reference blocks of the attempts it makes |
| Download.FirstDecisiveFrom | bhavcopy_app/reload_script.py:127-140 | the first attempt that ends the loop: 200, 404, or a raised request on the last try |
| Download.RequestCount | bhavcopy_app/reload_script.py:121-122 | the loop makes between one and three requests |
| Download.StepState | bhavcopy_app/reload_script.py:127-138 | after a non-ending attempt, the session stays the first one, the last response is kept, and the loop continues at the next index |
| Download.RequestsIssued | bhavcopy_app/reload_script.py:121-125 | the requests are attempts 0, 1, … in order, at most three |
| Download.NotFoundStopsAtOnce | bhavcopy_app/reload_script.py:133-134 | a 404 ends the loop at once with "not found" |
| Download.OkStopsAtOnce | bhavcopy_app/reload_script.py:127-129 | a 200 ends the loop at once with that response |
| Download.NeverWithoutResponse | bhavcopy_app/reload_script.py:122-143 | the loop never ends without a response; after three non-ending answers the last one is used |
| Download.TimeoutOnlyOnLastAttempt | bhavcopy_app/reload_script.py:136-140 | the timeout reply happens exactly when the third request raises |
| Download.SleepOnlyAfterNetworkError | bhavcopy_app/reload_script.py:136-138 | each sleep follows a raised request on attempt k < 2 and lasts 2^k seconds |
| Download.SessionNeverReplaced | bhavcopy_app/reload_script.py:130-132 | every request uses the first session; a 403 refetch does not replace it |
| Download.Refetched | bhavcopy_app/reload_script.py:130-132 | the refetch is logged and counted, and neither the session nor the kept response changes |
| Download.BlockPageIff | bhavcopy_app/reload_script.py:143 | a body is a block page exactly when it contains `Access Denied` or `403 Forbidden` |
| Frame.ToFloat | bhavcopy_app/reload_script.py:84 | NaN and None become None, numbers stay, text is converted; the conversion fails exactly on unconvertible text |
| Frame.CleanRow | bhavcopy_app/reload_script.py:81-84 | a row cleans exactly when each of its cells does, cell by cell |
| Frame.CleanRows | bhavcopy_app/reload_script.py:82-84 | a table cleans exactly when each row does, row by row |
| Frame.CleanData | bhavcopy_app/reload_script.py:74-89 | columns and row count are kept; only `TtlTrfVal` and `TtlNbOfTxsExctd` change, by `float`; the call raises exactly when one of their text cells does not convert |
| Frame.ReplaceNaN | bhavcopy_app/reload_script.py:187 | no NaN is left in the row; NaN becomes None and every other cell keeps its place |
| Frame.ReplaceNaNIdempotent | bhavcopy_app/reload_script.py:187 | a row without NaN is bound unchanged, so replacing twice is replacing once |
| Frame.NoNaNReachesTheDatabase | bhavcopy_app/reload_script.py:184-235 | no NaN is ever bound to the insert statement |
| Frame.CleanOnlyConvertsText | bhavcopy_app/reload_script.py:74-89 | without text in the numeric columns, cleaning never fails and binds the same values as the raw row |
| BhavStore.UpdateClauseColumns | bhavcopy_app/reload_script.py:189-234 | the insert binds 34 columns; the update clause rewrites all of them but `FinInstrmId` |
| BhavStore.Execute | bhavcopy_app/reload_script.py:188-237 | a failed statement changes nothing; otherwise the key is present, other rows are untouched, every column but `FinInstrmId` is taken from the row, `FinInstrmId` and `created_at` survive a conflict, and `updated_at` is the statement's `NOW()` |
| BhavStore.UpsertAll | bhavcopy_app/reload_script.py:184-237 | running every statement keeps the table keyed by its rows |
| BhavStore.UpsertKeys | bhavcopy_app/reload_script.py:184-237 | afterwards the keys are the old keys plus those of the statements that succeeded |
| BhavStore.LastWriteWins | bhavcopy_app/reload_script.py:184-237 | a key's values come from the last successful statement for that key |
| BhavStore.ExistingRowKeepsIdentity | bhavcopy_app/reload_script.py:200-234 | a row that existed keeps its `FinInstrmId` and `created_at` through any statements |
| BhavStore.FailedRowIsIsolated | bhavcopy_app/reload_script.py:236-237 | a row whose statement raises is skipped as if it were absent |
| Reload.OutputDir | bhavcopy_app/reload_script.py:148 | the output directory is the data directory followed by the compact date |
| Reload.OutputDirInjective | bhavcopy_app/reload_script.py:148 | different dates unpack into different directories |
| Reload.Ingest | bhavcopy_app/reload_script.py:178-238 | a failure reading, cleaning, connecting or committing reports an unexpected error and leaves the table as it was |
| Reload.ReloadForDate | bhavcopy_app/reload_script.py:92-246 | a failed reload leaves the table as it was; a successful one reports the compact date; requests go only to the template's URL, in the download loop's order |
| Reload.DateGate | bhavcopy_app/reload_script.py:96-103 | the reload fails with a date error, before any request, exactly when the date does not parse |
| Reload.CookieErrorOnlyAtSession | bhavcopy_app/reload_script.py:100-103 | for a valid date, the session error is reported exactly when no session was obtained |
| Reload.SessionGate | bhavcopy_app/reload_script.py:15-50 | NSE fails for want of a session exactly when its home-page request raises; BSE unless the market page answers 200 |
| Reload.NoRequestWithoutUrl | bhavcopy_app/reload_script.py:109-112 | an unknown segment or source fails with no archive request and no change |
| Reload.DownloadsFromTemplate | bhavcopy_app/reload_script.py:115-125 | the archive requests go to the template with the compact date in place |
| Reload.AtMostThreeRequests | bhavcopy_app/reload_script.py:121-125 | no reload sends more than three archive requests |
| Reload.BlockedBodyFails | bhavcopy_app/reload_script.py:143-145 | a downloaded block page fails the reload |
| Reload.BseCsvAlwaysFound | bhavcopy_app/reload_script.py:159-174 | a BSE reload never fails for a missing CSV, because it saves the file under the name it then looks for |
| Reload.NseCsvFound | bhavcopy_app/reload_script.py:151-174 | an NSE reload misses the CSV exactly when neither the archive nor the directory holds the expected name |
| Reload.NseCsvIsArchiveName | bhavcopy_app/reload_script.py:168 | the CSV looked for is the archive's file name without `.zip` |
| Reload.ReloadWrites | bhavcopy_app/reload_script.py:178-242 | all or nothing: a failure leaves the table unchanged; a success read, cleaned, connected and committed, left the table the row-by-row upsert of the cleaned rows with NaN replaced produces, and added exactly the keys of the statements that succeeded |
| Reload.ReloadRowWritten | bhavcopy_app/reload_script.py:183-240 | after a successful reload, a cleaned row whose insert succeeded and that no later row overrides is stored with its own values, NaN as NULL, in every column but `FinInstrmId`, stamped with its `NOW()` |
| Json.Lookup | bhavcopy_app/mcxdownloader.py:66-69 | `obj[key]` finds the last member with that key, and fails exactly when there is none |
| Cookies.Put | bhavcopy_app/mcxdownloader.py:35 | dict assignment: the name maps to the value, other names are unchanged, a new name goes last |
| Cookies.CookieDict | bhavcopy_app/mcxdownloader.py:35 | `get_dict()` yields a dict without repeated names |
| Cookies.CookieDictValues | bhavcopy_app/mcxdownloader.py:35 | each name's value is that of its last cookie in the jar |
| Cookies.CookieStringRoundTrip | bhavcopy_app/mcxdownloader.py:36 | the header `k=v; k=v` reads back as the dict it was built from |
| McxIngest.MapRecord | bhavcopy_app/mcxdownloader.py:118-126 | a record maps exactly when every member is present, text where text is needed, and both dates parse; `Symbol` and `OptionType` are stripped |
| McxIngest.MapRecordFields | bhavcopy_app/mcxdownloader.py:118-126 | field by field: `Date` and `ExpiryDate` are the parsed dates, the five text columns are their members stripped, and the eight measures and `StrikePrice` are their members as given |
| McxIngest.Refresh | bhavcopy_app/mcxdownloader.py:101-110 | on a conflict exactly the eight measure columns take the new values |
| McxIngest.Upsert | bhavcopy_app/mcxdownloader.py:93-111 | a new key is inserted with both stamps at `NOW()`; a taken key is refreshed, keeps `created_at`, and other rows are untouched |
| McxIngest.RefreshOnlyMeasures | bhavcopy_app/mcxdownloader.py:101-110 | after a conflict, measures are the incoming ones and every other column and `created_at` the stored ones |
| McxIngest.ApplyBatchConsistent | bhavcopy_app/mcxdownloader.py:130 | a batch keeps the table keyed by its rows when no key column is a measure |
| McxIngest.InsertIntoDb | bhavcopy_app/mcxdownloader.py:86-154 | no connection changes nothing; the committed batches are the sent batches whose call succeeded, in order; the table gains exactly the keys of the committed rows, and every row whose key no committed row carries is left as it was |
| McxIngest.ReplayKeys | bhavcopy_app/mcxdownloader.py:129-141 | replaying the calls adds exactly the keys of the accepted batches |
| McxIngest.ReplayElsewhere | bhavcopy_app/mcxdownloader.py:129-141 | a row whose key no accepted batch carries keeps its values and timestamps |
| McxIngest.ApplyBatchKeys | bhavcopy_app/mcxdownloader.py:93-111 | one successful `executemany` adds exactly the keys of its rows |
| McxIngest.CommittedRowsStored | bhavcopy_app/mcxdownloader.py:129-141 | every row of every committed batch has its key in the table afterwards |
| McxIngest.ReplayKeepsAccepted | bhavcopy_app/mcxdownloader.py:130-131 | every row of every accepted call is in the table afterwards |
| McxIngest.AllAcceptedPartition | bhavcopy_app/mcxdownloader.py:113-145 | with all records mapping and all calls succeeding, the commits split the rows in order into batches of 50 and a smaller last one: ceil(n/50) commits |
| McxIngest.AllAcceptedIngest | bhavcopy_app/mcxdownloader.py:86-145 | the same for `insert_into_db`, and every row's key is in the table |
| McxIngest.FailedBatchCarriedOver | bhavcopy_app/mcxdownloader.py:129-138 | after a failed call the next one resends the same records with at most one more |
| McxIngest.BadRecordStops | bhavcopy_app/mcxdownloader.py:116-138 | an unmappable record stops the loop; with all calls succeeding, the commits hold the rows before it rounded down to whole batches of 50 |
| Mcx.HasData | bhavcopy_app/mcxdownloader.py:69 | `"Data" in d` is a key test on objects and raises on numbers, booleans and null |
| Mcx.InsertPayloadGate | bhavcopy_app/mcxdownloader.py:66-71 | records reach the database exactly when the response is an object whose `d` is an object whose `Data` is a list, and they are that list |
| Mcx.SequenceDIsShapeError | bhavcopy_app/mcxdownloader.py:66-83 | a `d` that is a list or string containing "Data" raises and is caught |
| Mcx.RequestBody | bhavcopy_app/mcxdownloader.py:53 | the body carries the date and the instrument name |
| Mcx.GetBhavcopyData | bhavcopy_app/mcxdownloader.py:9-83 | a home-page failure stops before the POST; the POST is sent exactly when the home page succeeds; only the insert changes the table |
| Mcx.InsertOnlyThroughGate | bhavcopy_app/mcxdownloader.py:55-83 | `insert_into_db` runs exactly when both requests succeed, the body is JSON and saved, and `d.Data` is a list; it is given that list |
| Mcx.PostCarriesCookies | bhavcopy_app/mcxdownloader.py:35-57 | the `Cookie` header reads back as the session's dict, each name with its last value, and the body holds the date and instrument |
| ReloadMcx.ReloadForDateMcx | bhavcopy_app/reload_script.py:264-278 | the table changes only through the MCX download |
| ReloadMcx.McxSuccessIffDateParses | bhavcopy_app/reload_script.py:264-278 | the reply is a success exactly when the date parses, whatever the download did |
| ReloadMcx.McxPostsCompactDate | bhavcopy_app/reload_script.py:268-272 | the POST carries the compact date and instrument `ALL` |
| ReloadMcx.McxDistinctDatesDistinctBodies | bhavcopy_app/reload_script.py:268-272 | different dates post different bodies |
| Views.AddRow | bhavcopy_app/views.py:20-22 | adding a row keeps lines newest first, adds its date, and raises that date's count by one if `FinInstrmId` is not NULL |
| Views.GroupByDate | bhavcopy_app/views.py:20-22 | the summary is newest first with each date once |
| Views.GroupByDateCounts | bhavcopy_app/views.py:20-22 | one line per date present; each count is the number of that date's rows with a non-NULL `FinInstrmId` |
| Views.LineCount | bhavcopy_app/views.py:20-22 | a line's count is its date's count |
| Views.FilterKeepsOneDate | bhavcopy_app/views.py:24-25 | a date filter leaves one line, that date's, if present, and none otherwise |
| Views.TotalPages | bhavcopy_app/views.py:28-30 | `total_pages` is the least page count that holds every line |
| Views.PageOf | bhavcopy_app/views.py:31-34 | page p holds at most ten lines, those from position 10(p-1) on; a page below 1 raises |
| Views.PageOfLength | bhavcopy_app/views.py:31-34 | page p holds ten lines, or the lines left from position 10(p-1) on, or none past the end |
| Views.PagesPartition | bhavcopy_app/views.py:28-34 | pages 1 to `total_pages` are non-empty and list every line once, in order |
| Views.StatusOf | bhavcopy_app/views.py:36 | the status is "Success" exactly when the count is positive |
| Views.GetData | bhavcopy_app/views.py:15-44 | an error exactly for pages below 1; otherwise at most ten lines, each with its status |
| Views.NavigationFlags | bhavcopy_app/views.py:28-43 | `has_next` holds exactly when the next page has lines, `has_previous` exactly after page 1, and `total_pages` is the number of non-empty pages |
| Views.PageListsCounts | bhavcopy_app/views.py:15-44 | every listed date is present with its count, newest first; a filter lists at most its date |
| Views.ReloadDateAsWritten | bhavcopy_app/views.py:47-65 | the view as written: a date already present is reported as existing without a reload; an absent date runs the NSE cash-segment reload of that date and is reported as reloaded whatever the reload did; a date the ORM rejects is answered with the validation error's text; without a reload the table is unchanged |
| Views.AsWrittenReportsFailedReloadAsSuccess | bhavcopy_app/views.py:57-62 | as written, a failed reload of an absent date is reported as reloaded successfully |
| Views.ReloadDate | bhavcopy_app/views.py:47-65 | the corrected view: the only reload it can run is the NSE cash-segment reload of the requested date, and without one the table is unchanged |
| Views.ReloadDateReportsOutcome | bhavcopy_app/views.py:47-65 | corrected: success exactly when the date was present or the reload succeeded; a present date is reported as existing without a reload; an absent date is reported as reloaded exactly when the reload succeeded; a rejected date gets the validation error's text; a reported failure leaves the table unchanged |

## Left out

- HTTP headers, `get_headers` and request time-outs are not modelled. Each request is an
  input answer (status and body, or a raised request error).
- Unzipping, the filesystem and `pd.read_csv` are inputs: the names an archive yields,
  the files already present, and the table read back. `os.makedirs` is assumed to succeed.
- Python's `float` on text is an input function. Floating-point rounding is not
  modelled: numbers are reals.
- pandas' dtype handling is not modelled. A column whose converted values include None
  is coerced back to NaN. The model keeps None, and `row.replace({np.nan: None})` binds
  the same value either way.
- Dates.FormatCompact: pads years below 1000 to four digits. CPython's `%Y` output there
  depends on the platform's C library.
- Dates.ParseIso: accepts ASCII digits only. `strptime`'s `\d` also matches other Unicode
  decimal digits. The same holds for Dates.ParseMonthDayYear and Dates.ParseDayMonthNameYear.
- Text.Strip: follows `str.isspace` for the code points listed in `Text.IsSpace`. These
  are the Unicode whitespace characters Python recognises.
- The MySQL tables' unique keys, collations and column types are not in the source. Keys
  are the parameter `keyCols`. Values are compared exactly. A statement with NULL in a key
  column of `BhavCopy` is modelled as failing. This assumes every key column is NOT NULL.
  `SctySrs` and `XpryDt` are nullable in `models.py`, and MySQL inserts a new row for a
  NULL in a unique key, so `keyCols` must not include them.
- Reload.Ingest: a failing `conn.commit()` is modelled as discarding the whole
  transaction, which matches MySQL's behaviour when the connection closes.
- McxIngest.Send: a commit that fails after a successful `executemany` is folded into
  the call's outcome. Then the batch's rows are neither committed nor re-applied twice.
- The MCX table's unique key is assumed to include no measure column
  (`ApplyBatchConsistent`'s precondition). Otherwise an update could move a row to
  another key.
- Reload.ReloadForDate: writing the BSE file (`bhavcopy_app/reload_script.py:162-163`) is
  assumed to succeed. A failing write raises, and the outer handler replies with the error
  text; the model has no such outcome.
- Reload.ReloadForDate: only `zipfile.BadZipFile` gives the corrupt-archive reply. Any
  other error from unzipping or extracting (an `OSError` while writing, say) reaches the
  outer handler at lines 244-246 and replies with its own text. The model folds every
  unzip failure into `CorruptZip`.
- `json.dump` to `mcx_response.json` is modelled only as success or failure (`saves`).
  The file's contents are not modelled.
- `gc.collect()`, `time.sleep(2)` after the home page, and every `print` are not
  modelled, because they do not change any result.
- The query string of `get_data` is taken already parsed: `page` as an integer and
  `date` as an optional date. `int()` and the ORM's date validation raising on bad input
  are not modelled. The date that `reload_date` receives is parsed by the ORM. That parse
  is an input (`queryDate`): the date, or the text of the validation error, which the view
  replies with.
- The view's rows (`Views.Entry`) and the reload's table (`BhavStore.Store`) are two
  separate inputs. The projection of the 34 stored columns onto `BizDt` and `FinInstrmId`
  is not modelled.
- `models.py`, `urls.py`, `index` (a template render), `DB_CONFIG` and the `__main__`
  blocks are not modelled, because they carry no logic of the pipeline.
- Download.RunLoop: the loop's "no response" exit is modelled but cannot occur.
  `NeverWithoutResponse` proves this.

## Behaviour worth knowing

These are places where the code differs from its comments or messages:

- On a 403 the loop calls `fetch_cookies` again but stores the result in an unused
  variable. Every later attempt reuses the first session (`SessionNeverReplaced`).
- A status other than 200, 403 or 404 makes the loop try again without sleeping. The
  exponential backoff follows only raised requests.
- After three answered attempts, none of them 200 or 404, the last response is used as
  if it were the archive.
- In `insert_into_db`, a batch whose `executemany` fails stays in `records`. It is sent
  again together with the next record (`FailedBatchCarriedOver`). A record that cannot be
  mapped ends the whole insert.
- When `mysql.connector.connect` raises, `insert_into_db`'s handler calls `conn.rollback()`
  and its `finally` calls `cursor.close()` on names never bound. The `UnboundLocalError`
  leaves `insert_into_db`, and `get_bhavcopy_data` reports it as an unexpected error
  (`bhavcopy_app/mcxdownloader.py:82-83`). The model still ends such a run with
  `Ingested` and an empty result (`db.connects` false), and the table is unchanged either
  way.

## Findings

| source | as written | input that shows it | evidently intended | confidence | as-written member | corrected member |
|---|---|---|---|---|---|---|
| bhavcopy_app/views.py:57-62 | `success = reload_data_for_date(date)` is a dict, and `if success:` is true for any non-empty dict, so the failure branch never runs | a date not yet in the table whose reload fails, e.g. the NSE home-page request raises, so the reload returns `{"success": False, ...}` | test `success["success"]` and reply with the failure message when the reload failed | high (not executed) | Views.ReloadDateAsWritten | Views.ReloadDate |
