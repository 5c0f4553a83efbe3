# HydroVu incremental fetch and merge — a Dafny model

This project models the part of the HydroVu water-quality downloader that
fetches and merges telemetry (`data_from_hydrovu_v2.py`). For one site it
follows a cursor (a start timestamp) through the paginated data endpoint.
Each page it receives becomes a dictionary from parameter ID to a table of
readings, annotated with the parameter's name, the unit's name and the
location ID. The per-page dictionaries are then merged into one table per
parameter, concatenated in page order.

Modules:

- `Wrappers`: `Option` and `Result`.
- `Telemetry`: the data model. It holds readings, parameters, pages (one
  endpoint response), annotated rows and tables. It also defines
  `NextCursor`, the last reading timestamp of a page's first parameter.
- `Pagination`: `loop_by_date`, written as the imperative method
  `LoopByDate`. The endpoint call `make_one_call` is an oracle
  `Timestamp -> Option<Page>`, where `None` stands for a response that is not
  ok. Two ghost out-parameters record the run: the cursors the walk kept
  (`checked_dates`) and every cursor sent to the endpoint. The ghost predicate
  `IsWalk` describes a complete walk declaratively. `LoopByDate` is proved to
  satisfy it, and `WalkDeterministic` proves that `IsWalk` admits exactly one
  outcome.
- `Extraction`: `extract_param_data` and `process_responses` as methods. They
  are proved equal to the declarative `Extracted`: one table per parameter ID,
  taken from the last parameter with that ID, with the lookup errors of the
  first failing parameter.
- `Merge`: `merge_dfs` as three methods. The first loop nest (lines 231-234)
  is `CollectKeys`. In the second nest (lines 240-247), the outer loop is
  `MergeDfs` and the inner loop is `TablesOfKey`. They are proved against `AllKeys` (the union of page keys) and `Gather` (a
  key's tables, concatenated in page order).
- `Pipeline`: lemmas that join extraction and merging.

Rows of a merged series are in fetch order. They are in time order only when
every page advances the cursor. The loop at `data_from_hydrovu_v2.py:163-179`
stops only on a repeated cursor, so a page whose last reading is earlier than
its request, but not yet used, lets the walk continue backwards. See
`Pagination.IncreasingChainWalk` and `Pagination.AdvancingWalkCatchesUp` for
the walks whose cursors advance.

## Model

| member | source | states |
|---|---|---|
| Telemetry.NextCursor | data_from_hydrovu_v2.py:174-177 | A next cursor exists exactly when the page has a first parameter with at least one reading. |
| Pagination.LoopByDate | data_from_hydrovu_v2.py:159-181 | The returned pages, the recorded cursors and the request log form a complete walk (`IsWalk`). Every request is below `now` and no cursor is requested twice. The result is the pages in request order, one per kept cursor. Each cursor after the first is the last reading timestamp of the previous page's first parameter. A failed call ends the walk without an error, and that failed request is its last. A page with no parameters, or whose first parameter has no readings, ends it with `MalformedPage`, even if later parameters have readings; this needs at least one kept page. Directly on the result: no pages when `start` is at or past `now` or the first call fails; otherwise the first page is the answer at `start`, there are at most `now` pages, and each is the answer to some cursor below `now`. |
| Pagination.WalkOutcome | data_from_hydrovu_v2.py:159-181 | Read off the result of a complete walk alone: no pages when `start` is at or past `now` or the first call fails. Otherwise the first page is the answer at `start`, there are at most `now` pages, and each answers a cursor below `now`. A walk that raises has kept the page at `start`. |
| Pagination.DistinctBelow | data_from_hydrovu_v2.py:162-179 | Distinct cursors below `now` number at most `now`. This bounds the loop and proves it terminates, because cursors are whole non-negative seconds (see "## Left out" for the source with other timestamps). |
| Pagination.ChainPrefix | data_from_hydrovu_v2.py:168-177 | Two cursor chains from the same start and endpoint agree: the shorter is a prefix of the longer. |
| Pagination.WalkRecordBelowNow | data_from_hydrovu_v2.py:162-179 | A complete walk's recorded cursors are distinct and all below `now`. |
| Pagination.LongerChainContinues | data_from_hydrovu_v2.py:163-179 | A chain that extends a shorter one continues from the shorter one's pending cursor, and that cursor was below `now`, not yet recorded and answered with a page. |
| Pagination.NoLongerWalk | data_from_hydrovu_v2.py:163-179 | No complete walk records more cursors than another complete walk from the same inputs. |
| Pagination.WalkDeterministic | data_from_hydrovu_v2.py:159-181 | Any two results, cursor records and request logs that satisfy `IsWalk` for the same endpoint, `now` and start are equal. |
| Pagination.EmptyWalks | data_from_hydrovu_v2.py:163-170 | A start at or past `now` gives no pages and no request. A failing first call gives no pages after exactly one request. |
| Pagination.RepeatedCursorStops | data_from_hydrovu_v2.py:171-179 | When the second page hands on the same cursor as the first, the walk stops after it without a third request. The page that produced the repeat is kept. |
| Pagination.ChainIncreases | data_from_hydrovu_v2.py:175-177 | If every page below `now` advances the cursor, the chain's cursors strictly increase. |
| Pagination.AdvancingWalkCatchesUp | data_from_hydrovu_v2.py:163-179 | For an endpoint that answers every cursor below `now` with an advancing page: the walk succeeds with no failed request. Its cursors strictly increase, and it stops exactly when the cursor reaches `now`. |
| Pagination.IncreasingChainWalk | data_from_hydrovu_v2.py:159-181 | For a finite run of pages with strictly increasing cursors, all below `now`, whose last handed-on cursor is at or past `now`: the walk requests exactly those cursors, keeps every page in order, and stops with no further request. |
| Pagination.TwoPageScenario | data_from_hydrovu_v2.py:159-181 | With pages ending at 500 and 1000, `start` 0 and `now` 1000, the walk makes the requests [0, 500] and keeps both pages. |
| Extraction.LookupFailure | data_from_hydrovu_v2.py:197-198 | A parameter's lookups fail exactly when one of its two IDs is missing. The parameter ID is looked up first. |
| Extraction.FirstFailure | data_from_hydrovu_v2.py:192-198 | No error exactly when every ID is known. Otherwise the error is that of a parameter preceded only by parameters whose IDs are known. |
| Extraction.FirstFailureAt | data_from_hydrovu_v2.py:192-198 | The first failing parameter in page order determines the error raised. |
| Extraction.LastIndexOf | data_from_hydrovu_v2.py:201 | Finds the last parameter carrying an ID, which is the one whose table survives `results[pid] = df`. It returns -1 exactly when the ID is absent. |
| Extraction.AnnotateKeepsReadings | data_from_hydrovu_v2.py:195-199 | An annotated table keeps the readings (timestamp and value, in order). Every row carries the given parameter name, unit name and location. |
| Extraction.TablesSnoc | data_from_hydrovu_v2.py:192-201 | Processing one more parameter sets or overwrites its ID's entry and leaves every other entry unchanged. |
| Extraction.ExtractParamData | data_from_hydrovu_v2.py:188-202 | The method returns exactly `Extracted`: the first lookup error, or the table of every parameter ID. |
| Extraction.ExtractedFailsOnUnknownIds | data_from_hydrovu_v2.py:192-198 | Extraction succeeds exactly when every parameter and unit ID is known. Otherwise the error names the missing ID of the first failing parameter: its parameter ID if that is unknown, else its unit ID. |
| Extraction.TableEntry | data_from_hydrovu_v2.py:192-201 | An ID's entry is the annotated readings of the last parameter with that ID. |
| Extraction.ExtractedEntries | data_from_hydrovu_v2.py:188-202 | A successful extraction has exactly the page's parameter IDs as keys. Each entry holds the readings of the last parameter with its ID, and each row carries that parameter's name, its unit's name and the page's location. |
| Extraction.ProcessResponses | data_from_hydrovu_v2.py:211-217 | On success there is one dictionary per page, in page order, each equal to that page's extraction. On failure the error is that of the first page whose extraction fails. |
| Merge.AllKeysIsUnion | data_from_hydrovu_v2.py:230-236 | A key is collected exactly when some page carries it. |
| Merge.GatherEmpty | data_from_hydrovu_v2.py:240-247 | A key no page carries gathers no rows. |
| Merge.GatherSplit | data_from_hydrovu_v2.py:240-247 | A key's merged rows for pages `a + b` are its rows for `a` followed by its rows for `b`. |
| Merge.GatherSkipsPage | data_from_hydrovu_v2.py:242-244 | A page without the key contributes nothing to that key's rows, wherever it stands. |
| Merge.TwoPageMerge | data_from_hydrovu_v2.py:229-249 | Pages with keys {x, y} and {y, z} merge to keys {x, y, z}. y's rows are the first page's followed by the second's, and x and z keep their single page's rows. |
| Merge.CollectKeys | data_from_hydrovu_v2.py:230-236 | The distinct collected keys are exactly the union of the pages' keys. |
| Merge.TablesOfKey | data_from_hydrovu_v2.py:241-244 | The collected tables concatenate to the key's rows in page order. The list is non-empty exactly when some page carries the key. |
| Merge.MergeDfs | data_from_hydrovu_v2.py:229-249 | The returned key set is the union of the pages' keys, and every key gets an entry, so the `if dfs_to_concat` guard is always true. Each entry is the key's tables concatenated in page order. No pages give no keys and no entries. |
| Pipeline.ExtractedAllPrefix | data_from_hydrovu_v2.py:211-217 | Successful extraction of a list of pages restricts to its prefix and to its last page. |
| Pipeline.MergedKeysArePageParameters | data_from_hydrovu_v2.py:211-249 | After a successful extraction, the merged keys are exactly the parameter IDs on the pages. |
| Pipeline.LastPageRowsNamed | data_from_hydrovu_v2.py:195-201 | Every row a page contributes under an ID carries that ID's parameter name and the page's location. |
| Pipeline.MergedRowsNamed | data_from_hydrovu_v2.py:195-249 | Every row merged under an ID carries that ID's parameter name and the location of one of the pages. |

## Left out

- OAuth token handling, the location listing and the HTTP request in `make_one_call` (lines 80-151, 368-399) are left out. They are I/O: the endpoint is the oracle parameter of `LoopByDate`, and the response status is its `None`.
- `Pagination.LoopByDate`: the oracle's `None` covers only a response that is not ok (lines 148-151). A transport error in `requests.get` (lines 143-144) raises instead, and so does anything that breaks a request sent without a timeout, which can also block forever. That exception leaves `loop_by_date` and loses every page already fetched. The model does not capture this path.
- The oracle is a pure function of the cursor. The site is fixed for one walk, and an endpoint that answers the same cursor differently on two calls is not modelled.
- `Pagination.LoopByDate`: JSON decoding is assumed to give a well-typed page. A response missing the `parameters`, `parameterId`, `unitId` or `readings` keys would raise a `KeyError` and is not modelled. An empty parameter list or empty readings list is modelled as the `MalformedPage` error, which stands for Python's `IndexError`.
- Timestamps are whole epoch seconds (`nat`), so negative epochs are not modelled. `update_csv` passes the float clock `datetime.now().timestamp()` as `now` (line 281). The model's integer `now` stands for the ceiling of that float: for a whole-second cursor, `start < now` agrees with line 163 only then. With start 1000 and clock 1000.5, for example, the model's `now` is 1001.
- The source loop at lines 163-179 need not stop for negative or fractional cursors. Cursors -1, -2, … or 1, 0.5, 0.25, … are all new and below `now`, so the walk goes on as long as the endpoint answers. Termination (`Pagination.DistinctBelow`) holds only for whole non-negative seconds.
- Reading values are `real`, so floating-point rounding is not modelled.
- A pandas DataFrame is a sequence of `Row`s with the columns timestamp, value, parameter name, unit name and location ID. `pd.concat(..., ignore_index=True)` is sequence concatenation, and the row index is not modelled.
- Python iterates `dict_keys` in insertion order and a `set` in hash order. The model picks the next key arbitrarily, with `:|`. `merge_dfs`'s `list(key_list)` is returned as a set, since its order carries no meaning.
- CSV reading and writing, file-system paths and the loading of the parameter and unit lookup tables (lines 63-68, 254-303) are left out. They are I/O: the lookup tables are map parameters of the extraction.
- The choice of the start date from the saved CSV files (lines 270-281) is left out. It depends on the file system. So are `get_dates` (lines 130-135), which reads the clock, and `convert_dates` (lines 405-410), which serves the plots only.
- Plotting and publishing (lines 309-436) and the top-level script (lines 96-105, 451-465) are left out. They are I/O, outside the fetch and merge core.
- Python's exceptions are modelled as `Failure` results. A `KeyError` from a lookup table in `extract_param_data` becomes `LookupError`, and `process_responses` stops at the first page that raises, as the exception does.
