# Tiki product crawler: the crawl pipeline, modelled in Dafny

The crawler reads product ids from a CSV file and works out where an
earlier run stopped. It fetches each remaining product from the Tiki API,
retrying transient errors with a linear backoff, and reduces each product to
a slim record: id, name, url_key, price, a plain-text description and a list
of image URLs. Records are written in numbered batch files
`batch_0001.json`, `batch_0002.json`, … and every failed id is appended to a
failure log. This project models that logic and proves properties of it.
There are two copies of the logic: the package `etl/` plus
`pipelines/crawl_pipeline.py`, and the older single-file `crawl_data.py`.

Modules, one per file:

- `values.dfy` (`Values`) — JSON values as the API returns them, with
  Python truthiness, `a or b`, and `dict.get`.
- `transform.dfy` (`Transform`) — `clean_description` and
  `transform_product`: the slim record and the image list.
- `extract.dfy` (`Extract`) — `fetch_product`'s retry loop and
  `read_ids_from_csv`'s row filter.
  - The server is a script: attempt number ↦ a status with a body, or a
    transport error.
  - The sleeps are kept as their multipliers of `backoff`.
- `load.dfy` (`Load`) — the output directory and failure log, as a
  `FileStore` class updated in place and as a `Disk` value.
  - Also `save_batch`, `append_failed_record` and the resume planner
    `get_resume_info`.
- `pipeline.dfy` (`Pipeline`) — `process_one` and `run_crawl`.
  - `run_crawl` covers the defaults, the resume slice, the early return,
    the result loop with its counters, batch and file index, and the final
    flush.
  - The loop is a method proved against the value-level `CrawlPool`. That
    is `Crawl` for a positive worker count, and a `ValueError` before any
    id for a worker count of 0 or less once ids remain.
  - The whole-run lemmas are about `Crawl`, the run with a working pool.
- `legacy.dfy` (`Legacy`) — `run` of `crawl_data.py`. It differs from
  `run_crawl` in taking its batch size and worker count as given: 0 does
  not fall back to the default. So `run(max_workers=0)` raises once ids
  remain, where `run_crawl(max_workers=0)` uses a pool of 10. The lemmas
  say what a batch size of 0 does.

The other functions of `crawl_data.py` are the same as their `etl/`
counterparts. The same members model them:

| `crawl_data.py` | modelled by |
|---|---|
| `fetch_product` (26-51) | `Extract.FetchProduct` (its unused `last_exception` is dropped) |
| `clean_description` (53-57) | `Transform.CleanDescription` |
| `read_ids_from_csv` (60-71) | `Extract.ReadIdsFromCsv` |
| `transform_product` (73-102) | `Transform.TransformProduct` |
| `process_product` (105-121) | `Pipeline.ProcessOne` |
| `save_batch` (123-127) | `Load.FileStore.SaveBatch` |
| `get_get_resume_info` (131-163) | `Load.FileStore.GetResumeInfo` |
| `append_failed_record` (166-173) | `Load.FileStore.AppendFailedRecord` |

Behaviour of the code worth noting:

- **Consumption order.** The loop iterates `executor.map`, which yields
  results in submission order, not in completion order; the doc comment of
  `get_get_resume_info` relies on this. The model consumes results in id
  order.
- **Transform errors.** A transform error does not just drop the record:
  `transform_product` raises in three cases:
  - `raw.get` on a truthy value that is not a dict;
  - `clean_description` handing a truthy description that is not a string
    (a number, `True`, a list or a dict) to the HTML parser, which rejects
    it;
  - iterating a truthy `images` value that is not iterable (a number or
    `True`).

  `executor.map` re-raises such an exception in the loop, which stops the
  run: the batch still in memory is lost and no final flush happens. The
  model has this as `Raises` / `Raised` and a crashed report.
- **A 200 whose body does not decode.** The body is parsed only by
  `response.json()`. With `requests` 2.27 or later its decode error is a
  `RequestException`, so such a reply is retried like a transport error.

## Model

| member | source | states |
|---|---|---|
| Values.Or | etl/transform/transform_data.py:24-28 | `a or b` is truthy exactly when one of its operands is |
| Transform.CleanDescription | etl/transform/transform_data.py:7-11 | an empty or missing description gives ""; a non-empty string gives the extractor's text; it raises exactly for a truthy value that is not a string |
| Transform.ImageUrl | etl/transform/transform_data.py:23-30 | an entry contributes a URL iff it is a dict with a truthy `base_url`, `thumbnail_url` or `medium_url`; the URL is truthy and is the first truthy one in that priority |
| Transform.ImageEntries | etl/transform/transform_data.py:20-22 | a missing or falsy `images` gives no entries, a list gives its items, and the loop raises exactly for a truthy number or `True` |
| Transform.TransformProduct | etl/transform/transform_data.py:14-39 | the loop that appends URLs entry by entry yields exactly `Normalize` (None, a raise, or the record with `ImageUrls` of the entries) |
| Transform.ImageUrlsAppend | etl/transform/transform_data.py:22-30 | the image list of concatenated entries is the concatenation of the image lists: entry order is kept |
| Transform.ImageUrlsBounds | etl/transform/transform_data.py:22-30 | the image list is no longer than the entries, every URL in it is truthy, and it is empty when no entry contributes |
| Transform.ImageUrlsMembership | etl/transform/transform_data.py:22-30 | a URL is in the list iff some entry contributes exactly that URL |
| Transform.ImageUrlsAllBase | etl/transform/transform_data.py:23-30 | when every entry is a dict with a truthy `base_url`, the list is those `base_url`s, one per entry, in order |
| Transform.ImageUrlsExample | etl/transform/transform_data.py:22-30 | `[{base_url A}, {thumbnail_url B}, {}]` gives `[A, B]` |
| Transform.NormalizeContract | etl/transform/transform_data.py:14-39 | None iff `raw` is falsy; a raise iff `raw` is truthy and not a dict, its description is truthy and not a string, or its `images` is not iterable; otherwise id, name, url_key and price are `raw.get(...)` (None when missing), an empty description gives "" and a string one the extractor's text, a falsy `images` gives [], and the image list is no longer than the entries |
| Extract.FetchProduct | etl/extract/extract_data.py:23-49 | the loop's payload, success flag, request count and sleep trace are those of `Fetch` on the same script and budget |
| Extract.FetchBudget | etl/extract/extract_data.py:30-49 | at most `max_retries` requests; with a budget of 0 or less, no request and (None, False) |
| Extract.FetchFailureIsNone | etl/extract/extract_data.py:41-49 | every unsuccessful result has payload None |
| Extract.FetchSucceedsAt | etl/extract/extract_data.py:30-39 | if attempts before k were all retried and attempt k is a decodable 200, the result is that document with success, after k requests, having slept after each earlier attempt |
| Extract.FetchSuccessOnlyAt | etl/extract/extract_data.py:34-35 | a success comes only from a decodable 200 within budget, after attempts that were all retried; it is the last request and its body is the payload |
| Extract.FetchSuccessIff | etl/extract/extract_data.py:30-47 | success iff some attempt within budget is a decodable 200 and every attempt before it was retried |
| Extract.FetchStopsOnPermanentStatus | etl/extract/extract_data.py:37-41 | a status other than 200, 429, 500, 502, 503 and 504 ends the call at once with (None, False): no sleep after it and no further attempt |
| Extract.FetchSleeps | etl/extract/extract_data.py:37-47 | the sleeps are 1, 2, … times the backoff after each retried attempt; the last attempt is followed by a sleep only when it was a transient status, never after a transport error |
| Extract.FetchExample | etl/extract/extract_data.py:30-39 | 503, 503, 200 with a budget of 3 succeeds on the third request after sleeping 1 and then 2 backoff units |
| Extract.TrimLeftSpec | etl/extract/extract_data.py:59-60 | removing leading whitespace leaves a suffix that begins with a non-space, and only whitespace is removed |
| Extract.TrimRightSpec | etl/extract/extract_data.py:59-60 | removing trailing whitespace leaves a prefix that ends with a non-space, and only whitespace is removed |
| Extract.StripSpec | etl/extract/extract_data.py:59-60 | `strip()` gives a slice of the input with no space at either end, and gives "" iff the cell is all whitespace |
| Extract.Cap | etl/extract/extract_data.py:61-62 | the number of ids kept is at most those available; without a cap, all of them; a cap m >= 1 keeps at most m, and exactly m when at least m are available; a cap below 1 keeps exactly one id when any exists, since the check follows the append |
| Extract.CollectIdsMembership | etl/extract/extract_data.py:58-60 | an id is collected iff it is the stripped, non-empty first cell of some row; no more ids than rows |
| Extract.ReadIdsContract | etl/extract/extract_data.py:52-63 | the header row is skipped; without a cap, every id of the later rows in row order; with a cap of at least 1, a prefix of that list no longer than the cap, and exactly the cap when enough ids exist; with a cap below 1, just the first id (none when there is none); an id is read iff some later row's stripped first cell is that id |
| Extract.ReadIdsFromCsv | etl/extract/extract_data.py:52-63 | the appending loop with its early break returns exactly `ReadIds` |
| Load.SaveBatchTo | etl/load/load_data.py:8-12 | file `file_index` now holds the batch, every other file and the failure log are unchanged |
| Load.AppendFailureTo | etl/load/load_data.py:42-49 | the log grows by one row, plus a header in front of it only when the log did not exist, and the old lines are kept; the log exists afterwards |
| Load.LastContiguous | etl/load/load_data.py:15-21 | K is such that files 1..K all exist and file K + 1 does not |
| Load.LastContiguousIs | etl/load/load_data.py:19-21 | K is determined by the first gap, whatever files lie after it |
| Load.ResumeInfoContract | etl/load/load_data.py:23-39 | (0, 1) without `batch_0001`; otherwise ((K - 1) * B + count(K), K + 1), where a file that is not a list or cannot be read counts 0; the next index is K + 1 >= 1; the start is not negative for B >= 0 |
| Load.ResumeIgnoresAfterGap | etl/load/load_data.py:19-21 | two directories that agree on files 1..K + 1 give the same plan |
| Load.ResumeCountsRecords | etl/load/load_data.py:36 | when files 1..K - 1 each hold B records, the start is the total number of records in files 1..K |
| Load.FileStore.SaveBatch | etl/load/load_data.py:8-12 | the store afterwards is `SaveBatchTo` of the store before |
| Load.FileStore.AppendFailedRecord | etl/load/load_data.py:42-49 | the store afterwards is `AppendFailureTo` of the store before: the header goes in only for a new log |
| Load.FileStore.GetResumeInfo | etl/load/load_data.py:15-39 | the scan loop and the reading of the last file return exactly `ResumeInfo` of the files |
| Pipeline.OrDefault | pipelines/crawl_pipeline.py:17-18 | a given non-zero value is kept; a missing value or 0 falls back to the default |
| Pipeline.SliceFrom | pipelines/crawl_pipeline.py:29 | `ids[start:]`: the suffix from `start` for 0 <= start <= len, empty at or past the end |
| Pipeline.ProcessOneContract | pipelines/crawl_pipeline.py:40-55 | the id is kept; success iff the fetch succeeded, the payload is truthy and the transform gives a record, which is then the product; a raise iff the transform raises; a failed fetch gives a failure |
| Pipeline.Results | pipelines/crawl_pipeline.py:59 | one result per id, the i-th being `process_one` of the i-th id: submission order |
| Pipeline.SplitSpec | pipelines/crawl_pipeline.py:72-75 | the full batches and the remainder give back the successes in order; every full batch holds B records and the remainder fewer |
| Pipeline.SplitSnoc | pipelines/crawl_pipeline.py:62-75 | one more success either completes a batch, which is saved, or joins the remainder |
| Pipeline.BatchesContract | pipelines/crawl_pipeline.py:72-75 | the written batches concatenate to the successes in order; all but the last hold B records; the last holds 1..B; none is written iff there are no successes |
| Pipeline.WriteAllAt | pipelines/crawl_pipeline.py:72-75 | writing batches from index f fills files f, f + 1, … with them in order and leaves every other file alone |
| Pipeline.FailureRowsSpec | pipelines/crawl_pipeline.py:65-70 | one `(id, "fetch_failed")` row per failed id, in order |
| Pipeline.AppendFailuresSpec | pipelines/crawl_pipeline.py:65-70 | logging failures one by one leaves the batch files alone, creates the log when there is a failure, and appends the header (only for a new log) and one row per failure |
| Pipeline.ConsumeCrashSticks | pipelines/crawl_pipeline.py:84-89 | once the loop has stopped on a raise, later results change nothing |
| Pipeline.ConsumeStopsAtRaise | pipelines/crawl_pipeline.py:84-89 | the loop stops at the first raise, in the state reached by the results before it |
| Pipeline.ConsumeCounts | pipelines/crawl_pipeline.py:59-66 | without a raise, processed rises by the number of results, success by the successes, fail by the failures, and the two partition the results |
| Pipeline.ConsumeLog | pipelines/crawl_pipeline.py:65-70 | without a raise, the log gains exactly the rows of the failed ids, in order, and the header if the log was new |
| Pipeline.ConsumeAccounting | pipelines/crawl_pipeline.py:59-70 | the result loop stops iff some result raises; otherwise it counts every result, success and fail partition them, and the log gains the header (for a new log with a failure) and one row per failed id in order |
| Pipeline.SucceededBatched | pipelines/crawl_pipeline.py:62-75 | a success keeps the batching invariant: files from the start index are the full batches of the successes so far, and the batch in memory is the remainder |
| Pipeline.FailedBatched | pipelines/crawl_pipeline.py:65-75 | a failure keeps the batching invariant; failures never enter a batch |
| Pipeline.ConsumeBatched | pipelines/crawl_pipeline.py:59-75 | without a raise, the loop keeps the batching invariant over all results |
| Pipeline.RunWritesBatches | pipelines/crawl_pipeline.py:59-92 | the loop and the final flush write exactly the batches of the successes to consecutive indices from the start index |
| Pipeline.CrashedRunWritesFullBatches | pipelines/crawl_pipeline.py:84-92 | a run stopped by a raise has written only the full batches of the successes before the raise |
| Pipeline.HandleResult | pipelines/crawl_pipeline.py:60-75 | one iteration of the result loop updates the store, batch, counters and file index as `Step` does |
| Pipeline.CrawlCore | pipelines/crawl_pipeline.py:21-92 | the run's final store and report are those of `CrawlPool` on the store before the run: `Crawl`, or the `ValueError` of a pool of 0 or fewer workers once ids remain |
| Pipeline.PoolSize | pipelines/crawl_pipeline.py:36-57 | a positive worker count, or no id left, gives the run `Crawl` whatever the count; a count of 0 or less with ids left raises before any id is processed, with the disk unchanged |
| Pipeline.WorkerCountDefault | pipelines/crawl_pipeline.py:18 | `max_workers or MAX_WORKERS` is not positive exactly when a negative count is given |
| Pipeline.RunCrawl | pipelines/crawl_pipeline.py:16-92 | `run_crawl` is `CrawlPool` with a missing or 0 batch size replaced by 1000 and a missing or 0 worker count by 10; a negative worker count is kept |
| Pipeline.CrawlNothingLeft | pipelines/crawl_pipeline.py:36-38 | when the resume offset is at or past the number of ids, nothing is written, no failure row is added and nothing is processed |
| Pipeline.CrawlAccounting | pipelines/crawl_pipeline.py:59-70 | the ids to process are `ids[start:]`; the run stops iff some result raises; otherwise processed = success + fail = the number of ids to process, success and fail count the successes and failures, and the log gains exactly one row per failure (plus the header for a new log) |
| Pipeline.CrawlWritesInOrder | pipelines/crawl_pipeline.py:59-92 | a run not stopped by a raise writes the batches of the successes, in id order, from the planned index; they concatenate to the successes, all but the last hold B records |
| Pipeline.CrawlCrashLosesBatch | pipelines/crawl_pipeline.py:84-92 | a run stopped by a raise writes only full batches, and the successes still in memory are not written |
| Pipeline.ResumeAfterWrites | etl/load/load_data.py:36-37 | writing the batches of the successes s after files 1..k gives the plan (k * B + \|s\|, k + number of batches + 1) |
| Pipeline.ResumeAfterBatches | etl/load/load_data.py:36-37 | over files with no gap, the next start after writing the batches of the successes from the planned index is unchanged when there are none, else K * B + their number, whatever file K held |
| Pipeline.ResumeStep | etl/load/load_data.py:36-37 | after a run not stopped by a raise, the next start is the old start when nothing succeeded, else K * B + success |
| Pipeline.ResumeCountsOnlySuccesses | etl/load/load_data.py:36 | from full files, the next start is the old start plus the successes; it equals old start plus processed iff no fetch failed |
| Pipeline.ResumeSkipsAfterShortFile | etl/load/load_data.py:36-37 | after a short last file, the next start overshoots by B minus that file's count: ids are skipped |
| Pipeline.SecondRunIsIdle | pipelines/crawl_pipeline.py:28-38 | from files with no gap whose last one is full, after a run where every fetch succeeded, the next plan starts at the number of ids, so a second run processes nothing |
| Pipeline.RerunIsIdle | pipelines/crawl_pipeline.py:28-38 | from files with no gap whose last one holds at most `batch_size` records, after a run where every fetch succeeded, the next plan starts at or past the number of ids, and a second run writes and processes nothing |
| Legacy.Run | crawl_data.py:176-228 | `run` is `CrawlPool` with the batch size and worker count exactly as given, so a worker count of 0 raises once ids remain |
| Legacy.SpillEveryResult | crawl_data.py:212-215 | with a batch size of 0 or less, every result, failures included, is saved to a file of its own |
| Legacy.StepSpills | crawl_data.py:202-215 | with a batch size of 0 or less, one iteration saves that result's batch at the current index and moves on |
| Legacy.ZeroBatchSizeFilePerId | crawl_data.py:199-215 | `run(batch_size=0)` writes one file per processed id from the planned index: the product, or an empty list for a failure |
| Legacy.ResumeAfterEachResult | crawl_data.py:160-163 | for batch size 0 the next start is the size of the last file written |
| Legacy.ZeroBatchSizeRestarts | crawl_data.py:160-163 | after a `run(batch_size=0)` that has ids to process and is not stopped by a raise, the next plan starts at 1 if the last id succeeded and 0 if it failed: the ids already processed are crawled again |

## Left out

- HTTP is not modelled, and a fetch is a scripted sequence of attempt
  outcomes. Left out:
  - the `requests.Session` with its headers and timeout, and the URL format;
  - `response.json()` decoding beyond "decodes or not".
- Floating point is not modelled: `backoff` is a float, so each sleep is
  recorded as its integer multiplier of `backoff`, not as a duration.
  `time.sleep` itself has no effect in the model.
- The thread pool is not modelled:
  - the concurrency of `ThreadPoolExecutor`, and the cancellation of
    futures on a crash;
  - the size of the pool. A positive `max_workers` only sizes the pool and
    does not change the results (`Pipeline.PoolSize`); a worker count of 0
    or less is modelled as the `ValueError` it raises.
- The `KeyboardInterrupt` handler is not modelled. The `except Exception`
  handler is modelled only as the run stopping. Both only alert, shut the
  pool down and re-raise.
- The alerts `send_discord_alert` and `run.py` are left out. They are a
  network side effect and an entry point that only wraps `run_crawl` with
  alerts.
- `print` output and the elapsed time are left out. The run's counters are
  returned in a `Report` instead.
- The configuration module is left out (paths and directory creation). Its
  defaults BATCH_SIZE 1000, MAX_WORKERS 10 and MAX_RETRIES 3 are constants.
- CSV tokenisation and JSON formatting are left out. The id file is given
  as rows of cells; batch files are a map from index to records, or to "not
  a list" / "unreadable".
- Write failures are not modelled. A `save_batch` or `append_failed_record`
  that raises (a full disk, say) is left out, and writes always succeed.
- The id file is not re-read between runs. `Crawl` is given its rows.
- Transform.CleanDescription: only the empty-input rule and the rejection
  of a truthy non-string are stated. The HTML-to-text conversion of a
  string (BeautifulSoup, then `strip`) is a function parameter. That a
  list or dict description raises, and does not parse, rests on the
  parser's behaviour for such values, which is not modelled.
- Numbers are integers: JSON floats (a `price`, say) are modelled as
  `Num(int)`. Only their truthiness matters, and that they are copied
  verbatim into the record, so no property here depends on the fraction.
- Transform.ImageEntries: a truthy dict `images` gives no entries. Python
  iterates its keys, which are strings, so no URL comes from them either
  way.
