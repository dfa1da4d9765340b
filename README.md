# url-shortener: the record store and the deferred-delete pipeline

This project models the core of the url-shortener service in Dafny. The core has six parts:

- The local store of the URL service: an in-memory index from short code to `URLRecord`, and an append-only log of records. The record is appended to the log file as JSON and replayed at start-up.
- The relational `urls` table behind the optional database, and the storage statements run against it: point lookup, insert, batched insert, tombstone update, per-user listing and distinct counts.
- The service operations over both: `SaveURL`, `GetURL`, `ShortenBatch`, `GetStats` and `GetUserURLs`.
- The deferred-delete pipeline `DeleteURLs` / `processURLs` / `commitDB`. It buffers delete requests, commits a batch at 10 records, flushes on a timer tick, flushes on closed input, and gives up on cancellation.
- The earlier service iteration (`URLStorage` in `internal/services/shortener.go`). It has the same shape but different rules, and is kept as a separate module for contrast.
- Configuration defaulting and file overrides, and the earliest counter-based server with its own configuration.

## Modules

- `Models` (`models.dfy`): the record shapes, the error values of both error files, and the encoder `Codec`.
  - The base62 encoder is a parameter `encode: string -> string`.
  - Where a proof needs injectivity, the lemma says so with `requires Injective(encode)`.
  - `FirstFault` holds the "stop at the first failing statement" rule that every driver loop follows.
- `Table` (`table.dfy`): the `urls` table as a sequence of rows `(user_id, short_url, url, deleted)`.
  - `url` is the only unique column, as the schema declares.
  - Driver failures are inputs: a `bool` per statement, or a `set<nat>` of the statement indices that fail.
  - `SaveBatch`, `Delete` and `GetMultiple` are loop methods, each proved against a recursive specification function.
- `Storage` (`storage.dfy`): `Storage.New` reads and decodes the log, rebuilds the index, and opens the database handle.
- `Services` (`services.dfy`): the current URL service.
  - The specification functions `SaveURLStep`, `GetURLStep`, `GetStatsStep` and `ShortenBatchStep` work on a `Storage` value.
  - The class `URLs` holds the same state in fields.
  - Its methods are proved to change it exactly as those functions say.
- `Deletion` (`deletion.dfy`): the delete pipeline as a sequential machine.
  - It reads a sequence of events: `Item(record)`, `Tick`, `Closed`, `Cancel`.
  - These stand for what the `select` of the coordinating loop can receive.
  - `Process` is the specification; `ProcessURLs` is the loop method proved equal to it.
- `LegacyService` (`legacy_service.dfy`): the earlier iteration. Its record carries an `ID` numbered by `Count`.
- `Config`, `AppConfig`, `AppTransport` (`config.dfy`, `app_config.dfy`, `app_transport.dfy`): the configuration objects and the counter-based router.
  - Each is a class whose methods assign fields in place.
  - Each method is proved equal to a function on values.

I/O, clocks and the database driver are inputs throughout:

- The log file is a sequence of decoded lines.
- A failed log write is a `logFault` flag.
- The outcome of an `INSERT` is a fault flag, checked against the `url` key of the table.
- A timer tick is an event.
- The decoded configuration file is a value.

## Observed behaviour the model exposes

The model reproduces these behaviours of the code as written rather than correcting them.

- **Replay is keyed by URL.** Start-up replay indexes each record under its original URL (`internal/storage/storage.go:50`), while saving and looking up index by short code. `Storage.ReplayKeysByURL` and `Services.RestartForgetsCodes` show that a code saved before a restart is no longer found by `GetURL` without a database.
- **GetURL prefers the index.** With a database, `GetURL` returns a database error unchanged. It throws away a successful database answer and answers from the index (`Services.GetURLStep`).
- **DeleteURLs can wait forever.** `DeleteURLs` closes its channel only after `processURLs` returns, and uses a background context (`internal/services/delete_urls.go:12-14`). So, barring the WaitGroup race at `internal/services/delete_urls.go:35-42`, neither the closed branch nor cancellation is reachable from it. When the number of requests is a multiple of 10, every record leaves in a full batch and afterwards only empty ticks arrive, so the loop never returns (`Deletion.DeleteURLsWaitsForever`).
- **The earlier iteration has its own quirks.**
  - `ServGet` turns a failed scan into `("", nil)`.
  - The result of `tx.Commit` is ignored, so a failed commit is reported as success.
  - Its batch statement is prepared on the connection, not the transaction, so inserts before a failing one stand.
  - Any tick ends its pipeline.
- **The only unique column is `url`.** The schema declares `url text PRIMARY KEY` and no other constraint (`internal/storage/storage.go:23`). Two rows with the same short code and different URLs are therefore not rejected by the table (`Table.Insert`, `Table.SaveBatchSucceeds`).
- **A failed delete returns the driver's error.** `Delete` returns the error of the failing update as it is (`internal/storage/delete.go:22-24`), and `commitDB` returns the BeginTx, Delete or Commit error unchanged (`internal/services/delete_urls.go:95-107`). `ErrorTxCommit` (`internal/storage/errors.go:13`) is declared but never returned.
- **DeleteURLs waits for the pipeline.** `DeleteURLs` returns the result of `processURLs` (`internal/services/delete_urls.go:24`), so the caller blocks until the loop returns (`Services.URLs.DeleteURLs`).

## Model

| member | source | states |
|---|---|---|
| Table.Insert | internal/storage/save.go:14-15 | one insert succeeds exactly when the driver does not fail and the url is not yet in the table; it appends exactly `(user, code, url, deleted=false)`; on a unique violation or a driver error the table is unchanged; it keeps url unique |
| Table.Save | internal/storage/save.go:13-24 | Save succeeds exactly when the insert does; a url already present gives ErrorDuplicate and leaves the table unchanged; any driver failure gives ErrorURLSave |
| Table.Find | internal/storage/get.go:12-13 | the scanned row is a row of the table carrying the code; there is none exactly when no row carries it |
| Table.Get | internal/storage/get.go:10-28 | a scan failure or no row gives an error; `deleted` gives ErrorURLDeleted even with a url; a live row with a url gives that url, and the row is in the table; an empty url gives ErrorNotFound; a url never comes with an error |
| Table.GetIgnoresUser | internal/storage/get.go:12-13 | tables that differ only in user_id answer every lookup alike |
| Table.SaveBatch | internal/storage/save_batch.go:12-28 | the insert loop equals the recursive specification InsertFrom |
| Table.SaveBatchPrefix | internal/storage/save_batch.go:13-25 | the table gains the rows of the batch prefix before the first failing item, in request order, with the batch-level user and each URL's code; later items are not attempted |
| Table.SaveBatchSucceeds | internal/storage/save_batch.go:16-25 | the batch succeeds exactly when no statement faults and its URLs are absent from the table and pairwise distinct |
| Table.SaveBatchIgnoresItemUser | internal/storage/save_batch.go:14-19 | each item's own UserID has no effect on the table or the error |
| Table.Delete | internal/storage/delete.go:10-27 | the update loop equals the recursive specification DeleteFrom |
| Table.DeleteStopsAtFirstError | internal/storage/delete.go:11-24 | the updates for the records before the first failing one are applied, in order, and no later ones; the error is reported exactly when a statement fails |
| Table.TombstoneAllRows | internal/storage/delete.go:12-20 | every row keeps user, code and url; its deleted flag is set exactly when some record names its user and code, or was already set |
| Table.TombstonesMonotonic | internal/storage/delete.go:13 | deleted is never set back to false |
| Table.TombstoneNoMatch | internal/storage/delete.go:11-26 | records that match no row leave the table unchanged |
| Table.TombstoneIdempotent | internal/storage/delete.go:12-20 | applying a record list twice gives the table of applying it once |
| Table.ListingRows | internal/storage/get_multiple.go:11-16 | a (code, url) pair is listed for a user exactly when some row of that user holds it |
| Table.ListingIgnoresTombstones | internal/storage/get_multiple.go:11-14 | tombstoning never changes a user's listing |
| Table.GetMultiple | internal/storage/get_multiple.go:10-36 | a query error leaves `*res` untouched; otherwise the listing rows are appended after the existing contents, up to the first failing scan; a scan or rows.Err failure is returned after the rows appended so far |
| Table.Stats | internal/storage/stats.go:11-42 | on success the counts are the numbers of distinct urls and of distinct users; if either query fails the result is a zero Stats and the error |
| Table.DistinctURLsOfKeyedTable | internal/storage/storage.go:23 | with url unique, the distinct-url count is the number of rows |
| Table.StatsIgnoreTombstones | internal/storage/stats.go:15-30 | tombstoned rows are still counted: updates change neither count |
| Table.SaveGetDeleteRoundTrip | internal/storage/get.go:20-26 | a saved url whose code no other row carries is returned by Get until a delete naming its user and code, after which Get gives ErrorURLDeleted |
| Storage.New | internal/storage/storage.go:27-74 | an open failure or any undecodable line aborts with no store; on success the log is the decoded lines, the index is their replay, and the database handle is present exactly when a DSN is configured; a connect or schema failure aborts |
| Storage.ReplayEntries | internal/storage/storage.go:36-51 | the rebuilt index's keys are exactly the URLs on the log, and each value is a record of the log stored under its own URL, deleted flag included |
| Storage.ReplayLastWins | internal/storage/storage.go:49-51 | when a URL repeats on the log, its last record is the one indexed |
| Storage.ReplayIsLogged | internal/storage/storage.go:49-51 | every entry of the rebuilt index is on the log |
| Storage.ReplayKeysByURL | internal/storage/storage.go:50 | a record whose code differs from its URL is indexed under the URL and not under its code |
| Services.SaveURLStep | internal/services/save_url.go:11-39 | the returned code is the URL's encoding on every path except a log-write failure, which returns ""; without a database the only possible error is a log-write failure; after a successful database Save the table keeps the new row, even when the log write then fails |
| Services.SaveURLIgnoresUser | internal/services/save_url.go:12-23 | the code and the error do not depend on the user |
| Services.SaveURLDatabaseError | internal/services/save_url.go:20-25 | with a database, a Save error (ErrorDuplicate included) is returned with the code and the store unchanged |
| Services.SaveURLNewCode | internal/services/save_url.go:27-35 | past the database, a code not yet indexed appends `{user, code, url, false}` to the log once and indexes it under the code; a log failure returns "" and changes nothing |
| Services.SaveURLKnownCode | internal/services/save_url.go:27-38 | past the database, an indexed code leaves index and log unchanged and returns the code without error |
| Services.SaveURLPairsAppendWithInsert | internal/services/save_url.go:28-37 | either the log grows by one record and the index gains that record, or neither changes |
| Services.SaveTwiceLogsOnce | internal/services/save_url.go:27-37 | saving the same URL twice, under any users and faults, appends to the log at most once |
| Services.SaveURLKeepsInvariants | internal/services/save_url.go:14-35 | every index entry stays under its own code, the encoding of its URL, and on the log |
| Services.GetURLStep | internal/services/get_url.go:8-24 | with a database any Storage.Get error is returned unchanged; otherwise the index answers, even after a successful database lookup; an absent code gives ("", ErrorNotFound) |
| Services.SaveThenGetWithoutDatabase | internal/services/get_url.go:16-20 | without a database and with an injective encoder, a code SaveURL returned without error looks up its URL |
| Services.CollidingURLsShareEntry | internal/services/save_url.go:27-38 | two URLs with one code: the second save returns that code and GetURL answers the first URL |
| Services.RestartForgetsCodes | internal/storage/storage.go:49-51 | after a restart a saved code is not found by GetURL without a database, because the index is keyed by URL |
| Services.GetStatsStep | internal/services/get_stats.go:9-25 | no database gives zero Stats and ErrorNoDB; a storage error gives zero Stats and that error; on success the counts are the table's distinct urls and users |
| Services.Transaction | internal/services/shorten_batch.go:13-30 | a failing BeginTx, SaveBatch or Commit leaves the table unchanged; success keeps the batch's inserts; it succeeds exactly when none of them fails |
| Services.ShortenBatchStep | internal/services/shorten_batch.go:12-55 | a failed transaction returns before responses, index or log change; without a database the only possible error is a log-write failure |
| Services.LocalResponses | internal/services/shorten_batch.go:32-41 | the responses `(id, code of url)` are appended in request order after the caller's earlier ones; a log failure at item k leaves responses 0..k |
| Services.LocalKeepsStore | internal/services/shorten_batch.go:43-52 | the local loop only appends to the log and only adds index entries, never overwriting one |
| Services.LocalAppendsFresh | internal/services/shorten_batch.go:33-51 | every appended record has an empty user, the code of its URL and deleted=false, and its code was not indexed before |
| Services.LocalAppendsDistinct | internal/services/shorten_batch.go:43-52 | the codes appended are pairwise distinct: a URL repeated in the batch is logged only at its first occurrence |
| Services.LocalIndexesFromLog | internal/services/shorten_batch.go:43-52 | every new index entry is an appended record stored under its own code; on success every URL of the batch is indexed |
| Services.LocalIndexesBeforeFailure | internal/services/shorten_batch.go:38-52 | after a log failure at item k the code of every item before k is indexed |
| Services.ShortenBatchKeepsInvariants | internal/services/shorten_batch.go:32-53 | ShortenBatch keeps every index entry under its own code, the encoding of its URL, and on the log |
| Services.ShortenBatchExistingURLFails | internal/services/shorten_batch.go:13-25 | with a database, a batch holding a URL already in the table fails and changes nothing |
| Services.URLs.SaveURL | internal/services/save_url.go:11-39 | the object's new state, code and error are those of SaveURLStep |
| Services.URLs.GetURL | internal/services/get_url.go:8-24 | the answer is that of GetURLStep and nothing changes |
| Services.URLs.GetStats | internal/services/get_stats.go:9-25 | the answer is that of GetStatsStep and nothing changes |
| Services.URLs.GetUserURLs | internal/services/get_user_urls.go:9-18 | no database returns nil and leaves `*res` untouched; otherwise the result and error of GetMultiple, never the index |
| Services.URLs.ShortenBatch | internal/services/shorten_batch.go:12-55 | the object's new state, responses and error are those of ShortenBatchStep |
| Services.URLs.DeleteURLs | internal/services/delete_urls.go:11-25 | running the pipeline over the events its channel can produce gives Deletion.Process's run, and only the table changes |
| Deletion.CommitDB | internal/services/delete_urls.go:92-110 | no database is a success that records nothing; with one, it succeeds exactly when BeginTx, every update and Commit succeed, and then the table is tombstoned; a failure leaves the table unchanged |
| Deletion.ProcessURLs | internal/services/delete_urls.go:27-90 | the select loop equals the specification Process |
| Deletion.FillChannel | internal/services/delete_urls.go:16-22 | one record per requested code, in order, with the caller's user and duplicates kept |
| Deletion.EachRecordAtMostOnce | internal/services/delete_urls.go:70-80 | the committed batches followed by the buffer are a prefix of the received records in arrival order, so no record is committed twice; while the loop waits they are all of them; earlier batches are kept |
| Deletion.BufferBelowFlush | internal/services/delete_urls.go:71-79 | while the loop is waiting the buffer holds fewer than 10 records |
| Deletion.BatchSizes | internal/services/delete_urls.go:70-87 | every committed batch holds between 1 and 10 records, and every batch but the last holds exactly 10 |
| Deletion.NoDatabaseRecordsNothing | internal/services/delete_urls.go:92-110 | without a database no commit fails and nothing is recorded: the loop returns nil or the cancellation error, or is still waiting |
| Deletion.ProcessSplit | internal/services/delete_urls.go:53-89 | running two event sequences in a row is running the second from where the first left off, if the loop was still waiting |
| Deletion.CancelDropsBuffer | internal/services/delete_urls.go:55-59 | cancellation returns the cancellation error and commits nothing from the buffer |
| Deletion.TickFlushesAndStops | internal/services/delete_urls.go:82-87 | a tick with a non-empty buffer commits it once and returns commitDB's result, whatever input remains |
| Deletion.ClosedFinalFlush | internal/services/delete_urls.go:61-68 | closed input commits a non-empty buffer once and returns its result; with an empty buffer it returns nil without a commit |
| Deletion.FullBufferCommits | internal/services/delete_urls.go:70-80 | the record that fills the buffer to 10 is committed with it as one batch; an error is returned at once, otherwise the buffer is emptied |
| Deletion.ItemsAreBuffered | internal/services/delete_urls.go:70-80 | records that do not fill the buffer are only appended to it: the loop keeps waiting with nothing committed |
| Deletion.TenRequestsCommitOnce | internal/services/delete_urls.go:70-80 | ten requests in succession are committed exactly once, as one batch, without a tick |
| Deletion.ThreeRequestsThenTick | internal/services/delete_urls.go:82-87 | three requests followed by a tick are committed in one transaction and the loop returns |
| Deletion.OneRequestThenCancel | internal/services/delete_urls.go:55-59 | one request followed by cancellation returns the cancellation error and commits nothing |
| Deletion.DeleteURLsWaitsForever | internal/services/delete_urls.go:11-24 | a multiple of 10 requests, all received, followed by any number of ticks leaves the loop still waiting |
| Deletion.DeleteURLsTickCommitsRemainder | internal/services/delete_urls.go:82-87 | otherwise the first tick after the last record commits the remainder as the last batch and returns |
| LegacyService.ServSaveStep | internal/services/shortener.go:52-86 | with a database, a unique violation returns the code with Duplicate and any other error returns "" with DatabaseSave, both before the index changes; a success returns the code; the database flag is kept |
| LegacyService.ServSaveCounts | internal/services/shortener.go:72-83 | a new code appends to the log, indexes the record and increments Count by one; a known code changes nothing; a log failure returns "" and changes nothing |
| LegacyService.ServSaveKeepsNumbering | internal/services/shortener.go:55-82 | the records stay numbered by the Count they were saved at, and indexed under their codes |
| LegacyService.ServGet | internal/services/shortener.go:88-116 | with a database a failed scan gives ("", nil), a deleted row URLDeleted, an empty url NotFound, otherwise the url; without one an index lookup with NotFound when absent |
| LegacyService.ServGetHidesScanFailure | internal/services/shortener.go:93-96 | a failed scan reports no error, although it differs from a found row with an empty url |
| LegacyService.ServSaveThenGet | internal/services/shortener.go:108-115 | without a database and with an injective encoder, a code ServSave returned without error looks up its URL |
| LegacyService.PingDB | internal/services/shortener.go:118-124 | alive exactly when a database is present and the ping succeeds |
| LegacyService.DatabaseBlock | internal/services/shortener.go:127-151 | it succeeds exactly when Begin, Prepare and every Exec succeed; every insert carries the same id, Count; on an Exec failure the inserts before it have been issued |
| LegacyService.LocalFrom | internal/services/shortener.go:153-176 | the local loop issues no database insert and keeps the database flag |
| LegacyService.LocalResponses | internal/services/shortener.go:160-171 | the responses `(id, code of url)` are appended in request order after the caller's earlier ones; a log failure at item k returns LogWrite with responses 0..k |
| LegacyService.LocalRecordsUnowned | internal/services/shortener.go:154-172 | the local loop keeps the earlier log and appends only records with an empty user, whatever the caller's userID, not deleted, under the code of their URL |
| LegacyService.ShortenBatchStep | internal/services/shortener.go:126-179 | a failing database block returns with the store and responses unchanged; without a database no insert is issued |
| LegacyService.LocalKeepsNumbering | internal/services/shortener.go:153-176 | the local loop keeps the records numbered by Count and indexed under their codes |
| LegacyService.BatchSharesOneID | internal/services/shortener.go:141-145 | every insert of one batch carries the same id, the Count before the batch |
| LegacyService.BatchFailureKeepsEarlierInserts | internal/services/shortener.go:135-148 | an Exec failing at item k returns the error with the k earlier inserts issued |
| LegacyService.CommitDB | internal/services/shortener.go:271-295 | no database reports success with nothing applied; a failure of Begin, Prepare or an Exec is returned; the batch is applied exactly when the commit also succeeds |
| LegacyService.CommitFailureUnreported | internal/services/shortener.go:292 | a failed Commit is reported as success although nothing was applied |
| LegacyService.Process | internal/services/shortener.go:246-268 | there is one report per committed batch; a returned error is a commit's error |
| LegacyService.ProcessURLs | internal/services/shortener.go:223-269 | the select loop equals the specification Process |
| LegacyService.TickEndsProcessing | internal/services/shortener.go:262-266 | any tick ends processing, whatever input is left: a non-empty buffer is committed once as the last batch and commitDB's result returned; an empty buffer returns nil with no new batch; earlier batches are kept, none is empty, and without a database the result is nil |
| LegacyService.DeleteURLsReturnsAtTick | internal/services/shortener.go:208-221 | DeleteURLs' records followed by a tick always return |
| LegacyService.URLStorage.ServSave | internal/services/shortener.go:52-86 | the object's new state, code and error are those of ServSaveStep |
| LegacyService.URLStorage.ShortenBatch | internal/services/shortener.go:126-179 | the object's new state, responses, issued inserts and error are those of ShortenBatchStep |
| Config.Defaults | internal/config/config.go:55-65 | ServerAddr, BaseURL and StoragePath end non-empty; empty ones become "localhost:8080", "http://" + the defaulted ServerAddr, and "urls.json"; every other field is kept |
| Config.DefaultsIdempotent | internal/config/config.go:55-65 | defaulting twice changes nothing more |
| Config.Merge | internal/config/config.go:87-112 | the file can switch HTTPS on but never off; the Config path is kept |
| Config.NewStep | internal/config/config.go:69-116 | an empty Config path only applies the defaults; a read or decode failure returns its error before any field changes; on success the three defaulted fields are non-empty |
| Config.FileOverrides | internal/config/config.go:87-112 | each non-empty string field of the file survives defaulting; an empty one leaves a non-empty setting as it was (the database address and trusted subnet even when empty); HTTPS is never switched off |
| Config.NewIsSettled | internal/config/config.go:114 | after a successful New a further defaulting changes nothing |
| Config.Cfg.Read | internal/config/config.go:49-66 | the object's new fields are Defaults of the old ones |
| Config.Cfg.New | internal/config/config.go:69-116 | the object's new fields and the error are those of NewStep |
| AppConfig.Defaults | internal/app/config/config.go:10-19 | an empty HTTPAddr becomes "localhost:8080"; an empty BaseAddr becomes "http://" + the defaulted HTTPAddr; non-empty fields are kept and both end non-empty |
| AppConfig.DefaultsIdempotent | internal/app/config/config.go:10-19 | a second Read changes nothing |
| AppConfig.Cfg.Read | internal/app/config/config.go:10-19 | the object's new fields are Defaults of the old ones |
| AppTransport.Wrap64 | internal/app/transport/transport.go:52 | the result is within int64 and congruent to its argument modulo 2^64, and equal to it when it already fits |
| AppTransport.PostStep | internal/app/transport/transport.go:27-57 | a POST is accepted with 201 exactly when it is a POST with a readable, non-empty body starting with "https://" or "http://"; every refusal is a 400 with the state unchanged |
| AppTransport.PostRefusals | internal/app/transport/transport.go:28-48 | the four refusals and their messages, in the order they are checked |
| AppTransport.PostAccepted | internal/app/transport/transport.go:50-56 | an accepted POST increments the counter by one, maps the code of counter*1000000 to the body, and answers 201 with BaseAddr + "/" + code |
| AppTransport.NoDeduplication | internal/app/transport/transport.go:50-53 | for any int64 counter below the last two values, posting one URL twice stores it under the codes of the two wrapped counters and gives two different answers |
| AppTransport.GetStep | internal/app/transport/transport.go:59-81 | a known id redirects with 307 to its URL; an unknown id gives 400 "URL not found!"; an empty id 400 "URL is empty!"; any other method 400 |
| AppTransport.PostThenGet | internal/app/transport/transport.go:50-75 | a URL accepted by PostURL is returned by GetURL under the code of the answer |
| AppTransport.Router.PostURL | internal/app/transport/transport.go:27-57 | the router's new state and its response are those of PostStep |
| AppTransport.Router.GetURL | internal/app/transport/transport.go:59-81 | the response is that of GetStep and the state does not change |

## Left out

- HTTP and gRPC plumbing is not modelled: routing, middleware, authentication, status mapping. `AppTransport` models only the two handlers of the counter-based server. It does not model the Redirect body or the Content-Type header.
- Concurrency is not modelled: the reader/writer lock, goroutines, the WaitGroup fan-in, channels and tickers. Each call runs sequentially, and the `select` of `processURLs` is a given sequence of events. As a result, the model does not capture these:
  - the lock left held when the log write fails in `SaveURL` and `ShortenBatch`;
  - the unlocked "already indexed" check;
  - races between concurrent saves;
  - the WaitGroup race at `internal/services/delete_urls.go:35-42`: the goroutine that waits and closes the result channel starts before the first `wg.Add(1)`, so it can close the channel at once, fire the closed branch with an empty buffer, and make the fan-in's send panic.
- Timer intervals (1 second in the current pipeline, 5 seconds in the earlier one) are not modelled; a tick is an event.
- The base62 encoders are parameters, not reimplemented.
- The SQL driver, prepared statements and PostgreSQL error codes stand behind the abstract table and fault inputs. The SQL text of `internal/storage/sql.go` is not modelled, including its malformed `GetURL` string. The earlier iteration's database access is a set of outcome inputs: of the SQL constants it names, `SaveURL`, `GetUserURL` and `DeleteURL` are not defined in the package, and `GetURL` is defined but malformed.
- File and JSON I/O is not modelled. The log is a sequence of decoded lines. A failed log write is a flag. The configuration file arrives already decoded or as a read or decode failure.
- `env.Parse` is not modelled; `Config.Defaults` starts from the parsed fields. This includes the second parse that `Read` performs inside `New`, where environment variables would override values from the file.
- The decoding of the configuration file into `tempCfg` is not modelled. Its fields carry only `env` tags.
- The `ping_db.go` and `pingdb.go` wrappers are not modelled. Their only logic, "no database is not alive", is `LegacyService.PingDB`.
- The earlier iteration's `GetUserURLs` (`internal/services/shortener.go:181-206`) is not modelled. It is a similar per-user listing, but it prepares `storage.GetUserURL`, which the package does not define, and it never checks `rows.Err()`.
- `ErrorTxCommit` is declared but never returned, so it is not part of the error values.
- Table.Get: when several rows share a short code, the model takes the first in table order. The code takes whichever row the database returns.
- Services.URLs.DeleteURLs: it requires that its events come from a channel holding the requested records, with no close and no cancellation. Barring the WaitGroup race at `internal/services/delete_urls.go:35-42`, the code delivers neither on this path; the full pipeline with both is `Deletion.ProcessURLs`.
- Stats counts are unbounded integers; the width of the driver's integer is not modelled.
