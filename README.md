# Alias lifecycle of a link shortener, in Dafny

This project models the core of a FastAPI/SQLAlchemy link shortener. That core is the life of a short alias:

- **Code derivation** (`src/shorturl.py`). A URL's short code is the first six characters of the lowercase hex SHA-256 digest of the URL.
- **Request handlers** (`src/router1.py`). The model covers these handlers:
  - create an alias, either a custom one or a hashed code re-salted on collision;
  - redirect through a code, which counts the visit and stamps its time;
  - read a code's statistics;
  - search codes by original URL;
  - delete an alias, which only its owner may do.
- **Expiry sweep** (`src/task.py`). Aliases past their explicit expiry, or older than `n_days_expired` whole days (30 by default), are copied into the archive table and then deleted from the active table.

Modules:

- `Wrappers` (wrappers.dfy): `Option`, `Result` and `Outcome`.
- `ShortUrl` (shorturl.dfy): `ShortenUrlHash`. SHA-256 is a parameter of type `Sha256 = string -> HexDigest`, where `HexDigest` is any 64-character lowercase hex string. The function works for every such hash, so nothing depends on how the hash is computed.
- `Records` (records.dfy): the active row and the archive row. It also holds the table queries shared by the handlers and the sweep:
  - `Codes`, `IndexOf` and `Filter`, where `Filter` is a SQL `WHERE` kept in table order;
  - `UniqueCodes`, which states that no two rows share a code;
  - `CountsKept`, which states that no code's redirect counter went down.
- `Links` (links.dfy): the request handlers.
  - A `Store` class holds `active: seq<Record>` and `archive: seq<ArchivedRecord>`.
  - `Store.Valid()` states that active codes are pairwise distinct. The model proves this uniqueness; it does not assume it by using a map.
  - `Shorten`, `Resolve` and `Delete` change the store in place. Their contracts give the new tables in terms of the old ones.
  - `Search` and `Stats` are functions of the active table.
  - The collision loop is the method `PickCode`. Its specification is the function `FreeCode`.
- `Sweep` (sweep.dfy): the selection predicate `IsExpired`, the pure selection and survivor functions `Select` and `Keep`, and the archive rows `ArchiveRows`. `DeleteExpired` is the sweep's `for` loop of archive inserts followed by the bulk delete.
- `Scenarios` (scenarios.dfy): request sequences on a fresh store, proved from the operations' contracts alone.

Time is a whole number of seconds, passed in as `now`. Random salts are a supplied sequence. Errors are the `Links.Error` variants, not HTTP status codes.

Where the code behaves surprisingly, the model follows the code:

- The expiry sent with a create request is never stored (src/router1.py:56-61). So an alias created with an expiry in the past survives a sweep (`Scenarios.RequestExpiryIgnored`).
- The sweep's archive inserts are caught one by one and the loop goes on (src/task.py:52-57); the final delete runs whatever happened to them (src/task.py:60-68). When a failed insert leaves the database session usable, the selected alias is deleted without an archive row and ends up in neither table (`Sweep.FailedInsertLosesAlias`).
- `src/db.py:24-30` declares no `expires_at` column, yet the sweep reads one (src/task.py:32) and the create request carries one (src/pydantic_schemas.py:13). Records get an optional `expiresAt`, which the sweep reads. Creation always leaves it absent.
- The archive table's declaration is not part of this model. Its columns are the ones the sweep inserts (src/task.py:41-49).

## Model

| member | source | states |
|---|---|---|
| `ShortUrl.ShortenUrlHash` | src/shorturl.py:3-12 | any string, the empty one included, gives a code of exactly 6 characters, each a lowercase hex digit, that is a prefix of the 64-character SHA-256 hex digest of the input |
| `Links.FreeCode` | src/router1.py:44-47 | the collision loop's result is never a taken code; a free first candidate is kept as is; any other result is the hash of the original URL plus one of the salts (never salted cumulatively); no result only when every candidate was taken |
| `Links.PickCode` | src/router1.py:44-47 | the `while` loop that re-salts and rehashes while the code is taken settles on exactly `FreeCode`'s result |
| `Links.RequestedAlias` | src/router1.py:37 | a custom alias is used exactly when the request carries one that is not empty; an empty one counts as absent |
| `Links.ChooseCode` | src/router1.py:28-47 | the code chosen is never among the codes read at the start; `AliasTaken` exactly when a non-empty custom alias is already taken; a free non-empty custom alias is used verbatim and never re-salted; without one (absent or empty) the URL's own hash is used when it is free, and otherwise the code is the hash of the URL plus one salt; `SaltsExhausted` exactly when there is no custom alias and the URL's hash and every salted hash are taken |
| `Links.NewRecord` | src/router1.py:56-61 | the inserted row carries the caller's id or none, the request's URL and the chosen code, is stamped with the insertion time, and starts with no visit, no last use and no expiry, whatever expiry the request carried |
| `Links.NewRecordAsWritten` | src/db.py:29 | the row the code actually inserts differs from `NewRecord` only in its creation stamp, which is the moment the table declaration was loaded |
| `Links.AppendFresh` | src/router1.py:64-67 | inserting a row whose code is not yet taken keeps active codes pairwise distinct, adds exactly that code, and leaves every old row, its counter included, exactly as it was |
| `Links.Store.Shorten` | src/router1.py:22-72 | the outcome is `ChooseCode` on the codes held before; on success exactly one row is appended with count 0, the caller's id or none, the request's URL, the returned code, no last use and no expiry; on failure nothing changes; uniqueness is kept |
| `Links.Visited` | src/router1.py:121-132 | the two UPDATEs by code: every row with the code gets one more visit and last use `now`, its other fields unchanged; every other row is unchanged; the table keeps its length |
| `Links.VisitedAt` | src/router1.py:121-132 | with unique codes, the redirect's updates touch only the row with the code: count plus one, last use `now`; codes stay the same and unique, and no counter goes down |
| `Links.Store.Resolve` | src/router1.py:93-134 | an unknown code gives `NotFound` and changes nothing; a known one returns its row's original URL, adds exactly 1 to its count and sets its last use to `now`, and changes no other row |
| `Links.Search` | src/router1.py:76-91 | returns one code per row whose original URL equals the query, in table order (possibly none): the i-th code is the code of the i-th matching row, and a code is listed exactly when some row with that URL holds it |
| `Links.LastWithCode` | src/router1.py:159-167 | the row the stats loop keeps exists exactly when the code is in the table, and it is a row with that code |
| `Links.Stats` | src/router1.py:145-178 | an unknown code fails; otherwise the reply is the URL, redirect count, creation time and last use of a row with that code |
| `Links.StatsUnique` | src/router1.py:150-167 | with unique codes, the statistics are those of the single row with the code |
| `Links.StatsAfterVisit` | src/router1.py:121-132 | after one redirect, the code's statistics report one more visit and last use `now`, with URL and creation time unchanged |
| `Links.OwnersOf` | src/router1.py:189-201 | the owners of a code are among the owners of any alias; there are none exactly when the code is unknown; under unique codes they are exactly the owner of the one row with the code (`None` for an anonymous alias) |
| `Links.RemoveOwned` | src/router1.py:209-212 | the owner-and-code DELETE leaves no row of the caller with the code, keeps every other row, and adds no code |
| `Links.RemoveOwnedAt` | src/router1.py:209-214 | with unique codes, the owner-and-code delete removes exactly that one row, keeps the rest in order, and leaves the code absent |
| `Links.RemoveOwnedKeeps` | src/router1.py:203-212 | when the caller owns the code, the DELETE removes exactly the row holding it, the code is then absent, codes stay unique and no counter goes down |
| `Links.Store.Delete` | src/router1.py:182-222 | `NoAliasesOwned` exactly when the caller owns no alias; `NotOwner` exactly when the caller owns some alias but none with this code, including an unknown code or an anonymous alias; otherwise exactly that row is removed and the code no longer resolves; on failure nothing changes |
| `Records.ToArchived` | src/task.py:41-49 | the archive row keeps every field of the active row, with `expired_at` taken from `expires_at`; the active row can be rebuilt from it |
| `Records.IndexOf` | src/router1.py:111-113 | the first row holding a code that is present, as the redirect's `[0]` takes it |
| `Records.UniqueIndex` | src/db.py:27 | under the unique constraint, the row holding a code is the first and only one |
| `Records.Filter` | src/task.py:30-37 | a `WHERE` selection keeps exactly the rows passing the test, in table order, and adds no code |
| `Records.FilterUnique` | src/db.py:27 | deleting rows never breaks code uniqueness |
| `Records.FilterCountsKept` | src/task.py:61-68 | in a table with unique codes, deleting rows leaves every remaining row, its counter included, exactly as it was, so no counter goes down |
| `Sweep.WholeDays` | src/task.py:33 | the day field of an interval is its whole number of days, truncated toward zero: for a non-negative interval the largest day count not above it, for a negative one the smallest not below it |
| `Sweep.IsExpired` | src/task.py:30-35 | a row whose expiry has passed (`expires_at <= now`) is selected; a row without an expiry is selected exactly when it is at least `n_days_expired` + 1 whole days old |
| `Sweep.Partition` | src/task.py:30-68 | selected rows and surviving rows together are exactly the active table; every selected row satisfies the predicate and no survivor does |
| `Sweep.NothingSelected` | src/task.py:39 | when nothing is selected, the active table is unchanged |
| `Sweep.Idempotent` | src/task.py:30-68 | a second pass at the same `now` selects nothing and keeps every row |
| `Sweep.ArchiveRows` | src/task.py:40-57 | every archive row added is the archive row of a selected record whose insert did not fail, and there are at most as many as were selected |
| `Sweep.ArchiveRowsKeepGoing` | src/task.py:52-57 | the insert loop carries on past a failure: every selected record whose own insert succeeds is archived, whichever others fail |
| `Sweep.ArchiveRowsComplete` | src/task.py:40-57 | when no insert fails, every selected record is archived, in selection order |
| `Sweep.SweptAliasMoves` | src/task.py:40-68 | a selected alias is gone from the active table afterwards and, when no insert fails, appears in the archive |
| `Sweep.FailedInsertLosesAlias` | src/task.py:52-70 | any selected alias whose archive insert fails, while the session stays usable, is still deleted by the final delete, and its code is then in neither table |
| `Sweep.DeleteExpired` | src/task.py:19-70 | the archive gains `ArchiveRows` of the selection; the active table becomes the survivors, or stays as it was when the delete fails; nothing changes when nothing is selected; uniqueness is kept and no counter goes down |
| `Sweep.AsWrittenSweepsNewAlias` | src/db.py:29 | as written, once the process has run more than `n_days_expired` whole days, an alias created at that very moment is selected; stamped with its insertion time it is not |
| `Sweep.NewAliasSurvives` | src/db.py:29 | an alias stamped with its insertion time is not swept for age within its first `n_days_expired` + 1 days |
| `Scenarios.CreateVisitStats` | src/router1.py:22-178 | create without an alias gives the URL's hash; one redirect returns the URL; the statistics then report count 1 and last use `now` |
| `Scenarios.CustomAliasTwice` | src/router1.py:37-40 | the same non-empty custom alias twice: the first succeeds verbatim, the second fails `AliasTaken`, and only that one code is stored |
| `Scenarios.DeleteThenResolve` | src/router1.py:182-214 | the owner's delete succeeds and a redirect through the code then gives `NotFound` |
| `Scenarios.SweepStaleAlias` | src/task.py:30-68 | an alias older than 30 days is archived by one sweep and no longer resolves |
| `Scenarios.RequestExpiryIgnored` | src/router1.py:56-61 | an expiry sent with the create request is not stored, so a sweep after that expiry leaves the alias resolvable |

`ShortUrl.ShortenUrlHash` is deterministic by construction: a Dafny function gives equal results on equal inputs.

## Findings

| source | as written | input that shows it | evidently intended | confidence | as-written member | corrected member |
|---|---|---|---|---|---|---|
| src/db.py:29 | `default=datetime.datetime.now()` calls `now()` once, when the module is loaded, so every row's `created_at` is the process start time | process started at day 0; an alias created on day 31 is selected by the day-31 sweep (age over 30 days), though it is seconds old | `created_at` is the insertion time (a callable default) | high, not executed | `Links.NewRecordAsWritten`, shown by `Sweep.AsWrittenSweepsNewAlias` | `Links.NewRecord`, proved by `Sweep.NewAliasSurvives`; used by `Links.Store.Shorten` |

## Left out

- Web and database plumbing is not modelled:
  - FastAPI routing, dependency injection, `HTTPException` status codes and `RedirectResponse`;
  - SQLAlchemy sessions and commits;
  - the server errors raised when a query fails (src/router1.py:33-34, 68-69, 115-116, 135-139);
  - the search's error reply when its query fails (src/router1.py:85-89), so `Links.Search` always answers.
  The tables are in-memory sequences.
- The `id` primary key column (src/db.py:24) is left out. Rows are identified by their code, which is unique.
- SHA-256 and the UTF-8 encoding before it (src/shorturl.py:9-11) are a foreign library call. They are an arbitrary function returning a 64-character lowercase hex digest.
- `Links.Store.Shorten`: the source draws random salts forever (src/router1.py:45-47). The model takes the salts as a finite sequence and fails with `SaltsExhausted` when they run out. Its contract therefore speaks only of runs that settle within the supplied salts.
- Wall-clock time is the `now` parameter. The sweep's SELECT and DELETE each read the clock (src/task.py:32-33, 63-64); the model uses one `now` per pass.
- `Sweep.DeleteExpired`: the order of selected rows follows the table, because the SELECT has no ORDER BY. Insert failures are a given set of positions and the delete's failure a given flag, independent of each other. The model does not capture that the sweep runs in one session with no rollback: on a database such as PostgreSQL a failed INSERT aborts the transaction, so the inserts after it and the final DELETE (`deleteFails`) fail too, and the selected aliases then stay active. `Sweep.FailedInsertLosesAlias` describes only failures that leave the session usable.
- `Links.Stats`: asking for the statistics of an unknown code fails in the code with a generic server error, because `result` is never bound (src/router1.py:161-176). The model reports `NotFound` instead.
- `Links.Store.Resolve`: the count and the last-use time are two UPDATEs with a commit each (src/router1.py:121-132). The model applies both together and does not model a failure between them.
- `Links.Store.Resolve`: `open_url_count` is a 32-bit `Integer` column (src/db.py:28). The model's counter is an unbounded `nat`, so it does not capture that the UPDATE fails once the count reaches 2^31 - 1.
- Concurrency is out of scope: the collision race between reading the codes and inserting, and the atomicity of the counter. The model is sequential.
- Celery scheduling and broker setup (src/task.py:1-19) are not modelled.
- `src/router2.py` is not modelled. It is a lifespan loop that deletes by expiry every 300 seconds, and it is not mounted by the application.
- `src/router3.py`, a read-only archive listing, is not modelled.
- The user model and authentication are not part of this model. The caller's identity is a parameter.
