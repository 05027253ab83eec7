# EventFinder offline-first event repository, in Dafny

This project models the core of the EventFinder Android client: the
repository that keeps a local table of events in step with a remote event
API, and the Room DAO that holds that table.

- `event.dfy`, module `Models`: the event record (`models/Event.kt`). Two
  extra columns are added, `isFromCache: bool` and `lastSyncTimestamp: int`,
  because the repository copies them into the record.
- `collation.dfy`, module `Collation`: the text order that `ORDER BY date`
  uses. This is SQLite's BINARY collation: code point by code point, with a
  proper prefix first. The module proves that for `yyyy-MM-dd` text in ASCII
  digits this order is calendar order. Dates are free text, though. The edit
  dialog stores `""` when no date was picked, and that sorts before every
  other date. It formats a picked date in the device locale, whose digits
  need not be ASCII. Server dates are unconstrained. For such dates only text
  order (`SortedByDate`) is promised.
- `event_dao.dfy`, module `Dao`: the events table as a `map<int, Event>`
  keyed by primary key. Each SQL annotation of `EventDao` becomes a pure
  function on a table value (upsert, list upsert, update-if-present, set
  the cache flag on every row, delete by id, ordered select, max timestamp).
  The class `EventDao` holds the table in a field `rows` and applies those
  functions in place. Its invariant `Valid()` says that every row's `id` is
  the key it is stored under.
- `event_repository.dfy`, module `Repository`: the class `EventRepository`.
  It has the in-flight guard `isLoadingFromNetwork` and the two published
  flags `isLoading` and `dataFromCache`, and methods for `syncEvents`,
  `addEvent`, `updateEvent` and `deleteEvent`. Each method states the new
  table and flags on every path. `SyncedTable` gives the table after a sync,
  and lemmas state what a sync does to it.

Everything the original reads from the platform is an input to the method
that uses it:

- reachability (`NetworkUtils.isNetworkAvailable`) is `online: bool`;
- each remote call's outcome is `Remote<T> = Ok(value) | Fail`, where
  `Fail` is a thrown exception;
- the clock (`System.currentTimeMillis`) is `now: int`;
- the picked image is `hasImage: bool`.

The result of `deleteEvent`'s remote call is `Remote<int>`, holding the HTTP
status. No contract depends on the status, because the source never
inspects it.

Choices the source leaves open:

- **A row inserted without an id** goes under a fresh key: one past the
  largest key in the table, or 1 in an empty table. This is SQLite's rowid
  rule. The stored row's `id` is set to that key. `addEvent` still returns
  the record without an id, as the source does.
- **Rows with the same date** are listed in id order. SQL only promises
  date order. Every contract about the listing promises date order and
  "each row exactly once"; the id tie-break appears only in the helper
  `OrderedRows`.
- **Fresh keys follow the plain INTEGER PRIMARY KEY rule**, so a key freed
  by a delete or by `clearAllEvents` can be given out again. The entity
  declaration is not part of this model. Under Room's `autoGenerate = true`
  (AUTOINCREMENT), keys are never reused, and "1 in an empty table" would
  not hold after a clear.
- **Fetched records without an id** are stored stamped under a fresh key.
  A later record in the same list whose id equals that key replaces it. So
  a sync stores, for each id, only the last fetched record carrying it
  (`SyncStoresFetched`).

Two behaviours of the code worth stating outright:

- **Flags after a successful sync.** A successful sync stamps only the
  fetched records. A row the server no longer lists keeps
  `isFromCache = true` and its old `lastSyncTimestamp`
  (`repository/EventRepository.kt:53-64`, `SyncKeepsUnlistedRows`).
- **Delete when the remote call throws.** An exception from the remote
  delete skips the local delete and returns failure
  (`repository/EventRepository.kt:143-153`, `DeleteEvent`).

## Model

| member | source | states |
|---|---|---|
| `Collation.DateOrder` | app/src/main/java/com/moviles/eventfinder/MainActivity.kt:298-300 | for two `yyyy-MM-dd` dates, text order (as `ORDER BY date` compares) holds exactly when the first date is on or before the second in (year, month, day) order |
| `Dao.NextKey` | app/src/main/java/com/moviles/eventfinder/data/EventDao.kt:18-19 | the key for an id-less insert is not in the table, exceeds every key, and is 1 in an empty table |
| `Dao.KeyFor` | app/src/main/java/com/moviles/eventfinder/data/EventDao.kt:18-19 | an insert lands under the record's own id, or under a key not yet in the table when it has none |
| `Dao.Upsert` | app/src/main/java/com/moviles/eventfinder/data/EventDao.kt:18-19 | REPLACE insert: the table gains exactly the landing key; the row there is the record (with its id set to that key); every other row is unchanged; the key invariant is kept |
| `Dao.UpsertAll` | app/src/main/java/com/moviles/eventfinder/data/EventDao.kt:15-16 | list insert: no row disappears; every id in the list ends up in the table; a row whose id no record carries is unchanged; the key invariant is kept |
| `Dao.UpsertAllStoresLast` | app/src/main/java/com/moviles/eventfinder/data/EventDao.kt:15-16 | after a list insert, the row under an id is the last record in the list that carries that id |
| `Dao.UpsertAllIgnoresBase` | app/src/main/java/com/moviles/eventfinder/data/EventDao.kt:15-16 | for an id the list carries, the resulting row is the same whatever the table held before |
| `Dao.UpsertAllKeys` | app/src/main/java/com/moviles/eventfinder/data/EventDao.kt:15-16 | when every record has an id, the list insert adds exactly those ids to the key set |
| `Dao.UpdateRow` | app/src/main/java/com/moviles/eventfinder/data/EventDao.kt:21-22 | `@Update` never adds a row; it replaces the row whose key is the record's id, if there is one; every other row is unchanged |
| `Dao.MarkAll` | app/src/main/java/com/moviles/eventfinder/data/EventDao.kt:24-25 | every row gets `isFromCache = b`; no other column changes; the set of keys is unchanged |
| `Dao.DeleteRow` | app/src/main/java/com/moviles/eventfinder/data/EventDao.kt:27-28 | removes exactly the row with that key; a null id matches no row and removes nothing; surviving rows are unchanged |
| `Dao.OrderByDate` | app/src/main/java/com/moviles/eventfinder/data/EventDao.kt:9-10 | the listing holds every row exactly once (same count, each entry is the table's row under its id, no repeats) and is sorted by date |
| `Dao.ListingIsChronological` | app/src/main/java/com/moviles/eventfinder/data/EventDao.kt:9-10 | any two `yyyy-MM-dd` dates in the listing are in calendar order |
| `Dao.MaxTimestamp` | app/src/main/java/com/moviles/eventfinder/data/EventDao.kt:33-34 | null exactly for an empty table; otherwise a timestamp some row has and no row exceeds |
| `Dao.EventDao.GetAllEvents` | app/src/main/java/com/moviles/eventfinder/data/EventDao.kt:9-10 | the table's rows, each exactly once, sorted by date |
| `Dao.EventDao.GetEventById` | app/src/main/java/com/moviles/eventfinder/data/EventDao.kt:12-13 | some row exactly when the id is non-null and present; that row carries the requested id |
| `Dao.EventDao.InsertEvents` | app/src/main/java/com/moviles/eventfinder/data/EventDao.kt:15-16 | the new table is the list upsert of the old one; the key invariant is kept |
| `Dao.EventDao.InsertEvent` | app/src/main/java/com/moviles/eventfinder/data/EventDao.kt:18-19 | returns the landing key (the record's id, or a key new to the table); the new table is the old one with the record stored under that key |
| `Dao.EventDao.UpdateEvent` | app/src/main/java/com/moviles/eventfinder/data/EventDao.kt:21-22 | the new table is the update-if-present of the old one |
| `Dao.EventDao.UpdateCacheStatus` | app/src/main/java/com/moviles/eventfinder/data/EventDao.kt:24-25 | the new table is the old one with every row's cache flag set |
| `Dao.EventDao.DeleteEvent` | app/src/main/java/com/moviles/eventfinder/data/EventDao.kt:27-28 | the new table is the old one without the row under that id |
| `Dao.EventDao.ClearAllEvents` | app/src/main/java/com/moviles/eventfinder/data/EventDao.kt:30-31 | the table is empty |
| `Dao.EventDao.GetLastSyncTimestamp` | app/src/main/java/com/moviles/eventfinder/data/EventDao.kt:33-34 | null exactly for an empty table; otherwise the largest `lastSyncTimestamp` of any row |
| `Repository.Stamped` | app/src/main/java/com/moviles/eventfinder/repository/EventRepository.kt:61 | a stamped record keeps its content and id, has `isFromCache` false, and has `lastSyncTimestamp` equal to `now` |
| `Repository.StampAll` | app/src/main/java/com/moviles/eventfinder/repository/EventRepository.kt:59-62 | the stamped list has the fetched list's length, and each position holds that record stamped |
| `Repository.SyncedTable` | app/src/main/java/com/moviles/eventfinder/repository/EventRepository.kt:50-74 | offline, the table is unchanged; a sync never removes a row; on a failed fetch, every row is flagged cached with content and timestamp unchanged and no row is added |
| `Repository.SyncStoresFetched` | app/src/main/java/com/moviles/eventfinder/repository/EventRepository.kt:56-64 | after a successful sync, each fetched record with an id is stored under it, stamped as confirmed at `now` (the last one wins when several share an id) |
| `Repository.SyncKeepsUnlistedRows` | app/src/main/java/com/moviles/eventfinder/repository/EventRepository.kt:53-64 | after a successful sync, a row whose id the server did not list is still present and is exactly the old row flagged cached: same content, same old `lastSyncTimestamp` |
| `Repository.SyncIdempotent` | app/src/main/java/com/moviles/eventfinder/repository/EventRepository.kt:53-64 | when every fetched record has an id, two syncs with the same list and time leave the same table as one sync |
| `Repository.SyncSetsLastSyncTimestamp` | app/src/main/java/com/moviles/eventfinder/repository/EventRepository.kt:59-64 | after a successful sync that fetched at least one record, with no row stamped later than `now`, the table's max timestamp is `now` |
| `Repository.EventRepository.constructor` | app/src/main/java/com/moviles/eventfinder/repository/EventRepository.kt:22-36 | the guard and both published flags start false |
| `Repository.EventRepository.GetAllEvents` | app/src/main/java/com/moviles/eventfinder/repository/EventRepository.kt:39-41 | the local table's rows, each exactly once, sorted by date |
| `Repository.EventRepository.GetEventById` | app/src/main/java/com/moviles/eventfinder/repository/EventRepository.kt:159-161 | the local row with that id, or nothing when the id is null or absent |
| `Repository.EventRepository.SyncEvents` | app/src/main/java/com/moviles/eventfinder/repository/EventRepository.kt:44-79 | with a sync in flight, nothing changes; otherwise the guard and `isLoading` end false, `dataFromCache` is false exactly when online and the fetch returned, and the table is `SyncedTable` of the old table |
| `Repository.EventRepository.AddEvent` | app/src/main/java/com/moviles/eventfinder/repository/EventRepository.kt:82-115 | online with an image: on failure, the result is failure and the table is unchanged; on success, the server's record is stored stamped and returned unstamped. Otherwise: the record flagged cached is upserted and returned as is (id not taken from the insert). The flags never change |
| `Repository.EventRepository.UpdateEvent` | app/src/main/java/com/moviles/eventfinder/repository/EventRepository.kt:118-138 | online: on failure, the result is failure and the table is unchanged; on success, the server's record is written stamped (update-if-present) and returned. Offline: the record flagged cached is written and returned as success |
| `Repository.EventRepository.DeleteEvent` | app/src/main/java/com/moviles/eventfinder/repository/EventRepository.kt:141-156 | online with an exception: failure and the table unchanged; otherwise (offline, or any response status): success and the row removed |

## Left out

- Concurrency. Calls are sequential, and the in-flight guard is modelled
  only as a field check at the start of `SyncEvents`. The source's guard is
  a plain, non-atomic `var`, and `add`/`update`/`delete` can interleave
  with a sync. So the claim that two concurrent syncs collapse into one is
  not modelled.
- Publication of the flags and of the listing through `StateFlow`/`Flow`.
  The model keeps only each flag's final value, not the intermediate
  `isLoading = true`. The live listing becomes a read of the table.
- `uriToFile`, the multipart request body and the HTTP transport. An image
  is only present or absent. A failure while copying the image counts as a
  failure of the create call (`created = Fail`), which is how the source's
  single `catch` treats it.
- The reachability probe and the clock, which are inputs.
- Failures of the local database, and Room's transactions. DAO operations
  always succeed.
- Integer widths. `id` is Kotlin `Int` and timestamps are `Long`; both are
  unbounded here. Overflow of the fresh row key is not modelled.
- `EventViewModel`, the Compose screens, date formatting, notifications and
  logging. The dialog's dispatch rule (null id → add, else update) is not
  imposed as a precondition: `AddEvent` and `UpdateEvent` handle records
  with and without an id as the DAO does.
- No pending-upload queue. A record added or edited offline is never
  re-sent by a later sync, in the source or in the model.
