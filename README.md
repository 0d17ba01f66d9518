# url-shortener: the identifier lifecycle, modelled in Dafny

This project models the core of thegodmouse/url-shortener, a Go service that
maps numeric ids to URLs. The core is the path an id takes through its life:

- `Shorten` creates a row in the relational store. It either recycles an id
  from the pool of deleted or expired ids, or inserts a fresh one. It then
  primes the Redis cache with the new record.
- `RedirectTo` reads the cache first and falls back to the store on any
  cache error. After a store miss it writes a negative ("not exist") entry;
  after a cache miss it fills the cache. Only then does it decide whether the
  record is live.
- `Delete` stops early on a cached tombstone or negative entry. Otherwise it
  deletes in the store, which makes the id recyclable, and writes a tombstone.
- A sweeper tick reads the expired ids and expires each one. An error on one
  id does not stop the others.
- Ids travel in URLs as decimal strings. `ConvertToURLID` and `ConvertToID`
  are the codec.

Modules follow the Go packages. `Errors` and `Decimal` are additions: they
stand for Go's error conventions and the standard-library formatting and
parsing the codec calls.

- `Errors` holds error values and Go's error-returning conventions.
  `Option<Error>` is a nillable `error`. `Result<T>` is a `(*T, error)` pair.
- `Record` holds `record.ShortURL`, Go's `int64` and time. It also holds
  the tombstone and the negative entry.
- `Decimal` holds Go's `%d` formatting and `strconv.ParseInt(s, 10, 64)`.
- `Converter` holds the id codec.
- `Cache` holds `makeKey`, the Redis map with its TTL, and the `RedisCache`
  class.
- `Store` holds the tables, the transaction outcomes and the `SqlStore`
  class.
- `Util` holds the liveness predicates and one sweeper tick.
- `Redirect` and `Shortener` hold the two services, as pure outcome
  functions and as classes over the two stores.
- `Lifecycle` holds properties that span both services.

Conventions:

- Time is an integer count of seconds. The caller passes `now` in. `Before`
  is a strict `<`. Go's zero `time.Time` is `ZeroTime`, year 1 in Unix
  seconds.
- The cache TTL is 600 seconds.
- Every call into Redis or MySQL takes a fault parameter. For a single call
  this is an `Option<nat>`: `Some(code)` makes the call fail with
  `Failure(code)`. For a transaction it is an `Option<TxFault>`, which names
  the statement that fails.
- A fault on a statement the call never reaches has no effect.
- A failing transaction returns early. Its tables are copied at `Begin` and
  published only at `Commit`, so an early return discards the changes, as the
  deferred `Rollback` does.
- `SELECT ... FOR UPDATE SKIP LOCKED` may yield any id in the pool. `Create`
  returns the yielded id as the ghost out-parameter `claimed`.
- Faults are parameters, separate from the tables and the cache. A
  transient error can therefore be told apart from the state that decides
  an outcome.
- The two errors that follow from the state itself have their own values:
  `ErrAutoIncrementExhausted` (no int64 id left) and `ErrInvalidUnmarshal`
  (the as-written cache `Get`).

`db/sql.go` as shown is an older version of the store. Its `Create` inserts
and then reads the row back. Its `Delete` only sets `is_deleted`. Those bodies
appear as `CreateAsWritten`, `Get` and `DeleteAsWritten`.

The Store interface's comments (db/store.go:18-27) and the statements the
mocks expect in db/sql_test.go describe the version the services and the
sweeper run against. `Create` (recycle, else insert), `Delete`, `Expire` and
`GetExpiredIDs` follow that version, and are marked test-derived below.

Where the sources disagree, the model follows the code. Where the code shown
is the older store version, it follows the tests of the newer one:

- The record type has no `IsNotExist` field (db/record/record.go:9-15), and
  util.go has no `IsRecordNotExist`. Both services use them. The model adds
  the field, with `IsRecordNotExist` defined like `IsRecordDeleted`.
- services/shortener/impl_test.go:262-308 expects a negative entry after the
  store's `ErrNoRows`. impl.go writes none (services/shortener/impl.go:54-57).
  The model follows impl.go.
- One account of the sweep has an expired row keep `is_deleted = false`. The
  Expire test (db/sql_test.go:541-570) expects `UPDATE ... SET is_deleted =
  true` and an insert into the pool. The model follows the test.
- `RedirectTo` returns the store's `ErrNoRows` when a store read after a
  cache miss or cache error finds no row. It returns `ErrURLNotFound` for an
  unavailable record, including a cached negative entry.
- The codec is not injective on the strings it accepts. `"007"` decodes to 7,
  and 7 encodes as `"7"`. The inverse law holds from ids to strings, and back
  only on canonical strings.

## Model

The specifying functions without an `ensures` of their own (`Cache.GetOutcome`,
`Cache.SetOutcome`, `Cache.EvictOutcome`, `Util.ExpireAll`,
`Redirect.CacheWrite`, `Redirect.Resolve`) have no row: the rows of the class
methods and lemmas that are stated through them cover them.

| member | source | states |
|---|---|---|
| Converter.ConvertToURLID | converter/converter.go:32-34 | never fails; the string is canonical decimal and parses back to the id |
| Converter.ConvertToID | converter/converter.go:37-44 | succeeds exactly on an optional sign plus one or more digits whose value fits int64, and then returns that value; otherwise returns (0, ErrURLFormat) |
| Converter.RoundTrip | converter/converter.go:16-17 | decoding the encoding of any int64 gives the id back with no error |
| Converter.CanonicalRoundTrip | converter/converter.go:16-17 | encoding the decoding of an accepted canonical string gives the string back |
| Converter.NonCanonicalAlias | converter/converter.go:38 | "007" decodes to 7, which encodes as "7": decoding is not injective |
| Converter.EncodeExample | converter/converter_test.go:42-49 | 12345 encodes as "12345" |
| Converter.DecodeExample | converter/converter_test.go:23-30 | "67890" decodes to 67890 |
| Converter.MalformedExamples | converter/converter_test.go:32-40 | "abcde", "" and "-" give (0, ErrURLFormat) |
| Decimal.FormatThenParse | converter/converter.go:33 | ParseInt reads back every int64 that %d formats |
| Decimal.ParseThenFormat | converter/converter.go:38 | formatting an accepted canonical string's value gives the string back |
| Decimal.ParseIntExactly | converter/converter.go:38 | ParseInt accepts exactly the signed decimals in int64 range and yields their value |
| Decimal.FormatIntIsCanonical | converter/converter.go:33 | %d output has no '+', no leading zero and no "-0" |
| Decimal.DigitsOfFormatNat | converter/converter.go:33 | the digits of a formatted natural number read back to its value |
| Decimal.FormatNatOfDigits | converter/converter.go:38 | a digit string without leading zeros is what its value formats to |
| Decimal.FormatNat | converter/converter.go:33 | output is a non-empty digit string that starts with '0' only for 0 |
| Record.Tombstone | services/shortener/impl.go:59 | the tombstone carries the id, is deleted, not a negative entry, and has no URL or expiry |
| Record.NegativeEntry | services/redirect/impl.go:33 | the negative entry carries the id, is not-exist, not deleted, and has no URL or expiry |
| Cache.MakeKey | cache/redis.go:58-60 | the key is "id#" followed by the canonical decimal of the id (no "+", no leading zero, no "-0"), which parses back to the id; with Decimal.ParseThenFormat this fixes the suffix as exactly the %v form |
| Cache.MakeKeyExamples | cache/redis.go:58-60 | keys of 0, 123 and -456 are "id#0", "id#123" and "id#-456" |
| Cache.MakeKeyInjective | cache/redis.go:58-60 | distinct ids give distinct keys |
| Cache.GetMissSignal | cache/redis.go:36-42 | Get fails with ErrKeyNotFound exactly when no fault occurs and the key is absent or past its TTL; any fault gives another error |
| Cache.SetThenGet | cache/redis.go:44-49 | after a successful Set, Get returns the same record until the TTL ends and misses from then on |
| Cache.FailedSetStoresNothing | cache/redis.go:45-47 | a failing Set returns its error and leaves the map as it was |
| Cache.WritesTouchOnlyTheirKey | cache/redis.go:51-56 | Set and Evict of one id leave what Get returns for every other id unchanged |
| Cache.EvictThenGet | cache/redis.go:51-56 | after a successful Evict the id misses |
| Cache.AsWrittenGetNeverHits | cache/redis.go:36-42 | as written, Get fails even right after a successful Set, with an error other than the miss signal |
| Cache.LookupAsWritten | cache/redis.go:36-42 | as written, Get always fails; it gives the miss signal exactly where the intended lookup misses |
| Cache.RedisCache.constructor | cache/redis.go:20-29 | a new cache is empty and uses the default 10-minute TTL |
| Cache.RedisCache.Get | cache/redis.go:36-42 | returns the (intended) lookup of makeKey(id) and changes nothing |
| Cache.RedisCache.Set | cache/redis.go:44-49 | stores the record under makeKey(id) with deadline now + TTL and touches no other key; on failure stores nothing |
| Cache.RedisCache.Evict | cache/redis.go:51-56 | removes makeKey(id) only; on failure changes nothing |
| Store.CreateAsWrittenOutcome | db/sql.go:21-60 | keeps the store consistent; success inserts the row under the next counter value, with the url and expireAt, created now and not deleted; any failure, or an exhausted counter, changes nothing |
| Store.GetOutcome | db/sql.go:62-76 | returns the stored row as it is (deleted or expired alike), ErrNoRows for an absent id, the failure on a fault |
| Store.DeleteAsWrittenOutcome | db/sql.go:78-84 | sets is_deleted on row id only, frees no id, and succeeds even when no row matches |
| Store.CreateOutcome | db/sql_test.go:68-101 | test-derived: keeps the store consistent; succeeds exactly when begin does not fail and, on the recycle path (pool query succeeds on a non-empty pool), no pool delete, update or commit fails, or, on the insert path, no insert, last-id or commit fails and the counter is within int64; an error is the injected one or counter exhaustion; success returns a fresh record (url, expireAt, created now, not deleted) under an id that was not live and is live afterwards; it is the claimed pool id when the pool query succeeds on a non-empty pool, otherwise the next counter value; failures change nothing |
| Store.RetireOutcome | db/sql_test.go:335-385 | test-derived: keeps the store consistent; succeeds exactly when a pooled id meets no begin, pool-query or commit fault, or a present (and, for Expire, expired) row meets no fault on its path; an error is ErrNoRows or the injected one; an id already in the pool succeeds with no change; otherwise success marks that row deleted, adds the id to the pool and leaves every other row alone; failures change nothing |
| Store.DeleteOutcome | db/sql_test.go:335-539 | test-derived: a pooled id succeeds with no change unless begin, pool query or commit fails; a live row succeeds exactly when no statement on its path fails, and is then marked deleted and pooled; an id without a row gives ErrNoRows |
| Store.ExpireOutcome | db/sql_test.go:541-589 | test-derived: as Delete, but a live row succeeds only when its expire_at < now; otherwise ErrNoRows |
| Store.ExpireLiveRow | db/sql_test.go:541-570 | test-derived: Expire of a live expired row succeeds exactly when no statement on its path fails, and then retires exactly that row |
| Store.RetireIdempotent | db/sql_test.go:366-385 | test-derived: a second Delete or Expire of a retired id succeeds and changes nothing |
| Store.RetireGuards | db/sql_test.go:541-570 | test-derived: Expire retires a row only when expire_at < now; Delete and Expire of an id with no row fail with ErrNoRows |
| Store.ExpiredAreLive | db/sql_test.go:591-615 | the rows the expiry query selects are never already in the pool |
| Store.SqlStore.constructor | db/sql.go:11-15 | a new store is empty and consistent, with the counter at 1 |
| Store.SqlStore.CreateAsWritten | db/sql.go:21-60 | implements CreateAsWrittenOutcome statement by statement |
| Store.SqlStore.Get | db/sql.go:62-76 | returns GetOutcome and changes nothing |
| Store.SqlStore.DeleteAsWritten | db/sql.go:78-84 | implements DeleteAsWrittenOutcome |
| Store.SqlStore.Create | db/store.go:18-19 | test-derived: implements CreateOutcome; the id it claims lies in the pool whenever the pool is not empty |
| Store.SqlStore.Retire | db/sql_test.go:335-570 | test-derived: the shared transaction, statement by statement, equal to RetireOutcome on the published state |
| Store.SqlStore.Delete | db/store.go:26-27 | test-derived: implements the retire transaction without the expiry guard |
| Store.SqlStore.Expire | db/store.go:24-25 | test-derived: implements the retire transaction with the guard expire_at < now |
| Store.SqlStore.GetExpiredIDs | db/sql_test.go:591-678 | test-derived: a query fault gives that error; otherwise every yielded id is expired and not deleted, each appears once, and the result is complete unless a row error after k rows cuts it to at most k ids (complete if fewer) |
| Util.IsRecordExpired | util/util.go:19-24 | false for nil; otherwise true exactly when ExpireAt is strictly before now |
| Util.IsRecordDeleted | util/util.go:27-32 | false for nil; otherwise exactly the IsDeleted flag |
| Util.IsRecordNotExist | services/redirect/impl.go:46 | false for nil; otherwise exactly the not-exist flag |
| Util.NilIsNeitherExpiredNorDeleted | util/util.go:19-32 | nil is neither expired, nor deleted, nor a negative entry |
| Util.ExpiryIndependentOfDeletion | util/util.go:23 | IsDeleted never changes IsRecordExpired, and ExpireAt never changes IsRecordDeleted |
| Util.ZeroValuesUnavailable | util/util.go:23 | a zero-valued record is expired but not deleted, so tombstones and negative entries are never live |
| Util.RetiredMembers | util/util.go:54-58 | an id counts as retired exactly when it was swept and its Expire reached commit |
| Util.ExpireAllFrame | util/util.go:54-58 | expiring other ids leaves an expired row unchanged and out of the pool |
| Util.ExpireAllEffect | util/util.go:54-58 | after one Expire per distinct expired id, in order, exactly the ids whose transaction committed are deleted and in the pool, and nothing else changed |
| Util.ExpireEach | util/util.go:54-58 | calls Expire once per id, in order, going on after errors; the i-th error is nil exactly when that id's transaction reached commit |
| Util.SweepTick | util/util.go:48-58 | a scan error ends the tick with no Expire; otherwise every swept id is expired, occurs once, all are swept when no row error occurs, the committed ones become deleted and recyclable, and only the store changes |
| Redirect.ReadOutcome | services/redirect/impl.go:54-69 | the read is cached exactly when the cache Get succeeds, and is then the cached entry still within its deadline (a tombstone or negative entry included); otherwise it is the store's answer |
| Redirect.RedirectOutcome | services/redirect/impl.go:28-52 | writes no key but the id's; a write happens only after a cache miss without a write fault, stores the store's row (or the negative entry after ErrNoRows) with deadline now + TTL; a URL is returned only for a live record read, and is its URL |
| Redirect.MissServedIffAvailable | services/redirect/impl.go:46-51 | on a cache miss, id resolves to u exactly when its row exists, is not deleted, is not expired, and holds u |
| Redirect.HitIgnoresStore | services/redirect/impl.go:54-59 | on a cache hit the result is independent of the store and its faults, and the cache is not written |
| Redirect.CacheFailureActsAsMiss | services/redirect/impl.go:60-64 | any cache read failure gives the result an empty cache gives |
| Redirect.CacheWriteFailureInvisible | services/redirect/impl.go:33-43 | a failing cache write changes neither the result nor the cache |
| Redirect.StoreErrorPassedThrough | services/redirect/impl.go:30-37 | a store error other than ErrNoRows is returned as it is, with no cache write |
| Redirect.MissFillsCache | services/redirect/impl.go:39-44 | after a miss the cache holds the store's row for the TTL, even a deleted or expired one |
| Redirect.NegativeCaching | services/redirect/impl.go:32-37 | a store miss returns ErrNoRows and leaves a negative entry, so within the TTL the id resolves to ErrURLNotFound whatever the store holds |
| Redirect.NeverServesUnavailable | services/redirect/impl.go:46-51 | a URL is returned exactly when the record read is not expired, deleted or not-exist, and it is that record's URL; an unavailable record gives ErrURLNotFound |
| Redirect.RedirectService.constructor | services/redirect/impl.go:15-20 | the service holds the given stores |
| Redirect.RedirectService.GetShortURL | services/redirect/impl.go:54-69 | a cache hit with isCached; otherwise the store's answer without it; changes nothing |
| Redirect.RedirectService.RedirectTo | services/redirect/impl.go:28-52 | implements the read, the negative-entry or fill write, and the liveness decision |
| Shortener.ShortenOutcome | services/shortener/impl.go:28-40 | the tables are those Create leaves; Shorten succeeds exactly when Create does and returns the created id; on failure the cache and tables are unchanged |
| Shortener.DeleteOutcome | services/shortener/impl.go:43-64 | keeps the store consistent; a short-circuit changes nothing and returns nil; otherwise tables and result are the store Delete's; on an error the cache is unchanged |
| Shortener.ShortenEffect | services/shortener/impl.go:28-40 | success returns an id that was not live, now holds the new row, and is cached with it for the TTL; failure returns the store's error and changes nothing |
| Shortener.ShortenCacheFailureInvisible | services/shortener/impl.go:35-37 | a failing cache write changes neither the id nor the tables |
| Shortener.SuccessiveShortensDistinct | services/shortener/impl.go:28-40 | two successful Shorten calls in a row return distinct ids |
| Shortener.DeleteShortCircuit | services/shortener/impl.go:45-52 | a cached tombstone or negative entry gives nil without touching the store |
| Shortener.DeleteDefersToStore | services/shortener/impl.go:54-63 | otherwise Delete returns the store's outcome unchanged; success leaves a tombstone for the TTL and failure writes nothing |
| Shortener.DeleteCacheFailureInvisible | services/shortener/impl.go:59-61 | a failing tombstone write changes neither the result nor the tables |
| Shortener.DeleteIdempotent | services/shortener/impl.go:43-64 | after a Delete the store carried out, a later Delete succeeds and leaves the tables unchanged |
| Shortener.ShortenerService.constructor | services/shortener/impl.go:15-20 | the service holds the given stores |
| Shortener.ShortenerService.Shorten | services/shortener/impl.go:28-40 | implements create then cache priming, and keeps the store consistent |
| Shortener.ShortenerService.Delete | services/shortener/impl.go:43-64 | implements the short-circuit, the store delete and the tombstone write, and keeps the store consistent |
| Lifecycle.ShortenThenRedirect | services/redirect/impl.go:54-59 | right after Shorten, the id resolves to its URL from the cache until the TTL or the link expires |
| Lifecycle.DeleteThenRedirect | services/shortener/impl.go:59 | after a Delete with its tombstone written, the id resolves to ErrURLNotFound within the TTL whatever the store holds |
| Lifecycle.DeletedRowNotServed | services/redirect/impl.go:46-49 | after a store delete, a cache miss never serves the row |
| Lifecycle.StaleEntryAfterFailedTombstone | services/shortener/impl.go:59-61 | when the tombstone write fails, a live cached record is still served after Delete |
| Lifecycle.RecycleScenario | db/store.go:18 | from an empty system: Shorten gives id 1, Delete frees it, the next Shorten reuses id 1, and RedirectTo then serves the new URL |

## Left out

- The HTTP layer (api/api.go, dto/), the server wiring and configuration
  (server/server.go, config/config.go) are framework and process plumbing.
- services/redirect/service.go, services/shortener/service.go, db/db.go and
  db/record/shorturl.go are not part of this model. They are older versions
  that conflict with the files modelled.
- The sweeper's goroutine, ticker, `ctx.Done()` select and `done` channel
  (util/util.go:35-47, 59-63) are left out as concurrency. `SweepTick` is one
  tick, run sequentially.
- `GetExpiredIDs` streams ids over a channel. The model collects them into a
  sequence, and the tick consumes it after the query ends.
- Concurrency: `FOR UPDATE SKIP LOCKED`, parallel creates, and any
  interleaving of transactions. Calls run one at a time.
- Wall clock and Redis expiry: the caller supplies `now`. A key expires when
  `now` reaches its deadline. Each tick uses one `now` for the query and for
  every Expire.
- Record serialisation (`MarshalBinary` / `UnmarshalBinary` over JSON) is
  left out. The cache stores record values.
- Logging is left out.
- Cache.RedisCache.Get: it models the intended lookup, not redis.go as
  written. The as-written form is `Cache.LookupAsWritten`; see Findings.
- Store.CreateOutcome, Store.CreateAsWrittenOutcome: a counter past the
  int64 maximum is modelled as a failed insert (`AutoIncrementExhausted`).
  MySQL's behaviour there is outside the source.
- Store.CreateOutcome, Store.CreateAsWrittenOutcome: a rollback restores the
  whole tables, the auto-increment counter included. InnoDB does not hand
  back auto-increment values on rollback. After an insert that fails later
  in its transaction, the model reuses an id that MySQL would skip.
- Store.SqlStore.Create: which pool id SKIP LOCKED yields is the database's
  choice. The model states only that the id lies in the pool.
- Shortener.ShortenerService.Shorten: Go returns `(0, err)` on failure. The
  model returns `Err(err)`, so the 0 is implicit. The same goes for the empty
  URL that `RedirectTo` returns with an error.

## Findings

| source | as written | input that shows it | evidently intended | confidence | as-written member | corrected member |
|---|---|---|---|---|---|---|
| cache/redis.go:36-42 | `Get` declares `var shortURL *record.ShortURL` and scans into that nil pointer. The JSON unmarshal into a nil pointer fails, so a live key never yields its record. | `Set(1, r)`, then `Get(1)` within the TTL: an unmarshal error, not `r` | scan into `&record.ShortURL{}` and return it, so a hit returns the stored record | medium; not executed | Cache.AsWrittenGetNeverHits | Cache.SetThenGet |
