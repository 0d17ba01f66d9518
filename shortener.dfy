/** Package services/shortener: create a short URL (and prime the cache with
    it) and delete one (and leave a tombstone in the cache). */
module Shortener {
  import opened Errors
  import opened Record
  import Util
  import Cache
  import Store

  /** Shorten as a whole: the cache and tables it leaves and the id it
      returns. A failed cache write is logged only. */
  function ShortenOutcome(entries: map<string, Cache.Entry>, expiration: int, t: Store.Tables,
                          url: string, expireAt: Time, now: Time, createFault: Option<Store.TxFault>,
                          claimed: Int64, cacheSetFault: Option<nat>): (o: (map<string, Cache.Entry>, Store.Tables, Result<Int64>))
    requires Store.Consistent(t)
    requires t.pool != {} ==> claimed in t.pool
    ensures Store.Consistent(o.1)
    ensures o.1 == Store.CreateOutcome(t, url, expireAt, now, createFault, claimed).0
    ensures o.2.Ok? <==> Store.CreateOutcome(t, url, expireAt, now, createFault, claimed).1.Ok?
    ensures o.2.Err? ==> o.0 == entries && o.1 == t
    ensures o.2.Ok? ==> o.2.value == Store.CreateOutcome(t, url, expireAt, now, createFault, claimed).1.value.id
  {
    var (t', created) := Store.CreateOutcome(t, url, expireAt, now, createFault, claimed);
    if created.Err? then (entries, t', Err(created.error))
    else
      var record := created.value;
      (Cache.SetOutcome(entries, record.id, record, now, expiration, cacheSetFault).0, t', Ok(record.id))
  }

  /** Whether the cache answers Delete alone: it holds a tombstone or a
      negative entry for id. */
  predicate ShortCircuits(entries: map<string, Cache.Entry>, id: Int64, now: Time, cacheGetFault: Option<nat>)
  {
    var cached := Cache.GetOutcome(entries, id, now, cacheGetFault);
    cached.Ok? && (cached.value.isDeleted || cached.value.isNotExist)
  }

  /** Delete as a whole. A cached tombstone or negative entry ends the call
      with success; otherwise the store deletes and, on success, the cache
      gets a tombstone. The store's error is returned unchanged. */
  function DeleteOutcome(entries: map<string, Cache.Entry>, expiration: int, t: Store.Tables, id: Int64,
                         now: Time, cacheGetFault: Option<nat>, dbFault: Option<Store.TxFault>,
                         cacheSetFault: Option<nat>): (o: (map<string, Cache.Entry>, Store.Tables, Option<Error>))
    requires Store.Consistent(t)
    ensures Store.Consistent(o.1)
    ensures ShortCircuits(entries, id, now, cacheGetFault) ==> o == (entries, t, None)
    ensures !ShortCircuits(entries, id, now, cacheGetFault) ==> (o.1, o.2) == Store.DeleteOutcome(t, id, dbFault)
    ensures o.2.Some? ==> o.0 == entries && o.1 == t
  {
    if ShortCircuits(entries, id, now, cacheGetFault) then (entries, t, None)
    else
      var (t', err) := Store.DeleteOutcome(t, id, dbFault);
      if err.Some? then (entries, t', err)
      else (Cache.SetOutcome(entries, id, Tombstone(id), now, expiration, cacheSetFault).0, t', None)
  }

  /** Shorten returns an id that was not live before and now maps to the new
      record, both in the store and, for the TTL, in the cache; on failure
      nothing changes and the store's error is returned. */
  lemma ShortenEffect(entries: map<string, Cache.Entry>, expiration: int, t: Store.Tables, url: string,
                      expireAt: Time, now: Time, createFault: Option<Store.TxFault>, claimed: Int64,
                      later: Time)
    requires Store.Consistent(t)
    requires t.pool != {} ==> claimed in t.pool
    requires now <= later < now + expiration
    ensures var (entries', t', r) := ShortenOutcome(entries, expiration, t, url, expireAt, now, createFault, claimed, None);
            && Store.Consistent(t')
            && (r.Err? ==> entries' == entries && t' == t && Store.CreateOutcome(t, url, expireAt, now, createFault, claimed).1 == Err(r.error))
            && (r.Ok? ==> r.value !in Store.LiveIDs(t) && r.value in Store.LiveIDs(t')
                          && t'.rows[r.value] == Store.NewRow(r.value, url, expireAt, now)
                          && Cache.GetOutcome(entries', r.value, later, None) == Ok(t'.rows[r.value]))
  {
  }

  /** A failed cache write changes neither the result of Shorten nor the
      tables, and leaves the cache as it was. */
  lemma ShortenCacheFailureInvisible(entries: map<string, Cache.Entry>, expiration: int, t: Store.Tables,
                                     url: string, expireAt: Time, now: Time, createFault: Option<Store.TxFault>,
                                     claimed: Int64, code: nat, cacheSetFault: Option<nat>)
    requires Store.Consistent(t)
    requires t.pool != {} ==> claimed in t.pool
    ensures var (e1, t1, r1) := ShortenOutcome(entries, expiration, t, url, expireAt, now, createFault, claimed, Some(code));
            var (_, t2, r2) := ShortenOutcome(entries, expiration, t, url, expireAt, now, createFault, claimed, cacheSetFault);
            e1 == entries && t1 == t2 && r1 == r2
  {
  }

  /** Two successful Shorten calls in a row return different ids. */
  lemma SuccessiveShortensDistinct(entries: map<string, Cache.Entry>, expiration: int,
                                   t: Store.Tables, url1: string, url2: string,
                                   expireAt1: Time, expireAt2: Time, now1: Time, now2: Time,
                                   claimed1: Int64, claimed2: Int64,
                                   setFault1: Option<nat>, setFault2: Option<nat>)
    requires Store.Consistent(t)
    requires t.pool != {} ==> claimed1 in t.pool
    requires var t1 := ShortenOutcome(entries, expiration, t, url1, expireAt1, now1, None, claimed1, setFault1).1;
             t1.pool != {} ==> claimed2 in t1.pool
    ensures var (e1, t1, r1) := ShortenOutcome(entries, expiration, t, url1, expireAt1, now1, None, claimed1, setFault1);
            var r2 := ShortenOutcome(e1, expiration, t1, url2, expireAt2, now2, None, claimed2, setFault2).2;
            r1.Ok? && r2.Ok? ==> r1.value != r2.value
  {
  }

  /** A cached tombstone or negative entry makes Delete a no-op that
      succeeds without touching the store. */
  lemma DeleteShortCircuit(entries: map<string, Cache.Entry>, expiration: int, t: Store.Tables, id: Int64,
                           now: Time, dbFault: Option<Store.TxFault>, cacheSetFault: Option<nat>)
    requires Store.Consistent(t)
    requires ShortCircuits(entries, id, now, None)
    ensures DeleteOutcome(entries, expiration, t, id, now, None, dbFault, cacheSetFault) == (entries, t, None)
  {
  }

  /** When the cache does not short-circuit, Delete reports exactly the
      store's outcome, and a success leaves a tombstone for the TTL. */
  lemma DeleteDefersToStore(entries: map<string, Cache.Entry>, expiration: int, t: Store.Tables, id: Int64,
                            now: Time, later: Time, cacheGetFault: Option<nat>, dbFault: Option<Store.TxFault>)
    requires Store.Consistent(t)
    requires !ShortCircuits(entries, id, now, cacheGetFault)
    requires now <= later < now + expiration
    ensures var (entries', t', err) := DeleteOutcome(entries, expiration, t, id, now, cacheGetFault, dbFault, None);
            && (t', err) == Store.DeleteOutcome(t, id, dbFault)
            && (err.None? ==> Cache.GetOutcome(entries', id, later, None) == Ok(Tombstone(id)))
            && (err.Some? ==> entries' == entries && t' == t)
  {
  }

  /** A failed tombstone write changes neither the result of Delete nor the
      tables, and leaves the cache as it was. */
  lemma DeleteCacheFailureInvisible(entries: map<string, Cache.Entry>, expiration: int, t: Store.Tables,
                                    id: Int64, now: Time, cacheGetFault: Option<nat>,
                                    dbFault: Option<Store.TxFault>, code: nat, cacheSetFault: Option<nat>)
    requires Store.Consistent(t)
    ensures var (e1, t1, err1) := DeleteOutcome(entries, expiration, t, id, now, cacheGetFault, dbFault, Some(code));
            var (_, t2, err2) := DeleteOutcome(entries, expiration, t, id, now, cacheGetFault, dbFault, cacheSetFault);
            e1 == entries && t1 == t2 && err1 == err2
  {
  }

  /** A Delete the store carried out, repeated later: the second succeeds and
      leaves the tables as they are, whether the cache still holds the
      tombstone or not. (A Delete answered by a negative entry is not
      idempotent this way: once the entry is gone, the store reports
      ErrNoRows.) */
  lemma DeleteIdempotent(entries: map<string, Cache.Entry>, expiration: int, t: Store.Tables,
                         id: Int64, now: Time, later: Time, cacheGetFault: Option<nat>,
                         cacheGetFault': Option<nat>, cacheSetFault: Option<nat>)
    requires Store.Consistent(t)
    requires now <= later
    requires !ShortCircuits(entries, id, now, cacheGetFault)
    requires DeleteOutcome(entries, expiration, t, id, now, cacheGetFault, None, cacheSetFault).2 == None
    ensures var (e1, t1, _) := DeleteOutcome(entries, expiration, t, id, now, cacheGetFault, None, cacheSetFault);
            var (e2, t2, err2) := DeleteOutcome(e1, expiration, t1, id, later, cacheGetFault', None, None);
            err2 == None && t2 == t1
  {
  }

  /** The service over its two stores. */
  class ShortenerService {
    const dbStore: Store.SqlStore
    const cacheStore: Cache.RedisCache

    constructor (dbStore: Store.SqlStore, cacheStore: Cache.RedisCache)
      ensures this.dbStore == dbStore && this.cacheStore == cacheStore
    {
      this.dbStore := dbStore;
      this.cacheStore := cacheStore;
    }

    method Shorten(url: string, expireAt: Time, now: Time, createFault: Option<Store.TxFault>,
                   cacheSetFault: Option<nat>)
      returns (r: Result<Int64>, ghost claimed: Int64)
      requires dbStore.Valid()
      modifies dbStore, cacheStore
      ensures dbStore.Valid()
      ensures old(dbStore.pool) != {} ==> claimed in old(dbStore.pool)
      ensures (cacheStore.entries, dbStore.State(), r) ==
              ShortenOutcome(old(cacheStore.entries), cacheStore.expiration, old(dbStore.State()), url, expireAt,
                             now, createFault, claimed, cacheSetFault)
    {
      var created;
      created, claimed := dbStore.Create(url, expireAt, now, createFault);
      if created.Err? {
        return Err(created.error), claimed;
      }
      var shortURL := created.value;
      var _ := cacheStore.Set(shortURL.id, shortURL, now, cacheSetFault);
      r := Ok(shortURL.id);
    }

    method Delete(id: Int64, now: Time, cacheGetFault: Option<nat>, dbFault: Option<Store.TxFault>,
                  cacheSetFault: Option<nat>)
      returns (err: Option<Error>)
      requires dbStore.Valid()
      modifies dbStore, cacheStore
      ensures dbStore.Valid()
      ensures (cacheStore.entries, dbStore.State(), err) ==
              DeleteOutcome(old(cacheStore.entries), cacheStore.expiration, old(dbStore.State()), id, now,
                            cacheGetFault, dbFault, cacheSetFault)
    {
      var cached := cacheStore.Get(id, now, cacheGetFault);
      if cached.Ok? && (Util.IsRecordDeleted(Some(cached.value)) || Util.IsRecordNotExist(Some(cached.value))) {
        return None;
      }
      err := dbStore.Delete(id, dbFault);
      if err.Some? {
        return err;
      }
      var _ := cacheStore.Set(id, Tombstone(id), now, cacheSetFault);
    }
  }
}
