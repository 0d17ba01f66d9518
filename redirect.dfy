/** Package services/redirect: resolve an id to its original URL through the
    cache, falling back to the store, and keep the cache filled. */
module Redirect {
  import opened Errors
  import opened Record
  import Util
  import Cache
  import Store

  /** The id's cache key is present and within its TTL. */
  predicate MakeKeyLive(entries: map<string, Cache.Entry>, id: Int64, now: Time)
  {
    Cache.MakeKey(id) in entries && now < entries[Cache.MakeKey(id)].deadline
  }

  /** What getShortURL returns: the record (or the error) and whether it
      came from the cache. */
  datatype Read = Read(record: Result<ShortURL>, isCached: bool)

  /** getShortURL: a cache hit is final; every cache error (the miss signal
      or any other failure) falls through to the store. */
  function ReadOutcome(entries: map<string, Cache.Entry>, t: Store.Tables, id: Int64, now: Time,
                       cacheGetFault: Option<nat>, dbGetFault: Option<nat>): (r: Read)
    ensures r.isCached <==> Cache.GetOutcome(entries, id, now, cacheGetFault).Ok?
    ensures r.isCached ==> r.record.Ok? && MakeKeyLive(entries, id, now) && r.record.value == entries[Cache.MakeKey(id)].record
    ensures !r.isCached ==> r.record == Store.GetOutcome(t, id, dbGetFault)
  {
    var cached := Cache.GetOutcome(entries, id, now, cacheGetFault);
    if cached.Ok? then Read(cached, true)
    else Read(Store.GetOutcome(t, id, dbGetFault), false)
  }

  /** The cache write RedirectTo makes after the read: a negative entry when
      the store has no row, the record itself after a miss, nothing after a
      hit or another store error. */
  function CacheWrite(read: Read, id: Int64): Option<ShortURL>
  {
    if read.record.Err? then
      if read.record.error == ErrNoRows then Some(NegativeEntry(id)) else None
    else if !read.isCached then Some(read.record.value)
    else None
  }

  /** What RedirectTo returns for a read: the store's error unchanged,
      ErrURLNotFound for an unavailable record, otherwise its URL. */
  function Resolve(read: Read, now: Time): Result<string>
  {
    if read.record.Err? then Err(read.record.error)
    else if Util.IsUnavailable(read.record.value, now) then Err(ErrURLNotFound)
    else Ok(read.record.value.url)
  }

  /** RedirectTo as a whole: the cache it leaves and the result. A failed
      cache write is logged only. */
  function RedirectOutcome(entries: map<string, Cache.Entry>, expiration: int, t: Store.Tables,
                           id: Int64, now: Time, cacheGetFault: Option<nat>, dbGetFault: Option<nat>,
                           cacheSetFault: Option<nat>): (o: (map<string, Cache.Entry>, Result<string>))
    ensures forall k :: k != Cache.MakeKey(id) ==> (k in o.0 <==> k in entries) && (k in entries ==> o.0[k] == entries[k])
    ensures o.0 != entries ==> && cacheSetFault.None? && !CacheHit(entries, id, now, cacheGetFault)
                               && Cache.MakeKey(id) in o.0 && o.0[Cache.MakeKey(id)].deadline == now + expiration
    ensures o.0 != entries ==> var stored := Store.GetOutcome(t, id, dbGetFault);
                               (stored.Ok? || stored.error == ErrNoRows) &&
                               o.0[Cache.MakeKey(id)].record == if stored.Ok? then stored.value else NegativeEntry(id)
    ensures o.1.Ok? ==> var read := ReadOutcome(entries, t, id, now, cacheGetFault, dbGetFault);
                        read.record.Ok? && !Util.IsUnavailable(read.record.value, now) && o.1.value == read.record.value.url
  {
    var read := ReadOutcome(entries, t, id, now, cacheGetFault, dbGetFault);
    var write := CacheWrite(read, id);
    var entries' := if write.Some? then Cache.SetOutcome(entries, id, write.value, now, expiration, cacheSetFault).0
                    else entries;
    (entries', Resolve(read, now))
  }

  /** Whether the cache serves id at now. */
  predicate CacheHit(entries: map<string, Cache.Entry>, id: Int64, now: Time, cacheGetFault: Option<nat>)
  {
    Cache.GetOutcome(entries, id, now, cacheGetFault).Ok?
  }

  /** On a cache miss the store decides: id resolves to u exactly when its row
      exists, is neither expired nor deleted, and holds u. */
  lemma MissServedIffAvailable(entries: map<string, Cache.Entry>, expiration: int,
                               t: Store.Tables, id: Int64, now: Time,
                               cacheGetFault: Option<nat>, cacheSetFault: Option<nat>, u: string)
    requires Store.Consistent(t)
    requires !CacheHit(entries, id, now, cacheGetFault)
    ensures RedirectOutcome(entries, expiration, t, id, now, cacheGetFault, None, cacheSetFault).1 == Ok(u) <==>
            id in t.rows && !t.rows[id].isDeleted && !(t.rows[id].expireAt < now) && t.rows[id].url == u
  {
  }

  /** A cache hit decides alone: the store and its faults play no part. */
  lemma HitIgnoresStore(entries: map<string, Cache.Entry>, expiration: int, t: Store.Tables, t': Store.Tables,
                        id: Int64, now: Time, cacheGetFault: Option<nat>, dbGetFault: Option<nat>,
                        dbGetFault': Option<nat>, cacheSetFault: Option<nat>)
    requires CacheHit(entries, id, now, cacheGetFault)
    ensures RedirectOutcome(entries, expiration, t, id, now, cacheGetFault, dbGetFault, cacheSetFault) ==
            RedirectOutcome(entries, expiration, t', id, now, cacheGetFault, dbGetFault', cacheSetFault)
    ensures RedirectOutcome(entries, expiration, t, id, now, cacheGetFault, dbGetFault, cacheSetFault).0 == entries
  {
  }

  /** A broken cache costs only latency: with any cache read failure the
      result is the one an empty cache gives. */
  lemma CacheFailureActsAsMiss(entries: map<string, Cache.Entry>, expiration: int, t: Store.Tables,
                               id: Int64, now: Time, code: nat, dbGetFault: Option<nat>,
                               cacheSetFault: Option<nat>)
    ensures RedirectOutcome(entries, expiration, t, id, now, Some(code), dbGetFault, cacheSetFault).1 ==
            RedirectOutcome(map[], expiration, t, id, now, None, dbGetFault, cacheSetFault).1
  {
  }

  /** A failing cache write never changes what the caller gets, and leaves
      the cache as it was. */
  lemma CacheWriteFailureInvisible(entries: map<string, Cache.Entry>, expiration: int, t: Store.Tables,
                                   id: Int64, now: Time, cacheGetFault: Option<nat>, dbGetFault: Option<nat>,
                                   code: nat, cacheSetFault: Option<nat>)
    ensures RedirectOutcome(entries, expiration, t, id, now, cacheGetFault, dbGetFault, Some(code)).1 ==
            RedirectOutcome(entries, expiration, t, id, now, cacheGetFault, dbGetFault, cacheSetFault).1
    ensures RedirectOutcome(entries, expiration, t, id, now, cacheGetFault, dbGetFault, Some(code)).0 == entries
  {
  }

  /** A store error other than ErrNoRows is returned as it is, and the cache
      is not written. */
  lemma StoreErrorPassedThrough(entries: map<string, Cache.Entry>, expiration: int, t: Store.Tables,
                                id: Int64, now: Time, cacheGetFault: Option<nat>, code: nat,
                                cacheSetFault: Option<nat>)
    requires !CacheHit(entries, id, now, cacheGetFault)
    ensures RedirectOutcome(entries, expiration, t, id, now, cacheGetFault, Some(code), cacheSetFault) ==
            (entries, Err(Failure(code)))
  {
  }

  /** After a miss the cache holds exactly the store's row for the TTL. */
  lemma MissFillsCache(entries: map<string, Cache.Entry>, expiration: int, t: Store.Tables, id: Int64,
                       now: Time, later: Time, cacheGetFault: Option<nat>)
    requires !CacheHit(entries, id, now, cacheGetFault)
    requires id in t.rows
    requires now <= later < now + expiration
    ensures var entries' := RedirectOutcome(entries, expiration, t, id, now, cacheGetFault, None, None).0;
            Cache.GetOutcome(entries', id, later, None) == Ok(t.rows[id])
  {
  }

  /** Negative caching: a store miss returns the store's ErrNoRows and leaves
      a not-exist entry, so until the TTL ends the id resolves to
      ErrURLNotFound whatever the store then holds. */
  lemma NegativeCaching(entries: map<string, Cache.Entry>, expiration: int, t: Store.Tables,
                        t': Store.Tables, id: Int64, now: Time, later: Time,
                        cacheGetFault: Option<nat>, dbGetFault': Option<nat>,
                        cacheSetFault': Option<nat>)
    requires !CacheHit(entries, id, now, cacheGetFault)
    requires id !in t.rows
    requires ZeroTime < now <= later < now + expiration
    ensures var (entries', r) := RedirectOutcome(entries, expiration, t, id, now, cacheGetFault, None, None);
            && r == Err(ErrNoRows)
            && RedirectOutcome(entries', expiration, t', id, later, None, dbGetFault', cacheSetFault') ==
               (entries', Err(ErrURLNotFound))
  {
  }

  /** A deleted record is never served, whether it comes from the cache or
      the store. */
  lemma NeverServesUnavailable(entries: map<string, Cache.Entry>, expiration: int, t: Store.Tables, id: Int64,
                               now: Time, cacheGetFault: Option<nat>, dbGetFault: Option<nat>,
                               cacheSetFault: Option<nat>)
    ensures var read := ReadOutcome(entries, t, id, now, cacheGetFault, dbGetFault);
            var r := RedirectOutcome(entries, expiration, t, id, now, cacheGetFault, dbGetFault, cacheSetFault).1;
            r.Ok? <==> read.record.Ok? && !Util.IsUnavailable(read.record.value, now)
    ensures var read := ReadOutcome(entries, t, id, now, cacheGetFault, dbGetFault);
            var r := RedirectOutcome(entries, expiration, t, id, now, cacheGetFault, dbGetFault, cacheSetFault).1;
            r.Ok? ==> r.value == read.record.value.url
    ensures var read := ReadOutcome(entries, t, id, now, cacheGetFault, dbGetFault);
            var r := RedirectOutcome(entries, expiration, t, id, now, cacheGetFault, dbGetFault, cacheSetFault).1;
            read.record.Ok? && Util.IsUnavailable(read.record.value, now) ==> r == Err(ErrURLNotFound)
  {
  }

  /** The service over its two stores. */
  class RedirectService {
    const dbStore: Store.SqlStore
    const cacheStore: Cache.RedisCache

    constructor (dbStore: Store.SqlStore, cacheStore: Cache.RedisCache)
      ensures this.dbStore == dbStore && this.cacheStore == cacheStore
    {
      this.dbStore := dbStore;
      this.cacheStore := cacheStore;
    }

    method GetShortURL(id: Int64, now: Time, cacheGetFault: Option<nat>, dbGetFault: Option<nat>)
      returns (shortURL: Result<ShortURL>, isCached: bool)
      ensures Read(shortURL, isCached) ==
              ReadOutcome(cacheStore.entries, dbStore.State(), id, now, cacheGetFault, dbGetFault)
    {
      shortURL := cacheStore.Get(id, now, cacheGetFault);
      if shortURL.Ok? {
        return shortURL, true;
      }
      shortURL := dbStore.Get(id, dbGetFault);
      isCached := false;
    }

    method RedirectTo(id: Int64, now: Time, cacheGetFault: Option<nat>, dbGetFault: Option<nat>,
                      cacheSetFault: Option<nat>)
      returns (r: Result<string>)
      modifies cacheStore
      ensures (cacheStore.entries, r) ==
              RedirectOutcome(old(cacheStore.entries), cacheStore.expiration, dbStore.State(), id, now,
                              cacheGetFault, dbGetFault, cacheSetFault)
    {
      var shortURL, isCached := GetShortURL(id, now, cacheGetFault, dbGetFault);
      if shortURL.Err? {
        if shortURL.error == ErrNoRows {
          var _ := cacheStore.Set(id, NegativeEntry(id), now, cacheSetFault);
        }
        return Err(shortURL.error);
      }
      if !isCached {
        var _ := cacheStore.Set(id, shortURL.value, now, cacheSetFault);
      }
      var record := shortURL.value;
      if Util.IsRecordExpired(Some(record), now) || Util.IsRecordDeleted(Some(record)) || Util.IsRecordNotExist(Some(record)) {
        return Err(ErrURLNotFound);
      }
      r := Ok(record.url);
    }
  }
}
