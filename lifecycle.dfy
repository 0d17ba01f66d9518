/** The two services over one store and one cache: what a client sees
    across Shorten, Delete and RedirectTo. */
module Lifecycle {
  import opened Errors
  import opened Record
  import Util
  import Cache
  import Store
  import Redirect
  import Shortener

  /** Right after Shorten, with the cache write done, the id resolves to the
      URL until the TTL ends or the link expires, whatever the store holds. */
  lemma ShortenThenRedirect(entries: map<string, Cache.Entry>, expiration: int, t: Store.Tables, t': Store.Tables,
                            url: string, expireAt: Time, now: Time, later: Time,
                            createFault: Option<Store.TxFault>, claimed: Int64, dbGetFault: Option<nat>,
                            cacheSetFault: Option<nat>)
    requires Store.Consistent(t)
    requires t.pool != {} ==> claimed in t.pool
    requires now <= later < now + expiration && !(expireAt < later)
    requires Shortener.ShortenOutcome(entries, expiration, t, url, expireAt, now, createFault, claimed, None).2.Ok?
    ensures var (entries', _, r) := Shortener.ShortenOutcome(entries, expiration, t, url, expireAt, now, createFault, claimed, None);
            Redirect.RedirectOutcome(entries', expiration, t', r.value, later, None, dbGetFault, cacheSetFault).1 == Ok(url)
  {
  }

  /** After a Delete the store carried out, with the tombstone written, the
      id resolves to ErrURLNotFound until the TTL ends, without a store read. */
  lemma DeleteThenRedirect(entries: map<string, Cache.Entry>, expiration: int, t: Store.Tables, t': Store.Tables,
                           id: Int64, now: Time, later: Time, cacheGetFault: Option<nat>,
                           dbFault: Option<Store.TxFault>, dbGetFault: Option<nat>, cacheSetFault: Option<nat>)
    requires Store.Consistent(t)
    requires !Shortener.ShortCircuits(entries, id, now, cacheGetFault)
    requires ZeroTime < now <= later < now + expiration
    requires Shortener.DeleteOutcome(entries, expiration, t, id, now, cacheGetFault, dbFault, None).2 == None
    ensures var entries' := Shortener.DeleteOutcome(entries, expiration, t, id, now, cacheGetFault, dbFault, None).0;
            Redirect.RedirectOutcome(entries', expiration, t', id, later, None, dbGetFault, cacheSetFault) ==
            (entries', Err(ErrURLNotFound))
  {
  }

  /** Once deleted in the store, a row is never served from the store: on a
      cache miss the id resolves to ErrURLNotFound. */
  lemma DeletedRowNotServed(entries: map<string, Cache.Entry>, expiration: int, t: Store.Tables,
                            id: Int64, later: Time, dbFault: Option<Store.TxFault>,
                            cacheGetFault: Option<nat>, cacheSetFault: Option<nat>)
    requires Store.Consistent(t)
    requires Store.DeleteOutcome(t, id, dbFault).1 == None
    requires !Redirect.CacheHit(entries, id, later, cacheGetFault)
    ensures var t' := Store.DeleteOutcome(t, id, dbFault).0;
            Redirect.RedirectOutcome(entries, expiration, t', id, later, cacheGetFault, None, cacheSetFault).1 ==
            (if id in t.rows then Err(ErrURLNotFound) else Err(ErrNoRows))
  {
  }

  /** A failed tombstone write leaves a stale entry: the deleted link is still
      served from the cache until its TTL ends. */
  lemma StaleEntryAfterFailedTombstone(entries: map<string, Cache.Entry>, expiration: int, t: Store.Tables,
                                       id: Int64, now: Time, code: nat, dbFault: Option<Store.TxFault>)
    requires Store.Consistent(t)
    requires Cache.GetOutcome(entries, id, now, None).Ok?
    requires !Util.IsUnavailable(Cache.GetOutcome(entries, id, now, None).value, now)
    requires Shortener.DeleteOutcome(entries, expiration, t, id, now, None, dbFault, Some(code)).2 == None
    ensures var (entries', t', _) := Shortener.DeleteOutcome(entries, expiration, t, id, now, None, dbFault, Some(code));
            Redirect.RedirectOutcome(entries', expiration, t', id, now, None, None, None).1 ==
            Ok(Cache.GetOutcome(entries, id, now, None).value.url)
  {
  }

  /** The lifecycle of one id from an empty system: Shorten gives id 1,
      Delete makes it recyclable, the next Shorten reuses id 1 for the new
      URL, and the cache then serves the new URL. */
  lemma RecycleScenario()
    ensures var t0 := Store.Tables(map[], {}, 1);
            var (e1, t1, r1) := Shortener.ShortenOutcome(map[], Cache.DefaultExpiration, t0, "a", 700, 0, None, 0, None);
            && r1 == Ok(1)
            && var (e2, t2, err2) := Shortener.DeleteOutcome(e1, Cache.DefaultExpiration, t1, 1, 10, None, None, None);
               && err2 == None && t2.pool == {1}
               && var (e3, t3, r3) := Shortener.ShortenOutcome(e2, Cache.DefaultExpiration, t2, "b", 800, 20, None, 1, None);
                  && r3 == Ok(1) && t3.pool == {} && t3.nextID == 2
                  && Redirect.RedirectOutcome(e3, Cache.DefaultExpiration, t3, 1, 30, None, None, None).1 == Ok("b")
  {
  }
}
