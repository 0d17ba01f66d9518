/** Package util: the liveness predicates applied to every record before it
    is served, and one tick of the expiry sweeper. */
module Util {
  import opened Errors
  import opened Record
  import Store

  /** IsRecordExpired: false for nil, otherwise ExpireAt strictly before now. */
  predicate IsRecordExpired(r: Option<ShortURL>, now: Time)
    ensures IsRecordExpired(r, now) ==> r.Some?
    ensures r.Some? ==> (IsRecordExpired(r, now) <==> r.value.expireAt < now)
  {
    r.Some? && r.value.expireAt < now
  }

  /** IsRecordDeleted: false for nil, otherwise the IsDeleted flag. */
  predicate IsRecordDeleted(r: Option<ShortURL>)
    ensures IsRecordDeleted(r) ==> r.Some?
    ensures r.Some? ==> IsRecordDeleted(r) == r.value.isDeleted
  {
    r.Some? && r.value.isDeleted
  }

  /** IsRecordNotExist, called by both services but not defined in util.go:
      by analogy with IsRecordDeleted, false for nil, otherwise the flag. */
  predicate IsRecordNotExist(r: Option<ShortURL>)
    ensures IsRecordNotExist(r) ==> r.Some?
    ensures r.Some? ==> IsRecordNotExist(r) == r.value.isNotExist
  {
    r.Some? && r.value.isNotExist
  }

  /** The combined check both services apply: a record that may not be
      served. */
  predicate IsUnavailable(r: ShortURL, now: Time)
  {
    IsRecordExpired(Some(r), now) || IsRecordDeleted(Some(r)) || IsRecordNotExist(Some(r))
  }

  lemma NilIsNeitherExpiredNorDeleted(now: Time)
    ensures !IsRecordExpired(None, now) && !IsRecordDeleted(None) && !IsRecordNotExist(None)
  {
  }

  /** Expiry and deletion are independent: flipping IsDeleted never changes
      IsRecordExpired, and moving ExpireAt never changes IsRecordDeleted. */
  lemma ExpiryIndependentOfDeletion(r: ShortURL, now: Time, deleted: bool, expireAt: Time)
    ensures IsRecordExpired(Some(r.(isDeleted := deleted)), now) == IsRecordExpired(Some(r), now)
    ensures IsRecordDeleted(Some(r.(expireAt := expireAt))) == IsRecordDeleted(Some(r))
  {
  }

  /** A zero-valued record is expired at any time after year 1, but not
      deleted; so tombstones and negative entries, which carry no ExpireAt,
      are never served. */
  lemma ZeroValuesUnavailable(id: Int64, now: Time)
    requires ZeroTime < now
    ensures IsRecordExpired(Some(ZeroRecord()), now) && !IsRecordDeleted(Some(ZeroRecord()))
    ensures IsUnavailable(Tombstone(id), now) && IsUnavailable(NegativeEntry(id), now)
    ensures IsRecordExpired(Some(Tombstone(id)), now) && IsRecordExpired(Some(NegativeEntry(id)), now)
  {
  }

  /** The fault injected into the Expire call for id, if any. */
  function FaultFor(faults: map<Int64, Store.TxFault>, id: Int64): Option<Store.TxFault>
  {
    if id in faults then Some(faults[id]) else None
  }

  /** The ids of ids whose Expire transaction runs to its commit. */
  function Retired(ids: seq<Int64>, faults: map<Int64, Store.TxFault>): set<Int64>
    decreases |ids|
  {
    if ids == [] then {}
    else
      var last := ids[|ids| - 1];
      Retired(ids[..|ids| - 1], faults) + if Store.FailsAt(FaultFor(faults, last), Store.RetirePath) then {} else {last}
  }

  lemma {:induction false} RetiredMembers(ids: seq<Int64>, faults: map<Int64, Store.TxFault>, x: Int64)
    ensures x in Retired(ids, faults) <==> x in ids && !Store.FailsAt(FaultFor(faults, x), Store.RetirePath)
    decreases |ids|
  {
    if ids != [] {
      var init := ids[..|ids| - 1];
      RetiredMembers(init, faults, x);
      assert ids == init + [ids[|ids| - 1]];
    }
  }

  /** The state after one Expire call per id, in order. */
  function ExpireAll(t: Store.Tables, ids: seq<Int64>, now: Time, faults: map<Int64, Store.TxFault>): (r: Store.Tables)
    requires Store.Consistent(t)
    ensures Store.Consistent(r)
    decreases |ids|
  {
    if ids == [] then t
    else
      var last := ids[|ids| - 1];
      Store.ExpireOutcome(ExpireAll(t, ids[..|ids| - 1], now, faults), last, now, FaultFor(faults, last)).0
  }

  /** Expiring other ids leaves an expired row as it was. */
  lemma {:induction false} ExpireAllFrame(t: Store.Tables, ids: seq<Int64>, now: Time,
                                          faults: map<Int64, Store.TxFault>, id: Int64)
    requires Store.Consistent(t)
    requires id in Store.ExpiredIDs(t, now) && id !in ids
    ensures var r := ExpireAll(t, ids, now, faults);
            id in r.rows && r.rows[id] == t.rows[id] && id !in r.pool
    decreases |ids|
  {
    if ids != [] {
      ExpireAllFrame(t, ids[..|ids| - 1], now, faults, id);
    }
  }

  /** The sweep's effect on the tables: every id whose Expire runs to its
      commit is marked deleted and becomes recyclable; nothing else changes. */
  lemma {:induction false} ExpireAllEffect(t: Store.Tables, ids: seq<Int64>, now: Time,
                                           faults: map<Int64, Store.TxFault>)
    requires Store.Consistent(t)
    requires Store.Distinct(ids)
    requires forall i :: 0 <= i < |ids| ==> ids[i] in Store.ExpiredIDs(t, now)
    ensures var r := ExpireAll(t, ids, now, faults);
            && r.rows.Keys == t.rows.Keys && r.nextID == t.nextID
            && r.pool == t.pool + Retired(ids, faults)
            && forall id :: id in t.rows ==>
                 r.rows[id] == if id in Retired(ids, faults) then t.rows[id].(isDeleted := true) else t.rows[id]
    decreases |ids|
  {
    if ids != [] {
      var init, last := ids[..|ids| - 1], ids[|ids| - 1];
      assert forall i :: 0 <= i < |init| ==> init[i] == ids[i];
      assert Store.Distinct(init);
      ExpireAllEffect(t, init, now, faults);
      assert last !in init by {
        assert forall i :: 0 <= i < |init| ==> init[i] != last;
      }
      ExpireAllFrame(t, init, now, faults, last);
      RetiredMembers(init, faults, last);
      var s := ExpireAll(t, init, now, faults);
      var fault := FaultFor(faults, last);
      Store.ExpireLiveRow(s, last, now, fault);
      assert ExpireAll(t, ids, now, faults) == Store.ExpireOutcome(s, last, now, fault).0;
      var extra: set<Int64> := if Store.FailsAt(fault, Store.RetirePath) then {} else {last};
      assert Retired(ids, faults) == Retired(init, faults) + extra;
    }
  }

  /** The loop over the channel: Expire each id in turn; an error is logged
      and the loop goes on. */
  method ExpireEach(dbStore: Store.SqlStore, ids: seq<Int64>, now: Time, expireFaults: map<Int64, Store.TxFault>)
    returns (results: seq<Option<Error>>)
    requires dbStore.Valid()
    requires Store.Distinct(ids)
    requires forall i :: 0 <= i < |ids| ==> ids[i] in Store.ExpiredIDs(dbStore.State(), now)
    modifies dbStore
    ensures dbStore.Valid()
    ensures dbStore.State() == ExpireAll(old(dbStore.State()), ids, now, expireFaults)
    ensures |results| == |ids|
    ensures forall i :: 0 <= i < |ids| ==>
              (results[i].None? <==> !Store.FailsAt(FaultFor(expireFaults, ids[i]), Store.RetirePath))
  {
    results := [];
    ghost var t0 := dbStore.State();
    var i := 0;
    while i < |ids|
      invariant 0 <= i <= |ids|
      invariant dbStore.Valid()
      invariant dbStore.State() == ExpireAll(t0, ids[..i], now, expireFaults)
      invariant |results| == i
      invariant forall j :: 0 <= j < i ==>
                  (results[j].None? <==> !Store.FailsAt(FaultFor(expireFaults, ids[j]), Store.RetirePath))
    {
      var id := ids[i];
      assert id !in ids[..i] by {
        assert forall j :: 0 <= j < i ==> ids[j] != id;
      }
      ExpireAllFrame(t0, ids[..i], now, expireFaults, id);
      Store.ExpireLiveRow(dbStore.State(), id, now, FaultFor(expireFaults, id));
      var err := dbStore.Expire(id, now, FaultFor(expireFaults, id));
      results := results + [err];
      assert ids[..i + 1][..i] == ids[..i];
      i := i + 1;
    }
    assert ids[..i] == ids;
  }

  /** One tick of DeleteExpiredURLs: read the expired ids (on an error, wait
      for the next tick), then expire each one. */
  method SweepTick(dbStore: Store.SqlStore, now: Time, scanFault: Option<nat>, rowErrorAt: Option<nat>,
                   expireFaults: map<Int64, Store.TxFault>)
    returns (expired: seq<Int64>, results: seq<Option<Error>>)
    requires dbStore.Valid()
    modifies dbStore
    ensures dbStore.Valid()
    ensures scanFault.Some? ==> expired == [] && dbStore.State() == old(dbStore.State())
    ensures Store.Distinct(expired)
    ensures forall i :: 0 <= i < |expired| ==> expired[i] in Store.ExpiredIDs(old(dbStore.State()), now)
    ensures scanFault.None? && rowErrorAt.None? ==>
              forall id :: id in Store.ExpiredIDs(old(dbStore.State()), now) ==> id in expired
    ensures dbStore.State() == ExpireAll(old(dbStore.State()), expired, now, expireFaults)
    ensures dbStore.pool == old(dbStore.pool) + Retired(expired, expireFaults)
    ensures dbStore.rows.Keys == old(dbStore.rows.Keys) && dbStore.nextID == old(dbStore.nextID)
    ensures forall id :: id in old(dbStore.rows) ==>
              dbStore.rows[id] == if id in Retired(expired, expireFaults) then old(dbStore.rows[id]).(isDeleted := true) else old(dbStore.rows[id])
    ensures |results| == |expired|
    ensures forall i :: 0 <= i < |expired| ==>
              (results[i].None? <==> !Store.FailsAt(FaultFor(expireFaults, expired[i]), Store.RetirePath))
  {
    ghost var t0 := dbStore.State();
    var scan := dbStore.GetExpiredIDs(now, scanFault, rowErrorAt);
    if scan.Err? {
      return [], [];
    }
    expired := scan.value;
    results := ExpireEach(dbStore, expired, now, expireFaults);
    ExpireAllEffect(t0, expired, now, expireFaults);
  }
}
