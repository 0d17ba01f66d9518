/** Package db: the relational store, as a live table of rows keyed by id, a
    pool of recyclable ids and the table's auto-increment counter.

    Two groups of operations. CreateAsWritten, Get and DeleteAsWritten follow
    the bodies in db/sql.go. Create, Delete, Expire and GetExpiredIDs follow
    the Store interface's doc comments in db/store.go and the statements the
    tests in db/sql_test.go expect (test-derived); the services and the
    sweeper use this second group. */
module Store {
  import opened Errors
  import opened Record

  /** The statements of a transaction, so that a failure can be injected at
      any one of them. */
  datatype Step =
    | Begin           // BeginTx
    | QueryPool       // SELECT id FROM recyclable_urls ... (claim, or membership test)
    | DeleteFromPool  // DELETE FROM recyclable_urls WHERE id = ?
    | UpdateRow       // UPDATE short_urls SET url, created_at, expire_at, is_deleted = false
    | InsertRow       // INSERT INTO short_urls (url, expire_at)
    | LastInsertId    // result.LastInsertId()
    | ReadBack        // SELECT ... FROM short_urls WHERE id = ? and its Scan
    | QueryLive       // SELECT id FROM short_urls WHERE id = ? [AND expire_at < ?] FOR UPDATE
    | MarkDeleted     // UPDATE short_urls SET is_deleted = true WHERE id = ?
    | InsertIntoPool  // INSERT INTO recyclable_urls (id)
    | Commit          // tx.Commit()

  /** A failure of one statement, with the opaque code of the error it
      returns. A fault at a statement the call does not reach has no effect. */
  datatype TxFault = TxFault(step: Step, code: nat)

  predicate FailsAt(fault: Option<TxFault>, steps: set<Step>)
  {
    fault.Some? && fault.value.step in steps
  }

  function FaultError(fault: Option<TxFault>): Error
    requires fault.Some?
  {
    Failure(fault.value.code)
  }

  /** The error of an INSERT once the signed 64-bit auto-increment column has
      no value left. */
  const AutoIncrementExhausted: Error := ErrAutoIncrementExhausted

  /** The committed state of the database. */
  datatype Tables = Tables(rows: map<Int64, ShortURL>, pool: set<Int64>, nextID: int)

  /** What every committed state satisfies: each row sits under its own id,
      below the auto-increment counter, and is no negative entry; every
      recyclable id has a row, and that row is marked deleted. */
  predicate Consistent(t: Tables)
  {
    && 1 <= t.nextID
    && t.pool <= t.rows.Keys
    && (forall id :: id in t.rows ==> 1 <= id < t.nextID && t.rows[id].id == id && !t.rows[id].isNotExist)
    && (forall id :: id in t.pool ==> t.rows[id].isDeleted)
  }

  /** Live ids: allocated and not recyclable. */
  function LiveIDs(t: Tables): set<Int64>
  {
    t.rows.Keys - t.pool
  }

  /** The row a create writes. */
  function NewRow(id: Int64, url: string, expireAt: Time, now: Time): ShortURL
  {
    ShortURL(id, now, expireAt, url, false, false)
  }

  /** db/sql.go Create: INSERT, LastInsertId, read the row back, commit. The
      row takes the column defaults: created_at now, is_deleted false. */
  function CreateAsWrittenOutcome(t: Tables, url: string, expireAt: Time, now: Time,
                                  fault: Option<TxFault>): (o: (Tables, Result<ShortURL>))
    requires Consistent(t)
    ensures Consistent(o.0)
    ensures o.1.Err? ==> o.0 == t
    ensures o.1.Ok? ==> t.nextID <= MaxInt64 && o.1.value == NewRow(t.nextID, url, expireAt, now) && t.nextID !in t.rows
    ensures o.1.Ok? ==> o.0 == Tables(t.rows[o.1.value.id := o.1.value], t.pool, t.nextID + 1)
    ensures o.1.Err? <==> FailsAt(fault, {Begin, InsertRow, LastInsertId, ReadBack, Commit}) || t.nextID > MaxInt64
  {
    if FailsAt(fault, {Begin, InsertRow}) then (t, Err(FaultError(fault)))
    else if t.nextID > MaxInt64 then (t, Err(AutoIncrementExhausted))
    else if FailsAt(fault, {LastInsertId, ReadBack, Commit}) then (t, Err(FaultError(fault)))
    else
      var row := NewRow(t.nextID, url, expireAt, now);
      (Tables(t.rows[t.nextID := row], t.pool, t.nextID + 1), Ok(row))
  }

  /** db/sql.go Get: the row under id, whether deleted or expired or not. */
  function GetOutcome(t: Tables, id: Int64, fault: Option<nat>): (r: Result<ShortURL>)
    ensures r.Ok? <==> fault.None? && id in t.rows
    ensures r.Ok? ==> r.value == t.rows[id]
    ensures r.Err? ==> r.error == if fault.Some? then Failure(fault.value) else ErrNoRows
  {
    if fault.Some? then Err(Failure(fault.value))
    else if id !in t.rows then Err(ErrNoRows)
    else Ok(t.rows[id])
  }

  /** db/sql.go Delete: one UPDATE setting is_deleted; an id without a row
      is no error (the UPDATE affects no row). */
  function DeleteAsWrittenOutcome(t: Tables, id: Int64, fault: Option<nat>): (o: (Tables, Option<Error>))
    requires Consistent(t)
    ensures Consistent(o.0)
    ensures o.1 == if fault.Some? then Some(Failure(fault.value)) else None
    ensures o.0.pool == t.pool && o.0.nextID == t.nextID && o.0.rows.Keys == t.rows.Keys
    ensures forall other :: other in t.rows ==>
              o.0.rows[other] == if other == id && fault.None? then t.rows[other].(isDeleted := true) else t.rows[other]
  {
    if fault.Some? then (t, Some(Failure(fault.value)))
    else if id !in t.rows then (t, None)
    else (t.(rows := t.rows[id := t.rows[id].(isDeleted := true)]), None)
  }

  /** Test-derived Create. Claim a recyclable id (`claimed`, the row that
      SELECT ... LIMIT 1 FOR UPDATE SKIP LOCKED yields when the pool is not
      empty); if the pool is empty or that query fails, insert a new row
      instead. Any later failure rolls everything back. */
  function CreateOutcome(t: Tables, url: string, expireAt: Time, now: Time,
                         fault: Option<TxFault>, claimed: Int64): (o: (Tables, Result<ShortURL>))
    requires Consistent(t)
    requires t.pool != {} ==> claimed in t.pool
    ensures Consistent(o.0)
    ensures o.1.Err? ==> o.0 == t
    ensures o.1.Ok? ==> var r := o.1.value;
              && r == NewRow(r.id, url, expireAt, now)
              && r.id !in LiveIDs(t)
              && o.0.rows == t.rows[r.id := r]
              && o.0.pool == t.pool - {r.id}
              && r.id in LiveIDs(o.0)
    ensures o.1.Ok? ==> if t.pool != {} && !FailsAt(fault, {QueryPool}) then o.1.value.id == claimed
                        else o.1.value.id == t.nextID && o.0.nextID == t.nextID + 1
    ensures o.1.Ok? <==>
              && !FailsAt(fault, {Begin})
              && if t.pool != {} && !FailsAt(fault, {QueryPool}) then !FailsAt(fault, {DeleteFromPool, UpdateRow, Commit})
                 else !FailsAt(fault, {InsertRow, LastInsertId, Commit}) && t.nextID <= MaxInt64
    ensures o.1.Err? ==> o.1.error == AutoIncrementExhausted || (fault.Some? && o.1.error == FaultError(fault))
    ensures o.1.Err? && fault.None? ==> o.1.error == AutoIncrementExhausted
  {
    if FailsAt(fault, {Begin}) then (t, Err(FaultError(fault)))
    else if t.pool != {} && !FailsAt(fault, {QueryPool}) then
      if FailsAt(fault, {DeleteFromPool, UpdateRow, Commit}) then (t, Err(FaultError(fault)))
      else
        var row := NewRow(claimed, url, expireAt, now);
        (Tables(t.rows[claimed := row], t.pool - {claimed}, t.nextID), Ok(row))
    else if FailsAt(fault, {InsertRow}) then (t, Err(FaultError(fault)))
    else if t.nextID > MaxInt64 then (t, Err(AutoIncrementExhausted))
    else if FailsAt(fault, {LastInsertId, Commit}) then (t, Err(FaultError(fault)))
    else
      var row := NewRow(t.nextID, url, expireAt, now);
      (Tables(t.rows[t.nextID := row], t.pool, t.nextID + 1), Ok(row))
  }

  /** The transaction Delete and Expire share (test-derived): an id already
      in the pool is a success that changes nothing; otherwise the row must
      exist (and, for Expire, have expire_at < now), is marked deleted and its
      id enters the pool. */
  function RetireOutcome(t: Tables, id: Int64, now: Time, requireExpired: bool,
                         fault: Option<TxFault>): (o: (Tables, Option<Error>))
    requires Consistent(t)
    ensures Consistent(o.0)
    ensures o.1.Some? ==> o.0 == t
    ensures o.1.None? ==> o.0.rows.Keys == t.rows.Keys && o.0.nextID == t.nextID && o.0.pool == t.pool + {id}
    ensures o.1.None? ==> forall other :: other in t.rows && other != id ==> o.0.rows[other] == t.rows[other]
    ensures o.1.None? && id !in t.pool ==> o.0.rows[id] == t.rows[id].(isDeleted := true)
    ensures o.1.None? && id in t.pool ==> o.0 == t
    ensures o.1.None? <==>
              if id in t.pool then !FailsAt(fault, {Begin, QueryPool, Commit})
              else id in t.rows && (requireExpired ==> t.rows[id].expireAt < now) && !FailsAt(fault, RetirePath)
    ensures o.1.Some? ==> o.1.value == ErrNoRows || (fault.Some? && o.1.value == FaultError(fault))
  {
    if FailsAt(fault, {Begin, QueryPool}) then (t, Some(FaultError(fault)))
    else if id in t.pool then
      if FailsAt(fault, {Commit}) then (t, Some(FaultError(fault))) else (t, None)
    else if FailsAt(fault, {QueryLive}) then (t, Some(FaultError(fault)))
    else if id !in t.rows || (requireExpired && !(t.rows[id].expireAt < now)) then (t, Some(ErrNoRows))
    else if FailsAt(fault, {MarkDeleted, InsertIntoPool, Commit}) then (t, Some(FaultError(fault)))
    else (Tables(t.rows[id := t.rows[id].(isDeleted := true)], t.pool + {id}, t.nextID), None)
  }

  /** Delete (test-derived): an id in the pool succeeds unless begin, the
      pool query or commit fails; a live row is retired unless a statement
      on the path fails; an id with no row is ErrNoRows. */
  function DeleteOutcome(t: Tables, id: Int64, fault: Option<TxFault>): (o: (Tables, Option<Error>))
    requires Consistent(t)
    ensures Consistent(o.0)
    ensures id in t.pool ==> o.0 == t && (o.1.None? <==> !FailsAt(fault, {Begin, QueryPool, Commit}))
    ensures id !in t.pool && id in t.rows ==> (o.1.None? <==> !FailsAt(fault, RetirePath))
    ensures id !in t.pool && id in t.rows && o.1.None? ==>
              o.0 == Tables(t.rows[id := t.rows[id].(isDeleted := true)], t.pool + {id}, t.nextID)
    ensures id !in t.rows && !FailsAt(fault, {Begin, QueryPool, QueryLive}) ==> o == (t, Some(ErrNoRows))
  {
    RetireOutcome(t, id, 0, false, fault)
  }

  /** Expire (test-derived): as Delete, but a row whose expire_at has not
      passed is ErrNoRows. */
  function ExpireOutcome(t: Tables, id: Int64, now: Time, fault: Option<TxFault>): (o: (Tables, Option<Error>))
    requires Consistent(t)
    ensures Consistent(o.0)
    ensures id in t.pool ==> o.0 == t && (o.1.None? <==> !FailsAt(fault, {Begin, QueryPool, Commit}))
    ensures id !in t.pool && id in t.rows ==> (o.1.None? <==> t.rows[id].expireAt < now && !FailsAt(fault, RetirePath))
    ensures id !in t.pool && !(id in t.rows && t.rows[id].expireAt < now) && !FailsAt(fault, {Begin, QueryPool, QueryLive}) ==>
              o == (t, Some(ErrNoRows))
  {
    RetireOutcome(t, id, now, true, fault)
  }

  /** The statements a retirement runs on a live row, start to commit. */
  const RetirePath: set<Step> := {Begin, QueryPool, QueryLive, MarkDeleted, InsertIntoPool, Commit}

  /** Expire on a live, expired row succeeds exactly when no statement on its
      path fails, and then retires that row and nothing else. */
  lemma ExpireLiveRow(t: Tables, id: Int64, now: Time, fault: Option<TxFault>)
    requires Consistent(t)
    requires id in t.rows && id !in t.pool && t.rows[id].expireAt < now
    ensures var o := ExpireOutcome(t, id, now, fault);
            && (o.1.None? <==> !FailsAt(fault, RetirePath))
            && o.0 == if o.1.None? then Tables(t.rows[id := t.rows[id].(isDeleted := true)], t.pool + {id}, t.nextID) else t
  {
  }

  /** Retiring an id twice: the second call finds it in the pool, succeeds
      and changes nothing. */
  lemma RetireIdempotent(t: Tables, id: Int64, now: Time, now': Time, requireExpired: bool,
                         requireExpired': bool, fault: Option<TxFault>)
    requires Consistent(t)
    requires RetireOutcome(t, id, now, requireExpired, fault).1 == None
    ensures var t1 := RetireOutcome(t, id, now, requireExpired, fault).0;
            RetireOutcome(t1, id, now', requireExpired', None) == (t1, None)
  {
  }

  /** Expire retires a row only once expire_at has passed; Delete or Expire
      of an id with no row fails with ErrNoRows once the queries succeed. */
  lemma RetireGuards(t: Tables, id: Int64, now: Time, fault: Option<TxFault>)
    requires Consistent(t)
    ensures id !in t.pool && ExpireOutcome(t, id, now, fault).1 == None ==> id in t.rows && t.rows[id].expireAt < now
    ensures id !in t.rows && !FailsAt(fault, {Begin, QueryPool, QueryLive}) ==>
              DeleteOutcome(t, id, fault) == (t, Some(ErrNoRows)) && ExpireOutcome(t, id, now, fault) == (t, Some(ErrNoRows))
  {
  }

  /** The rows GetExpiredIDs selects are live: none is already recyclable. */
  lemma ExpiredAreLive(t: Tables, now: Time)
    requires Consistent(t)
    ensures ExpiredIDs(t, now) <= LiveIDs(t)
  {
  }

  /** The ids GetExpiredIDs selects: expire_at < now AND is_deleted = false. */
  function ExpiredIDs(t: Tables, now: Time): set<Int64>
  {
    set id | id in t.rows && t.rows[id].expireAt < now && !t.rows[id].isDeleted
  }

  predicate Distinct(s: seq<Int64>)
  {
    forall i, j :: 0 <= i < j < |s| ==> s[i] != s[j]
  }

  /** The store and its database. Each transaction works on copies of the
      tables and publishes them only at commit, so an early return is the
      deferred rollback. */
  class SqlStore {
    var rows: map<Int64, ShortURL>
    var pool: set<Int64>
    var nextID: int

    function State(): Tables
      reads this
    {
      Tables(rows, pool, nextID)
    }

    predicate Valid()
      reads this
    {
      Consistent(State())
    }

    /** An empty database. */
    constructor ()
      ensures State() == Tables(map[], {}, 1) && Valid()
    {
      rows, pool, nextID := map[], {}, 1;
    }

    method CreateAsWritten(url: string, expireAt: Time, now: Time, fault: Option<TxFault>)
      returns (r: Result<ShortURL>)
      requires Valid()
      modifies this
      ensures (State(), r) == CreateAsWrittenOutcome(old(State()), url, expireAt, now, fault)
    {
      if FailsAt(fault, {Begin}) {
        return Err(FaultError(fault));
      }
      var txRows, txNext := rows, nextID;
      if FailsAt(fault, {InsertRow}) {
        return Err(FaultError(fault));
      }
      if txNext > MaxInt64 {
        return Err(AutoIncrementExhausted);
      }
      var inserted := NewRow(txNext, url, expireAt, now);
      txRows, txNext := txRows[inserted.id := inserted], txNext + 1;
      if FailsAt(fault, {LastInsertId}) {
        return Err(FaultError(fault));
      }
      var id := inserted.id;
      if FailsAt(fault, {ReadBack}) {
        return Err(FaultError(fault));
      }
      var shortURL := txRows[id];
      if FailsAt(fault, {Commit}) {
        return Err(FaultError(fault));
      }
      rows, nextID := txRows, txNext;
      r := Ok(shortURL);
    }

    method Get(id: Int64, fault: Option<nat>) returns (r: Result<ShortURL>)
      ensures r == GetOutcome(State(), id, fault)
    {
      if fault.Some? {
        return Err(Failure(fault.value));
      }
      if id !in rows {
        return Err(ErrNoRows);
      }
      r := Ok(rows[id]);
    }

    method DeleteAsWritten(id: Int64, fault: Option<nat>) returns (err: Option<Error>)
      requires Valid()
      modifies this
      ensures (State(), err) == DeleteAsWrittenOutcome(old(State()), id, fault)
    {
      if fault.Some? {
        return Some(Failure(fault.value));
      }
      if id in rows {
        rows := rows[id := rows[id].(isDeleted := true)];
      }
      err := None;
    }

    /** `claimed` is the id the pool query yields when the pool is not
        empty; which one it is lies with the database. */
    method Create(url: string, expireAt: Time, now: Time, fault: Option<TxFault>)
      returns (r: Result<ShortURL>, ghost claimed: Int64)
      requires Valid()
      modifies this
      ensures old(pool) != {} ==> claimed in old(pool)
      ensures (State(), r) == CreateOutcome(old(State()), url, expireAt, now, fault, claimed)
    {
      // SELECT id FROM recyclable_urls LIMIT 1 FOR UPDATE SKIP LOCKED
      var pick: Int64 := 0;
      if pool != {} {
        pick :| pick in pool;
      }
      claimed := pick;
      if FailsAt(fault, {Begin}) {
        return Err(FaultError(fault)), claimed;
      }
      var txRows, txPool, txNext := rows, pool, nextID;
      if txPool != {} && !FailsAt(fault, {QueryPool}) {
        var id := pick;
        if FailsAt(fault, {DeleteFromPool}) {
          return Err(FaultError(fault)), claimed;
        }
        txPool := txPool - {id};
        if FailsAt(fault, {UpdateRow}) {
          return Err(FaultError(fault)), claimed;
        }
        var recycled := NewRow(id, url, expireAt, now);
        txRows := txRows[id := recycled];
        if FailsAt(fault, {Commit}) {
          return Err(FaultError(fault)), claimed;
        }
        rows, pool := txRows, txPool;
        return Ok(recycled), claimed;
      }
      if FailsAt(fault, {InsertRow}) {
        return Err(FaultError(fault)), claimed;
      }
      if txNext > MaxInt64 {
        return Err(AutoIncrementExhausted), claimed;
      }
      var inserted := NewRow(txNext, url, expireAt, now);
      txRows, txNext := txRows[inserted.id := inserted], txNext + 1;
      if FailsAt(fault, {LastInsertId, Commit}) {
        return Err(FaultError(fault)), claimed;
      }
      rows, nextID := txRows, txNext;
      r := Ok(inserted);
    }

    /** The transaction shared by Delete and Expire. */
    method Retire(id: Int64, now: Time, requireExpired: bool, fault: Option<TxFault>)
      returns (err: Option<Error>)
      requires Valid()
      modifies this
      ensures (State(), err) == RetireOutcome(old(State()), id, now, requireExpired, fault)
    {
      if FailsAt(fault, {Begin}) {
        return Some(FaultError(fault));
      }
      var txRows, txPool := rows, pool;
      if FailsAt(fault, {QueryPool}) {
        return Some(FaultError(fault));
      }
      if id in txPool {
        if FailsAt(fault, {Commit}) {
          return Some(FaultError(fault));
        }
        return None;
      }
      if FailsAt(fault, {QueryLive}) {
        return Some(FaultError(fault));
      }
      if id !in txRows || (requireExpired && !(txRows[id].expireAt < now)) {
        return Some(ErrNoRows);
      }
      if FailsAt(fault, {MarkDeleted}) {
        return Some(FaultError(fault));
      }
      txRows := txRows[id := txRows[id].(isDeleted := true)];
      if FailsAt(fault, {InsertIntoPool}) {
        return Some(FaultError(fault));
      }
      txPool := txPool + {id};
      if FailsAt(fault, {Commit}) {
        return Some(FaultError(fault));
      }
      rows, pool := txRows, txPool;
      err := None;
    }

    method Delete(id: Int64, fault: Option<TxFault>) returns (err: Option<Error>)
      requires Valid()
      modifies this
      ensures (State(), err) == DeleteOutcome(old(State()), id, fault)
    {
      err := Retire(id, 0, false, fault);
    }

    method Expire(id: Int64, now: Time, fault: Option<TxFault>) returns (err: Option<Error>)
      requires Valid()
      modifies this
      ensures (State(), err) == ExpireOutcome(old(State()), id, now, fault)
    {
      err := Retire(id, now, true, fault);
    }

    /** The ids with expire_at < now that are not deleted, each once, in the
        order the database returns them. rowErrorAt = Some(k) stands for a
        row error after k rows: the cursor stops there and the ids already
        read are all that is yielded. */
    method GetExpiredIDs(now: Time, queryFault: Option<nat>, rowErrorAt: Option<nat>)
      returns (r: Result<seq<Int64>>)
      ensures r.Err? <==> queryFault.Some?
      ensures r.Err? ==> r.error == Failure(queryFault.value)
      ensures r.Ok? ==> Distinct(r.value)
      ensures r.Ok? ==> forall i :: 0 <= i < |r.value| ==> r.value[i] in ExpiredIDs(State(), now)
      ensures r.Ok? && rowErrorAt.None? ==> forall id :: id in ExpiredIDs(State(), now) ==> id in r.value
      ensures r.Ok? && rowErrorAt.Some? ==> |r.value| <= rowErrorAt.value
      ensures r.Ok? && rowErrorAt.Some? && |r.value| < rowErrorAt.value ==>
                forall id :: id in ExpiredIDs(State(), now) ==> id in r.value
    {
      if queryFault.Some? {
        return Err(Failure(queryFault.value));
      }
      var pending := rows.Keys;
      var ids: seq<Int64> := [];
      while pending != {} && (rowErrorAt.None? || |ids| < rowErrorAt.value)
        invariant pending <= rows.Keys
        invariant Distinct(ids)
        invariant forall i :: 0 <= i < |ids| ==> ids[i] in ExpiredIDs(State(), now) && ids[i] !in pending
        invariant forall id :: id in ExpiredIDs(State(), now) && id !in pending ==> id in ids
        invariant rowErrorAt.Some? ==> |ids| <= rowErrorAt.value
        decreases pending
      {
        var id :| id in pending;
        if rows[id].expireAt < now && !rows[id].isDeleted {
          ids := ids + [id];
        }
        pending := pending - {id};
      }
      r := Ok(ids);
    }
  }
}
