/** Package cache: the Redis-backed cache store, as an abstract key-value
    map whose entries carry a time-to-live. */
module Cache {
  import opened Errors
  import opened Record
  import Decimal

  /** defaultExpiration: 10 * time.Minute, in seconds. */
  const DefaultExpiration: int := 10 * 60

  /** makeKey: fmt.Sprintf("id#%v", id). */
  function MakeKey(id: Int64): (key: string)
    ensures |key| > 3 && key[..3] == "id#"
    ensures Decimal.IsCanonical(key[3..])
    ensures Decimal.ParseInt(key[3..]) == Some(id)
  {
    Decimal.FormatThenParse(id);
    Decimal.FormatIntIsCanonical(id);
    assert ("id#" + Decimal.FormatInt(id))[3..] == Decimal.FormatInt(id);
    "id#" + Decimal.FormatInt(id)
  }

  lemma MakeKeyExamples()
    ensures MakeKey(0) == "id#0"
    ensures MakeKey(123) == "id#123"
    ensures MakeKey(-456) == "id#-456"
  {
    assert Decimal.FormatNat(12) == "12";
    assert Decimal.FormatNat(45) == "45";
  }

  /** Distinct ids never share a cache key. */
  lemma MakeKeyInjective(a: Int64, b: Int64)
    ensures MakeKey(a) == MakeKey(b) ==> a == b
  {
    if MakeKey(a) == MakeKey(b) {
      assert MakeKey(a)[3..] == Decimal.FormatInt(a);
      assert MakeKey(b)[3..] == Decimal.FormatInt(b);
      Decimal.FormatThenParse(a);
      Decimal.FormatThenParse(b);
    }
  }

  /** A stored value and the time at which Redis drops it. */
  datatype Entry = Entry(record: ShortURL, deadline: Time)

  /** Redis GET of a key: the stored record while the key lives, otherwise
      the miss signal redis.Nil (ErrKeyNotFound). */
  function Lookup(entries: map<string, Entry>, key: string, now: Time): Result<ShortURL>
  {
    if key in entries && now < entries[key].deadline then Ok(entries[key].record)
    else Err(ErrKeyNotFound)
  }

  /** What Get returns: a failure of the client call when one is injected,
      otherwise the lookup of the id's key. */
  function GetOutcome(entries: map<string, Entry>, id: Int64, now: Time, fault: Option<nat>): Result<ShortURL>
  {
    if fault.Some? then Err(Failure(fault.value)) else Lookup(entries, MakeKey(id), now)
  }

  /** What Set leaves behind and returns: on a failure nothing is stored. */
  function SetOutcome(entries: map<string, Entry>, id: Int64, record: ShortURL, now: Time,
                      expiration: int, fault: Option<nat>): (map<string, Entry>, Option<Error>)
  {
    if fault.Some? then (entries, Some(Failure(fault.value)))
    else (entries[MakeKey(id) := Entry(record, now + expiration)], None)
  }

  /** What Evict leaves behind and returns. */
  function EvictOutcome(entries: map<string, Entry>, id: Int64, fault: Option<nat>): (map<string, Entry>, Option<Error>)
  {
    if fault.Some? then (entries, Some(Failure(fault.value)))
    else (entries - {MakeKey(id)}, None)
  }

  /** Get distinguishes a miss from every other failure: ErrKeyNotFound only
      when no transport failure happened and the key is absent or expired. */
  lemma GetMissSignal(entries: map<string, Entry>, id: Int64, now: Time, fault: Option<nat>)
    ensures GetOutcome(entries, id, now, fault) == Err(ErrKeyNotFound) <==>
            fault.None? && (MakeKey(id) !in entries || entries[MakeKey(id)].deadline <= now)
    ensures fault.Some? ==> GetOutcome(entries, id, now, fault).Err? &&
                            GetOutcome(entries, id, now, fault).error != ErrKeyNotFound
  {
  }

  /** A successful Set is read back by Get, field for field, until the TTL
      runs out, and not after. */
  lemma SetThenGet(entries: map<string, Entry>, id: Int64, record: ShortURL, now: Time,
                   expiration: int, later: Time)
    requires now <= later
    ensures var (stored, err) := SetOutcome(entries, id, record, now, expiration, None);
            err == None &&
            GetOutcome(stored, id, later, None) ==
              (if later < now + expiration then Ok(record) else Err(ErrKeyNotFound))
  {
  }

  /** A failing Set returns its error and stores nothing. */
  lemma FailedSetStoresNothing(entries: map<string, Entry>, id: Int64, record: ShortURL, now: Time,
                               expiration: int, code: nat)
    ensures SetOutcome(entries, id, record, now, expiration, Some(code)) == (entries, Some(Failure(code)))
  {
  }

  /** Set and Evict of one id leave what Get returns for every other id
      unchanged. */
  lemma WritesTouchOnlyTheirKey(entries: map<string, Entry>, id: Int64, other: Int64, record: ShortURL,
                                now: Time, expiration: int, later: Time, fault: Option<nat>,
                                getFault: Option<nat>)
    requires other != id
    ensures GetOutcome(SetOutcome(entries, id, record, now, expiration, fault).0, other, later, getFault) ==
            GetOutcome(entries, other, later, getFault)
    ensures GetOutcome(EvictOutcome(entries, id, fault).0, other, later, getFault) ==
            GetOutcome(entries, other, later, getFault)
  {
    MakeKeyInjective(id, other);
  }

  /** After a successful Evict the id misses. */
  lemma EvictThenGet(entries: map<string, Entry>, id: Int64, later: Time)
    ensures var (left, err) := EvictOutcome(entries, id, None);
            err == None && GetOutcome(left, id, later, None) == Err(ErrKeyNotFound)
  {
  }

  /** The error redis.go's Get meets on every hit: it scans into a nil
      *record.ShortURL, whose UnmarshalBinary passes a nil pointer to
      json.Unmarshal. */
  const ScanIntoNilPointer: Error := ErrInvalidUnmarshal

  /** Get as redis.go writes it: the miss signal is right, but a live key
      yields the unmarshal error instead of the record. */
  function LookupAsWritten(entries: map<string, Entry>, key: string, now: Time): (r: Result<ShortURL>)
    ensures r.Err?
    ensures r.error == ErrKeyNotFound <==> Lookup(entries, key, now) == Err(ErrKeyNotFound)
  {
    if key in entries && now < entries[key].deadline then Err(ScanIntoNilPointer)
    else Err(ErrKeyNotFound)
  }

  /** As written, Get never returns a record: right after a successful Set it
      fails with an error other than the miss signal. */
  lemma AsWrittenGetNeverHits(entries: map<string, Entry>, id: Int64, record: ShortURL, now: Time,
                              expiration: int)
    requires expiration > 0
    ensures forall key, t :: LookupAsWritten(entries, key, t).Err?
    ensures var stored := SetOutcome(entries, id, record, now, expiration, None).0;
            LookupAsWritten(stored, MakeKey(id), now) == Err(ScanIntoNilPointer) &&
            ScanIntoNilPointer != ErrKeyNotFound
  {
  }

  /** The cache client: the key-value map and the fixed TTL of every Set. */
  class RedisCache {
    var entries: map<string, Entry>
    const expiration: int

    /** NewRedisStore: an empty cache whose TTL is defaultExpiration. */
    constructor ()
      ensures entries == map[] && expiration == DefaultExpiration
    {
      entries := map[];
      expiration := DefaultExpiration;
    }

    /** Get, with the lookup intended by redis.go (see LookupAsWritten). */
    method Get(id: Int64, now: Time, fault: Option<nat>) returns (r: Result<ShortURL>)
      ensures r == GetOutcome(entries, id, now, fault)
      ensures r.Ok? ==> MakeKey(id) in entries && r.value == entries[MakeKey(id)].record
    {
      if fault.Some? {
        return Err(Failure(fault.value));
      }
      var key := MakeKey(id);
      if key in entries && now < entries[key].deadline {
        r := Ok(entries[key].record);
      } else {
        r := Err(ErrKeyNotFound);
      }
    }

    method Set(id: Int64, record: ShortURL, now: Time, fault: Option<nat>) returns (err: Option<Error>)
      modifies this
      ensures (entries, err) == SetOutcome(old(entries), id, record, now, expiration, fault)
    {
      if fault.Some? {
        return Some(Failure(fault.value));
      }
      entries := entries[MakeKey(id) := Entry(record, now + expiration)];
      err := None;
    }

    method Evict(id: Int64, fault: Option<nat>) returns (err: Option<Error>)
      modifies this
      ensures (entries, err) == EvictOutcome(old(entries), id, fault)
    {
      if fault.Some? {
        return Some(Failure(fault.value));
      }
      entries := entries - {MakeKey(id)};
      err := None;
    }
  }
}
