/** The record type of package db/record, with the not-exist flag the
    services use. */
module Record {

  const MinInt64: int := -0x8000_0000_0000_0000
  const MaxInt64: int := 0x7FFF_FFFF_FFFF_FFFF

  /** Go's int64. */
  type Int64 = x: int | MinInt64 <= x <= MaxInt64

  /** A point in time, in seconds since the Unix epoch. */
  type Time = int

  /** Go's zero time.Time (January 1 of year 1, UTC), the ExpireAt of a
      record whose expiry was never set. */
  const ZeroTime: Time := -62135596800

  /** record.ShortURL. `isNotExist` marks a negative cache entry; it never
      appears in a row of the relational store. */
  datatype ShortURL = ShortURL(
    id: Int64,
    createdAt: Time,
    expireAt: Time,
    url: string,
    isDeleted: bool,
    isNotExist: bool)

  /** The Go literal `&record.ShortURL{ID: id, IsDeleted: true}`. */
  function Tombstone(id: Int64): (r: ShortURL)
    ensures r.id == id && r.isDeleted && !r.isNotExist
    ensures r.expireAt == ZeroTime && r.url == ""
  {
    ShortURL(id, ZeroTime, ZeroTime, "", true, false)
  }

  /** The Go literal `&record.ShortURL{ID: id, IsNotExist: true}`. */
  function NegativeEntry(id: Int64): (r: ShortURL)
    ensures r.id == id && r.isNotExist && !r.isDeleted
    ensures r.expireAt == ZeroTime && r.url == ""
  {
    ShortURL(id, ZeroTime, ZeroTime, "", false, true)
  }

  /** The Go literal `&record.ShortURL{}`. */
  function ZeroRecord(): ShortURL
  {
    ShortURL(0, ZeroTime, ZeroTime, "", false, false)
  }
}
