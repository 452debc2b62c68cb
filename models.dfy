/**
 * The ORM records of src/database/models.py that the core relies on: a
 * stored CDS row (date unique and required, close required) and an API
 * key with its expiry test and its public dictionary.  Timestamps are
 * instants on one UTC clock, as integers.
 */
module Models {
  import opened Wrappers
  import opened Dates

  /** `CDSRecord` without its surrogate id and audit timestamps. */
  datatype CdsRecord = CdsRecord(
    date: Date,
    open: Option<real>,
    high: Option<real>,
    low: Option<real>,
    close: real,
    changePct: Option<real>,
    source: Option<string>)

  function RecordDate(r: CdsRecord): Date { r.date }

  /**
   * The `cds_records` table as a map from date to row: the unique
   * constraint on `date` is the map's key, and every row sits under its
   * own date.
   */
  predicate WellKeyed(table: map<Date, CdsRecord>) {
    forall d :: d in table ==> table[d].date == d
  }

  /** An instant, on the UTC clock. */
  type Time = int

  /** `APIKey`. */
  datatype ApiKey = ApiKey(
    id: nat,
    keyHash: string,
    name: string,
    description: Option<string>,
    isActive: bool,
    createdAt: Time,
    expiresAt: Option<Time>,
    lastUsedAt: Option<Time>,
    requestCount: nat)

  /** `APIKey.is_expired`: only a key with an expiry can expire, once the clock is past it. */
  predicate IsExpired(k: ApiKey, now: Time) {
    k.expiresAt.Some? && now > k.expiresAt.value
  }

  /** `APIKey.is_valid`. */
  predicate IsValid(k: ApiKey, now: Time) {
    k.isActive && !IsExpired(k, now)
  }

  /** Once expired, a key stays expired. */
  lemma ExpiredStays(k: ApiKey, now: Time, later: Time)
    requires IsExpired(k, now) && now <= later
    ensures IsExpired(k, later) && !IsValid(k, later)
  {
  }

  /** A key without an expiry is valid exactly while it is active. */
  lemma NoExpiryValid(k: ApiKey, now: Time)
    requires k.expiresAt.None?
    ensures IsValid(k, now) <==> k.isActive
  {
  }

  /** A JSON value of an API response. */
  datatype Json = JNull | JBool(b: bool) | JInt(i: int) | JStr(s: string) | JTime(t: Time)

  function OptStr(s: Option<string>): Json {
    match s
    case None => JNull
    case Some(v) => JStr(v)
  }

  function OptTime(t: Option<Time>): Json {
    match t
    case None => JNull
    case Some(v) => JTime(v)
  }

  /** The keys of `APIKey.to_dict`, in order. */
  const PublicKeys: seq<string> :=
    ["id", "name", "description", "is_active", "created_at", "expires_at", "last_used_at", "request_count"]

  /** `APIKey.to_dict`: every column but the hash. */
  function ToDict(k: ApiKey): (d: seq<(string, Json)>)
    ensures |d| == |PublicKeys|
    ensures forall i :: 0 <= i < |d| ==> d[i].0 == PublicKeys[i]
  {
    [("id", JInt(k.id)), ("name", JStr(k.name)), ("description", OptStr(k.description)),
     ("is_active", JBool(k.isActive)), ("created_at", JTime(k.createdAt)),
     ("expires_at", OptTime(k.expiresAt)), ("last_used_at", OptTime(k.lastUsedAt)),
     ("request_count", JInt(k.requestCount))]
  }

  /** The dictionary never exposes the key hash. */
  lemma ToDictHidesHash(k: ApiKey)
    ensures forall i :: 0 <= i < |ToDict(k)| ==> ToDict(k)[i].0 != "key_hash"
  {
    var d := ToDict(k);
    forall i | 0 <= i < |d| ensures d[i].0 != "key_hash" {
      assert d[i].0 == PublicKeys[i];
      assert PublicKeys[i][0] != 'k';
    }
  }

  /** Two keys with the same dictionary differ at most in their hash. */
  lemma ToDictFaithful(a: ApiKey, b: ApiKey)
    requires ToDict(a) == ToDict(b)
    ensures a.(keyHash := b.keyHash) == b
  {
    assert ToDict(a)[2] == ToDict(b)[2];
    assert ToDict(a)[5] == ToDict(b)[5];
    assert ToDict(a)[6] == ToDict(b)[6];
  }
}
