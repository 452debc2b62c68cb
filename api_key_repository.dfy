/**
 * `APIKeyRepository` (src/database/repositories/api_key_repository.py):
 * the `api_keys` table as a sequence of rows in insertion order.  The
 * SHA-256 digest of `hash_key` is a function the repository is built
 * with; the clock reading of each call is a parameter.
 */
module ApiKeyRepository {
  import opened Wrappers
  import opened Sorting
  import opened Models

  datatype KeyError =
    | DuplicateHash     // the unique index on key_hash refuses a second row
    | MultipleResults   // scalar_one_or_none() over two rows

  /** No two rows share an id. */
  predicate DistinctIds(keys: seq<ApiKey>) {
    forall i, j :: 0 <= i < j < |keys| ==> keys[i].id != keys[j].id
  }

  /** No two rows share a hash. */
  predicate DistinctHashes(keys: seq<ApiKey>) {
    forall i, j :: 0 <= i < j < |keys| ==> keys[i].keyHash != keys[j].keyHash
  }

  /** Some row with hash `h` is valid at `now`: what a successful `validate_key` needs. */
  predicate Accepts(keys: seq<ApiKey>, h: string, now: Time) {
    exists i :: 0 <= i < |keys| && keys[i].keyHash == h && IsValid(keys[i], now)
  }

  /** No active row carries hash `h`. */
  predicate Inactive(keys: seq<ApiKey>, h: string) {
    forall j :: 0 <= j < |keys| && keys[j].keyHash == h ==> !keys[j].isActive
  }

  /** A hash without an active row is refused at every instant. */
  lemma InactiveRejected(keys: seq<ApiKey>, h: string, now: Time)
    requires Inactive(keys, h)
    ensures !Accepts(keys, h, now)
  {
  }

  /** The position of the first row satisfying `p`. */
  function Find(keys: seq<ApiKey>, p: ApiKey -> bool): (r: Option<nat>)
    ensures r.Some? ==> r.value < |keys| && p(keys[r.value])
    ensures r.Some? ==> forall j :: 0 <= j < r.value ==> !p(keys[j])
    ensures r.None? ==> forall j :: 0 <= j < |keys| ==> !p(keys[j])
    decreases |keys|
  {
    if keys == [] then None
    else if p(keys[0]) then Some(0)
    else match Find(keys[1..], p)
      case None => None
      case Some(i) => Some(i + 1)
  }

  // ---------------------------------------------------- newest first

  /** `keys` is ordered by `created_at`, newest first. */
  predicate NewestFirst(keys: seq<ApiKey>) {
    forall i, j :: 0 <= i < j < |keys| ==> keys[j].createdAt <= keys[i].createdAt
  }

  function InsertByAge(k: ApiKey, s: seq<ApiKey>): seq<ApiKey>
    decreases |s|
  {
    if s == [] || s[0].createdAt <= k.createdAt then [k] + s
    else [s[0]] + InsertByAge(k, s[1..])
  }

  /** `ORDER BY created_at DESC`, by insertion. */
  function SortByAge(s: seq<ApiKey>): seq<ApiKey>
    decreases |s|
  {
    if s == [] then [] else InsertByAge(s[0], SortByAge(s[1..]))
  }

  lemma {:induction false} InsertByAgeCount(k: ApiKey, s: seq<ApiKey>)
    ensures multiset(InsertByAge(k, s)) == multiset(s) + multiset{k}
    decreases |s|
  {
    if s != [] && !(s[0].createdAt <= k.createdAt) {
      InsertByAgeCount(k, s[1..]);
      assert s == [s[0]] + s[1..];
    }
  }

  lemma {:induction false} InsertByAgeSorted(k: ApiKey, s: seq<ApiKey>)
    requires NewestFirst(s)
    ensures NewestFirst(InsertByAge(k, s))
    decreases |s|
  {
    if s == [] || s[0].createdAt <= k.createdAt {
      forall m | 0 <= m < |s| ensures s[m].createdAt <= k.createdAt {
        if m > 0 { assert s[m].createdAt <= s[0].createdAt; }
      }
      ConsNewestFirst(k, s);
    } else {
      var t := InsertByAge(k, s[1..]);
      InsertByAgeSorted(k, s[1..]);
      InsertByAgeCount(k, s[1..]);
      forall m | 0 <= m < |t| ensures t[m].createdAt <= s[0].createdAt {
        assert t[m] in multiset(t);
        if t[m] != k {
          assert t[m] in s[1..];
        }
      }
      ConsNewestFirst(s[0], t);
    }
  }

  /** A key no younger than every key of a newest-first list may go in front of it. */
  lemma {:induction false} ConsNewestFirst(k: ApiKey, t: seq<ApiKey>)
    requires NewestFirst(t) && forall m :: 0 <= m < |t| ==> t[m].createdAt <= k.createdAt
    ensures NewestFirst([k] + t)
  {
    var r := [k] + t;
    forall i, j | 0 <= i < j < |r| ensures r[j].createdAt <= r[i].createdAt {
      assert r[j] == t[j - 1];
      if i > 0 { assert r[i] == t[i - 1]; }
    }
  }

  lemma {:induction false} SortByAgeSpec(s: seq<ApiKey>)
    ensures NewestFirst(SortByAge(s))
    ensures multiset(SortByAge(s)) == multiset(s)
    decreases |s|
  {
    if s != [] {
      SortByAgeSpec(s[1..]);
      InsertByAgeSorted(s[0], SortByAge(s[1..]));
      InsertByAgeCount(s[0], SortByAge(s[1..]));
      assert s == [s[0]] + s[1..];
    }
  }

  // -------------------------------------------------- facts about rows

  /** Revoking a key leaves no active row with its hash, since no other row shares it. */
  lemma RevokedRejected(keys: seq<ApiKey>, i: nat)
    requires i < |keys| && DistinctHashes(keys)
    ensures Inactive(keys[i := keys[i].(isActive := false)], keys[i].keyHash)
  {
    var r := keys[i := keys[i].(isActive := false)];
    forall j | 0 <= j < |r| && j != i ensures r[j].keyHash != keys[i].keyHash {
      assert r[j] == keys[j];
    }
  }

  /** A deleted key's id matches no remaining row. */
  lemma DeletedGone(keys: seq<ApiKey>, i: nat)
    requires i < |keys| && DistinctIds(keys) && DistinctHashes(keys)
    ensures var r := keys[..i] + keys[i + 1..];
      |r| == |keys| - 1 && DistinctIds(r) && DistinctHashes(r)
      && forall k :: k in r <==> k in keys && k.id != keys[i].id
  {
    var r := keys[..i] + keys[i + 1..];
    forall j | 0 <= j < |r| ensures r[j] == keys[if j < i then j else j + 1] {
    }
    forall k | k in keys && k.id != keys[i].id ensures k in r {
      var j :| 0 <= j < |keys| && keys[j] == k;
      if j < i { assert r[j] == k; } else { assert r[j - 1] == k; }
    }
  }

  class ApiKeyRepository {
    /** The `api_keys` rows, oldest first. */
    var keys: seq<ApiKey>
    /** The next value of the id sequence. */
    var nextId: nat
    /** `hash_key`: the hex SHA-256 digest of the key. */
    const hashKey: string -> string

    ghost predicate Valid()
      reads this
    {
      DistinctIds(keys) && DistinctHashes(keys)
      && forall i :: 0 <= i < |keys| ==> keys[i].id < nextId
    }

    constructor(hashKey: string -> string)
      ensures Valid() && keys == [] && nextId == 1 && this.hashKey == hashKey
    {
      keys := [];
      nextId := 1;
      this.hashKey := hashKey;
    }

    /**
     * `validate_key`: the active row with the key's hash, unless it has
     * expired; a success stamps the row's last use and counts the request.
     */
    method ValidateKey(key: string, now: Time) returns (r: Option<ApiKey>)
      requires Valid()
      modifies this
      ensures Valid() && nextId == old(nextId)
      ensures r.Some? <==> Accepts(old(keys), hashKey(key), now)
      ensures r.None? ==> keys == old(keys)
      ensures r.Some? ==> exists i ::
                0 <= i < |old(keys)| && old(keys)[i].keyHash == hashKey(key)
                && r.value == old(keys)[i].(lastUsedAt := Some(now), requestCount := old(keys)[i].requestCount + 1)
                && keys == old(keys)[i := r.value]
    {
      var h := hashKey(key);
      var found := Find(keys, (k: ApiKey) => k.keyHash == h && k.isActive);
      if found.None? {
        return None;
      }
      var i := found.value;
      var k := keys[i];
      assert forall j :: 0 <= j < |keys| && keys[j].keyHash == h ==> j == i;
      if k.expiresAt.Some? && now > k.expiresAt.value {
        return None;
      }
      var used := k.(lastUsedAt := Some(now), requestCount := k.requestCount + 1);
      keys := keys[i := used];
      r := Some(used);
    }

    /**
     * `create_key`: a new active row with no requests yet.  A second key
     * with the same hash is refused by the unique index when the INSERT
     * is flushed; the serial id drawn for it is spent all the same, since
     * a PostgreSQL sequence is not rolled back.
     */
    method CreateKey(key: string, name: string, description: Option<string>, expiresAt: Option<Time>, now: Time)
      returns (r: Result<ApiKey, KeyError>)
      requires Valid()
      modifies this
      ensures Valid()
      ensures r.Err? <==> exists i :: 0 <= i < |old(keys)| && old(keys)[i].keyHash == hashKey(key)
      ensures r.Err? ==> r.error == DuplicateHash && keys == old(keys) && nextId == old(nextId) + 1
      ensures r.Ok? ==>
        r.value == ApiKey(old(nextId), hashKey(key), name, description, true, now, expiresAt, None, 0)
        && keys == old(keys) + [r.value] && nextId == old(nextId) + 1
      ensures r.Ok? ==> forall t :: !(expiresAt.Some? && t > expiresAt.value) ==> Accepts(keys, hashKey(key), t)
    {
      var h := hashKey(key);
      var clash := Find(keys, (k: ApiKey) => k.keyHash == h);
      if clash.Some? {
        nextId := nextId + 1;
        return Err(DuplicateHash);
      }
      var k := ApiKey(nextId, h, name, description, true, now, expiresAt, None, 0);
      keys := keys + [k];
      nextId := nextId + 1;
      r := Ok(k);
      assert keys[|keys| - 1] == k;
    }

    /** `get_by_id`. */
    function GetById(id: nat): (r: Option<ApiKey>)
      reads this
      ensures r.Some? ==> r.value in keys && r.value.id == id
      ensures r.None? <==> forall j :: 0 <= j < |keys| ==> keys[j].id != id
    {
      match Find(keys, (k: ApiKey) => k.id == id)
      case Some(i) => Some(keys[i])
      case None => None
    }

    /** `get_by_name`: names are not unique, and a name held twice raises. */
    function GetByName(name: string): (r: Result<Option<ApiKey>, KeyError>)
      reads this
      ensures r == Ok(None) <==> forall j :: 0 <= j < |keys| ==> keys[j].name != name
      ensures r.Ok? && r.value.Some? ==>
        r.value.value in keys && r.value.value.name == name
        && forall j :: 0 <= j < |keys| && keys[j].name == name ==> keys[j] == r.value.value
      ensures r.Err? <==> exists i, j :: 0 <= i < j < |keys| && keys[i].name == name && keys[j].name == name
    {
      var named := (k: ApiKey) => k.name == name;
      match Find(keys, named)
      case None => Ok(None)
      case Some(i) =>
        SecondMatch(keys, named, i);
        if Find(keys[i + 1..], named).None? then Ok(Some(keys[i])) else Err(MultipleResults)
    }

    /** `list_all`: active rows only unless asked, newest first. */
    function ListAll(includeInactive: bool): (r: seq<ApiKey>)
      reads this
      ensures NewestFirst(r)
      ensures forall k :: k in r <==> k in keys && (includeInactive || k.isActive)
      ensures forall k :: multiset(r)[k] == if includeInactive || k.isActive then multiset(keys)[k] else 0
    {
      var chosen := if includeInactive then keys else Filter(keys, (k: ApiKey) => k.isActive);
      FilterMultiset(keys, (k: ApiKey) => k.isActive);
      SortByAgeSpec(chosen);
      SameElements(SortByAge(chosen), chosen);
      SortByAge(chosen)
    }

    /** `revoke_key`: deactivates the row with that id; `false` when there is none. */
    method RevokeKey(id: nat) returns (b: bool)
      requires Valid()
      modifies this
      ensures Valid() && nextId == old(nextId)
      ensures b <==> exists i :: 0 <= i < |old(keys)| && old(keys)[i].id == id
      ensures !b ==> keys == old(keys)
      ensures b ==> exists i ::
                0 <= i < |old(keys)| && old(keys)[i].id == id
                && keys == old(keys)[i := old(keys)[i].(isActive := false)]
                && Inactive(keys, old(keys)[i].keyHash)
    {
      var found := Find(keys, (k: ApiKey) => k.id == id);
      if found.None? {
        return false;
      }
      var i := found.value;
      RevokedRejected(keys, i);
      keys := keys[i := keys[i].(isActive := false)];
      b := true;
    }

    /** `delete_key`: removes the row with that id; `false` when there is none. */
    method DeleteKey(id: nat) returns (b: bool)
      requires Valid()
      modifies this
      ensures Valid() && nextId == old(nextId)
      ensures b <==> exists i :: 0 <= i < |old(keys)| && old(keys)[i].id == id
      ensures !b ==> keys == old(keys)
      ensures b ==> |keys| == |old(keys)| - 1 && GetById(id).None?
      ensures forall k :: k in keys <==> k in old(keys) && k.id != id
    {
      var found := Find(keys, (k: ApiKey) => k.id == id);
      if found.None? {
        return false;
      }
      var i := found.value;
      DeletedGone(keys, i);
      keys := keys[..i] + keys[i + 1..];
      b := true;
    }
  }

  /** Sequences with one multiset hold the same elements. */
  lemma SameElements(a: seq<ApiKey>, b: seq<ApiKey>)
    requires multiset(a) == multiset(b)
    ensures forall k :: k in a <==> k in b
  {
    forall k ensures k in a <==> k in b {
      assert k in a <==> k in multiset(a);
      assert k in b <==> k in multiset(b);
    }
  }

  /** Given the first match at `i`, a second match exists exactly when the rest holds one. */
  lemma SecondMatch(keys: seq<ApiKey>, p: ApiKey -> bool, i: nat)
    requires i < |keys| && p(keys[i]) && forall j :: 0 <= j < i ==> !p(keys[j])
    ensures Find(keys[i + 1..], p).None? <==> forall j :: 0 <= j < |keys| && p(keys[j]) ==> j == i
    ensures Find(keys[i + 1..], p).None? <==> !exists a, b :: 0 <= a < b < |keys| && p(keys[a]) && p(keys[b])
  {
    var rest := keys[i + 1..];
    match Find(rest, p)
    case None =>
      forall j | i < j < |keys| ensures !p(keys[j]) {
        assert rest[j - i - 1] == keys[j];
      }
    case Some(k) =>
      assert rest[k] == keys[i + 1 + k];
  }
}
