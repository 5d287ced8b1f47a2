/** The JSON wrapper around the browser's local storage: every key is
    prefixed with `sbbt:`, and an entry may carry an expiry time after which
    reading it removes it. The storage is a map from full keys to what is
    stored under them; the clock (`Date.now()`) is the parameter `now`. */
module Store {
  import opened Wrappers

  const Prefix: string := "sbbt:"

  /** What a stored string parses to: an entry `{v, t, e}` — the value (absent
      when the stored JSON has none), the time it was written and the
      optional expiry time — or anything else (no valid JSON, an empty
      string, or JSON that is not an entry object). */
  datatype Raw<V> = Entry(v: Option<V>, t: int, e: Option<int>) | Unreadable

  type Storage<V> = map<string, Raw<V>>

  /** `k`: the storage key of `key`. */
  function K(key: string): (r: string)
    ensures |r| == |Prefix| + |key|
    ensures r[..|Prefix|] == Prefix && r[|Prefix|..] == key
  {
    Prefix + key
  }

  /** Distinct keys never share a storage key. */
  lemma KInjective(a: string, b: string)
    requires K(a) == K(b)
    ensures a == b
  {
    assert a == K(a)[|Prefix|..];
  }

  /** Whether an entry counts as expired at `now`: it has an expiry time
      that is not 0 (JavaScript's `entry.e` is false for 0) and `now` is
      past it. */
  predicate Expired<V>(raw: Raw<V>, now: int) {
    raw.Entry? && raw.e.Some? && raw.e.value != 0 && now > raw.e.value
  }

  /** `setJSON`: stores the value (`None` for `null` or `undefined`) with
      the time of writing and, when a time-to-live is given, the time it
      expires; returns the value. Only the key's own slot changes. */
  function SetJSON<V>(store: Storage<V>, key: string, value: Option<V>, ttl: Option<int>, now: int): (r: (Storage<V>, Option<V>))
    ensures r.1 == value
    ensures K(key) in r.0 && r.0[K(key)].Entry? && r.0[K(key)].v == value
    ensures r.0[K(key)].t == now
    ensures ttl.None? ==> r.0[K(key)].e.None?
    ensures ttl.Some? ==> r.0[K(key)].e == Some(now + ttl.value)
    ensures forall x :: x != K(key) ==> (x in r.0 <==> x in store)
    ensures forall x :: x != K(key) && x in store ==> r.0[x] == store[x]
  {
    var e := if ttl.Some? then Some(now + ttl.value) else None;
    (store[K(key) := Entry(value, now, e)], value)
  }

  /** `getJSON`: the stored value, or `None` when nothing is stored, what is
      stored is unreadable or holds no value, or the entry has expired — in
      which case it is also removed. */
  function GetJSON<V>(store: Storage<V>, key: string, now: int): (r: (Storage<V>, Option<V>))
    ensures r.1.Some? <==> K(key) in store && store[K(key)].Entry? && store[K(key)].v.Some?
                           && !Expired(store[K(key)], now)
    ensures r.1.Some? ==> r.1 == store[K(key)].v
    ensures K(key) in store && Expired(store[K(key)], now) ==> K(key) !in r.0
    ensures !(K(key) in store && Expired(store[K(key)], now)) ==> r.0 == store
    ensures forall x :: x != K(key) ==> (x in r.0 <==> x in store)
    ensures forall x :: x != K(key) && x in store ==> r.0[x] == store[x]
  {
    if K(key) !in store then (store, None)
    else
      match store[K(key)]
      case Unreadable => (store, None)
      case Entry(v, _, _) =>
        if Expired(store[K(key)], now) then (store - {K(key)}, None)
        else (store, v)
  }

  /** `remove`: drops the key's entry; nothing else changes. */
  function Remove<V>(store: Storage<V>, key: string): (r: Storage<V>)
    ensures K(key) !in r
    ensures forall x :: x != K(key) ==> (x in r <==> x in store)
    ensures forall x :: x != K(key) && x in store ==> r[x] == store[x]
  {
    store - {K(key)}
  }

  /** Reading back a value just written gives it until its expiry time has
      passed, and nothing after; without a time-to-live it never expires. A
      written `null` reads back as `null`. */
  lemma SetThenGet<V>(store: Storage<V>, key: string, value: Option<V>, ttl: Option<int>, now: int, later: int)
    ensures var written := SetJSON(store, key, value, ttl, now).0;
            GetJSON(written, key, later).1
            == if ttl.None? || now + ttl.value == 0 || later <= now + ttl.value then value else None
  {
  }

  /** A read at or before the expiry time leaves the storage as it is. */
  lemma GetKeepsLive<V>(store: Storage<V>, key: string, value: Option<V>, ttl: Option<int>, now: int, later: int)
    requires ttl.None? || later <= now + ttl.value
    ensures var written := SetJSON(store, key, value, ttl, now).0;
            GetJSON(written, key, later) == (written, value)
  {
  }

  /** A read after the expiry time finds nothing and removes the entry, as
      `remove` would; reading again finds nothing and changes nothing. */
  lemma GetAfterExpiry<V>(store: Storage<V>, key: string, now: int)
    requires K(key) in store && Expired(store[K(key)], now)
    ensures GetJSON(store, key, now) == (Remove(store, key), None)
    ensures var after := GetJSON(store, key, now).0;
            GetJSON(after, key, now) == (after, None)
  {
  }

  /** After `remove` nothing is found under the key. */
  lemma RemoveThenGet<V>(store: Storage<V>, key: string, now: int)
    ensures var removed := Remove(store, key);
            GetJSON(removed, key, now) == (removed, None)
  {
  }

  /** Writing or removing one key does not change what another key reads. */
  lemma KeysIndependent<V>(store: Storage<V>, a: string, b: string, value: Option<V>, ttl: Option<int>, now: int, later: int)
    requires a != b
    ensures GetJSON(SetJSON(store, a, value, ttl, now).0, b, later).1 == GetJSON(store, b, later).1
    ensures GetJSON(Remove(store, a), b, later).1 == GetJSON(store, b, later).1
  {
    if K(a) == K(b) {
      KInjective(a, b);
    }
  }
}
