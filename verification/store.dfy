/**
 The shared key-value store the plugin reaches through `server.notes.redis`,
 reduced to the three commands it issues: GET, SET with EX, and DEL. Time is
 an explicit clock reading in whole seconds; a record is live strictly before
 its expiry time and invisible from then on.
 */
module KeyValueStore {
  import opened Optional

  datatype Entry = Entry(value: string, expiresAt: int)

  type Store = map<string, Entry>

  predicate Live(s: Store, key: string, now: int)
  {
    key in s && now < s[key].expiresAt
  }

  /** `GET key` at time `now`: the value of a live record, `null` otherwise. */
  function Lookup(s: Store, key: string, now: int): (r: Option<string>)
    ensures r.Some? <==> Live(s, key, now)
    ensures r.Some? ==> r.value == s[key].value
  {
    if Live(s, key, now) then Some(s[key].value) else None
  }

  /** `SET key value EX ttl` issued at time `now`. */
  function SetEx(s: Store, key: string, value: string, ttl: nat, now: int): (r: Store)
    requires ttl > 0
    ensures forall t :: Lookup(r, key, t) == (if t < now + ttl then Some(value) else None)
    ensures forall k, t :: k != key ==> Lookup(r, k, t) == Lookup(s, k, t)
    ensures r.Keys == s.Keys + {key}
  {
    s[key := Entry(value, now + ttl)]
  }

  /** `DEL key`: removing an absent key is harmless. */
  function Del(s: Store, key: string): (r: Store)
    ensures forall t :: Lookup(r, key, t).None?
    ensures forall k, t :: k != key ==> Lookup(r, k, t) == Lookup(s, k, t)
    ensures r.Keys == s.Keys - {key}
  {
    s - {key}
  }
}
