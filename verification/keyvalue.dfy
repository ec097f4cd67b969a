/** The Redis instance the service talks to, reduced to the commands it
    issues (GET, SET with TTL, DEL, INCR, EXPIRE). Time is a number of
    seconds passed to every command; an entry whose expiry time has been
    reached reads as absent. When the store is unreachable (`up == false`)
    every command fails with `Redis(Down)` and changes nothing. */
module KeyValue {
  import opened Common

  /** What a key holds: plain text, an INCR counter, or the JSON of a
      cached profile (username and email). */
  datatype Value =
    | Text(s: string)
    | Counter(n: int)
    | ProfileJson(username: string, email: string)

  datatype Entry = Entry(value: Value, expiresAt: Option<nat>)

  datatype Store = Store(entries: map<string, Entry>, up: bool)

  predicate Live(e: Entry, now: nat)
  {
    e.expiresAt.None? || now < e.expiresAt.value
  }

  /** The value a reader sees under `key` at time `now`. */
  function Lookup(s: Store, key: string, now: nat): Option<Value>
  {
    if key in s.entries && Live(s.entries[key], now) then Some(s.entries[key].value) else None
  }

  /** Expiry time for a TTL given at `now`; a zero TTL means "no expiry"
      (go-redis passes 0 as "keep forever"). */
  function ExpiryAfter(ttl: nat, now: nat): Option<nat>
  {
    if ttl == 0 then None else Some(now + ttl)
  }

  /** GET: a missing key is `Success(None)` (redis.Nil); the store is not
      modified by a read. */
  function Get(s: Store, key: string, now: nat): (r: Result<Option<Value>>)
    ensures r.Failure? <==> !s.up
    ensures r.Failure? ==> r.error == Redis(Down)
    ensures r.Success? ==> r.value == Lookup(s, key, now)
  {
    if !s.up then Failure(Redis(Down)) else Success(Lookup(s, key, now))
  }

  /** SET key value EX ttl: overwrites the key and only the key. */
  function Set(s: Store, key: string, v: Value, ttl: nat, now: nat): (r: Result<Store>)
    ensures r.Failure? <==> !s.up
    ensures r.Success? ==> r.value.up
    ensures r.Success? ==> key in r.value.entries && r.value.entries[key] == Entry(v, ExpiryAfter(ttl, now))
    ensures r.Success? ==> forall k :: k != key ==> Lookup(r.value, k, now) == Lookup(s, k, now)
    ensures r.Success? ==> r.value.entries.Keys == s.entries.Keys + {key}
  {
    if !s.up then Failure(Redis(Down))
    else Success(s.(entries := s.entries[key := Entry(v, ExpiryAfter(ttl, now))]))
  }

  /** DEL key: the key is gone, nothing else changes. */
  function Del(s: Store, key: string): (r: Result<Store>)
    ensures r.Failure? <==> !s.up
    ensures r.Success? ==> r.value.up && r.value.entries.Keys == s.entries.Keys - {key}
    ensures r.Success? ==> forall k :: k in r.value.entries ==> r.value.entries[k] == s.entries[k]
  {
    if !s.up then Failure(Redis(Down))
    else Success(s.(entries := s.entries - {key}))
  }

  datatype IncrReply = IncrReply(count: Result<int>, store: Store)

  /** INCR key: a missing (or expired) key starts at 1 with no expiry; a
      live counter goes up by one and keeps its expiry; any other value is
      an error and is left alone. */
  function Incr(s: Store, key: string, now: nat): (r: IncrReply)
    ensures r.count.Failure? ==> r.store == s
    ensures !s.up ==> r.count == Failure(Redis(Down))
    ensures s.up && Lookup(s, key, now).None? ==>
              r.count == Success(1) && key in r.store.entries && r.store.entries[key] == Entry(Counter(1), None)
    ensures s.up && Lookup(s, key, now).Some? && Lookup(s, key, now).value.Counter? ==>
              r.count == Success(Lookup(s, key, now).value.n + 1)
              && key in r.store.entries && r.store.entries[key] == s.entries[key].(value := Counter(r.count.value))
    ensures r.count.Success? ==> r.store.up && key in r.store.entries && r.store.entries == s.entries[key := r.store.entries[key]]
  {
    if !s.up then IncrReply(Failure(Redis(Down)), s)
    else
      match Lookup(s, key, now)
      case None => IncrReply(Success(1), s.(entries := s.entries[key := Entry(Counter(1), None)]))
      case Some(Counter(n)) =>
        IncrReply(Success(n + 1), s.(entries := s.entries[key := s.entries[key].(value := Counter(n + 1))]))
      case Some(_) => IncrReply(Failure(Redis(NotInteger)), s)
  }

  /** EXPIRE key ttl on a live key: its expiry becomes `now + ttl` (a zero
      TTL deletes it). On a missing key, or an unreachable store, nothing
      changes; the caller in this service ignores the reply. */
  function Expire(s: Store, key: string, ttl: nat, now: nat): (r: Store)
    ensures Lookup(s, key, now).None? || !s.up ==> r == s
    ensures s.up && Lookup(s, key, now).Some? && ttl > 0 ==>
              r.entries == s.entries[key := Entry(s.entries[key].value, Some(now + ttl))]
    ensures s.up && Lookup(s, key, now).Some? && ttl == 0 ==> r.entries == s.entries - {key}
    ensures r.up == s.up
  {
    if !s.up || Lookup(s, key, now).None? then s
    else if ttl == 0 then s.(entries := s.entries - {key})
    else s.(entries := s.entries[key := Entry(s.entries[key].value, Some(now + ttl))])
  }

  /** A value written with SET is read back until its TTL runs out, and is
      gone from then on. */
  lemma SetThenLookup(s: Store, key: string, v: Value, ttl: nat, now: nat, later: nat)
    requires s.up
    requires now <= later
    ensures Lookup(Set(s, key, v, ttl, now).value, key, later)
            == if ttl == 0 || later < now + ttl then Some(v) else None
  {
  }

  /** After DEL the key reads as absent at every time. */
  lemma DelThenLookup(s: Store, key: string, t: nat)
    requires s.up
    ensures Lookup(Del(s, key).value, key, t).None?
  {
  }

  /** DEL is idempotent. */
  lemma DelIdempotent(s: Store, key: string)
    requires s.up
    ensures Del(Del(s, key).value, key) == Del(s, key)
  {
    assert (s.entries - {key}) - {key} == s.entries - {key};
  }
}
