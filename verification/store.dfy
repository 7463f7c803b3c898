/** The TTL key-value store: a map from keys to entries with the four
    operations of the store interface (set, get, delete, cleanup_expired),
    each a pure function of the store and, where the source reads the clock,
    of the current instant `now`.
 */
module TtlStore {
  import opened Entry

  /** The store owns one entry per key. */
  datatype Store = Store(data: map<string, Data>)

  /** The store the server starts with. */
  const Empty: Store := Store(map[])

  /** What `get` returns for a key that is absent or expired. */
  const Missing: string := ""

  /** Insert or overwrite the entry for `key`, expiring `ttl` seconds after `now`.
      The previous entry for `key`, if any, is dropped whole (last write wins). */
  function Set(s: Store, key: string, value: string, ttl: u64, now: Instant): (r: Store)
    ensures key in r.data
    ensures r.data[key].data == value
    ensures r.data[key].expiresIn == now + Seconds(ttl)
    ensures r.data.Keys == s.data.Keys + {key}
    ensures forall k :: k in s.data && k != key ==> r.data[k] == s.data[k]
  {
    Store(s.data[key := Fresh(value, ttl, now)])
  }

  /** Read `key` at time `now`. Absent and expired keys both read as `Missing`;
      an expired entry is reported but left in place. */
  function Get(s: Store, key: string, now: Instant): (r: string)
    ensures key !in s.data ==> r == Missing
    ensures key in s.data && s.data[key].IsExpired(now) ==> r == Missing
    ensures key in s.data && !s.data[key].IsExpired(now) ==> r == s.data[key].data
  {
    match Lookup(s.data, key)
    case Some(d) => if d.IsExpired(now) then Missing else d.data
    case None => Missing
  }

  /** Remove the entry for `key`; a missing key is left alone. */
  function Delete(s: Store, key: string): (r: Store)
    ensures key !in r.data
    ensures r.data.Keys == s.data.Keys - {key}
    ensures forall k :: k in r.data ==> r.data[k] == s.data[k]
  {
    Store(s.data - {key})
  }

  /** The store after sweeping at `now`: the expired entries are gone, the live
      ones are kept unchanged, and nothing new appears. This is the reference
      meaning of the two-phase sweep in module `Sweep`. */
  function Cleanup(s: Store, now: Instant): (r: Store)
    ensures forall k :: k in r.data ==> k in s.data && r.data[k] == s.data[k]
    ensures forall k :: k in r.data ==> !r.data[k].IsExpired(now)
    ensures forall k :: k in s.data && !s.data[k].IsExpired(now) ==> k in r.data
  {
    Store(map k | k in s.data && !s.data[k].IsExpired(now) :: s.data[k])
  }

  /** The keys the sweep at `now` removes. */
  function ExpiredKeys(s: Store, now: Instant): set<string>
  {
    set k | k in s.data && s.data[k].IsExpired(now)
  }

  /** What a reader observes at `now`: the value of every live key. */
  function Live(s: Store, now: Instant): map<string, string>
  {
    map k | k in s.data && !s.data[k].IsExpired(now) :: s.data[k].data
  }

  datatype Option<T> = None | Some(value: T)

  /** The hash-map lookup the source's `get` matches on. */
  function Lookup(m: map<string, Data>, key: string): Option<Data>
  {
    if key in m then Some(m[key]) else None
  }
}
