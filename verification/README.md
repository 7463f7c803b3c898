# TTL key-value store (mini-redis) in Dafny

This project models the store at the heart of mini-redis: a `HashMap<String, Data>`
in which every entry carries a value and an absolute expiry instant, and the four
operations of the `RedisStore` interface, `set`, `get`, `delete` and
`cleanup_expired`.

The only impure part of the store is the clock (`SystemTime::now()`). Here the
current instant is an explicit argument `now: Instant`, a natural number of
nanoseconds; a TTL of `ttl` seconds (an unsigned 64-bit count, the `u64` newtype) is
scaled by `NanosPerSecond`, as `Duration::from_secs` does. With the clock made explicit,
every operation is a pure function over an immutable `map<string, Data>`:

- `entry.dfy`, module `Entry`: `Data` with `IsExpired` (expired from the expiry
  instant on, inclusive), and `Fresh`, the entry `set` builds.
- `store.dfy`, module `TtlStore`: the `Store` datatype and `Set`, `Get`, `Delete`,
  and `Cleanup`, the reference meaning of the sweep. It also defines `Live`, the view a
  reader observes: the value of every unexpired key. Most properties are stated
  against that view.
- `sweep.dfy`, module `Sweep`: `cleanup_expired` as the source writes it. Phase one
  walks the keys in an unspecified order, as `HashMap` iteration does, and collects
  the expired ones. Phase two deletes the collected keys one by one. The method is
  proved equal to `TtlStore.Cleanup`.
- `properties.dfy`, module `StoreProperties`: lemmas relating operations. They cover
  read-after-write, last-write-wins, delete as an inverse and its idempotence,
  lazy expiry, and the sweep's idempotence and invisibility to readers. They also
  show that writes to distinct keys lose no update, and check the example run
  set/set/get/delete/get/get.

`get` returns the empty string for an absent key, for an expired key, and for a key
whose stored value is itself empty (`EmptyValueLooksAbsent`). The model keeps this
conflation because the source has it. `get` takes the store by shared reference, so
an expired entry stays resident until a `delete` or a sweep removes it
(`ExpiredEntryStaysResident`).

## Model

| member | source | states |
|---|---|---|
| `Entry.Seconds` | src/store.rs:36 | a TTL of zero seconds is a zero duration, and any positive TTL lasts at least one second |
| `Entry.Fresh` | src/store.rs:35-38 | the new entry holds the value, and it is expired at an instant exactly when that instant is at or after `now + ttl` seconds, so a zero TTL is expired at once |
| `Entry.FreshLifetime` | src/store.rs:16-38 | a freshly set entry is readable for strictly less than `ttl` seconds after the write, and expired from then on |
| `Entry.ExpiryIsPermanent` | src/store.rs:16-18 | once `now >= expires_in` holds it holds at every later instant |
| `TtlStore.Set` | src/store.rs:34-41 | after `set` the key holds the new value and the expiry `now + ttl` seconds; the key set grows by exactly that key; every other entry is unchanged |
| `TtlStore.Get` | src/store.rs:43-57 | an absent key and an expired key both read as the empty string, and a live key reads as its stored value |
| `TtlStore.Delete` | src/store.rs:60-62 | the key is gone, no other key is removed, and every remaining entry is unchanged |
| `TtlStore.Cleanup` | src/store.rs:64-75 | every entry left is unexpired at `now` and unchanged from before, and every entry unexpired at `now` is kept |
| `Sweep.CollectExpired` | src/store.rs:65-70 | whatever the iteration order, the collected keys are exactly the keys whose entries are expired at `now`, each listed once |
| `Sweep.RemoveAll` | src/store.rs:72-74 | deleting the listed keys one by one removes exactly those keys and changes no remaining entry |
| `Sweep.CleanupExpired` | src/store.rs:64-75 | the collect-then-remove sweep yields the reference `Cleanup` and removes exactly the expired keys |
| `StoreProperties.GetReadsLive` | src/store.rs:43-57 | `get` returns the live view's value for a live key and the empty string for any other key |
| `StoreProperties.GetAfterSet` | src/store.rs:34-51 | a `get` at the instant of `set` returns the value when the TTL is positive and the empty string when it is zero |
| `StoreProperties.GetAfterSetLater` | src/store.rs:34-51 | a `get` after `set` returns the value for strictly less than `ttl` seconds and the empty string from then on |
| `StoreProperties.SetOverwrites` | src/store.rs:34-41 | a second `set` of a key replaces value and expiry entirely (last write wins, no merge) |
| `StoreProperties.SetLeavesOtherKeys` | src/store.rs:34-41 | `set` changes no read of any other key, at any instant |
| `StoreProperties.LiveAfterSet` | src/store.rs:34-41 | at the write's instant, `set` with a positive TTL updates the key in the live view, and with a zero TTL removes it from the view |
| `StoreProperties.GetAfterDelete` | src/store.rs:60-62 | after `delete` the key reads as the empty string at every instant |
| `StoreProperties.DeleteIdempotent` | src/store.rs:60-62 | deleting an absent key is a no-op, so a second `delete` changes nothing |
| `StoreProperties.DeleteUndoesSet` | src/store.rs:34-62 | `delete` restores the store exactly as it was before a `set` that introduced a new key |
| `StoreProperties.LiveAfterDelete` | src/store.rs:60-62 | `delete` removes exactly that key from the live view |
| `StoreProperties.CleanupRemovesExpired` | src/store.rs:64-75 | the sweep's result is the old key set minus exactly the expired keys |
| `StoreProperties.CleanupPreservesLive` | src/store.rs:43-75 | the sweep changes neither the live view nor any `get` at the same instant |
| `StoreProperties.CleanupIdempotent` | src/store.rs:64-75 | sweeping twice at one instant equals sweeping once |
| `StoreProperties.CleanupSubsumed` | src/store.rs:64-75 | a sweep followed by a later sweep equals the later sweep alone |
| `StoreProperties.ExpiredEntryStaysResident` | src/store.rs:43-49 | an expired entry reads as the empty string yet stays in the map until a sweep removes it |
| `StoreProperties.GetOnEmpty` | src/main.rs:37-38 | in the store the server starts with, every key reads as the empty string |
| `StoreProperties.EmptyValueLooksAbsent` | src/store.rs:43-57 | a stored empty value reads the same as an absent key |
| `StoreProperties.SetEachLeavesOtherKeys` | src/store.rs:34-41 | a run of `set` calls on other keys leaves an entry present or absent as before, and unchanged |
| `StoreProperties.SetEachThenGet` | src/store.rs:34-51 | after `set` calls on distinct keys at one instant, each key written with a positive TTL reads back its own value |
| `StoreProperties.Scenario` | src/store.rs:34-62 | set a, set b, get a = "1", delete a, get a = "", get b = "2" |

## Left out

- The HTTP layer (`src/main.rs`, `src/service.rs`): routing, body reading, JSON decoding and response building are I/O and foreign library calls; their only store-relevant act is one call of `set`, `get` or `delete`.
- The `Arc<Mutex<Store>>` sharing: the mutex serialises every operation into one total order, which the model represents as a sequence of pure function applications (`SetEach` is such a sequence of `set` calls).
- The background reaper loop: it is commented out in `src/main.rs`; one sweep is modelled by `Sweep.CleanupExpired`.
- The wall clock: every operation takes the current instant as an argument, and the wall clock's own behaviour (it may jump backwards) is not modelled.
- Sweep.CleanupExpired: uses one instant for the whole sweep, whereas the source reads the clock again for each entry it tests; with a single instant the removed set is exactly the entries expired at that instant.
- The panic when `SystemTime + Duration` overflows in `set`: instants are unbounded naturals, so the expiry `now + ttl` seconds always exists.
- The `info!` logging in `get`.
