/** Properties of the TTL store that relate several operations: reads after
    writes, last-write-wins, delete as an inverse and its idempotence, the
    sweep's idempotence and its invisibility to readers, all stated against
    the observable view `TtlStore.Live`.
 */
module StoreProperties {
  import opened Entry
  import opened TtlStore

  /** A read observes exactly the live view: the stored value of a live key,
      `Missing` for every other key. */
  lemma GetReadsLive(s: Store, key: string, now: Instant)
    ensures key in Live(s, now) ==> Get(s, key, now) == Live(s, now)[key]
    ensures key !in Live(s, now) ==> Get(s, key, now) == Missing
  {
  }

  /** Reading back at the instant of the write: a positive TTL gives the value,
      a zero TTL is already expired and reads as `Missing`. */
  lemma GetAfterSet(s: Store, key: string, value: string, ttl: u64, now: Instant)
    ensures ttl > 0 ==> Get(Set(s, key, value, ttl, now), key, now) == value
    ensures ttl == 0 ==> Get(Set(s, key, value, ttl, now), key, now) == Missing
  {
  }

  /** Reading back later: the value is visible for strictly less than `ttl`
      seconds after the write and `Missing` from then on. */
  lemma GetAfterSetLater(s: Store, key: string, value: string, ttl: u64, now: Instant, later: Instant)
    requires now <= later
    ensures later - now < Seconds(ttl) ==> Get(Set(s, key, value, ttl, now), key, later) == value
    ensures later - now >= Seconds(ttl) ==> Get(Set(s, key, value, ttl, now), key, later) == Missing
  {
  }

  /** A second `set` of the same key replaces the first entirely: value and
      expiry both come from the second call, whatever the first one stored. */
  lemma SetOverwrites(s: Store, key: string, v1: string, ttl1: u64, t1: Instant,
                      v2: string, ttl2: u64, t2: Instant)
    ensures Set(Set(s, key, v1, ttl1, t1), key, v2, ttl2, t2) == Set(s, key, v2, ttl2, t2)
  {
  }

  /** A `set` changes no read of another key, at any instant. */
  lemma SetLeavesOtherKeys(s: Store, key: string, value: string, ttl: u64, now: Instant,
                           other: string, t: Instant)
    requires other != key
    ensures Get(Set(s, key, value, ttl, now), other, t) == Get(s, other, t)
  {
  }

  /** The effect of `set` on the live view at the instant of the write. */
  lemma LiveAfterSet(s: Store, key: string, value: string, ttl: u64, now: Instant)
    ensures ttl > 0 ==> Live(Set(s, key, value, ttl, now), now) == Live(s, now)[key := value]
    ensures ttl == 0 ==> Live(Set(s, key, value, ttl, now), now) == Live(s, now) - {key}
  {
  }

  /** After `delete` the key reads as `Missing` at every instant. */
  lemma GetAfterDelete(s: Store, key: string, t: Instant)
    ensures Get(Delete(s, key), key, t) == Missing
  {
  }

  /** `delete` of an absent key changes nothing, so deleting twice is deleting once. */
  lemma DeleteIdempotent(s: Store, key: string)
    ensures key !in s.data ==> Delete(s, key) == s
    ensures Delete(Delete(s, key), key) == Delete(s, key)
  {
  }

  /** `delete` is the inverse of a `set` that introduced a new key. */
  lemma DeleteUndoesSet(s: Store, key: string, value: string, ttl: u64, now: Instant)
    requires key !in s.data
    ensures Delete(Set(s, key, value, ttl, now), key) == s
  {
  }

  /** The effect of `delete` on the live view: exactly `key` disappears. */
  lemma LiveAfterDelete(s: Store, key: string, now: Instant)
    ensures Live(Delete(s, key), now) == Live(s, now) - {key}
  {
  }

  /** The sweep removes exactly the expired keys. */
  lemma CleanupRemovesExpired(s: Store, now: Instant)
    ensures Cleanup(s, now).data.Keys == s.data.Keys - ExpiredKeys(s, now)
    ensures Cleanup(s, now).data.Keys !! ExpiredKeys(s, now)
  {
  }

  /** The sweep is invisible to readers at the same instant. */
  lemma CleanupPreservesLive(s: Store, now: Instant)
    ensures Live(Cleanup(s, now), now) == Live(s, now)
    ensures forall k :: Get(Cleanup(s, now), k, now) == Get(s, k, now)
  {
  }

  /** Sweeping twice at the same instant is sweeping once. */
  lemma CleanupIdempotent(s: Store, now: Instant)
    ensures Cleanup(Cleanup(s, now), now) == Cleanup(s, now)
  {
  }

  /** An earlier sweep is subsumed by a later one, since expiry is permanent. */
  lemma CleanupSubsumed(s: Store, t1: Instant, t2: Instant)
    requires t1 <= t2
    ensures Cleanup(Cleanup(s, t1), t2) == Cleanup(s, t2)
  {
  }

  /** Expiry is lazy: an expired entry reads as `Missing` but stays resident
      until a `delete` or a sweep removes it. */
  lemma ExpiredEntryStaysResident(s: Store, key: string, now: Instant)
    requires key in s.data && s.data[key].IsExpired(now)
    ensures Get(s, key, now) == Missing
    ensures key in s.data
    ensures key !in Cleanup(s, now).data
  {
  }

  /** A key never written reads as `Missing` in a fresh store. */
  lemma GetOnEmpty(key: string, now: Instant)
    ensures Get(Empty, key, now) == Missing
  {
  }

  /** A stored empty string cannot be told apart from an absent key. */
  lemma EmptyValueLooksAbsent(s: Store, key: string, ttl: u64, now: Instant)
    ensures Get(Set(s, key, "", ttl, now), key, now) == Get(Empty, key, now)
  {
  }

  /** One `set` call. */
  datatype Write = Write(key: string, value: string, ttl: u64)

  /** The store after the calls `ws`, in order, all at instant `now`. */
  function SetEach(s: Store, ws: seq<Write>, now: Instant): Store
    decreases |ws|
  {
    if ws == [] then s
    else SetEach(Set(s, ws[0].key, ws[0].value, ws[0].ttl, now), ws[1..], now)
  }

  /** No two calls of `ws` write the same key. */
  predicate DistinctKeys(ws: seq<Write>)
  {
    forall i, j :: 0 <= i < j < |ws| ==> ws[i].key != ws[j].key
  }

  /** Writes to other keys leave an entry as it was. */
  lemma {:induction false} SetEachLeavesOtherKeys(s: Store, ws: seq<Write>, now: Instant, key: string)
    requires forall i :: 0 <= i < |ws| ==> ws[i].key != key
    ensures key in SetEach(s, ws, now).data <==> key in s.data
    ensures key in s.data ==> SetEach(s, ws, now).data[key] == s.data[key]
    decreases |ws|
  {
    if ws != [] {
      var s' := Set(s, ws[0].key, ws[0].value, ws[0].ttl, now);
      assert forall i :: 0 <= i < |ws[1..]| ==> ws[1..][i] == ws[i + 1];
      SetEachLeavesOtherKeys(s', ws[1..], now, key);
    }
  }

  /** Writes to distinct keys lose no update: after all of them, every key
      written with a positive TTL reads back its own value. */
  lemma {:induction false} SetEachThenGet(s: Store, ws: seq<Write>, now: Instant, i: nat)
    requires DistinctKeys(ws)
    requires i < |ws| && ws[i].ttl > 0
    ensures Get(SetEach(s, ws, now), ws[i].key, now) == ws[i].value
    decreases |ws|
  {
    var s' := Set(s, ws[0].key, ws[0].value, ws[0].ttl, now);
    assert forall j :: 0 <= j < |ws[1..]| ==> ws[1..][j] == ws[j + 1];
    if i == 0 {
      SetEachLeavesOtherKeys(s', ws[1..], now, ws[0].key);
    } else {
      SetEachThenGet(s', ws[1..], now, i - 1);
    }
  }

  /** set("a","1",10); set("b","2",10); get("a") == "1"; delete("a");
      get("a") == ""; get("b") == "2", all within the same instant. */
  lemma Scenario(now: Instant)
    ensures var s1 := Set(Set(Empty, "a", "1", 10, now), "b", "2", 10, now);
            && Get(s1, "a", now) == "1"
            && Get(Delete(s1, "a"), "a", now) == ""
            && Get(Delete(s1, "a"), "b", now) == "2"
  {
  }
}
