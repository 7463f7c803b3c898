/** The two-phase sweep of `cleanup_expired`: first collect the expired keys
    while walking the map in whatever order it yields them, then delete the
    collected keys one by one. The result is proved equal to the reference
    `TtlStore.Cleanup`.
 */
module Sweep {
  import opened Entry
  import opened TtlStore

  /** No key occurs twice in `keys`. */
  predicate Distinct(keys: seq<string>)
  {
    forall i, j :: 0 <= i < j < |keys| ==> keys[i] != keys[j]
  }

  /** Phase one: walk the keys of the map in an unspecified order and keep
      those whose entry is expired at `now`. */
  method CollectExpired(s: Store, now: Instant) returns (keys: seq<string>)
    ensures forall k :: k in keys <==> k in s.data && s.data[k].IsExpired(now)
    ensures Distinct(keys)
  {
    var unvisited := s.data.Keys;
    keys := [];
    while unvisited != {}
      invariant unvisited <= s.data.Keys
      invariant forall k :: k in keys <==> k in s.data && k !in unvisited && s.data[k].IsExpired(now)
      invariant Distinct(keys)
      decreases unvisited
    {
      var k :| k in unvisited;
      if s.data[k].IsExpired(now) {
        keys := keys + [k];
      }
      unvisited := unvisited - {k};
    }
  }

  /** Phase two: delete every key of `keys`, first to last. */
  function RemoveAll(s: Store, keys: seq<string>): (r: Store)
    ensures r.data.Keys == s.data.Keys - set k | k in keys
    ensures forall k :: k in r.data ==> r.data[k] == s.data[k]
    decreases |keys|
  {
    if keys == [] then s
    else RemoveAll(Delete(s, keys[0]), keys[1..])
  }

  /** `cleanup_expired`: collect, then remove. */
  method CleanupExpired(s: Store, now: Instant) returns (r: Store)
    ensures r == Cleanup(s, now)
    ensures r.data.Keys == s.data.Keys - ExpiredKeys(s, now)
  {
    var keys := CollectExpired(s, now);
    r := RemoveAll(s, keys);
    assert (set k | k in keys) == ExpiredKeys(s, now);
  }
}
