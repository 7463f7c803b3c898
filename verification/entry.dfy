/** A stored value together with the absolute instant at which it expires.

    The wall clock is not read here: every operation that needs the current
    time receives it as an explicit `now` argument. Instants are natural
    numbers counting nanoseconds, and a TTL given in whole seconds is scaled
    to that unit, so "now + ttl seconds" is `now + Seconds(ttl)`.
 */
module Entry {

  /** An absolute point in time, in nanoseconds. */
  type Instant = nat

  /** The source's TTL argument is an unsigned 64-bit count of seconds. */
  newtype u64 = x: int | 0 <= x < 0x1_0000_0000_0000_0000

  const NanosPerSecond: nat := 1_000_000_000

  /** The length of a TTL of `ttl` seconds, in the unit of `Instant`. */
  function Seconds(ttl: u64): (d: nat)
    ensures d == 0 <==> ttl == 0
    ensures ttl > 0 ==> d >= NanosPerSecond
  {
    ttl as nat * NanosPerSecond
  }

  /** One entry of the store: the value and the instant it stops being readable. */
  datatype Data = Data(data: string, expiresIn: Instant)
  {
    /** An entry is expired from its expiry instant on, inclusive. */
    predicate IsExpired(now: Instant)
    {
      now >= expiresIn
    }
  }

  /** The entry `set` builds at time `now` for a value with a TTL of `ttl` seconds. */
  function Fresh(value: string, ttl: u64, now: Instant): (d: Data)
    ensures d.data == value
    ensures d.expiresIn >= now
    ensures d.IsExpired(now) <==> ttl == 0
    ensures forall t: Instant :: d.IsExpired(t) <==> t >= now + Seconds(ttl)
  {
    Data(value, now + Seconds(ttl))
  }

  /** Once expired, an entry stays expired at every later instant. */
  lemma ExpiryIsPermanent(d: Data, t1: Instant, t2: Instant)
    requires t1 <= t2
    requires d.IsExpired(t1)
    ensures d.IsExpired(t2)
  {
  }

  /** The entry is live exactly on the half-open interval [now, now + ttl seconds). */
  lemma FreshLifetime(value: string, ttl: u64, now: Instant, t: Instant)
    requires now <= t
    ensures !Fresh(value, ttl, now).IsExpired(t) <==> t - now < Seconds(ttl)
  {
  }
}
