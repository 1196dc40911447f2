/** The freshness rule every StorageBase tier shares. Time is a count of
    ticks; `now` is passed in where the source samples the clock. */
module Freshness {
  import opened Results

  /** A tier that was never stamped is expired; a stamped one is expired once
      strictly more than `interval` ticks have passed since the stamp. */
  function IsExpired(lastUpdated: Option<int>, interval: int, now: int): bool
  {
    match lastUpdated
    case None => true
    case Some(t) => now - t > interval
  }

  /** No stamp means expired, whatever the time. */
  lemma NeverStampedIsExpired(interval: int, now: int)
    ensures IsExpired(None, interval, now)
  {
  }

  /** With a stamp, the tier is fresh exactly while no more than `interval`
      has elapsed: an elapsed time equal to the interval is still fresh. */
  lemma FreshExactlyWithinInterval(t: int, interval: int, now: int)
    ensures !IsExpired(Some(t), interval, now) <==> now <= t + interval
    ensures !IsExpired(Some(t), interval, t + interval)
    ensures IsExpired(Some(t), interval, t + interval + 1)
  {
  }

  /** For a fixed stamp, expiry is monotone in time: once expired, a tier
      stays expired until its stamp changes. */
  lemma ExpiryIsMonotone(lastUpdated: Option<int>, interval: int, now: int, later: int)
    requires now <= later && IsExpired(lastUpdated, interval, now)
    ensures IsExpired(lastUpdated, interval, later)
  {
  }
}
