/** `calculate_expiry`: the expiry instant for optional minutes, counted from `now`. */
module Utils {
  import opened Wrappers
  import opened Models

  const NanosPerMinute: int := 60_000_000_000
  const DefaultExpireMinutes: i32 := 60

  /**
    `now + Duration::minutes(minutes.unwrap_or(60))`. The offset is a whole
    number of minutes and gives back the minutes used, so an absent value
    means 60 and a negative one lies in the past.
  */
  function CalculateExpiry(now: int, minutes: Option<i32>): (at: int)
    ensures (at - now) % NanosPerMinute == 0
    ensures (at - now) / NanosPerMinute == minutes.GetOr(DefaultExpireMinutes)
  {
    now + NanosPerMinute * minutes.GetOr(DefaultExpireMinutes)
  }

  /** No minutes given means sixty. */
  lemma DefaultIsSixtyMinutes(now: int)
    ensures CalculateExpiry(now, None) == CalculateExpiry(now, Some(60))
    ensures CalculateExpiry(now, None) == now + 60 * NanosPerMinute
  {
  }

  /** More minutes never give an earlier expiry. */
  lemma ExpiryIsMonotone(now: int, m1: i32, m2: i32)
    requires m1 <= m2
    ensures CalculateExpiry(now, Some(m1)) <= CalculateExpiry(now, Some(m2))
  {
  }

  /** Negative minutes are accepted and give an expiry before `now`; zero gives `now` itself. */
  lemma NonPositiveMinutes(now: int, m: i32)
    ensures m < 0 ==> CalculateExpiry(now, Some(m)) < now
    ensures m == 0 ==> CalculateExpiry(now, Some(m)) == now
  {
  }
}
