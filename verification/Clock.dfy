/** Instants, and the precision with which the API server keeps them. */
module Clock {

  /** An instant in nanoseconds. */
  type Time = int

  const SECOND := 1_000_000_000

  /** A metav1.Time as it is encoded: RFC 3339 in whole seconds, the fraction dropped. */
  function WholeSecond(t: Time): (r: Time)
    ensures r <= t < r + SECOND
  {
    t - t % SECOND
  }

  /** An instant before the end of a whole second falls in that second or an earlier one. */
  lemma WholeSecondBefore(t: Time, n: Time)
    requires WholeSecond(n) == n && t < n + SECOND
    ensures WholeSecond(t) <= n
  {
    assert n % SECOND == 0 && (t - t % SECOND) % SECOND == 0;
  }

  /** Encoding an instant that has been encoded before changes nothing. */
  lemma WholeSecondOnce(t: Time)
    ensures WholeSecond(WholeSecond(t)) == WholeSecond(t)
  {
    assert (t - t % SECOND) % SECOND == 0;
  }
}
