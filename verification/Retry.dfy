/** retryOnBackoff: attempts with exponentially growing waits between them. */
module Retry {

  /** wait.Backoff, durations in milliseconds. */
  datatype Backoff = Backoff(duration: nat, factor: nat, steps: nat)

  const RESOLVE_BACKOFF := Backoff(200, 2, 6)

  const STATUS_BACKOFF := Backoff(100, 2, 4)

  /** What one call of the retried function says: finished, try again, or stop with this error. */
  datatype Attempt<+E> = Done | Again | Fail(error: E)

  /** What retryOnBackoff returns: no error, the function's error, or the context's. */
  datatype Outcome<+E> = Nil | Error(error: E) | Cancelled

  function Pow(b: nat, n: nat): (p: nat)
  {
    if n == 0 then 1 else b * Pow(b, n - 1)
  }

  /** The wait before attempt k + 1, jitter apart. */
  function DelayAt(b: Backoff, k: nat): (d: nat)
  {
    if k == 0 then b.duration else DelayAt(b, k - 1) * b.factor
  }

  /** The first n waits. */
  function Waits(b: Backoff, extra: nat -> nat, n: nat): (waits: seq<nat>)
    ensures |waits| == n
  {
    if n == 0 then [] else Waits(b, extra, n - 1) + [DelayAt(b, n - 1) + extra(n)]
  }

  function Sum(waits: seq<nat>): (n: nat)
  {
    if waits == [] then 0 else Sum(waits[..|waits| - 1]) + waits[|waits| - 1]
  }

  /** The k-th call of the retried function is fn(k); the context may be cancelled during the wait before it, and
      jitter may lengthen that wait by extra(k). The waits taken are returned. */
  method RetryOnBackoff<E>(backoff: Backoff, fn: nat -> Attempt<E>, cancelled: nat -> bool, extra: nat -> nat)
    returns (r: Outcome<E>, attempts: nat, waits: seq<nat>)
    // Never more than the allotted attempts, each but the last having asked for another.
    ensures attempts <= backoff.steps
    ensures forall k :: 0 <= k < attempts - 1 ==> fn(k).Again?
    // One wait between attempts, none after the last, each a power of the factor apart and jitter not carried over.
    ensures waits == Waits(backoff, extra, if attempts == 0 then 0 else attempts - 1)
    // How it ends: by the last attempt, by exhaustion, or by cancellation.
    ensures r.Cancelled? <==> 0 < attempts < backoff.steps && fn(attempts - 1).Again?
    ensures r.Cancelled? ==> cancelled(attempts)
    ensures !r.Cancelled? && backoff.steps > 0 ==>
      && attempts > 0
      && (fn(attempts - 1).Again? ==> attempts == backoff.steps)
      && r == (match fn(attempts - 1) case Fail(e) => Error(e) case _ => Nil)
    ensures forall k :: 0 < k < attempts ==> !cancelled(k)
    ensures backoff.steps == 0 ==> r.Nil? && attempts == 0
  {
    var delay := backoff.duration;
    attempts, waits := 0, [];
    while attempts < backoff.steps
      invariant attempts <= backoff.steps
      invariant forall k :: 0 <= k < attempts ==> fn(k).Again?
      invariant waits == Waits(backoff, extra, if attempts == 0 then 0 else attempts - 1)
      invariant delay == DelayAt(backoff, |waits|)
      invariant forall k :: 0 < k < attempts ==> !cancelled(k)
    {
      if attempts > 0 {
        var sleep := delay + extra(attempts);
        if cancelled(attempts) {
          return Cancelled, attempts, waits;
        }
        waits := waits + [sleep];
        delay := delay * backoff.factor;
      }
      var outcome := fn(attempts);
      attempts := attempts + 1;
      match outcome {
        case Fail(e) => return Error(e), attempts, waits;
        case Done => return Nil, attempts, waits;
        case Again =>
      }
    }
    r := Nil;
  }

  lemma {:induction false} DelayIsPower(b: Backoff, k: nat)
    ensures DelayAt(b, k) == b.duration * Pow(b.factor, k)
  {
    if k > 0 {
      DelayIsPower(b, k - 1);
      Regroup(b.duration, Pow(b.factor, k - 1), b.factor);
    }
  }

  lemma Regroup(a: nat, b: nat, c: nat)
    ensures a * b * c == a * (c * b)
  {
  }

  /** Doubling waits sum to duration * (2^n - 1) without jitter, and to no less with it. */
  lemma {:induction false} DoublingWaitsSum(b: Backoff, extra: nat -> nat, n: nat)
    requires b.factor == 2
    ensures Sum(Waits(b, extra, n)) + b.duration >= b.duration * Pow(2, n)
    ensures (forall k :: extra(k) == 0) ==> Sum(Waits(b, extra, n)) + b.duration == b.duration * Pow(2, n)
  {
    DelayIsPower(b, n);
    WaitsReachNext(b, extra, n);
  }

  lemma {:induction false} WaitsReachNext(b: Backoff, extra: nat -> nat, n: nat)
    requires b.factor == 2
    ensures Sum(Waits(b, extra, n)) + b.duration >= DelayAt(b, n)
    ensures (forall k :: extra(k) == 0) ==> Sum(Waits(b, extra, n)) + b.duration == DelayAt(b, n)
  {
    if n > 0 {
      WaitsReachNext(b, extra, n - 1);
      var w := Waits(b, extra, n);
      assert w[..|w| - 1] == Waits(b, extra, n - 1);
    }
  }
}
