/** The bounded retry envelope around one write transaction. */
module WalRetry {

  const MAX_RETRIES := 3
  const BACKOFF_MS: seq<nat> := [20, 40, 80]

  /** How one attempt ended: a value, a transient lock error, or an error that must propagate. */
  datatype Attempt<+T, +E> = Done(value: T) | Locked(error: E) | Fatal(error: E)

  datatype Outcome<+T, +E> = Returned(value: T) | Raised(error: E) | Exhausted(attempts: nat, last: E)

  datatype Move<+T, +E> = Stop(outcome: Outcome<T, E>) | PauseThenRetry(ms: nat)

  /** The decision after the given number of attempts. */
  function Next<T, E>(attempts: nat, a: Attempt<T, E>): (m: Move<T, E>)
    requires 1 <= attempts <= MAX_RETRIES + 1
    ensures m.PauseThenRetry? <==> a.Locked? && attempts < 4
    ensures m.Stop? && m.outcome.Exhausted? ==> m.outcome.attempts == 4
  {
    match a
    case Done(v) => Stop(Returned(v))
    case Fatal(e) => Stop(Raised(e))
    case Locked(e) =>
      if attempts - 1 >= MAX_RETRIES then Stop(Exhausted(attempts, e)) else PauseThenRetry(BACKOFF_MS[attempts - 1])
  }

  /** Runs at most four attempts; every attempt before the last was locked, and the pauses are the schedule's prefix. */
  method RunWithWalRetry<T, E>(operation: nat -> Attempt<T, E>)
    returns (r: Outcome<T, E>, attempts: nat, pauses: seq<nat>)
    ensures 1 <= attempts <= 4
    ensures pauses == [20, 40, 80][..attempts - 1]
    ensures forall i :: 0 <= i < attempts - 1 ==> operation(i).Locked?
    ensures match operation(attempts - 1)
            case Done(v) => r == Returned(v)
            case Fatal(e) => r == Raised(e)
            case Locked(e) => attempts == 4 && r == Exhausted(4, e)
  {
    attempts, pauses := 0, [];
    while true
      invariant 0 <= attempts <= 3
      invariant pauses == BACKOFF_MS[..attempts]
      invariant forall i :: 0 <= i < attempts ==> operation(i).Locked?
      decreases 4 - attempts
    {
      attempts := attempts + 1;
      var result := operation(attempts - 1);
      match result {
        case Done(v) => r := Returned(v); return;
        case Fatal(e) => r := Raised(e); return;
        case Locked(e) =>
          var retriesUsed := attempts - 1;
          if retriesUsed >= MAX_RETRIES { r := Exhausted(attempts, e); return; }
          pauses := pauses + [BACKOFF_MS[retriesUsed]];
      }
    }
  }
}
