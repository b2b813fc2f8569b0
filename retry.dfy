/**
 * The `retry` decorator of `day1/src/decorator.py`: call the wrapped function up
 * to `max_attempts` times, sleeping between attempts, while it raises one of the
 * listed exceptions.
 */
module Retry {
  /** What one call of the wrapped function does. */
  datatype CallResult<T, E> = Returned(value: T) | Threw(error: E)

  /** What the wrapper does: return a value, raise, or fall through to `return None`. */
  datatype Outcome<T, E> = Value(value: T) | Raise(error: E) | NoneReturned

  /**
   * The wrapper on attempts `call(1), call(2), ...`; `caught(e)` says whether `e` is
   * an instance of one of `exceptions`. Returns what the wrapper does, how many calls
   * it made and how many times it slept.
   */
  method Retry<T, E>(maxAttempts: int, call: nat -> CallResult<T, E>, caught: E -> bool)
    returns (outcome: Outcome<T, E>, calls: nat, sleeps: nat)
    ensures maxAttempts <= 0 ==> outcome == NoneReturned && calls == 0 && sleeps == 0
    ensures maxAttempts >= 1 ==> 1 <= calls <= maxAttempts && sleeps == calls - 1 && !outcome.NoneReturned?
    ensures forall a :: 1 <= a < calls ==> call(a).Threw? && caught(call(a).error)
    ensures outcome.Value? ==> call(calls) == Returned(outcome.value)
    ensures outcome.Raise? ==> call(calls) == Threw(outcome.error) && (!caught(outcome.error) || calls == maxAttempts)
  {
    calls, sleeps := 0, 0;
    var attempt := 1;
    while attempt <= maxAttempts
      invariant 1 <= attempt && calls == attempt - 1 && sleeps == calls
      invariant attempt <= maxAttempts || attempt == 1
      invariant forall a :: 1 <= a < attempt ==> call(a).Threw? && caught(call(a).error)
      decreases maxAttempts - attempt
    {
      var r := call(attempt);
      calls := calls + 1;
      match r {
        case Returned(v) =>
          return Value(v), calls, sleeps;
        case Threw(e) =>
          if !caught(e) || attempt == maxAttempts {
            return Raise(e), calls, sleeps;
          }
          sleeps := sleeps + 1;
      }
      attempt := attempt + 1;
    }
    outcome := NoneReturned;
  }
}
