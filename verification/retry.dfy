/** `try_multiple_times` of bitdiscovery/api.py, run against a script that
    says what the k-th call of the operation does. */
module Retry {
  import opened Py

  /** What one call of the retried operation does. */
  datatype Attempt<+T> = Raised | ReturnedNone | Returned(value: T)

  /** How many times the operation was called, and what the helper returned. */
  datatype Retried<+T> = Retried(calls: nat, result: Option<T>)

  /** The retry budget every call site in the scripts passes. */
  const ScriptTries: int := 5

  predicate Failed<T>(a: Attempt<T>) { !a.Returned? }

  /** The helper: call until something other than `None` comes back or
      `maxTries` calls have been made; an exception counts as `None`. */
  function TryMultipleTimes<T(==)>(fn: nat -> Attempt<T>, maxTries: int): (r: Retried<T>)
    ensures r.calls <= Max(0, maxTries)
    ensures r.result.Some? <==> exists k :: 0 <= k < maxTries && fn(k).Returned?
    ensures r.result.Some? ==> 1 <= r.calls && fn(r.calls - 1) == Returned(r.result.value)
    ensures r.result.Some? ==> forall j :: 0 <= j < r.calls - 1 ==> Failed(fn(j))
    ensures r.result.None? ==> r.calls == Max(0, maxTries)
  {
    AttemptsFrom(fn, maxTries, 0)
  }

  /** The loop from the `i`-th call on, every earlier call having failed. */
  function AttemptsFrom<T(==)>(fn: nat -> Attempt<T>, maxTries: int, i: nat): (r: Retried<T>)
    requires i <= Max(0, maxTries)
    requires forall j :: 0 <= j < i ==> Failed(fn(j))
    ensures i <= r.calls <= Max(0, maxTries)
    ensures r.result.Some? <==> exists k :: i <= k < maxTries && fn(k).Returned?
    ensures r.result.Some? ==> 1 <= r.calls && fn(r.calls - 1) == Returned(r.result.value)
    ensures r.result.Some? ==> forall j :: 0 <= j < r.calls - 1 ==> Failed(fn(j))
    ensures r.result.None? ==> r.calls == Max(0, maxTries)
    decreases Max(0, maxTries) - i
  {
    if i >= maxTries then Retried(i, None)
    else
      match fn(i)
      case Returned(v) => Retried(i + 1, Some(v))
      case _ => AttemptsFrom(fn, maxTries, i + 1)
  }

  /** `k` failed calls followed by a success return that success after
      exactly `k + 1` calls. */
  lemma SuccessAfterFailures<T>(fn: nat -> Attempt<T>, maxTries: int, k: nat, v: T)
    requires k < maxTries
    requires forall j :: 0 <= j < k ==> Failed(fn(j))
    requires fn(k) == Returned(v)
    ensures TryMultipleTimes(fn, maxTries) == Retried(k + 1, Some(v))
  {
  }
}
