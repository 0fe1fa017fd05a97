/** The service helpers: running a callback with retries (`tryWithRetries`)
    and the `ensure` guard. */
module Services {

  /** The outcome of one call of the callback: a returned value or a thrown
      error. */
  datatype Attempt<T, E> = Ok(value: T) | Err(error: E)

  /** How `tryWithRetries` ends: returning the callback's value, rethrowing
      the last attempt's error, or with the `ValueError` that `usleep`
      throws for a negative duration (PHP 8), which escapes the catch
      block. */
  datatype Retried<T, E> = Returned(value: T) | Rethrown(error: E) | SleepRejected

  /** A whole run: how it ended, how many times the callback was called and
      how many sleeps completed. */
  datatype Run<T, E> = Run(result: Retried<T, E>, calls: nat, sleeps: nat)

  /** The default arguments of `tryWithRetries`. */
  const DefaultMaxAttempts := 3
  const DefaultSleepMs := 100

  function Max(a: int, b: int): int {
    if a < b then b else a
  }

  /** The run from the moment `$attempts` failures have been counted, with
      `callback(n)` the outcome of the callback's (n+1)-th call. */
  function RunFrom<T, E>(callback: nat -> Attempt<T, E>, maxAttempts: int, sleepMs: int, attempts: nat): (r: Run<T, E>)
    requires attempts < Max(1, maxAttempts)
    ensures attempts < r.calls <= Max(1, maxAttempts)
    ensures r.sleeps == r.calls - 1
    decreases Max(1, maxAttempts) - attempts
  {
    match callback(attempts)
    case Ok(v) => Run(Returned(v), attempts + 1, attempts)
    case Err(e) =>
      if attempts + 1 >= maxAttempts then Run(Rethrown(e), attempts + 1, attempts)
      else if sleepMs * 1000 < 0 then Run(SleepRejected, attempts + 1, attempts)
      else RunFrom(callback, maxAttempts, sleepMs, attempts + 1)
  }

  /** What `tryWithRetries($callback, $maxAttempts, $sleepMs)` does. */
  function Retry<T, E>(callback: nat -> Attempt<T, E>, maxAttempts: int, sleepMs: int): (r: Run<T, E>)
    ensures 1 <= r.calls <= Max(1, maxAttempts)
    ensures r.sleeps == r.calls - 1
  {
    RunFrom(callback, maxAttempts, sleepMs, 0)
  }

  /** The do-while loop of `tryWithRetries`, with the sleep counted rather
      than performed. */
  method TryWithRetries<T, E>(callback: nat -> Attempt<T, E>, maxAttempts: int, sleepMs: int)
    returns (result: Retried<T, E>, calls: nat, sleeps: nat)
    ensures Run(result, calls, sleeps) == Retry(callback, maxAttempts, sleepMs)
  {
    var attempts: nat := 0;
    sleeps := 0;
    while true
      invariant attempts < Max(1, maxAttempts)
      invariant sleeps == attempts
      invariant RunFrom(callback, maxAttempts, sleepMs, attempts) == Retry(callback, maxAttempts, sleepMs)
      decreases Max(1, maxAttempts) - attempts
    {
      var outcome := callback(attempts);
      if outcome.Ok? {
        return Returned(outcome.value), attempts + 1, sleeps;
      }
      attempts := attempts + 1;
      if attempts >= maxAttempts {
        return Rethrown(outcome.error), attempts, sleeps;
      }
      if sleepMs * 1000 < 0 {
        return SleepRejected, attempts, sleeps;
      }
      sleeps := sleeps + 1;
    }
  }

  /** The run from `attempts` on makes between one more call and the
      allowance; every call before its last one failed; it returns the last
      call's value, rethrows the last call's error only once the allowance
      is spent, and sleeps once after every failed call but the last. */
  lemma {:induction false} RunFromShape<T, E>(callback: nat -> Attempt<T, E>, maxAttempts: int, sleepMs: int, attempts: nat)
    requires attempts < Max(1, maxAttempts)
    requires forall n :: 0 <= n < attempts ==> callback(n).Err?
    ensures var r := RunFrom(callback, maxAttempts, sleepMs, attempts);
            && attempts < r.calls <= Max(1, maxAttempts)
            && (forall n :: 0 <= n < r.calls - 1 ==> callback(n).Err?)
            && (r.result.Returned? <==> callback(r.calls - 1).Ok?)
            && (r.result.Returned? ==> r.result.value == callback(r.calls - 1).value)
            && (r.result.Rethrown? ==> r.calls == Max(1, maxAttempts) && r.result.error == callback(r.calls - 1).error)
            && (r.result.SleepRejected? <==> callback(r.calls - 1).Err? && r.calls < Max(1, maxAttempts))
            && r.sleeps == r.calls - 1
    decreases Max(1, maxAttempts) - attempts
  {
    match callback(attempts)
    case Ok(v) =>
    case Err(e) =>
      if attempts + 1 < maxAttempts && sleepMs * 1000 >= 0 {
        RunFromShape(callback, maxAttempts, sleepMs, attempts + 1);
      }
  }

  /** `tryWithRetries` calls the callback at least once and at most
      max(1, maxAttempts) times, stops at the first success and returns its
      value, rethrows the last error once every allowed attempt has failed,
      and sleeps once between consecutive attempts. */
  lemma RetryShape<T, E>(callback: nat -> Attempt<T, E>, maxAttempts: int, sleepMs: int)
    ensures var r := Retry(callback, maxAttempts, sleepMs);
            && 1 <= r.calls <= Max(1, maxAttempts)
            && (forall n :: 0 <= n < r.calls - 1 ==> callback(n).Err?)
            && (r.result.Returned? <==> callback(r.calls - 1).Ok?)
            && (r.result.Returned? ==> r.result.value == callback(r.calls - 1).value)
            && (r.result.Rethrown? ==> r.calls == Max(1, maxAttempts) && r.result.error == callback(r.calls - 1).error)
            && r.sleeps == r.calls - 1
  {
    RunFromShape(callback, maxAttempts, sleepMs, 0);
  }

  /** A negative sleep time ends the run at the first failure, unless that
      failure was already the last allowed attempt; a non-negative one never
      does. */
  lemma {:induction false} SleepRejectedExactly<T, E>(callback: nat -> Attempt<T, E>, maxAttempts: int, sleepMs: int, attempts: nat)
    requires attempts < Max(1, maxAttempts)
    ensures RunFrom(callback, maxAttempts, sleepMs, attempts).result.SleepRejected?
            <==> sleepMs < 0 && callback(attempts).Err? && attempts + 1 < maxAttempts
    decreases Max(1, maxAttempts) - attempts
  {
    if callback(attempts).Err? && attempts + 1 < maxAttempts && sleepMs >= 0 {
      SleepRejectedExactly(callback, maxAttempts, sleepMs, attempts + 1);
    }
  }

  /** With the default arguments the callback runs at most three times, the
      run never ends in a rejected sleep, and a callback that always fails
      has its third error rethrown after two sleeps. */
  lemma DefaultRetry<T, E>(callback: nat -> Attempt<T, E>)
    ensures var r := Retry(callback, DefaultMaxAttempts, DefaultSleepMs);
            && r.calls <= 3
            && !r.result.SleepRejected?
            && (callback(0).Err? && callback(1).Err? && callback(2).Err? ==>
                  r == Run(Rethrown(callback(2).error), 3, 2))
  {
    SleepRejectedExactly(callback, DefaultMaxAttempts, DefaultSleepMs, 0);
    RetryShape(callback, DefaultMaxAttempts, DefaultSleepMs);
  }

  /** A callback that fails twice and then succeeds, allowed three attempts,
      yields its value after three calls and two sleeps. */
  lemma FailTwiceThenSucceed<T, E>(callback: nat -> Attempt<T, E>, sleepMs: int, v: T)
    requires sleepMs >= 0
    requires callback(0).Err? && callback(1).Err? && callback(2) == Ok(v)
    ensures Retry(callback, 3, sleepMs) == Run(Returned(v), 3, 2)
  {
    assert RunFrom(callback, 3, sleepMs, 2) == Run(Returned(v), 3, 2);
    assert RunFrom(callback, 3, sleepMs, 1) == RunFrom(callback, 3, sleepMs, 2);
  }

  /** The `$message` argument of `ensure`: a string or a closure. */
  datatype Message = Text(text: string) | Closure(body: () -> string)

  /** How `ensure` ends: normally, or with a `RuntimeException` carrying a
      message; `called` says whether a callable was invoked to produce it. */
  datatype Guard = Passed | Thrown(message: string, called: bool)

  /** `ensure($condition, $message)` as written. `is_callable` also holds
      for a string naming a global function, so such a string is called and
      its result (given in `functions`, the value each named function
      returns when called with no arguments) becomes the message. */
  function EnsureAsWritten(condition: bool, message: Message, functions: map<string, string>): (g: Guard)
    ensures g.Passed? <==> condition
    ensures g.Thrown? && message.Closure? ==> g.message == message.body() && g.called
    ensures g.Thrown? && message.Text? && message.text !in functions ==> g == Thrown(message.text, false)
  {
    if condition then Passed
    else
      match message
      case Closure(body) => Thrown(body(), true)
      case Text(t) => if t in functions then Thrown(functions[t], true) else Thrown(t, false)
  }

  /** `ensure` as evidently intended: a string is the message itself. */
  function Ensure(condition: bool, message: Message): (g: Guard)
    ensures g.Passed? <==> condition
    ensures g.Thrown? && message.Closure? ==> g == Thrown(message.body(), true)
    ensures g.Thrown? && message.Text? ==> g == Thrown(message.text, false)
  {
    if condition then Passed
    else
      match message
      case Closure(body) => Thrown(body(), true)
      case Text(t) => Thrown(t, false)
  }

  /** The two agree except on a string that names a global function. */
  lemma EnsureAgreesUnlessTextNamesFunction(condition: bool, message: Message, functions: map<string, string>)
    requires !(message.Text? && message.text in functions)
    ensures EnsureAsWritten(condition, message, functions) == Ensure(condition, message)
  {
  }

  /** `ensure(false, 'time')`: the message should be "time", but `time()` is
      called and its result (here "1760659200") becomes the message. */
  lemma EnsureCallsNamedFunction()
    ensures EnsureAsWritten(false, Text("time"), map["time" := "1760659200"]) == Thrown("1760659200", true)
    ensures Ensure(false, Text("time")) == Thrown("time", false)
  {
  }
}
