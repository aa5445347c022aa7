/** `retryOperation` (3/utils.js) run sequentially. The operation is given as
    the outcome of each invocation, numbered from 1; instead of sleeping, the
    driver records every back-off delay it would wait, in order. */
module Retry {
  import opened Common
  import Text

  datatype Attempt<T> = Succeeded(value: T) | Failed(message: string)

  /** The error the returned promise rejects with. */
  datatype Failure =
    | Exhausted(retries: nat, lastMessage: string)
      // `Все ${retries} попыток не удались. Последняя ошибка: ${lastError.message}`
    | NoAttempts
      // `retries < 1`: `lastError` is still `undefined`, so reading
      // `lastError.message` raises a TypeError instead

  datatype Outcome<T> = Resolved(value: T) | Rejected(error: Failure)

  /** Everything observable about one call: how often the operation ran,
      the delays waited between attempts, and how the call settled. */
  datatype Run<T> = Run(invocations: nat, delays: seq<nat>, outcome: Outcome<T>)

  /** `retries = 3` */
  const DefaultRetries: int := 3

  function Pow2(k: nat): nat
  {
    if k == 0 then 1 else 2 * Pow2(k - 1)
  }

  /** `Math.pow(2, attempt) * 100` */
  function Backoff(attempt: nat): nat
  {
    Pow2(attempt) * 100
  }

  /** The delays after attempts 1..n: 200, 400, 800, ... */
  function Backoffs(n: nat): (r: seq<nat>)
    ensures |r| == n
    ensures forall i :: 0 <= i < n ==> r[i] == Backoff(i + 1)
  {
    if n == 0 then [] else Backoffs(n - 1) + [Backoff(n)]
  }

  /** What reading `lastError.message` throws while `lastError` is
      `undefined`. */
  const ReadMessageOfUndefined := "Cannot read properties of undefined (reading 'message')"

  /** The message of the final error, as the template literal builds it. */
  function Message(f: Failure): (r: string)
    ensures f.Exhausted? ==>
      && |r| >= |"Все "| + |Text.Decimal(f.retries)| + |f.lastMessage|
      && r[..|"Все "|] == "Все "
      && r[|r| - |f.lastMessage|..] == f.lastMessage
    ensures f.NoAttempts? ==> r == ReadMessageOfUndefined
  {
    match f
    case Exhausted(n, last) =>
      "Все " + Text.Decimal(n) + " попыток не удались. Последняя ошибка: " + last
    case NoAttempts => ReadMessageOfUndefined
  }

  /** Attempts 1..n all fail. */
  ghost predicate FailsThrough<T>(op: nat -> Attempt<T>, n: int)
  {
    forall k :: 1 <= k <= n ==> op(k).Failed?
  }

  /** The loop of lines 47-62 from `attempt` on, with `delays` already waited
      and `lastError` the message of the previous failure, if any. */
  function Loop<T>(op: nat -> Attempt<T>, retries: int, attempt: nat, delays: seq<nat>, lastError: Option<string>): (r: Run<T>)
    requires 1 <= attempt
    requires delays == Backoffs(attempt - 1) || attempt > retries
    requires attempt > 1 <==> lastError.Some?
    requires attempt > 1 ==> FailsThrough(op, attempt - 1) && lastError == Some(op(attempt - 1).message)
    ensures r.invocations >= attempt - 1
    ensures r.invocations <= if retries >= attempt then retries else attempt - 1
    ensures FailsThrough(op, r.invocations - 1)
    ensures r.outcome.Resolved? ==> r.invocations >= 1 && op(r.invocations) == Succeeded(r.outcome.value)
    ensures r.outcome.Rejected? ==> FailsThrough(op, r.invocations)
    ensures r.outcome.Rejected? && attempt <= retries ==> r.invocations == retries
    ensures r.outcome.Rejected? ==> r.outcome.error == if r.invocations == 0 then NoAttempts
                                                       else Exhausted(r.invocations, op(r.invocations).message)
    ensures attempt <= retries ==>
      r.delays == Backoffs(if r.outcome.Resolved? then r.invocations - 1 else retries - 1)
    decreases if retries >= attempt then retries - attempt + 1 else 0
  {
    if attempt > retries then
      match lastError
      case None => Run(attempt - 1, delays, Rejected(NoAttempts))
      case Some(m) => Run(attempt - 1, delays, Rejected(Exhausted(attempt - 1, m)))
    else
      match op(attempt)
      case Succeeded(v) => Run(attempt, delays, Resolved(v))
      case Failed(m) =>
        var waited := if attempt < retries then delays + [Backoff(attempt)] else delays;
        Loop(op, retries, attempt + 1, waited, Some(m))
  }

  /** `retryOperation(operation, retries)` */
  function RetryOperation<T>(op: nat -> Attempt<T>, retries: int): (r: Run<T>)
    ensures r.invocations <= if retries > 0 then retries else 0
    ensures r.outcome.Resolved? ==> r.invocations >= 1 && op(r.invocations) == Succeeded(r.outcome.value)
    ensures FailsThrough(op, r.invocations - 1)
    ensures r.outcome.Rejected? ==> FailsThrough(op, r.invocations)
    ensures r.outcome.Rejected? ==> r.invocations == (if retries > 0 then retries else 0)
    ensures r.outcome.Rejected? ==> r.outcome.error == if retries < 1 then NoAttempts
                                                       else Exhausted(retries, op(retries).message)
    ensures retries >= 1 ==> r.delays == Backoffs(if r.outcome.Resolved? then r.invocations - 1 else retries - 1)
    ensures retries < 1 ==> r.delays == []
  {
    Loop(op, retries, 1, [], None)
  }

  /** `retryOperation(operation)` uses three attempts. */
  function RetryWithDefault<T>(op: nat -> Attempt<T>): (r: Run<T>)
    ensures r.invocations <= 3
    ensures r.outcome.Rejected? ==> r.invocations == 3 && r.delays == [200, 400]
  {
    RetryOperation(op, DefaultRetries)
  }

  /** Success on attempt k <= retries after k - 1 failures: exactly k
      invocations, the k - 1 delays 200, 400, ..., and attempt k's value. */
  lemma SucceedsAt<T>(op: nat -> Attempt<T>, retries: int, k: nat)
    requires 1 <= k <= retries
    requires FailsThrough(op, k - 1) && op(k).Succeeded?
    ensures RetryOperation(op, retries) == Run(k, Backoffs(k - 1), Resolved(op(k).value))
  {
    var r := RetryOperation(op, retries);
    assert !FailsThrough(op, k);
    assert forall n :: n >= k ==> !FailsThrough(op, n);
  }

  /** When every attempt fails: `retries` invocations, no delay after the
      last one, and a single error naming `retries` and the last failure. */
  lemma ExhaustsAll<T>(op: nat -> Attempt<T>, retries: int)
    requires retries >= 1
    requires FailsThrough(op, retries)
    ensures RetryOperation(op, retries) == Run(retries, Backoffs(retries - 1), Rejected(Exhausted(retries, op(retries).message)))
  {
    var r := RetryOperation(op, retries);
    assert r.invocations <= retries;
  }

  /** With fewer than one attempt allowed the operation never runs and the
      call still rejects. */
  lemma NeverInvokedBelowOne<T>(op: nat -> Attempt<T>, retries: int)
    requires retries < 1
    ensures RetryOperation(op, retries) == Run(0, [], Rejected(NoAttempts))
  {
  }

  function Total(delays: seq<nat>): nat
  {
    if |delays| == 0 then 0 else Total(delays[..|delays| - 1]) + delays[|delays| - 1]
  }

  /** 200 + 400 + ... + 2^n * 100 == 100 * (2^(n+1) - 2). */
  lemma {:induction false} BackoffsTotal(n: nat)
    ensures Total(Backoffs(n)) == 100 * (Pow2(n + 1) - 2)
  {
    if n > 0 {
      BackoffsTotal(n - 1);
      assert Backoffs(n)[..n - 1] == Backoffs(n - 1);
    }
  }

  /** When every one of `retries >= 1` attempts fails the delays add up to
      100 * (2^retries - 2) milliseconds. */
  lemma ExhaustedWaitTotal<T>(op: nat -> Attempt<T>, retries: int)
    requires retries >= 1
    requires FailsThrough(op, retries)
    ensures Total(RetryOperation(op, retries).delays) == 100 * (Pow2(retries) - 2)
  {
    ExhaustsAll(op, retries);
    BackoffsTotal(retries - 1);
  }

  /** The message names the attempt count and ends with the last failure's
      message; earlier failures do not appear as a field of the error. */
  lemma ExhaustedMessage(n: nat, last: string)
    ensures |Message(Exhausted(n, last))| >= |"Все "| + |Text.Decimal(n)|
    ensures Message(Exhausted(n, last))[|"Все "|..|"Все "| + |Text.Decimal(n)|] == Text.Decimal(n)
    ensures Text.DigitsValue(Message(Exhausted(n, last))[|"Все "|..|"Все "| + |Text.Decimal(n)|]) == n
    ensures Message(Exhausted(n, last))[|Message(Exhausted(n, last))| - |last|..] == last
  {
    var m := Message(Exhausted(n, last));
    var d := Text.Decimal(n);
    assert m[4..4 + |d|] == d;
    Text.DecimalValue(n);
  }

  /** An operation that fails twice and then succeeds, given three attempts:
      three invocations, 200 + 400 = 600 ms of waiting, the third value. */
  lemma FailTwiceThenSucceed(op: nat -> Attempt<string>)
    requires op(1).Failed? && op(2).Failed? && op(3) == Succeeded("ok")
    ensures RetryOperation(op, 3) == Run(3, [200, 400], Resolved("ok"))
    ensures Total(RetryOperation(op, 3).delays) == 600
  {
    SucceedsAt(op, 3, 3);
    assert Backoffs(2) == [200, 400];
  }
}
