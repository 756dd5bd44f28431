/**
  The retry loops of `util/unix.cpp`. Each calls a handler up to `times`
  times (a `times` of 0 counts as 1), sleeping `timeo` microseconds after
  every attempt that has not succeeded, and returns the last handler
  result. `RetryBusy` stops once `errno` is not `EBUSY`; `RetryFailed`
  stops once the result is not negative.

  The handler is an oracle: `handler(k)` is the result of the k-th call and
  the `errno` it leaves behind. The sleeps are returned as the list of
  durations passed to `usleep`.
*/
module Retry {
  /** `EBUSY` on Linux. */
  const EBUSY: int := 16

  /** One handler call: its return value and the `errno` after it. */
  datatype Attempt = Attempt(ret: int, errno: int)

  /** How many attempts a `times` argument allows: 0 counts as 1. */
  function Budget(times: nat): (n: nat)
    ensures n >= 1
    ensures times > 0 ==> n == times
    ensures times <= 1 ==> n == 1
  {
    if times == 0 then 1 else times
  }

  /**
    The index of the first of the attempts i .. n-1 that stop the loop,
    or n when none does.
  */
  function FirstStopFrom(stop: Attempt -> bool, handler: nat -> Attempt, i: nat, n: nat): (k: nat)
    requires i <= n
    ensures i <= k <= n
    ensures k < n ==> stop(handler(k))
    ensures forall j :: i <= j < k ==> !stop(handler(j))
    decreases n - i
  {
    if i == n then n
    else if stop(handler(i)) then i
    else FirstStopFrom(stop, handler, i + 1, n)
  }

  /** The index of the first attempt below n that stops the loop, or n when none does. */
  function FirstStop(stop: Attempt -> bool, handler: nat -> Attempt, n: nat): (k: nat)
    ensures k <= n
    ensures k < n ==> stop(handler(k))
    ensures forall j :: 0 <= j < k ==> !stop(handler(j))
  {
    FirstStopFrom(stop, handler, 0, n)
  }

  /** The loop of `RetryBusy` stops at an attempt whose `errno` is not `EBUSY`. */
  predicate NotBusy(a: Attempt)
  {
    a.errno != EBUSY
  }

  /** The loop of `RetryFailed` stops at an attempt that did not fail. */
  predicate Succeeded(a: Attempt)
  {
    a.ret >= 0
  }

  /** k sleeps of timeo microseconds each. */
  function Sleeps(k: nat, timeo: int): (r: seq<int>)
    ensures |r| == k && forall i :: 0 <= i < k ==> r[i] == timeo
  {
    if k == 0 then [] else Sleeps(k - 1, timeo) + [timeo]
  }

  /**
    The loop both helpers share: try up to n times, stop at the first
    attempt `stop` accepts, sleep after every other one. It makes the
    calls up to and including the stopping one, or all n; it sleeps once
    per attempt before the stopping one, so n times when none stops; it
    returns the last call's result.
  */
  method RetryLoop(stop: Attempt -> bool, n: nat, timeo: int, handler: nat -> Attempt)
    returns (ret: int, calls: nat, sleeps: seq<int>)
    requires n >= 1
    ensures var k := FirstStop(stop, handler, n);
      && calls == (if k < n then k + 1 else n)
      && ret == handler(calls - 1).ret
      && sleeps == Sleeps(k, timeo)
  {
    ghost var k := FirstStop(stop, handler, n);
    var left := n;
    ret := 0;
    calls := 0;
    sleeps := [];
    while left != 0
      invariant calls + left == n && calls <= k
      invariant sleeps == Sleeps(calls, timeo)
      invariant calls > 0 ==> ret == handler(calls - 1).ret
      decreases left
    {
      left := left - 1;
      var a := handler(calls);
      ret := a.ret;
      calls := calls + 1;
      if stop(a) {
        return;
      }
      sleeps := sleeps + [timeo];
    }
  }

  /**
    `RetryBusy`: calls the handler until `errno` is not `EBUSY`, at most
    `times` times (at least once).
  */
  method RetryBusy(times: nat, timeo: int, handler: nat -> Attempt) returns (ret: int, calls: nat, sleeps: seq<int>)
    ensures var n := Budget(times); var k := FirstStop(NotBusy, handler, n);
      && calls == (if k < n then k + 1 else n)
      && ret == handler(calls - 1).ret
      && sleeps == Sleeps(k, timeo)
  {
    ret, calls, sleeps := RetryLoop(NotBusy, Budget(times), timeo, handler);
  }

  /**
    `RetryFailed`: calls the handler until it returns a non-negative value,
    at most `times` times (at least once).
  */
  method RetryFailed(times: nat, timeo: int, handler: nat -> Attempt) returns (ret: int, calls: nat, sleeps: seq<int>)
    ensures var n := Budget(times); var k := FirstStop(Succeeded, handler, n);
      && calls == (if k < n then k + 1 else n)
      && ret == handler(calls - 1).ret
      && sleeps == Sleeps(k, timeo)
  {
    ret, calls, sleeps := RetryLoop(Succeeded, Budget(times), timeo, handler);
  }

  /** `RetryFailed` returns a non-negative value exactly when one of its attempts succeeded. */
  lemma FailedOutcome(times: nat, handler: nat -> Attempt)
    ensures var n := Budget(times); var k := FirstStop(Succeeded, handler, n);
      var calls := if k < n then k + 1 else n;
      (handler(calls - 1).ret >= 0 <==> exists j :: 0 <= j < n && handler(j).ret >= 0)
  {
    var n := Budget(times);
    var k := FirstStop(Succeeded, handler, n);
    if k == n {
      assert forall j :: 0 <= j < n ==> !Succeeded(handler(j));
    }
  }

  /**
    `RetryBusy` ends with `errno` still `EBUSY` exactly when every attempt
    within the budget was busy.
  */
  lemma BusyOutcome(times: nat, handler: nat -> Attempt)
    ensures var n := Budget(times); var k := FirstStop(NotBusy, handler, n);
      var calls := if k < n then k + 1 else n;
      (handler(calls - 1).errno == EBUSY <==> forall j :: 0 <= j < n ==> handler(j).errno == EBUSY)
  {
    var n := Budget(times);
    var k := FirstStop(NotBusy, handler, n);
    if k < n {
      assert !(handler(k).errno == EBUSY);
    }
  }

  /** A larger budget finds the same stopping attempt when the smaller budget already found one. */
  lemma {:induction false} FirstStopFromLarger(stop: Attempt -> bool, handler: nat -> Attempt, i: nat, n: nat, m: nat)
    requires i <= n <= m
    ensures var k := FirstStopFrom(stop, handler, i, n);
      k < n ==> FirstStopFrom(stop, handler, i, m) == k
    ensures FirstStopFrom(stop, handler, i, n) == n ==> FirstStopFrom(stop, handler, i, m) >= n
    decreases n - i
  {
    if i < n && !stop(handler(i)) {
      FirstStopFromLarger(stop, handler, i + 1, n, m);
    }
  }

  /**
    Allowing more attempts changes nothing once the loop has stopped: when
    `times` attempts already reach a stopping one, any larger `times` stops
    at that same attempt, so `RetryBusy` and `RetryFailed` make the same
    calls and return the same result.
  */
  lemma LargerBudgetSameStop(stop: Attempt -> bool, handler: nat -> Attempt, times: nat, more: nat)
    requires times <= more
    ensures var k := FirstStop(stop, handler, Budget(times));
      k < Budget(times) ==> FirstStop(stop, handler, Budget(more)) == k
  {
    FirstStopFromLarger(stop, handler, 0, Budget(times), Budget(more));
  }
}
