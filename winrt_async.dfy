/** Awaiting a Windows Runtime asynchronous operation
    (internal/winrt/async.go). The native status getter and the wall clock
    are oracles: `status(k)` is the status read by the k-th poll and
    `now(0)` the time read when the deadline is computed, `now(k + 1)` the
    time read after the k-th poll. */
module WinrtAsync {
  import opened Types
  import opened WinrtBase

  /** `AsyncStatus`: Started is the only non-terminal state. */
  datatype AsyncStatus = Started | Completed | Canceled | Error

  /** E_FAIL, returned when the operation ends in Error. */
  const E_FAIL: HResult := 0x80004005

  /** Milliseconds slept between two polls. */
  const PollInterval: int := 10

  /** What Wait returns: nil, `syscall.Errno(hr)` from the failed
      QueryInterface, `Errno(hr)` with hr E_FAIL for an Error status, or
      `ETIMEDOUT`. */
  datatype WaitOutcome = Done | QueryInterfaceFailed(hr: HResult) | Failed(hr: HResult) | TimedOut

  /** The clock advances by at least one poll interval across the sleep
      that follows poll `k`. */
  ghost predicate Sleeps(now: nat -> int, k: nat)
  {
    now(k) + PollInterval <= now(k + 1)
  }

  /** The clock never goes back while waiting, and each sleep lasts at
      least its interval. */
  ghost predicate ClockAdvances(now: nat -> int)
  {
    && now(0) <= now(1)
    && forall k :: 1 <= k ==> Sleeps(now, k)
  }

  /** Every poll before poll `n` saw Started and was not past the deadline. */
  ghost predicate KeptWaiting(status: nat -> AsyncStatus, now: nat -> int, timeout: int, n: nat)
  {
    forall j :: 0 <= j < n ==> status(j) == Started && now(j + 1) <= now(0) + timeout
  }

  /** The state machine's answer when the loop ends at poll `k`: the
      status is checked before the deadline. */
  ghost predicate EndsAt(status: nat -> AsyncStatus, now: nat -> int, timeout: int, k: nat, outcome: WaitOutcome)
  {
    if status(k) == Error then outcome == Failed(E_FAIL)
    else if status(k) != Started then outcome == Done
    else now(k + 1) > now(0) + timeout && outcome == TimedOut
  }

  /** `polls` status reads, the last of them ending the loop. */
  ghost predicate WaitSpec(status: nat -> AsyncStatus, now: nat -> int, timeout: int, polls: nat, outcome: WaitOutcome)
  {
    polls >= 1 && KeptWaiting(status, now, timeout, polls - 1) && EndsAt(status, now, timeout, polls - 1, outcome)
  }

  /** IAsyncOperation.Wait. `qiHr` is what QueryInterface for IAsyncInfo
      returns; `released` counts the releases of the IAsyncInfo view. */
  method Wait(qiHr: HResult, status: nat -> AsyncStatus, now: nat -> int, timeout: int)
    returns (outcome: WaitOutcome, polls: nat, released: nat)
    requires ClockAdvances(now)
    ensures qiHr != S_OK ==> outcome == QueryInterfaceFailed(qiHr) && polls == 0 && released == 0
    ensures qiHr == S_OK ==> released == 1 && WaitSpec(status, now, timeout, polls, outcome)
  {
    if qiHr != S_OK {
      return QueryInterfaceFailed(qiHr), 0, 0;
    }
    var deadline := now(0) + timeout;
    var k: nat := 0;
    while true
      invariant KeptWaiting(status, now, timeout, k)
      decreases deadline + PollInterval - now(k + 1)
    {
      var st := status(k);
      if st != Started {
        released := 1;
        if st == Error {
          return Failed(E_FAIL), k + 1, released;
        }
        return Done, k + 1, released;
      }
      if now(k + 1) > deadline {
        released := 1;
        return TimedOut, k + 1, released;
      }
      assert Sleeps(now, k + 1);
      k := k + 1;
    }
  }

  /** The outcome is determined by the oracles: two runs that satisfy the
      specification agree on both the number of polls and the outcome. */
  lemma WaitDeterministic(status: nat -> AsyncStatus, now: nat -> int, timeout: int,
                          n1: nat, o1: WaitOutcome, n2: nat, o2: WaitOutcome)
    requires WaitSpec(status, now, timeout, n1, o1)
    requires WaitSpec(status, now, timeout, n2, o2)
    ensures n1 == n2 && o1 == o2
  {
  }

  /** A status other than Started at the first poll decides the outcome,
      however late the clock already is: Error is E_FAIL and both
      Completed and Canceled are success. */
  lemma FirstPollTerminal(status: nat -> AsyncStatus, now: nat -> int, timeout: int, n: nat, o: WaitOutcome)
    requires status(0) != Started
    requires WaitSpec(status, now, timeout, n, o)
    ensures n == 1
    ensures o == if status(0) == Error then Failed(E_FAIL) else Done
  {
  }

  lemma {:induction false} ClockAfterPolls(now: nat -> int, j: nat)
    requires ClockAdvances(now)
    ensures now(j + 1) >= now(0) + PollInterval * j
  {
    if j > 0 {
      ClockAfterPolls(now, j - 1);
      assert Sleeps(now, j);
    }
  }

  /** With an advancing clock the number of polls is bounded by the
      timeout: at most one poll per interval, plus the first and the last. */
  lemma PollsBounded(status: nat -> AsyncStatus, now: nat -> int, timeout: int, n: nat, o: WaitOutcome)
    requires ClockAdvances(now) && timeout >= 0
    requires WaitSpec(status, now, timeout, n, o)
    ensures n <= timeout / PollInterval + 2
  {
    if n >= 2 {
      var j: nat := n - 2;
      ClockAfterPolls(now, j);
      assert status(j) == Started && now(j + 1) <= now(0) + timeout;
    }
  }

  /** ETIMEDOUT only ever reports a Started status read after the deadline. */
  lemma TimedOutOnlyPastDeadline(status: nat -> AsyncStatus, now: nat -> int, timeout: int, n: nat)
    requires WaitSpec(status, now, timeout, n, TimedOut)
    ensures status(n - 1) == Started && now(n) > now(0) + timeout
  {
  }

  /** GetResults and GetAt: a nonzero HRESULT gives no value and
      `syscall.Errno(hr)`; zero gives the value the native call wrote. */
  function CheckHResult<T>(hr: HResult, value: T): (r: Result<T, Errno>)
    ensures r.Err? <==> hr != S_OK
    ensures r.Err? ==> r.error == Errno(hr)
    ensures r.Ok? ==> r.value == value
  {
    if hr != S_OK then Err(Errno(hr)) else Ok(value)
  }
}
