/** The retry helper of the upload service: call an action until it succeeds,
    waiting a fixed delay after each failure but the last, and rethrow the
    last failure once the attempt budget is spent.

    The action is an oracle: `action(k)` is the outcome of its k-th call
    (counted from 0). The wait after the k-th failed call may observe a
    cancelled token; `cancelled(k)` says whether it does. A run is described by
    how it ends and by the trace of calls and waits it performs. */
module RetryHelper {

  /** What an attempt or a wait can throw. */
  datatype Fault = IoFault(reason: string) | OperationCancelled

  /** The outcome of one call of the action. */
  datatype Attempt = Ok | Err(fault: Fault)

  /** One observable step: a call of the action, or a wait (and whether the
      wait ended because the token was cancelled). */
  datatype Event = Call(attempt: nat) | Delay(ms: nat, cancelled: bool)

  /** How a task ends: normally, or by throwing. */
  datatype Completion = Completed | Threw(fault: Fault)

  datatype RetryRun = RetryRun(completion: Completion, trace: seq<Event>)

  /** The wait between a failed attempt and the next one, a constant. */
  const RetryDelayMs: nat := 1000

  /** The rest of a run that has reached the loop head with `n` failed attempts
      behind it. */
  function RunFrom(action: nat -> Attempt, maxRetryAttempts: int, cancelled: nat -> bool, n: nat): RetryRun
    decreases if n < maxRetryAttempts then maxRetryAttempts - n else 0
  {
    if n >= maxRetryAttempts then RetryRun(Completed, [])
    else match action(n)
      case Ok => RetryRun(Completed, [Call(n)])
      case Err(f) =>
        if n + 1 >= maxRetryAttempts then RetryRun(Threw(f), [Call(n)])
        else if cancelled(n) then RetryRun(Threw(OperationCancelled), [Call(n), Delay(RetryDelayMs, true)])
        else
          var rest := RunFrom(action, maxRetryAttempts, cancelled, n + 1);
          RetryRun(rest.completion, [Call(n), Delay(RetryDelayMs, false)] + rest.trace)
  }

  /** The whole run of the retry helper. */
  function Retry(action: nat -> Attempt, maxRetryAttempts: int, cancelled: nat -> bool): RetryRun
  {
    RunFrom(action, maxRetryAttempts, cancelled, 0)
  }

  /** The retry helper itself: the counter loop of the source. */
  method ExecuteWithRetry(action: nat -> Attempt, maxRetryAttempts: int, cancelled: nat -> bool)
    returns (completion: Completion, trace: seq<Event>)
    ensures RetryRun(completion, trace) == Retry(action, maxRetryAttempts, cancelled)
  {
    var retryAttempts: nat := 0;
    trace := [];
    while retryAttempts < maxRetryAttempts
      invariant retryAttempts == 0 || retryAttempts < maxRetryAttempts
      invariant Retry(action, maxRetryAttempts, cancelled)
             == var rest := RunFrom(action, maxRetryAttempts, cancelled, retryAttempts);
                RetryRun(rest.completion, trace + rest.trace)
      decreases maxRetryAttempts - retryAttempts
    {
      ghost var before := trace;
      trace := trace + [Call(retryAttempts)];
      var outcome := action(retryAttempts);
      if outcome.Ok? {
        return Completed, trace;
      }
      retryAttempts := retryAttempts + 1;
      if retryAttempts >= maxRetryAttempts {
        return Threw(outcome.fault), trace;
      }
      var waitCancelled := cancelled(retryAttempts - 1);
      trace := trace + [Delay(RetryDelayMs, waitCancelled)];
      if waitCancelled {
        return Threw(OperationCancelled), trace;
      }
      assert trace == before + [Call(retryAttempts - 1), Delay(RetryDelayMs, false)];
    }
    completion := Completed;
  }

  /** Events of the failed, uncancelled attempts `from` .. `to - 1`: each call
      followed by its wait. */
  function Failed(from: nat, to: nat): seq<Event>
    decreases (to as int) - (from as int)
  {
    if from >= to then [] else [Call(from), Delay(RetryDelayMs, false)] + Failed(from + 1, to)
  }

  /** Attempts `from` .. `to - 1` all failed and none of their waits was cancelled. */
  predicate FailedUncancelled(action: nat -> Attempt, cancelled: nat -> bool, from: nat, to: nat)
  {
    forall j: nat :: from <= j < to ==> action(j).Err? && !cancelled(j)
  }

  /** Number of calls of the action in a trace. */
  function Calls(t: seq<Event>): nat
  {
    if t == [] then 0 else (if t[0].Call? then 1 else 0) + Calls(t[1..])
  }

  /** Number of waits in a trace. */
  function Waits(t: seq<Event>): nat
  {
    if t == [] then 0 else (if t[0].Delay? then 1 else 0) + Waits(t[1..])
  }

  /** The attempt at which a run that reached attempt `n` stops: the first one
      that succeeds, is the last allowed, or is followed by a cancelled wait. */
  function StopFrom(action: nat -> Attempt, maxRetryAttempts: int, cancelled: nat -> bool, n: nat): nat
    decreases if n < maxRetryAttempts then maxRetryAttempts - n else 0
  {
    if n + 1 >= maxRetryAttempts || action(n).Ok? || cancelled(n) then n
    else StopFrom(action, maxRetryAttempts, cancelled, n + 1)
  }

  function Stop(action: nat -> Attempt, maxRetryAttempts: int, cancelled: nat -> bool): nat
  {
    StopFrom(action, maxRetryAttempts, cancelled, 0)
  }

  lemma {:induction false} CountsAppend(a: seq<Event>, b: seq<Event>)
    ensures Calls(a + b) == Calls(a) + Calls(b)
    ensures Waits(a + b) == Waits(a) + Waits(b)
  {
    if a == [] {
      assert a + b == b;
    } else {
      var ab := a + b;
      assert ab != [] && ab[0] == a[0] && ab[1..] == a[1..] + b;
      CountsAppend(a[1..], b);
    }
  }

  lemma {:induction false} FailedCounts(from: nat, to: nat)
    requires from <= to
    ensures |Failed(from, to)| == 2 * (to - from)
    ensures Calls(Failed(from, to)) == to - from
    ensures Waits(Failed(from, to)) == to - from
    decreases (to as int) - (from as int)
  {
    if from < to {
      FailedCounts(from + 1, to);
      CountsAppend([Call(from), Delay(RetryDelayMs, false)], Failed(from + 1, to));
    }
  }

  lemma EndingCounts(k: nat)
    ensures Calls([Call(k)]) == 1 && Waits([Call(k)]) == 0
    ensures Calls([Call(k), Delay(RetryDelayMs, true)]) == 1
    ensures Waits([Call(k), Delay(RetryDelayMs, true)]) == 1
  {
    assert [Call(k)][1..] == [];
    assert [Call(k), Delay(RetryDelayMs, true)][1..] == [Delay(RetryDelayMs, true)];
    assert [Delay(RetryDelayMs, true)][1..] == [];
  }

  /** Failed attempts can be split off the front of a run. */
  lemma {:induction false} RunFromSkip(action: nat -> Attempt, maxRetryAttempts: int, cancelled: nat -> bool, n: nat, k: nat)
    requires n <= k < maxRetryAttempts
    requires FailedUncancelled(action, cancelled, n, k)
    ensures RunFrom(action, maxRetryAttempts, cancelled, n)
         == var rest := RunFrom(action, maxRetryAttempts, cancelled, k);
            RetryRun(rest.completion, Failed(n, k) + rest.trace)
    decreases k - n
  {
    if n < k {
      assert action(n).Err? && !cancelled(n);
      var next := RunFrom(action, maxRetryAttempts, cancelled, n + 1);
      var head := [Call(n), Delay(RetryDelayMs, false)];
      assert RunFrom(action, maxRetryAttempts, cancelled, n) == RetryRun(next.completion, head + next.trace);
      RunFromSkip(action, maxRetryAttempts, cancelled, n + 1, k);
      var rest := RunFrom(action, maxRetryAttempts, cancelled, k);
      assert Failed(n, k) == head + Failed(n + 1, k);
      assert head + (Failed(n + 1, k) + rest.trace) == Failed(n, k) + rest.trace;
    }
  }

  lemma {:induction false} StopFromBounds(action: nat -> Attempt, maxRetryAttempts: int, cancelled: nat -> bool, n: nat)
    requires n < maxRetryAttempts
    ensures var k := StopFrom(action, maxRetryAttempts, cancelled, n);
      n <= k < maxRetryAttempts && FailedUncancelled(action, cancelled, n, k)
      && (action(k).Ok? || k + 1 == maxRetryAttempts || cancelled(k))
    decreases maxRetryAttempts - n
  {
    if !(n + 1 >= maxRetryAttempts || action(n).Ok? || cancelled(n)) {
      StopFromBounds(action, maxRetryAttempts, cancelled, n + 1);
    }
  }

  /** Closed form of every run with a positive attempt budget: some failed,
      uncancelled attempts, then one of the three ways out of the loop. */
  lemma RetryClosedForm(action: nat -> Attempt, maxRetryAttempts: int, cancelled: nat -> bool)
    requires maxRetryAttempts >= 1
    ensures var k := Stop(action, maxRetryAttempts, cancelled);
      var r := Retry(action, maxRetryAttempts, cancelled);
      k < maxRetryAttempts && FailedUncancelled(action, cancelled, 0, k)
      && (action(k).Ok? || k + 1 == maxRetryAttempts || cancelled(k))
      && (action(k).Ok? ==> r == RetryRun(Completed, Failed(0, k) + [Call(k)]))
      && (action(k).Err? && k + 1 == maxRetryAttempts ==>
            r == RetryRun(Threw(action(k).fault), Failed(0, k) + [Call(k)]))
      && (action(k).Err? && k + 1 < maxRetryAttempts ==>
            r == RetryRun(Threw(OperationCancelled), Failed(0, k) + [Call(k), Delay(RetryDelayMs, true)]))
  {
    var k := Stop(action, maxRetryAttempts, cancelled);
    StopFromBounds(action, maxRetryAttempts, cancelled, 0);
    RunFromSkip(action, maxRetryAttempts, cancelled, 0, k);
  }

  /** A non-positive budget: the loop body never runs, nothing is called, and
      the helper returns normally. */
  lemma RetryNonPositive(action: nat -> Attempt, maxRetryAttempts: int, cancelled: nat -> bool)
    requires maxRetryAttempts <= 0
    ensures Retry(action, maxRetryAttempts, cancelled) == RetryRun(Completed, [])
  {
  }

  /** The action is called at most `maxRetryAttempts` times, and there is at
      most one wait per call. */
  lemma RetryCallBound(action: nat -> Attempt, maxRetryAttempts: int, cancelled: nat -> bool)
    ensures var t := Retry(action, maxRetryAttempts, cancelled).trace;
      Calls(t) <= (if maxRetryAttempts < 0 then 0 else maxRetryAttempts)
      && Waits(t) <= Calls(t)
  {
    if maxRetryAttempts >= 1 {
      var k := Stop(action, maxRetryAttempts, cancelled);
      RetryClosedForm(action, maxRetryAttempts, cancelled);
      FailedCounts(0, k);
      EndingCounts(k);
      CountsAppend(Failed(0, k), [Call(k)]);
      CountsAppend(Failed(0, k), [Call(k), Delay(RetryDelayMs, true)]);
    }
  }

  /** If attempt `k` is the first success (and no earlier wait was cancelled),
      the helper returns normally after exactly k + 1 calls and k waits. */
  lemma RetryStopsOnSuccess(action: nat -> Attempt, maxRetryAttempts: int, cancelled: nat -> bool, k: nat)
    requires k < maxRetryAttempts
    requires FailedUncancelled(action, cancelled, 0, k)
    requires action(k).Ok?
    ensures var r := Retry(action, maxRetryAttempts, cancelled);
      r == RetryRun(Completed, Failed(0, k) + [Call(k)])
      && Calls(r.trace) == k + 1 && Waits(r.trace) == k
  {
    RunFromSkip(action, maxRetryAttempts, cancelled, 0, k);
    FailedCounts(0, k);
    EndingCounts(k);
    CountsAppend(Failed(0, k), [Call(k)]);
  }

  /** If every allowed attempt fails (and no wait is cancelled), the action is
      called exactly `maxRetryAttempts` times, there are `maxRetryAttempts - 1`
      waits, and the last attempt's error is rethrown. */
  lemma RetryExhaustion(action: nat -> Attempt, maxRetryAttempts: int, cancelled: nat -> bool)
    requires maxRetryAttempts >= 1
    requires FailedUncancelled(action, cancelled, 0, maxRetryAttempts - 1)
    requires action(maxRetryAttempts - 1).Err?
    ensures var r := Retry(action, maxRetryAttempts, cancelled);
      r.completion == Threw(action(maxRetryAttempts - 1).fault)
      && r.trace == Failed(0, maxRetryAttempts - 1) + [Call(maxRetryAttempts - 1)]
      && Calls(r.trace) == maxRetryAttempts && Waits(r.trace) == maxRetryAttempts - 1
  {
    var k := maxRetryAttempts - 1;
    RunFromSkip(action, maxRetryAttempts, cancelled, 0, k);
    FailedCounts(0, k);
    EndingCounts(k);
    CountsAppend(Failed(0, k), [Call(k)]);
  }

  /** A wait that observes cancellation ends the helper with a cancellation
      error; the next attempt is never made. */
  lemma RetryCancelledDuringWait(action: nat -> Attempt, maxRetryAttempts: int, cancelled: nat -> bool, k: nat)
    requires k + 1 < maxRetryAttempts
    requires FailedUncancelled(action, cancelled, 0, k)
    requires action(k).Err? && cancelled(k)
    ensures var r := Retry(action, maxRetryAttempts, cancelled);
      r.completion == Threw(OperationCancelled)
      && r.trace == Failed(0, k) + [Call(k), Delay(RetryDelayMs, true)]
      && Calls(r.trace) == k + 1 && Waits(r.trace) == k + 1
  {
    RunFromSkip(action, maxRetryAttempts, cancelled, 0, k);
    FailedCounts(0, k);
    EndingCounts(k);
    CountsAppend(Failed(0, k), [Call(k), Delay(RetryDelayMs, true)]);
  }

  /** Every wait comes right after a failed call that was not the last allowed
      one. A wait is followed by the next call unless it observed
      cancellation, in which case it is the last event and the run ends with a
      cancellation error. */
  predicate WaitsBetweenAttempts(action: nat -> Attempt, maxRetryAttempts: int, r: RetryRun)
  {
    forall i :: 0 <= i < |r.trace| && r.trace[i].Delay? ==> WaitAt(action, maxRetryAttempts, r, i)
  }

  predicate WaitAt(action: nat -> Attempt, maxRetryAttempts: int, r: RetryRun, i: int)
    requires 0 <= i < |r.trace|
  {
    var t := r.trace;
    t[i].Delay? && t[i].ms == RetryDelayMs && 0 < i && t[i - 1].Call? && action(t[i - 1].attempt).Err? && t[i - 1].attempt + 1 < maxRetryAttempts
    && (i + 1 < |t| ==> !t[i].cancelled && t[i + 1] == Call(t[i - 1].attempt + 1))
    && (i + 1 == |t| ==> t[i].cancelled && r.completion == Threw(OperationCancelled))
  }

  /** Putting a failed, uncancelled attempt in front of a run keeps its waits
      between attempts. */
  lemma PrependFailedAttempt(action: nat -> Attempt, maxRetryAttempts: int, n: nat, rest: RetryRun)
    requires action(n).Err? && n + 1 < maxRetryAttempts
    requires rest.trace != [] && rest.trace[0] == Call(n + 1)
    requires WaitsBetweenAttempts(action, maxRetryAttempts, rest)
    ensures WaitsBetweenAttempts(action, maxRetryAttempts,
              RetryRun(rest.completion, [Call(n), Delay(RetryDelayMs, false)] + rest.trace))
  {
    var r := RetryRun(rest.completion, [Call(n), Delay(RetryDelayMs, false)] + rest.trace);
    var t := r.trace;
    forall i | 0 <= i < |t| && t[i].Delay?
      ensures WaitAt(action, maxRetryAttempts, r, i)
    {
      if i >= 2 {
        assert t[i] == rest.trace[i - 2];
        assert t[i - 1] == rest.trace[i - 3];
        assert WaitAt(action, maxRetryAttempts, rest, i - 2);
        if i + 1 < |t| {
          assert t[i + 1] == rest.trace[i - 1];
        }
      } else {
        assert i == 1 && t[2] == rest.trace[0];
      }
    }
  }

  lemma {:induction false} RunFromWaitsBetweenAttempts(action: nat -> Attempt, maxRetryAttempts: int, cancelled: nat -> bool, n: nat)
    ensures var r := RunFrom(action, maxRetryAttempts, cancelled, n);
      (r.trace != [] ==> r.trace[0] == Call(n)) && WaitsBetweenAttempts(action, maxRetryAttempts, r)
    decreases if n < maxRetryAttempts then maxRetryAttempts - n else 0
  {
    var r := RunFrom(action, maxRetryAttempts, cancelled, n);
    if n < maxRetryAttempts && action(n).Err? && n + 1 < maxRetryAttempts && !cancelled(n) {
      var rest := RunFrom(action, maxRetryAttempts, cancelled, n + 1);
      RunFromWaitsBetweenAttempts(action, maxRetryAttempts, cancelled, n + 1);
      assert rest.trace != [];
      PrependFailedAttempt(action, maxRetryAttempts, n, rest);
      assert r == RetryRun(rest.completion, [Call(n), Delay(RetryDelayMs, false)] + rest.trace);
    } else if n < maxRetryAttempts && action(n).Err? && n + 1 < maxRetryAttempts {
      assert r == RetryRun(Threw(OperationCancelled), [Call(n), Delay(RetryDelayMs, true)]);
      assert WaitsBetweenAttempts(action, maxRetryAttempts, r);
    } else {
      assert |r.trace| <= 1;
      assert WaitsBetweenAttempts(action, maxRetryAttempts, r);
    }
  }

  lemma RetryWaitsBetweenAttempts(action: nat -> Attempt, maxRetryAttempts: int, cancelled: nat -> bool)
    ensures WaitsBetweenAttempts(action, maxRetryAttempts, Retry(action, maxRetryAttempts, cancelled))
  {
    RunFromWaitsBetweenAttempts(action, maxRetryAttempts, cancelled, 0);
  }

  /** A run is determined by the outcomes of the calls and of the waits it
      observes: actions and tokens that agree give the same run. */
  lemma {:induction false} RunFromCongruent(a1: nat -> Attempt, a2: nat -> Attempt, maxRetryAttempts: int,
                                            c1: nat -> bool, c2: nat -> bool, n: nat)
    requires forall j: nat :: j < maxRetryAttempts ==> a1(j) == a2(j) && c1(j) == c2(j)
    ensures RunFrom(a1, maxRetryAttempts, c1, n) == RunFrom(a2, maxRetryAttempts, c2, n)
    decreases if n < maxRetryAttempts then maxRetryAttempts - n else 0
  {
    if n < maxRetryAttempts && a1(n).Err? && n + 1 < maxRetryAttempts && !c1(n) {
      RunFromCongruent(a1, a2, maxRetryAttempts, c1, c2, n + 1);
    }
  }

  lemma RetryCongruent(a1: nat -> Attempt, a2: nat -> Attempt, maxRetryAttempts: int, c1: nat -> bool, c2: nat -> bool)
    requires forall j: nat :: j < maxRetryAttempts ==> a1(j) == a2(j) && c1(j) == c2(j)
    ensures Retry(a1, maxRetryAttempts, c1) == Retry(a2, maxRetryAttempts, c2)
  {
    RunFromCongruent(a1, a2, maxRetryAttempts, c1, c2, 0);
  }

  /** The kind of error an attempt throws does not matter: an action that
      throws a cancellation error is retried exactly like one that throws an
      I/O error. Only success versus failure steers the loop. */
  lemma {:induction false} RunFromFaultAgnostic(a1: nat -> Attempt, a2: nat -> Attempt, maxRetryAttempts: int, cancelled: nat -> bool, n: nat)
    requires forall j: nat :: a1(j).Ok? <==> a2(j).Ok?
    ensures RunFrom(a1, maxRetryAttempts, cancelled, n).trace == RunFrom(a2, maxRetryAttempts, cancelled, n).trace
    ensures RunFrom(a1, maxRetryAttempts, cancelled, n).completion.Completed?
        <==> RunFrom(a2, maxRetryAttempts, cancelled, n).completion.Completed?
    decreases if n < maxRetryAttempts then maxRetryAttempts - n else 0
  {
    if n < maxRetryAttempts && a1(n).Err? && n + 1 < maxRetryAttempts && !cancelled(n) {
      RunFromFaultAgnostic(a1, a2, maxRetryAttempts, cancelled, n + 1);
    }
  }

  lemma RetryFaultAgnostic(a1: nat -> Attempt, a2: nat -> Attempt, maxRetryAttempts: int, cancelled: nat -> bool)
    requires forall j: nat :: a1(j).Ok? <==> a2(j).Ok?
    ensures Retry(a1, maxRetryAttempts, cancelled).trace == Retry(a2, maxRetryAttempts, cancelled).trace
    ensures Retry(a1, maxRetryAttempts, cancelled).completion.Completed?
        <==> Retry(a2, maxRetryAttempts, cancelled).completion.Completed?
  {
    RunFromFaultAgnostic(a1, a2, maxRetryAttempts, cancelled, 0);
  }

  /** A cancellation error thrown by the action itself is caught like any
      other failure: the helper waits and calls the action again. */
  lemma RetryRetriesCancelledAction(action: nat -> Attempt, maxRetryAttempts: int, cancelled: nat -> bool, k: nat)
    requires k + 1 < maxRetryAttempts
    requires FailedUncancelled(action, cancelled, 0, k)
    requires action(k) == Err(OperationCancelled) && !cancelled(k)
    ensures var t := Retry(action, maxRetryAttempts, cancelled).trace;
      |t| > 2 * k + 2 && t[2 * k + 2] == Call(k + 1) && t[2 * k + 1] == Delay(RetryDelayMs, false)
  {
    RunFromSkip(action, maxRetryAttempts, cancelled, 0, k + 1);
    FailedCounts(0, k + 1);
    FailedCounts(0, k);
    RunFromWaitsBetweenAttempts(action, maxRetryAttempts, cancelled, k + 1);
    assert Failed(0, k + 1) == Failed(0, k) + [Call(k), Delay(RetryDelayMs, false)] by {
      FailedSnoc(0, k);
    }
  }

  lemma {:induction false} FailedSnoc(from: nat, to: nat)
    requires from <= to
    ensures Failed(from, to + 1) == Failed(from, to) + [Call(to), Delay(RetryDelayMs, false)]
    decreases (to as int) - (from as int)
  {
    if from < to {
      FailedSnoc(from + 1, to);
    }
  }

  /** With a token that is never cancelled and a positive budget, the helper
      returns normally exactly when one of the allowed attempts succeeds, and
      otherwise rethrows the error of the last attempt. */
  lemma RetryWithoutCancellation(action: nat -> Attempt, maxRetryAttempts: int, cancelled: nat -> bool)
    requires maxRetryAttempts >= 1
    requires forall j: nat :: !cancelled(j)
    ensures var r := Retry(action, maxRetryAttempts, cancelled);
      (r.completion == Completed <==> exists k: nat :: k < maxRetryAttempts && action(k).Ok?)
      && (r.completion.Threw? ==> r.completion == Threw(action(maxRetryAttempts - 1).fault))
  {
    var k := Stop(action, maxRetryAttempts, cancelled);
    RetryClosedForm(action, maxRetryAttempts, cancelled);
    if action(k).Err? {
      assert k + 1 == maxRetryAttempts;
      forall j: nat | j < maxRetryAttempts
        ensures action(j).Err?
      {
        if j < k {
          assert action(j).Err? && !cancelled(j);
        }
      }
    }
  }
}
