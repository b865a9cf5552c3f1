/** The three batch uploaders of the upload service and the per-file upload
    they share.

    The file service is an oracle: `store(i, k)` is the outcome of the k-th
    store of the file at position i of the batch, and `waitCancelled(i, k)`
    says whether the k-th retry wait for that file observes a cancelled token.
    Files are identified by position, so two files with the same name get
    independent outcomes. The concurrent uploaders are maps over the batch:
    each file has its own run, and runs do not interleave. */
module Uploaders {
  import opened RetryHelper

  datatype UploadFile = UploadFile(fileName: string)

  datatype Environment = Environment(store: (nat, nat) -> Attempt, waitCancelled: (nat, nat) -> bool)

  /** The three implementations of the uploader interface. */
  datatype Uploader = SerializedUploader | ParallelizedUploader | AsynchronousUploader

  /** The attempt bound the parallelized uploader hands to the retry helper. */
  const ParallelMaxRetryAttempts: int := 3

  /** One store of one file, logged; a failure of the store is rethrown
      unchanged, so the outcome is the store's own. */
  function UploadFileWithLogging(env: Environment, position: nat, attempt: nat): (a: Attempt)
    ensures a.Ok? <==> env.store(position, attempt).Ok?
    ensures a.Err? ==> a.fault == env.store(position, attempt).fault
  {
    env.store(position, attempt)
  }

  /** The action the parallelized uploader retries for one file. */
  function FileAction(env: Environment, position: nat): nat -> Attempt
  {
    (k: nat) => UploadFileWithLogging(env, position, k)
  }

  /** The retry waits of one file, as seen by the shared token. */
  function FileWaits(env: Environment, position: nat): nat -> bool
  {
    (k: nat) => env.waitCancelled(position, k)
  }

  // ---------------------------------------------------------------------------
  // Serialized uploader: one file after the other, no retry.

  /** A store of the file at `position`, as its `attempt`-th try. */
  datatype StoreCall = StoreCall(position: nat, attempt: nat)

  datatype SerialRun = SerialRun(completion: Completion, calls: seq<StoreCall>)

  /** The rest of a serialized run that has reached position `i`. */
  function SerializedFrom(files: seq<UploadFile>, env: Environment, i: nat): SerialRun
    decreases |files| - i
  {
    if i >= |files| then SerialRun(Completed, [])
    else match UploadFileWithLogging(env, i, 0)
      case Ok =>
        var rest := SerializedFrom(files, env, i + 1);
        SerialRun(rest.completion, [StoreCall(i, 0)] + rest.calls)
      case Err(f) => SerialRun(Threw(f), [StoreCall(i, 0)])
  }

  function SerializedRun(files: seq<UploadFile>, env: Environment): SerialRun
  {
    SerializedFrom(files, env, 0)
  }

  /** The serialized uploader: a loop over the files that lets the first
      failure escape. */
  method SerializedUploadFiles(files: seq<UploadFile>, env: Environment)
    returns (completion: Completion, calls: seq<StoreCall>)
    ensures SerialRun(completion, calls) == SerializedRun(files, env)
  {
    calls := [];
    for i := 0 to |files|
      invariant SerializedRun(files, env)
             == var rest := SerializedFrom(files, env, i);
                SerialRun(rest.completion, calls + rest.calls)
    {
      ghost var before := calls;
      calls := calls + [StoreCall(i, 0)];
      var outcome := UploadFileWithLogging(env, i, 0);
      if outcome.Err? {
        return Threw(outcome.fault), calls;
      }
      assert before + ([StoreCall(i, 0)] + SerializedFrom(files, env, i + 1).calls)
          == calls + SerializedFrom(files, env, i + 1).calls;
    }
    completion := Completed;
  }

  lemma {:induction false} SerializedFromOrder(files: seq<UploadFile>, env: Environment, i: nat)
    requires i <= |files|
    ensures var r := SerializedFrom(files, env, i);
      i + |r.calls| <= |files|
      && (forall j :: 0 <= j < |r.calls| ==> r.calls[j] == StoreCall(i + j, 0))
      && (forall j: nat :: i <= j < i + |r.calls| - 1 ==> env.store(j, 0).Ok?)
      && (r.completion == Completed <==> forall j: nat :: i <= j < |files| ==> env.store(j, 0).Ok?)
      && (r.completion == Completed ==> i + |r.calls| == |files|)
      && (r.completion.Threw? ==> 0 < |r.calls| && env.store(i + |r.calls| - 1, 0) == Err(r.completion.fault))
    decreases |files| - i
  {
    if i < |files| && env.store(i, 0).Ok? {
      SerializedFromOrder(files, env, i + 1);
      var rest := SerializedFrom(files, env, i + 1);
      var r := SerializedFrom(files, env, i);
      assert r.calls == [StoreCall(i, 0)] + rest.calls;
      forall j | 0 <= j < |r.calls|
        ensures r.calls[j] == StoreCall(i + j, 0)
      {
        if j > 0 {
          assert r.calls[j] == rest.calls[j - 1];
        }
      }
    }
  }

  /** The serialized uploader stores the files strictly in input order, each
      once and with no retry; it stops at the first failing file and throws
      that file's error, and it returns normally exactly when every file was
      stored. */
  lemma SerializedInOrderStopsAtFirstFailure(files: seq<UploadFile>, env: Environment)
    ensures var r := SerializedRun(files, env);
      |r.calls| <= |files|
      && (forall j :: 0 <= j < |r.calls| ==> r.calls[j] == StoreCall(j, 0))
      && (forall j: nat :: j + 1 < |r.calls| ==> env.store(j, 0).Ok?)
      && (r.completion == Completed <==> forall j: nat :: j < |files| ==> env.store(j, 0).Ok?)
      && (r.completion == Completed ==> |r.calls| == |files|)
      && (r.completion.Threw? ==> 0 < |r.calls| && env.store(|r.calls| - 1, 0) == Err(r.completion.fault))
  {
    SerializedFromOrder(files, env, 0);
  }

  // ---------------------------------------------------------------------------
  // Parallelized and asynchronous uploaders: one independent run per file.

  /** The parallelized uploader: every file wrapped in the retry helper with
      an attempt bound of 3. */
  function ParallelizedRuns(files: seq<UploadFile>, env: Environment): (runs: seq<RetryRun>)
    ensures |runs| == |files|
  {
    seq(|files|, (i: int) requires 0 <= i < |files| =>
      Retry(FileAction(env, i), ParallelMaxRetryAttempts, FileWaits(env, i)))
  }

  /** The asynchronous uploader: every file stored once, no retry. */
  function AsynchronousRuns(files: seq<UploadFile>, env: Environment): (runs: seq<RetryRun>)
    ensures |runs| == |files|
  {
    seq(|files|, (i: int) requires 0 <= i < |files| =>
      var outcome := UploadFileWithLogging(env, i, 0);
      RetryRun(if outcome.Ok? then Completed else Threw(outcome.fault), [Call(0)]))
  }

  /** Awaiting all per-file tasks: normal completion exactly when every file
      completed, otherwise the exception of a file that threw (the first one in
      input order). */
  function WhenAll(runs: seq<RetryRun>): (c: Completion)
    ensures c == Completed <==> forall i :: 0 <= i < |runs| ==> runs[i].completion == Completed
    ensures c.Threw? ==> exists i :: 0 <= i < |runs| && runs[i].completion == c
  {
    if runs == [] then Completed
    else if runs[0].completion.Threw? then runs[0].completion
    else
      var c := WhenAll(runs[1..]);
      assert forall i :: 1 <= i < |runs| ==> runs[i] == runs[1..][i - 1];
      c
  }

  /** The parallelized uploader attempts every file: each file gets a retry
      run of its own with the bound 3, so it is called at least once and at
      most three times, starting with its first attempt. */
  lemma ParallelizedAttemptsEveryFile(files: seq<UploadFile>, env: Environment)
    ensures var runs := ParallelizedRuns(files, env);
      forall i :: 0 <= i < |runs| ==>
        runs[i].trace != [] && runs[i].trace[0] == Call(0)
        && 1 <= Calls(runs[i].trace) <= ParallelMaxRetryAttempts
  {
    var runs := ParallelizedRuns(files, env);
    forall i | 0 <= i < |runs|
      ensures runs[i].trace != [] && runs[i].trace[0] == Call(0)
      ensures 1 <= Calls(runs[i].trace) <= ParallelMaxRetryAttempts
    {
      RetryCallBound(FileAction(env, i), ParallelMaxRetryAttempts, FileWaits(env, i));
      RunFromWaitsBetweenAttempts(FileAction(env, i), ParallelMaxRetryAttempts, FileWaits(env, i), 0);
      var t := runs[i].trace;
      assert t != [] && t[0] == Call(0);
      assert t == [t[0]] + t[1..];
      CountsAppend([t[0]], t[1..]);
      assert [t[0]][1..] == [];
    }
  }

  /** A file's run in the parallelized uploader depends only on what happens
      to that file: runs of different files are independent. */
  lemma ParallelizedRunsIndependent(files1: seq<UploadFile>, env1: Environment, files2: seq<UploadFile>, env2: Environment, i: nat)
    requires i < |files1| && i < |files2|
    requires forall k: nat :: env1.store(i, k) == env2.store(i, k) && env1.waitCancelled(i, k) == env2.waitCancelled(i, k)
    ensures ParallelizedRuns(files1, env1)[i] == ParallelizedRuns(files2, env2)[i]
  {
  }

  /** The asynchronous uploader gives every file exactly the run the retry
      helper would give it with a bound of 1: a single call and no wait. */
  lemma AsynchronousIsSingleAttempt(files: seq<UploadFile>, env: Environment, cancelled: nat -> bool)
    ensures var runs := AsynchronousRuns(files, env);
      forall i :: 0 <= i < |runs| ==>
        runs[i] == Retry(FileAction(env, i), 1, cancelled)
        && runs[i].trace == [Call(0)]
  {
  }

  /** How the upload of the file at `position` ends on its own under an
      uploader: one store for the serialized and asynchronous uploaders, a
      retry run with the bound 3 for the parallelized one. */
  function FileCompletion(uploader: Uploader, env: Environment, position: nat): Completion
  {
    if uploader == ParallelizedUploader then
      Retry(FileAction(env, position), ParallelMaxRetryAttempts, FileWaits(env, position)).completion
    else
      var outcome := UploadFileWithLogging(env, position, 0);
      if outcome.Ok? then Completed else Threw(outcome.fault)
  }

  /** Running a batch with one of the uploaders: it returns normally exactly
      when every file's own upload does, and an exception it throws is one
      that the upload of some file of the batch threw. */
  function UploadFiles(uploader: Uploader, files: seq<UploadFile>, env: Environment): (c: Completion)
    ensures c == Completed <==> forall i: nat :: i < |files| ==> FileCompletion(uploader, env, i) == Completed
    ensures c.Threw? ==> exists i: nat :: i < |files| && FileCompletion(uploader, env, i) == c
  {
    match uploader
    case SerializedUploader =>
      SerializedInOrderStopsAtFirstFailure(files, env);
      var r := SerializedRun(files, env);
      assert r.completion.Threw? ==> FileCompletion(uploader, env, |r.calls| - 1) == r.completion;
      r.completion
    case ParallelizedUploader =>
      var runs := ParallelizedRuns(files, env);
      assert forall i :: 0 <= i < |runs| ==> runs[i].completion == FileCompletion(uploader, env, i);
      WhenAll(runs)
    case AsynchronousUploader =>
      var runs := AsynchronousRuns(files, env);
      assert forall i :: 0 <= i < |runs| ==> runs[i].completion == FileCompletion(uploader, env, i);
      WhenAll(runs)
  }

  /** How many times an uploader may store one file. */
  function AttemptBound(uploader: Uploader): nat
  {
    if uploader == ParallelizedUploader then ParallelMaxRetryAttempts else 1
  }

  /** The file at `position` is stored by one of the tries the uploader
      allows it. */
  predicate FileStored(uploader: Uploader, env: Environment, position: nat)
  {
    exists k: nat :: k < AttemptBound(uploader) && env.store(position, k).Ok?
  }

  /** An empty batch completes normally under every uploader, without storing
      anything. */
  lemma UploadFilesEmptyBatch(uploader: Uploader, env: Environment)
    ensures UploadFiles(uploader, [], env) == Completed
    ensures SerializedRun([], env).calls == []
    ensures ParallelizedRuns([], env) == [] && AsynchronousRuns([], env) == []
  {
  }

  /** When no retry wait is ever cancelled, a batch completes normally exactly
      when every file is stored within the tries its uploader allows. */
  lemma UploadFilesCompletesIff(uploader: Uploader, files: seq<UploadFile>, env: Environment)
    requires forall i: nat, k: nat :: !env.waitCancelled(i, k)
    ensures UploadFiles(uploader, files, env) == Completed
        <==> forall i: nat :: i < |files| ==> FileStored(uploader, env, i)
  {
    match uploader
    case SerializedUploader =>
      SerializedInOrderStopsAtFirstFailure(files, env);
      forall i: nat | i < |files|
        ensures FileStored(uploader, env, i) <==> env.store(i, 0).Ok?
      {
        if env.store(i, 0).Ok? {
          assert 0 < AttemptBound(uploader) && env.store(i, 0).Ok?;
        }
      }
    case ParallelizedUploader =>
      var runs := ParallelizedRuns(files, env);
      forall i | 0 <= i < |files|
        ensures runs[i].completion == Completed <==> FileStored(uploader, env, i)
      {
        RetryWithoutCancellation(FileAction(env, i), ParallelMaxRetryAttempts, FileWaits(env, i));
        if runs[i].completion == Completed {
          var k: nat :| k < ParallelMaxRetryAttempts && FileAction(env, i)(k).Ok?;
          assert env.store(i, k).Ok?;
        }
        if FileStored(uploader, env, i) {
          var k: nat :| k < AttemptBound(uploader) && env.store(i, k).Ok?;
          assert FileAction(env, i)(k).Ok?;
        }
      }
    case AsynchronousUploader =>
      var runs := AsynchronousRuns(files, env);
      forall i | 0 <= i < |files|
        ensures runs[i].completion == Completed <==> FileStored(uploader, env, i)
      {
        if env.store(i, 0).Ok? {
          assert 0 < AttemptBound(uploader) && env.store(i, 0).Ok?;
        }
      }
  }
}
