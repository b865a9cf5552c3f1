# Upload engine of UploaderMVP, modelled in Dafny

UploaderMVP is an ASP.NET application. It takes a batch of submitted files and stores each one through a file service, using one of three uploaders:

- the **serialized** uploader stores the files one after the other and lets the first failure escape;
- the **parallelized** uploader wraps each file in a retry helper that allows 3 attempts;
- the **asynchronous** uploader stores each file once.

The upload page turns the submitted method token into an uploader. It refuses an empty submission before any uploader runs, and it shows a success message once the uploader returns.

The model has three modules, one per component:

- `RetryHelper` (`retry.dfy`) models the retry helper. The action it retries is an oracle: `action(k)` is the outcome of the k-th call, `Ok` or `Err(fault)`. The wait after the k-th failure may observe a cancelled token, and `cancelled(k)` says whether it does. `ExecuteWithRetry` is the counter loop of the source. Its postcondition equates what it returns, a completion plus the trace of `Call` and `Delay` events, with the specification function `Retry`. The lemmas beside it state:
  - how many calls and waits happen;
  - that the helper stops on the first success;
  - that on exhaustion it rethrows the last error;
  - that a cancelled wait ends the run;
  - that the action's own cancellation error is retried like any other failure.
- `Uploaders` (`uploaders.dfy`) models the per-file upload and the three uploaders. The file service is an oracle too: `store(i, k)` is the outcome of the k-th store of the file at position `i`. `UploadFileWithLogging` is the shared per-file step. It logs and rethrows, so its outcome is the store's own. The serialized uploader is a method with a loop, proved equal to `SerializedRun`. The other two uploaders are maps over the batch that give each file an independent run. `WhenAll` joins their per-file results.
- `UploadPage` (`upload_page.dfy`) models the selector, the post handler's inline copy of the same switch, and the post handler itself. The handler passes no cancellation token to the uploader, so no retry wait started from the page is ever cancelled (`DefaultTokenEnvironment`).

Facts of the code the model keeps:

- the wait between attempts is a constant 1000 ms;
- the parallelized uploader's attempt bound is hard-coded to 3;
- nothing limits how many files are uploaded at once;
- the retry helper checks cancellation only during its wait;
- an uploader reports a batch by returning normally or by throwing;
- a failing file in the serialized uploader ends the batch.

## Model

| member | source | states |
|---|---|---|
| RetryHelper.ExecuteWithRetry | UploaderMVP/UploaderMVP/Services/FileUploaderService.cs:5-28 | the counter loop returns exactly the completion and the call/wait trace of the specification `Retry` for every action, bound and token |
| RetryHelper.RetryClosedForm | UploaderMVP/UploaderMVP/Services/FileUploaderService.cs:7-27 | with a positive bound, every run is some failed attempts, each followed by an uncancelled wait, and then one of three endings: a success returns normally, a failure of the last allowed attempt rethrows that attempt's error, a cancelled wait throws a cancellation error |
| RetryHelper.RetryNonPositive | UploaderMVP/UploaderMVP/Services/FileUploaderService.cs:7-8 | with a bound of 0 or less the loop body never runs: no call, no wait, normal return |
| RetryHelper.RetryCallBound | UploaderMVP/UploaderMVP/Services/FileUploaderService.cs:7-22 | the action is called at most `maxRetryAttempts` times (never when the bound is not positive), and there are never more waits than calls |
| RetryHelper.RetryStopsOnSuccess | UploaderMVP/UploaderMVP/Services/FileUploaderService.cs:12-13 | if attempt k is the first success and no earlier wait was cancelled, the helper returns normally after exactly k+1 calls and k waits and makes no further call |
| RetryHelper.RetryExhaustion | UploaderMVP/UploaderMVP/Services/FileUploaderService.cs:17-22 | if all `maxRetryAttempts` attempts fail and no wait is cancelled, the action is called exactly `maxRetryAttempts` times with `maxRetryAttempts - 1` waits, and the error of the last attempt is rethrown |
| RetryHelper.RetryCancelledDuringWait | UploaderMVP/UploaderMVP/Services/FileUploaderService.cs:25 | a wait that observes cancellation ends the helper with a cancellation error; the trace stops at that wait and the next attempt never happens |
| RetryHelper.RetryWaitsBetweenAttempts | UploaderMVP/UploaderMVP/Services/FileUploaderService.cs:18-25 | every wait lasts 1000 ms and comes right after a failed call that was not the last allowed one; it is followed by the next call, unless it observed cancellation, in which case it ends the run with a cancellation error |
| RetryHelper.RetryFaultAgnostic | UploaderMVP/UploaderMVP/Services/FileUploaderService.cs:15-17 | only success versus failure steers the loop: two actions that fail on the same attempts give the same trace, whatever errors they throw |
| RetryHelper.RetryRetriesCancelledAction | UploaderMVP/UploaderMVP/Services/FileUploaderService.cs:15-25 | a cancellation error thrown by the action itself is caught like any other failure: the helper waits and then calls the action again |
| RetryHelper.RetryWithoutCancellation | UploaderMVP/UploaderMVP/Services/FileUploaderService.cs:7-25 | with a positive bound and a token never cancelled, the helper returns normally iff one of the allowed attempts succeeds; otherwise it rethrows the last attempt's error |
| RetryHelper.RetryCongruent | UploaderMVP/UploaderMVP/Services/FileUploaderService.cs:5-28 | a run is determined by the outcomes of the calls and waits within the bound: actions and tokens that agree on the first `maxRetryAttempts` attempts and waits give equal runs, whatever they do beyond the bound |
| Uploaders.UploadFileWithLogging | UploaderMVP/UploaderMVP/Services/FileUploaderService.cs:54-67 | the per-file step succeeds exactly when the store does, and a failing store's error is rethrown unchanged |
| Uploaders.SerializedUploadFiles | UploaderMVP/UploaderMVP/Services/FileUploaderService.cs:93-99 | the loop over the files returns exactly the completion and the store calls of the specification `SerializedRun` |
| Uploaders.SerializedInOrderStopsAtFirstFailure | UploaderMVP/UploaderMVP/Services/FileUploaderService.cs:54-99 | the serialized uploader stores files strictly in input order, each once and as its first try (no retry); all stores but the last succeeded; the first failing file's error is thrown and no later file is attempted; it returns normally iff every file was stored |
| Uploaders.ParallelizedRuns | UploaderMVP/UploaderMVP/Services/FileUploaderService.cs:107-117 | the parallelized uploader yields one retry run per submitted file |
| Uploaders.ParallelizedAttemptsEveryFile | UploaderMVP/UploaderMVP/Services/FileUploaderService.cs:109-116 | every file is attempted: its run starts with its first attempt and makes between 1 and 3 calls |
| Uploaders.ParallelizedRunsIndependent | UploaderMVP/UploaderMVP/Services/FileUploaderService.cs:109-116 | a file's run depends only on what the file service and the token do for that file, not on the other files of the batch |
| Uploaders.AsynchronousRuns | UploaderMVP/UploaderMVP/Services/FileUploaderService.cs:125-129 | the asynchronous uploader yields one run per submitted file |
| Uploaders.AsynchronousIsSingleAttempt | UploaderMVP/UploaderMVP/Services/FileUploaderService.cs:127-128 | every file gets exactly one call and no wait: its run is the retry helper's run with a bound of 1, whatever the token does |
| Uploaders.WhenAll | UploaderMVP/UploaderMVP/Services/FileUploaderService.cs:110 | awaiting all per-file tasks returns normally iff every file's run did, and otherwise throws an exception that one of the files threw |
| Uploaders.UploadFiles | UploaderMVP/UploaderMVP/Views/FileUpload/Upload.cshtml.cs:57 | running a batch with any uploader returns normally iff every file's own upload returns normally (one store, or a retry run with the bound 3 for the parallelized uploader), and an exception it throws is one thrown by some file's upload |
| Uploaders.UploadFilesEmptyBatch | UploaderMVP/UploaderMVP/Services/FileUploaderService.cs:93-129 | an empty batch completes normally under all three uploaders without storing anything |
| Uploaders.UploadFilesCompletesIff | UploaderMVP/UploaderMVP/Services/FileUploaderService.cs:93-129 | when no retry wait is cancelled, a batch completes normally iff every file is stored within the tries its uploader allows: one try for the serialized and asynchronous uploaders, three for the parallelized one |
| UploadPage.SelectUploader | UploaderMVP/UploaderMVP/Views/FileUpload/Upload.cshtml.cs:85-92 | "parallel" selects the parallelized uploader and only it; "asynchronous" selects the asynchronous uploader and only it; every other token, "serial" and the empty string included, selects the serialized uploader |
| UploadPage.PostUploaderSwitch | UploaderMVP/UploaderMVP/Views/FileUpload/Upload.cshtml.cs:49-55 | the post handler's inline switch maps "parallel" to the parallelized uploader, "asynchronous" to the asynchronous uploader, and every other token to the serialized uploader |
| UploadPage.SwitchesAgree | UploaderMVP/UploaderMVP/Views/FileUpload/Upload.cshtml.cs:49-55 | the post handler's inline switch picks the same uploader as the selector for every token |
| UploadPage.DefaultTokenEnvironment | UploaderMVP/UploaderMVP/Views/FileUpload/Upload.cshtml.cs:57 | the handler hands the uploader the default token: file stores are unchanged and no retry wait is ever cancelled |
| UploadPage.OnPost | UploaderMVP/UploaderMVP/Views/FileUpload/Upload.cshtml.cs:41-61 | a null or empty file collection adds exactly the "Please select files to upload." model error and returns the page with no uploader invoked; otherwise the selected uploader runs and the page shows "Files uploaded successfully." iff the upload returned normally; otherwise the selected uploader's exception escapes the handler unchanged |
| UploadPage.OnPostSucceedsIffEveryFileStored | UploaderMVP/UploaderMVP/Views/FileUpload/Upload.cshtml.cs:57-59 | for a non-empty submission the success message is set iff every file was stored within the tries its uploader allows |

## Left out

- Uploaders.WhenAll: the real await of a faulted batch prefers a fault over a cancellation when it picks the exception to rethrow. The model always returns the exception of the first file in input order that threw. Which exception surfaces is part of the exception-aggregation semantics, which are left out.
- Concurrency: `Task.WhenAll` runs the per-file tasks concurrently. The await returns only after every file's task has finished, and the model reflects this by giving every file its complete, independent run. Interleaving and scheduling are not modelled.
- The file service (`FileService`, FileUploaderService.cs:70-86): creating the directory and streaming the bytes to disk are real file-system I/O. The store is an oracle returning `Ok` or `Err(fault)` per file and per try, and how its outcome depends on the cancellation token is left to the oracle.
- Logging: every logger call is a side effect with no bearing on outcomes. `UploadFileWithLogging` is therefore a pass-through of the store's outcome.
- Time: the 1000 ms delay is recorded as a `Delay` event in the trace. No clock is modelled.
- Uploader injection: Program.cs:9-11 registers all three uploaders under the one `IFileUploader` interface. The model identifies each of the page's three uploader fields with the class its name says, and does not model which registration the container actually resolves.
- Program.cs (dependency wiring), Controllers/FileUploaderController.cs (HTTP plumbing around one injected uploader), Models/FileUploadModel.cs and Models/settings.cs (plain data holders), and the page's `OnGet` carry no upload logic and are not part of this model.
