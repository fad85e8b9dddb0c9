# file-uploadlet upload orchestration, modelled in Dafny

This project models the core of the `file-uploadlet` CanJS component: the
logic that decides what happens to each file of an upload list. It covers:

- the `add` handler that validates a newly pushed file: allowed extension,
  maximum size, minimum size, last failing check wins;
- the scheduler: `upload`, `uploadAll` with its `maxConcurrent` cap
  re-checked before every dispatch, `stop`, `stopAll`, `remove`,
  `removeAll`, `resetProgress`;
- the derived attributes: `done`, which advances `currentBatch` when it is
  read true; `errored`; `uploadingCount`; `progress`;
- the parsing of the comma-separated `extensions` setting.

The view-model is the class `Uploadlet.Uploader`. Its file list is a
`seq<FileRecord>` field, and each file is addressed by its position in the
list. Every operation that changes the list or the batch counter is a
method. Its `ensures` gives the new list as a function of the old one and
says what stays unchanged. The properties of those functions are proved as
lemmas in the value modules:

- `FileRecords`: the record, `start`/`stop` on one record, the
  `uploadingCount` and `errored` folds.
- `Extensions`: the `extensions` setter and extension extraction.
- `Validation`: the add handler's checks.
- `Scheduling`: the closed form of one `uploadAll` pass.
- `Progress`: `done` and `progress`.

The transport (src/make-model.js) is not modelled as code. Its three
outcomes are methods of the class that the environment calls:

- a progress event with an integer percent;
- success;
- failure.

Each resolution event carries the `keepGoing` flag that the matching
`upload` call captured. When it is set, the event runs `uploadAll`, as
`checkKeepGoing` does.

Behaviours of the code that the model keeps as written:

- A transport failure sets `state` to `errored` and stores the error as
  `error`, not as `errorMessage`. So a transport failure adds nothing to
  `errored`: the file is listed there only if it already carried an
  `errorMessage` from the add handler.
- The failure handler does not check the file's state. A request that fails
  after its file was stopped without being aborted turns the stopped file
  into an `errored` one. `stop` aborts only the request the file holds now,
  so this happens when `upload` was called twice on the same file and its
  first request lost its handle (src/make-model.js:58).
- A re-pushed record that is still `errored` and now passes every check
  stays `errored` with its old message, because the pending setup is
  skipped for an errored record.
- Reading `done` true on a non-empty list advances the batch. Reading it
  again with no new files is true again, and the batch advances again.
- `progress` reads `done` before it sums, so once `done` is true the sum
  covers the new, empty batch, and `progress` shows 100.
- `remove` of a file that is not in the list drops the last file of the
  list, because `indexOf` returns -1 and `splice(-1, 1)` removes the last
  element. The dropped file is not stopped, and `remove` still stops the
  absent file itself (the model has no record of that file; see
  "## Left out").

## Model

| member | source | states |
|---|---|---|
| FileRecords.NewRecord | src/file-uploadlet.js:21-22 | A newly pushed file has its name and size, state `New` (no state yet), no batch, no messages, zero progress and no request. |
| FileRecords.Started | src/view-model.js:154-158 | `upload` leaves the file `uploading` with both progress fields 0 and an in-flight request; name, size, batch and messages are unchanged. |
| FileRecords.StopRecord | src/view-model.js:190-197 | `stop` leaves the file `stopped` with both progress fields 0 and no in-flight request, whatever its prior state; name, size, batch and messages are unchanged. |
| FileRecords.ResetProgress | src/view-model.js:235-238 | `resetProgress` sets both progress fields to 0 and leaves every other field as it was. |
| FileRecords.StopIdempotent | src/view-model.js:190-197 | Stopping a stopped file leaves the same record: `stop` is idempotent. |
| FileRecords.CountIsMultiplicity | src/view-model.js:86-94 | The count behind `uploadingCount` equals the number of times `uploading` occurs among the files' states. |
| FileRecords.CountExtremes | src/view-model.js:86-94 | A state count is 0 exactly when no file has that state, and equals the list length exactly when every file has it. |
| FileRecords.ErroredMessages | src/view-model.js:48-63 | `errored` lists only non-empty messages that some file carries, and lists the message of every file whose `errorMessage` is non-empty. |
| FileRecords.ErroredAppend | src/view-model.js:48-63 | `errored` over two lists joined is the two `errored` lists joined. With `ErroredOne`, this fixes the result as the non-empty messages in list order, once per file. |
| FileRecords.ErroredOne | src/view-model.js:54-59 | A single file contributes its message exactly when the message is non-empty. |
| FileRecords.ErroredCount | src/view-model.js:48-63 | `errored` has exactly one entry per file with a non-empty `errorMessage`. |
| FileRecords.ErroredOnlyReadsMessages | src/view-model.js:54-59 | Changing a file anywhere except its `errorMessage` leaves `errored` unchanged. |
| Extensions.LastIndexOf | src/file-uploadlet.js:27 | `lastIndexOf('.')` is -1 exactly when there is no dot; otherwise it is a dot's position with no dot after it. |
| Extensions.RemoveFirst | src/view-model.js:73 | `replace(' ', '')` removes only the first space, and leaves a string without spaces unchanged. |
| Extensions.Split | src/view-model.js:73 | `split(',')` yields at least one piece, and no piece contains a comma. |
| Extensions.JoinSplit | src/view-model.js:73 | Joining the pieces of `split(',')` with commas gives back the input string. |
| Extensions.SplitJoin | src/view-model.js:73 | Splitting a comma-join of comma-free pieces gives back those pieces. |
| Extensions.ExtensionList | src/view-model.js:72-77 | The setter's pieces are comma-free and, joined with commas, give the setting with its first space removed. |
| Extensions.ParseExtensions | src/view-model.js:70-80 | A key is allowed exactly when it is one of the setter's pieces; no allowed key contains a comma. |
| Extensions.ParseJoined | src/view-model.js:70-80 | A setting written "a,b,c" with no spaces allows exactly its own elements. |
| Extensions.ParseKeepsLaterSpaces | src/view-model.js:73 | "a, b, c" allows exactly {"a", "b", " c"}: only the first space is removed, so "jpg, png, gif" yields " gif". |
| Extensions.ExtensionOf | src/file-uploadlet.js:27-28 | The extension is `no-ext` when the name has no dot; otherwise it is the dot-free text after the last dot. |
| Extensions.ExtensionExamples | src/file-uploadlet.js:27-28 | "a." has the empty extension, "photo.tar.gz" has "gz", and "README" has `no-ext`. |
| Validation.Validate | src/file-uploadlet.js:26-63 | The checks run extension, then max, then min, each overwriting state and message. The result equals the reference `Checked`, which asks for the last failing check first. |
| Validation.CheckedOutcome | src/file-uploadlet.js:31-63 | A new file is `pending` iff all three checks pass and `errored` iff one fails. A passing file gets the batch read on entry and zero progress. A failing file gets no batch and a non-empty message. |
| Validation.ErroredRecordKept | src/file-uploadlet.js:57-63 | A record that is already `errored` and passes every check is left unchanged: still errored, with its old message and no new batch. |
| Validation.BadExtensionMessage | src/file-uploadlet.js:31-34 | A file rejected for its extension alone gets the message "Invalid file extension: " followed by the extension. |
| Validation.LastCheckWins | src/file-uploadlet.js:36-55 | The min-size message overrides every other message, and the max-size message overrides the extension message. |
| Validation.SizeLimitsInclusive | src/file-uploadlet.js:40-55 | A limit of 0 is unset. A file exactly at a limit passes it. Any other limit, a negative (truthy) one included, rejects `size > max` and `size < min` respectively. |
| Scheduling.DispatchedCount | src/view-model.js:169-185 | After an `uploadAll` pass, the uploading count is the old count plus the pending files, up to the free slots `max(0, maxConcurrent - uploadingCount)`. |
| Scheduling.DispatchedKeepsCap | src/view-model.js:171-184 | `uploadingCount <= maxConcurrent` before a pass implies the same after it. A pass that starts with no free slot changes nothing. |
| Scheduling.DispatchedChanges | src/view-model.js:176-183 | A pass keeps the list's length and order; each file is either unchanged or was `pending` and is now started (uploading, progress 0). |
| Scheduling.DispatchedInOrder | src/view-model.js:176-183 | Files are dispatched in list order: a pending file ahead of a dispatched one is dispatched too. |
| Scheduling.DispatchedFillsCap | src/view-model.js:176-183 | A file still pending after a pass means the uploading count has reached `maxConcurrent`. |
| Scheduling.DispatchedIdempotent | src/view-model.js:169-185 | A second pass straight after the first dispatches nothing. |
| Progress.DoneAgainAfterAdvance | src/view-model.js:20-40 | With no file tagged after the current batch, a true `done` is true again for the advanced batch. |
| Progress.BatchProgressBounded | src/view-model.js:107-112 | With every file's uploaded bytes in 0..size, a batch's uploaded bytes lie between 0 and the batch's total size. |
| Progress.RoundedPercent | src/view-model.js:114 | `Math.round(p / t * 100)` is the nearest integer to 100p/t, with halves rounded up. 0/0 is NaN and p/0 (p ≠ 0) is infinite. |
| Progress.RoundedPercentInRange | src/view-model.js:114 | For 0 <= p <= t and t > 0, the rounded percentage is in 0..100; it is 100 at p = t and 0 at p = 0. |
| Progress.ProgressInRange | src/view-model.js:100-119 | With every file's uploaded bytes in 0..size, `progress` is a finite integer in 0..100. |
| Progress.ProgressEnds | src/view-model.js:114-118 | A fully uploaded batch shows 100. A batch with no bytes shows 100 when `done` and 0 otherwise. |
| Progress.ProgressAfterDone | src/view-model.js:101-112 | Once `done` has advanced the batch, the sum covers the new empty batch and `progress` is 100. |
| Uploadlet.Progressed | src/make-model.js:32-38 | A progress event sets `progressPercent` to the percent. It sets `progressSize` to floor(percent·size/100), which lies within 0..size. |
| Uploadlet.Succeeded | src/make-model.js:47-50 | Success sets the file `uploaded` and ends its request; nothing else changes. |
| Uploadlet.Failed | src/make-model.js:51-55 | Failure sets the file `errored`, stores the error as `error` and keeps `errorMessage` as it was, whatever the prior state. |
| Uploadlet.FailureNotListed | src/make-model.js:51-53 | A transport failure leaves `errored` unchanged. |
| Uploadlet.LateFailureAfterStop | src/make-model.js:51-53 | A stopped file whose request then fails becomes `errored` with its progress still 0, because the handler has no state guard. |
| Uploadlet.Uploader.constructor | src/view-model.js:125-148 | Defaults: empty list, batch 0, `maxConcurrent` 3, `autoUpload` true, no size limits, and `extensions` parsed from the given setting. |
| Uploadlet.Uploader.SetExtensions | src/view-model.js:70-80 | The setter stores the parsed allow-list and changes nothing else. |
| Uploadlet.Uploader.Done | src/view-model.js:19-42 | The getter returns `BatchDone` (false on an empty list, else no file of the current batch is pending or uploading). `currentBatch` grows by exactly 1 when it returns true and is unchanged otherwise. |
| Uploadlet.Uploader.GetProgress | src/view-model.js:100-120 | The getter reads `done` first, then returns the rounded percentage of the possibly advanced batch. The result is in 0..100, and is 100 whenever `done` was true. |
| Uploadlet.Uploader.GetUploadingCount | src/view-model.js:86-94 | The getter returns the number of times `uploading` occurs among the files' states. It is 0 exactly when no file is uploading, and never more than the list length. |
| Uploadlet.Uploader.ResetProgress | src/view-model.js:235-238 | Exactly the given file gets both progress fields set to 0. The cap is preserved and everything else is unchanged. |
| Uploadlet.Uploader.Upload | src/view-model.js:154-168 | Exactly the given file is started; every other file and all configuration are unchanged. |
| Uploadlet.Uploader.UploadAll | src/view-model.js:169-185 | The list becomes the closed-form pass `Dispatched`, which the loop re-deriving `uploadingCount` before each file establishes. The cap is preserved and the batch is unchanged. |
| Uploadlet.Uploader.Stop | src/view-model.js:190-197 | Exactly the given file becomes `StopRecord` of itself. A request is reported aborted iff the file held one, which in the model means it was uploading. The cap is preserved and everything else is unchanged. A second live request on an already-resolved file, and the handlers the abort runs synchronously, are not modelled (see Left out). |
| Uploadlet.Uploader.StopAll | src/view-model.js:202-208 | Every file is stopped, with length and order kept, and afterwards no file is uploading. |
| Uploadlet.Uploader.Remove | src/view-model.js:213-219 | A listed file is stopped and exactly that element is spliced out, the rest keeping their order. An absent file (`indexOf` -1) makes the last element be dropped, without stopping it; `aborted` is then false, because the absent file itself has no record in the model (see Left out). |
| Uploadlet.Uploader.RemoveAll | src/view-model.js:224-230 | Every file of a snapshot is stopped and removed. The requests aborted are exactly those of the uploading files; a second live request on an already-resolved file is not counted (see Left out). |
| Uploadlet.Uploader.Add | src/file-uploadlet.js:21-68 | The added files are pushed, and only the first is checked, with the batch and configuration read on entry. When `autoUpload` is set, an `uploadAll` pass follows whatever the outcome. The cap is preserved. |
| Uploadlet.Uploader.OnProgress | src/make-model.js:32-38 | A progress event updates only the given file's two progress fields, keeping them in range. |
| Uploadlet.Uploader.OnSuccess | src/make-model.js:47-50 | The file (if still listed) becomes `uploaded`. An `uploadAll` pass follows when the upload was started with `keepGoing`, refilling the freed slot. The cap is preserved. |
| Uploadlet.Uploader.OnFailure | src/make-model.js:51-55 | The file (if still listed) becomes `errored` whatever its state, and `errored` is unchanged. An `uploadAll` pass follows when `keepGoing`. The cap is preserved. |

## Left out

- The request itself is out of scope: the `$.ajax`/XMLHttpRequest call, `formRequestData`, and the configuration checks that throw in src/make-model.js. The user's `successCallback` and `failureCallback` are foreign calls and are not modelled either. Only the three outcomes are modelled, as events.
- The transport computes its percent as `Math.round(loaded / total * 100)` in floating point. The model takes that percent as an integer parameter in 0..100.
- The source stores `percent * size / 100` as a float. The model stores its floor, which is what the `progress` getter's `parseInt` reads for the usual values. `parseInt` on exponent notation (sizes of 1e21 bytes and more) is not modelled.
- Progress.RoundedPercent: uses exact rational rounding. The floating-point error of `progressSize / totalSize * 100` is not modelled.
- Promise plumbing (`.then(checkKeepGoing, checkKeepGoing)`) is not modelled. A resolution is a sequential event that carries the `keepGoing` flag its `upload` captured. Which event belongs to which dispatch is left to the caller.
- `upload`'s `keepGoing` argument: Uploadlet.Uploader.Upload does not take it, because it only matters when the request resolves. The resolution events take it instead.
- `xhr.abort()` is modelled as clearing the `hasXhr` flag. The source keeps the `xhr` attribute, but a second `abort` on an aborted or finished request does nothing, so the flag stands for "a request is in flight", with one exception. `upload` on a file that is already uploading attaches a second request and drops the handle of the first. The model's one flag per file cannot hold two live requests (see the `Uploadlet.Uploader.Upload` line). A failure event can still be delivered at any time, including after `stop`.
- Uploadlet.Uploader.Upload: does not model a second live request on one file. In the source, `upload` on a file that is already uploading stores a second request in `xhr` while the first keeps running (src/make-model.js:58). If the first then succeeds or fails, the file becomes `uploaded` or `errored` while the second is still in flight. The model clears `hasXhr` on that resolution, so for such a file it keeps `hasXhr` only while the state is `uploading`, and forgets the second request.
- Uploadlet.Uploader.Stop: `aborted` is true exactly when the file is uploading in the model. It misses the case in the `Upload` line: a file whose first request already resolved, so it is `uploaded` or `errored`, while its second request is still in flight. `stop` in the source aborts that second request (src/view-model.js:191-193), and the model reports no abort.
- Uploadlet.Uploader.Stop: does not model the handlers that aborting an in-flight request runs synchronously inside `stop`. The source needs jQuery before 3.0, where `.success` (src/make-model.js:47) still exists, and there `abort()` settles the request at once. So before src/view-model.js:195 writes `stopped`, the failure handler sets the file `errored`, stores `error` and calls `failureCallback`, and then `checkKeepGoing` runs. For a file that `uploadAll` dispatched, `checkKeepGoing` runs `uploadAll`, which can start the next pending file. In the model the stopped file's `error` is not set and no other file is started. The stopped file still ends `stopped` with zero progress, as in the source.
- Uploadlet.Uploader.StopAll: inherits the gap of `Stop`. In the source, each abort inside `stopAll` can start a later pending file, which `stopAll` then reaches, stops and aborts in turn; those files end `stopped` too, but with `error` set. The model's result has every file `stopped` with no `error` written.
- Uploadlet.Uploader.Remove: for a file that is not in the list (`at == -1`), the source still calls `stop` on it (src/view-model.js:217). The unlisted file is set to `stopped` and any request it holds is aborted, with the abort's handlers. Such a file exists, for example, after an earlier `remove` of an absent file dropped an uploading last file without stopping it: that file's request keeps running, and a later `remove` of it aborts that request and drops another file. The model has no record for an unlisted file, so it does not stop it and reports `aborted == false`. Its request stays live in the model, and events for it arrive with `at == -1`.
- Uploadlet.Uploader.Remove: inherits the gap of `Stop`. The abort's `uploadAll` can start another pending file before the splice.
- Uploadlet.Uploader.Add: models a push of fresh files only (a name and a size, nothing else). The source's handler runs on whatever object was pushed and keeps its attributes. A re-pushed record that is still `errored` stays errored, which `Validation.ErroredRecordKept` states for `Checked`. A record pushed as `uploading` after the first item raises `uploadingCount` without a dispatch. So the cap that `Add` preserves relies on the pushed items being fresh.
- Uploadlet.Uploader.RemoveAll: iterates over a snapshot of the list, so it empties the list. The source splices the live list inside `forEach`, and the result then depends on can.List iteration semantics that are not part of this model. The source may not empty the list. It also inherits the gaps of `Stop` through `Remove`. In particular, `aborts` counts only the files that are `uploading`, not a second request still in flight on a file whose first request already resolved.
- Uploadlet.Uploader.Remove: the removed record leaves the model with the list, so the stopped record itself is not kept; for a listed file only the abort is reported. The same object listed twice is not modelled, because files are identified by position.
- The allow-list is a `set<string>`. In the source it is a plain object, so inherited keys such as `constructor` would pass the extension check. That quirk is not modelled.
- Configuration values are ints, with 0 standing for an unset `maxFileSize`/`minFileSize` (the source tests them for truthiness; `minFileSize` has no declared default). Non-numeric values are not modelled.
- An `extensions` value that was never set (the source's handler would throw on it) is not modelled: the constructor takes the setting.
- CanJS wiring is not modelled. This covers the reactivity of can.Map/can.Component, the identity `files` setter (src/view-model.js:9-11), the style import and all UI.
