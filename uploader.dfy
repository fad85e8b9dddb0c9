/**
 * The uploader's view-model as one object: the file list and the batch
 * counter it updates in place, the configuration it reads, the operations
 * the component exposes (add, upload, uploadAll, stop, stopAll, remove,
 * removeAll, the `done` and `progress` getters) and the three transport
 * outcomes (progress, success, failure) that arrive as events. Files are
 * addressed by their position in the list.
 */
module Uploadlet {
  import opened FileRecords
  import opened Extensions
  import opened Validation
  import opened Scheduling
  import opened Progress

  /** What the transport's progress handler leaves on a record: both fields from one integer percent. */
  function Progressed(f: FileRecord, percent: int): (g: FileRecord)
    requires 0 <= percent <= 100
    ensures g.progressPercent == percent && 0 <= g.progressSize <= f.size
    ensures 100 * g.progressSize <= percent * f.size < 100 * (g.progressSize + 1)
    ensures g.(progressPercent := f.progressPercent, progressSize := f.progressSize) == f
  {
    MulMonotone(f.size, percent, 100);
    DivBounds(percent * f.size, 100);
    f.(progressPercent := percent, progressSize := percent * f.size / 100)
  }

  /** What the transport's success handler leaves: `uploaded`, the request finished. */
  function Succeeded(f: FileRecord): (g: FileRecord)
    ensures g.state == Uploaded && !g.hasXhr
    ensures g.(state := f.state, hasXhr := f.hasXhr) == f
  {
    f.(state := Uploaded, hasXhr := false)
  }

  /**
   * What the transport's failure handler leaves: `errored` with the error
   * stored as `error`, not as `errorMessage`, whatever the state was before
   * (a stopped file included).
   */
  function Failed(f: FileRecord, error: string): (g: FileRecord)
    ensures g.state == Errored && g.transportError == Some(error) && !g.hasXhr
    ensures g.errorMessage == f.errorMessage
    ensures g.(state := f.state, transportError := f.transportError, hasXhr := f.hasXhr) == f
  {
    f.(state := Errored, transportError := Some(error), hasXhr := false)
  }

  /** Two lists whose files carry the same messages list the same `errored` messages. */
  lemma {:induction false} ErroredSameMessages(s: seq<FileRecord>, t: seq<FileRecord>)
    requires |s| == |t| && forall j :: 0 <= j < |s| ==> s[j].errorMessage == t[j].errorMessage
    ensures ErroredMessages(s) == ErroredMessages(t)
  {
    if s != [] {
      ErroredSameMessages(s[1..], t[1..]);
    }
  }

  /** A transport failure never shows in `errored`: it leaves every `errorMessage` as it was. */
  lemma FailureNotListed(s: seq<FileRecord>, i: nat, error: string)
    requires i < |s|
    ensures ErroredMessages(s[i := Failed(s[i], error)]) == ErroredMessages(s)
  {
    ErroredSameMessages(s[i := Failed(s[i], error)], s);
  }

  /**
   * The failure handler does not look at the state: a request that fails
   * after its file was stopped turns the stopped file into an errored one.
   * `stop` only aborts the request the file currently holds, so this is
   * the case of a file `upload` was called on twice, whose first request
   * lost its handle when the second one was attached.
   */
  lemma LateFailureAfterStop(f: FileRecord, error: string)
    ensures Failed(StopRecord(f), error).state == Errored
    ensures Failed(StopRecord(f), error).progressPercent == 0
  {
  }

  /**
   * Pushing a checked file and unchecked new files keeps every record well
   * formed, keeps batches up to the current one and adds no uploading file.
   */
  lemma PushKeepsInvariants(s: seq<FileRecord>, c: FileRecord, bs: seq<Blob>, batch: int)
    requires forall j :: 0 <= j < |s| ==> WellFormed(s[j])
    requires BatchesUpTo(s, batch)
    requires WellFormed(c) && c.state != Uploading && (c.batch.Some? ==> c.batch.value <= batch)
    ensures var t := s + [c] + NewRecords(bs);
      && (forall j :: 0 <= j < |t| ==> WellFormed(t[j]))
      && BatchesUpTo(t, batch)
      && UploadingCount(t) == UploadingCount(s)
  {
    var rest := NewRecords(bs);
    var t := s + [c] + rest;
    assert forall j :: |s| < j < |t| ==> t[j] == rest[j - |s| - 1];
    CountAppend(s + [c], rest, Uploading);
    CountAppend(s, [c], Uploading);
    CountExtremes(rest, Uploading);
  }

  class Uploader {
    var files: seq<FileRecord>
    var currentBatch: int
    var maxConcurrent: int
    var autoUpload: bool
    var extensions: set<string>
    /** 0 stands for an unset limit, as the handler tests the limits for truthiness. */
    var maxFileSize: int
    var minFileSize: int

    /** Every record well formed, and no record tagged with a batch after the current one. */
    ghost predicate Valid()
      reads this
    {
      && (forall j :: 0 <= j < |files| ==> WellFormed(files[j]))
      && BatchesUpTo(files, currentBatch)
    }

    /** The concurrency cap holds. */
    ghost predicate WithinCap()
      reads this
    {
      UploadingCount(files) <= maxConcurrent
    }

    /** A view-model with the default configuration and the given `extensions` string. */
    constructor (extensionList: string)
      ensures Valid() && WithinCap()
      ensures files == [] && currentBatch == 0
      ensures maxConcurrent == 3 && autoUpload && maxFileSize == 0 && minFileSize == 0
      ensures extensions == ParseExtensions(extensionList)
    {
      files := [];
      currentBatch := 0;
      maxConcurrent := 3;
      autoUpload := true;
      extensions := ParseExtensions(extensionList);
      maxFileSize := 0;
      minFileSize := 0;
    }

    /** The `extensions` setter. */
    method SetExtensions(value: string)
      modifies this
      ensures extensions == ParseExtensions(value)
      ensures files == old(files) && currentBatch == old(currentBatch) && maxConcurrent == old(maxConcurrent)
      ensures autoUpload == old(autoUpload) && maxFileSize == old(maxFileSize) && minFileSize == old(minFileSize)
    {
      extensions := ParseExtensions(value);
    }

    /**
     * The `done` getter: true exactly when the list is non-empty and no file
     * of the current batch is pending or uploading; reading it true advances
     * the batch by one.
     */
    method Done() returns (done: bool)
      requires Valid()
      modifies this
      ensures Valid()
      ensures done == BatchDone(old(files), old(currentBatch))
      ensures currentBatch == if done then old(currentBatch) + 1 else old(currentBatch)
      ensures files == old(files) && maxConcurrent == old(maxConcurrent) && autoUpload == old(autoUpload)
      ensures extensions == old(extensions) && maxFileSize == old(maxFileSize) && minFileSize == old(minFileSize)
    {
      done := true;
      if |files| > 0 {
        var i := 0;
        while i < |files|
          invariant 0 <= i <= |files|
          invariant done <==> forall j :: 0 <= j < i ==> !Blocks(files[j], currentBatch)
        {
          var f := files[i];
          if f.batch == Some(currentBatch) && (f.state == Pending || f.state == Uploading) {
            done := false;
          }
          i := i + 1;
        }
      } else {
        done := false;
      }
      if done {
        currentBatch := currentBatch + 1;
      }
    }

    /**
     * The `progress` getter: reads `done` first, then sums sizes and
     * uploaded bytes over the files of the (possibly advanced) current batch.
     */
    method GetProgress() returns (percentage: int)
      requires Valid()
      modifies this
      ensures Valid()
      ensures 0 <= percentage <= 100
      ensures var done := BatchDone(old(files), old(currentBatch));
        && Finite(percentage) == ProgressOf(files, currentBatch, done)
        && (done ==> percentage == 100)
      ensures currentBatch == if BatchDone(old(files), old(currentBatch)) then old(currentBatch) + 1 else old(currentBatch)
      ensures files == old(files) && maxConcurrent == old(maxConcurrent) && autoUpload == old(autoUpload)
      ensures extensions == old(extensions) && maxFileSize == old(maxFileSize) && minFileSize == old(minFileSize)
    {
      var done := Done();
      ProgressInRange(files, currentBatch, done);
      if done {
        ProgressAfterDone(files, currentBatch - 1);
      }
      var p := ProgressOf(files, currentBatch, done);
      percentage := p.value;
    }

    /** `upload`: the file becomes `uploading` with its progress reset, and its request is created. */
    method Upload(i: nat)
      requires Valid() && i < |files|
      modifies this
      ensures Valid()
      ensures files == old(files)[i := Started(old(files)[i])]
      ensures currentBatch == old(currentBatch) && maxConcurrent == old(maxConcurrent) && autoUpload == old(autoUpload)
      ensures extensions == old(extensions) && maxFileSize == old(maxFileSize) && minFileSize == old(minFileSize)
    {
      files := files[i := Started(files[i])];
    }

    /**
     * The `uploadingCount` getter: how many files are `uploading`, that is
     * the multiplicity of `uploading` among the files' states; 0 exactly
     * when no file is uploading.
     */
    method GetUploadingCount() returns (n: nat)
      ensures n == multiset(States(files))[Uploading]
      ensures n == 0 <==> forall j :: 0 <= j < |files| ==> files[j].state != Uploading
      ensures n <= |files|
    {
      n := UploadingCount(files);
      CountIsMultiplicity(files, Uploading);
      CountExtremes(files, Uploading);
    }

    /** `resetProgress`: both progress fields of the file back to zero, nothing else changed. */
    method ResetProgress(i: nat)
      requires Valid() && i < |files|
      modifies this
      ensures Valid()
      ensures files == old(files)[i := FileRecords.ResetProgress(old(files)[i])]
      ensures old(WithinCap()) ==> WithinCap()
      ensures currentBatch == old(currentBatch) && maxConcurrent == old(maxConcurrent) && autoUpload == old(autoUpload)
      ensures extensions == old(extensions) && maxFileSize == old(maxFileSize) && minFileSize == old(minFileSize)
    {
      CountUpdate(files, i, FileRecords.ResetProgress(files[i]), Uploading);
      files := files[i := FileRecords.ResetProgress(files[i])];
    }

    /**
     * `uploadAll`: visits the files in order and starts each pending one
     * while `maxConcurrent - uploadingCount > 0`, re-reading the count before
     * every file.
     */
    method UploadAll()
      requires Valid()
      modifies this
      ensures Valid()
      ensures files == Dispatched(old(files), old(maxConcurrent))
      ensures old(WithinCap()) ==> WithinCap()
      ensures currentBatch == old(currentBatch) && maxConcurrent == old(maxConcurrent) && autoUpload == old(autoUpload)
      ensures extensions == old(extensions) && maxFileSize == old(maxFileSize) && minFileSize == old(minFileSize)
    {
      ghost var s, cap := files, maxConcurrent;
      DispatchedKeepsCap(s, cap);
      var canUpload := maxConcurrent - UploadingCount(files) > 0;
      if canUpload {
        var i := 0;
        while i < |files|
          invariant 0 <= i <= |files| == |s|
          invariant forall j :: 0 <= j < i ==> files[j] == Dispatched(s, cap)[j]
          invariant forall j :: i <= j < |files| ==> files[j] == s[j]
          invariant UploadingCount(files) == UploadingAfter(s, cap, i)
          invariant Valid()
          invariant maxConcurrent == cap && currentBatch == old(currentBatch) && autoUpload == old(autoUpload)
          invariant extensions == old(extensions) && maxFileSize == old(maxFileSize) && minFileSize == old(minFileSize)
        {
          var f := files[i];
          canUpload := maxConcurrent - UploadingCount(files) > 0;
          SlotFreeAt(s, cap, i);
          CountPrefixStep(s, i, Pending);
          DispatchedAt(s, cap, i);
          UploadingAfterStep(s, cap, i);
          assert f == s[i];
          assert canUpload == (UploadingCount(s) + PendingBefore(s, i) < cap);
          ghost var prev := files;
          if f.state == Pending && canUpload {
            CountUpdate(files, i, Started(f), Uploading);
            Upload(i);
          }
          assert files[i] == Dispatched(s, cap)[i];
          assert forall j :: 0 <= j < |files| && j != i ==> files[j] == prev[j];
          i := i + 1;
        }
      }
    }

    /** `stop`: aborts the request if there is one, then the file is `stopped` with its progress reset. */
    method Stop(i: nat) returns (aborted: bool)
      requires Valid() && i < |files|
      modifies this
      ensures Valid()
      ensures aborted == old(files[i].hasXhr)
      ensures files == old(files)[i := StopRecord(old(files)[i])]
      ensures old(WithinCap()) ==> WithinCap()
      ensures currentBatch == old(currentBatch) && maxConcurrent == old(maxConcurrent) && autoUpload == old(autoUpload)
      ensures extensions == old(extensions) && maxFileSize == old(maxFileSize) && minFileSize == old(minFileSize)
    {
      aborted := files[i].hasXhr;
      CountUpdate(files, i, StopRecord(files[i]), Uploading);
      files := files[i := StopRecord(files[i])];
    }

    /** `stopAll`: `stop` on every file, in order; nothing is left uploading. */
    method StopAll()
      requires Valid()
      modifies this
      ensures Valid()
      ensures |files| == |old(files)|
      ensures forall j :: 0 <= j < |files| ==> files[j] == StopRecord(old(files)[j])
      ensures UploadingCount(files) == 0
      ensures currentBatch == old(currentBatch) && maxConcurrent == old(maxConcurrent) && autoUpload == old(autoUpload)
      ensures extensions == old(extensions) && maxFileSize == old(maxFileSize) && minFileSize == old(minFileSize)
    {
      var i := 0;
      while i < |files|
        invariant 0 <= i <= |files| == |old(files)|
        invariant forall j :: 0 <= j < i ==> files[j] == StopRecord(old(files)[j])
        invariant forall j :: i <= j < |files| ==> files[j] == old(files)[j]
        invariant Valid()
        invariant currentBatch == old(currentBatch) && maxConcurrent == old(maxConcurrent) && autoUpload == old(autoUpload)
        invariant extensions == old(extensions) && maxFileSize == old(maxFileSize) && minFileSize == old(minFileSize)
      {
        var _ := Stop(i);
        i := i + 1;
      }
      CountExtremes(files, Uploading);
    }

    /**
     * `remove`: `at` is the file's position as `indexOf` finds it, -1 when
     * the file is not in the list. A listed file is stopped and spliced out;
     * for an absent file, `splice(-1, 1)` drops the LAST file of the list.
     */
    method Remove(at: int) returns (aborted: bool)
      requires Valid() && -1 <= at < |files|
      modifies this
      ensures Valid()
      ensures aborted == (at >= 0 && old(files[at].hasXhr))
      ensures at >= 0 ==> files == old(files)[..at] + old(files)[at + 1..]
      ensures at < 0 && |old(files)| > 0 ==> files == old(files)[..|old(files)| - 1]
      ensures at < 0 && |old(files)| == 0 ==> files == []
      ensures old(WithinCap()) ==> WithinCap()
      ensures currentBatch == old(currentBatch) && maxConcurrent == old(maxConcurrent) && autoUpload == old(autoUpload)
      ensures extensions == old(extensions) && maxFileSize == old(maxFileSize) && minFileSize == old(minFileSize)
    {
      aborted := false;
      if at >= 0 {
        aborted := Stop(at);
        CountRemove(files, at, Uploading);
        files := files[..at] + files[at + 1..];
      } else if |files| > 0 {
        CountRemove(files, |files| - 1, Uploading);
        assert files[..|files| - 1] + files[|files|..] == files[..|files| - 1];
        files := files[..|files| - 1];
      }
    }

    /**
     * `removeAll`, visiting a snapshot of the list: each file in turn is at
     * the head of what is left, is stopped and spliced out. `aborts` counts
     * the requests aborted on the way: one per file that was uploading.
     */
    method RemoveAll() returns (aborts: nat)
      requires Valid()
      modifies this
      ensures Valid() && files == []
      ensures aborts == UploadingCount(old(files))
      ensures currentBatch == old(currentBatch) && maxConcurrent == old(maxConcurrent) && autoUpload == old(autoUpload)
      ensures extensions == old(extensions) && maxFileSize == old(maxFileSize) && minFileSize == old(minFileSize)
    {
      ghost var s := files;
      var n := |files|;
      var k := 0;
      aborts := 0;
      while k < n
        invariant 0 <= k <= n == |s|
        invariant files == s[k..]
        invariant aborts == CountState(s[..k], Uploading)
        invariant Valid()
        invariant currentBatch == old(currentBatch) && maxConcurrent == old(maxConcurrent) && autoUpload == old(autoUpload)
        invariant extensions == old(extensions) && maxFileSize == old(maxFileSize) && minFileSize == old(minFileSize)
      {
        assert files[0] == s[k];
        var aborted := Remove(0);
        CountPrefixStep(s, k, Uploading);
        if aborted {
          aborts := aborts + 1;
        }
        assert files == s[k + 1..];
        k := k + 1;
      }
      assert s[..n] == s;
    }

    /**
     * The `add` handler: `added` is pushed onto the list, and only its first
     * file is checked, against the batch and the configuration read on
     * entry; with `autoUpload` set, `uploadAll` runs afterwards whatever the
     * checks decided.
     */
    method Add(added: seq<Blob>)
      requires Valid() && |added| > 0
      modifies this
      ensures Valid()
      ensures var pushed := old(files) + [Checked(NewRecord(added[0]), old(currentBatch), old(extensions), old(maxFileSize), old(minFileSize))]
                          + NewRecords(added[1..]);
        files == if old(autoUpload) then Dispatched(pushed, old(maxConcurrent)) else pushed
      ensures old(WithinCap()) ==> WithinCap()
      ensures currentBatch == old(currentBatch) && maxConcurrent == old(maxConcurrent) && autoUpload == old(autoUpload)
      ensures extensions == old(extensions) && maxFileSize == old(maxFileSize) && minFileSize == old(minFileSize)
    {
      var k := |files|;
      var rest := NewRecords(added[1..]);
      files := files + [NewRecord(added[0])] + rest;
      var batch, auto := currentBatch, autoUpload;
      var checked := Validate(files[k], batch, extensions, maxFileSize, minFileSize);
      CheckedOutcome(added[0], batch, extensions, maxFileSize, minFileSize);
      PushKeepsInvariants(old(files), checked, added[1..], batch);
      assert files[k := checked] == old(files) + [checked] + rest;
      files := files[k := checked];
      if auto {
        UploadAll();
      }
    }

    /** The transport reports progress on a file: both progress fields set from one integer percent. */
    method OnProgress(i: nat, percent: int)
      requires Valid() && i < |files| && 0 <= percent <= 100
      modifies this
      ensures Valid()
      ensures files == old(files)[i := Progressed(old(files)[i], percent)]
      ensures old(WithinCap()) ==> WithinCap()
      ensures currentBatch == old(currentBatch) && maxConcurrent == old(maxConcurrent) && autoUpload == old(autoUpload)
      ensures extensions == old(extensions) && maxFileSize == old(maxFileSize) && minFileSize == old(minFileSize)
    {
      CountUpdate(files, i, Progressed(files[i], percent), Uploading);
      files := files[i := Progressed(files[i], percent)];
    }

    /**
     * The transport resolves a file's request successfully: the file (at
     * `at`, or -1 when it has been removed meanwhile) becomes `uploaded`,
     * then, when the upload was started with `keepGoing`, `uploadAll` runs.
     */
    method OnSuccess(at: int, keepGoing: bool)
      requires Valid() && -1 <= at < |files|
      modifies this
      ensures Valid()
      ensures var resolved := if at >= 0 then old(files)[at := Succeeded(old(files)[at])] else old(files);
        files == if keepGoing then Dispatched(resolved, old(maxConcurrent)) else resolved
      ensures old(WithinCap()) ==> WithinCap()
      ensures currentBatch == old(currentBatch) && maxConcurrent == old(maxConcurrent) && autoUpload == old(autoUpload)
      ensures extensions == old(extensions) && maxFileSize == old(maxFileSize) && minFileSize == old(minFileSize)
    {
      if at >= 0 {
        CountUpdate(files, at, Succeeded(files[at]), Uploading);
        files := files[at := Succeeded(files[at])];
      }
      if keepGoing {
        UploadAll();
      }
    }

    /**
     * The transport resolves a file's request with an error: the file (at
     * `at`, or -1 when it has been removed meanwhile) becomes `errored`
     * whatever its state, then, when the upload was started with
     * `keepGoing`, `uploadAll` runs. The `errored` list does not change.
     */
    method OnFailure(at: int, error: string, keepGoing: bool)
      requires Valid() && -1 <= at < |files|
      modifies this
      ensures Valid()
      ensures var resolved := if at >= 0 then old(files)[at := Failed(old(files)[at], error)] else old(files);
        files == if keepGoing then Dispatched(resolved, old(maxConcurrent)) else resolved
      ensures ErroredMessages(files) == ErroredMessages(old(files))
      ensures old(WithinCap()) ==> WithinCap()
      ensures currentBatch == old(currentBatch) && maxConcurrent == old(maxConcurrent) && autoUpload == old(autoUpload)
      ensures extensions == old(extensions) && maxFileSize == old(maxFileSize) && minFileSize == old(minFileSize)
    {
      if at >= 0 {
        CountUpdate(files, at, Failed(files[at], error), Uploading);
        FailureNotListed(files, at, error);
        files := files[at := Failed(files[at], error)];
      }
      if keepGoing {
        ghost var resolved := files;
        UploadAll();
        DispatchedChanges(resolved, maxConcurrent);
        ErroredSameMessages(files, resolved);
      }
    }
  }
}
