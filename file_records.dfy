/**
 * The file record of the uploader: one per file pushed into the `files`
 * list, mutated in place by the view-model and by the transport callbacks.
 * This module holds the record, the record-level transitions the
 * view-model applies (start an upload, stop it) and the pure folds the
 * view-model's getters compute over the list (`uploadingCount`, `errored`).
 */
module FileRecords {

  datatype Option<+T> = None | Some(value: T)

  /** `New` is a file that has not been through the add handler yet (no `state` attribute). */
  datatype FileState = New | Pending | Uploading | Uploaded | Errored | Stopped

  /** The browser's file handle as it is pushed into the list: a name and a size in bytes. */
  datatype Blob = Blob(name: string, size: nat)

  /**
   * One file's upload record. `transportError` is the `error` attribute the
   * transport's failure handler stores; `hasXhr` says the record owns an
   * in-flight request that `stop` would abort.
   */
  datatype FileRecord = FileRecord(
    name: string,
    size: nat,
    state: FileState,
    batch: Option<int>,
    progressPercent: int,
    progressSize: int,
    errorMessage: Option<string>,
    transportError: Option<string>,
    hasXhr: bool)

  /** The record of a file just pushed into the list. */
  function NewRecord(b: Blob): (f: FileRecord)
    ensures f.name == b.name && f.size == b.size && f.state == New
    ensures f.batch == None && f.errorMessage == None && f.transportError == None && !f.hasXhr
    ensures f.progressPercent == 0 && f.progressSize == 0
  {
    FileRecord(b.name, b.size, New, None, 0, 0, None, None, false)
  }

  /** The records of files just pushed into the list, in order. */
  function NewRecords(bs: seq<Blob>): (r: seq<FileRecord>)
    ensures |r| == |bs|
    ensures forall j :: 0 <= j < |bs| ==> r[j] == NewRecord(bs[j])
  {
    if bs == [] then [] else [NewRecord(bs[0])] + NewRecords(bs[1..])
  }

  /** Progress fields in range and the request handle owned exactly while uploading. */
  ghost predicate WellFormed(f: FileRecord)
  {
    && 0 <= f.progressPercent <= 100
    && 0 <= f.progressSize <= f.size
    && (f.hasXhr <==> f.state == Uploading)
  }

  /** `resetProgress`: both progress fields back to zero, nothing else touched. */
  function ResetProgress(f: FileRecord): (g: FileRecord)
    ensures g.progressPercent == 0 && g.progressSize == 0
    ensures g.(progressPercent := f.progressPercent, progressSize := f.progressSize) == f
  {
    f.(progressPercent := 0, progressSize := 0)
  }

  /** What `upload` does to a record: `uploading`, progress reset, a fresh request handle. */
  function Started(f: FileRecord): (g: FileRecord)
    ensures g.state == Uploading && g.hasXhr
    ensures g.progressPercent == 0 && g.progressSize == 0
    ensures g.name == f.name && g.size == f.size && g.batch == f.batch
    ensures g.errorMessage == f.errorMessage && g.transportError == f.transportError
    ensures WellFormed(g)
  {
    ResetProgress(f.(state := Uploading, hasXhr := true))
  }

  /** What `stop` does to a record: request aborted, `stopped`, progress reset. */
  function StopRecord(f: FileRecord): (g: FileRecord)
    ensures g.state == Stopped && !g.hasXhr
    ensures g.progressPercent == 0 && g.progressSize == 0
    ensures g.name == f.name && g.size == f.size && g.batch == f.batch
    ensures g.errorMessage == f.errorMessage && g.transportError == f.transportError
    ensures WellFormed(g)
  {
    ResetProgress(f.(state := Stopped, hasXhr := false))
  }

  /** Stopping twice leaves the record that stopping once left, whatever the prior state. */
  lemma StopIdempotent(f: FileRecord)
    ensures StopRecord(StopRecord(f)) == StopRecord(f)
  {
  }

  /** The number of records in `s` whose state is `st`. */
  function CountState(s: seq<FileRecord>, st: FileState): (n: nat)
    ensures n <= |s|
  {
    if s == [] then 0
    else (if s[0].state == st then 1 else 0) + CountState(s[1..], st)
  }

  /** `uploadingCount`: the number of files whose state is `uploading`. */
  function UploadingCount(s: seq<FileRecord>): nat
  {
    CountState(s, Uploading)
  }

  /** The states of the records, in list order. */
  function States(s: seq<FileRecord>): (r: seq<FileState>)
    ensures |r| == |s| && forall j :: 0 <= j < |s| ==> r[j] == s[j].state
  {
    if s == [] then [] else [s[0].state] + States(s[1..])
  }

  /** A count is the number of times the state occurs among the records' states. */
  lemma {:induction false} CountIsMultiplicity(s: seq<FileRecord>, st: FileState)
    ensures CountState(s, st) == multiset(States(s))[st]
  {
    if s != [] {
      CountIsMultiplicity(s[1..], st);
      assert States(s) == [s[0].state] + States(s[1..]);
    }
  }

  /** A count is zero exactly when no record has the state, and full exactly when all have it. */
  lemma {:induction false} CountExtremes(s: seq<FileRecord>, st: FileState)
    ensures CountState(s, st) == 0 <==> forall j :: 0 <= j < |s| ==> s[j].state != st
    ensures CountState(s, st) == |s| <==> forall j :: 0 <= j < |s| ==> s[j].state == st
  {
    if s != [] {
      CountExtremes(s[1..], st);
      assert forall j :: 1 <= j < |s| ==> s[j] == s[1..][j - 1];
    }
  }

  lemma {:induction false} CountAppend(s: seq<FileRecord>, t: seq<FileRecord>, st: FileState)
    ensures CountState(s + t, st) == CountState(s, st) + CountState(t, st)
  {
    if s == [] {
      assert s + t == t;
    } else {
      assert (s + t)[1..] == s[1..] + t;
      CountAppend(s[1..], t, st);
    }
  }

  /** Counting a one-step-longer prefix adds the new element's share. */
  lemma CountPrefixStep(s: seq<FileRecord>, i: nat, st: FileState)
    requires i < |s|
    ensures CountState(s[..i+1], st) == CountState(s[..i], st) + (if s[i].state == st then 1 else 0)
  {
    assert s[..i+1] == s[..i] + [s[i]];
    CountAppend(s[..i], [s[i]], st);
  }

  /** Prefix counts grow with the prefix. */
  lemma {:induction false} CountPrefixMonotone(s: seq<FileRecord>, i: nat, j: nat, st: FileState)
    requires i <= j <= |s|
    ensures CountState(s[..i], st) <= CountState(s[..j], st)
    decreases j - i
  {
    if i < j {
      CountPrefixMonotone(s, i, j - 1, st);
      CountPrefixStep(s, j - 1, st);
    }
  }

  /** Replacing one record changes a count by that record's contribution only. */
  lemma CountUpdate(s: seq<FileRecord>, i: nat, x: FileRecord, st: FileState)
    requires i < |s|
    ensures CountState(s[i := x], st)
         == CountState(s, st) - (if s[i].state == st then 1 else 0) + (if x.state == st then 1 else 0)
  {
    assert s == s[..i] + [s[i]] + s[i+1..];
    assert s[i := x] == s[..i] + [x] + s[i+1..];
    CountAppend(s[..i] + [s[i]], s[i+1..], st);
    CountAppend(s[..i], [s[i]], st);
    CountAppend(s[..i] + [x], s[i+1..], st);
    CountAppend(s[..i], [x], st);
  }

  /** Removing one record removes its contribution to a count. */
  lemma CountRemove(s: seq<FileRecord>, i: nat, st: FileState)
    requires i < |s|
    ensures CountState(s[..i] + s[i+1..], st) == CountState(s, st) - (if s[i].state == st then 1 else 0)
  {
    assert s == s[..i] + [s[i]] + s[i+1..];
    CountAppend(s[..i] + [s[i]], s[i+1..], st);
    CountAppend(s[..i], [s[i]], st);
    CountAppend(s[..i], s[i+1..], st);
  }

  /** A JavaScript truthiness test on an optional string attribute. */
  predicate Truthy(m: Option<string>)
  {
    m.Some? && m.value != ""
  }

  /**
   * `errored`: the error messages of the files that carry a non-empty
   * `errorMessage`, in list order.
   */
  function ErroredMessages(s: seq<FileRecord>): (r: seq<string>)
    ensures |r| <= |s|
    ensures forall k :: 0 <= k < |r| ==> r[k] != ""
    ensures forall k :: 0 <= k < |r| ==> exists j :: 0 <= j < |s| && s[j].errorMessage == Some(r[k])
    ensures forall j :: 0 <= j < |s| && Truthy(s[j].errorMessage) ==> s[j].errorMessage.value in r
  {
    if s == [] then []
    else
      var rest := ErroredMessages(s[1..]);
      assert forall k :: 0 <= k < |rest| ==> exists j :: 0 <= j < |s| && s[j].errorMessage == Some(rest[k]) by {
        forall k | 0 <= k < |rest|
          ensures exists j :: 0 <= j < |s| && s[j].errorMessage == Some(rest[k])
        {
          var j :| 0 <= j < |s[1..]| && s[1..][j].errorMessage == Some(rest[k]);
          assert s[j + 1].errorMessage == Some(rest[k]);
        }
      }
      if Truthy(s[0].errorMessage) then [s[0].errorMessage.value] + rest else rest
  }

  /**
   * `errored` over two lists joined is the two `errored` lists joined: with
   * the one-file case of the definition, this fixes the result as the
   * non-empty messages in list order, each once per file that carries it.
   */
  lemma {:induction false} ErroredAppend(s: seq<FileRecord>, t: seq<FileRecord>)
    ensures ErroredMessages(s + t) == ErroredMessages(s) + ErroredMessages(t)
  {
    if s == [] {
      assert s + t == t;
    } else {
      assert (s + t)[1..] == s[1..] + t;
      ErroredAppend(s[1..], t);
    }
  }

  /** The one-file case: a file contributes its message exactly when the message is non-empty. */
  lemma ErroredOne(f: FileRecord)
    ensures ErroredMessages([f]) == if Truthy(f.errorMessage) then [f.errorMessage.value] else []
  {
    assert [f][1..] == [];
  }

  /** The number of files whose `errorMessage` is a non-empty string. */
  function CountTruthy(s: seq<FileRecord>): nat
  {
    if s == [] then 0 else (if Truthy(s[0].errorMessage) then 1 else 0) + CountTruthy(s[1..])
  }

  /** `errored` lists exactly one message per file that carries a non-empty one. */
  lemma {:induction false} ErroredCount(s: seq<FileRecord>)
    ensures |ErroredMessages(s)| == CountTruthy(s)
  {
    if s != [] {
      ErroredCount(s[1..]);
    }
  }

  /** `errored` reads nothing but the `errorMessage` attributes. */
  lemma {:induction false} ErroredOnlyReadsMessages(s: seq<FileRecord>, i: nat, x: FileRecord)
    requires i < |s| && x.errorMessage == s[i].errorMessage
    ensures ErroredMessages(s[i := x]) == ErroredMessages(s)
  {
    if i > 0 {
      assert s[i := x][1..] == s[1..][i - 1 := x];
      ErroredOnlyReadsMessages(s[1..], i - 1, x);
    }
  }
}
