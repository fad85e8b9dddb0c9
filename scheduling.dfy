/**
 * What one pass of `uploadAll` does to the list, in closed form. The pass
 * visits the files in list order and starts a `pending` file while
 * `maxConcurrent - uploadingCount > 0`, re-reading the count before each
 * file; since every start adds one uploading file, the file at position j
 * is started exactly when it is pending and the files already uploading plus
 * the pending files ahead of it still leave a free slot.
 */
module Scheduling {
  import opened FileRecords

  function Min(a: int, b: int): int { if a <= b then a else b }

  function Max(a: int, b: int): int { if a <= b then b else a }

  /** The number of pending files strictly ahead of position j. */
  function PendingBefore(s: seq<FileRecord>, j: nat): nat
    requires j <= |s|
  {
    CountState(s[..j], Pending)
  }

  /** Whether the pass over `s` with cap `cap` starts the file at position j. */
  predicate StartsAt(s: seq<FileRecord>, cap: int, j: nat)
    requires j < |s|
  {
    s[j].state == Pending && UploadingCount(s) + PendingBefore(s, j) < cap
  }

  /** The list after one `uploadAll` pass over `s` with cap `cap`. */
  function Dispatched(s: seq<FileRecord>, cap: int): seq<FileRecord>
  {
    seq(|s|, j requires 0 <= j < |s| => if StartsAt(s, cap, j) then Started(s[j]) else s[j])
  }

  /** The file at position j after the pass. */
  lemma DispatchedAt(s: seq<FileRecord>, cap: int, j: nat)
    requires j < |s|
    ensures |Dispatched(s, cap)| == |s|
    ensures Dispatched(s, cap)[j] == if StartsAt(s, cap, j) then Started(s[j]) else s[j]
  {
  }

  /**
   * How many files are uploading after the first `i` visits of the pass:
   * the ones already uploading, plus the pending files met so far, up to
   * the free slots.
   */
  function UploadingAfter(s: seq<FileRecord>, cap: int, i: nat): int
    requires i <= |s|
  {
    UploadingCount(s) + Min(PendingBefore(s, i), Max(0, cap - UploadingCount(s)))
  }

  /** Each visit adds one uploading file exactly when it starts the file it visits. */
  lemma UploadingAfterStep(s: seq<FileRecord>, cap: int, i: nat)
    requires i < |s|
    ensures UploadingAfter(s, cap, i + 1) == UploadingAfter(s, cap, i) + (if StartsAt(s, cap, i) then 1 else 0)
  {
    var p, m := PendingBefore(s, i), Max(0, cap - UploadingCount(s));
    CountPrefixStep(s, i, Pending);
    assert PendingBefore(s, i + 1) == p + (if s[i].state == Pending then 1 else 0);
    if StartsAt(s, cap, i) {
      assert Min(p, m) == p && Min(p + 1, m) == p + 1;
    } else {
      assert s[i].state == Pending ==> Min(p, m) == m == Min(p + 1, m);
    }
  }

  /** A slot is free at visit i exactly when the closed form says the file there may start. */
  lemma SlotFreeAt(s: seq<FileRecord>, cap: int, i: nat)
    requires i <= |s|
    ensures UploadingAfter(s, cap, i) < cap <==> UploadingCount(s) + PendingBefore(s, i) < cap
  {
  }

  /** The uploading count of the first i files of the pass's result. */
  lemma {:induction false} DispatchedPrefixCount(s: seq<FileRecord>, cap: int, i: nat)
    requires i <= |s|
    ensures CountState(Dispatched(s, cap)[..i], Uploading)
         == CountState(s[..i], Uploading) + Min(PendingBefore(s, i), Max(0, cap - UploadingCount(s)))
  {
    if i > 0 {
      var r, k := Dispatched(s, cap), i - 1;
      DispatchedPrefixCount(s, cap, k);
      CountPrefixStep(r, k, Uploading);
      CountPrefixStep(s, k, Uploading);
      UploadingAfterStep(s, cap, k);
      DispatchedAt(s, cap, k);
    }
  }

  /**
   * After the pass, the uploading count is the old one plus as many pending
   * files as there were free slots.
   */
  lemma DispatchedCount(s: seq<FileRecord>, cap: int)
    ensures UploadingCount(Dispatched(s, cap))
         == UploadingCount(s) + Min(CountState(s, Pending), Max(0, cap - UploadingCount(s)))
  {
    DispatchedPrefixCount(s, cap, |s|);
    assert Dispatched(s, cap)[..|s|] == Dispatched(s, cap);
    assert s[..|s|] == s;
  }

  /** The concurrency cap: a pass never pushes the uploading count above `cap`, nor raises it when already above. */
  lemma DispatchedKeepsCap(s: seq<FileRecord>, cap: int)
    ensures UploadingCount(s) <= cap ==> UploadingCount(Dispatched(s, cap)) <= cap
    ensures UploadingCount(s) >= cap ==> Dispatched(s, cap) == s
  {
    DispatchedCount(s, cap);
  }

  /** A pass changes nothing but the pending files it starts; length and order are kept. */
  lemma DispatchedChanges(s: seq<FileRecord>, cap: int)
    ensures |Dispatched(s, cap)| == |s|
    ensures forall j :: 0 <= j < |s| ==>
      Dispatched(s, cap)[j] == s[j] || (s[j].state == Pending && Dispatched(s, cap)[j] == Started(s[j]))
  {
  }

  /** Files are started in list order: a pending file ahead of a started one is started too. */
  lemma DispatchedInOrder(s: seq<FileRecord>, cap: int, j: nat, k: nat)
    requires j < k < |s|
    requires s[j].state == Pending && StartsAt(s, cap, k)
    ensures StartsAt(s, cap, j)
  {
    CountPrefixMonotone(s, j, k, Pending);
  }

  /** The pass fills the free slots: a file still pending afterwards means the cap is reached. */
  lemma DispatchedFillsCap(s: seq<FileRecord>, cap: int, j: nat)
    requires j < |s| && Dispatched(s, cap)[j].state == Pending
    ensures UploadingCount(Dispatched(s, cap)) >= cap
  {
    DispatchedCount(s, cap);
    CountPrefixMonotone(s, j, |s|, Pending);
    CountPrefixStep(s, j, Pending);
    CountPrefixMonotone(s, j + 1, |s|, Pending);
    assert s[..|s|] == s;
  }

  /** A second pass straight after the first starts nothing. */
  lemma DispatchedIdempotent(s: seq<FileRecord>, cap: int)
    ensures Dispatched(Dispatched(s, cap), cap) == Dispatched(s, cap)
  {
    var r := Dispatched(s, cap);
    if j :| 0 <= j < |r| && r[j].state == Pending {
      DispatchedFillsCap(s, cap, j);
    }
    DispatchedKeepsCap(r, cap);
  }
}
