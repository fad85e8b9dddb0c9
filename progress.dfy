/**
 * The batch bookkeeping of the view-model: when the current batch is done,
 * and the overall percentage shown for it. `done` is the batch-completion
 * test the `done` getter evaluates; `progress` rounds the ratio of
 * uploaded bytes to total bytes over the files of one batch.
 */
module Progress {
  import opened FileRecords

  /** A file of `batch` that keeps the batch open: still pending or uploading. */
  predicate Blocks(f: FileRecord, batch: int)
  {
    f.batch == Some(batch) && (f.state == Pending || f.state == Uploading)
  }

  /** The `done` test: false on an empty list, otherwise no file of `batch` is pending or uploading. */
  predicate BatchDone(s: seq<FileRecord>, batch: int)
  {
    |s| > 0 && forall j :: 0 <= j < |s| ==> !Blocks(s[j], batch)
  }

  /** No file is tagged with a batch later than `batch`. */
  predicate BatchesUpTo(s: seq<FileRecord>, batch: int)
  {
    forall j :: 0 <= j < |s| && s[j].batch.Some? ==> s[j].batch.value <= batch
  }

  /**
   * Reading `done` twice in a row on an unchanged non-empty list: the first
   * read advances the batch, and the second read then finds no file in the
   * new batch, so it is true again.
   */
  lemma DoneAgainAfterAdvance(s: seq<FileRecord>, batch: int)
    requires BatchDone(s, batch) && BatchesUpTo(s, batch)
    ensures BatchDone(s, batch + 1)
  {
  }

  /** Total size in bytes of the files of `batch`. */
  function BatchSize(s: seq<FileRecord>, batch: int): nat
  {
    if s == [] then 0
    else (if s[0].batch == Some(batch) then s[0].size else 0) + BatchSize(s[1..], batch)
  }

  /** Total uploaded bytes of the files of `batch`. */
  function BatchProgress(s: seq<FileRecord>, batch: int): int
  {
    if s == [] then 0
    else (if s[0].batch == Some(batch) then s[0].progressSize else 0) + BatchProgress(s[1..], batch)
  }

  /** With every file's uploaded bytes within its size, the batch's uploaded bytes are within the batch's size. */
  lemma {:induction false} BatchProgressBounded(s: seq<FileRecord>, batch: int)
    requires forall j :: 0 <= j < |s| ==> 0 <= s[j].progressSize <= s[j].size
    ensures 0 <= BatchProgress(s, batch) <= BatchSize(s, batch)
  {
    if s != [] {
      BatchProgressBounded(s[1..], batch);
    }
  }

  /** A batch no file belongs to has no bytes. */
  lemma {:induction false} EmptyBatch(s: seq<FileRecord>, batch: int)
    requires forall j :: 0 <= j < |s| ==> s[j].batch != Some(batch)
    ensures BatchSize(s, batch) == 0 && BatchProgress(s, batch) == 0
  {
    if s != [] {
      EmptyBatch(s[1..], batch);
    }
  }

  /** A JavaScript number as far as the percentage needs one. */
  datatype Number = NaN | Infinite(positive: bool) | Finite(value: int)

  /** JavaScript truthiness of a number: NaN and 0 are falsy. */
  predicate TruthyNumber(x: Number)
  {
    x.Infinite? || (x.Finite? && x.value != 0)
  }

  /**
   * `Math.round(p / t * 100)` for a byte count `p` and a non-negative total
   * `t`: the nearest integer to 100p/t, halves rounded up; 0/0 is NaN and
   * p/0 is an infinity of p's sign.
   */
  function RoundedPercent(p: int, t: nat): (r: Number)
    ensures t == 0 ==> (r == NaN <==> p == 0) && (r.Infinite? <==> p != 0)
    ensures t > 0 ==> r.Finite? && 2 * t * r.value <= 200 * p + t < 2 * t * (r.value + 1)
  {
    if t == 0 then (if p == 0 then NaN else Infinite(p > 0))
    else
      var q := (200 * p + t) / (2 * t);
      DivBounds(200 * p + t, 2 * t);
      Finite(q)
  }

  lemma DivBounds(a: int, d: int)
    requires d > 0
    ensures d * (a / d) <= a < d * (a / d + 1)
  {
  }

  /** A rounded percentage of a part of a whole lies between 0 and 100. */
  lemma RoundedPercentInRange(p: int, t: nat)
    requires t > 0 && 0 <= p <= t
    ensures 0 <= RoundedPercent(p, t).value <= 100
    ensures p == t ==> RoundedPercent(p, t).value == 100
    ensures p == 0 ==> RoundedPercent(p, t).value == 0
  {
    var r := RoundedPercent(p, t).value;
    assert 2 * t * r <= 200 * p + t < 2 * t * (r + 1);
    assert 200 * p + t <= 201 * t;
    if r > 100 {
      MulMonotone(2 * t, 101, r);
      assert false;
    }
    if r < 0 {
      MulMonotone(2 * t, r + 1, 0);
      assert false;
    }
    if p == t {
      if r < 100 { MulMonotone(2 * t, r + 1, 100); assert false; }
    }
    if p == 0 {
      if r > 0 { MulMonotone(2 * t, 1, r); assert false; }
    }
  }

  lemma MulMonotone(k: nat, a: int, b: int)
    requires a <= b
    ensures k * a <= k * b
  {
  }

  /**
   * The `progress` value for the files of `batch`, given what `done` read:
   * 100 when done and the rounded ratio is 0 or NaN; otherwise the rounded
   * ratio, with NaN shown as 0.
   */
  function ProgressOf(s: seq<FileRecord>, batch: int, done: bool): Number
  {
    var percentage := RoundedPercent(BatchProgress(s, batch), BatchSize(s, batch));
    if done && !TruthyNumber(percentage) then Finite(100)
    else if percentage == NaN then Finite(0)
    else percentage
  }

  /** With every file's uploaded bytes within its size, `progress` is a percentage in 0..100. */
  lemma ProgressInRange(s: seq<FileRecord>, batch: int, done: bool)
    requires forall j :: 0 <= j < |s| ==> 0 <= s[j].progressSize <= s[j].size
    ensures ProgressOf(s, batch, done).Finite?
    ensures 0 <= ProgressOf(s, batch, done).value <= 100
  {
    BatchProgressBounded(s, batch);
    if BatchSize(s, batch) > 0 {
      RoundedPercentInRange(BatchProgress(s, batch), BatchSize(s, batch));
    }
  }

  /** A fully uploaded batch shows 100; an empty batch shows 100 when done and 0 otherwise. */
  lemma ProgressEnds(s: seq<FileRecord>, batch: int, done: bool)
    requires forall j :: 0 <= j < |s| ==> 0 <= s[j].progressSize <= s[j].size
    ensures BatchSize(s, batch) > 0 && BatchProgress(s, batch) == BatchSize(s, batch) ==>
      ProgressOf(s, batch, done) == Finite(100)
    ensures BatchSize(s, batch) == 0 ==> ProgressOf(s, batch, done) == Finite(if done then 100 else 0)
  {
    BatchProgressBounded(s, batch);
    if BatchSize(s, batch) > 0 {
      RoundedPercentInRange(BatchProgress(s, batch), BatchSize(s, batch));
    }
  }

  /**
   * What the `progress` getter shows once `done` is true: `done` has already
   * advanced the batch, no file belongs to the new batch, and the getter
   * shows 100.
   */
  lemma ProgressAfterDone(s: seq<FileRecord>, batch: int)
    requires BatchDone(s, batch) && BatchesUpTo(s, batch)
    ensures ProgressOf(s, batch + 1, true) == Finite(100)
  {
    EmptyBatch(s, batch + 1);
  }
}
