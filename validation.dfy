/**
 * The checks the component's `add` handler runs on a newly added file:
 * extension allow-list, then maximum size, then minimum size. Each failing
 * check overwrites the state and the message, so the last failing check's
 * message is the one kept. A file that passes is queued in the current batch.
 */
module Validation {
  import opened FileRecords
  import opened Extensions

  function DigitChar(d: nat): (c: char)
    requires d < 10
    ensures '0' <= c <= '9'
  {
    "0123456789"[d]
  }

  /** The decimal text of a natural number, as JavaScript prints it. */
  function NatToString(n: nat): (r: string)
    ensures |r| > 0
    ensures forall k :: 0 <= k < |r| ==> '0' <= r[k] <= '9'
  {
    if n < 10 then [DigitChar(n)] else NatToString(n / 10) + [DigitChar(n % 10)]
  }

  /** The decimal text of an integer, with a leading `-` when negative. */
  function IntToString(n: int): (r: string)
    ensures |r| > 0
  {
    if n < 0 then "-" + NatToString(-n) else NatToString(n)
  }

  function InvalidExtensionMessage(ext: string): string
  {
    "Invalid file extension: " + ext
  }

  function TooLargeMessage(size: nat, maxFileSize: int): string
  {
    "This file's size (" + IntToString(size) + ") is larger than the allowed " + IntToString(maxFileSize) + "bytes."
  }

  function TooSmallMessage(size: nat, minFileSize: int): string
  {
    "This file's size (" + IntToString(size) + ") is smaller than the allowed " + IntToString(minFileSize) + "bytes."
  }

  /** The extension check fails when the extension is not an allowed key. */
  predicate BadExtension(name: string, extensions: set<string>)
  {
    ExtensionOf(name) !in extensions
  }

  /** The maximum-size check applies only when a maximum is set (non-zero) and rejects only a larger file. */
  predicate TooLarge(size: nat, maxFileSize: int)
  {
    maxFileSize != 0 && size > maxFileSize
  }

  /** The minimum-size check applies only when a minimum is set (non-zero) and rejects only a smaller file. */
  predicate TooSmall(size: nat, minFileSize: int)
  {
    minFileSize != 0 && size < minFileSize
  }

  /**
   * The message the file ends up with: the message of the LAST failing
   * check in the order extension, maximum, minimum, found by asking the
   * checks in reverse order; `None` when every check passes.
   */
  function LastFailure(name: string, size: nat, extensions: set<string>, maxFileSize: int, minFileSize: int): Option<string>
  {
    if TooSmall(size, minFileSize) then Some(TooSmallMessage(size, minFileSize))
    else if TooLarge(size, maxFileSize) then Some(TooLargeMessage(size, maxFileSize))
    else if BadExtension(name, extensions) then Some(InvalidExtensionMessage(ExtensionOf(name)))
    else None
  }

  /**
   * The record the handler leaves: errored with the last failing check's
   * message; otherwise, unless it was already errored, pending in `batch`
   * with zeroed progress.
   */
  function Checked(f: FileRecord, batch: int, extensions: set<string>, maxFileSize: int, minFileSize: int): FileRecord
  {
    var failure := LastFailure(f.name, f.size, extensions, maxFileSize, minFileSize);
    if failure.Some? then f.(state := Errored, errorMessage := failure)
    else if f.state == Errored then f
    else f.(batch := Some(batch), progressPercent := 0, progressSize := 0, state := Pending)
  }

  /** The add handler's checks, in the order it runs them, on the new file `f`. */
  method Validate(f: FileRecord, batch: int, extensions: set<string>, maxFileSize: int, minFileSize: int)
    returns (g: FileRecord)
    ensures g == Checked(f, batch, extensions, maxFileSize, minFileSize)
  {
    g := f;
    var ext := ExtensionOf(g.name);
    if ext !in extensions {
      g := g.(state := Errored, errorMessage := Some(InvalidExtensionMessage(ext)));
    }
    if maxFileSize != 0 {
      if g.size > maxFileSize {
        g := g.(state := Errored, errorMessage := Some(TooLargeMessage(g.size, maxFileSize)));
      }
    }
    if minFileSize != 0 {
      if g.size < minFileSize {
        g := g.(state := Errored, errorMessage := Some(TooSmallMessage(g.size, minFileSize)));
      }
    }
    if g.state != Errored {
      g := g.(batch := Some(batch), progressPercent := 0, progressSize := 0, state := Pending);
    }
  }

  /**
   * A fresh file ends up pending exactly when all three checks pass, and
   * errored exactly when one fails; it gets a batch only when it passes.
   */
  lemma CheckedOutcome(b: Blob, batch: int, extensions: set<string>, maxFileSize: int, minFileSize: int)
    ensures var g := Checked(NewRecord(b), batch, extensions, maxFileSize, minFileSize);
      && (g.state == Pending <==>
            !BadExtension(b.name, extensions) && !TooLarge(b.size, maxFileSize) && !TooSmall(b.size, minFileSize))
      && (g.state == Errored <==>
            BadExtension(b.name, extensions) || TooLarge(b.size, maxFileSize) || TooSmall(b.size, minFileSize))
      && (g.state == Pending ==> g.batch == Some(batch) && g.progressPercent == 0 && g.progressSize == 0)
      && (g.state == Errored ==> g.batch == None && Truthy(g.errorMessage))
      && g.name == b.name && g.size == b.size && !g.hasXhr && WellFormed(g)
  {
  }

  /**
   * A record that is already errored when the handler runs and now passes
   * every check is left exactly as it was: still errored, with its old
   * message and no batch of its own, because the pending setup is skipped
   * for an errored record.
   */
  lemma ErroredRecordKept(f: FileRecord, batch: int, extensions: set<string>, maxFileSize: int, minFileSize: int)
    requires f.state == Errored
    requires !BadExtension(f.name, extensions) && !TooLarge(f.size, maxFileSize) && !TooSmall(f.size, minFileSize)
    ensures Checked(f, batch, extensions, maxFileSize, minFileSize) == f
  {
  }

  /** A rejected extension alone yields the message naming that extension. */
  lemma BadExtensionMessage(b: Blob, extensions: set<string>, maxFileSize: int, minFileSize: int, batch: int)
    requires BadExtension(b.name, extensions)
    requires !TooLarge(b.size, maxFileSize) && !TooSmall(b.size, minFileSize)
    ensures Checked(NewRecord(b), batch, extensions, maxFileSize, minFileSize).errorMessage
         == Some("Invalid file extension: " + ExtensionOf(b.name))
  {
  }

  /** A size failure overwrites an extension failure's message; the minimum check overwrites the maximum's. */
  lemma LastCheckWins(f: FileRecord, batch: int, extensions: set<string>, maxFileSize: int, minFileSize: int)
    ensures TooSmall(f.size, minFileSize) ==>
      Checked(f, batch, extensions, maxFileSize, minFileSize).errorMessage == Some(TooSmallMessage(f.size, minFileSize))
    ensures !TooSmall(f.size, minFileSize) && TooLarge(f.size, maxFileSize) ==>
      Checked(f, batch, extensions, maxFileSize, minFileSize).errorMessage == Some(TooLargeMessage(f.size, maxFileSize))
  {
  }

  /**
   * Both size limits are inclusive: a file exactly at a limit passes that
   * check, 0 means no limit, and any other limit (a negative one included,
   * since it is truthy) rejects a file beyond it.
   */
  lemma SizeLimitsInclusive(size: nat, limit: int)
    ensures !TooLarge(size, size) && !TooSmall(size, size)
    ensures !TooLarge(size, 0) && !TooSmall(size, 0)
    ensures limit != 0 && size > limit ==> TooLarge(size, limit)
    ensures limit != 0 && size < limit ==> TooSmall(size, limit)
  {
  }
}
