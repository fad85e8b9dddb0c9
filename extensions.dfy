/**
 * File extensions: the `extensions` setter of the view-model, which turns a
 * comma-separated configuration string into the allow-list, and the add
 * handler's extraction of a file name's extension.
 */
module Extensions {

  /** The sentinel extension of a name with no `.` in it. */
  const NoExtension: string := "no-ext"

  /** `String.prototype.indexOf` for one character: the first position of `c`, or -1. */
  function IndexOf(s: string, c: char): (r: int)
    ensures -1 <= r < |s|
    ensures r == -1 <==> c !in s
    ensures r >= 0 ==> s[r] == c && c !in s[..r]
  {
    if s == [] then -1
    else if s[0] == c then 0
    else
      var k := IndexOf(s[1..], c);
      assert k >= 0 ==> s[..k + 1] == [s[0]] + s[1..][..k];
      if k < 0 then -1 else k + 1
  }

  /** `String.prototype.lastIndexOf` for one character: the last position of `c`, or -1. */
  function LastIndexOf(s: string, c: char): (r: int)
    ensures -1 <= r < |s|
    ensures r == -1 <==> c !in s
    ensures r >= 0 ==> s[r] == c && c !in s[r + 1..]
  {
    if s == [] then -1
    else if s[|s| - 1] == c then |s| - 1
    else
      var k := LastIndexOf(s[..|s| - 1], c);
      assert k >= 0 ==> s[k + 1..] == s[..|s| - 1][k + 1..] + [s[|s| - 1]];
      assert s == s[..|s| - 1] + [s[|s| - 1]];
      k
  }

  /**
   * `String.prototype.replace(c, "")` with a one-character string pattern:
   * only the FIRST occurrence of `c` is removed.
   */
  function RemoveFirst(s: string, c: char): (r: string)
    ensures c !in s ==> r == s
    ensures c in s ==> exists i :: 0 <= i < |s| && s[i] == c && c !in s[..i] && r == s[..i] + s[i + 1..]
  {
    var i := IndexOf(s, c);
    if i < 0 then s else s[..i] + s[i + 1..]
  }

  /** `String.prototype.split(sep)` for a one-character separator. */
  function Split(s: string, sep: char): (r: seq<string>)
    ensures |r| >= 1
    ensures forall k :: 0 <= k < |r| ==> sep !in r[k]
    decreases |s|
  {
    var i := IndexOf(s, sep);
    if i < 0 then [s] else [s[..i]] + Split(s[i + 1..], sep)
  }

  /** `Array.prototype.join(sep)`: the pieces with `sep` between each two. */
  function Join(pieces: seq<string>, sep: char): string
  {
    if pieces == [] then ""
    else if |pieces| == 1 then pieces[0]
    else pieces[0] + [sep] + Join(pieces[1..], sep)
  }

  /** Splitting loses nothing: joining the pieces back gives the input. */
  lemma {:induction false} JoinSplit(s: string, sep: char)
    ensures Join(Split(s, sep), sep) == s
    decreases |s|
  {
    var i := IndexOf(s, sep);
    if i >= 0 {
      var rest := Split(s[i + 1..], sep);
      JoinCons(s[..i], rest, sep);
      JoinSplit(s[i + 1..], sep);
      assert s == s[..i] + [sep] + s[i + 1..];
    }
  }

  lemma JoinCons(a: string, rest: seq<string>, sep: char)
    requires |rest| >= 1
    ensures Join([a] + rest, sep) == a + [sep] + Join(rest, sep)
  {
    assert ([a] + rest)[1..] == rest;
  }

  lemma {:induction false} IndexOfPrefix(a: string, b: string, sep: char)
    requires sep !in a
    ensures IndexOf(a + [sep] + b, sep) == |a|
  {
    var s := a + [sep] + b;
    assert s[|a|] == sep;
    assert s[..|a|] == a;
  }

  /** Splitting a join of separator-free pieces gives the pieces back. */
  lemma {:induction false} SplitJoin(pieces: seq<string>, sep: char)
    requires |pieces| >= 1
    requires forall k :: 0 <= k < |pieces| ==> sep !in pieces[k]
    ensures Split(Join(pieces, sep), sep) == pieces
  {
    if |pieces| > 1 {
      var a, rest := pieces[0], Join(pieces[1..], sep);
      IndexOfPrefix(a, rest, sep);
      assert (a + [sep] + rest)[..|a|] == a;
      assert (a + [sep] + rest)[|a| + 1..] == rest;
      SplitJoin(pieces[1..], sep);
    }
  }

  /** The pieces a configuration string yields, in order: first space removed, then split on `,`. */
  function ExtensionList(value: string): (r: seq<string>)
    ensures |r| >= 1
    ensures forall k :: 0 <= k < |r| ==> ',' !in r[k]
    ensures Join(r, ',') == RemoveFirst(value, ' ')
  {
    JoinSplit(RemoveFirst(value, ' '), ',');
    Split(RemoveFirst(value, ' '), ',')
  }

  /** The `extensions` setter: every piece of the configuration string is an allowed key. */
  function ParseExtensions(value: string): (r: set<string>)
    ensures forall e :: e in r <==> e in ExtensionList(value)
    ensures forall e :: e in r ==> ',' !in e
  {
    set k | 0 <= k < |ExtensionList(value)| :: ExtensionList(value)[k]
  }

  /** A list without spaces or commas written as "a,b,c" parses back to its own elements. */
  lemma ParseJoined(exts: seq<string>)
    requires |exts| >= 1
    requires forall k :: 0 <= k < |exts| ==> ',' !in exts[k] && ' ' !in exts[k]
    ensures ParseExtensions(Join(exts, ',')) == set k | 0 <= k < |exts| :: exts[k]
  {
    NoSpaceInJoin(exts);
    SplitJoin(exts, ',');
  }

  lemma {:induction false} NoSpaceInJoin(exts: seq<string>)
    requires forall k :: 0 <= k < |exts| ==> ' ' !in exts[k]
    ensures ' ' !in Join(exts, ',')
  {
    if |exts| > 1 {
      NoSpaceInJoin(exts[1..]);
    }
  }

  /**
   * Only the first space is removed: "a, b, c" allows "a", "b" and " c"
   * (so "jpg, png, gif" allows "jpg", "png" and " gif", not "gif").
   */
  lemma ParseKeepsLaterSpaces(a: string, b: string, c: string)
    requires ' ' !in a && ',' !in a && ',' !in b && ',' !in c
    ensures ParseExtensions(a + [',', ' '] + b + [',', ' '] + c) == {a, b, [' '] + c}
  {
    var value := a + [',', ' '] + b + [',', ' '] + c;
    var tail := b + [',', ' '] + c;
    var pieces := [a, b, [' '] + c];
    assert RemoveFirst(value, ' ') == a + [','] + tail by {
      assert value == (a + [',']) + [' '] + tail;
      IndexOfPrefix(a + [','], tail, ' ');
      assert value[..|a| + 1] == a + [','] && value[|a| + 2..] == tail;
    }
    assert Join(pieces, ',') == a + [','] + tail by {
      JoinCons(b, [[' '] + c], ',');
      JoinCons(a, [b, [' '] + c], ',');
      assert pieces == [a] + [b, [' '] + c];
    }
    assert ExtensionList(value) == pieces by {
      SplitJoin(pieces, ',');
    }
  }

  /** The extension the add handler checks: the text after the last `.`, or `no-ext`. */
  function ExtensionOf(name: string): (ext: string)
    ensures '.' !in name ==> ext == NoExtension
    ensures '.' in name ==> '.' !in ext && exists p :: 0 <= p < |name| && name == name[..p] + ['.'] + ext
  {
    var p := LastIndexOf(name, '.');
    assert p >= 0 ==> name == name[..p] + ['.'] + name[p + 1..];
    if p >= 0 then name[p + 1..] else NoExtension
  }

  /** A name ending in `.` has the empty extension; a dotted prefix is ignored. */
  lemma ExtensionExamples()
    ensures ExtensionOf("a.") == ""
    ensures ExtensionOf("photo.tar.gz") == "gz"
    ensures ExtensionOf("README") == NoExtension
  {
    assert LastIndexOf("a.", '.') == 1;
    assert LastIndexOf("photo.tar.gz", '.') == 9;
  }
}
