/** The version marker: newVersionAvailable compares the first line of the marker
    file with the application version and overwrites the marker. */
module VersionGate {
  import opened Failures

  /** BufferedReader.readLine terminates a line at '\n' or '\r'. */
  predicate IsLineBreak(c: char)
  {
    c == '\n' || c == '\r'
  }

  /** BufferedReader.readLine on a fresh reader: no line at all for empty content,
      otherwise the characters before the first line break. */
  function FirstLine(content: string): (r: Option<string>)
    ensures r.None? <==> content == ""
    ensures r.Some? ==> |r.value| <= |content| && r.value == content[..|r.value|]
    ensures r.Some? ==> forall i :: 0 <= i < |r.value| ==> !IsLineBreak(r.value[i])
    ensures r.Some? && |r.value| < |content| ==> IsLineBreak(content[|r.value|])
  {
    if content == [] then None else Some(LineOf(content))
  }

  /** The characters before the first line break. */
  function LineOf(s: string): (r: string)
    ensures |r| <= |s| && r == s[..|r|]
    ensures forall i :: 0 <= i < |r| ==> !IsLineBreak(r[i])
    ensures |r| < |s| ==> IsLineBreak(s[|r|])
  {
    if s == [] || IsLineBreak(s[0]) then [] else [s[0]] + LineOf(s[1..])
  }

  /** A version value that reads back as itself: one non-empty line. */
  predicate IsSingleLine(v: string)
  {
    v != [] && forall i :: 0 <= i < |v| ==> !IsLineBreak(v[i])
  }

  /** The value newVersionAvailable compares against: the first line of the
      marker, or nothing when the marker is absent, unreadable or empty. */
  function PriorVersion(content: Option<string>, readable: bool): (r: Option<string>)
    ensures r.Some? ==> content.Some? && readable
    ensures content.None? || !readable || content.value == "" ==> r.None?
  {
    if content.Some? && readable then FirstLine(content.value) else None
  }

  /** The marker file in the application's temporary directory. `content` is
      None when the file does not exist; `readable` and `writable` say whether
      opening it for reading and writing succeeds. */
  class VersionFile {
    var content: Option<string>
    const readable: bool
    const writable: bool

    constructor(content: Option<string>, readable: bool, writable: bool)
      ensures this.content == content && this.readable == readable && this.writable == writable
    {
      this.content := content;
      this.readable := readable;
      this.writable := writable;
    }

    /** newVersionAvailable: reads the first line of the marker, then writes the new
        version. When the write works, the answer is whether there was no prior
        version or it differs; when it fails, the answer is true. */
    method NewVersionAvailable(newVersion: string) returns (r: bool)
      modifies this
      ensures var prior := PriorVersion(old(content), readable);
        (writable ==> r == (prior.None? || newVersion != prior.value))
        && (!writable ==> r)
      ensures writable ==> content == Some(newVersion)
      ensures !writable ==> content == old(content)
    {
      var oldVersion: Option<string> := None;
      if content.Some? && readable {
        oldVersion := FirstLine(content.value);
      }
      if writable {
        content := Some(newVersion);
        return oldVersion.None? || newVersion != oldVersion.value;
      }
      return true;
    }
  }

  /** The answer newVersionAvailable gives for a marker state, as a function. */
  function Stale(content: Option<string>, readable: bool, writable: bool, v: string): bool
  {
    var prior := PriorVersion(content, readable);
    !writable || prior.None? || v != prior.value
  }

  /** The line of a break-free string followed by a line break (or nothing) is
      that string. */
  lemma {:induction false} LineOfConcat(v: string, rest: string)
    requires forall i :: 0 <= i < |v| ==> !IsLineBreak(v[i])
    requires rest == [] || IsLineBreak(rest[0])
    ensures LineOf(v + rest) == v
    decreases |v|
  {
    if v == [] {
      assert v + rest == rest;
    } else {
      assert (v + rest)[1..] == v[1..] + rest;
      LineOfConcat(v[1..], rest);
      assert v == [v[0]] + v[1..];
    }
  }

  /** The line ends at or before any line break. */
  lemma {:induction false} LineOfStopsAt(s: string, k: nat)
    requires k < |s| && IsLineBreak(s[k])
    ensures |LineOf(s)| <= k
    decreases k
  {
    if !IsLineBreak(s[0]) {
      LineOfStopsAt(s[1..], k - 1);
    }
  }

  /** A marker holding a single-line version reads back as that version. */
  lemma FirstLineOfSingleLine(v: string)
    requires IsSingleLine(v)
    ensures FirstLine(v) == Some(v)
  {
    LineOfConcat(v, "");
    assert v + "" == v;
  }

  /** The gate remembers: once a single-line version has been written, the same
      version is reported as current, on readable and writable markers. */
  lemma RepeatIsCurrent(v: string)
    requires IsSingleLine(v)
    ensures !Stale(Some(v), true, true, v)
  {
    FirstLineOfSingleLine(v);
  }

  /** Only a changed first line counts: trailing lines of the marker are ignored. */
  lemma LaterLinesIgnored(v: string, rest: string)
    requires IsSingleLine(v)
    requires rest != [] && IsLineBreak(rest[0])
    ensures !Stale(Some(v + rest), true, true, v)
  {
    LineOfConcat(v, rest);
  }

  /** A different single-line version is reported as new. */
  lemma ChangedIsStale(v: string, w: string, readable: bool, writable: bool)
    requires IsSingleLine(w) && v != w
    ensures Stale(Some(w), readable, writable, v)
  {
    FirstLineOfSingleLine(w);
  }

  /** A version that is not one non-empty line never reads back as itself: an empty
      version leaves an empty marker, which reads as no version, and a version
      with a line break reads back as its first line only. So such a version is
      reported as new on every run. */
  lemma NonSingleLineAlwaysStale(v: string, readable: bool, writable: bool)
    requires !IsSingleLine(v)
    ensures Stale(Some(v), readable, writable, v)
  {
    if v != [] && readable {
      var k :| 0 <= k < |v| && IsLineBreak(v[k]);
      LineOfStopsAt(v, k);
    }
  }

  /** The sequence of two runs with the same version, then a run with a new one. */
  method RunsWithOneUpdate(v1: string, v2: string) returns (first: bool, second: bool, third: bool)
    requires IsSingleLine(v1) && v1 != v2
    ensures first && !second && third
  {
    var marker := new VersionFile(None, true, true);
    first := marker.NewVersionAvailable(v1);
    FirstLineOfSingleLine(v1);
    second := marker.NewVersionAvailable(v1);
    third := marker.NewVersionAvailable(v2);
  }
}
