/** The few java.lang.String operations the bootstrapper relies on. */
module Text {

  /** Lower-casing of one character, restricted to ASCII letters. */
  function LowerChar(c: char): char
  {
    if 'A' <= c <= 'Z' then (c as int + 32) as char else c
  }

  /** String.toLowerCase, on ASCII letters. */
  function ToLower(s: string): (r: string)
    ensures |r| == |s|
    ensures forall i :: 0 <= i < |s| ==> r[i] == LowerChar(s[i])
    ensures forall i :: 0 <= i < |r| ==> !('A' <= r[i] <= 'Z')
  {
    seq(|s|, i requires 0 <= i < |s| => LowerChar(s[i]))
  }

  lemma ToLowerIdempotent(s: string)
    ensures ToLower(ToLower(s)) == ToLower(s)
  {
  }

  /** `needle` occurs in `s` at position `j`. */
  predicate OccursAt(s: string, needle: string, j: int)
  {
    0 <= j && j + |needle| <= |s| && s[j..j + |needle|] == needle
  }

  /** String.indexOf: the first position at which `needle` occurs in `s`, or -1. */
  function IndexOf(s: string, needle: string): (r: int)
    ensures -1 <= r <= |s|
    ensures r >= 0 ==> OccursAt(s, needle, r)
    ensures forall j :: 0 <= j < r ==> !OccursAt(s, needle, j)
    ensures r == -1 <==> forall j :: 0 <= j <= |s| ==> !OccursAt(s, needle, j)
    decreases |s|
  {
    if |needle| > |s| then -1
    else if s[..|needle|] == needle then
      assert OccursAt(s, needle, 0);
      0
    else
      var k := IndexOf(s[1..], needle);
      assert forall j :: 1 <= j <= |s| ==> (OccursAt(s, needle, j) <==> OccursAt(s[1..], needle, j - 1));
      if k < 0 then -1 else k + 1
  }

  /** `s.indexOf(needle) >= 0`, the containment test of the source. */
  predicate Contains(s: string, needle: string)
  {
    IndexOf(s, needle) >= 0
  }

  /** Containment is transitive: a string containing `outer` contains every
      string that `outer` contains. */
  lemma ContainsTransitive(s: string, outer: string, inner: string)
    requires Contains(s, outer) && Contains(outer, inner)
    ensures Contains(s, inner)
  {
    var j := IndexOf(s, outer);
    var k := IndexOf(outer, inner);
    assert OccursAt(s, outer, j) && OccursAt(outer, inner, k);
    var t := s[j + k..j + k + |inner|];
    forall i | 0 <= i < |inner|
      ensures t[i] == inner[i]
    {
      assert t[i] == s[j..j + |outer|][k + i] == outer[k + i];
      assert outer[k + i] == outer[k..k + |inner|][i];
    }
    OccursContains(s, inner, j + k);
  }

  /** An occurrence anywhere makes indexOf non-negative. */
  lemma OccursContains(s: string, needle: string, j: int)
    requires OccursAt(s, needle, j)
    ensures Contains(s, needle)
  {
  }

  /** String.startsWith. */
  predicate StartsWith(s: string, prefix: string)
  {
    |prefix| <= |s| && s[..|prefix|] == prefix
  }

  /** A prefix followed by anything starts with that prefix, and dropping the prefix
      gives the rest back. */
  lemma StartsWithConcat(prefix: string, rest: string)
    ensures StartsWith(prefix + rest, prefix)
    ensures (prefix + rest)[|prefix|..] == rest
  {
    assert (prefix + rest)[..|prefix|] == prefix;
  }

  /** A string that starts with a prefix is that prefix followed by the remainder. */
  lemma StartsWithSplit(s: string, prefix: string)
    requires StartsWith(s, prefix)
    ensures s == prefix + s[|prefix|..]
  {
  }

  /** A non-empty run of characters without a space. */
  predicate IsWord(w: string)
  {
    w != [] && ' ' !in w
  }

  /** The length of the leading run of non-space characters. */
  function WordLength(s: string): (n: nat)
    ensures n <= |s|
    ensures ' ' !in s[..n]
    ensures n < |s| ==> s[n] == ' '
  {
    if s == [] || s[0] == ' ' then 0
    else
      var k := WordLength(s[1..]);
      assert s[1..][..k] == s[1..k + 1];
      k + 1
  }

  /** Space-delimited tokenisation, as a space-delimited argument parser reads a
      command line: runs of spaces separate words and produce no empty words. */
  function Words(s: string): (r: seq<string>)
    ensures forall i :: 0 <= i < |r| ==> IsWord(r[i])
    decreases |s|
  {
    if s == [] then []
    else if s[0] == ' ' then Words(s[1..])
    else
      var n := WordLength(s);
      [s[..n]] + Words(s[n..])
  }

  /** Each word preceded by one space. */
  function Spaced(ws: seq<string>): string
  {
    if ws == [] then "" else " " + (ws[0] + Spaced(ws[1..]))
  }

  /** Tokenising words that were joined with spaces gives the words back. */
  lemma {:induction false} WordsOfSpaced(ws: seq<string>, rest: string)
    requires forall i :: 0 <= i < |ws| ==> IsWord(ws[i])
    requires rest == [] || rest[0] == ' '
    ensures Words(Spaced(ws) + rest) == ws + Words(rest)
  {
    if ws == [] {
      assert Spaced(ws) + rest == rest;
    } else {
      var w, tail := ws[0], Spaced(ws[1..]) + rest;
      assert tail == [] || tail[0] == ' ' by {
        if ws[1..] != [] { assert Spaced(ws[1..])[0] == ' '; }
      }
      calc {
        Words(Spaced(ws) + rest);
        { assert Spaced(ws) + rest == " " + (w + tail); }
        Words(" " + (w + tail));
        { LeadingSpace(w + tail); }
        Words(w + tail);
        { WordThenRest(w, tail); }
        [w] + Words(tail);
        { WordsOfSpaced(ws[1..], rest); }
        [w] + (ws[1..] + Words(rest));
        { assert ws == [w] + ws[1..]; }
        ws + Words(rest);
      }
    }
  }

  lemma LeadingSpace(x: string)
    ensures Words(" " + x) == Words(x)
  {
    assert (" " + x)[1..] == x;
  }

  lemma WordThenRest(w: string, tail: string)
    requires IsWord(w)
    requires tail == [] || tail[0] == ' '
    ensures Words(w + tail) == [w] + Words(tail)
  {
    var n := WordLength(w + tail);
    WordLengthOf(w, tail);
    assert (w + tail)[..n] == w && (w + tail)[n..] == tail;
  }

  lemma {:induction false} WordLengthOf(w: string, tail: string)
    requires ' ' !in w
    requires tail == [] || tail[0] == ' '
    ensures WordLength(w + tail) == |w|
  {
    if w == [] {
      assert w + tail == tail;
    } else {
      assert (w + tail)[0] == w[0];
      assert (w + tail)[1..] == w[1..] + tail;
      WordLengthOf(w[1..], tail);
    }
  }
}
