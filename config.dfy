/** The configuration that main derives from the JVM system properties: the
    jnlp.custom. renaming loop, the required properties, the archive list and the
    mode argument (WebRCP.main, getSystemProperty). */
module Config {
  import opened Failures
  import opened Text
  import opened Platform
  import opened Launch

  // Property names.
  const BaseUrlKey := "jnlp.WebRCP.baseURL"
  const AppNameKey := "jnlp.WebRCP.appName"
  const AppVersionKey := "jnlp.WebRCP.appVersion"
  const LaunchAppKey := "jnlp.WebRCP.launchApp"
  const LaunchProductKey := "jnlp.WebRCP.launchProduct"
  const ArchivesKey := "jnlp.WebRCP.archives"
  const LauncherJarKey := "jnlp.WebRCP.launcherjar"
  const TmpDirKey := "java.io.tmpdir"
  const OsArchKey := "os.arch"
  const OsNameKey := "os.name"

  /** The prefix under which a JNLP file passes properties that Web Start would
      otherwise refuse to set. */
  const CustomPrefix := "jnlp.custom."

  /** The system properties. */
  type Properties = map<string, string>

  // ---------------------------------------------------------------------------
  // The jnlp.custom. loop

  /** One iteration of the loop over the copied key set: a key that carries the
      prefix is set again without it, to the value that key has at this moment.
      replaceFirst on a key that starts with the prefix removes exactly the prefix;
      the bare prefix leaves the empty key, which setProperty rejects with an
      IllegalArgumentException that main does not catch. */
  function CustomStep(p: Properties, key: string): (r: Result<Properties>)
    requires key in p
    ensures r.Err? <==> key == CustomPrefix
    ensures r.Ok? ==> p.Keys <= r.value.Keys
    ensures r.Ok? && !StartsWith(key, CustomPrefix) ==> r.value == p
    ensures r.Ok? && StartsWith(key, CustomPrefix) ==>
      r.value == p[key[|CustomPrefix|..] := p[key]]
  {
    if !StartsWith(key, CustomPrefix) then Ok(p)
    else if |key| == |CustomPrefix| then Err(UncaughtException("IllegalArgumentException"))
    else Ok(p[key[|CustomPrefix|..] := p[key]])
  }

  /** The whole loop, over the keys in the order the copied key set yields them. */
  function ApplyCustom(p: Properties, keys: seq<string>): (r: Result<Properties>)
    requires forall k :: k in keys ==> k in p
    ensures r.Ok? ==> p.Keys <= r.value.Keys
    decreases |keys|
  {
    if keys == [] then Ok(p)
    else
      match CustomStep(p, keys[0])
      case Err(f) => Err(f)
      case Ok(q) => ApplyCustom(q, keys[1..])
  }

  /** The loop of main over the copied key set: it reads each prefixed property
      from the live properties and sets it again under the stripped key. */
  method CustomizeProperties(props: Properties, keys: seq<string>) returns (r: Result<Properties>)
    requires forall k :: k in keys ==> k in props
    ensures r == ApplyCustom(props, keys)
  {
    var live := props;
    var i := 0;
    while i < |keys|
      invariant 0 <= i <= |keys|
      invariant props.Keys <= live.Keys
      invariant ApplyCustom(props, keys) == ApplyCustom(live, keys[i..])
    {
      assert keys[i..] == [keys[i]] + keys[i + 1..];
      var key := keys[i];
      if StartsWith(key, CustomPrefix) {
        var property := live[key];
        var replaced := key[|CustomPrefix|..];
        if replaced == "" {
          return Err(UncaughtException("IllegalArgumentException"));
        }
        live := live[replaced := property];
      }
      i := i + 1;
    }
    assert keys[i..] == [];
    return Ok(live);
  }

  /** The loop fails exactly when the bare prefix is one of the keys. */
  lemma {:induction false} ApplyCustomFails(p: Properties, keys: seq<string>)
    requires forall k :: k in keys ==> k in p
    ensures ApplyCustom(p, keys).Err? <==> CustomPrefix in keys
    ensures ApplyCustom(p, keys).Err? ==>
      ApplyCustom(p, keys).failure == UncaughtException("IllegalArgumentException")
    decreases |keys|
  {
    if keys != [] {
      var s := CustomStep(p, keys[0]);
      if s.Ok? {
        assert forall k :: k in keys[1..] ==> k in s.value;
        ApplyCustomFails(s.value, keys[1..]);
        assert keys == [keys[0]] + keys[1..];
      }
    }
  }

  /** No key carries the prefix twice and none is the bare prefix: the case in
      which the outcome does not depend on the order of the keys. */
  predicate SinglePrefixed(p: Properties)
  {
    forall k :: k in p && StartsWith(k, CustomPrefix) ==>
      k != CustomPrefix && !StartsWith(k[|CustomPrefix|..], CustomPrefix)
  }

  /** `q` is what the loop should have made of `p` once the keys in `done` have
      been visited: each stripped key of a visited key holds that key's value,
      every other key keeps its value, and nothing else is added. */
  ghost predicate Renamed(p: Properties, done: seq<string>, q: Properties)
  {
    (forall k :: k in q <==> k in p || (CustomPrefix + k in p && CustomPrefix + k in done))
    && (forall k :: CustomPrefix + k in p && CustomPrefix + k in done ==>
          k in q && q[k] == p[CustomPrefix + k])
    && (forall k :: k in p && !(CustomPrefix + k in p && CustomPrefix + k in done) ==>
          q[k] == p[k])
  }

  /** Visiting a prefixed key. */
  lemma RenamedPrefixedStep(p: Properties, q: Properties, done: seq<string>, key: string)
    requires SinglePrefixed(p)
    requires key in p && StartsWith(key, CustomPrefix)
    requires Renamed(p, done, q)
    ensures key in q && q[key] == p[key]
    ensures Renamed(p, done + [key], q[key[|CustomPrefix|..] := p[key]])
  {
    var s := key[|CustomPrefix|..];
    StartsWithSplit(key, CustomPrefix);
    StartsWithConcat(CustomPrefix, key);
    assert !StartsWith(key[|CustomPrefix|..], CustomPrefix);
    var q' := q[s := p[key]];
    forall k | CustomPrefix + k == key
      ensures k == s
    {
      StartsWithConcat(CustomPrefix, k);
    }
    forall k
      ensures CustomPrefix + k in done + [key] <==> CustomPrefix + k in done || k == s
    {
    }
    assert Renamed(p, done + [key], q');
  }

  /** Visiting a key without the prefix. */
  lemma RenamedPlainStep(p: Properties, q: Properties, done: seq<string>, key: string)
    requires !StartsWith(key, CustomPrefix)
    requires Renamed(p, done, q)
    ensures Renamed(p, done + [key], q)
  {
    forall k
      ensures CustomPrefix + k in done + [key] <==> CustomPrefix + k in done
    {
      StartsWithConcat(CustomPrefix, k);
    }
  }

  lemma {:induction false} ApplyCustomRenames(p: Properties, q: Properties, done: seq<string>, todo: seq<string>)
    requires SinglePrefixed(p)
    requires forall k :: k in todo ==> k in p
    requires Renamed(p, done, q)
    ensures forall k :: k in todo ==> k in q
    ensures ApplyCustom(q, todo).Ok?
    ensures Renamed(p, done + todo, ApplyCustom(q, todo).value)
    decreases |todo|
  {
    if todo == [] {
      assert done + todo == done;
    } else {
      var key := todo[0];
      RenamedStep(p, q, done, key);
      ApplyCustomRenames(p, CustomStep(q, key).value, done + [key], todo[1..]);
      assert done + [key] + todo[1..] == done + todo;
    }
  }

  /** One turn of the loop keeps the renaming invariant. */
  lemma RenamedStep(p: Properties, q: Properties, done: seq<string>, key: string)
    requires SinglePrefixed(p) && key in p
    requires Renamed(p, done, q)
    ensures p.Keys <= q.Keys
    ensures CustomStep(q, key).Ok?
    ensures Renamed(p, done + [key], CustomStep(q, key).value)
  {
    if StartsWith(key, CustomPrefix) {
      RenamedPrefixedStep(p, q, done, key);
    } else {
      RenamedPlainStep(p, q, done, key);
    }
  }

  /** When no key carries the prefix twice, visiting every key, in any order,
      gives each stripped key the value of its prefixed key, keeps every original
      key (prefixed ones included) with its value unless it is itself a stripped
      key, and adds nothing else. */
  lemma CustomStripsPrefix(p: Properties, keys: seq<string>)
    requires SinglePrefixed(p)
    requires forall k :: k in keys <==> k in p
    ensures ApplyCustom(p, keys).Ok?
    ensures forall k :: k in ApplyCustom(p, keys).value <==> k in p || CustomPrefix + k in p
    ensures forall k :: CustomPrefix + k in p ==> ApplyCustom(p, keys).value[k] == p[CustomPrefix + k]
    ensures forall k :: k in p && CustomPrefix + k !in p ==> ApplyCustom(p, keys).value[k] == p[k]
  {
    ApplyCustomRenames(p, p, [], keys);
    assert [] + keys == keys;
  }

  /** A key that carries the prefix twice makes the outcome depend on the order in
      which the key set is visited, because each step reads the live value: here
      the stripped key "a" ends with "1" in one order and with "2" in the other. */
  lemma CustomOrderMatters()
    ensures var p := map["jnlp.custom.jnlp.custom.a" := "1", "jnlp.custom.a" := "2"];
      && ApplyCustom(p, ["jnlp.custom.jnlp.custom.a", "jnlp.custom.a"]).value["a"] == "1"
      && ApplyCustom(p, ["jnlp.custom.a", "jnlp.custom.jnlp.custom.a"]).value["a"] == "2"
  {
    var d, c := "jnlp.custom.jnlp.custom.a", "jnlp.custom.a";
    StartsWithConcat(CustomPrefix, "jnlp.custom.a");
    StartsWithConcat(CustomPrefix, "a");
    assert d == CustomPrefix + c && c == CustomPrefix + "a";
    var p := map[d := "1", c := "2"];
    assert CustomStep(p, d) == Ok(p[c := "1"]);
    assert CustomStep(p[c := "1"], c) == Ok(p[c := "1"]["a" := "1"]);
    assert CustomStep(p, c) == Ok(p["a" := "2"]);
    assert CustomStep(p["a" := "2"], d) == Ok(p["a" := "2"][c := "1"]);
  }

  // ---------------------------------------------------------------------------
  // The archive list: String.split("\\s*,\\s*")

  /** The characters of the regular-expression class \s. */
  predicate IsSpace(c: char)
  {
    c == ' ' || c == '\t' || c == '\n' || c == '\U{0B}' || c == '\U{0C}' || c == '\r'
  }

  predicate AllSpace(w: string)
  {
    forall i :: 0 <= i < |w| ==> IsSpace(w[i])
  }

  /** The string without its leading run of \s characters. */
  function TrimLeading(s: string): (r: string)
    ensures |r| <= |s| && r == s[|s| - |r|..]
    ensures AllSpace(s[..|s| - |r|])
    ensures r == [] || !IsSpace(r[0])
  {
    if s == [] || !IsSpace(s[0]) then s else TrimLeading(s[1..])
  }

  /** The string without its trailing run of \s characters. */
  function TrimTrailing(s: string): (r: string)
    ensures |r| <= |s| && r == s[..|r|]
    ensures AllSpace(s[|r|..])
    ensures r == [] || !IsSpace(r[|r| - 1])
  {
    if s == [] || !IsSpace(s[|s| - 1]) then s else TrimTrailing(s[..|s| - 1])
  }

  /** The text between the commas of `s`, in order. */
  function CommaPieces(s: string): (r: seq<string>)
    ensures |r| >= 1
    ensures forall i :: 0 <= i < |r| ==> ',' !in r[i]
    decreases |s|
  {
    if ',' !in s then [s]
    else
      var k := FirstComma(s);
      [s[..k]] + CommaPieces(s[k + 1..])
  }

  /** The position of the first comma. */
  function FirstComma(s: string): (k: nat)
    requires ',' in s
    ensures k < |s| && s[k] == ',' && ',' !in s[..k]
  {
    if s[0] == ',' then 0
    else
      var k := FirstComma(s[1..]);
      assert s[1..][..k] == s[1..k + 1];
      k + 1
  }

  /** Pieces joined by single commas. */
  function JoinCommas(ps: seq<string>): string
    requires |ps| >= 1
  {
    if |ps| == 1 then ps[0] else ps[0] + "," + JoinCommas(ps[1..])
  }

  /** Cutting at the commas and joining with commas gives the string back. */
  lemma {:induction false} JoinCommaPieces(s: string)
    ensures JoinCommas(CommaPieces(s)) == s
    decreases |s|
  {
    if ',' in s {
      var k := FirstComma(s);
      JoinCommaPieces(s[k + 1..]);
      assert CommaPieces(s)[1..] == CommaPieces(s[k + 1..]);
      assert s == s[..k] + "," + s[k + 1..];
    }
  }

  /** Joining comma-free pieces with commas and cutting again gives the pieces back. */
  lemma {:induction false} CommaPiecesOfJoin(ps: seq<string>)
    requires |ps| >= 1
    requires forall i :: 0 <= i < |ps| ==> ',' !in ps[i]
    ensures CommaPieces(JoinCommas(ps)) == ps
    decreases |ps|
  {
    if |ps| > 1 {
      CutAfterWord(ps[0], JoinCommas(ps[1..]));
      CommaPiecesOfJoin(ps[1..]);
      assert ps == [ps[0]] + ps[1..];
    }
  }

  /** A comma-free word followed by a comma is cut off as the first piece. */
  lemma CutAfterWord(w: string, rest: string)
    requires ',' !in w
    ensures CommaPieces(w + "," + rest) == [w] + CommaPieces(rest)
  {
    var s := w + "," + rest;
    assert s[|w|] == ',';
    assert forall j :: 0 <= j < |w| ==> s[j] == w[j];
    var k := FirstComma(s);
    NoCommaBefore(s, k);
    assert k == |w|;
    assert s[..k] == w;
    assert s[k + 1..] == rest;
  }

  lemma NoCommaBefore(s: string, k: nat)
    requires k <= |s| && ',' !in s[..k]
    ensures forall j :: 0 <= j < k ==> s[j] != ','
  {
    assert forall j :: 0 <= j < k ==> s[..k][j] == s[j];
  }

  /** Piece `i` once the separator match has eaten the \s characters on both
      sides of every comma: the first piece keeps its leading blanks and the last
      its trailing ones. */
  function Field(ps: seq<string>, i: nat): string
    requires i < |ps|
  {
    var left := if i > 0 then TrimLeading(ps[i]) else ps[i];
    if i < |ps| - 1 then TrimTrailing(left) else left
  }

  /** The longest prefix that does not end with an empty string. */
  function DropTrailingEmpty(fs: seq<string>): (r: seq<string>)
    ensures |r| <= |fs| && r == fs[..|r|]
    ensures r == [] || r[|r| - 1] != ""
    ensures forall i :: |r| <= i < |fs| ==> fs[i] == ""
  {
    if fs == [] || fs[|fs| - 1] != "" then fs else DropTrailingEmpty(fs[..|fs| - 1])
  }

  /** String.split("\\s*,\\s*") with its limit of zero: a string without a comma is
      returned whole (even when it is empty); otherwise the pieces between the
      commas, without the \s characters next to each comma, and with the trailing
      empty strings removed. */
  function SplitArchives(s: string): (r: seq<string>)
    ensures forall i :: 0 <= i < |r| ==> ',' !in r[i]
  {
    if ',' !in s then [s] else DropTrailingEmpty(Fields(CommaPieces(s)))
  }

  /** Every piece with the blanks next to its commas removed. */
  function Fields(ps: seq<string>): (fs: seq<string>)
    requires forall i :: 0 <= i < |ps| ==> ',' !in ps[i]
    ensures |fs| == |ps|
    ensures forall i :: 0 <= i < |ps| ==> fs[i] == Field(ps, i) && ',' !in fs[i]
  {
    seq(|ps|, i requires 0 <= i < |ps| => FieldOf(ps, i))
  }

  function FieldOf(ps: seq<string>, i: nat): (f: string)
    requires i < |ps| && ',' !in ps[i]
    ensures f == Field(ps, i) && ',' !in f
  {
    var left := if i > 0 then TrimLeading(ps[i]) else ps[i];
    assert forall c :: c in left ==> c in ps[i];
    Field(ps, i)
  }

  /** The archive names separated by a comma with an arbitrary run of blanks on
      either side. */
  function JoinArchives(names: seq<string>, before: string, after: string): string
    requires |names| >= 1
  {
    if |names| == 1 then names[0] else names[0] + before + "," + after + JoinArchives(names[1..], before, after)
  }

  /** A name as a manifest would list it: non-empty, no comma, and no blank at
      either end. */
  predicate IsArchiveName(w: string)
  {
    w != [] && ',' !in w && !IsSpace(w[0]) && !IsSpace(w[|w| - 1])
  }

  /** The pieces of such a list, before the blanks are removed. */
  lemma {:induction false} CommaPiecesOfArchives(names: seq<string>, before: string, after: string)
    requires |names| >= 1
    requires forall i :: 0 <= i < |names| ==> IsArchiveName(names[i])
    requires ',' !in before && ',' !in after
    ensures var ps := CommaPieces(JoinArchives(names, before, after));
      |ps| == |names|
      && ps[0] == names[0] + (if |names| > 1 then before else "")
      && forall i :: 0 < i < |names| ==> ps[i] == after + names[i] + (if i < |names| - 1 then before else "")
    decreases |names|
  {
    if |names| == 1 {
      CommaPiecesOfJoin([names[0]]);
    } else {
      var tail := PiecesOfTail(names[1..], after, before);
      var ps := [names[0] + before] + tail;
      assert JoinArchives(names, before, after) == JoinCommas(ps) by {
        JoinOfTail(names[1..], after, before);
      }
      assert forall i :: 0 <= i < |ps| ==> ',' !in ps[i];
      CommaPiecesOfJoin(ps);
    }
  }

  /** The pieces after the first comma of a list: each starts with `after`, and all
      but the last end with `before`. */
  function PiecesOfTail(names: seq<string>, after: string, before: string): (r: seq<string>)
    requires |names| >= 1
    requires forall i :: 0 <= i < |names| ==> ',' !in names[i]
    requires ',' !in before && ',' !in after
    ensures |r| == |names|
    ensures forall i :: 0 <= i < |r| ==> ',' !in r[i]
    ensures forall i :: 0 <= i < |r| ==> r[i] == after + names[i] + (if i < |r| - 1 then before else "")
  {
    seq(|names|, i requires 0 <= i < |names| => NoCommaConcat(after, names[i], if i < |names| - 1 then before else ""))
  }

  /** Three comma-free strings concatenated. */
  function NoCommaConcat(a: string, b: string, c: string): (r: string)
    requires ',' !in a && ',' !in b && ',' !in c
    ensures r == a + b + c && ',' !in r
  {
    a + b + c
  }

  lemma {:induction false} JoinOfTail(names: seq<string>, after: string, before: string)
    requires |names| >= 1
    requires forall i :: 0 <= i < |names| ==> ',' !in names[i]
    requires ',' !in before && ',' !in after
    ensures after + JoinArchives(names, before, after) == JoinCommas(PiecesOfTail(names, after, before))
    decreases |names|
  {
    var r := PiecesOfTail(names, after, before);
    if |names| > 1 {
      JoinOfTail(names[1..], after, before);
      assert PiecesOfTail(names[1..], after, before) == r[1..];
      assert r[0] == after + names[0] + before;
    }
  }

  lemma {:induction false} TrimLeadingSpaces(w: string, x: string)
    requires AllSpace(w)
    requires x == [] || !IsSpace(x[0])
    ensures TrimLeading(w + x) == x
    decreases |w|
  {
    if w == [] {
      assert w + x == x;
    } else {
      assert (w + x)[1..] == w[1..] + x;
      TrimLeadingSpaces(w[1..], x);
    }
  }

  lemma {:induction false} TrimTrailingSpaces(x: string, w: string)
    requires AllSpace(w)
    requires x == [] || !IsSpace(x[|x| - 1])
    ensures TrimTrailing(x + w) == x
    decreases |w|
  {
    if w == [] {
      assert x + w == x;
    } else {
      assert (x + w)[..|x + w| - 1] == x + w[..|w| - 1];
      TrimTrailingSpaces(x, w[..|w| - 1]);
    }
  }

  /** The archive list round trip: names that a manifest lists separated by
      commas, with any blanks around each comma, are split back into exactly those
      names, in order. */
  lemma SplitJoinedArchives(names: seq<string>, before: string, after: string)
    requires |names| >= 1
    requires forall i :: 0 <= i < |names| ==> IsArchiveName(names[i])
    requires AllSpace(before) && AllSpace(after)
    ensures SplitArchives(JoinArchives(names, before, after)) == names
  {
    assert ',' !in before && ',' !in after by {
      assert !IsSpace(',');
    }
    var s := JoinArchives(names, before, after);
    var n := |names|;
    if n == 1 {
      assert s == names[0];
    } else {
      CommaPiecesOfArchives(names, before, after);
      var ps := CommaPieces(s);
      assert ',' in s;
      FieldsOfArchives(names, before, after, ps, 0);
      assert Fields(ps) == names;
    }
  }

  // Typical and edge-case manifests.

  lemma SplitEmpty()
    ensures SplitArchives("") == [""]
  {
  }

  lemma SplitLoneComma()
    ensures SplitArchives(",") == []
  {
    assert CommaPieces(",") == ["", ""] by {
      assert FirstComma(",") == 0;
      assert ","[1..] == "";
    }
  }

  /** Splitting a list of names, followed by `k` commas: the names with the
      blanks around each comma removed, then `k` empty strings. */
  lemma FieldsOfArchives(names: seq<string>, before: string, after: string, ps: seq<string>, k: nat)
    requires |names| >= 1
    requires forall i :: 0 <= i < |names| ==> IsArchiveName(names[i])
    requires AllSpace(before) && AllSpace(after)
    requires |ps| == |names| + k
    requires ps[0] == names[0] + (if |names| > 1 then before else "")
    requires forall i :: 0 < i < |names| ==> ps[i] == after + names[i] + (if i < |names| - 1 then before else "")
    requires forall i :: |names| <= i < |ps| ==> ps[i] == ""
    ensures forall i :: 0 <= i < |ps| ==> ',' !in ps[i]
    ensures Fields(ps) == names + seq(k, _ => "")
  {
    var n := |names|;
    assert ',' !in before && ',' !in after by {
      assert !IsSpace(',');
    }
    assert forall i :: 0 <= i < |ps| ==> ',' !in ps[i];
    var fs := Fields(ps);
    forall i | 0 <= i < |ps|
      ensures fs[i] == (names + seq(k, _ => ""))[i]
    {
      if i < n {
        FieldOfArchive(names, before, after, ps, i);
      }
    }
  }

  lemma FieldOfArchive(names: seq<string>, before: string, after: string, ps: seq<string>, i: nat)
    requires i < |names| <= |ps|
    requires IsArchiveName(names[i])
    requires AllSpace(before) && AllSpace(after)
    requires i == 0 ==> ps[0] == names[0] + (if |names| > 1 then before else "")
    requires i > 0 ==> ps[i] == after + names[i] + (if i < |names| - 1 then before else "")
    ensures Field(ps, i) == names[i]
  {
    var n, w := |names|, names[i];
    if i == 0 {
      if n > 1 {
        TrimTrailingSpaces(w, before);
      } else {
        TrimTrailingSpaces(w, "");
        assert w + "" == w;
      }
    } else if i < n - 1 {
      assert ps[i] == after + (w + before);
      TrimLeadingSpaces(after, w + before);
      TrimTrailingSpaces(w, before);
    } else {
      assert ps[i] == after + w;
      TrimLeadingSpaces(after, w);
      TrimTrailingSpaces(w, "");
      assert w + "" == w;
    }
  }

  /** `k` commas. */
  function Commas(k: nat): (r: string)
    ensures |r| == k && forall i :: 0 <= i < k ==> r[i] == ','
  {
    seq(k, _ => ',')
  }

  lemma {:induction false} JoinAppendEmpty(ps: seq<string>)
    requires |ps| >= 1
    ensures JoinCommas(ps + [""]) == JoinCommas(ps) + ","
    decreases |ps|
  {
    if |ps| == 1 {
      assert JoinCommas(ps + [""]) == ps[0] + "," + "";
    } else {
      assert (ps + [""])[1..] == ps[1..] + [""];
      JoinAppendEmpty(ps[1..]);
    }
  }

  /** A comma at the end adds one empty piece. */
  lemma PiecesAppendComma(s: string)
    ensures CommaPieces(s + ",") == CommaPieces(s) + [""]
  {
    var ps := CommaPieces(s);
    JoinCommaPieces(s);
    JoinAppendEmpty(ps);
    CommaPiecesOfJoin(ps + [""]);
  }

  lemma {:induction false} PiecesAppendCommas(s: string, k: nat)
    ensures CommaPieces(s + Commas(k)) == CommaPieces(s) + seq(k, _ => "")
    decreases k
  {
    if k == 0 {
      assert s + Commas(k) == s;
    } else {
      assert s + Commas(k) == (s + Commas(k - 1)) + ",";
      PiecesAppendComma(s + Commas(k - 1));
      PiecesAppendCommas(s, k - 1);
      assert seq(k - 1, _ => "") + [""] == seq(k, _ => "");
    }
  }

  lemma {:induction false} DropEmpties(names: seq<string>, k: nat)
    requires names == [] || names[|names| - 1] != ""
    ensures DropTrailingEmpty(names + seq(k, _ => "")) == names
    decreases k
  {
    if k == 0 {
      assert names + seq(k, _ => "") == names;
    } else {
      assert (names + seq(k, _ => ""))[..|names| + k - 1] == names + seq(k - 1, _ => "");
      DropEmpties(names, k - 1);
    }
  }

  /** Trailing commas, and the empty strings they leave, are dropped: a list of
      names followed by any number of commas splits into exactly those names. */
  lemma SplitTrailingCommas(names: seq<string>, before: string, after: string, k: nat)
    requires |names| >= 1
    requires forall i :: 0 <= i < |names| ==> IsArchiveName(names[i])
    requires AllSpace(before) && AllSpace(after)
    ensures SplitArchives(JoinArchives(names, before, after) + Commas(k)) == names
  {
    var s0 := JoinArchives(names, before, after);
    if k == 0 {
      assert s0 + Commas(k) == s0;
      SplitJoinedArchives(names, before, after);
    } else {
      var s := s0 + Commas(k);
      assert s[|s0|] == ',';
      assert ',' !in before && ',' !in after by {
        assert !IsSpace(',');
      }
      TrailingPieces(names, before, after, k);
      FieldsOfArchives(names, before, after, CommaPieces(s), k);
      DropEmpties(names, k);
    }
  }

  /** The pieces of a list of names followed by `k` commas: those of the list, then
      `k` empty ones. */
  lemma TrailingPieces(names: seq<string>, before: string, after: string, k: nat)
    requires |names| >= 1
    requires forall i :: 0 <= i < |names| ==> IsArchiveName(names[i])
    requires ',' !in before && ',' !in after
    ensures var ps := CommaPieces(JoinArchives(names, before, after) + Commas(k));
      |ps| == |names| + k
      && ps[0] == names[0] + (if |names| > 1 then before else "")
      && (forall i :: 0 < i < |names| ==> ps[i] == after + names[i] + (if i < |names| - 1 then before else ""))
      && (forall i :: |names| <= i < |ps| ==> ps[i] == "")
  {
    var s0 := JoinArchives(names, before, after);
    var p0 := CommaPieces(s0);
    CommaPiecesOfArchives(names, before, after);
    PiecesAppendCommas(s0, k);
    var ps := p0 + seq(k, _ => "");
    assert forall i :: 0 <= i < |names| ==> ps[i] == p0[i];
    assert forall i :: |names| <= i < |ps| ==> ps[i] == "";
  }

  // ---------------------------------------------------------------------------
  // Required properties, the mode argument and the settings main reads

  /** getSystemProperty: the value, or the "Missing System Property" error. */
  function Required(p: Properties, key: string): (r: Result<string>)
    ensures r.Ok? <==> key in p
    ensures r.Ok? ==> r.value == p[key]
    ensures r.Err? ==> r.failure == MissingProperty(key)
  {
    if key in p then Ok(p[key]) else Err(MissingProperty(key))
  }

  /** The mode argument handed to the launcher after the locale: the application
      when one is named, otherwise the product, otherwise an error naming both. */
  function ModeArgument(p: Properties): (r: Result<string>)
    ensures r.Ok? <==> LaunchAppKey in p || LaunchProductKey in p
    ensures LaunchAppKey in p ==> r.value == " -application " + p[LaunchAppKey]
    ensures LaunchAppKey !in p && LaunchProductKey in p ==> r.value == " -product " + p[LaunchProductKey]
    ensures r.Err? ==> r.failure == MissingProperty(LaunchAppKey + " or " + LaunchProductKey)
  {
    if LaunchAppKey in p then Ok(" -application " + p[LaunchAppKey])
    else if LaunchProductKey in p then Ok(" -product " + p[LaunchProductKey])
    else Err(MissingProperty(LaunchAppKey + " or " + LaunchProductKey))
  }

  /** Read as words, the mode argument is the flag followed by the name, so the
      launch string ends with exactly these two words. */
  lemma ModeArgumentWords(p: Properties)
    requires LaunchAppKey in p ==> IsWord(p[LaunchAppKey])
    requires LaunchAppKey !in p && LaunchProductKey in p ==> IsWord(p[LaunchProductKey])
    requires ModeArgument(p).Ok?
    ensures ModeArgument(p).value[0] == ' '
    ensures LaunchAppKey in p ==> Words(ModeArgument(p).value) == ["-application", p[LaunchAppKey]]
    ensures LaunchAppKey !in p ==> Words(ModeArgument(p).value) == ["-product", p[LaunchProductKey]]
  {
    if LaunchAppKey in p {
      var v := p[LaunchAppKey];
      OptionWords(" -application ", "-application", v, "");
      assert " -application " + (v + "") == ModeArgument(p).value;
    } else {
      var v := p[LaunchProductKey];
      OptionWords(" -product ", "-product", v, "");
      assert " -product " + (v + "") == ModeArgument(p).value;
    }
  }

  /** What main has gathered once the configuration has been read. */
  datatype Settings = Settings(
    properties: Properties,   // the system properties after the jnlp.custom. loop
    appName: string,
    appVersion: string,
    archives: seq<string>,
    mode: string,
    baseUrl: string,          // the code base of the JNLP file
    arch: string,
    os: string,
    tmpDir: string)

  /** The checks of main after the jnlp.custom. loop, in source order: the
      application name, version and archive list, the mode argument, the JNLP
      code base, the architecture, the operating system and the temporary
      directory. The first check that fails decides the error. */
  function SettingsOf(p: Properties, codeBase: Option<string>): (r: Result<Settings>)
    ensures r.Ok? <==>
      AppNameKey in p && AppVersionKey in p && ArchivesKey in p
      && (LaunchAppKey in p || LaunchProductKey in p) && codeBase.Some?
      && OsArchKey in p && DetermineArch(p[OsArchKey]).Ok?
      && OsNameKey in p && DetermineOS(p[OsNameKey]).Ok? && TmpDirKey in p
    ensures r.Ok? ==>
      r.value.properties == p && r.value.appName == p[AppNameKey]
      && r.value.appVersion == p[AppVersionKey]
      && r.value.archives == SplitArchives(p[ArchivesKey])
      && r.value.mode == ModeArgument(p).value && r.value.baseUrl == codeBase.value
      && r.value.arch == DetermineArch(p[OsArchKey]).value
      && r.value.os == DetermineOS(p[OsNameKey]).value && r.value.tmpDir == p[TmpDirKey]
    ensures AppNameKey !in p ==> r == Err(MissingProperty(AppNameKey))
    ensures AppNameKey in p && AppVersionKey !in p ==> r == Err(MissingProperty(AppVersionKey))
    ensures AppNameKey in p && AppVersionKey in p && ArchivesKey !in p ==> r == Err(MissingProperty(ArchivesKey))
    ensures (AppNameKey in p && AppVersionKey in p && ArchivesKey in p
      && ModeArgument(p).Err?) ==> r == Err(ModeArgument(p).failure)
    ensures (AppNameKey in p && AppVersionKey in p && ArchivesKey in p && ModeArgument(p).Ok?
      && codeBase.None?) ==> r == Err(ServiceUnavailable)
    ensures (AppNameKey in p && AppVersionKey in p && ArchivesKey in p && ModeArgument(p).Ok?
      && codeBase.Some? && OsArchKey !in p) ==> r == Err(UncaughtException("NullPointerException"))
    ensures (AppNameKey in p && AppVersionKey in p && ArchivesKey in p && ModeArgument(p).Ok?
      && codeBase.Some? && OsArchKey in p
      && DetermineArch(p[OsArchKey]).Err?) ==> r == Err(DetermineArch(p[OsArchKey]).failure)
    ensures (AppNameKey in p && AppVersionKey in p && ArchivesKey in p && ModeArgument(p).Ok?
      && codeBase.Some? && OsArchKey in p && DetermineArch(p[OsArchKey]).Ok?
      && OsNameKey !in p) ==> r == Err(UncaughtException("NullPointerException"))
    ensures (AppNameKey in p && AppVersionKey in p && ArchivesKey in p && ModeArgument(p).Ok?
      && codeBase.Some? && OsArchKey in p && DetermineArch(p[OsArchKey]).Ok? && OsNameKey in p
      && DetermineOS(p[OsNameKey]).Err?) ==> r == Err(DetermineOS(p[OsNameKey]).failure)
    ensures (AppNameKey in p && AppVersionKey in p && ArchivesKey in p && ModeArgument(p).Ok?
      && codeBase.Some? && OsArchKey in p && DetermineArch(p[OsArchKey]).Ok? && OsNameKey in p
      && DetermineOS(p[OsNameKey]).Ok? && TmpDirKey !in p) ==> r == Err(MissingProperty(TmpDirKey))
  {
    if AppNameKey !in p then Err(MissingProperty(AppNameKey))
    else if AppVersionKey !in p then Err(MissingProperty(AppVersionKey))
    else if ArchivesKey !in p then Err(MissingProperty(ArchivesKey))
    else
      match ModeArgument(p)
      case Err(f) => Err(f)
      case Ok(mode) =>
        if codeBase.None? then Err(ServiceUnavailable)
        // System.getProperty("os.arch").toLowerCase() on an absent property
        else if OsArchKey !in p then Err(UncaughtException("NullPointerException"))
        else
          match DetermineArch(p[OsArchKey])
          case Err(f) => Err(f)
          case Ok(arch) =>
            if OsNameKey !in p then Err(UncaughtException("NullPointerException"))
            else
              match DetermineOS(p[OsNameKey])
              case Err(f) => Err(f)
              case Ok(os) =>
                if TmpDirKey !in p then Err(MissingProperty(TmpDirKey))
                else
                  Ok(Settings(p, p[AppNameKey], p[AppVersionKey], SplitArchives(p[ArchivesKey]),
                              mode, codeBase.value, arch, os, p[TmpDirKey]))
  }

  /** Main's configuration phase: the jnlp.custom. loop, then the checks. */
  function ReadSettings(props: Properties, keys: seq<string>, codeBase: Option<string>): (r: Result<Settings>)
    requires forall k :: k in keys ==> k in props
    ensures ApplyCustom(props, keys).Err? ==> r == Err(ApplyCustom(props, keys).failure)
    ensures ApplyCustom(props, keys).Ok? ==> r == SettingsOf(ApplyCustom(props, keys).value, codeBase)
  {
    match ApplyCustom(props, keys)
    case Err(f) => Err(f)
    case Ok(p) => SettingsOf(p, codeBase)
  }

  /** A property passed under the jnlp.custom. prefix satisfies a check as if it had
      been set directly: the application name is found under its stripped key. */
  lemma CustomPropertyIsRequired(props: Properties, keys: seq<string>, name: string)
    requires SinglePrefixed(props)
    requires forall k :: k in keys <==> k in props
    requires CustomPrefix + AppNameKey in props && props[CustomPrefix + AppNameKey] == name
    ensures ApplyCustom(props, keys).Ok?
    ensures Required(ApplyCustom(props, keys).value, AppNameKey) == Ok(name)
  {
    CustomStripsPrefix(props, keys);
  }

  /** Errors follow source order: a missing version is reported even when the
      code base, the architecture and the operating system are also missing. */
  lemma MissingVersionFirst(p: Properties, codeBase: Option<string>)
    requires AppNameKey in p && AppVersionKey !in p
    ensures SettingsOf(p, codeBase) == Err(MissingProperty(AppVersionKey))
  {
  }

  /** A missing mode argument is reported before an unavailable JNLP service. */
  lemma MissingModeBeforeService(p: Properties)
    requires AppNameKey in p && AppVersionKey in p && ArchivesKey in p
    requires LaunchAppKey !in p && LaunchProductKey !in p
    ensures SettingsOf(p, None) == Err(MissingProperty(LaunchAppKey + " or " + LaunchProductKey))
  {
  }
}
