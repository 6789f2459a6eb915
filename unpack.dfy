/** The unpack worker: a first-in first-out queue of downloaded archives, each
    extracted into the destination directory without overwriting anything, after
    an optional clean-up of that directory that spares the workspace. */
module Unpack {
  import opened Failures
  import opened FileTree

  /** The child of the destination directory that clean-up keeps. */
  const Workspace := "workspace"

  /** A zip entry: its name, as path components below the destination directory,
      whether it is a directory, and its inflated bytes. */
  datatype Entry = Entry(name: Path, isDirectory: bool, data: seq<byte>)

  /** The file system after an extraction, and whether it went without an
      IOException. */
  datatype Extracted = Extracted(tree: Tree, ok: bool)

  /** `q` is the destination directory, lies below it or is one of its ancestors. */
  predicate Near(d: Path, q: Path)
  {
    IsPrefix(d, q) || IsPrefix(q, d)
  }

  /** A path around `d + name` is near `d`. */
  lemma AncestorOfEntryIsNear(d: Path, name: Path, q: Path)
    requires IsPrefix(q, d + name)
    ensures Near(d, q)
  {
    if |q| <= |d| {
      assert (d + name)[..|q|] == d[..|q|];
    } else {
      assert (d + name)[..|q|][..|d|] == d;
    }
  }

  /** One entry of unpackFile's loop: an existing path is skipped; a directory
      entry runs mkdirs and fails unless a directory results; a file entry needs
      its parent directory, and its destination receives the entry's bytes. */
  function ExtractEntry(m: Tree, d: Path, e: Entry): (r: Extracted)
    ensures forall q :: q in m ==> q in r.tree && r.tree[q] == m[q]
    ensures forall q :: q in r.tree && q !in m ==> IsPrefix(q, d + e.name)
    ensures d + e.name in m ==> r == Extracted(m, true)
    ensures r.ok ==> d + e.name in r.tree
  {
    var p := d + e.name;
    if p in m then Extracted(m, true)
    else if e.isDirectory then
      var t := MkDirs(m, p);
      Extracted(t, p in t && t[p] == Dir)
    else if CanWrite(m, p) then Extracted(m[p := File(e.data)], true)
    else Extracted(m, false)
  }

  /** The entries of one archive in order, up to the first failure. */
  function ExtractEntries(m: Tree, d: Path, es: seq<Entry>): (r: Extracted)
    ensures es == [] ==> r == Extracted(m, true)
    decreases |es|
  {
    if es == [] then Extracted(m, true)
    else
      var x := ExtractEntry(m, d, es[0]);
      if !x.ok then x else ExtractEntries(x.tree, d, es[1..])
  }

  /** unpackFile: the archive must be a file that decodes as a zip archive (where
      `decode` stands for ZipFile); then its entries are extracted. */
  function UnpackArchive(m: Tree, d: Path, zip: Path, decode: seq<byte> -> Option<seq<Entry>>): (r: Extracted)
    ensures !(zip in m && m[zip].File? && decode(m[zip].data).Some?) ==> r == Extracted(m, false)
    ensures zip in m && m[zip].File? && decode(m[zip].data).Some? ==> r == ExtractEntries(m, d, decode(m[zip].data).value)
  {
    if zip in m && m[zip].File? then
      match decode(m[zip].data)
      case None => Extracted(m, false)
      case Some(es) => ExtractEntries(m, d, es)
    else Extracted(m, false)
  }

  /** The worker's queue, drained in order; an extraction error ends the process,
      so nothing after it is unpacked. */
  function UnpackAll(m: Tree, d: Path, files: seq<Path>, decode: seq<byte> -> Option<seq<Entry>>): (r: Extracted)
    ensures files == [] ==> r == Extracted(m, true)
    decreases |files|
  {
    if files == [] then Extracted(m, true)
    else
      var x := UnpackArchive(m, d, files[0], decode);
      if !x.ok then x else UnpackAll(x.tree, d, files[1..], decode)
  }

  /** Extracting an archive changes nothing that exists, and everything it
      creates lies near the destination directory. */
  lemma {:induction false} ExtractEntriesKeeps(m: Tree, d: Path, es: seq<Entry>)
    ensures forall q :: q in m ==> q in ExtractEntries(m, d, es).tree && ExtractEntries(m, d, es).tree[q] == m[q]
    ensures forall q :: q in ExtractEntries(m, d, es).tree && q !in m ==> Near(d, q)
    decreases |es|
  {
    if es != [] {
      var x := ExtractEntry(m, d, es[0]);
      forall q | q in x.tree && q !in m
        ensures Near(d, q)
      {
        AncestorOfEntryIsNear(d, es[0].name, q);
      }
      if x.ok {
        ExtractEntriesKeeps(x.tree, d, es[1..]);
      }
    }
  }

  /** No overwrite, over the whole queue: whatever exists before the worker runs
      keeps its content, whichever archives follow; and nothing is created away
      from the destination directory. */
  lemma {:induction false} UnpackAllKeeps(m: Tree, d: Path, files: seq<Path>, decode: seq<byte> -> Option<seq<Entry>>)
    ensures forall q :: q in m ==> q in UnpackAll(m, d, files, decode).tree && UnpackAll(m, d, files, decode).tree[q] == m[q]
    ensures forall q :: q in UnpackAll(m, d, files, decode).tree && q !in m ==> Near(d, q)
    decreases |files|
  {
    if files != [] {
      var zip := files[0];
      if zip in m && m[zip].File? && decode(m[zip].data).Some? {
        ExtractEntriesKeeps(m, d, decode(m[zip].data).value);
      }
      var x := UnpackArchive(m, d, zip, decode);
      if x.ok {
        UnpackAllKeeps(x.tree, d, files[1..], decode);
      }
    }
  }

  lemma ExtractEntriesStep(m: Tree, d: Path, es: seq<Entry>, i: nat)
    requires i < |es|
    ensures var x := ExtractEntry(m, d, es[i]);
      ExtractEntries(m, d, es[i..]) == if x.ok then ExtractEntries(x.tree, d, es[i + 1..]) else x
  {
    assert es[i..][1..] == es[i + 1..];
  }

  lemma UnpackAllStep(m: Tree, d: Path, files: seq<Path>, decode: seq<byte> -> Option<seq<Entry>>)
    requires files != []
    ensures var x := UnpackArchive(m, d, files[0], decode);
      UnpackAll(m, d, files, decode) == if x.ok then UnpackAll(x.tree, d, files[1..], decode) else x
  {
  }

  /** Extraction keeps the file system well formed. */
  lemma ExtractEntryWellFormed(m: Tree, d: Path, e: Entry)
    requires WellFormed(m)
    ensures WellFormed(ExtractEntry(m, d, e).tree)
  {
    var p := d + e.name;
    if p !in m {
      if e.isDirectory {
        MkDirsMakesDir(m, p);
      } else if CanWrite(m, p) {
        SetFileWellFormed(m, p, e.data);
      }
    }
  }

  lemma {:induction false} ExtractEntriesWellFormed(m: Tree, d: Path, es: seq<Entry>)
    requires WellFormed(m)
    ensures WellFormed(ExtractEntries(m, d, es).tree)
    decreases |es|
  {
    if es != [] {
      ExtractEntryWellFormed(m, d, es[0]);
      ExtractEntriesWellFormed(ExtractEntry(m, d, es[0]).tree, d, es[1..]);
    }
  }

  /** A directory entry whose path is missing ends as a directory exactly when no
      ancestor of the path is a file; otherwise extraction fails and nothing
      changes. */
  lemma DirectoryEntryResult(m: Tree, d: Path, e: Entry)
    requires WellFormed(m) && e.isDirectory && d + e.name !in m
    ensures ExtractEntry(m, d, e).ok <==> NoFileAbove(m, d + e.name)
    ensures ExtractEntry(m, d, e).ok ==> ExtractEntry(m, d, e).tree[d + e.name] == Dir
    ensures !ExtractEntry(m, d, e).ok ==> ExtractEntry(m, d, e).tree == m
  {
    MkDirsMakesDir(m, d + e.name);
  }

  /** A file entry whose path is missing holds exactly the entry's bytes
      afterwards, when its parent is a directory; otherwise extraction fails and
      nothing changes. Directories are never made for a file entry. */
  lemma FileEntryResult(m: Tree, d: Path, e: Entry)
    requires !e.isDirectory && d + e.name !in m
    ensures ExtractEntry(m, d, e).ok <==> d + e.name != [] && Parent(d + e.name) in m && m[Parent(d + e.name)] == Dir
    ensures ExtractEntry(m, d, e).ok ==> ExtractEntry(m, d, e).tree == m[d + e.name := File(e.data)]
    ensures !ExtractEntry(m, d, e).ok ==> ExtractEntry(m, d, e).tree == m
  {
  }

  /** After a successful extraction every entry's path exists. */
  lemma {:induction false} ExtractedPathsExist(m: Tree, d: Path, es: seq<Entry>)
    requires ExtractEntries(m, d, es).ok
    ensures forall i :: 0 <= i < |es| ==> d + es[i].name in ExtractEntries(m, d, es).tree
    decreases |es|
  {
    if es != [] {
      var x := ExtractEntry(m, d, es[0]);
      ExtractedPathsExist(x.tree, d, es[1..]);
      ExtractEntriesKeeps(x.tree, d, es[1..]);
      forall i | 0 < i < |es|
        ensures d + es[i].name in ExtractEntries(m, d, es).tree
      {
        assert es[i] == es[1..][i - 1];
      }
    }
  }

  /** After the whole queue has been unpacked without error, every archive of it
      that existed beforehand was a zip file, and every one of its entries exists. */
  lemma {:induction false} UnpackAllPathsExist(m: Tree, d: Path, files: seq<Path>, decode: seq<byte> -> Option<seq<Entry>>)
    requires UnpackAll(m, d, files, decode).ok
    ensures forall k :: 0 <= k < |files| && files[k] in m ==>
      m[files[k]].File? && decode(m[files[k]].data).Some?
      && forall e :: e in decode(m[files[k]].data).value ==> d + e.name in UnpackAll(m, d, files, decode).tree
    decreases |files|
  {
    if files != [] {
      var zip := files[0];
      var x := UnpackArchive(m, d, zip, decode);
      var r := UnpackAll(m, d, files, decode);
      assert r == UnpackAll(x.tree, d, files[1..], decode);
      UnpackAllPathsExist(x.tree, d, files[1..], decode);
      UnpackAllKeeps(x.tree, d, files[1..], decode);
      var es := decode(m[zip].data).value;
      ExtractEntriesKeeps(m, d, es);
      ExtractedPathsExist(m, d, es);
      forall e | e in es
        ensures d + e.name in r.tree
      {
        var i :| 0 <= i < |es| && es[i] == e;
      }
      forall k | 0 < k < |files| && files[k] in m
        ensures m[files[k]].File? && decode(m[files[k]].data).Some?
          && forall e :: e in decode(m[files[k]].data).value ==> d + e.name in r.tree
      {
        assert files[1..][k - 1] == files[k];
      }
    }
  }

  /** Extraction skips every entry whose path exists. */
  lemma {:induction false} ExistingPathsSkipped(m: Tree, d: Path, es: seq<Entry>)
    requires forall i :: 0 <= i < |es| ==> d + es[i].name in m
    ensures ExtractEntries(m, d, es) == Extracted(m, true)
    decreases |es|
  {
    if es != [] {
      forall i | 0 <= i < |es| - 1
        ensures d + es[1..][i].name in m
      {
        assert es[1..][i] == es[i + 1];
      }
      ExistingPathsSkipped(m, d, es[1..]);
    }
  }

  /** Extracting an archive a second time, as a new run does when the version is
      unchanged, changes nothing. */
  lemma RerunChangesNothing(m: Tree, d: Path, es: seq<Entry>)
    requires ExtractEntries(m, d, es).ok
    ensures ExtractEntries(ExtractEntries(m, d, es).tree, d, es) == Extracted(ExtractEntries(m, d, es).tree, true)
  {
    ExtractedPathsExist(m, d, es);
    ExistingPathsSkipped(ExtractEntries(m, d, es).tree, d, es);
  }

  /** Of two archives that hold the same path, the first one queued decides its
      content: whatever the first leaves the second keeps. */
  lemma FirstArchiveWins(m: Tree, d: Path, a: Path, b: Path, decode: seq<byte> -> Option<seq<Entry>>, q: Path)
    requires UnpackArchive(m, d, a, decode).ok
    requires q in UnpackArchive(m, d, a, decode).tree
    ensures q in UnpackAll(m, d, [a, b], decode).tree
    ensures UnpackAll(m, d, [a, b], decode).tree[q] == UnpackArchive(m, d, a, decode).tree[q]
  {
    var x := UnpackArchive(m, d, a, decode);
    assert [a, b][1..] == [b];
    assert UnpackAll(m, d, [a, b], decode) == UnpackAll(x.tree, d, [b], decode);
    UnpackAllKeeps(x.tree, d, [b], decode);
  }

  /** The paths strictly below `p` that lie under one of the children in `done`. */
  predicate Below(p: Path, done: set<Path>, q: Path)
  {
    |p| < |q| && IsPrefix(p, q) && q[..|p| + 1] in done
  }

  /** The tree without the sub-trees of the children of `p` in `done`. */
  function PruneChildren(m: Tree, p: Path, done: set<Path>): (r: Tree)
    ensures forall q :: q in r <==> q in m && !Below(p, done, q)
    ensures forall q :: q in r ==> r[q] == m[q]
  {
    map q | q in m && !Below(p, done, q) :: m[q]
  }

  /** Below a child of `p` means below `p` through that child. */
  lemma ChildPrefix(p: Path, c: Path, q: Path)
    requires c != [] && Parent(c) == p
    ensures IsPrefix(c, q) <==> |p| < |q| && IsPrefix(p, q) && q[..|p| + 1] == c
  {
    if IsPrefix(c, q) {
      assert q[..|p|] == q[..|c|][..|p|];
    }
  }

  /** Removing one more child's sub-tree. */
  lemma PruneStep(m: Tree, p: Path, done: set<Path>, c: Path)
    requires c != [] && Parent(c) == p
    ensures RemoveTree(PruneChildren(m, p, done), c) == PruneChildren(m, p, done + {c})
  {
    forall q
      ensures IsPrefix(c, q) <==> |p| < |q| && IsPrefix(p, q) && q[..|p| + 1] == c
    {
      ChildPrefix(p, c, q);
    }
  }

  /** With every child's sub-tree gone, the directory is empty, and deleting it
      leaves the tree without the whole sub-tree. */
  lemma PrunedAll(m: Tree, p: Path)
    requires WellFormed(m) && p in m
    ensures p in PruneChildren(m, p, Children(m, p))
    ensures Children(PruneChildren(m, p, Children(m, p)), p) == {}
    ensures PruneChildren(m, p, Children(m, p)) - {p} == RemoveTree(m, p)
  {
    PrunedIsEmpty(m, p);
    PrunedRemovesAll(m, p);
  }

  lemma PrunedIsEmpty(m: Tree, p: Path)
    ensures Children(PruneChildren(m, p, Children(m, p)), p) == {}
  {
    var r := PruneChildren(m, p, Children(m, p));
    forall c | c in m && c != [] && Parent(c) == p
      ensures c !in r
    {
      assert c[..|p| + 1] == c;
    }
  }

  lemma PrunedRemovesAll(m: Tree, p: Path)
    requires WellFormed(m)
    ensures PruneChildren(m, p, Children(m, p)) - {p} == RemoveTree(m, p)
  {
    var r := PruneChildren(m, p, Children(m, p)) - {p};
    forall q | q in m
      ensures q in r <==> !IsPrefix(p, q)
    {
      if IsPrefix(p, q) && q != p {
        ChildAbove(m, p, q);
      }
    }
  }

  /** The recursive call on a child works on a smaller sub-tree. */
  lemma UnderShrinks(m: Tree, p: Path, done: set<Path>, c: Path)
    requires p in m && c != [] && Parent(c) == p
    ensures |Under(PruneChildren(m, p, done), c)| < |Under(m, p)|
  {
    var small, big := Under(PruneChildren(m, p, done), c), Under(m, p);
    forall q | q in small
      ensures q in big
    {
      ChildPrefix(p, c, q);
    }
    SmallerSubset(small, big, p);
  }

  /** Moving one element from the pending set to the finished one. */
  lemma MoveOne<T>(todo: set<T>, done: set<T>, c: T)
    requires c in todo && todo !! done
    ensures (todo - {c}) + (done + {c}) == todo + done && (todo - {c}) !! (done + {c})
  {
  }

  /** The children of the destination directory that clean-up removes. */
  function Swept(m: Tree, d: Path): set<Path>
  {
    set c | c in Children(m, d) && Name(c) != Workspace
  }

  /** cleanUpDestDir on an existing directory: the tree without the sub-tree of
      every child except the workspace. */
  function Cleaned(m: Tree, d: Path): Tree
  {
    PruneChildren(m, d, Swept(m, d))
  }

  /** Clean-up removes exactly what lies below the destination directory outside
      its workspace; everything else keeps its content. */
  lemma CleanUpKeepsWorkspace(m: Tree, d: Path)
    requires WellFormed(m)
    ensures forall q :: q in Cleaned(m, d) <==> q in m && !(|d| < |q| && IsPrefix(d, q) && q[|d|] != Workspace)
    ensures forall q :: q in Cleaned(m, d) ==> Cleaned(m, d)[q] == m[q]
  {
    forall q | q in m && |d| < |q| && IsPrefix(d, q)
      ensures Below(d, Swept(m, d), q) <==> q[|d|] != Workspace
    {
      ChildAbove(m, d, q);
      assert Name(q[..|d| + 1]) == q[|d|];
    }
  }

  /** In particular, the workspace sub-tree survives unchanged. */
  lemma WorkspaceSurvives(m: Tree, d: Path, q: Path)
    requires WellFormed(m) && q in m && IsPrefix(d + [Workspace], q)
    ensures q in Cleaned(m, d) && Cleaned(m, d)[q] == m[q]
  {
    CleanUpKeepsWorkspace(m, d);
    assert q[..|d|] == (d + [Workspace])[..|d|] == d;
    assert q[|d|] == (d + [Workspace])[|d|];
  }

  /** Nothing happens below a missing destination directory. */
  lemma CleanAbsent(m: Tree, d: Path)
    requires WellFormed(m) && d !in m
    ensures Children(m, d) == {}
  {
  }

  /** The unpack worker, run sequentially: the constructor performs the clean-up
      that run starts with, addNextFile appends to the queue, and the queue is
      drained from its head by unpackNext and finish. `unpacked` records the
      archives extracted so far, in order. */
  class UnpackThread {
    const fs: FileSystem
    const destDir: Path
    const cleanUp: bool
    const decode: seq<byte> -> Option<seq<Entry>>
    var fileList: seq<Path>
    var finished: bool
    /** run ended with an uncaught exception (clean-up on a destination that is
        a file); a dead worker unpacks nothing and join returns at once. */
    var crashed: bool
    ghost var unpacked: seq<Path>

    /** The file system is well formed, and a crashed worker died in its clean-up
        before unpacking anything. */
    ghost predicate Valid()
      reads this, fs
    {
      fs.Valid() && (crashed ==> cleanUp && unpacked == [])
    }

    /** The constructor starts the worker, whose first step is the clean-up. */
    constructor(fs: FileSystem, destDir: Path, cleanUp: bool, decode: seq<byte> -> Option<seq<Entry>>)
      requires fs.Valid()
      modifies fs
      ensures Valid()
      ensures this.fs == fs && this.destDir == destDir && this.cleanUp == cleanUp && this.decode == decode
      ensures fileList == [] && !finished && unpacked == []
      ensures crashed <==> cleanUp && destDir in old(fs.nodes) && old(fs.nodes)[destDir].File?
      ensures cleanUp && !crashed ==> fs.nodes == Cleaned(old(fs.nodes), destDir)
      ensures !cleanUp || crashed ==> fs.nodes == old(fs.nodes)
    {
      this.fs := fs;
      this.destDir := destDir;
      this.cleanUp := cleanUp;
      this.decode := decode;
      fileList := [];
      finished := false;
      crashed := false;
      unpacked := [];
      new;
      if cleanUp {
        var ok := CleanUpDestDir();
        crashed := !ok;
      }
    }

    /** addNextFile: the file joins the end of the queue. */
    method AddNextFile(file: Path)
      modifies this
      ensures fileList == old(fileList) + [file]
      ensures finished == old(finished) && crashed == old(crashed) && unpacked == old(unpacked)
    {
      fileList := fileList + [file];
    }

    /** One turn of run's loop: the head of the queue is removed and unpacked. */
    method UnpackNext() returns (ok: bool)
      requires Valid() && !crashed && fileList != []
      modifies this, fs
      ensures Valid()
      ensures fileList == old(fileList)[1..] && unpacked == old(unpacked) + [old(fileList)[0]]
      ensures finished == old(finished) && crashed == old(crashed)
      ensures Extracted(fs.nodes, ok) == UnpackArchive(old(fs.nodes), destDir, old(fileList)[0], decode)
    {
      var file := fileList[0];
      fileList := fileList[1..];
      unpacked := unpacked + [file];
      ok := UnpackFile(file);
    }

    /** finish: the worker drains the whole queue, in order, before join returns;
        an extraction error ends the process with exit code 1. */
    method Finish() returns (error: Option<Failure>)
      requires Valid()
      modifies this, fs
      ensures Valid() && finished && crashed == old(crashed)
      ensures crashed ==> error.None? && fs.nodes == old(fs.nodes) && fileList == old(fileList)
      ensures !crashed ==> Extracted(fs.nodes, error.None?) == UnpackAll(old(fs.nodes), destDir, old(fileList), decode)
      ensures !crashed && error.None? ==> fileList == [] && unpacked == old(unpacked) + old(fileList)
      ensures error.Some? ==> error == Some(ExtractionFailed)
    {
      finished := true;
      if crashed {
        return None;
      }
      ghost var m0, list0 := fs.nodes, fileList;
      while fileList != []
        invariant Valid() && finished && !crashed
        invariant UnpackAll(m0, destDir, list0, decode) == UnpackAll(fs.nodes, destDir, fileList, decode)
        invariant unpacked + fileList == old(unpacked) + list0
        decreases |fileList|
      {
        ghost var rest := fileList;
        UnpackAllStep(fs.nodes, destDir, fileList, decode);
        var ok := UnpackNext();
        assert unpacked + fileList == old(unpacked) + list0 by {
          assert rest == [rest[0]] + fileList;
        }
        if !ok {
          return Some(ExtractionFailed);
        }
      }
      return None;
    }

    /** unpackFile, entry by entry. */
    method UnpackFile(file: Path) returns (ok: bool)
      requires fs.Valid()
      modifies fs
      ensures fs.Valid()
      ensures Extracted(fs.nodes, ok) == UnpackArchive(old(fs.nodes), destDir, file, decode)
    {
      if !(fs.Exists(file) && fs.nodes[file].File?) {
        return false;
      }
      var entries := decode(fs.nodes[file].data);
      if entries.None? {
        return false;
      }
      var es := entries.value;
      ghost var m0 := fs.nodes;
      var i := 0;
      while i < |es|
        invariant 0 <= i <= |es|
        invariant fs.Valid()
        invariant ExtractEntries(m0, destDir, es) == ExtractEntries(fs.nodes, destDir, es[i..])
      {
        ExtractEntriesStep(fs.nodes, destDir, es, i);
        ok := ExtractOne(es[i]);
        if !ok {
          return false;
        }
        i := i + 1;
      }
      return true;
    }

    /** The body of unpackFile's loop, for one entry. */
    method ExtractOne(e: Entry) returns (ok: bool)
      requires fs.Valid()
      modifies fs
      ensures fs.Valid()
      ensures Extracted(fs.nodes, ok) == ExtractEntry(old(fs.nodes), destDir, e)
    {
      var entryFile := destDir + e.name;
      if fs.Exists(entryFile) {
        return true;
      }
      if e.isDirectory {
        fs.MakeDirs(entryFile);
        return fs.IsDirectory(entryFile);
      }
      ok := fs.OpenForWrite(entryFile);
      if ok {
        CopyEntry(entryFile, e.data);
      }
    }

    /** The copy loop of unpackFile: the entry's bytes go out one buffer at a
        time, and the file ends up holding exactly those bytes. */
    method CopyEntry(p: Path, data: seq<byte>)
      requires fs.Valid() && p in fs.nodes && fs.nodes[p] == File([])
      modifies fs
      ensures fs.Valid()
      ensures fs.nodes == old(fs.nodes)[p := File(data)]
    {
      var pos := 0;
      while pos < |data|
        invariant 0 <= pos <= |data|
        invariant fs.Valid()
        invariant fs.nodes == old(fs.nodes)[p := File(data[..pos])]
      {
        var size := if |data| - pos < BufferSize then |data| - pos else BufferSize;
        fs.Append(p, data[pos..pos + size]);
        assert data[..pos] + data[pos..pos + size] == data[..pos + size];
        pos := pos + size;
      }
      assert data[..pos] == data;
    }

    /** cleanUpDestDir: when the destination exists, every child but the
        workspace is removed recursively. A destination that is a file lists as
        null, and reading the length of that listing throws: the answer is then
        false and nothing changes. */
    method CleanUpDestDir() returns (ok: bool)
      requires fs.Valid()
      modifies fs
      ensures fs.Valid()
      ensures ok <==> !(destDir in old(fs.nodes) && old(fs.nodes)[destDir].File?)
      ensures ok ==> fs.nodes == Cleaned(old(fs.nodes), destDir)
      ensures !ok ==> fs.nodes == old(fs.nodes)
    {
      ghost var m0 := fs.nodes;
      if !fs.Exists(destDir) {
        CleanAbsent(m0, destDir);
        assert Swept(m0, destDir) == {};
        assert Cleaned(m0, destDir) == m0;
        return true;
      }
      var files := fs.ListFiles(destDir);
      if files.None? {
        return false;
      }
      var todo := files.value;
      ghost var done: set<Path> := {};
      ghost var swept: set<Path> := {};
      assert fs.nodes == PruneChildren(m0, destDir, swept);
      while todo != {}
        invariant fs.Valid()
        invariant todo + done == Children(m0, destDir) && todo !! done
        invariant forall c :: c in swept <==> c in done && Name(c) != Workspace
        invariant fs.nodes == PruneChildren(m0, destDir, swept)
        decreases |todo|
      {
        var c :| c in todo;
        if Name(c) != Workspace {
          RemoveRecursively(c);
          PruneStep(m0, destDir, swept, c);
          swept := swept + {c};
        }
        MoveOne(todo, done, c);
        todo := todo - {c};
        done := done + {c};
      }
      assert swept == Swept(m0, destDir);
      return true;
    }

    /** removeRecursively: a missing path is left alone; a file is deleted; a
        directory loses every child's sub-tree and then itself. */
    method RemoveRecursively(dir: Path)
      requires fs.Valid() && dir != []
      modifies fs
      ensures fs.Valid()
      ensures fs.nodes == RemoveTree(old(fs.nodes), dir)
      decreases |Under(fs.nodes, dir)|
    {
      ghost var m0 := fs.nodes;
      if !fs.Exists(dir) {
        AbsentHasNoSubtree(m0, dir);
        return;
      }
      if !fs.IsDirectory(dir) {
        FileHasNoSubtree(m0, dir);
        var _ := fs.Delete(dir);
      }
      var files := fs.ListFiles(dir);
      if files.Some? {
        var todo := files.value;
        ghost var done: set<Path> := {};
        assert fs.nodes == PruneChildren(m0, dir, done);
        while todo != {}
          invariant fs.Valid()
          invariant todo + done == Children(m0, dir) && todo !! done
          invariant fs.nodes == PruneChildren(m0, dir, done)
          decreases |todo|
        {
          var c :| c in todo;
          UnderShrinks(m0, dir, done, c);
          RemoveRecursively(c);
          PruneStep(m0, dir, done, c);
          MoveOne(todo, done, c);
          todo := todo - {c};
          done := done + {c};
        }
        PrunedAll(m0, dir);
      }
      var _ := fs.Delete(dir);
    }
  }
}
