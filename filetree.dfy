/** The part of java.io.File that the bootstrapper and the unpack worker use, over
    an abstract file system: a map from paths to nodes. */
module FileTree {
  import opened Failures

  newtype byte = x: int | 0 <= x < 256

  /** The size of the copy buffers of downloadFile and unpackFile. */
  const BufferSize := 32768

  /** A path is its sequence of names below the root. */
  type Path = seq<string>

  datatype Node = File(data: seq<byte>) | Dir

  type Tree = map<Path, Node>

  function Parent(p: Path): Path
    requires p != []
  {
    p[..|p| - 1]
  }

  /** The last name of a path: File.getName. */
  function Name(p: Path): string
    requires p != []
  {
    p[|p| - 1]
  }

  /** `a` is `b` or one of its ancestors. */
  predicate IsPrefix(a: Path, b: Path)
  {
    |a| <= |b| && b[..|a|] == a
  }

  /** The root is a directory and every other path sits in a directory. */
  ghost predicate WellFormed(m: Tree)
  {
    [] in m && m[[]] == Dir
    && forall p :: p in m && p != [] ==> Parent(p) in m && m[Parent(p)] == Dir
  }

  /** Every ancestor of a path in the tree is a directory in the tree. */
  lemma {:induction false} AncestorsAreDirs(m: Tree, q: Path, i: nat)
    requires WellFormed(m) && q in m && i < |q|
    ensures q[..i] in m && m[q[..i]] == Dir
    decreases |q| - i
  {
    if i == |q| - 1 {
      assert q[..i] == Parent(q);
    } else {
      AncestorsAreDirs(m, q, i + 1);
      var a := q[..i + 1];
      assert Parent(a) == q[..i];
    }
  }

  /** A sub-tree of a path in the tree lies below one of the path's children. */
  lemma ChildAbove(m: Tree, p: Path, q: Path)
    requires WellFormed(m) && q in m && IsPrefix(p, q) && q != p
    ensures q[..|p| + 1] in Children(m, p)
  {
    var c := q[..|p| + 1];
    if |p| + 1 < |q| {
      AncestorsAreDirs(m, q, |p| + 1);
    } else {
      assert c == q;
    }
    assert Parent(c) == q[..|p|] == p;
  }

  /** File.listFiles on a directory, as a set: the paths one level below it. */
  function Children(m: Tree, p: Path): (r: set<Path>)
    ensures forall c :: c in r <==> c in m && c != [] && Parent(c) == p
  {
    set c | c in m && c != [] && Parent(c) == p
  }

  /** The sub-tree at `p`: `p` and every path below it. */
  function Under(m: Tree, p: Path): (r: set<Path>)
    ensures forall q :: q in r <==> q in m && IsPrefix(p, q)
  {
    set q | q in m && IsPrefix(p, q)
  }

  /** The tree without the sub-tree at `p`. */
  function RemoveTree(m: Tree, p: Path): (r: Tree)
    ensures forall q :: q in r <==> q in m && !IsPrefix(p, q)
    ensures forall q :: q in r ==> r[q] == m[q]
  {
    map q | q in m && !IsPrefix(p, q) :: m[q]
  }

  /** Removing a sub-tree other than the whole tree keeps the tree well formed. */
  lemma RemoveTreeWellFormed(m: Tree, p: Path)
    requires WellFormed(m) && p != []
    ensures WellFormed(RemoveTree(m, p))
  {
    var r := RemoveTree(m, p);
    forall q | q in r && q != []
      ensures Parent(q) in r && r[Parent(q)] == Dir
    {
      PrefixOfParent(p, q);
    }
  }

  lemma PrefixOfParent(p: Path, q: Path)
    requires q != []
    ensures IsPrefix(p, Parent(q)) ==> IsPrefix(p, q)
  {
    if IsPrefix(p, Parent(q)) {
      assert q[..|p|] == Parent(q)[..|p|];
    }
  }

  /** Nothing lies below a path that is not in the tree. */
  lemma AbsentHasNoSubtree(m: Tree, p: Path)
    requires WellFormed(m) && p !in m
    ensures RemoveTree(m, p) == m
  {
    forall q | q in m && IsPrefix(p, q)
      ensures false
    {
      if q != p {
        AncestorsAreDirs(m, q, |p|);
      }
    }
  }

  /** Nothing lies below a file. */
  lemma FileHasNoSubtree(m: Tree, p: Path)
    requires WellFormed(m) && p in m && m[p].File?
    ensures RemoveTree(m, p) == m - {p}
  {
    forall q | q in m && IsPrefix(p, q) && q != p
      ensures false
    {
      AncestorsAreDirs(m, q, |p|);
    }
  }

  /** A proper subset of a finite set is smaller. */
  lemma SmallerSubset<T>(a: set<T>, b: set<T>, x: T)
    requires a <= b && x in b && x !in a
    ensures |a| < |b|
  {
    assert a <= b - {x};
    assert |b - {x}| == |b| - 1;
    SubsetCardinality(a, b - {x});
  }

  lemma SubsetCardinality<T>(a: set<T>, b: set<T>)
    requires a <= b
    ensures |a| <= |b|
  {
    assert b == a + (b - a);
  }

  /** File.mkdirs: creates the missing directories from the top down; nothing is
      created below an ancestor that is a file, and nothing changes when the path
      exists. */
  function MkDirs(m: Tree, p: Path): (r: Tree)
    ensures m.Keys <= r.Keys
    ensures forall q :: q in m ==> r[q] == m[q]
    ensures forall q :: q in r && q !in m ==> r[q] == Dir && IsPrefix(q, p)
    decreases |p|
  {
    if p in m || p == [] then m
    else
      var up := MkDirs(m, Parent(p));
      if Parent(p) in up && up[Parent(p)] == Dir then up[p := Dir] else up
  }

  /** `p` has no ancestor that is a file. */
  ghost predicate NoFileAbove(m: Tree, p: Path)
  {
    forall i :: 0 <= i < |p| ==> !(p[..i] in m && m[p[..i]].File?)
  }

  /** mkdirs keeps the tree well formed, and leaves a directory at a missing path
      exactly when no ancestor of the path is a file; otherwise it changes nothing. */
  lemma {:induction false} MkDirsMakesDir(m: Tree, p: Path)
    requires WellFormed(m)
    ensures WellFormed(MkDirs(m, p))
    ensures p !in m ==> (p in MkDirs(m, p) && MkDirs(m, p)[p] == Dir <==> NoFileAbove(m, p))
    ensures p !in m && !NoFileAbove(m, p) ==> MkDirs(m, p) == m
    decreases |p|
  {
    if p !in m && p != [] {
      var q := Parent(p);
      MkDirsMakesDir(m, q);
      NoFileAboveParent(m, p);
      var up := MkDirs(m, q);
      if q in up && up[q] == Dir {
        AddDirWellFormed(up, p);
      }
      if q in m && m[q] == Dir {
        DirHasNoFileAbove(m, q);
      }
    }
  }

  /** A path has no file above it when its parent has none and is not a file. */
  lemma NoFileAboveParent(m: Tree, p: Path)
    requires p != []
    ensures NoFileAbove(m, p) <==> NoFileAbove(m, Parent(p)) && !(Parent(p) in m && m[Parent(p)].File?)
  {
    var q := Parent(p);
    assert p[..|q|] == q;
    forall i | 0 <= i < |q|
      ensures p[..i] == q[..i]
    {
    }
  }

  /** No ancestor of a directory in a well-formed tree is a file. */
  lemma DirHasNoFileAbove(m: Tree, q: Path)
    requires WellFormed(m) && q in m && m[q] == Dir
    ensures NoFileAbove(m, q)
  {
    forall i | 0 <= i < |q|
      ensures q[..i] in m && m[q[..i]] == Dir
    {
      AncestorsAreDirs(m, q, i);
    }
  }

  /** A new directory in an existing directory keeps the tree well formed. */
  lemma AddDirWellFormed(m: Tree, p: Path)
    requires WellFormed(m) && p != [] && Parent(p) in m && m[Parent(p)] == Dir
    ensures WellFormed(m[p := Dir])
  {
  }

  /** new FileOutputStream(p) succeeds: `p` is not a directory and its parent is. */
  predicate CanWrite(m: Tree, p: Path)
  {
    p != [] && Parent(p) in m && m[Parent(p)] == Dir && !(p in m && m[p] == Dir)
  }

  /** Creating (or truncating) a writable file keeps the tree well formed. */
  lemma SetFileWellFormed(m: Tree, p: Path, data: seq<byte>)
    requires WellFormed(m) && CanWrite(m, p)
    ensures WellFormed(m[p := File(data)])
  {
    var r := m[p := File(data)];
    forall q | q in r && q != []
      ensures Parent(q) in r && r[Parent(q)] == Dir
    {
    }
  }

  /** File.delete succeeds on a file or on an empty directory other than the root. */
  predicate CanDelete(m: Tree, p: Path)
  {
    p != [] && p in m && (m[p].File? || Children(m, p) == {})
  }

  lemma DeleteWellFormed(m: Tree, p: Path)
    requires WellFormed(m) && CanDelete(m, p)
    ensures WellFormed(m - {p})
  {
    var r := m - {p};
    forall q | q in r && q != []
      ensures Parent(q) in r && r[Parent(q)] == Dir
    {
      assert Parent(q) == p ==> q in Children(m, p);
    }
  }

  /** A second update of a path overrides the first. */
  lemma UpdateTwice(m: Tree, p: Path, a: Node, b: Node)
    ensures m[p := a][p := b] == m[p := b]
  {
  }

  /** Removing a path forgets any update of it. */
  lemma RemoveUpdated(m: Tree, p: Path, a: Node)
    ensures m[p := a] - {p} == m - {p}
  {
  }

  /** The file system, updated in place by the operations of java.io.File and the
      file streams. */
  class FileSystem {
    var nodes: Tree

    ghost predicate Valid()
      reads this
    {
      WellFormed(nodes)
    }

    constructor(nodes: Tree)
      requires WellFormed(nodes)
      ensures this.nodes == nodes && Valid()
    {
      this.nodes := nodes;
    }

    /** File.exists. */
    predicate Exists(p: Path)
      reads this
    {
      p in nodes
    }

    /** File.isDirectory. */
    predicate IsDirectory(p: Path)
      reads this
    {
      p in nodes && nodes[p] == Dir
    }

    /** File.mkdirs. */
    method MakeDirs(p: Path)
      requires Valid()
      modifies this
      ensures Valid()
      ensures nodes == MkDirs(old(nodes), p)
    {
      MkDirsMakesDir(nodes, p);
      nodes := MkDirs(nodes, p);
    }

    /** new FileOutputStream(p): creates the file, or empties an existing one; an
        IOException when the path is a directory or its parent is not one. */
    method OpenForWrite(p: Path) returns (ok: bool)
      requires Valid()
      modifies this
      ensures Valid()
      ensures ok == CanWrite(old(nodes), p)
      ensures ok ==> nodes == old(nodes)[p := File([])]
      ensures !ok ==> nodes == old(nodes)
    {
      ok := CanWrite(nodes, p);
      if ok {
        SetFileWellFormed(nodes, p, []);
        nodes := nodes[p := File([])];
      }
    }

    /** OutputStream.write: appends bytes to an open file. */
    method Append(p: Path, bytes: seq<byte>)
      requires Valid() && p in nodes && nodes[p].File?
      modifies this
      ensures Valid()
      ensures nodes == old(nodes)[p := File(old(nodes)[p].data + bytes)]
    {
      assert CanWrite(nodes, p);
      SetFileWellFormed(nodes, p, nodes[p].data + bytes);
      nodes := nodes[p := File(nodes[p].data + bytes)];
    }

    /** File.delete. */
    method Delete(p: Path) returns (ok: bool)
      requires Valid()
      modifies this
      ensures Valid()
      ensures ok == CanDelete(old(nodes), p)
      ensures ok ==> nodes == old(nodes) - {p}
      ensures !ok ==> nodes == old(nodes)
    {
      ok := CanDelete(nodes, p);
      if ok {
        DeleteWellFormed(nodes, p);
        nodes := nodes - {p};
      }
    }

    /** File.listFiles: the children of a directory, and null for anything else. */
    method ListFiles(p: Path) returns (r: Option<set<Path>>)
      ensures r == if IsDirectory(p) then Some(Children(nodes, p)) else None
    {
      if IsDirectory(p) {
        return Some(Children(nodes, p));
      }
      return None;
    }
  }
}
