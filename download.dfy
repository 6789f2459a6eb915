/** downloadFile: copies a URL's content into a file through a 32768-byte buffer,
    polling the progress monitor's cancel button after every read that delivered
    bytes. */
module Download {
  import opened Failures
  import opened FileTree

  /** One InputStream.read into the buffer: the bytes it delivered (none at the end
      of the stream), or an IOException. */
  datatype ReadResult = Chunk(bytes: seq<byte>) | ReadError

  /** The bytes a read delivered. */
  function BytesOf(r: ReadResult): seq<byte>
  {
    if r.Chunk? then r.bytes else []
  }

  /** The bytes of a sequence of reads, in order. */
  function Flatten(rs: seq<ReadResult>): seq<byte>
  {
    if rs == [] then [] else Flatten(rs[..|rs| - 1]) + BytesOf(rs[|rs| - 1])
  }

  lemma FlattenSnoc(rs: seq<ReadResult>, x: ReadResult)
    ensures Flatten(rs + [x]) == Flatten(rs) + BytesOf(x)
  {
    assert (rs + [x])[..|rs|] == rs;
  }

  /** The bytes of the first i + 1 reads. */
  lemma FlattenStep(rs: seq<ReadResult>, i: nat)
    requires i < |rs|
    ensures Flatten(rs[..i + 1]) == Flatten(rs[..i]) + BytesOf(rs[i])
  {
    FlattenSnoc(rs[..i], rs[i]);
    assert rs[..i + 1] == rs[..i] + [rs[i]];
  }

  /** ProgressMonitor.isCanceled at the i-th poll; polls beyond the given answers
      are not canceled. */
  function CanceledAt(cancels: seq<bool>, i: nat): bool
  {
    i < |cancels| && cancels[i]
  }

  /** Read `i` passes the loop condition: it delivered bytes and the user had not
      canceled when polled right after it. */
  predicate Continues(rs: seq<ReadResult>, cancels: seq<bool>, i: nat)
  {
    i < |rs| && rs[i].Chunk? && |rs[i].bytes| > 0 && !CanceledAt(cancels, i)
  }

  /** The number of reads written to the file, counting from read `i`. */
  function WrittenFrom(rs: seq<ReadResult>, cancels: seq<bool>, i: nat): (n: nat)
    requires i <= |rs|
    ensures i <= n <= |rs|
    ensures forall k :: i <= k < n ==> Continues(rs, cancels, k)
    ensures !Continues(rs, cancels, n)
    decreases |rs| - i
  {
    if Continues(rs, cancels, i) then WrittenFrom(rs, cancels, i + 1) else i
  }

  function Written(rs: seq<ReadResult>, cancels: seq<bool>): nat
  {
    WrittenFrom(rs, cancels, 0)
  }

  /** The loop stops at the first read that fails the loop condition. */
  lemma StopsAt(rs: seq<ReadResult>, cancels: seq<bool>, i: nat)
    requires i <= |rs| && WrittenFrom(rs, cancels, i) == Written(rs, cancels)
    requires !Continues(rs, cancels, i)
    ensures Written(rs, cancels) == i
  {
  }

  datatype Status = Complete | Canceled | ReadFailed

  /** How the loop ends: at the end of the stream (or a read of no bytes), at a
      cancel, or at a read error. */
  function StatusOf(rs: seq<ReadResult>, cancels: seq<bool>): Status
  {
    var n := Written(rs, cancels);
    if n == |rs| then Complete
    else if rs[n].ReadError? then ReadFailed
    else if |rs[n].bytes| == 0 then Complete
    else Canceled
  }

  /** The values passed to setProgress: the running total after each write. */
  function Progress(rs: seq<ReadResult>, n: nat): (r: seq<int>)
    requires n <= |rs|
    ensures |r| == n
  {
    seq(n, k requires 0 <= k < n => |Flatten(rs[..k + 1])|)
  }

  lemma ProgressStep(rs: seq<ReadResult>, i: nat)
    requires i < |rs|
    ensures Progress(rs, i + 1) == Progress(rs, i) + [|Flatten(rs[..i + 1])|]
  {
  }

  /** The file system and the outcome after a download. */
  datatype Fetched = Fetched(tree: Tree, result: Result<nat>)

  /** downloadFile: open the destination (an IOException when it cannot be
      created), then the connection, then copy until the loop stops. A cancel
      deletes the file; a failure leaves what was written so far. */
  function DownloadInto(m: Tree, dest: Path, connected: bool, rs: seq<ReadResult>, cancels: seq<bool>): Fetched
  {
    if !CanWrite(m, dest) then Fetched(m, Err(DownloadFailed))
    else if !connected then Fetched(m[dest := File([])], Err(DownloadFailed))
    else
      var n := Written(rs, cancels);
      var data := Flatten(rs[..n]);
      match StatusOf(rs, cancels)
      case Complete => Fetched(m[dest := File(data)], Ok(|data|))
      case ReadFailed => Fetched(m[dest := File(data)], Err(DownloadFailed))
      case Canceled => Fetched(m - {dest}, Err(DownloadCanceled))
  }

  /** A download that succeeds adds the destination as a file and removes nothing. */
  lemma SuccessWritesFile(m: Tree, dest: Path, connected: bool, rs: seq<ReadResult>, cancels: seq<bool>)
    ensures var f := DownloadInto(m, dest, connected, rs, cancels);
      f.result.Ok? ==> f.tree.Keys == m.Keys + {dest} && f.tree[dest].File?
  {
  }

  /** The copy loop of downloadFile, on a freshly opened (empty) destination:
      writes every read that passes the loop condition and reports the running
      total after each write. */
  method CopyStream(fs: FileSystem, dest: Path, rs: seq<ReadResult>, cancels: seq<bool>)
      returns (status: Status, downloadedSize: nat, progress: seq<int>)
    requires fs.Valid() && dest in fs.nodes && fs.nodes[dest] == File([])
    modifies fs
    ensures fs.Valid()
    ensures status == StatusOf(rs, cancels)
    ensures fs.nodes == old(fs.nodes)[dest := File(Flatten(rs[..Written(rs, cancels)]))]
    ensures downloadedSize == |Flatten(rs[..Written(rs, cancels)])|
    ensures progress == Progress(rs, Written(rs, cancels))
  {
    ghost var m0 := fs.nodes;
    assert m0 == m0[dest := File(Flatten(rs[..0]))];
    downloadedSize := 0;
    progress := [];
    var i := 0;
    while i < |rs|
      invariant 0 <= i <= Written(rs, cancels)
      invariant WrittenFrom(rs, cancels, i) == Written(rs, cancels)
      invariant fs.Valid()
      invariant fs.nodes == m0[dest := File(Flatten(rs[..i]))]
      invariant downloadedSize == |Flatten(rs[..i])|
      invariant progress == Progress(rs, i)
      decreases |rs| - i
    {
      if rs[i].ReadError? {
        StopsAt(rs, cancels, i);
        return ReadFailed, downloadedSize, progress;
      }
      var size := |rs[i].bytes|;
      if size == 0 {
        StopsAt(rs, cancels, i);
        return Complete, downloadedSize, progress;
      }
      if CanceledAt(cancels, i) {
        StopsAt(rs, cancels, i);
        return Canceled, downloadedSize, progress;
      }
      fs.Append(dest, rs[i].bytes);
      FlattenStep(rs, i);
      ProgressStep(rs, i);
      downloadedSize := downloadedSize + size;
      progress := progress + [downloadedSize];
      i := i + 1;
    }
    StopsAt(rs, cancels, i);
    return Complete, downloadedSize, progress;
  }

  /** downloadFile over the file system. `connected` says whether the URL
      connection and its input stream open; `rs` are the successive reads and
      `cancels` the answers of the cancel button. */
  method DownloadFile(fs: FileSystem, dest: Path, connected: bool, rs: seq<ReadResult>, cancels: seq<bool>)
      returns (r: Result<nat>, progress: seq<int>)
    requires fs.Valid()
    modifies fs
    ensures fs.Valid()
    ensures Fetched(fs.nodes, r) == DownloadInto(old(fs.nodes), dest, connected, rs, cancels)
    ensures connected && CanWrite(old(fs.nodes), dest) ==> progress == Progress(rs, Written(rs, cancels))
  {
    var created := fs.OpenForWrite(dest);
    if !created {
      return Err(DownloadFailed), [];
    }
    if !connected {
      return Err(DownloadFailed), [];
    }
    var status, downloadedSize;
    status, downloadedSize, progress := CopyStream(fs, dest, rs, cancels);
    ghost var data := Flatten(rs[..Written(rs, cancels)]);
    UpdateTwice(old(fs.nodes), dest, File([]), File(data));
    OpenedDownload(old(fs.nodes), dest, rs, cancels);
    match status
    case Complete =>
      r := Ok(downloadedSize);
    case ReadFailed =>
      r := Err(DownloadFailed);
    case Canceled =>
      var _ := fs.Delete(dest);
      RemoveUpdated(old(fs.nodes), dest, File(data));
      r := Err(DownloadCanceled);
  }

  /** downloadFile once the file and the connection are open. */
  lemma OpenedDownload(m: Tree, dest: Path, rs: seq<ReadResult>, cancels: seq<bool>)
    requires CanWrite(m, dest)
    ensures var data := Flatten(rs[..Written(rs, cancels)]);
      DownloadInto(m, dest, true, rs, cancels)
        == match StatusOf(rs, cancels)
           case Complete => Fetched(m[dest := File(data)], Ok(|data|))
           case ReadFailed => Fetched(m[dest := File(data)], Err(DownloadFailed))
           case Canceled => Fetched(m - {dest}, Err(DownloadCanceled))
  {
  }

  /** The progress reported to the monitor rises with every write and ends at the
      size of the file. */
  lemma ProgressRises(rs: seq<ReadResult>, cancels: seq<bool>)
    ensures var n := Written(rs, cancels);
      var p := Progress(rs, n);
      (forall k :: 0 < k < n ==> p[k - 1] < p[k])
      && (n > 0 ==> p[n - 1] == |Flatten(rs[..n])|)
  {
    var n := Written(rs, cancels);
    forall k | 0 < k < n
      ensures |Flatten(rs[..k])| < |Flatten(rs[..k + 1])|
    {
      assert Continues(rs, cancels, k);
      FlattenStep(rs, k);
    }
  }

  /** A download that is not canceled and meets no read error ends with the file
      holding every byte of the stream, in order. */
  lemma CompleteDownloadHasStream(m: Tree, dest: Path, rs: seq<ReadResult>, cancels: seq<bool>)
    requires CanWrite(m, dest)
    requires forall k :: 0 <= k < |rs| ==> rs[k].Chunk? && |rs[k].bytes| > 0
    requires forall k :: 0 <= k < |rs| ==> !CanceledAt(cancels, k)
    ensures DownloadInto(m, dest, true, rs, cancels)
      == Fetched(m[dest := File(Flatten(rs))], Ok(|Flatten(rs)|))
  {
    assert Written(rs, cancels) == |rs|;
    assert rs[..|rs|] == rs;
  }

  /** A canceled download leaves no file at the destination, even when one was
      there before, and fails; nothing else changes. */
  lemma CancelRemovesFile(m: Tree, dest: Path, connected: bool, rs: seq<ReadResult>, cancels: seq<bool>)
    requires CanWrite(m, dest) && connected
    requires StatusOf(rs, cancels) == Canceled
    ensures DownloadInto(m, dest, connected, rs, cancels) == Fetched(m - {dest}, Err(DownloadCanceled))
    ensures dest !in DownloadInto(m, dest, connected, rs, cancels).tree
  {
  }

  /** A download reports a cancel exactly when the file could be opened, the
      connection opened and the loop stopped at a cancel; the file is then gone. */
  lemma CanceledExactly(m: Tree, dest: Path, connected: bool, rs: seq<ReadResult>, cancels: seq<bool>)
    ensures var f := DownloadInto(m, dest, connected, rs, cancels);
      (f.result == Err(DownloadCanceled) <==> CanWrite(m, dest) && connected && StatusOf(rs, cancels) == Canceled)
      && (f.result == Err(DownloadCanceled) ==> dest !in f.tree)
  {
  }

  /** The cancel button is only consulted after a read that delivered bytes: a
      stream that ends at once completes with an empty file whatever the button
      says. */
  lemma EmptyStreamIgnoresCancel(m: Tree, dest: Path, cancels: seq<bool>)
    requires CanWrite(m, dest)
    ensures DownloadInto(m, dest, true, [], cancels) == Fetched(m[dest := File([])], Ok(0))
  {
  }

  /** Any download touches the destination path only. */
  lemma DownloadTouchesOnlyDest(m: Tree, dest: Path, connected: bool, rs: seq<ReadResult>, cancels: seq<bool>)
    ensures forall q :: q != dest ==>
      (q in DownloadInto(m, dest, connected, rs, cancels).tree <==> q in m)
    ensures forall q :: q != dest && q in m ==> DownloadInto(m, dest, connected, rs, cancels).tree[q] == m[q]
  {
  }
}
