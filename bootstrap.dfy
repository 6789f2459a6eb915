/** main: reads the configuration, prepares the application's temporary
    directory, consults the version marker, downloads the archives that are
    missing (all of them when the version changed), hands every archive to the
    unpack worker, waits for it and builds the call of the Eclipse launcher. */
module Bootstrap {
  import opened Failures
  import opened Text
  import opened Platform
  import opened Launch
  import opened Config
  import opened VersionGate
  import opened FileTree
  import opened Download
  import opened Unpack

  /** What the server does for one URL: whether the connection opens, the reads of
      its stream, and the answers of the cancel button during that download. */
  datatype Reply = Reply(connected: bool, rs: seq<ReadResult>, cancels: seq<bool>)

  /** The local copy of an archive: tempDir/<name>.zip. */
  function ArchiveFile(tempDir: Path, name: string): Path
  {
    tempDir + [name + ".zip"]
  }

  /** The download URL of an archive: the code base, the name and ".zip". */
  function ArchiveUrl(baseUrl: string, name: string): string
  {
    baseUrl + name + ".zip"
  }

  /** Different archive names have different local copies. */
  lemma ArchiveFileInjective(tempDir: Path, a: string, b: string)
    ensures a != b ==> ArchiveFile(tempDir, a) != ArchiveFile(tempDir, b)
  {
    var ka, kb := a + ".zip", b + ".zip";
    assert ka == ArchiveFile(tempDir, a)[|tempDir|];
    assert kb == ArchiveFile(tempDir, b)[|tempDir|];
    assert a == ka[..|a|] && b == kb[..|b|];
  }

  /** No archive name occurs twice. */
  predicate Distinct(names: seq<string>)
  {
    forall j, k :: 0 <= j < k < |names| ==> names[j] != names[k]
  }

  /** The state of the archive loop: the file system, the files handed to the
      worker, the archives downloaded, and the error that ended the process. */
  datatype Fetching = Fetching(tree: Tree, queue: seq<Path>, downloaded: seq<string>, error: Option<Failure>)

  /** The archive loop of main from the i-th archive on: download when the local
      copy is missing or the version changed, then enqueue; a download error ends
      the process before the archive is enqueued. */
  function FetchFrom(m: Tree, tempDir: Path, baseUrl: string, names: seq<string>, override: bool,
                     server: string -> Reply, i: nat, queue: seq<Path>, downloaded: seq<string>): Fetching
    requires i <= |names|
    decreases |names| - i
  {
    if i == |names| then Fetching(m, queue, downloaded, None)
    else
      var dest := ArchiveFile(tempDir, names[i]);
      if dest !in m || override then
        var reply := server(ArchiveUrl(baseUrl, names[i]));
        var f := DownloadInto(m, dest, reply.connected, reply.rs, reply.cancels);
        if f.result.Err? then Fetching(f.tree, queue, downloaded + [names[i]], Some(f.result.failure))
        else FetchFrom(f.tree, tempDir, baseUrl, names, override, server, i + 1, queue + [dest], downloaded + [names[i]])
      else FetchFrom(m, tempDir, baseUrl, names, override, server, i + 1, queue + [dest], downloaded)
  }

  /** One turn of the archive loop on an archive that is downloaded. */
  lemma FetchAfterDownload(m: Tree, tempDir: Path, baseUrl: string, names: seq<string>, override: bool,
                           server: string -> Reply, i: nat, queue: seq<Path>, downloaded: seq<string>)
    requires i < |names| && (ArchiveFile(tempDir, names[i]) !in m || override)
    ensures var dest := ArchiveFile(tempDir, names[i]);
      var reply := server(ArchiveUrl(baseUrl, names[i]));
      var f := DownloadInto(m, dest, reply.connected, reply.rs, reply.cancels);
      FetchFrom(m, tempDir, baseUrl, names, override, server, i, queue, downloaded)
        == if f.result.Err? then Fetching(f.tree, queue, downloaded + [names[i]], Some(f.result.failure))
           else FetchFrom(f.tree, tempDir, baseUrl, names, override, server, i + 1, queue + [dest], downloaded + [names[i]])
  {
  }

  /** One turn of the archive loop on an archive whose local copy is kept. */
  lemma FetchSkips(m: Tree, tempDir: Path, baseUrl: string, names: seq<string>, override: bool,
                   server: string -> Reply, i: nat, queue: seq<Path>, downloaded: seq<string>)
    requires i < |names| && ArchiveFile(tempDir, names[i]) in m && !override
    ensures FetchFrom(m, tempDir, baseUrl, names, override, server, i, queue, downloaded)
      == FetchFrom(m, tempDir, baseUrl, names, override, server, i + 1, queue + [ArchiveFile(tempDir, names[i])], downloaded)
  {
  }

  /** The local copies of a list of archives, in order. */
  function ArchiveFiles(tempDir: Path, names: seq<string>): (r: seq<Path>)
    ensures |r| == |names|
    ensures forall k :: 0 <= k < |names| ==> r[k] == ArchiveFile(tempDir, names[k])
  {
    if names == [] then [] else [ArchiveFile(tempDir, names[0])] + ArchiveFiles(tempDir, names[1..])
  }

  /** The archives the loop downloads, judged against one file system: those whose
      local copy is missing, or all when the version changed. */
  function Needed(m: Tree, tempDir: Path, names: seq<string>, override: bool): seq<string>
  {
    if names == [] then []
    else
      var first := if ArchiveFile(tempDir, names[0]) !in m || override then [names[0]] else [];
      first + Needed(m, tempDir, names[1..], override)
  }

  /** Every archive is handed to the worker, in manifest order, whether it was
      downloaded or not. */
  lemma {:induction false} FetchQueuesAll(m: Tree, tempDir: Path, baseUrl: string, names: seq<string>, override: bool,
                                          server: string -> Reply, i: nat, queue: seq<Path>, downloaded: seq<string>)
    requires i <= |names|
    ensures var r := FetchFrom(m, tempDir, baseUrl, names, override, server, i, queue, downloaded);
      r.error.None? ==> r.queue == queue + ArchiveFiles(tempDir, names[i..])
    decreases |names| - i
  {
    if i < |names| {
      var dest := ArchiveFile(tempDir, names[i]);
      var later := ArchiveFiles(tempDir, names[i + 1..]);
      assert ArchiveFiles(tempDir, names[i..]) == [dest] + later by {
        assert names[i..][1..] == names[i + 1..];
      }
      assert queue + [dest] + later == queue + ([dest] + later);
      if dest !in m || override {
        FetchAfterDownload(m, tempDir, baseUrl, names, override, server, i, queue, downloaded);
        var reply := server(ArchiveUrl(baseUrl, names[i]));
        var f := DownloadInto(m, dest, reply.connected, reply.rs, reply.cancels);
        FetchQueuesAll(f.tree, tempDir, baseUrl, names, override, server, i + 1, queue + [dest], downloaded + [names[i]]);
      } else {
        FetchSkips(m, tempDir, baseUrl, names, override, server, i, queue, downloaded);
        FetchQueuesAll(m, tempDir, baseUrl, names, override, server, i + 1, queue + [dest], downloaded);
      }
    } else {
      assert names[i..] == [];
    }
  }

  /** Needed depends only on which local copies exist. */
  lemma {:induction false} NeededSame(m1: Tree, m2: Tree, tempDir: Path, names: seq<string>, override: bool)
    requires forall n :: n in names ==> (ArchiveFile(tempDir, n) in m1 <==> ArchiveFile(tempDir, n) in m2)
    ensures Needed(m1, tempDir, names, override) == Needed(m2, tempDir, names, override)
    decreases |names|
  {
    if names != [] {
      assert forall n :: n in names[1..] ==> n in names;
      NeededSame(m1, m2, tempDir, names[1..], override);
    }
  }

  /** With distinct archive names, an archive is downloaded exactly when its local
      copy was missing before the loop or the version changed: a download only
      touches its own file. */
  lemma {:induction false} FetchDownloadsNeeded(m: Tree, tempDir: Path, baseUrl: string, names: seq<string>, override: bool,
                                                server: string -> Reply, i: nat, queue: seq<Path>, downloaded: seq<string>)
    requires i <= |names|
    requires Distinct(names)
    ensures var r := FetchFrom(m, tempDir, baseUrl, names, override, server, i, queue, downloaded);
      r.error.None? ==> r.downloaded == downloaded + Needed(m, tempDir, names[i..], override)
    decreases |names| - i
  {
    if i < |names| {
      var dest := ArchiveFile(tempDir, names[i]);
      if dest !in m || override {
        var reply := server(ArchiveUrl(baseUrl, names[i]));
        var f := DownloadInto(m, dest, reply.connected, reply.rs, reply.cancels);
        FetchDownloadsNeeded(f.tree, tempDir, baseUrl, names, override, server, i + 1, queue + [dest], downloaded + [names[i]]);
        DownloadedWhenNeeded(m, tempDir, baseUrl, names, override, server, i, queue, downloaded);
      } else {
        FetchDownloadsNeeded(m, tempDir, baseUrl, names, override, server, i + 1, queue + [dest], downloaded);
        NeededStep(m, tempDir, names, override, i);
        FetchSkips(m, tempDir, baseUrl, names, override, server, i, queue, downloaded);
        assert [] + Needed(m, tempDir, names[i + 1..], override) == Needed(m, tempDir, names[i + 1..], override);
      }
    } else {
      assert names[i..] == [];
    }
  }

  /** The step of FetchDownloadsNeeded on an archive that is downloaded. */
  lemma DownloadedWhenNeeded(m: Tree, tempDir: Path, baseUrl: string, names: seq<string>, override: bool,
                             server: string -> Reply, i: nat, queue: seq<Path>, downloaded: seq<string>)
    requires i < |names| && Distinct(names)
    requires ArchiveFile(tempDir, names[i]) !in m || override
    requires var reply := server(ArchiveUrl(baseUrl, names[i]));
      var f := DownloadInto(m, ArchiveFile(tempDir, names[i]), reply.connected, reply.rs, reply.cancels);
      var r := FetchFrom(f.tree, tempDir, baseUrl, names, override, server, i + 1,
                         queue + [ArchiveFile(tempDir, names[i])], downloaded + [names[i]]);
      r.error.None? ==> r.downloaded == downloaded + [names[i]] + Needed(f.tree, tempDir, names[i + 1..], override)
    ensures var r := FetchFrom(m, tempDir, baseUrl, names, override, server, i, queue, downloaded);
      r.error.None? ==> r.downloaded == downloaded + Needed(m, tempDir, names[i..], override)
  {
    var dest := ArchiveFile(tempDir, names[i]);
    var reply := server(ArchiveUrl(baseUrl, names[i]));
    var f := DownloadInto(m, dest, reply.connected, reply.rs, reply.cancels);
    var r := FetchFrom(m, tempDir, baseUrl, names, override, server, i, queue, downloaded);
    FetchAfterDownload(m, tempDir, baseUrl, names, override, server, i, queue, downloaded);
    if r.error.None? {
      assert f.result.Ok?;
      var r2 := FetchFrom(f.tree, tempDir, baseUrl, names, override, server, i + 1, queue + [dest], downloaded + [names[i]]);
      assert r == r2;
      var rest := Needed(m, tempDir, names[i + 1..], override);
      NeededAfterDownload(m, tempDir, names, override, i, reply);
      assert r2.downloaded == downloaded + [names[i]] + rest;
      NeededStep(m, tempDir, names, override, i);
      assert downloaded + [names[i]] + rest == downloaded + ([names[i]] + rest);
    }
  }

  /** Needed from the i-th archive on: the i-th when it is needed, then the rest. */
  lemma NeededStep(m: Tree, tempDir: Path, names: seq<string>, override: bool, i: nat)
    requires i < |names|
    ensures Needed(m, tempDir, names[i..], override)
      == (if ArchiveFile(tempDir, names[i]) !in m || override then [names[i]] else [])
         + Needed(m, tempDir, names[i + 1..], override)
  {
    assert names[i..][1..] == names[i + 1..];
  }

  /** A download of the i-th archive leaves the later archives' needs unchanged. */
  lemma NeededAfterDownload(m: Tree, tempDir: Path, names: seq<string>, override: bool, i: nat, reply: Reply)
    requires i < |names|
    requires Distinct(names)
    ensures var dest := ArchiveFile(tempDir, names[i]);
      var f := DownloadInto(m, dest, reply.connected, reply.rs, reply.cancels);
      Needed(f.tree, tempDir, names[i + 1..], override) == Needed(m, tempDir, names[i + 1..], override)
  {
    var dest := ArchiveFile(tempDir, names[i]);
    DownloadTouchesOnlyDest(m, dest, reply.connected, reply.rs, reply.cancels);
    LaterCopiesDiffer(tempDir, names, i);
    var f := DownloadInto(m, dest, reply.connected, reply.rs, reply.cancels);
    NeededSame(f.tree, m, tempDir, names[i + 1..], override);
  }

  /** With distinct names, the later archives' local copies differ from the i-th. */
  lemma LaterCopiesDiffer(tempDir: Path, names: seq<string>, i: nat)
    requires i < |names|
    requires Distinct(names)
    ensures forall n | n in names[i + 1..] :: ArchiveFile(tempDir, n) != ArchiveFile(tempDir, names[i])
  {
    forall n | n in names[i + 1..]
      ensures ArchiveFile(tempDir, n) != ArchiveFile(tempDir, names[i])
    {
      var j :| 0 <= j < |names[i + 1..]| && names[i + 1..][j] == n;
      assert names[i + 1 + j] == n;
      ArchiveFileInjective(tempDir, n, names[i]);
    }
  }

  /** A new version downloads every archive again. */
  lemma {:induction false} NeededAllOnOverride(m: Tree, tempDir: Path, names: seq<string>)
    ensures Needed(m, tempDir, names, true) == names
    decreases |names|
  {
    if names != [] {
      NeededAllOnOverride(m, tempDir, names[1..]);
      assert names == [names[0]] + names[1..];
    }
  }

  /** With an unchanged version and every local copy present, nothing is
      downloaded. */
  lemma {:induction false} NeededNoneWhenCached(m: Tree, tempDir: Path, names: seq<string>)
    requires forall k :: 0 <= k < |names| ==> ArchiveFile(tempDir, names[k]) in m
    ensures Needed(m, tempDir, names, false) == []
    decreases |names|
  {
    if names != [] {
      assert forall k :: 0 <= k < |names| - 1 ==> names[1..][k] == names[k + 1];
      NeededNoneWhenCached(m, tempDir, names[1..]);
    }
  }

  /** A canceled download ends the loop and leaves no local copy of the archive
      that was being downloaded. */
  lemma {:induction false} CancelLeavesNoCopy(m: Tree, tempDir: Path, baseUrl: string, names: seq<string>, override: bool,
                                              server: string -> Reply, i: nat, queue: seq<Path>, downloaded: seq<string>)
    requires i <= |names|
    ensures var r := FetchFrom(m, tempDir, baseUrl, names, override, server, i, queue, downloaded);
      r.error == Some(DownloadCanceled) ==>
        |r.downloaded| > 0 && ArchiveFile(tempDir, r.downloaded[|r.downloaded| - 1]) !in r.tree
    decreases |names| - i
  {
    if i < |names| {
      var dest := ArchiveFile(tempDir, names[i]);
      if dest !in m || override {
        FetchAfterDownload(m, tempDir, baseUrl, names, override, server, i, queue, downloaded);
        var reply := server(ArchiveUrl(baseUrl, names[i]));
        CanceledExactly(m, dest, reply.connected, reply.rs, reply.cancels);
        var f := DownloadInto(m, dest, reply.connected, reply.rs, reply.cancels);
        CancelLeavesNoCopy(f.tree, tempDir, baseUrl, names, override, server, i + 1, queue + [dest], downloaded + [names[i]]);
      } else {
        FetchSkips(m, tempDir, baseUrl, names, override, server, i, queue, downloaded);
        CancelLeavesNoCopy(m, tempDir, baseUrl, names, override, server, i + 1, queue + [dest], downloaded);
      }
    }
  }

  /** When no download fails, every archive of the manifest ends up with a local
      copy: a skipped archive already had one, a download that succeeds writes
      one, and no step removes a path. */
  lemma {:induction false} FetchLeavesCopies(m: Tree, tempDir: Path, baseUrl: string, names: seq<string>, override: bool,
                                             server: string -> Reply, i: nat, queue: seq<Path>, downloaded: seq<string>)
    requires i <= |names|
    requires forall j :: 0 <= j < i ==> ArchiveFile(tempDir, names[j]) in m
    ensures var r := FetchFrom(m, tempDir, baseUrl, names, override, server, i, queue, downloaded);
      r.error.None? ==> forall j :: 0 <= j < |names| ==> ArchiveFile(tempDir, names[j]) in r.tree
    decreases |names| - i
  {
    if i < |names| {
      var dest := ArchiveFile(tempDir, names[i]);
      if dest !in m || override {
        FetchAfterDownload(m, tempDir, baseUrl, names, override, server, i, queue, downloaded);
        var reply := server(ArchiveUrl(baseUrl, names[i]));
        SuccessWritesFile(m, dest, reply.connected, reply.rs, reply.cancels);
        var f := DownloadInto(m, dest, reply.connected, reply.rs, reply.cancels);
        if f.result.Ok? {
          FetchLeavesCopies(f.tree, tempDir, baseUrl, names, override, server, i + 1, queue + [dest], downloaded + [names[i]]);
        }
      } else {
        FetchSkips(m, tempDir, baseUrl, names, override, server, i, queue, downloaded);
        FetchLeavesCopies(m, tempDir, baseUrl, names, override, server, i + 1, queue + [dest], downloaded);
      }
    }
  }

  /** The archive loop of main, over the file system and the worker's queue. */
  method FetchArchives(fs: FileSystem, worker: UnpackThread, tempDir: Path, baseUrl: string, names: seq<string>,
                       override: bool, server: string -> Reply) returns (error: Option<Failure>, ghost downloaded: seq<string>)
    requires fs.Valid()
    modifies fs, worker
    ensures fs.Valid()
    ensures var r := FetchFrom(old(fs.nodes), tempDir, baseUrl, names, override, server, 0, [], []);
      fs.nodes == r.tree && error == r.error && downloaded == r.downloaded
      && worker.fileList == old(worker.fileList) + r.queue
    ensures worker.finished == old(worker.finished) && worker.crashed == old(worker.crashed)
    ensures worker.unpacked == old(worker.unpacked)
  {
    ghost var list0 := worker.fileList;
    ghost var r := FetchFrom(fs.nodes, tempDir, baseUrl, names, override, server, 0, [], []);
    ghost var queue: seq<Path> := [];
    downloaded := [];
    error := None;
    var i := 0;
    while i < |names| && error.None?
      invariant 0 <= i <= |names|
      invariant fs.Valid()
      invariant error.None? ==> r == FetchFrom(fs.nodes, tempDir, baseUrl, names, override, server, i, queue, downloaded)
      invariant error.Some? ==> r == Fetching(fs.nodes, queue, downloaded, error)
      invariant worker.fileList == list0 + queue
      invariant worker.finished == old(worker.finished) && worker.crashed == old(worker.crashed)
      invariant worker.unpacked == old(worker.unpacked)
      decreases |names| - i, if error.None? then 1 else 0
    {
      error, downloaded := FetchNext(fs, worker, tempDir, baseUrl, names, override, server, i, queue, downloaded);
      if error.None? {
        queue := queue + [ArchiveFile(tempDir, names[i])];
        i := i + 1;
      }
    }
  }

  /** One turn of the archive loop: download the i-th archive when its local copy is
      missing or the version changed, then hand it to the worker unless the
      download failed. */
  method FetchNext(fs: FileSystem, worker: UnpackThread, tempDir: Path, baseUrl: string, names: seq<string>,
                   override: bool, server: string -> Reply, i: nat, ghost queue: seq<Path>, ghost downloaded: seq<string>)
      returns (error: Option<Failure>, ghost downloaded': seq<string>)
    requires fs.Valid() && i < |names|
    modifies fs, worker
    ensures fs.Valid()
    ensures var r := FetchFrom(old(fs.nodes), tempDir, baseUrl, names, override, server, i, queue, downloaded);
      if error.Some? then r == Fetching(fs.nodes, queue, downloaded', error)
      else r == FetchFrom(fs.nodes, tempDir, baseUrl, names, override, server, i + 1,
                          queue + [ArchiveFile(tempDir, names[i])], downloaded')
    ensures worker.fileList == old(worker.fileList) + if error.None? then [ArchiveFile(tempDir, names[i])] else []
    ensures worker.finished == old(worker.finished) && worker.crashed == old(worker.crashed)
    ensures worker.unpacked == old(worker.unpacked)
  {
    var destFile := ArchiveFile(tempDir, names[i]);
    downloaded' := downloaded;
    if !fs.Exists(destFile) || override {
      var reply := server(ArchiveUrl(baseUrl, names[i]));
      FetchAfterDownload(fs.nodes, tempDir, baseUrl, names, override, server, i, queue, downloaded);
      var result, _ := DownloadFile(fs, destFile, reply.connected, reply.rs, reply.cancels);
      downloaded' := downloaded + [names[i]];
      if result.Err? {
        return Some(result.failure), downloaded';
      }
    } else {
      FetchSkips(fs.nodes, tempDir, baseUrl, names, override, server, i, queue, downloaded);
    }
    worker.AddNextFile(destFile);
    return None, downloaded';
  }

  /** The application's temporary directory: the named child of java.io.tmpdir. */
  function TempDir(s: Settings): Path
  {
    [s.tmpDir, s.appName]
  }

  /** The directory the worker unpacks into. */
  function DestDir(s: Settings): Path
  {
    TempDir(s) + ["unpacked"]
  }

  /** How a run ends: the launcher's main is called with its jar's URL, the
      argument string and the final system properties; or the process exits. */
  datatype Outcome = Launched(launcherJar: string, argument: string, properties: Properties) | Failed(failure: Failure)

  /** The worker dies in its clean-up: the version changed and the destination
      directory is a file once the temporary directory is made. */
  predicate WorkerCrashes(m: Tree, s: Settings, override: bool)
  {
    var m1 := MkDirs(m, TempDir(s));
    override && DestDir(s) in m1 && m1[DestDir(s)].File?
  }

  /** The archive loop of main, on the file system the worker's clean-up leaves. */
  function Fetch(m: Tree, s: Settings, override: bool, server: string -> Reply): Fetching
  {
    var m1 := MkDirs(m, TempDir(s));
    var m2 := if override && !WorkerCrashes(m, s, override) then Cleaned(m1, DestDir(s)) else m1;
    FetchFrom(m2, TempDir(s), s.baseUrl, s.archives, override, server, 0, [], [])
  }

  /** The file system main leaves before it calls the launcher, and the error that
      ends it instead. */
  datatype Staging = Staging(tree: Tree, error: Option<Failure>)

  /** main up to the launcher: a download error ends the process after the loop;
      a dead worker unpacks nothing and the wait for it returns at once; a live
      worker unpacks the whole queue. */
  function Stage(m: Tree, s: Settings, override: bool, server: string -> Reply,
                 decode: seq<byte> -> Option<seq<Entry>>): Staging
  {
    var f := Fetch(m, s, override, server);
    if f.error.Some? then Staging(f.tree, f.error)
    else if WorkerCrashes(m, s, override) then Staging(f.tree, None)
    else
      var u := UnpackAll(f.tree, DestDir(s), f.queue, decode);
      Staging(u.tree, if u.ok then None else Some(ExtractionFailed))
  }

  /** How main ends once staging is over: its error, the missing launcher jar
      property, or the call of the launcher from the unpack directory. */
  function LaunchOutcome(st: Staging, s: Settings, locale: string, toUrl: Path -> string): Outcome
  {
    var properties := s.properties[BaseUrlKey := s.baseUrl];
    if st.error.Some? then Failed(st.error.value)
    else if LauncherJarKey !in properties then Failed(MissingProperty(LauncherJarKey))
    else
      var url := toUrl(DestDir(s));
      Launched(url + properties[LauncherJarKey], LaunchString(s.os, s.arch, url, locale, s.mode), properties)
  }

  /** The launcher is called exactly when no download failed, the worker died or
      unpacked every queued archive, and the launcher jar property is set. */
  lemma LaunchedIff(m: Tree, s: Settings, override: bool, server: string -> Reply,
                    decode: seq<byte> -> Option<seq<Entry>>, locale: string, toUrl: Path -> string)
    ensures var f := Fetch(m, s, override, server);
      LaunchOutcome(Stage(m, s, override, server, decode), s, locale, toUrl).Launched?
      <==> f.error.None?
           && (WorkerCrashes(m, s, override) || UnpackAll(f.tree, DestDir(s), f.queue, decode).ok)
           && LauncherJarKey in s.properties[BaseUrlKey := s.baseUrl]
  {
  }

  /** When the launcher is called by a live worker's run, every archive of the
      manifest has a local copy that is a zip file, and every entry of it exists
      below the unpack directory. */
  lemma LaunchedArchivesUnpacked(m: Tree, s: Settings, override: bool, server: string -> Reply,
                                 decode: seq<byte> -> Option<seq<Entry>>, locale: string, toUrl: Path -> string)
    requires LaunchOutcome(Stage(m, s, override, server, decode), s, locale, toUrl).Launched?
    requires !WorkerCrashes(m, s, override)
    ensures var t := Stage(m, s, override, server, decode).tree;
      forall n :: n in s.archives ==>
        var c := ArchiveFile(TempDir(s), n);
        c in t && t[c].File? && decode(t[c].data).Some?
        && forall e :: e in decode(t[c].data).value ==> DestDir(s) + e.name in t
  {
    var f := Fetch(m, s, override, server);
    var m1 := MkDirs(m, TempDir(s));
    var m2 := if override then Cleaned(m1, DestDir(s)) else m1;
    assert f == FetchFrom(m2, TempDir(s), s.baseUrl, s.archives, override, server, 0, [], []);
    var t := Stage(m, s, override, server, decode).tree;
    assert t == UnpackAll(f.tree, DestDir(s), f.queue, decode).tree;
    FetchQueuesAll(m2, TempDir(s), s.baseUrl, s.archives, override, server, 0, [], []);
    FetchLeavesCopies(m2, TempDir(s), s.baseUrl, s.archives, override, server, 0, [], []);
    assert s.archives[0..] == s.archives;
    UnpackAllPathsExist(f.tree, DestDir(s), f.queue, decode);
    UnpackAllKeeps(f.tree, DestDir(s), f.queue, decode);
    forall n | n in s.archives
      ensures var c := ArchiveFile(TempDir(s), n);
        c in t && t[c].File? && decode(t[c].data).Some?
        && forall e :: e in decode(t[c].data).value ==> DestDir(s) + e.name in t
    {
      var k :| 0 <= k < |s.archives| && s.archives[k] == n;
      assert f.queue[k] == ArchiveFile(TempDir(s), n);
    }
  }

  /** Read as words, the argument of a started launcher names the platform, the
      install location, the workspace, the locale and then the mode: the flag and
      the application or product. */
  lemma LaunchArgumentWords(p: Properties, codeBase: Option<string>, installUrl: string, locale: string)
    requires SettingsOf(p, codeBase).Ok?
    requires IsWord(installUrl) && IsWord(locale)
    requires LaunchAppKey in p ==> IsWord(p[LaunchAppKey])
    requires LaunchAppKey !in p && LaunchProductKey in p ==> IsWord(p[LaunchProductKey])
    ensures var s := SettingsOf(p, codeBase).value;
      Words(LaunchString(s.os, s.arch, installUrl, locale, s.mode))
      == LaunchWords(s.os, s.arch, installUrl, locale)
         + (if LaunchAppKey in p then ["-application", p[LaunchAppKey]] else ["-product", p[LaunchProductKey]])
  {
    var s := SettingsOf(p, codeBase).value;
    ModeArgumentWords(p);
    OperatingSystemIsWord(s.os);
    ArchitectureIsWord(s.arch);
    LaunchStringWords(s.os, s.arch, installUrl, locale, s.mode);
  }

  lemma OperatingSystemIsWord(os: string)
    requires os in OperatingSystems
    ensures IsWord(os)
  {
  }

  lemma ArchitectureIsWord(arch: string)
    requires arch in Architectures
    ensures IsWord(arch)
  {
  }

  /** main, run sequentially. `props` and `keys` are the system properties and the
      order of the copied key set, `codeBase` the JNLP code base (None when the
      service is unavailable), `toUrl` the file-URL conversion of a directory,
      `server` the web server, `marker` the version file and `decode` the zip
      reader. */
  method Run(props: Properties, keys: seq<string>, codeBase: Option<string>, locale: string,
             toUrl: Path -> string, server: string -> Reply, marker: VersionFile, fs: FileSystem,
             decode: seq<byte> -> Option<seq<Entry>>) returns (outcome: Outcome)
    requires fs.Valid()
    requires forall k :: k in keys ==> k in props
    modifies fs, marker
    ensures fs.Valid()
    ensures ReadSettings(props, keys, codeBase).Err? ==>
      outcome == Failed(ReadSettings(props, keys, codeBase).failure)
      && fs.nodes == old(fs.nodes) && marker.content == old(marker.content)
    ensures outcome.Launched? ==> ReadSettings(props, keys, codeBase).Ok?
    ensures outcome.Launched? ==>
      var s := ReadSettings(props, keys, codeBase).value;
      outcome.properties == s.properties[BaseUrlKey := s.baseUrl]
      && LauncherJarKey in outcome.properties
      && outcome.launcherJar == toUrl(DestDir(s)) + outcome.properties[LauncherJarKey]
      && outcome.argument == LaunchString(s.os, s.arch, toUrl(DestDir(s)), locale, s.mode)
      && (marker.writable ==> marker.content == Some(s.appVersion))
    ensures ReadSettings(props, keys, codeBase).Ok? ==>
      var s := ReadSettings(props, keys, codeBase).value;
      var override := Stale(old(marker.content), marker.readable, marker.writable, s.appVersion);
      var st := Stage(old(fs.nodes), s, override, server, decode);
      fs.nodes == st.tree && outcome == LaunchOutcome(st, s, locale, toUrl)
  {
    var custom := CustomizeProperties(props, keys);
    if custom.Err? {
      return Failed(custom.failure);
    }
    var settings := SettingsOf(custom.value, codeBase);
    if settings.Err? {
      return Failed(settings.failure);
    }
    outcome := Start(settings.value, locale, toUrl, server, marker, fs, decode);
  }

  /** The rest of main, once the settings are read: staging, then the call of the
      launcher. */
  method Start(s: Settings, locale: string, toUrl: Path -> string, server: string -> Reply,
               marker: VersionFile, fs: FileSystem, decode: seq<byte> -> Option<seq<Entry>>) returns (outcome: Outcome)
    requires fs.Valid()
    modifies fs, marker
    ensures fs.Valid()
    ensures outcome.Launched? ==>
      outcome.properties == s.properties[BaseUrlKey := s.baseUrl]
      && LauncherJarKey in outcome.properties
      && outcome.launcherJar == toUrl(DestDir(s)) + outcome.properties[LauncherJarKey]
      && outcome.argument == LaunchString(s.os, s.arch, toUrl(DestDir(s)), locale, s.mode)
      && (marker.writable ==> marker.content == Some(s.appVersion))
    ensures var override := Stale(old(marker.content), marker.readable, marker.writable, s.appVersion);
      var st := Stage(old(fs.nodes), s, override, server, decode);
      fs.nodes == st.tree && outcome == LaunchOutcome(st, s, locale, toUrl)
  {
    var error := Prepare(s, server, marker, fs, decode);
    if error.Some? {
      return Failed(error.value);
    }
    var properties := s.properties[BaseUrlKey := s.baseUrl];
    if LauncherJarKey !in properties {
      return Failed(MissingProperty(LauncherJarKey));
    }
    var url := toUrl(DestDir(s));
    return Launched(url + properties[LauncherJarKey], LaunchString(s.os, s.arch, url, locale, s.mode), properties);
  }

  /** main up to the launcher: the temporary directory, the version marker, the
      worker with its clean-up, the downloads and the wait for the worker. */
  method Prepare(s: Settings, server: string -> Reply, marker: VersionFile, fs: FileSystem,
                 decode: seq<byte> -> Option<seq<Entry>>) returns (error: Option<Failure>)
    requires fs.Valid()
    modifies fs, marker
    ensures fs.Valid()
    ensures var override := Stale(old(marker.content), marker.readable, marker.writable, s.appVersion);
      Stage(old(fs.nodes), s, override, server, decode) == Staging(fs.nodes, error)
    ensures marker.writable ==> marker.content == Some(s.appVersion)
    ensures !marker.writable ==> marker.content == old(marker.content)
  {
    ghost var m0 := fs.nodes;
    var tempDir := TempDir(s);
    fs.MakeDirs(tempDir);
    var unpackDestDir := tempDir + ["unpacked"];
    var override := marker.NewVersionAvailable(s.appVersion);
    ghost var crashes := WorkerCrashes(m0, s, override);
    var worker := new UnpackThread(fs, unpackDestDir, override, decode);
    assert worker.crashed == crashes;
    ghost var downloaded;
    error, downloaded := FetchArchives(fs, worker, tempDir, s.baseUrl, s.archives, override, server);
    ghost var f := Fetch(m0, s, override, server);
    assert fs.nodes == f.tree && error == f.error && worker.fileList == f.queue;
    if error.Some? {
      return;
    }
    error := worker.Finish();
  }
}
