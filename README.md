# WebRCP bootstrapper, modelled in Dafny

WebRCP is a Java Web Start application that stages and launches an Eclipse RCP
application. Its `main` works in these steps:

1. It re-sets every `jnlp.custom.`-prefixed system property without the prefix.
2. It reads the application name, version, archive list and mode argument
   (`-application` or `-product`).
3. It asks the JNLP service for the code base and works out the Eclipse
   architecture, operating system and windowing system from `os.arch` and `os.name`.
4. It creates `<java.io.tmpdir>/<appName>`. It writes the version into the
   `version` marker there and remembers whether the version changed.
5. It starts an unpack worker on `<tmp>/<appName>/unpacked`. The worker first
   cleans up that directory when the version changed, keeping `workspace`.
6. For each archive it downloads `<codeBase><name>.zip` when the local copy is
   missing or the version changed. It then queues the local copy for the worker.
7. It waits for the worker to drain the queue and sets `jnlp.WebRCP.baseURL`.
8. It calls the Eclipse launcher's `main(String)` with one space-separated argument
   string.

The model has one module per component:

- `Text`: `toLowerCase`, `indexOf` and `startsWith` on strings, plus the words of
  a space-separated string.
- `Platform`: `determineArch`, `determineOS` and `getWindowSystem`.
- `Launch`: the argument string that `startLauncher` builds.
- `Config`: the `jnlp.custom.` loop, `String.split("\\s*,\\s*")` on the archive
  list, `getSystemProperty`, the mode argument, and the checks of `main` in source
  order.
- `VersionGate`: `newVersionAvailable`, over a class `VersionFile` for the marker.
- `FileTree`: the part of `java.io.File` that the code uses. The file system is a
  map from paths to files and directories, held by a class `FileSystem`.
- `Download`: `downloadFile`. A pure specification `DownloadInto` is matched by the
  imperative copy loop `CopyStream`.
- `Unpack`: the unpack worker, as a class `UnpackThread` with its queue. Its
  specification functions are `ExtractEntry`, `UnpackArchive`, `UnpackAll` and
  `Cleaned`. `removeRecursively` is a recursive method.
- `Bootstrap`: the archive loop of `main` (`FetchFrom`, with the method
  `FetchArchives`) and `main` itself. `Stage` specifies the file system `main`
  leaves before the launcher is called, and `LaunchOutcome` how the run ends. The
  methods `Run`, `Start` and `Prepare` compute them.

Failures are values (`Failures.Failure`). `handleError` and the worker's
`System.exit(1)` become an `Err` result. An exception that `main` does not
catch becomes `UncaughtException`.

Properties worth pointing out:

- **The x86_64 test is dead code.** In `determineArch` the `x86` test comes before
  the `amd64` branch. So an `os.arch` that mentions `x86_64` is reported as `x86`
  (`Platform.X86_64MapsToX86`).
- **Some versions always look new.** A version that is empty or spans several lines
  never reads back equal to itself. Such a version makes every run a full re-stage
  (`VersionGate.NonSingleLineAlwaysStale`). So does a version with a character
  that the platform's default charset cannot encode, which this model does not
  cover (see Left out).
- **Key order can matter.** A key that carries the `jnlp.custom.` prefix twice makes
  the result of the loop depend on the order of the key set
  (`Config.CustomOrderMatters`).
- **The bare prefix crashes `main`.** The key `jnlp.custom.` is re-set as the empty
  key, which `setProperty` rejects with an exception that is not caught.
- **No other order dependence.** Without those two cases, the loop strips the
  prefix for every key in any order (`Config.CustomStripsPrefix`).
- **Extraction never overwrites.** Existing paths keep their content, the archive
  queued first decides a shared path, and a second extraction changes nothing.
- **Failed downloads are not cleaned up.** A canceled download leaves no local
  copy. A download that fails with an `IOException` keeps the bytes written so
  far.
- **Only the in-process launch exists.** This source launches through
  `main(String)` only.

## Model

| member | source | states |
|---|---|---|
| Text.ToLower | src/com/w11k/webrcp/WebRCP.java:114 | `toLowerCase` keeps the length, lowers each character, and leaves no upper-case letter |
| Text.ToLowerIdempotent | src/com/w11k/webrcp/WebRCP.java:114 | lower-casing an already lower-cased value changes nothing |
| Text.IndexOf | src/com/w11k/webrcp/WebRCP.java:116-131 | `indexOf` returns the first position where the needle occurs; -1 exactly when it occurs nowhere |
| Text.ContainsTransitive | src/com/w11k/webrcp/WebRCP.java:116-123 | a string containing `outer` contains everything `outer` contains |
| Platform.DetermineArch | src/com/w11k/webrcp/WebRCP.java:112-137 | the result is an Eclipse architecture. On the lower-cased value, each branch is taken exactly when its own test passes and every earlier test fails: `x86` (mentions x86 or matches `i.86`), then `ppc` (ppc or power), `amd64` (x86_64 or amd64), `ia64`, `PA_RISC` (risc), `sparc`. "Unknown Architecture" with the lower-cased value exactly when no test matches |
| Platform.X86_64IsX86 | src/com/w11k/webrcp/WebRCP.java:116-123 | every value that passes the `x86_64` test already passes the earlier `x86` test |
| Platform.X86_64MapsToX86 | src/com/w11k/webrcp/WebRCP.java:116-123 | an `os.arch` that mentions x86_64, in any case, is reported as `x86`, never `amd64` |
| Platform.DetermineArchIgnoresCase | src/com/w11k/webrcp/WebRCP.java:114 | the case of `os.arch` does not affect the architecture |
| Platform.DetermineOS | src/com/w11k/webrcp/WebRCP.java:142-170 | the result is a known OS. On the lower-cased value, each OS is reported exactly when its own test passes and every earlier test fails: `linux`, `macosx` (mac), `win32` (windows), `hpux` (both hp and ux), `solaris`, `aix`, `qnx`. "Unknown Operating System" with the lower-cased value exactly when none of the seven tests matches |
| Platform.WindowSystem | src/com/w11k/webrcp/WebRCP.java:175-190 | always a known windowing system: win32 runs on `win32`, linux on `gtk`, qnx on `photon`, macosx on `carbon`, and every other OS on `motif` |
| Platform.WindowSystemOfDetected | src/com/w11k/webrcp/WebRCP.java:189 | composed with `determineOS`: `gtk` exactly when `os.name` mentions linux, `carbon` when it mentions mac but not linux, `win32` when it mentions windows and neither earlier word, `photon` when only the qnx test passes, and `motif` exactly for aix, hpux and solaris |
| Launch.LaunchString | src/com/w11k/webrcp/WebRCP.java:331-335 | the argument string of `startLauncher`; its meaning is stated by LaunchStringWords |
| Launch.LaunchStringWords | src/com/w11k/webrcp/WebRCP.java:331-335 | split at spaces, the launch string yields `-os`, `-ws`, `-arch`, `-install`, `-data`, `-user` and `-nl`, each followed by its value, in that order, then the words of the mode argument; no value bleeds into a neighbouring option |
| Config.CustomStep | src/com/w11k/webrcp/WebRCP.java:475-481 | a key without the prefix changes nothing; a prefixed key adds its stripped key with the key's current value; only the bare prefix fails, with IllegalArgumentException |
| Config.ApplyCustom | src/com/w11k/webrcp/WebRCP.java:472-484 | the loop never removes a property |
| Config.CustomizeProperties | src/com/w11k/webrcp/WebRCP.java:467-484 | the imperative loop over the copied key set, reading the live properties, computes `ApplyCustom` |
| Config.ApplyCustomFails | src/com/w11k/webrcp/WebRCP.java:479-481 | the loop fails exactly when the bare prefix is a key, and then with IllegalArgumentException |
| Config.RenamedStep | src/com/w11k/webrcp/WebRCP.java:475-481 | when no key carries the prefix twice, one turn keeps the renaming invariant and cannot fail |
| Config.ApplyCustomRenames | src/com/w11k/webrcp/WebRCP.java:472-484 | the renaming invariant holds over any remaining key order |
| Config.CustomStripsPrefix | src/com/w11k/webrcp/WebRCP.java:472-484 | when no key carries the prefix twice, any key order gives each stripped key the prefixed key's value, keeps every other key's value, and adds nothing else |
| Config.CustomOrderMatters | src/com/w11k/webrcp/WebRCP.java:478-481 | with a doubly prefixed key, two orders of the same key set give different values |
| Config.TrimLeading | src/com/w11k/webrcp/WebRCP.java:494 | the result is a suffix that starts with no `\s` character, and all the characters dropped are `\s` |
| Config.TrimTrailing | src/com/w11k/webrcp/WebRCP.java:494 | the result is a prefix that ends with no `\s` character, and all the characters dropped are `\s` |
| Config.CommaPieces | src/com/w11k/webrcp/WebRCP.java:494 | cutting at commas gives at least one piece, and no piece contains a comma |
| Config.JoinCommaPieces | src/com/w11k/webrcp/WebRCP.java:494 | joining the comma pieces with commas gives the string back |
| Config.CommaPiecesOfJoin | src/com/w11k/webrcp/WebRCP.java:494 | cutting comma-free pieces joined by commas gives the pieces back |
| Config.DropTrailingEmpty | src/com/w11k/webrcp/WebRCP.java:494 | the longest prefix that does not end with an empty string; only empty strings are dropped |
| Config.SplitArchives | src/com/w11k/webrcp/WebRCP.java:494 | no archive name from `split("\\s*,\\s*")` contains a comma |
| Config.SplitJoinedArchives | src/com/w11k/webrcp/WebRCP.java:494 | names listed with commas and any blanks around the commas split back into exactly those names, in order |
| Config.SplitTrailingCommas | src/com/w11k/webrcp/WebRCP.java:494 | trailing commas add no names: such a list still splits into exactly its names |
| Config.SplitEmpty | src/com/w11k/webrcp/WebRCP.java:494 | an empty archive list splits into one empty name, not into none |
| Config.SplitLoneComma | src/com/w11k/webrcp/WebRCP.java:494 | a list that is a single comma splits into no names at all |
| Config.Required | src/com/w11k/webrcp/WebRCP.java:409-418 | `getSystemProperty` returns the value exactly when the key is set, else "Missing System Property" for that key |
| Config.ModeArgument | src/com/w11k/webrcp/WebRCP.java:496-516 | the mode is `-application` when the application is named, else `-product` when the product is named, else an error naming both properties |
| Config.ModeArgumentWords | src/com/w11k/webrcp/WebRCP.java:510-515 | the mode argument starts with a space and reads as exactly two words: the flag, then the name |
| Config.SettingsOf | src/com/w11k/webrcp/WebRCP.java:491-522 | the settings are read exactly when every required property is set, the service answers, and the architecture and OS are known; each field is the value `main` uses; a missing name is reported first |
| Config.ReadSettings | src/com/w11k/webrcp/WebRCP.java:467-522 | a failing `jnlp.custom.` loop decides the outcome; otherwise the checks run on the renamed properties |
| Config.CustomPropertyIsRequired | src/com/w11k/webrcp/WebRCP.java:472-492 | an application name given only as `jnlp.custom.jnlp.WebRCP.appName` is found by `getSystemProperty` |
| Config.MissingVersionFirst | src/com/w11k/webrcp/WebRCP.java:492-520 | a missing version is the error reported, whatever else is missing later |
| Config.MissingModeBeforeService | src/com/w11k/webrcp/WebRCP.java:496-518 | a missing mode is reported before an unavailable JNLP service |
| VersionGate.FirstLine | src/com/w11k/webrcp/WebRCP.java:237 | `readLine`: nothing on an empty file, otherwise the longest prefix without a line break, ending at a break or at the end |
| VersionGate.PriorVersion | src/com/w11k/webrcp/WebRCP.java:231-243 | there is a prior version only when the marker exists and is readable; an absent, unreadable or empty marker gives none |
| VersionGate.VersionFile.constructor | src/com/w11k/webrcp/WebRCP.java:528 | the marker starts with the given content and access |
| VersionGate.VersionFile.NewVersionAvailable | src/com/w11k/webrcp/WebRCP.java:229-259 | on a writable marker: true exactly when there was no prior version or it differs, and the marker then holds the new version; on an unwritable marker: true and the marker is unchanged |
| VersionGate.Stale | src/com/w11k/webrcp/WebRCP.java:229-259 | the answer of `newVersionAvailable` on a marker state, which NewVersionAvailable computes; its meaning is stated by RepeatIsCurrent, LaterLinesIgnored, ChangedIsStale, NonSingleLineAlwaysStale and RunsWithOneUpdate |
| VersionGate.FirstLineOfSingleLine | src/com/w11k/webrcp/WebRCP.java:237 | a marker holding one non-empty line reads back as that line |
| VersionGate.RepeatIsCurrent | src/com/w11k/webrcp/WebRCP.java:252 | a single-line version that was just written is reported as current |
| VersionGate.LaterLinesIgnored | src/com/w11k/webrcp/WebRCP.java:237 | lines after the first line of the marker do not affect the answer |
| VersionGate.ChangedIsStale | src/com/w11k/webrcp/WebRCP.java:252 | a marker holding a different single-line version means a new version |
| VersionGate.NonSingleLineAlwaysStale | src/com/w11k/webrcp/WebRCP.java:237-257 | an empty or multi-line version is reported as new on every run |
| VersionGate.RunsWithOneUpdate | src/com/w11k/webrcp/WebRCP.java:229-259 | starting with no marker, runs with v1, v1, then v2 answer true, false, true |
| FileTree.Children | src/com/w11k/webrcp/UnpackThread.java:176 | `listFiles` yields exactly the paths one level below |
| FileTree.RemoveTree | src/com/w11k/webrcp/UnpackThread.java:169-183 | exactly the paths outside the sub-tree remain, with their contents |
| FileTree.RemoveTreeWellFormed | src/com/w11k/webrcp/UnpackThread.java:169-183 | removing a sub-tree other than the root keeps every path inside a directory |
| FileTree.AbsentHasNoSubtree | src/com/w11k/webrcp/UnpackThread.java:170-171 | a missing path has nothing below it |
| FileTree.FileHasNoSubtree | src/com/w11k/webrcp/UnpackThread.java:173-174 | removing a file's sub-tree removes just the file |
| FileTree.MkDirs | src/com/w11k/webrcp/UnpackThread.java:119 | `mkdirs` changes no existing path and adds only directories at the path or above it |
| FileTree.MkDirsMakesDir | src/com/w11k/webrcp/UnpackThread.java:119-121 | `mkdirs` keeps the tree well formed; a missing path becomes a directory exactly when no ancestor is a file, and otherwise nothing changes |
| FileTree.SetFileWellFormed | src/com/w11k/webrcp/WebRCP.java:269 | creating a file where `FileOutputStream` succeeds keeps the tree well formed |
| FileTree.DeleteWellFormed | src/com/w11k/webrcp/UnpackThread.java:182 | a successful `delete` keeps the tree well formed |
| FileTree.FileSystem.MakeDirs | src/com/w11k/webrcp/WebRCP.java:523 | the file system afterwards is `MkDirs` of the one before |
| FileTree.FileSystem.OpenForWrite | src/com/w11k/webrcp/WebRCP.java:269 | with no permissions or locks in the tree, opening succeeds exactly when the parent is a directory and the path is not; the file is then empty, and nothing changes otherwise |
| FileTree.FileSystem.Append | src/com/w11k/webrcp/WebRCP.java:282 | the file's bytes are followed by the written bytes, and nothing else changes |
| FileTree.FileSystem.Delete | src/com/w11k/webrcp/WebRCP.java:292 | with no permissions or locks in the tree, `delete` succeeds exactly on a file or an empty directory other than the root, and removes only that path |
| FileTree.FileSystem.ListFiles | src/com/w11k/webrcp/UnpackThread.java:156 | the children of a directory, and null for a file or a missing path |
| Download.WrittenFrom | src/com/w11k/webrcp/WebRCP.java:280 | the loop writes a read exactly when every read before it passed the condition: bytes were read and cancel was not pressed |
| Download.CopyStream | src/com/w11k/webrcp/WebRCP.java:274-285 | the copy loop writes exactly the bytes of the reads that pass the loop condition, reports the running total after each, and ends with the status that stopped it |
| Download.DownloadFile | src/com/w11k/webrcp/WebRCP.java:265-302 | the file system and the outcome are those `DownloadInto` specifies, and the progress is the running total |
| Download.DownloadInto | src/com/w11k/webrcp/WebRCP.java:265-302 | the specification of `downloadFile`; its meaning is stated by OpenedDownload, CanceledExactly, CancelRemovesFile, DownloadTouchesOnlyDest and SuccessWritesFile |
| Download.SuccessWritesFile | src/com/w11k/webrcp/WebRCP.java:280-288 | a download that succeeds adds the destination as a file and removes no path |
| Download.OpenedDownload | src/com/w11k/webrcp/WebRCP.java:280-296 | once file and connection are open: completion keeps the bytes and returns their count; a read error keeps the partial file; a cancel deletes it |
| Download.ProgressRises | src/com/w11k/webrcp/WebRCP.java:283 | the progress values rise strictly, and the last is the size written |
| Download.CompleteDownloadHasStream | src/com/w11k/webrcp/WebRCP.java:280-288 | with non-empty reads and no cancel, the file holds the whole stream |
| Download.CancelRemovesFile | src/com/w11k/webrcp/WebRCP.java:290-293 | a canceled download leaves no file at the destination, neither partial nor empty |
| Download.CanceledExactly | src/com/w11k/webrcp/WebRCP.java:280-293 | the result is "canceled" exactly when the file and the connection opened and the loop stopped at a cancel; the file is then gone |
| Download.EmptyStreamIgnoresCancel | src/com/w11k/webrcp/WebRCP.java:280 | on an empty stream the cancel button is never polled, and the result is an empty file |
| Download.DownloadTouchesOnlyDest | src/com/w11k/webrcp/WebRCP.java:265-302 | no path other than the destination appears, disappears or changes |
| Unpack.ExtractEntry | src/com/w11k/webrcp/UnpackThread.java:112-131 | an existing path is skipped; nothing existing changes; new paths lie at or above the entry's path; on success the entry's path exists |
| Unpack.UnpackArchive | src/com/w11k/webrcp/UnpackThread.java:106-110 | a path that is not a readable zip file fails without changes; otherwise its entries are extracted in order |
| Unpack.ExtractEntriesKeeps | src/com/w11k/webrcp/UnpackThread.java:111-132 | extracting an archive never overwrites an existing path and creates only paths at, above or below the destination, for entry names that are already split into components (see Left out) |
| Unpack.UnpackAllKeeps | src/com/w11k/webrcp/UnpackThread.java:57-75 | draining the queue never overwrites what existed and creates only paths at, above or below the destination, for entry names that are already split into components (see Left out) |
| Unpack.ExtractEntryWellFormed | src/com/w11k/webrcp/UnpackThread.java:112-131 | extracting one entry keeps the file system well formed |
| Unpack.ExtractEntriesWellFormed | src/com/w11k/webrcp/UnpackThread.java:111-132 | extracting an archive keeps the file system well formed |
| Unpack.DirectoryEntryResult | src/com/w11k/webrcp/UnpackThread.java:118-121 | a missing directory entry succeeds, as a directory, exactly when no ancestor is a file; a failure changes nothing |
| Unpack.FileEntryResult | src/com/w11k/webrcp/UnpackThread.java:122-131 | a missing file entry succeeds exactly when its parent is a directory, and then holds exactly the entry's bytes; no parent is created |
| Unpack.ExtractedPathsExist | src/com/w11k/webrcp/UnpackThread.java:111-132 | after a successful extraction every entry's path exists |
| Unpack.ExistingPathsSkipped | src/com/w11k/webrcp/UnpackThread.java:115-116 | an archive whose paths all exist changes nothing and succeeds |
| Unpack.RerunChangesNothing | src/com/w11k/webrcp/UnpackThread.java:111-132 | extracting the same archive again changes nothing |
| Unpack.FirstArchiveWins | src/com/w11k/webrcp/UnpackThread.java:60-75 | of two queued archives holding the same path, the first decides its content |
| Unpack.ExtractEntries | src/com/w11k/webrcp/UnpackThread.java:111-132 | the entry loop of `unpackFile`; its meaning is stated by ExtractEntriesKeeps, ExtractedPathsExist, ExistingPathsSkipped and RerunChangesNothing |
| Unpack.UnpackAll | src/com/w11k/webrcp/UnpackThread.java:57-75 | the worker's drain of the queue; its meaning is stated by UnpackAllKeeps, UnpackAllPathsExist and FirstArchiveWins |
| Unpack.UnpackAllPathsExist | src/com/w11k/webrcp/UnpackThread.java:57-75 | after the whole queue is unpacked without error, every queued archive that existed was a zip file, and every entry of it exists below the destination |
| Unpack.Cleaned | src/com/w11k/webrcp/UnpackThread.java:154-164 | the clean-up of the destination; its meaning is stated by CleanUpKeepsWorkspace, WorkspaceSurvives and CleanAbsent |
| Unpack.PrunedAll | src/com/w11k/webrcp/UnpackThread.java:176-182 | once every child's sub-tree is removed, the directory is empty and deleting it removes the whole sub-tree |
| Unpack.CleanUpKeepsWorkspace | src/com/w11k/webrcp/UnpackThread.java:154-164 | when every delete succeeds (see Left out), clean-up removes exactly the paths below the destination outside `workspace`; every other path keeps its content |
| Unpack.WorkspaceSurvives | src/com/w11k/webrcp/UnpackThread.java:158-161 | everything in the workspace survives clean-up unchanged |
| Unpack.CleanAbsent | src/com/w11k/webrcp/UnpackThread.java:155 | a missing destination has no children, so clean-up removes nothing |
| Unpack.UnpackThread.constructor | src/com/w11k/webrcp/UnpackThread.java:44-59 | the queue starts empty; with clean-up the destination is cleaned, except that a destination that is a file crashes the worker and changes nothing |
| Unpack.UnpackThread.AddNextFile | src/com/w11k/webrcp/UnpackThread.java:81-86 | the file joins the end of the queue; nothing else changes |
| Unpack.UnpackThread.UnpackNext | src/com/w11k/webrcp/UnpackThread.java:60-75 | the head of the queue is removed and unpacked as `UnpackArchive` specifies |
| Unpack.UnpackThread.Finish | src/com/w11k/webrcp/UnpackThread.java:91-101 | the whole queue is unpacked in order as `UnpackAll` specifies; the queue is then empty unless extraction failed (Extraction Error) or the worker had crashed |
| Unpack.UnpackThread.UnpackFile | src/com/w11k/webrcp/UnpackThread.java:106-149 | the entry loop computes `UnpackArchive` |
| Unpack.UnpackThread.ExtractOne | src/com/w11k/webrcp/UnpackThread.java:112-131 | one entry's extraction computes `ExtractEntry` |
| Unpack.UnpackThread.CopyEntry | src/com/w11k/webrcp/UnpackThread.java:123-130 | the buffered copy leaves the file holding exactly the entry's bytes |
| Unpack.UnpackThread.CleanUpDestDir | src/com/w11k/webrcp/UnpackThread.java:154-164 | fails, changing nothing, exactly when the destination is a file; otherwise the tree becomes `Cleaned` |
| Unpack.UnpackThread.RemoveRecursively | src/com/w11k/webrcp/UnpackThread.java:169-183 | the sub-tree at the path is removed and nothing else changes |
| Bootstrap.ArchiveFileInjective | src/com/w11k/webrcp/WebRCP.java:536 | different archive names have different local copies, with each name a single path component (see Left out) |
| Bootstrap.ArchiveFile | src/com/w11k/webrcp/WebRCP.java:536 | the local copy `<tempDir>/<name>.zip`; its meaning is stated by ArchiveFileInjective |
| Bootstrap.FetchFrom | src/com/w11k/webrcp/WebRCP.java:534-552 | the archive loop; its meaning is stated by FetchQueuesAll, FetchDownloadsNeeded, FetchLeavesCopies and CancelLeavesNoCopy |
| Bootstrap.Needed | src/com/w11k/webrcp/WebRCP.java:538 | the archives the loop's test selects; its meaning is stated by FetchDownloadsNeeded, NeededAllOnOverride and NeededNoneWhenCached |
| Bootstrap.FetchLeavesCopies | src/com/w11k/webrcp/WebRCP.java:534-552 | without a download error, every archive of the manifest has a local copy afterwards |
| Bootstrap.FetchQueuesAll | src/com/w11k/webrcp/WebRCP.java:534-552 | without a download error, every archive's local copy is queued, in manifest order, downloaded or not |
| Bootstrap.FetchDownloadsNeeded | src/com/w11k/webrcp/WebRCP.java:534-552 | with distinct names and no error, exactly the archives that were missing beforehand, or all on a new version, are downloaded |
| Bootstrap.NeededAllOnOverride | src/com/w11k/webrcp/WebRCP.java:538 | a new version downloads every archive again |
| Bootstrap.NeededNoneWhenCached | src/com/w11k/webrcp/WebRCP.java:538 | an unchanged version with every local copy present downloads nothing |
| Bootstrap.CancelLeavesNoCopy | src/com/w11k/webrcp/WebRCP.java:534-552 | a cancel ends the loop, and no local copy of the archive being downloaded remains |
| Bootstrap.FetchArchives | src/com/w11k/webrcp/WebRCP.java:534-552 | the imperative loop leaves the file system, the error and the worker's queue that `FetchFrom` specifies, and touches no other worker state |
| Bootstrap.FetchNext | src/com/w11k/webrcp/WebRCP.java:536-551 | one turn: an error ends the loop without queueing; otherwise the archive is queued and the loop goes on from the next archive |
| Bootstrap.TempDir | src/com/w11k/webrcp/WebRCP.java:522-523 | `<java.io.tmpdir>/<appName>`; used by Stage and LaunchedArchivesUnpacked |
| Bootstrap.DestDir | src/com/w11k/webrcp/WebRCP.java:525 | `<tempDir>/unpacked`; used by Stage and LaunchedArchivesUnpacked |
| Bootstrap.Stage | src/com/w11k/webrcp/WebRCP.java:522-559 | `main` up to the launcher: mkdirs, the worker's clean-up (or its crash), the archive loop, then the wait for the worker; its meaning is stated by LaunchedIff and LaunchedArchivesUnpacked |
| Bootstrap.LaunchOutcome | src/com/w11k/webrcp/WebRCP.java:562-572 | the end of `main` after staging; its meaning is stated by LaunchedIff and the contract of Start |
| Bootstrap.LaunchedIff | src/com/w11k/webrcp/WebRCP.java:534-572 | the launcher is called exactly when no download failed, the worker died in its clean-up or unpacked every queued archive, and the `launcherjar` property is set |
| Bootstrap.LaunchedArchivesUnpacked | src/com/w11k/webrcp/WebRCP.java:534-572 | when a live worker's run reaches the launcher, every archive of the manifest has a local copy that is a zip file, and every one of its entries exists below `unpacked` |
| Bootstrap.Prepare | src/com/w11k/webrcp/WebRCP.java:522-559 | the imperative staging leaves the file system and the error that `Stage` specifies under the marker's answer, and a writable marker holds the version |
| Bootstrap.LaunchArgumentWords | src/com/w11k/webrcp/WebRCP.java:331-335 | with the settings `main` read, the launcher's argument reads as the platform options, then `-application` or `-product` and the name |
| Bootstrap.Run | src/com/w11k/webrcp/WebRCP.java:464-579 | a configuration error ends the run with that failure, changing no file and no marker; otherwise the final file system and the outcome are those of `Stage` and `LaunchOutcome` on the read settings, and a launch uses those settings |
| Bootstrap.Start | src/com/w11k/webrcp/WebRCP.java:522-579 | the final file system is `Stage` of the initial one under the marker's answer, and the outcome is `LaunchOutcome` of that staging; a launch passes the properties with `jnlp.WebRCP.baseURL` set, the jar at `unpacked/` plus the `launcherjar` property and the composed argument string; a writable marker then holds the version |

## Left out

- Concurrency: the worker runs after the downloads have been queued, so the
  interleaving with `main` is not modelled. The lost wake-up between `isEmpty`
  and `wait` (UnpackThread.java:61-64) is not modelled either.
- `System.exit` after `handleError` and in the worker becomes an `Err` result. The
  error dialogs, the progress monitors and `simulateProgress` are Swing UI, and they
  are left out.
- The single-instance check (`ensureSingleInstance`, `Boolean.getBoolean` of the
  single-instance property) opens a server socket, which is network I/O.
- The JNLP `BasicService` lookup is the parameter `codeBase`, and `None` stands
  for an unavailable service.
- The web server is the parameter `server`, which maps a URL to the reads of its
  stream and the answers of the cancel button. `Locale.getDefault` is the parameter
  `locale`. `File.toURI().toURL()` is the parameter `toUrl`.
- Zip decoding is the parameter `decode`. An archive either decodes completely or
  fails before any entry is written. A corrupt entry found after earlier entries
  were written is not modelled.
- Writes to an open file always succeed. Only opening the file and reading from the
  connection can fail.
- In `startLauncher`, `Policy.setPolicy`, the class loading, the reflective call and
  its "Startup Error" catches are left out, because they are foreign code. The run
  ends with the values the launcher is called with.
- `createDesktopShortcutToExe` (its call in `main` is commented out) and
  `printSystemProperties` (never called) are not part of this model.
- `toLowerCase` lowers only the ASCII letters A-Z. Locale-specific and non-ASCII
  case mappings are not modelled.
- The stream length and the `int` running total in `downloadFile` are unbounded,
  so a download of 2 GiB or more, which overflows `int`, is not modelled. The
  monitor's maximum (`getContentLength`) is not modelled.
- `java.io.tmpdir` and the application name are each a single path component.
  The version marker is a separate `VersionFile` beside the file tree.
- `RemoveRecursively` requires a path other than the file-system root. The code
  only applies it to children of the destination directory.
- Paths are sequences of components. A zip entry's name is taken to be already
  split into components, none of them `.` or `..`, and an archive name to be a single
  component. `java.io.File` parses these strings itself: an entry such as `../x`
  would be written outside the destination, an archive name with a `/` would need
  a sub-directory, and `a//b` names the same file as `a/b`.
- Unpack.ExtractEntriesKeeps: holds only for entry names split into components
  without `.` or `..`; an entry `../x` would escape the destination.
- Unpack.UnpackAllKeeps: holds only for such entry names, for the same reason.
- Bootstrap.ArchiveFileInjective: holds only for archive names that are single
  components; `a//b` and `a/b` are different names with the same local copy.
- VersionGate.RepeatIsCurrent: the marker's content is the version as a string.
  `FileWriter` and `FileReader` use the platform's default charset, so the model
  assumes a charset that encodes every character of the version, as UTF-8 does.
  A character that the charset cannot encode is written as `?`. Such a version
  reads back different and is stale on every run.
- VersionGate.RunsWithOneUpdate: its "current on the second run" rests on the
  same assumption about the default charset.
- Unpack.CleanUpKeepsWorkspace: the tree has no permissions, locks or symbolic
  links, so every open, list and delete that the tree's structure allows
  succeeds. The code ignores the result of `delete` in `cleanUpDestDir` and
  `removeRecursively`. So a refused delete, such as a read-only file or a jar held
  open on Windows, is not modelled. Such a file would stay among the new
  version's files, because extraction skips paths that exist. Also not modelled
  are `listFiles` returning null for an unreadable destination, and
  `isDirectory` following a link out of the destination.
- FileTree.FileSystem.OpenForWrite and FileTree.FileSystem.Delete: for the same
  reason, they fail only for structural reasons.
