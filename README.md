# nvx: a verified model of the version manager's core

nvx is a command-line manager for Node.js versions. It keeps its versions
under `versions/` in the working directory, with one directory per
installed version (`versions/v20.11.1`) and one entry
`versions/current` for the active version. The model covers:

- **install:** validates the argument, downloads
  `https://nodejs.org/dist/<v>/node-<v>-<platform>-x64.<ext>` into
  `versions/<v>/`, and on Windows extracts the zip next to it. There are
  two installers. `internal/install.go` ships the registered install
  command and extracts with a pool of worker goroutines. `cmd/install.go`
  is the older sequential installer.
- **use:** removes `versions/current`. The registered command
  (`internal/use.go`) then either
  - makes `versions/current` a link to the version directory, outside Windows; or
  - on Windows, finds the directory holding `node.exe`, copies its files
    into `versions/current/bin`, and puts that directory in front of the
    user's `Path` value in the registry (`pkg/set_user_path.go`).

  The older command (`cmd/use.go`) copies the whole version directory on
  Windows and never touches the registry. Elsewhere it makes a link whose
  text is the relative path `versions/<v>`.
- **uninstall:** removes one version directory.
- **list:** prints the installed versions.

The filesystem is a `map` from paths to nodes: a directory, a file with its
bytes and mode, or a symbolic link. Paths are relative to the working
directory. Every `os` call of the source becomes a pure function from a
tree to a new tree and an outcome (`FileSystem.RemoveAllTree`,
`FileSystem.CopyDirTree`, ...). A set of faulty paths lets the calls that
create, truncate, remove or link fail at those paths: `os.MkdirAll`,
`os.OpenFile`, `os.Create`, `os.RemoveAll` and `os.Symlink`. The calls that
only read never fail on a fault of their own: `os.ReadDir`, `filepath.Walk`,
the read of the archive inside `zip.OpenReader`, and the `os.Stat` presence
checks. They fail only where the path is missing or has the wrong kind.
The class `FileSystem.Disk` holds the tree and
changes it in place. Each command is a method on a `Disk` whose
postcondition ties the new tree to a function of the old one (`UseRun`,
`UninstallRun`, `InstallRun`, ...), and the lemmas state what the source
promises about those functions. The registry key `HKEY_CURRENT_USER\Environment`
is the class `UserPath.UserEnvironment`: its `Path` value, plus which of its
calls fail. The network is a function parameter from URL to response. The
zip decoder is a function parameter from bytes to entries.
`runtime.GOOS` and `runtime.NumCPU()` are parameters.

In these places the code does not do what its command descriptions suggest;
the model follows the code:

- A failed Windows activation (`node.exe` not found) does no cleanup of its
  own. `versions/current` is already gone, because it was removed before
  the search (`Use.UseWindowsNotFoundLeavesNoCurrent`).
- The zip extractor of `internal/install.go` skips directory entries. It
  creates only the parents of the files it writes, so an empty directory
  in the archive is not recreated (`Install.ExtractDirectoriesOnly`).
- The registered use command prints "Now using Node.js ..." even after it
  has printed an error (`Use.UseCommand`).
- `cmd/use.go` ignores the error of removing the old `versions/current`
  (`CmdUse.UnixFailedSwitch`, `CmdUse.WindowsKeepsStale`).
- Outside Windows, `cmd/use.go` gives `os.Symlink` the relative text
  `versions/<v>`. The system reads it from the link's own directory, so
  `versions/current` points at `versions/versions/<v>` and dangles
  (`CmdUse.UnixLinks`, `CmdUse.UnixLinkMissesVersion`). `internal/use.go`
  passes an absolute path and links the version directory itself.
- Both zip extractors write an entry to `filepath.Join(dest, name)`, and Join
  cleans the path. An entry named `../evil` therefore lands in
  `versions/evil`, outside the version directory
  (`Archive.ClimbingNameEscapes`, `Install.ExtractJobEscapes`,
  `CmdInstall.UnzipEntryEscapes`).
- The list command throws its error away, so a missing versions directory
  prints nothing (`List.ListCommand`).
- `cmd/main.go` imports `internal` under the name `cmd`. The commands of
  `internal/` are therefore the registered ones. Those of `cmd/install.go`
  and `cmd/use.go` are modelled as the alternative implementations they are.

## Model

| member | source | states |
|---|---|---|
| ValidateArg.ValidateArgSyntax | pkg/validate_arg.go:8-20 | the argument is accepted exactly when it is at most 8 bytes of UTF-8 and is three dot-separated runs of ASCII digits; a long argument gets the length error, checked first, and any other rejection gets the format error |
| ValidateArg.PatternIsDottedTriple | pkg/validate_arg.go:13-17 | the anchored pattern `^[0-9]+\.[0-9]+\.[0-9]+$` matches exactly the strings that are three non-empty digit runs joined by dots |
| ValidateArg.AcceptedLength | pkg/validate_arg.go:9-11 | an accepted argument has between 5 and 8 characters |
| ValidateArg.AcceptedIsAscii | pkg/validate_arg.go:9-17 | an accepted argument is ASCII, so its byte length equals its character count |
| ValidateArg.AcceptedEndsWithDigits | pkg/validate_arg.go:13-17 | an accepted argument starts and ends with a digit |
| ValidateArg.AcceptedHasThreeGroups | pkg/validate_arg.go:13-17 | an accepted argument splits at `.` into exactly three non-empty groups |
| ValidateArg.AcceptedCharacters | pkg/validate_arg.go:13-17 | an accepted argument holds only digits and dots, and every dot is followed by a digit |
| ValidateArg.AcceptedDotCount | pkg/validate_arg.go:13-17 | an accepted argument holds exactly two dots |
| ValidateArg.LengthCheckedFirst | pkg/validate_arg.go:9-11 | "20.11.100" has the right shape but is 9 bytes long, so it is refused with the length error |
| ValidateArg.LeadingZerosAccepted | pkg/validate_arg.go:13-17 | "01.2.3" is accepted: the pattern does not forbid leading zeros |
| ValidateArg.LeadingVRejected | pkg/validate_arg.go:13-17 | "v20.1.1" is refused with the format error (the command adds the "v" itself) |
| ValidateArg.WhitespaceRejected | pkg/validate_arg.go:13-17 | surrounding whitespace or a trailing newline is refused |
| ValidateArg.EmptyGroupRejected | pkg/validate_arg.go:13-17 | "1..2" is refused |
| ValidateArg.TwoGroupsRejected | pkg/validate_arg.go:13-17 | "1.2" is refused |
| ValidateArg.FourGroupsRejected | pkg/validate_arg.go:13-17 | "1.2.3.4" is refused |
| ValidateArg.EmptyRejected | pkg/validate_arg.go:13-17 | the empty argument is refused with the format error |
| IdentifyOs.IdentifyOS | pkg/identify_os.go:7-26 | the extension is "zip" exactly for the platform "win"; the platform is empty exactly when the extension is, and exactly when the OS is not windows, darwin or linux; the extension is "", "zip" or "tar.xz" |
| IdentifyOs.KnownPlatforms | pkg/identify_os.go:11-23 | windows gives ("win", "zip"), darwin ("darwin", "tar.xz"), linux ("linux", "tar.xz"), and any other OS ("", "") |
| VersionsDir.GetVersionsDir | pkg/get_versions_dir.go:9-21 | succeeds exactly when `versions` exists in the working directory and then returns it; otherwise it fails with "versions directory does not exist" |
| VersionsDir.VersionDir | internal/use.go:51 | the directory of a version is `versions/<version>`: two components, the second being the version |
| VersionsDir.CleanupAgrees | internal/use.go:56-59 | removing `versions/current` leaves every other version directory exactly as it was, keeps the tree well formed and leaves nothing at or below `versions/current` |
| FileSystem.RemoveAllTree | internal/uninstall.go:41-43 | os.RemoveAll: on success exactly the path and everything below it are gone and every other node is unchanged; a missing path is a success that changes nothing; on failure nothing changes |
| FileSystem.SymlinkTree | internal/use.go:102-108 | os.Symlink succeeds exactly when the link does not exist, its parent is a directory and the call does not fault; the link is then the only new node |
| FileSystem.CopyDirTree | cmd/use.go:38-42 | every node at or below the source appears unchanged at the same place below the target; nodes not copied onto stay; nothing else appears; on failure nothing changes |
| FileSystem.MkdirAllTree | internal/install.go:106 | os.MkdirAll: every existing node stays; the only new nodes are directories on the path to p, with the given mode; on success p is a directory; an existing directory is a success that changes nothing |
| FileSystem.OpenTruncTree | internal/install.go:117 | os.OpenFile with O_CREATE and O_TRUNC: on success the file is empty and keeps its mode if it existed, else gets the given one; it needs an existing file or a directory to hold a new one; on failure nothing changes |
| FileSystem.CopyStreamTree | internal/install.go:124-132 | io.Copy into an open file: the file gets the whole stream's bytes and the copy succeeds, or it gets the bytes read before the break and fails with the stream's error; the file keeps its mode |
| FileSystem.RelativeLinkTarget | cmd/use.go:45 | a link made with relative text points below the link's own directory, at that text |
| FileSystem.CopyFileTree | internal/use.go:134 | pkg.CopyFile: on success the target holds the source file's bytes, with the os.Create mode when new; a source that is not a regular file fails; on failure nothing changes |
| FileSystem.Walk | internal/use.go:112-120 | filepath.Walk visits only paths at or below its root |
| FileSystem.ReadDir | internal/list.go:25-28 | os.ReadDir succeeds exactly on a directory and lists each of its entries once, sorted by name, with the right directory flag; a missing path fails with "open", an existing non-directory with the platform's directory-read operation |
| FileSystem.ReadDirOp | internal/use.go:26 | the operation a failed directory read names is never "open": "readdir" on Windows, "readdirent" on Linux |
| Archive.OpenReader | internal/install.go:78-81 | zip.OpenReader fails on a path that is not a regular file and otherwise yields what the decoder makes of the file's bytes |
| Archive.JoinPath | internal/install.go:104 | filepath.Join with cleaning: a name with no `..` component stays at or below the directory it is joined to |
| Archive.Target | internal/install.go:104 | an entry whose name has no `..` component is written at or below the destination |
| Archive.JoinPlain | cmd/install.go:105 | a name made only of ordinary components is appended to the directory as it is |
| Archive.ClimbingNameEscapes | internal/install.go:104 | the name `../evil` joined to `versions/<v>` gives `versions/evil`, which is not below `versions/<v>` |
| Archive.PlainNamesApart | cmd/install.go:105 | for names of ordinary components, no target lies at or below another exactly when no name is a prefix of another |
| Install.URLNamesArchive | internal/install.go:39-40 | the last `/`-separated segment of the download URL is the archive's file name |
| Install.SaveArchive | internal/install.go:52-69 | the archive is saved as `versions/<v>/<name>` with exactly the bytes of the whole body; only that file and the directories above it are added |
| Install.DownloadOutcome | internal/install.go:38-72 | a network error or a status other than 200 fails without touching the disk; success means status 200, a whole body, and the file holding that body at the path returned |
| Install.DownloadFrame | internal/install.go:52-69 | the download changes nothing but the archive file and the directories above it, and keeps the tree well formed |
| Install.DownloadSpec | internal/install.go:38-72 | on success the archive is a file at `versions/<v>/<archive name>`, and the tree stays well formed |
| Install.Download | internal/install.go:38-72 | HTTPDownloader.Download: the new disk and the result are those of the download specification |
| Install.FileEntries | internal/install.go:84-89 | the queued jobs are exactly the archive's non-directory entries |
| Install.QueueFiles | internal/install.go:84-89 | the filter loop yields exactly the non-directory entries, in archive order |
| Install.ExtractJob | internal/install.go:104-133 | a job changes nothing off the path to its cleaned target; on success the target holds the entry's bytes with its mode (an existing file keeps its mode) |
| Install.Pool | internal/install.go:93-144 | at most one error per worker and per job is recorded, and the tree stays well formed |
| Install.PoolFrame | internal/install.go:93-144 | the pool changes nothing that is not on the path to some job's target |
| Install.PoolWritesAll | internal/install.go:93-144 | when no worker fails and no cleaned target lies at or below another, every file entry ends up at its target with its bytes and mode |
| Install.RunPool | internal/install.go:93-144 | the worker loop yields the disk and the recorded errors of the pool specification |
| Install.ExtractOpenFails | internal/install.go:78-81 | an archive that cannot be opened is reported with its open error, and nothing is written |
| Install.ExtractDirectoriesOnly | internal/install.go:84-89 | an archive of directory entries only extracts to nothing: the disk is unchanged and no error is raised |
| Install.ExtractErrorsBounded | internal/install.go:95-108 | no more errors are recorded than there are workers |
| Install.ExtractRun | internal/install.go:77-150 | ZipExtractor.Extract on a tree: the tree stays well formed; its outcome, frame and writes are the lemmas below |
| Install.ExtractFrame | internal/install.go:104-133 | extraction changes no path that is off every cleaned file target's path |
| Install.ExtractWritesFiles | internal/install.go:77-150 | a successful extraction with no target at or below another leaves each file entry at `filepath.Join(dest, name)` with its bytes and mode |
| Install.ExtractJobEscapes | internal/install.go:104-133 | a readable file entry named `../evil`, extracted into `versions/<v>`, is written to `versions/evil` with its bytes and mode |
| Install.Extract | internal/install.go:77-150 | ZipExtractor.Extract: the new disk is the specification's; the call succeeds exactly when no error was recorded and otherwise returns one of the recorded errors |
| Install.WrapAll | internal/install.go:162-164 | each extraction error is wrapped with "failed to extract Node.js" |
| Install.InstallRun | internal/install.go:153-169 | Installer.Install on a tree: the tree stays well formed; the download, extraction and frame lemmas below state the rest |
| Install.InstallDownloadFails | internal/install.go:156-159 | a failed download is the install's one error |
| Install.InstallWithoutZip | internal/install.go:161-165 | off Windows nothing is extracted: the disk is the download's, and the install succeeds exactly when the download does |
| Install.InstallExtractErrorsWrapped | internal/install.go:161-165 | on Windows every error after a successful download carries the context "failed to extract Node.js" |
| Install.InstallWritesFiles | internal/install.go:153-169 | a successful Windows install with no target at or below another leaves every file of the archive at `filepath.Join("versions/<v>", name)` with its bytes |
| Install.InstallFrame | internal/install.go:153-169 | for archives whose entry names have no `..` component, installing version v changes nothing off `versions/<v>` |
| Install.Install | internal/install.go:153-169 | Installer.Install: the new disk is the specification's, and the call succeeds exactly when no error was recorded |
| Install.InstallCommand | internal/install.go:176-193 | an invalid argument is reported and the disk is untouched; otherwise v<arg> is installed, and "Node installed successfully" or the error is printed |
| CmdInstall.UnzipEntry | cmd/install.go:104-133 | a directory entry always succeeds, only adds directories on its cleaned target's path, and leaves a directory at that target whenever os.MkdirAll there succeeds; no entry changes an existing directory; a file entry changes nothing off its cleaned target's path and on success holds the entry's bytes and mode |
| CmdInstall.UnzipSteps | cmd/install.go:104-134 | the loop keeps the tree well formed, and only a file entry can make it fail |
| CmdInstall.UnzipRun | cmd/install.go:96-102 | an archive that is not a regular file fails with its open error and changes nothing |
| CmdInstall.UnzipStepsConcat | cmd/install.go:104-134 | unzipping a + b is unzipping a and then, if that succeeded, b |
| CmdInstall.StopsAtFirstFailure | cmd/install.go:112-133 | the first failing entry ends the loop with its error |
| CmdInstall.DirectoriesAlwaysSucceed | cmd/install.go:107-110 | the MkdirAll result for a directory entry is ignored, so an archive of directories never fails |
| CmdInstall.UnopenedEntryLeavesEmptyFile | cmd/install.go:116-125 | the target is created before the entry is opened, so an entry that cannot be opened leaves an empty file behind |
| CmdInstall.UnzipKeeps | cmd/install.go:104-134 | unzip keeps every existing node that lies on no file entry's target path; directory entries never change an existing node |
| CmdInstall.UnzipKeepsDirectories | cmd/install.go:104-134 | every directory that exists before unzip, or before any stretch of its loop, is still there unchanged afterwards |
| CmdInstall.UnzipMakesDirectories | cmd/install.go:104-110 | a directory entry that the loop reaches, where os.MkdirAll succeeds, leaves a directory at dest/f.Name when unzip returns |
| CmdInstall.UnzipWritesFiles | cmd/install.go:96-137 | a successful unzip with no file target at or below another leaves every file entry at its cleaned target with its bytes |
| CmdInstall.UnzipEntryEscapes | cmd/install.go:104-133 | a readable file entry named `../evil`, unzipped into `versions/<v>`, is written to `versions/evil` with its bytes and mode |
| CmdInstall.UnzipOne | cmd/install.go:104-133 | one iteration of the loop does what the entry specification says |
| CmdInstall.Unzip | cmd/install.go:96-137 | the loop over the entries yields the disk and the error of the unzip specification |
| CmdInstall.DownloadBinary | cmd/install.go:69-94 | the body is saved as `versions/<dirname>/node-<v>-<platform>-x64.<ext>` with exactly its bytes |
| CmdInstall.DownloadNodeVersionBinary | cmd/install.go:69-94 | the method yields the disk and the path of the download specification |
| CmdInstall.SameDownload | cmd/install.go:37-55 | after status 200, the older installer saves the archive exactly where and as the newer one does |
| CmdInstall.SameInstallWithoutZip | cmd/install.go:34-67 | off Windows both installers leave the same disk and fail with the same error |
| CmdInstall.BadStatusWritesNothing | cmd/install.go:47-49 | a status other than 200 fails with that status and writes nothing |
| CmdInstall.InstallNodeVersionRun | cmd/install.go:34-67 | installNodeVersion on a tree keeps it well formed; CmdInstall.SameDownload and CmdInstall.SameInstallWithoutZip compare it with the newer installer |
| CmdInstall.InstallNodeVersion | cmd/install.go:34-67 | the disk is the specification's; nothing is printed on failure; on success "Node.js unzipped successfully" (zip only) and then the download URL are printed |
| CmdInstall.InstallCommand | cmd/install.go:15-32 | an invalid argument is reported and the disk is untouched; otherwise v<arg> is installed and the error or the two success lines are printed |
| Use.FirstHit | internal/use.go:31-40 | the index of the first entry where node.exe is, with none before it |
| Use.Pick | internal/use.go:31-42 | the result is a directory containing node.exe, either dir itself or one of its subdirectories; the search fails with "could not find node.exe" exactly when no entry holds it |
| Use.Find | internal/use.go:25-43 | a missing directory gives "read version directory" around the open error, a non-directory around the Windows "readdir" error; a success is dir or a child directory that contains node.exe |
| Use.FindFailsIffNoCandidate | internal/use.go:25-43 | on a readable directory the search fails exactly when no entry is node.exe and no subdirectory holds node.exe |
| Use.FindLocal | internal/use.go:25-43 | the search depends only on what lies at or below the version directory |
| Use.ScanEntries | internal/use.go:31-42 | the search loop returns what the search specification picks |
| Use.FindSource | internal/use.go:25-43 | WindowsFinder.Find returns what the search specification gives |
| Use.CollectFiles | internal/use.go:110-122 | fails exactly when the root is missing; otherwise it lists, without repeats, exactly the non-directories at or below the root |
| Use.Rel | internal/use.go:126-129 | the relative path exists exactly when the file lies below the source, and joined to the source gives the file back |
| Use.CopyStep | internal/use.go:126-136 | one copy changes nothing but the target and new directories above it; on success the target holds the source file's bytes |
| Use.CopyStepsWritesAll | internal/use.go:124-140 | when the copy loop succeeds, every collected file appears at its relocated place with its bytes |
| Use.CopyStepsUntargeted | internal/use.go:124-140 | the copy loop keeps every node that is not a copy target and adds only directories there |
| Use.CopyStepsAdds | internal/use.go:124-140 | every node the copy loop adds lies on the way to some file's target |
| Use.CopyStepsSources | internal/use.go:124-140 | every non-directory after the copy loop was there before or is the copy of a collected file |
| Use.CopyFiles | internal/use.go:124-140 | the copy loop yields the disk and the error of the copy specification |
| Use.MirrorBin | internal/use.go:74-91 | the mirror keeps the tree well formed, and each of its errors is wrapped with its step's context |
| Use.MirrorBinCopies | internal/use.go:74-91 | after a successful mirror, every file below the source has its bytes at the same place below `versions/current/bin`, and every file there is such a copy |
| Use.MirrorBinOk | internal/use.go:74-91 | a successful mirror found the source, created `versions/current/bin` and ran the copy loop to success |
| Use.MirrorBinFrame | internal/use.go:74-91 | a successful mirror keeps every node it started with and adds nodes only at or below `versions/current` |
| Use.MirrorInto | internal/use.go:74-91 | collect, empty `versions/current/bin`, create it, and copy, as the mirror specification says |
| Use.SwitchPublish | internal/use.go:94-97 | the publishing step changes no file; the registry's new Path value and the outcome are those of AddToUserPath |
| Use.SwitchWindowsOutcome | internal/use.go:68-100 | success means node.exe was found, the mirror succeeded, and Path became binDir in front of the kept old pieces; "not found" changes neither the disk nor Path |
| Use.SwitchWindowsRun | internal/use.go:68-100 | a switch that changed Path succeeded; the tree stays well formed; a missing or non-directory version directory gives the "read version directory" error with the open or "readdir" operation |
| Use.SwitchWindows | internal/use.go:68-100 | switchWindows: the disk, Path and the outcome are those of the switch specification |
| Use.SwitchUnixRun | internal/use.go:102-108 | the link is made exactly when `versions/current` is absent, its parent is a directory and the call does not fault; the error is wrapped "symlink current -> versionDir" |
| Use.SwitchUnix | internal/use.go:102-108 | switchUnix yields the disk and the error of its specification |
| Use.UseRun | internal/use.go:45-66 | Path is changed only by a successful Windows switch, and the tree stays well formed |
| Use.UseNotInstalled | internal/use.go:51-54 | a missing version changes neither the disk nor Path and is reported as "version v is not installed" |
| Use.UseUnixLinks | internal/use.go:56-65 | a successful switch outside Windows leaves Path alone; `versions/current` is then a link to the version's directory and the only node at or below it, and everything else is unchanged |
| Use.UseUnixFailedLinkLeavesNoCurrent | internal/use.go:102-108 | when creating the link fails, no `versions/current` is left |
| Use.UseRunWindows | internal/use.go:56-62 | on Windows, success or "not found" means the version is installed and the old `versions/current` was removed, after which the switch ran |
| Use.UseWindowsMirror | internal/use.go:45-100 | a successful Windows switch leaves `versions/current/bin` holding exactly copies of the files below the directory holding node.exe, Path is binDir in front of the kept old pieces, every node outside `versions/current` is unchanged, and new nodes lie only at or below `versions/current` |
| Use.UseWindowsFrame | internal/use.go:56-100 | a successful Windows switch keeps every node outside `versions/current` as it was and adds nodes only at or below it |
| Use.UseCleanupFails | internal/use.go:56-59 | when the old `versions/current` cannot be removed, the call stops: the tree and Path are unchanged and the error is wrapped "cleanup current link" |
| Use.UseWindowsNotFoundLeavesNoCurrent | internal/use.go:56-72 | when node.exe is not found, Path is unchanged and nothing is left at or below `versions/current` |
| Use.UseNodeVersion | internal/use.go:45-66 | Usage.UseNodeVersion yields the disk, Path and the error of its specification |
| Use.UseCommand | internal/use.go:162-171 | the error, if any, is printed and then "Now using Node.js v<arg>" is always printed; the disk and Path are those of the use specification |
| CmdUse.UseNodeVersionRun | cmd/use.go:28-51 | a missing version is reported and changes nothing; a later failure is wrapped "failed to copy version" on Windows and "failed to switch version" elsewhere |
| CmdUse.UnixLinks | cmd/use.go:29-48 | outside Windows the link is made exactly when the removal succeeded and the link does not fault; it then points at `versions/versions/<v>`, is the only node at or below `versions/current`, and nothing else changes |
| CmdUse.UnixFailedSwitch | cmd/use.go:36-48 | a failed switch outside Windows leaves either the old tree, with the old `versions/current` still there, or the tree without anything at or below `versions/current` and every other node unchanged |
| CmdUse.UnixLinkMissesVersion | cmd/use.go:29-48 | the link a successful switch makes does not point at the version directory, and it dangles unless `versions/versions/<v>` was already there |
| CmdUse.WindowsCopies | cmd/use.go:36-42 | on Windows every node of the version directory reappears unchanged below `versions/current`, and nothing outside `versions/current` changes |
| CmdUse.WindowsCopiesOnly | cmd/use.go:36-42 | when the old `versions/current` was removed, the new one holds copies of the version directory and nothing else |
| CmdUse.WindowsKeepsStale | cmd/use.go:36-42 | when the old `versions/current` could not be removed, its nodes that nothing is copied onto stay |
| CmdUse.UseNodeVersion | cmd/use.go:28-51 | useNodeVersion yields the disk and the error of its specification |
| CmdUse.UseCommand | cmd/use.go:17-25 | exactly one line is printed: the error, or "Now using Node.js v<arg>" |
| Uninstall.UninstallRun | internal/uninstall.go:29-48 | a missing versions directory and a missing version are reported in that order and change nothing; success means the version existed, and exactly it and everything below it are gone; a failed removal changes nothing and is wrapped "failed to uninstall Node.js version v" |
| Uninstall.UninstallKeepsOthers | internal/uninstall.go:35-43 | a successful uninstall leaves every other version directory, and `versions/current`, exactly as it was |
| Uninstall.UninstallNodeVersion | internal/uninstall.go:29-48 | the disk and the error are those of the specification, and the success line is printed exactly on success |
| Uninstall.UninstallCommand | internal/uninstall.go:11-27 | an invalid argument is reported and the disk is untouched; otherwise "Error uninstalling Node.js: ..." or the success line is printed |
| List.ListedNames | internal/list.go:31-39 | a name is listed exactly when it is a directory entry other than "current" |
| List.Bullets | internal/list.go:37 | one "- name" line per listed name |
| List.InstalledVersions | internal/list.go:19-42 | the versions are exactly the directories directly in `versions/` other than "current" |
| List.ListRun | internal/list.go:19-42 | a missing versions directory and a non-directory one give their errors, the latter naming the platform's directory-read operation, and print nothing; success means the directory can be read, and the header comes first |
| List.ListedSorted | internal/list.go:25-39 | the names come out in strictly increasing order, as os.ReadDir sorts them |
| List.ListShowsInstalled | internal/list.go:19-42 | on a readable versions directory, the header is followed by "- name" for exactly the installed versions, each once, in increasing order |
| List.ListEntries | internal/list.go:31-39 | the loop prints the bullets of the listed names |
| List.ListNodeVersions | internal/list.go:19-42 | listNodeVersions prints the lines and returns the error of its specification, changing nothing |
| List.ListCommand | internal/list.go:11-17 | the command prints the lines and drops the error |
| Strings.Split | pkg/set_user_path.go:34 | strings.Split gives at least one piece and no piece holds the separator |
| Strings.Join | pkg/set_user_path.go:50 | strings.Join starts with the first part, followed by the separator when there are more |
| Strings.TrimSpace | pkg/set_user_path.go:38 | strings.TrimSpace leaves no space at either end and is empty exactly when the input is all spaces |
| UserPath.CleanParts | pkg/set_user_path.go:34-46 | there are no more kept parts than pieces of the old value |
| UserPath.NewPath | pkg/set_user_path.go:48-51 | the new value starts with the bin directory and is longer than it when there are kept parts |
| UserPath.Kept | pkg/set_user_path.go:34-46 | the kept pieces are trimmed, non-blank, and no more than there were |
| UserPath.CleanPartsShape | pkg/set_user_path.go:34-46 | every kept piece is non-blank, trimmed, and free of `;` |
| UserPath.CleanPartsConcat | pkg/set_user_path.go:34-46 | the pieces before a `;` keep their place before those after it: the old order is kept |
| UserPath.BlankGivesBin | pkg/set_user_path.go:48-51 | a missing or blank old value leaves the bin directory alone on PATH |
| UserPath.NewPathPieces | pkg/set_user_path.go:48-51 | the new value split at `;` is the bin directory followed by the kept old pieces |
| UserPath.NoDeduplication | pkg/set_user_path.go:34-51 | nothing is deduplicated: a PATH that already is the bin directory gets it twice |
| UserPath.CleanPathParts | pkg/set_user_path.go:34-46 | the loop yields the kept pieces of the old value |
| UserPath.AddToUserPathRun | pkg/set_user_path.go:21-55 | succeeds exactly when opening, reading and writing the key all succeed, and then writes the bin directory in front of the kept pieces; on failure Path is unchanged |
| UserPath.UserEnvironment.AddToUserPath | pkg/set_user_path.go:13-58 | AddToUserPath yields the new Path value and the error of its specification |

## Left out

- HTTP: `http.Get` is a parameter from URL to response or error. Streaming,
  timeouts and `resp.Body.Close` are not modelled. A body that breaks off
  midway is a `Truncated` stream carrying its error.
- Zip decoding: `zip.OpenReader` is a decoder parameter from the file's
  bytes to its entries, each with a name, a directory flag, a mode and
  the outcome of opening it. Checksums and compression are outside the model.
- tar.xz archives are downloaded but never extracted, as in the source.
  Nothing models their contents.
- Progress bars and console output other than the printed lines are left out.
- Concurrency: the worker pool of `ZipExtractor.Extract` runs its jobs one
  after another in queue order. One error is returned among those recorded,
  as the error channel does. Only the outcome is modelled, not the
  interleavings in which two workers race on one parent directory.
- `runtime.NumCPU()`, `runtime.GOOS` and `os.Getwd` are parameters or are
  fixed. The working directory is the root of the tree, so a failing
  `os.Getwd` is not modelled.
- `filepath.Abs` and `filepath.Clean`: the bin directory handed to
  AddToUserPath is a parameter taken to be absolute already. The
  "failed to get absolute path" error (pkg/set_user_path.go:14-17) is
  therefore not modelled. The loop's `Abs` and `Clean` of each old piece are
  computed and then discarded by the source, so they are not modelled either.
- `sendEnvChange` (pkg/set_user_path.go:57, 61-74) broadcasts a window
  message. It is a foreign call with no effect on the state modelled.
- The registry: `CreateKey` is one call that may fail. A missing `Path`
  value (ErrNotExist) reads as "", and other read failures are errors.
  `key.Close` is not modelled.
- `os.Stat` follows links, while the model checks only that a path is
  present. A dangling link therefore counts as installed.
- `filepath.Rel` results that climb with `..` cannot arise from the files
  collected below the source, so only the "below" case is modelled.
- A version argument containing `/` is not modelled: a path component is
  one `string`.
- Stat errors other than "does not exist" are treated as success, as the
  source's `os.IsNotExist` checks do.
- FileSystem.ReadDir: reading an existing directory never fails; a
  permission or I/O error is not modelled. A path that is a link to a
  directory fails as a non-directory, where os.ReadDir would follow the link.
- Use.CollectFiles: `filepath.Walk` fails in the model only on a missing
  root. The error an unreadable subdirectory hands to the callback
  (internal/use.go:113-115) is not modelled.
- Links are never followed by `os.MkdirAll`, `os.OpenFile` or `os.ReadDir`
  in the model: a link on the way to a path counts as a non-directory.
- Modes: a new file stores the whole mode it was opened with, which for
  an extracted entry is `f.Mode()` including its type bits. The real
  `os.OpenFile` keeps only the permission bits and setuid, setgid and
  sticky, and the umask is applied to them and to the mode of `os.MkdirAll`.
  On Windows, the only platform that extracts archives, just the read-only
  bit survives.
- Error text: `Text` of a path error prints the operation and the path
  without Go's `: <errno>` suffix. FileSystem.ReadDirOp gives per platform
  the operation Go's directory reader reports for an existing
  non-directory; it follows the Go releases of the source's era. It prints paths relative to the working
  directory, where `internal/` prints absolute ones.
- Install.InstallFrame: holds only for archives whose entry names have no
  `..` component. An entry that climbs is written outside `versions/<v>`,
  as Install.ExtractJobEscapes shows.
- Case-insensitive names: path components are compared exactly, as on
  Linux. On Windows, the only platform that extracts archives and looks for
  node.exe, the file system ignores case. So `Use.HoldsNodeExe` and
  `Use.Find` miss a `Node.exe` that `os.Stat` would find. Zip entries
  `a/X` and `a/x` are two apart targets in the model, where Windows writes
  one file twice.
- Archive.JoinPath: the destination is taken to be clean already, as
  it is wherever the source builds it. Windows drive letters and `\`
  separators in entry names are not modelled.
- FileSystem.RemoveAllTree: a failing os.RemoveAll removes nothing. The
  real call may have removed part of the subtree before it fails.
- The source of `pkg.CopyFile` and `pkg.CopyDir` is not part of this
  model. The two are modelled by what they do
  (FileSystem.CopyFileTree and FileSystem.CopyDirTree), not line by line.
- Command-line wiring: cobra argument counting, `RegisterCommands`, and the
  `AddToUserPath` call that cmd/main.go makes at every start are not
  modelled. The first is a library. The second is a single call of the
  modelled `UserPath.UserEnvironment.AddToUserPath`.
- A link records the path it points to, resolved from the working
  directory. Relative link text is resolved once, when the link is made
  (FileSystem.RelativeLinkTarget), not each time the link is followed.
- CmdInstall.UnzipWritesFiles and Install.InstallWritesFiles state the
  bytes of each extracted file but not its mode. Install.ExtractWritesFiles
  states both.
