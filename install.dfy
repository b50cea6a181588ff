/**
 * internal/install.go: HTTPDownloader.Download, ZipExtractor.Extract,
 * Installer.Install and the install command's Run body.
 *
 * The network is a parameter: for each URL, the transport error or the
 * response. The worker pool of Extract runs here in queue order: each job goes
 * to a live worker, a failing job records its error and ends its worker, and
 * once every worker has ended the jobs left in the channel are never taken.
 * Which recorded error Extract returns is left open.
 */
module Install {
  import opened Common
  import opened Strings
  import opened FileSystem
  import opened Archive
  import opened IdentifyOs
  import opened ValidateArg

  /** The status code and body of an answered request. */
  datatype Response = Response(status: int, body: Stream)

  /** http.Get: for each URL, the transport error or the response. */
  type Network = string -> Result<Response>

  const StatusOK := 200

  /** The release URL: https://nodejs.org/dist/<v>/node-<v>-<platform>-x64.<ext> */
  function DownloadURL(version: string, platform: string, extension: string): string
  {
    "https://nodejs.org/dist/" + version + "/node-" + version + "-" + platform + "-x64." + extension
  }

  /** The name the archive is saved under: node-<v>-<platform>-x64.<ext> */
  function ArchiveName(version: string, platform: string, extension: string): string
  {
    "node-" + version + "-" + platform + "-x64." + extension
  }

  /** The archive is saved under the last segment of the URL it came from. */
  lemma URLNamesArchive(version: string, platform: string, extension: string)
    requires '/' !in version && '/' !in platform && '/' !in extension
    ensures var segments := Split(DownloadURL(version, platform, extension), '/');
      segments[|segments| - 1] == ArchiveName(version, platform, extension)
  {
    var name := ArchiveName(version, platform, extension);
    assert '/' !in "node-" && '/' !in "-" && '/' !in "-x64.";
    assert '/' !in name;
    assert DownloadURL(version, platform, extension) == ("https://nodejs.org/dist/" + version) + ['/'] + name;
    SplitConcat("https://nodejs.org/dist/" + version, '/', name);
    SplitWithoutSeparator(name, '/');
  }

  // ---------------------------------------------------------------------------
  // Download

  /**
   * Saving an answered download (the same steps in both install variants):
   * versions/<dir> is made, versions/<dir>/<name> created, the body copied in.
   */
  function SaveArchive(t: Tree, faulty: set<Path>, dir: string, name: string, body: Stream): (r: (Tree, Result<Path>))
    ensures WellFormed(t) ==> WellFormed(r.0)
    ensures r.1.Success? ==> r.1.value == ["versions", dir, name]
    ensures r.1.Success? ==> body.Whole? && IsFile(r.0, r.1.value) && r.0[r.1.value].data == body.data
    ensures r.1.Success? ==> IsDir(r.0, ["versions", dir])
    ensures forall q :: q in t && q != ["versions", dir, name] ==> q in r.0 && r.0[q] == t[q]
    ensures forall q :: q in r.0 ==> q in t || q <= ["versions", dir, name]
  {
    var targetDir := ["versions", dir];
    var targetFile := targetDir + [name];
    var m := MkdirAllTree(t, faulty, targetDir, DirPerm);
    if m.1.Err? then (m.0, Failure(Wrapped("error creating directory", m.1.error)))
    else
      var o := OpenTruncTree(m.0, faulty, targetFile, CreatePerm);
      if o.1.Err? then (o.0, Failure(Wrapped("failed to create file", o.1.error)))
      else
        var c := CopyStreamTree(o.0, targetFile, body);
        if c.1.Err? then (c.0, Failure(Wrapped("failed to save Node.js", c.1.error)))
        else (c.0, Success(targetFile))
  }

  /** HTTPDownloader.Download on a tree: the effect and the result. */
  function DownloadSpec(t: Tree, faulty: set<Path>, net: Network, version: string, platform: string, extension: string): (r: (Tree, Result<Path>))
    ensures r.1.Success? ==> r.1.value == ["versions", version, ArchiveName(version, platform, extension)]
    ensures r.1.Success? ==> IsFile(r.0, r.1.value)
    ensures WellFormed(t) ==> WellFormed(r.0)
  {
    var resp := net(DownloadURL(version, platform, extension));
    if resp.Failure? then (t, Failure(Wrapped("failed to download Node.js", resp.error)))
    else if resp.value.status != StatusOK then (t, Failure(BadStatus(resp.value.status)))
    else SaveArchive(t, faulty, version, ArchiveName(version, platform, extension), resp.value.body)
  }

  /** Download: a failed request or a status other than 200 changes nothing; success saves the whole body at versions/<v>/<archive name>. */
  lemma DownloadOutcome(t: Tree, faulty: set<Path>, net: Network, version: string, platform: string, extension: string)
    ensures var resp := net(DownloadURL(version, platform, extension));
      var r := DownloadSpec(t, faulty, net, version, platform, extension);
      (resp.Failure? ==> r == (t, Failure(Wrapped("failed to download Node.js", resp.error)))) &&
      (resp.Success? && resp.value.status != StatusOK ==> r == (t, Failure(BadStatus(resp.value.status)))) &&
      (r.1.Success? ==>
         (resp.Success? && resp.value.status == StatusOK && resp.value.body.Whole? &&
          r.1.value == ["versions", version, ArchiveName(version, platform, extension)] &&
          IsFile(r.0, r.1.value) && r.0[r.1.value].data == resp.value.body.data))
  {
  }

  /** Download changes nothing but the archive file and the directories above it. */
  lemma DownloadFrame(t: Tree, faulty: set<Path>, net: Network, version: string, platform: string, extension: string)
    ensures var r := DownloadSpec(t, faulty, net, version, platform, extension);
      var file := ["versions", version, ArchiveName(version, platform, extension)];
      (forall q :: q in t && q != file ==> q in r.0 && r.0[q] == t[q]) &&
      (forall q :: q in r.0 ==> q in t || q <= file) &&
      (WellFormed(t) ==> WellFormed(r.0))
  {
  }

  /** HTTPDownloader.Download(version, platform, extension) */
  method Download(fs: Disk, net: Network, version: string, platform: string, extension: string) returns (r: Result<Path>)
    requires fs.Valid()
    modifies fs
    ensures fs.Valid()
    ensures (fs.nodes, r) == DownloadSpec(old(fs.nodes), fs.faulty, net, version, platform, extension)
  {
    var url := DownloadURL(version, platform, extension);
    var resp := net(url);
    if resp.Failure? {
      return Failure(Wrapped("failed to download Node.js", resp.error));
    }
    if resp.value.status != StatusOK {
      return Failure(BadStatus(resp.value.status));
    }
    var targetDir := ["versions", version];
    var o := fs.MkdirAll(targetDir, DirPerm);
    if o.Err? {
      return Failure(Wrapped("error creating directory", o.error));
    }
    var targetFile := targetDir + [ArchiveName(version, platform, extension)];
    o := fs.OpenTrunc(targetFile, CreatePerm);
    if o.Err? {
      return Failure(Wrapped("failed to create file", o.error));
    }
    o := fs.CopyStream(targetFile, resp.value.body);
    if o.Err? {
      return Failure(Wrapped("failed to save Node.js", o.error));
    }
    return Success(targetFile);
  }

  // ---------------------------------------------------------------------------
  // Extract

  /** The jobs Extract queues: the entries that are not directories, in archive order. */
  function FileEntries(es: seq<Entry>): (r: seq<Entry>)
    ensures forall e :: e in r <==> e in es && !e.isDir
    ensures |r| <= |es|
    decreases |es|
  {
    if es == [] then []
    else
      var init := es[..|es| - 1];
      assert es == init + [es[|es| - 1]];
      if es[|es| - 1].isDir then FileEntries(init) else FileEntries(init) + [es[|es| - 1]]
  }

  /**
   * One job of a worker: the directories above the target (0o777), f.Open(),
   * the target opened with f.Mode(), and the copy.
   */
  function ExtractJob(t: Tree, faulty: set<Path>, dest: Path, f: Entry): (r: (Tree, Outcome))
    ensures WellFormed(t) ==> WellFormed(r.0)
    ensures forall q :: !(q <= Target(dest, f)) ==> (q in r.0 <==> q in t) && (q in t ==> r.0[q] == t[q])
    ensures r.1 == Ok ==>
      (Readable(f) && Target(dest, f) in r.0 &&
       r.0[Target(dest, f)] == File(f.content.value.data, KeptPerm(t, Target(dest, f), f.mode)))
  {
    var fPath := Target(dest, f);
    var m := MkdirAllTree(t, faulty, Parent(fPath), ModePerm);
    if m.1.Err? then m
    else if f.content.Failure? then (m.0, Err(f.content.error))
    else
      var o := OpenTruncTree(m.0, faulty, fPath, f.mode);
      assert KeptPerm(m.0, fPath, f.mode) == KeptPerm(t, fPath, f.mode);
      if o.1.Err? then o
      else CopyStreamTree(o.0, fPath, f.content.value)
  }

  /**
   * The worker pool over the queued jobs with `alive` workers left: the final
   * tree and the errors sent on the errs channel, in the order they were sent.
   */
  function Pool(t: Tree, faulty: set<Path>, dest: Path, jobs: seq<Entry>, alive: nat): (r: (Tree, seq<Error>))
    ensures |r.1| <= alive && |r.1| <= |jobs|
    ensures WellFormed(t) ==> WellFormed(r.0)
    decreases |jobs|
  {
    if jobs == [] || alive == 0 then (t, [])
    else
      var j := ExtractJob(t, faulty, dest, jobs[0]);
      if j.1.Err? then
        var rest := Pool(j.0, faulty, dest, jobs[1..], alive - 1);
        (rest.0, [j.1.error] + rest.1)
      else Pool(j.0, faulty, dest, jobs[1..], alive)
  }

  /** The pool changes nothing that does not lie on the way to some job's target. */
  lemma {:induction false} PoolFrame(t: Tree, faulty: set<Path>, dest: Path, jobs: seq<Entry>, alive: nat)
    ensures var u := Pool(t, faulty, dest, jobs, alive).0;
      forall q :: !OnTargetPath(q, dest, jobs) ==> (q in u <==> q in t) && (q in t ==> u[q] == t[q])
    decreases |jobs|
  {
    if jobs != [] && alive != 0 {
      var j := ExtractJob(t, faulty, dest, jobs[0]);
      var left := if j.1.Err? then alive - 1 else alive;
      PoolFrame(j.0, faulty, dest, jobs[1..], left);
      forall q {
        OnTargetPathCons(q, dest, jobs);
      }
    }
  }

  /** The first job leaves the other targets as they were. */
  lemma FirstJobKeepsOthers(t: Tree, faulty: set<Path>, dest: Path, jobs: seq<Entry>)
    requires PrefixFree(dest, jobs) && |jobs| > 0
    ensures var t1 := ExtractJob(t, faulty, dest, jobs[0]).0;
      forall i :: 1 <= i < |jobs| ==>
        KeptPerm(t1, Target(dest, jobs[i]), jobs[i].mode) == KeptPerm(t, Target(dest, jobs[i]), jobs[i].mode)
  {
    PrefixFreeFirst(dest, jobs);
  }

  /** The later jobs leave the first job's target as it was. */
  lemma LaterJobsKeepFirst(t1: Tree, faulty: set<Path>, dest: Path, jobs: seq<Entry>, alive: nat)
    requires PrefixFree(dest, jobs) && |jobs| > 0
    ensures var u := Pool(t1, faulty, dest, jobs[1..], alive).0;
      var first := Target(dest, jobs[0]);
      (first in u <==> first in t1) && (first in t1 ==> u[first] == t1[first])
  {
    PrefixFreeFirst(dest, jobs);
    PoolFrame(t1, faulty, dest, jobs[1..], alive);
  }

  /**
   * With at least one worker, a pool that records no error has written every job:
   * each target is a file with the entry's bytes and, when it is new, the entry's mode.
   */
  lemma {:induction false} PoolWritesAll(t: Tree, faulty: set<Path>, dest: Path, jobs: seq<Entry>, alive: nat)
    requires alive >= 1 && PrefixFree(dest, jobs)
    requires Pool(t, faulty, dest, jobs, alive).1 == []
    ensures var u := Pool(t, faulty, dest, jobs, alive).0;
      forall i :: 0 <= i < |jobs| ==>
        (Readable(jobs[i]) && Target(dest, jobs[i]) in u &&
         u[Target(dest, jobs[i])] == File(jobs[i].content.value.data, KeptPerm(t, Target(dest, jobs[i]), jobs[i].mode)))
    decreases |jobs|
  {
    if jobs != [] {
      var j := ExtractJob(t, faulty, dest, jobs[0]);
      assert j.1 == Ok;
      var u := Pool(j.0, faulty, dest, jobs[1..], alive).0;
      assert u == Pool(t, faulty, dest, jobs, alive).0;
      PrefixFreeTail(dest, jobs);
      PoolWritesAll(j.0, faulty, dest, jobs[1..], alive);
      LaterJobsKeepFirst(j.0, faulty, dest, jobs, alive);
      FirstJobKeepsOthers(t, faulty, dest, jobs);
      forall i | 1 <= i < |jobs| ensures Readable(jobs[i]) && Target(dest, jobs[i]) in u &&
        u[Target(dest, jobs[i])] == File(jobs[i].content.value.data, KeptPerm(t, Target(dest, jobs[i]), jobs[i].mode)) {
        assert jobs[1..][i - 1] == jobs[i];
      }
    }
  }

  /**
   * ZipExtractor.Extract(src, dest) with numWorkers workers: the final tree and
   * the errors any of which the call may return (none means nil). An archive
   * that does not open gives exactly its error and touches nothing.
   */
  function ExtractRun(t: Tree, faulty: set<Path>, decode: Decoder, numWorkers: nat, src: Path, dest: Path): (r: (Tree, seq<Error>))
    ensures WellFormed(t) ==> WellFormed(r.0)
  {
    match OpenReader(t, decode, src)
    case Failure(e) => (t, [e])
    case Success(entries) => Pool(t, faulty, dest, FileEntries(entries), numWorkers)
  }

  /** An archive that does not open changes nothing and reports why. */
  lemma ExtractOpenFails(t: Tree, faulty: set<Path>, decode: Decoder, numWorkers: nat, src: Path, dest: Path)
    requires OpenReader(t, decode, src).Failure?
    ensures ExtractRun(t, faulty, decode, numWorkers, src, dest) == (t, [OpenReader(t, decode, src).error])
  {
  }

  /** Directory entries are never queued: an archive holding only directories (or nothing) leaves the tree as it was and succeeds. */
  lemma ExtractDirectoriesOnly(t: Tree, faulty: set<Path>, decode: Decoder, numWorkers: nat, src: Path, dest: Path)
    requires OpenReader(t, decode, src).Success?
    requires forall e :: e in OpenReader(t, decode, src).value ==> e.isDir
    ensures ExtractRun(t, faulty, decode, numWorkers, src, dest) == (t, [])
  {
    var files := FileEntries(OpenReader(t, decode, src).value);
    assert forall i :: 0 <= i < |files| ==> files[i] in files;
  }

  /** At most one error per worker is ever recorded. */
  lemma ExtractErrorsBounded(t: Tree, faulty: set<Path>, decode: Decoder, numWorkers: nat, src: Path, dest: Path)
    requires numWorkers >= 1
    ensures |ExtractRun(t, faulty, decode, numWorkers, src, dest).1| <= numWorkers
  {
  }

  /** Extraction changes nothing that is not on the way to the target of a file entry. */
  lemma ExtractFrame(t: Tree, faulty: set<Path>, decode: Decoder, numWorkers: nat, src: Path, dest: Path, q: Path)
    requires OpenReader(t, decode, src).Success?
    requires !OnTargetPath(q, dest, FileEntries(OpenReader(t, decode, src).value))
    ensures var u := ExtractRun(t, faulty, decode, numWorkers, src, dest).0;
      (q in u <==> q in t) && (q in t ==> u[q] == t[q])
  {
    PoolFrame(t, faulty, dest, FileEntries(OpenReader(t, decode, src).value), numWorkers);
  }

  /**
   * A successful extraction has written every file entry f to dest/f.Name with
   * the entry's bytes, and with f.Mode() when the file is new.
   */
  lemma ExtractWritesFiles(t: Tree, faulty: set<Path>, decode: Decoder, numWorkers: nat, src: Path, dest: Path, f: Entry)
    requires numWorkers >= 1
    requires OpenReader(t, decode, src).Success?
    requires PrefixFree(dest, FileEntries(OpenReader(t, decode, src).value))
    requires ExtractRun(t, faulty, decode, numWorkers, src, dest).1 == []
    requires f in OpenReader(t, decode, src).value && !f.isDir
    ensures var u := ExtractRun(t, faulty, decode, numWorkers, src, dest).0;
      Readable(f) && Target(dest, f) in u &&
      u[Target(dest, f)] == File(f.content.value.data, KeptPerm(t, Target(dest, f), f.mode))
  {
    var files := FileEntries(OpenReader(t, decode, src).value);
    PoolWritesAll(t, faulty, dest, files, numWorkers);
    var i :| 0 <= i < |files| && files[i] == f;
  }

  /**
   * The zip-slip: a readable file entry named ../evil, extracted into
   * versions/<v>, is written to versions/evil, outside the version directory.
   */
  lemma ExtractJobEscapes(t: Tree, faulty: set<Path>, version: string, data: Bytes, m: Mode)
    requires Plain(version) && version != "evil"
    requires IsDir(t, ["versions"]) && ["versions", "evil"] !in t && ["versions", "evil"] !in faulty
    ensures var e := Entry(["..", "evil"], false, m, Success(Whole(data)));
      var r := ExtractJob(t, faulty, ["versions", version], e);
      r.1 == Ok && ["versions", "evil"] in r.0 && r.0[["versions", "evil"]] == File(data, m) && !(["versions", version] <= ["versions", "evil"])
  {
    ClimbingNameEscapes(version, data, m);
    var e := Entry(["..", "evil"], false, m, Success(Whole(data)));
    var p := ["versions", "evil"];
    assert Parent(p) == ["versions"];
    var o := OpenTruncTree(t, faulty, p, m);
    assert o == (t[p := File([], m)], Ok);
    assert ExtractJob(t, faulty, ["versions", version], e) == CopyStreamTree(o.0, p, Whole(data));
  }

  /** One job, done by a worker through the disk. */
  method RunJob(fs: Disk, dest: Path, f: Entry) returns (r: Outcome)
    requires fs.Valid()
    modifies fs
    ensures fs.Valid()
    ensures (fs.nodes, r) == ExtractJob(old(fs.nodes), fs.faulty, dest, f)
  {
    var fPath := Target(dest, f);
    r := fs.MkdirAll(Parent(fPath), ModePerm);
    if r.Err? {
      return;
    }
    if f.content.Failure? {
      return Err(f.content.error);
    }
    r := fs.OpenTrunc(fPath, f.mode);
    if r.Err? {
      return;
    }
    r := fs.CopyStream(fPath, f.content.value);
  }

  /** The first loop of Extract: the entries that are not directories, in archive order. */
  method QueueFiles(entries: seq<Entry>) returns (files: seq<Entry>)
    ensures files == FileEntries(entries)
  {
    files := [];
    for i := 0 to |entries|
      invariant files == FileEntries(entries[..i])
    {
      assert entries[..i + 1][..i] == entries[..i];
      if !entries[i].isDir {
        files := files + [entries[i]];
      }
    }
    assert entries[..|entries|] == entries;
  }

  /** One step of the pool: the first job runs, and the rest of the queue goes to the workers still alive. */
  lemma PoolStep(t: Tree, faulty: set<Path>, dest: Path, jobs: seq<Entry>, alive: nat, t1: Tree, o: Outcome, left: nat)
    requires jobs != [] && alive > 0
    requires t1 == ExtractJob(t, faulty, dest, jobs[0]).0 && o == ExtractJob(t, faulty, dest, jobs[0]).1
    requires left == if o.Err? then alive - 1 else alive
    ensures var rest := Pool(t1, faulty, dest, jobs[1..], left);
      Pool(t, faulty, dest, jobs, alive) == if o.Err? then (rest.0, [o.error] + rest.1) else rest
  {
  }

  /** The invariant of the pool loop carries over one step. */
  lemma PoolAdvance(goal: (Tree, seq<Error>), now: (Tree, seq<Error>), next: (Tree, seq<Error>), errs: seq<Error>, o: Outcome, sent: seq<Error>)
    requires goal == (now.0, errs + now.1)
    requires now == if o.Err? then (next.0, [o.error] + next.1) else next
    requires sent == if o.Err? then errs + [o.error] else errs
    ensures goal == (next.0, sent + next.1)
  {
    if o.Err? {
      assert errs + ([o.error] + next.1) == sent + next.1;
    }
  }

  /** The worker pool: jobs taken in queue order while a worker is alive; the errors in the order they were sent. */
  method RunPool(fs: Disk, dest: Path, files: seq<Entry>, numWorkers: nat) returns (errs: seq<Error>)
    requires fs.Valid()
    modifies fs
    ensures fs.Valid()
    ensures (fs.nodes, errs) == Pool(old(fs.nodes), fs.faulty, dest, files, numWorkers)
  {
    ghost var goal := Pool(fs.nodes, fs.faulty, dest, files, numWorkers);
    var alive := numWorkers;
    errs := [];
    var k := 0;
    assert files[k..] == files;
    assert goal.1 == errs + goal.1;
    while k < |files| && alive > 0
      invariant 0 <= k <= |files| && fs.Valid()
      invariant goal == (Pool(fs.nodes, fs.faulty, dest, files[k..], alive).0, errs + Pool(fs.nodes, fs.faulty, dest, files[k..], alive).1)
      decreases |files| - k
    {
      ghost var t := fs.nodes;
      var o := RunJob(fs, dest, files[k]);
      var left := if o.Err? then alive - 1 else alive;
      var sent := if o.Err? then errs + [o.error] else errs;
      PoolStep(t, fs.faulty, dest, files[k..], alive, fs.nodes, o, left);
      assert files[k..][1..] == files[k + 1..];
      PoolAdvance(goal, Pool(t, fs.faulty, dest, files[k..], alive), Pool(fs.nodes, fs.faulty, dest, files[k + 1..], left), errs, o, sent);
      alive, errs, k := left, sent, k + 1;
    }
    assert k == |files| ==> files[k..] == [];
    assert Pool(fs.nodes, fs.faulty, dest, files[k..], alive) == (fs.nodes, []);
    assert errs + [] == errs;
  }

  /** ZipExtractor.Extract(src, dest), runtime.NumCPU() being numWorkers. */
  method Extract(fs: Disk, decode: Decoder, numWorkers: nat, src: Path, dest: Path) returns (r: Outcome)
    requires fs.Valid() && numWorkers >= 1
    modifies fs
    ensures fs.Valid()
    ensures fs.nodes == ExtractRun(old(fs.nodes), fs.faulty, decode, numWorkers, src, dest).0
    ensures r == Ok <==> ExtractRun(old(fs.nodes), fs.faulty, decode, numWorkers, src, dest).1 == []
    ensures r.Err? ==> r.error in ExtractRun(old(fs.nodes), fs.faulty, decode, numWorkers, src, dest).1
  {
    var reader := OpenReader(fs.nodes, decode, src);
    if reader.Failure? {
      return Err(reader.error);
    }
    var files := QueueFiles(reader.value);
    var errs := RunPool(fs, dest, files, numWorkers);
    if |errs| > 0 {
      var j :| 0 <= j < |errs|;
      return Err(errs[j]);
    }
    return Ok;
  }

  // ---------------------------------------------------------------------------
  // Install and the install command

  /** fmt.Errorf("<context>: %v", e) applied to each error a call may return. */
  function WrapAll(context: string, es: seq<Error>): (r: seq<Error>)
    ensures |r| == |es|
    ensures forall i :: 0 <= i < |es| ==> r[i] == Wrapped(context, es[i])
  {
    seq(|es|, i requires 0 <= i < |es| => Wrapped(context, es[i]))
  }

  /**
   * Installer.Install(version) with the HTTP downloader and the zip extractor,
   * on the operating system goos: the final tree and the errors the call may
   * return (none means nil).
   */
  function InstallRun(t: Tree, faulty: set<Path>, net: Network, decode: Decoder, numWorkers: nat, goos: string, version: string): (r: (Tree, seq<Error>))
    ensures WellFormed(t) ==> WellFormed(r.0)
  {
    var os := IdentifyOS(goos);
    var d := DownloadSpec(t, faulty, net, version, os.0, os.1);
    if d.1.Failure? then (d.0, [d.1.error])
    else if os.1 != "zip" then (d.0, [])
    else
      var x := ExtractRun(d.0, faulty, decode, numWorkers, d.1.value, Parent(d.1.value));
      (x.0, WrapAll("failed to extract Node.js", x.1))
  }

  /** A failed download is returned as it is, and nothing is extracted. */
  lemma InstallDownloadFails(t: Tree, faulty: set<Path>, net: Network, decode: Decoder, numWorkers: nat, goos: string, version: string)
    requires var os := IdentifyOS(goos); DownloadSpec(t, faulty, net, version, os.0, os.1).1.Failure?
    ensures var os := IdentifyOS(goos);
      var d := DownloadSpec(t, faulty, net, version, os.0, os.1);
      InstallRun(t, faulty, net, decode, numWorkers, goos, version) == (d.0, [d.1.error])
  {
  }

  /** Off Windows the archive is only downloaded, never extracted. */
  lemma InstallWithoutZip(t: Tree, faulty: set<Path>, net: Network, decode: Decoder, numWorkers: nat, goos: string, version: string)
    requires goos != "windows"
    ensures var os := IdentifyOS(goos);
      var d := DownloadSpec(t, faulty, net, version, os.0, os.1);
      var r := InstallRun(t, faulty, net, decode, numWorkers, goos, version);
      r.0 == d.0 && (r.1 == [] <==> d.1.Success?)
  {
  }

  /** On Windows, once the download succeeded, every error is an extraction error, wrapped. */
  lemma InstallExtractErrorsWrapped(t: Tree, faulty: set<Path>, net: Network, decode: Decoder, numWorkers: nat, version: string)
    requires DownloadSpec(t, faulty, net, version, "win", "zip").1.Success?
    ensures forall e :: e in InstallRun(t, faulty, net, decode, numWorkers, "windows", version).1 ==>
      e.Wrapped? && e.context == "failed to extract Node.js"
  {
  }

  /**
   * A successful Windows install leaves every file entry of the downloaded
   * archive in versions/<v>, next to the archive, with the entry's bytes.
   */
  lemma InstallWritesFiles(t: Tree, faulty: set<Path>, net: Network, decode: Decoder, numWorkers: nat, version: string, f: Entry)
    requires numWorkers >= 1
    requires InstallRun(t, faulty, net, decode, numWorkers, "windows", version).1 == []
    requires var d := DownloadSpec(t, faulty, net, version, "win", "zip");
      d.1.Success? && OpenReader(d.0, decode, d.1.value).Success? &&
      PrefixFree(["versions", version], FileEntries(OpenReader(d.0, decode, d.1.value).value)) &&
      f in OpenReader(d.0, decode, d.1.value).value && !f.isDir
    ensures var u := InstallRun(t, faulty, net, decode, numWorkers, "windows", version).0;
      var fPath := Target(["versions", version], f);
      Readable(f) && fPath in u && u[fPath].File? && u[fPath].data == f.content.value.data
  {
    var d := DownloadSpec(t, faulty, net, version, "win", "zip");
    DownloadOutcome(t, faulty, net, version, "win", "zip");
    assert Parent(d.1.value) == ["versions", version];
    ExtractWritesFiles(d.0, faulty, decode, numWorkers, d.1.value, ["versions", version], f);
  }

  /** A path on the way to something inside dir is on the way to dir or inside it. */
  lemma PrefixOfJoin(q: Path, dir: Path, rest: Path)
    ensures q <= dir + rest ==> q <= dir || dir <= q
  {
    if q <= dir + rest && |q| > |dir| {
      assert q[..|dir|] == (dir + rest)[..|dir|] == dir;
    }
  }

  /**
   * For archives whose entry names never climb with `..`, Install changes
   * nothing but versions/<v>, what lies below it and the directories above it.
   */
  lemma InstallFrame(t: Tree, faulty: set<Path>, net: Network, decode: Decoder, numWorkers: nat, goos: string, version: string, q: Path)
    requires NamesStayInside(decode)
    requires !(q <= ["versions", version]) && !(["versions", version] <= q)
    ensures var u := InstallRun(t, faulty, net, decode, numWorkers, goos, version).0;
      (q in u <==> q in t) && (q in t ==> u[q] == t[q])
  {
    var os := IdentifyOS(goos);
    var dir := ["versions", version];
    var file := dir + [ArchiveName(version, os.0, os.1)];
    DownloadFrame(t, faulty, net, version, os.0, os.1);
    PrefixOfJoin(q, dir, [ArchiveName(version, os.0, os.1)]);
    var d := DownloadSpec(t, faulty, net, version, os.0, os.1);
    assert q in d.0 <==> q in t;
    if d.1.Success? && os.1 == "zip" {
      DownloadOutcome(t, faulty, net, version, os.0, os.1);
      assert Parent(d.1.value) == dir;
      match OpenReader(d.0, decode, d.1.value)
      case Failure(_) =>
      case Success(entries) =>
        var files := FileEntries(entries);
        forall j | 0 <= j < |files| ensures !(q <= Target(dir, files[j])) {
          assert files[j] in entries;
          if q <= Target(dir, files[j]) {
            PrefixesComparable(q, dir, Target(dir, files[j]));
          }
        }
        ExtractFrame(d.0, faulty, decode, numWorkers, d.1.value, dir, q);
    }
  }

  /** Installer.Install(version); the platform is that of goos, the extractor has numWorkers workers. */
  method Install(fs: Disk, net: Network, decode: Decoder, numWorkers: nat, goos: string, version: string) returns (r: Outcome)
    requires fs.Valid() && numWorkers >= 1
    modifies fs
    ensures fs.Valid()
    ensures fs.nodes == InstallRun(old(fs.nodes), fs.faulty, net, decode, numWorkers, goos, version).0
    ensures r == Ok <==> InstallRun(old(fs.nodes), fs.faulty, net, decode, numWorkers, goos, version).1 == []
    ensures r.Err? ==> r.error in InstallRun(old(fs.nodes), fs.faulty, net, decode, numWorkers, goos, version).1
  {
    var os := IdentifyOS(goos);
    var archivePath := Download(fs, net, version, os.0, os.1);
    if archivePath.Failure? {
      return Err(archivePath.error);
    }
    if os.1 == "zip" {
      ghost var t := fs.nodes;
      var o := Extract(fs, decode, numWorkers, archivePath.value, Parent(archivePath.value));
      ghost var x := ExtractRun(t, fs.faulty, decode, numWorkers, archivePath.value, Parent(archivePath.value));
      if o.Err? {
        ghost var i :| 0 <= i < |x.1| && x.1[i] == o.error;
        assert WrapAll("failed to extract Node.js", x.1)[i] == Wrapped("failed to extract Node.js", o.error);
        return Err(Wrapped("failed to extract Node.js", o.error));
      }
    }
    return Ok;
  }

  /**
   * The install command's Run body with argument arg: an argument that fails
   * validation is reported and nothing else happens; otherwise v<arg> is installed.
   */
  method InstallCommand(fs: Disk, net: Network, decode: Decoder, numWorkers: nat, goos: string, arg: string) returns (lines: seq<string>)
    requires fs.Valid() && numWorkers >= 1
    modifies fs
    ensures fs.Valid()
    ensures ValidateArgSyntax(arg).Err? ==> fs.nodes == old(fs.nodes) && lines == ["Error: " + Text(ValidateArgSyntax(arg).error)]
    ensures ValidateArgSyntax(arg).Ok? ==>
      fs.nodes == InstallRun(old(fs.nodes), fs.faulty, net, decode, numWorkers, goos, "v" + arg).0
    ensures ValidateArgSyntax(arg).Ok? && InstallRun(old(fs.nodes), fs.faulty, net, decode, numWorkers, goos, "v" + arg).1 == [] ==>
      lines == ["Node installed successfully"]
    ensures ValidateArgSyntax(arg).Ok? && InstallRun(old(fs.nodes), fs.faulty, net, decode, numWorkers, goos, "v" + arg).1 != [] ==>
      exists e :: e in InstallRun(old(fs.nodes), fs.faulty, net, decode, numWorkers, goos, "v" + arg).1 &&
        lines == ["Error installing Node.js: " + Text(e)]
  {
    var nodeVersion := "v" + arg;
    var valid := ValidateArgSyntax(arg);
    if valid.Err? {
      return ["Error: " + Text(valid.error)];
    }
    var o := Install(fs, net, decode, numWorkers, goos, nodeVersion);
    if o.Err? {
      return ["Error installing Node.js: " + Text(o.error)];
    }
    return ["Node installed successfully"];
  }
}
