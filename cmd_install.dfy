/**
 * cmd/install.go: the older install path. installNodeVersion downloads the
 * release like HTTPDownloader.Download does, DownloadNodeVersionBinary saves
 * it, and unzip extracts it entry by entry in archive order: a directory entry
 * is created (its error ignored), a file entry is created and truncated before
 * the entry is opened, and the first failing entry ends the extraction.
 */
module CmdInstall {
  import opened Common
  import opened FileSystem
  import opened Archive
  import opened IdentifyOs
  import opened ValidateArg
  import Install

  // ---------------------------------------------------------------------------
  // unzip

  /** One iteration of unzip's loop over r.File: the new tree, and the error that ends the loop. */
  function UnzipEntry(t: Tree, faulty: set<Path>, dest: Path, f: Entry): (r: (Tree, Outcome))
    ensures WellFormed(t) ==> WellFormed(r.0)
    ensures f.isDir ==> r.1 == Ok
    ensures f.isDir ==> forall q :: q in t ==> q in r.0 && r.0[q] == t[q]
    ensures f.isDir ==> forall q :: q in r.0 && q !in t ==> q <= Target(dest, f)
    ensures f.isDir && MkdirAllTree(t, faulty, Target(dest, f), ModePerm).1 == Ok ==> IsDir(r.0, Target(dest, f))
    ensures forall q :: IsDir(t, q) ==> q in r.0 && r.0[q] == t[q]
    ensures !f.isDir ==> forall q :: !(q <= Target(dest, f)) ==> (q in r.0 <==> q in t) && (q in t ==> r.0[q] == t[q])
    ensures !f.isDir && r.1 == Ok ==>
      (Readable(f) && Target(dest, f) in r.0 &&
       r.0[Target(dest, f)] == File(f.content.value.data, KeptPerm(t, Target(dest, f), f.mode)))
  {
    var fPath := Target(dest, f);
    if f.isDir then
      (MkdirAllTree(t, faulty, fPath, ModePerm).0, Ok)
    else
      var m := MkdirAllTree(t, faulty, Parent(fPath), ModePerm);
      if m.1.Err? then m
      else
        var o := OpenTruncTree(m.0, faulty, fPath, f.mode);
        assert KeptPerm(m.0, fPath, f.mode) == KeptPerm(t, fPath, f.mode);
        if o.1.Err? then o
        else if f.content.Failure? then (o.0, Err(f.content.error))
        else CopyStreamTree(o.0, fPath, f.content.value)
  }

  /** unzip's loop from the given entry on: the final tree, and the first error. */
  function UnzipSteps(t: Tree, faulty: set<Path>, dest: Path, es: seq<Entry>): (r: (Tree, Outcome))
    ensures WellFormed(t) ==> WellFormed(r.0)
    ensures r.1.Err? ==> exists i :: 0 <= i < |es| && !es[i].isDir
    decreases |es|
  {
    if es == [] then (t, Ok)
    else
      var s := UnzipEntry(t, faulty, dest, es[0]);
      if s.1.Err? then s
      else
        var rest := UnzipSteps(s.0, faulty, dest, es[1..]);
        assert rest.1.Err? ==> exists i :: 0 <= i < |es| && !es[i].isDir by {
          if rest.1.Err? {
            var i :| 0 <= i < |es[1..]| && !es[1..][i].isDir;
            assert es[i + 1] == es[1..][i];
          }
        }
        rest
  }

  /** unzip(src, dest): an archive that does not open gives its error and touches nothing. */
  function UnzipRun(t: Tree, faulty: set<Path>, decode: Decoder, src: Path, dest: Path): (r: (Tree, Outcome))
    ensures WellFormed(t) ==> WellFormed(r.0)
    ensures !IsFile(t, src) ==> r == (t, Err(PathError("open", src)))
  {
    match OpenReader(t, decode, src)
    case Failure(e) => (t, Err(e))
    case Success(entries) => UnzipSteps(t, faulty, dest, entries)
  }

  /**
   * Running the loop over a + b is running it over a and then, unless an entry
   * of a failed, over b: the failing entry ends the extraction, the entries
   * before it stay written and the entries after it are never looked at.
   */
  lemma {:induction false} UnzipStepsConcat(t: Tree, faulty: set<Path>, dest: Path, a: seq<Entry>, b: seq<Entry>)
    ensures var ra := UnzipSteps(t, faulty, dest, a);
      UnzipSteps(t, faulty, dest, a + b) == if ra.1.Err? then ra else UnzipSteps(ra.0, faulty, dest, b)
    decreases |a|
  {
    if a != [] {
      assert (a + b)[0] == a[0] && (a + b)[1..] == a[1..] + b;
      var s := UnzipEntry(t, faulty, dest, a[0]);
      if s.1.Ok? {
        UnzipStepsConcat(s.0, faulty, dest, a[1..], b);
      }
    } else {
      assert a + b == b;
    }
  }

  /** The extraction stops at the first entry that fails and returns that entry's error. */
  lemma StopsAtFirstFailure(t: Tree, faulty: set<Path>, dest: Path, es: seq<Entry>, i: nat)
    requires i < |es|
    requires UnzipSteps(t, faulty, dest, es[..i]).1 == Ok
    requires UnzipEntry(UnzipSteps(t, faulty, dest, es[..i]).0, faulty, dest, es[i]).1.Err?
    ensures UnzipSteps(t, faulty, dest, es) == UnzipEntry(UnzipSteps(t, faulty, dest, es[..i]).0, faulty, dest, es[i])
  {
    var before := UnzipSteps(t, faulty, dest, es[..i]);
    var s := UnzipEntry(before.0, faulty, dest, es[i]);
    assert es == es[..i] + es[i..];
    UnzipStepsConcat(t, faulty, dest, es[..i], es[i..]);
    assert es[i..][0] == es[i];
    UnzipStep(before.0, faulty, dest, es[i..], s.0, s.1);
  }

  /** Every directory entry succeeds whatever happens to it, so an archive of directories always extracts. */
  lemma {:induction false} DirectoriesAlwaysSucceed(t: Tree, faulty: set<Path>, dest: Path, es: seq<Entry>)
    requires forall i :: 0 <= i < |es| ==> es[i].isDir
    ensures UnzipSteps(t, faulty, dest, es).1 == Ok
    decreases |es|
  {
    if es != [] {
      DirectoriesAlwaysSucceed(UnzipEntry(t, faulty, dest, es[0]).0, faulty, dest, es[1..]);
    }
  }

  /** A file entry that does not open still leaves its target created and empty: the file is opened first. */
  lemma UnopenedEntryLeavesEmptyFile(t: Tree, faulty: set<Path>, dest: Path, f: Entry)
    requires !f.isDir && f.content.Failure?
    requires var m := MkdirAllTree(t, faulty, Parent(Target(dest, f)), ModePerm);
      m.1 == Ok && OpenTruncTree(m.0, faulty, Target(dest, f), f.mode).1 == Ok
    ensures var r := UnzipEntry(t, faulty, dest, f);
      r.1 == Err(f.content.error) && IsFile(r.0, Target(dest, f)) && r.0[Target(dest, f)].data == []
  {
  }

  /** No file entry's target lies at or below q. */
  ghost predicate OffFileTargets(q: Path, dest: Path, es: seq<Entry>)
  {
    forall j :: 0 <= j < |es| && !es[j].isDir ==> !(q <= Target(dest, es[j]))
  }

  /** No file entry's target lies at or below another file entry's target. */
  predicate FilesPrefixFree(dest: Path, es: seq<Entry>)
  {
    forall i, j :: 0 <= i < |es| && 0 <= j < |es| && i != j && !es[i].isDir && !es[j].isDir ==>
      !(Target(dest, es[i]) <= Target(dest, es[j]))
  }

  /** An existing node that no file entry writes over keeps its value: directory entries never change an existing node. */
  lemma {:induction false} UnzipKeeps(t: Tree, faulty: set<Path>, dest: Path, es: seq<Entry>, q: Path)
    requires q in t && OffFileTargets(q, dest, es)
    ensures var u := UnzipSteps(t, faulty, dest, es).0;
      q in u && u[q] == t[q]
    decreases |es|
  {
    if es != [] {
      var s := UnzipEntry(t, faulty, dest, es[0]);
      if s.1.Ok? {
        assert OffFileTargets(q, dest, es[1..]) by {
          forall j | 0 <= j < |es[1..]| && !es[1..][j].isDir ensures !(q <= Target(dest, es[1..][j])) {
            assert es[1..][j] == es[j + 1];
          }
        }
        UnzipKeeps(s.0, faulty, dest, es[1..], q);
      }
    }
  }

  /** No entry ever replaces a directory: file entries cannot open one, and directory entries only add. */
  lemma {:induction false} UnzipKeepsDirectories(t: Tree, faulty: set<Path>, dest: Path, es: seq<Entry>, q: Path)
    requires IsDir(t, q)
    ensures var u := UnzipSteps(t, faulty, dest, es).0;
      q in u && u[q] == t[q]
    decreases |es|
  {
    if es != [] {
      var s := UnzipEntry(t, faulty, dest, es[0]);
      if s.1.Ok? {
        UnzipKeepsDirectories(s.0, faulty, dest, es[1..], q);
      }
    }
  }

  /**
   * Each directory entry that unzip reaches creates its directory at
   * dest/f.Name unless os.MkdirAll fails there, and it is still a directory
   * when unzip returns, whatever the later entries do.
   */
  lemma UnzipMakesDirectories(t: Tree, faulty: set<Path>, dest: Path, es: seq<Entry>, i: nat)
    requires i < |es| && es[i].isDir
    requires var before := UnzipSteps(t, faulty, dest, es[..i]);
      before.1 == Ok && MkdirAllTree(before.0, faulty, Target(dest, es[i]), ModePerm).1 == Ok
    ensures IsDir(UnzipSteps(t, faulty, dest, es).0, Target(dest, es[i]))
  {
    var before := UnzipSteps(t, faulty, dest, es[..i]);
    var s := UnzipEntry(before.0, faulty, dest, es[i]);
    assert es == es[..i] + es[i..];
    UnzipStepsConcat(t, faulty, dest, es[..i], es[i..]);
    assert es[i..][0] == es[i] && es[i..][1..] == es[i + 1..];
    UnzipStep(before.0, faulty, dest, es[i..], s.0, s.1);
    UnzipKeepsDirectories(s.0, faulty, dest, es[i + 1..], Target(dest, es[i]));
  }

  /**
   * A successful unzip has written every file entry f to dest/f.Name with the
   * entry's bytes, provided no file entry lies inside another.
   */
  lemma {:induction false} UnzipWritesFiles(t: Tree, faulty: set<Path>, dest: Path, es: seq<Entry>)
    requires FilesPrefixFree(dest, es)
    requires UnzipSteps(t, faulty, dest, es).1 == Ok
    ensures var u := UnzipSteps(t, faulty, dest, es).0;
      forall i :: 0 <= i < |es| && !es[i].isDir ==>
        Readable(es[i]) && Target(dest, es[i]) in u && u[Target(dest, es[i])].File? &&
        u[Target(dest, es[i])].data == es[i].content.value.data
    decreases |es|
  {
    if es != [] {
      var s := UnzipEntry(t, faulty, dest, es[0]);
      var u := UnzipSteps(t, faulty, dest, es).0;
      assert u == UnzipSteps(s.0, faulty, dest, es[1..]).0;
      assert FilesPrefixFree(dest, es[1..]) by {
        forall i, j | 0 <= i < |es[1..]| && 0 <= j < |es[1..]| && i != j && !es[1..][i].isDir && !es[1..][j].isDir
          ensures !(Target(dest, es[1..][i]) <= Target(dest, es[1..][j])) {
          assert es[1..][i] == es[i + 1] && es[1..][j] == es[j + 1];
        }
      }
      UnzipWritesFiles(s.0, faulty, dest, es[1..]);
      if !es[0].isDir {
        assert OffFileTargets(Target(dest, es[0]), dest, es[1..]) by {
          forall j | 0 <= j < |es[1..]| && !es[1..][j].isDir ensures !(Target(dest, es[0]) <= Target(dest, es[1..][j])) {
            assert es[1..][j] == es[j + 1];
          }
        }
        UnzipKeeps(s.0, faulty, dest, es[1..], Target(dest, es[0]));
      }
      forall i | 1 <= i < |es| && !es[i].isDir ensures
        Readable(es[i]) && Target(dest, es[i]) in u && u[Target(dest, es[i])].File? &&
        u[Target(dest, es[i])].data == es[i].content.value.data {
        assert es[1..][i - 1] == es[i];
      }
    }
  }

  /**
   * The zip-slip: a readable file entry named ../evil, unzipped into
   * versions/<v>, is written to versions/evil, outside the version directory.
   */
  lemma UnzipEntryEscapes(t: Tree, faulty: set<Path>, version: string, data: Bytes, m: Mode)
    requires Plain(version) && version != "evil"
    requires IsDir(t, ["versions"]) && ["versions", "evil"] !in t && ["versions", "evil"] !in faulty
    ensures var e := Entry(["..", "evil"], false, m, Success(Whole(data)));
      var r := UnzipEntry(t, faulty, ["versions", version], e);
      r.1 == Ok && ["versions", "evil"] in r.0 && r.0[["versions", "evil"]] == File(data, m) && !(["versions", version] <= ["versions", "evil"])
  {
    ClimbingNameEscapes(version, data, m);
    var e := Entry(["..", "evil"], false, m, Success(Whole(data)));
    var p := ["versions", "evil"];
    assert Parent(p) == ["versions"];
    var o := OpenTruncTree(t, faulty, p, m);
    assert o == (t[p := File([], m)], Ok);
    assert UnzipEntry(t, faulty, ["versions", version], e) == CopyStreamTree(o.0, p, Whole(data));
  }

  /** One iteration of unzip's loop, through the disk. */
  method UnzipOne(fs: Disk, dest: Path, f: Entry) returns (r: Outcome)
    requires fs.Valid()
    modifies fs
    ensures fs.Valid()
    ensures (fs.nodes, r) == UnzipEntry(old(fs.nodes), fs.faulty, dest, f)
  {
    var fPath := Target(dest, f);
    if f.isDir {
      var _ := fs.MkdirAll(fPath, ModePerm);
      return Ok;
    }
    r := fs.MkdirAll(Parent(fPath), ModePerm);
    if r.Err? {
      return;
    }
    r := fs.OpenTrunc(fPath, f.mode);
    if r.Err? {
      return;
    }
    if f.content.Failure? {
      return Err(f.content.error);
    }
    r := fs.CopyStream(fPath, f.content.value);
  }

  /** One step of the loop: the first entry, then the rest unless it failed. */
  lemma UnzipStep(t: Tree, faulty: set<Path>, dest: Path, es: seq<Entry>, t1: Tree, o: Outcome)
    requires es != []
    requires t1 == UnzipEntry(t, faulty, dest, es[0]).0 && o == UnzipEntry(t, faulty, dest, es[0]).1
    ensures UnzipSteps(t, faulty, dest, es) == if o.Err? then (t1, o) else UnzipSteps(t1, faulty, dest, es[1..])
  {
  }

  /** unzip(src, dest) */
  method Unzip(fs: Disk, decode: Decoder, src: Path, dest: Path) returns (r: Outcome)
    requires fs.Valid()
    modifies fs
    ensures fs.Valid()
    ensures (fs.nodes, r) == UnzipRun(old(fs.nodes), fs.faulty, decode, src, dest)
  {
    var reader := OpenReader(fs.nodes, decode, src);
    if reader.Failure? {
      return Err(reader.error);
    }
    var entries := reader.value;
    ghost var goal := UnzipSteps(fs.nodes, fs.faulty, dest, entries);
    assert entries[0..] == entries;
    for i := 0 to |entries|
      invariant fs.Valid()
      invariant goal == UnzipSteps(fs.nodes, fs.faulty, dest, entries[i..])
    {
      ghost var t := fs.nodes;
      var o := UnzipOne(fs, dest, entries[i]);
      UnzipStep(t, fs.faulty, dest, entries[i..], fs.nodes, o);
      if o.Err? {
        return o;
      }
      assert entries[i..][1..] == entries[i + 1..];
    }
    return Ok;
  }

  // ---------------------------------------------------------------------------
  // installNodeVersion and the command

  /**
   * DownloadNodeVersionBinary(dirname, nodeVersion, resp): the body is saved as
   * versions/<dirname>/node-<nodeVersion>-<platform>-x64.<ext>.
   */
  function DownloadBinary(t: Tree, faulty: set<Path>, goos: string, dirname: string, nodeVersion: string, body: Stream): (r: (Tree, Result<Path>))
    ensures WellFormed(t) ==> WellFormed(r.0)
    ensures var os := IdentifyOS(goos);
      r.1.Success? ==> r.1.value == ["versions", dirname, "node-" + nodeVersion + "-" + os.0 + "-x64." + os.1]
    ensures r.1.Success? ==> body.Whole? && IsFile(r.0, r.1.value) && r.0[r.1.value].data == body.data
  {
    var os := IdentifyOS(goos);
    Install.SaveArchive(t, faulty, dirname, Install.ArchiveName(nodeVersion, os.0, os.1), body)
  }

  /** installNodeVersion(v) on the operating system goos: the final tree and the error. */
  function InstallNodeVersionRun(t: Tree, faulty: set<Path>, net: Install.Network, decode: Decoder, goos: string, version: string): (r: (Tree, Outcome))
    ensures WellFormed(t) ==> WellFormed(r.0)
  {
    var os := IdentifyOS(goos);
    var resp := net(Install.DownloadURL(version, os.0, os.1));
    if resp.Failure? then (t, Err(Wrapped("failed to download Node.js", resp.error)))
    else if resp.value.status != Install.StatusOK then (t, Err(BadStatus(resp.value.status)))
    else
      var d := DownloadBinary(t, faulty, goos, version, version, resp.value.body);
      if d.1.Failure? then (d.0, Err(d.1.error))
      else if os.1 != "zip" then (d.0, Ok)
      else
        var u := UnzipRun(d.0, faulty, decode, d.1.value, Parent(d.1.value));
        if u.1.Err? then (u.0, Err(Wrapped("failed to unzip Node.js", u.1.error))) else (u.0, Ok)
  }

  /** The download half of this variant is that of Installer.Install: same URL, same checks, same file. */
  lemma SameDownload(t: Tree, faulty: set<Path>, net: Install.Network, goos: string, version: string, body: Stream)
    ensures var os := IdentifyOS(goos);
      var resp := net(Install.DownloadURL(version, os.0, os.1));
      resp.Success? && resp.value.status == Install.StatusOK ==>
        Install.DownloadSpec(t, faulty, net, version, os.0, os.1) == DownloadBinary(t, faulty, goos, version, version, resp.value.body)
  {
  }

  /** Off Windows both install commands do exactly the same: download and save, nothing else. */
  lemma SameInstallWithoutZip(t: Tree, faulty: set<Path>, net: Install.Network, decode: Decoder, numWorkers: nat, goos: string, version: string)
    requires goos != "windows"
    ensures var a := InstallNodeVersionRun(t, faulty, net, decode, goos, version);
      var b := Install.InstallRun(t, faulty, net, decode, numWorkers, goos, version);
      a.0 == b.0 && (a.1 == Ok <==> b.1 == []) && (a.1.Err? ==> b.1 == [a.1.error])
  {
  }

  /** A status other than 200 ends the install with nothing written. */
  lemma BadStatusWritesNothing(t: Tree, faulty: set<Path>, net: Install.Network, decode: Decoder, goos: string, version: string)
    requires var os := IdentifyOS(goos);
      var resp := net(Install.DownloadURL(version, os.0, os.1));
      resp.Success? && resp.value.status != Install.StatusOK
    ensures var os := IdentifyOS(goos);
      InstallNodeVersionRun(t, faulty, net, decode, goos, version) ==
        (t, Err(BadStatus(net(Install.DownloadURL(version, os.0, os.1)).value.status)))
  {
  }

  /** DownloadNodeVersionBinary(dirname, nodeVersion, resp) */
  method DownloadNodeVersionBinary(fs: Disk, goos: string, dirname: string, nodeVersion: string, resp: Install.Response) returns (r: Result<Path>)
    requires fs.Valid()
    modifies fs
    ensures fs.Valid()
    ensures (fs.nodes, r) == DownloadBinary(old(fs.nodes), fs.faulty, goos, dirname, nodeVersion, resp.body)
  {
    var targetDir := ["versions", dirname];
    var os := IdentifyOS(goos);
    var o := fs.MkdirAll(targetDir, DirPerm);
    if o.Err? {
      return Failure(Wrapped("error creating directory", o.error));
    }
    var targetFile := targetDir + ["node-" + nodeVersion + "-" + os.0 + "-x64." + os.1];
    o := fs.OpenTrunc(targetFile, CreatePerm);
    if o.Err? {
      return Failure(Wrapped("failed to create file", o.error));
    }
    o := fs.CopyStream(targetFile, resp.body);
    if o.Err? {
      return Failure(Wrapped("failed to save Node.js", o.error));
    }
    return Success(targetFile);
  }

  /** installNodeVersion(v): the error, and the lines printed on success. */
  method InstallNodeVersion(fs: Disk, net: Install.Network, decode: Decoder, goos: string, version: string) returns (r: Outcome, lines: seq<string>)
    requires fs.Valid()
    modifies fs
    ensures fs.Valid()
    ensures (fs.nodes, r) == InstallNodeVersionRun(old(fs.nodes), fs.faulty, net, decode, goos, version)
    ensures r.Err? ==> lines == []
    ensures var os := IdentifyOS(goos);
      r.Ok? ==>
        (lines == (if os.1 == "zip" then ["Node.js unzipped successfully"] else []) +
                  ["Downloading Node.js from " + Install.DownloadURL(version, os.0, os.1)])
  {
    var os := IdentifyOS(goos);
    var url := Install.DownloadURL(version, os.0, os.1);
    var resp := net(url);
    if resp.Failure? {
      return Err(Wrapped("failed to download Node.js", resp.error)), [];
    }
    if resp.value.status != Install.StatusOK {
      return Err(BadStatus(resp.value.status)), [];
    }
    var targetFile := DownloadNodeVersionBinary(fs, goos, version, version, resp.value);
    if targetFile.Failure? {
      return Err(targetFile.error), [];
    }
    lines := [];
    if os.1 == "zip" {
      var o := Unzip(fs, decode, targetFile.value, Parent(targetFile.value));
      if o.Err? {
        return Err(Wrapped("failed to unzip Node.js", o.error)), [];
      }
      lines := ["Node.js unzipped successfully"];
    }
    return Ok, lines + ["Downloading Node.js from " + url];
  }

  /**
   * The install command's Run body in this variant: an argument that fails
   * validation is reported and nothing else happens; otherwise v<arg> is installed.
   */
  method InstallCommand(fs: Disk, net: Install.Network, decode: Decoder, goos: string, arg: string) returns (lines: seq<string>)
    requires fs.Valid()
    modifies fs
    ensures fs.Valid()
    ensures ValidateArgSyntax(arg).Err? ==> fs.nodes == old(fs.nodes) && lines == ["Error: " + Text(ValidateArgSyntax(arg).error)]
    ensures ValidateArgSyntax(arg).Ok? ==>
      fs.nodes == InstallNodeVersionRun(old(fs.nodes), fs.faulty, net, decode, goos, "v" + arg).0
    ensures var r := InstallNodeVersionRun(old(fs.nodes), fs.faulty, net, decode, goos, "v" + arg);
      ValidateArgSyntax(arg).Ok? && r.1.Err? ==>
        lines == ["Error installing Node.js: " + Text(r.1.error)]
    ensures var r := InstallNodeVersionRun(old(fs.nodes), fs.faulty, net, decode, goos, "v" + arg);
      var os := IdentifyOS(goos);
      ValidateArgSyntax(arg).Ok? && r.1.Ok? ==>
        (lines == (if os.1 == "zip" then ["Node.js unzipped successfully"] else []) +
                  ["Downloading Node.js from " + Install.DownloadURL("v" + arg, os.0, os.1)])
  {
    var nodeVersion := "v" + arg;
    var valid := ValidateArgSyntax(arg);
    if valid.Err? {
      return ["Error: " + Text(valid.error)];
    }
    var o, printed := InstallNodeVersion(fs, net, decode, goos, nodeVersion);
    if o.Err? {
      return printed + ["Error installing Node.js: " + Text(o.error)];
    }
    return printed;
  }
}
