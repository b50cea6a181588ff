/**
 * cmd/use.go: the older use command. It activates "v" + arg without looking
 * for node.exe and without touching PATH: versions/current becomes a copy of
 * the version directory on Windows. Elsewhere it becomes a symbolic link whose
 * text is the relative path versions/<v>; read from the link's own directory,
 * that names versions/versions/<v>, not the version directory. The result of
 * removing the old versions/current is ignored.
 */
module CmdUse {
  import opened Common
  import opened FileSystem
  import opened VersionsDir

  /**
   * useNodeVersion(nodeVersion) on the tree t, for the operating system goos:
   * the new tree and the error.
   */
  function UseNodeVersionRun(t: Tree, faulty: set<Path>, goos: string, nodeVersion: string): (r: (Tree, Outcome))
    ensures VersionDir(nodeVersion) !in t ==> r == (t, Err(VersionNotInstalled(nodeVersion)))
    ensures VersionDir(nodeVersion) in t && r.1.Err? ==>
      r.1.error.Wrapped? && r.1.error.context == (if goos == "windows" then "failed to copy version" else "failed to switch version")
    ensures WellFormed(t) ==> WellFormed(r.0)
  {
    var versionDir := VersionDir(nodeVersion);
    if versionDir !in t then (t, Err(VersionNotInstalled(nodeVersion)))
    else
      var cleared := RemoveAllTree(t, faulty, Current).0;
      if goos == "windows" then
        var c := CopyDirTree(cleared, faulty, versionDir, Current);
        if c.1.Err? then (c.0, Err(Wrapped("failed to copy version", c.1.error))) else c
      else
        var s := SymlinkTree(cleared, faulty, RelativeLinkTarget(Current, versionDir), Current);
        if s.1.Err? then (s.0, Err(Wrapped("failed to switch version", s.1.error))) else s
  }

  /**
   * Outside Windows, an installed version is linked exactly when the old
   * versions/current could be removed and the link can be made; the link,
   * pointing at versions/versions/<v>, is then the only thing at or below
   * versions/current, and nothing else moves.
   */
  lemma UnixLinks(t: Tree, faulty: set<Path>, goos: string, nodeVersion: string)
    requires WellFormed(t) && goos != "windows" && VersionDir(nodeVersion) in t
    ensures var r := UseNodeVersionRun(t, faulty, goos, nodeVersion);
      (r.1 == Ok <==> RemoveAllTree(t, faulty, Current).1 == Ok && Current !in faulty) &&
      (r.1 == Ok ==> Current in r.0 && r.0[Current] == Link(["versions", "versions", nodeVersion])) &&
      (r.1 == Ok ==> forall q :: q in r.0 && q != Current ==> !(Current <= q) && q in t && r.0[q] == t[q]) &&
      (r.1 == Ok ==> forall q :: q in t && !(Current <= q) ==> q in r.0)
  {
    var vd := VersionDir(nodeVersion);
    AncestorIsDir(t, vd, 1);
    assert vd[..1] == VersionsRoot == Parent(Current);
    var c := RemoveAllTree(t, faulty, Current);
    if c.1 == Ok {
      assert Current !in c.0;
      assert VersionsRoot in c.0;
    } else {
      assert Current in t;
    }
  }

  /**
   * Outside Windows, the ignored cleanup error is not harmless: a failed
   * switch leaves either the tree as it was (the old versions/current still
   * there) or no versions/current at all.
   */
  lemma UnixFailedSwitch(t: Tree, faulty: set<Path>, goos: string, nodeVersion: string)
    requires WellFormed(t) && goos != "windows" && VersionDir(nodeVersion) in t
    requires UseNodeVersionRun(t, faulty, goos, nodeVersion).1.Err?
    ensures var r := UseNodeVersionRun(t, faulty, goos, nodeVersion);
      r.0 == t || ((forall q :: q in r.0 <==> q in t && !(Current <= q)) && forall q :: q in r.0 ==> r.0[q] == t[q])
  {
  }

  /**
   * Outside Windows, the link a successful switch makes does not point at the
   * version directory, and it dangles unless the tree already held
   * versions/versions/<v>.
   */
  lemma UnixLinkMissesVersion(t: Tree, faulty: set<Path>, goos: string, nodeVersion: string)
    requires WellFormed(t) && goos != "windows" && VersionDir(nodeVersion) in t
    requires UseNodeVersionRun(t, faulty, goos, nodeVersion).1 == Ok
    ensures var r := UseNodeVersionRun(t, faulty, goos, nodeVersion);
      Current in r.0 && r.0[Current].Link? &&
      var target := r.0[Current].target;
      target != VersionDir(nodeVersion) && (target in r.0 <==> target in t)
  {
    UnixLinks(t, faulty, goos, nodeVersion);
    var r := UseNodeVersionRun(t, faulty, goos, nodeVersion);
    var target := ["versions", "versions", nodeVersion];
    assert !(Current <= target) by { assert target[1] != Current[1]; }
    assert target in t ==> target in r.0;
  }

  /**
   * On Windows, a successful switch puts every node below the version
   * directory, unchanged, at the same place below versions/current, and
   * changes nothing outside versions/current.
   */
  lemma WindowsCopies(t: Tree, faulty: set<Path>, goos: string, nodeVersion: string)
    requires WellFormed(t) && goos == "windows" && nodeVersion != "current"
    requires UseNodeVersionRun(t, faulty, goos, nodeVersion).1 == Ok
    ensures var r := UseNodeVersionRun(t, faulty, goos, nodeVersion);
      var vd := VersionDir(nodeVersion);
      (forall q :: q in t && vd <= q ==> Relocate(q, vd, Current) in r.0 && r.0[Relocate(q, vd, Current)] == t[q]) &&
      (forall q :: q in t && !(Current <= q) ==> q in r.0 && r.0[q] == t[q])
  {
    var vd := VersionDir(nodeVersion);
    var c := RemoveAllTree(t, faulty, Current);
    if c.1 == Ok {
      CleanupAgrees(t, faulty, nodeVersion);
    }
    assert AgreeBelow(c.0, t, vd);
    var r := CopyDirTree(c.0, faulty, vd, Current);
    forall q | q in t && !(Current <= q) ensures q in r.0 && r.0[q] == t[q] {
      assert !Sourced(c.0, q, vd, Current);
    }
  }

  /**
   * On Windows, when the old versions/current was removed, the new one holds
   * copies of the version directory and nothing else.
   */
  lemma WindowsCopiesOnly(t: Tree, faulty: set<Path>, goos: string, nodeVersion: string)
    requires WellFormed(t) && goos == "windows" && nodeVersion != "current"
    requires RemoveAllTree(t, faulty, Current).1 == Ok
    requires UseNodeVersionRun(t, faulty, goos, nodeVersion).1 == Ok
    ensures var r := UseNodeVersionRun(t, faulty, goos, nodeVersion);
      forall q :: q in r.0 && Current <= q ==> Sourced(t, q, VersionDir(nodeVersion), Current)
  {
    var vd := VersionDir(nodeVersion);
    var c := RemoveAllTree(t, faulty, Current);
    CleanupAgrees(t, faulty, nodeVersion);
    var r := CopyDirTree(c.0, faulty, vd, Current);
    forall q | q in r.0 && Current <= q ensures Sourced(t, q, vd, Current) {
      assert Sourced(c.0, q, vd, Current);
      assert vd <= vd + q[|Current|..];
    }
  }

  /**
   * On Windows, when the old versions/current could not be removed, the copy
   * is laid over it: whatever the version directory does not overwrite stays.
   */
  lemma WindowsKeepsStale(t: Tree, faulty: set<Path>, goos: string, nodeVersion: string)
    requires WellFormed(t) && goos == "windows"
    requires RemoveAllTree(t, faulty, Current).1.Err?
    requires UseNodeVersionRun(t, faulty, goos, nodeVersion).1 == Ok
    ensures var r := UseNodeVersionRun(t, faulty, goos, nodeVersion);
      forall q :: q in t && Current <= q && !Sourced(t, q, VersionDir(nodeVersion), Current) ==>
        q in r.0 && r.0[q] == t[q]
  {
  }

  /** useNodeVersion(nodeVersion) */
  method UseNodeVersion(fs: Disk, goos: string, nodeVersion: string) returns (r: Outcome)
    requires fs.Valid()
    modifies fs
    ensures fs.Valid()
    ensures (fs.nodes, r) == UseNodeVersionRun(old(fs.nodes), fs.faulty, goos, nodeVersion)
  {
    var versionDir := VersionsRoot + [nodeVersion];
    if versionDir !in fs.nodes {
      return Err(VersionNotInstalled(nodeVersion));
    }
    var currentLink := VersionsRoot + ["current"];
    assert versionDir == VersionDir(nodeVersion) && currentLink == Current;
    var _ := fs.RemoveAll(currentLink);
    ghost var cleared := fs.nodes;
    if goos == "windows" {
      r := fs.CopyDir(versionDir, currentLink);
      assert (fs.nodes, r) == CopyDirTree(cleared, fs.faulty, versionDir, currentLink);
      if r.Err? {
        return Err(Wrapped("failed to copy version", r.error));
      }
    } else {
      r := fs.Symlink(RelativeLinkTarget(currentLink, versionDir), currentLink);
      if r.Err? {
        return Err(Wrapped("failed to switch version", r.error));
      }
    }
  }

  /** The use command of cmd/use.go: one line, the error or the version now in use. */
  method UseCommand(fs: Disk, goos: string, arg: string) returns (lines: seq<string>)
    requires fs.Valid()
    modifies fs
    ensures fs.Valid()
    ensures var run := UseNodeVersionRun(old(fs.nodes), fs.faulty, goos, "v" + arg);
      fs.nodes == run.0 &&
      lines == [if run.1.Err? then "Error: " + Text(run.1.error) else "Now using Node.js v" + arg]
  {
    var nodeVersion := "v" + arg;
    var r := UseNodeVersion(fs, goos, nodeVersion);
    if r.Err? {
      lines := ["Error: " + Text(r.error)];
    } else {
      assert "Now using Node.js " + nodeVersion == "Now using Node.js v" + arg;
      lines := ["Now using Node.js " + nodeVersion];
    }
  }
}
