/**
 * internal/uninstall.go: the uninstall command removes the directory of one
 * installed version, after checking the argument's syntax and that the
 * version is there.
 */
module Uninstall {
  import opened Common
  import opened FileSystem
  import opened VersionsDir
  import opened ValidateArg

  /** uninstallNodeVersion(nodeVersion) on the tree t: the new tree and the error. */
  function UninstallRun(t: Tree, faulty: set<Path>, nodeVersion: string): (r: (Tree, Outcome))
    ensures VersionsRoot !in t ==> r == (t, Err(Wrapped("error", VersionsDirMissing)))
    ensures VersionsRoot in t && VersionDir(nodeVersion) !in t ==> r == (t, Err(NodeVersionNotInstalled(nodeVersion)))
    ensures r.1 == Ok ==> VersionDir(nodeVersion) in t
    ensures r.1.Err? ==> r.0 == t
    ensures WellFormed(t) && r.1 == Ok ==> forall q :: q in r.0 <==> q in t && !(VersionDir(nodeVersion) <= q)
    ensures forall q :: q in r.0 ==> q in t && r.0[q] == t[q]
    ensures VersionsRoot in t && VersionDir(nodeVersion) in t && r.1.Err? ==>
      r.1.error.Wrapped? && r.1.error.context == "failed to uninstall Node.js version " + nodeVersion
    ensures WellFormed(t) ==> WellFormed(r.0)
  {
    var versionsDir := GetVersionsDir(t);
    if versionsDir.Failure? then (t, Err(Wrapped("error", versionsDir.error)))
    else
      var targetDir := versionsDir.value + [nodeVersion];
      if targetDir !in t then (t, Err(NodeVersionNotInstalled(nodeVersion)))
      else
        var removed := RemoveAllTree(t, faulty, targetDir);
        if removed.1.Err? then (t, Err(Wrapped("failed to uninstall Node.js version " + nodeVersion, removed.1.error)))
        else removed
  }

  /**
   * A successful uninstall removes the version directory and everything in
   * it, and nothing else: every other version and versions/current are left
   * exactly as they were.
   */
  lemma UninstallKeepsOthers(t: Tree, faulty: set<Path>, nodeVersion: string, other: string)
    requires WellFormed(t) && other != nodeVersion
    requires UninstallRun(t, faulty, nodeVersion).1 == Ok
    ensures var u := UninstallRun(t, faulty, nodeVersion).0;
      VersionDir(nodeVersion) !in u && AgreeBelow(u, t, VersionDir(other))
  {
    var u := UninstallRun(t, faulty, nodeVersion).0;
    var vd := VersionDir(nodeVersion);
    var od := VersionDir(other);
    assert Apart(od, vd) by {
      assert od[1] != vd[1];
    }
    forall q | od <= q ensures (q in u <==> q in t) && (q in u ==> u[q] == t[q]) {
      ApartDisjoint(od, vd, q);
    }
  }

  /**
   * uninstallNodeVersion(nodeVersion): the success line is printed here,
   * before the caller sees the result.
   */
  method UninstallNodeVersion(fs: Disk, nodeVersion: string) returns (r: Outcome, printed: seq<string>)
    requires fs.Valid()
    modifies fs
    ensures fs.Valid()
    ensures (fs.nodes, r) == UninstallRun(old(fs.nodes), fs.faulty, nodeVersion)
    ensures printed == if r == Ok then ["Node.js version " + nodeVersion + " uninstalled successfully"] else []
  {
    printed := [];
    var versionsDir := GetVersionsDir(fs.nodes);
    if versionsDir.Failure? {
      return Err(Wrapped("error", versionsDir.error)), printed;
    }
    var targetDir := versionsDir.value + [nodeVersion];
    if targetDir !in fs.nodes {
      return Err(NodeVersionNotInstalled(nodeVersion)), printed;
    }
    r := fs.RemoveAll(targetDir);
    if r.Err? {
      return Err(Wrapped("failed to uninstall Node.js version " + nodeVersion, r.error)), printed;
    }
    printed := printed + ["Node.js version " + nodeVersion + " uninstalled successfully"];
  }

  /**
   * The uninstall command: an argument that fails validation is reported and
   * the disk is not touched; otherwise "v" + arg is uninstalled and either the
   * success line or the error is printed.
   */
  method UninstallCommand(fs: Disk, arg: string) returns (lines: seq<string>)
    requires fs.Valid()
    modifies fs
    ensures fs.Valid()
    ensures ValidateArgSyntax(arg).Err? ==>
      fs.nodes == old(fs.nodes) && lines == ["Error: " + Text(ValidateArgSyntax(arg).error)]
    ensures var r := UninstallRun(old(fs.nodes), fs.faulty, "v" + arg);
      ValidateArgSyntax(arg).Ok? ==>
        fs.nodes == r.0 &&
        lines == [if r.1.Err? then "Error uninstalling Node.js: " + Text(r.1.error)
                  else "Node.js version v" + arg + " uninstalled successfully"]
  {
    var nodeVersion := "v" + arg;
    var valid := ValidateArgSyntax(arg);
    if valid.Err? {
      return ["Error: " + Text(valid.error)];
    }
    var r, printed := UninstallNodeVersion(fs, nodeVersion);
    lines := printed;
    if r.Err? {
      lines := lines + ["Error uninstalling Node.js: " + Text(r.error)];
    } else {
      assert "Node.js version " + nodeVersion + " uninstalled successfully" ==
        "Node.js version v" + arg + " uninstalled successfully";
    }
  }
}
