/**
 * pkg/get_versions_dir.go: the versions directory is `versions` in the working
 * directory, and it must exist.
 */
module VersionsDir {
  import opened Common
  import opened FileSystem

  const VersionsRoot: Path := ["versions"]

  /** pkg.GetVersionsDir: the versions directory when it exists, else the "does not exist" error. */
  function GetVersionsDir(t: Tree): (r: Result<Path>)
    ensures r.Success? <==> VersionsRoot in t
    ensures r.Success? ==> r.value == VersionsRoot
    ensures r.Failure? ==> r.error == VersionsDirMissing
  {
    if VersionsRoot in t then Success(VersionsRoot) else Failure(VersionsDirMissing)
  }

  /** versions/current: the link or copy that names the version in use. */
  const Current: Path := ["versions", "current"]

  /** ["versions", version]: where a version is installed. */
  function VersionDir(version: string): (p: Path)
    ensures VersionsRoot <= p && |p| == 2 && p[1] == version
  {
    VersionsRoot + [version]
  }

  /** Below an installed version other than "current", nothing is versions/current or below it. */
  lemma VersionApart(version: string, src: Path)
    requires version != "current" && VersionDir(version) <= src
    ensures Apart(src, Current)
  {
    assert src[1] == version;
  }

  /** Removing versions/current leaves every other version as it was. */
  lemma CleanupAgrees(t: Tree, faulty: set<Path>, version: string)
    requires WellFormed(t) && version != "current" && RemoveAllTree(t, faulty, Current).1 == Ok
    ensures AgreeBelow(RemoveAllTree(t, faulty, Current).0, t, VersionDir(version))
    ensures WellFormed(RemoveAllTree(t, faulty, Current).0)
    ensures forall q :: q in RemoveAllTree(t, faulty, Current).0 ==> !(Current <= q)
  {
    var vd := VersionDir(version);
    VersionApart(version, vd);
    forall q | vd <= q ensures (q in RemoveAllTree(t, faulty, Current).0 <==> q in t) {
      ApartDisjoint(vd, Current, q);
    }
  }
}
