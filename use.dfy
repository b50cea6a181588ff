/**
 * internal/use.go: activating an installed version. `versions/current` is
 * removed; off Windows it becomes a link to the version directory, on Windows
 * the directory holding node.exe is located, its files are copied into
 * `versions/current/bin`, and that directory is put in front of the user's PATH.
 */
module Use {
  import opened Common
  import opened FileSystem
  import opened VersionsDir
  import opened UserPath
  import opened Strings

  const NodeExe := "node.exe"
  const Bin: Path := ["versions", "current", "bin"]

  // ---------------------------------------------------------------------------
  // WindowsFinder.Find

  /** The listing entry e of dir is where node.exe is: a directory holding it, or node.exe itself. */
  predicate HoldsNodeExe(t: Tree, dir: Path, e: DirEntry)
  {
    if e.isDir then dir + [e.name, NodeExe] in t else e.name == NodeExe
  }

  /** The index of the first entry that holds node.exe; |es| when there is none. */
  function FirstHit(t: Tree, dir: Path, es: seq<DirEntry>): (i: nat)
    ensures i <= |es|
    ensures i < |es| ==> HoldsNodeExe(t, dir, es[i])
    ensures forall j :: 0 <= j < i ==> !HoldsNodeExe(t, dir, es[j])
    decreases |es|
  {
    if es == [] then 0
    else if HoldsNodeExe(t, dir, es[0]) then 0
    else
      var i := FirstHit(t, dir, es[1..]);
      assert forall j :: 1 <= j < i + 1 ==> es[j] == es[1..][j - 1];
      1 + i
  }

  /** The loop of WindowsFinder.Find over a listing es of dir. */
  function Pick(t: Tree, dir: Path, version: string, es: seq<DirEntry>): (r: Result<Path>)
    requires forall i :: 0 <= i < |es| ==> dir + [es[i].name] in t && es[i].isDir == t[dir + [es[i].name]].Dir?
    ensures r.Success? ==> r.value + [NodeExe] in t
    ensures r.Success? ==> r.value == dir || (|r.value| == |dir| + 1 && dir <= r.value && IsDir(t, r.value))
    ensures r.Failure? <==> forall i :: 0 <= i < |es| ==> !HoldsNodeExe(t, dir, es[i])
    ensures r.Failure? ==> r.error == NodeExeNotFound(version)
  {
    var i := FirstHit(t, dir, es);
    if i == |es| then Failure(NodeExeNotFound(version))
    else if es[i].isDir then
      assert dir <= dir + [es[i].name] && dir + [es[i].name] + [NodeExe] == dir + [es[i].name, NodeExe];
      Success(dir + [es[i].name])
    else
      assert dir + [NodeExe] == dir + [es[i].name];
      Success(dir)
  }

  /**
   * WindowsFinder.Find(dir, version): dir itself when node.exe is among its
   * entries, or the first subdirectory holding node.exe, whichever comes first
   * in the listing.
   */
  function Find(t: Tree, dir: Path, version: string): (r: Result<Path>)
    ensures dir !in t ==> r == Failure(Wrapped("read version directory", PathError("open", dir)))
    ensures dir in t && !IsDir(t, dir) ==> r == Failure(Wrapped("read version directory", PathError("readdir", dir)))
    ensures r.Success? ==> r.value + [NodeExe] in t
    ensures r.Success? ==> r.value == dir || (|r.value| == |dir| + 1 && dir <= r.value && IsDir(t, r.value))
    ensures IsDir(t, dir) && r.Failure? ==> r.error == NodeExeNotFound(version)
  {
    var listing := ReadDir(t, dir, "windows");
    if listing.Failure? then Failure(Wrapped("read version directory", listing.error))
    else Pick(t, dir, version, listing.value)
  }

  /** Find fails on a directory exactly when no entry of it is node.exe or a directory holding node.exe. */
  lemma FindFailsIffNoCandidate(t: Tree, dir: Path, version: string)
    requires IsDir(t, dir)
    ensures Find(t, dir, version).Failure? <==>
      forall n :: dir + [n] in t ==> !HoldsNodeExe(t, dir, DirEntry(n, t[dir + [n]].Dir?))
  {
    var es := ReadDir(t, dir, "windows").value;
    var r := Pick(t, dir, version, es);
    assert Find(t, dir, version) == r;
    if r.Failure? {
      forall n | dir + [n] in t ensures !HoldsNodeExe(t, dir, DirEntry(n, t[dir + [n]].Dir?)) {
        var j := ListedAt(t, dir, "windows", n);
        assert !HoldsNodeExe(t, dir, es[j]);
      }
    } else {
      var i := FirstHit(t, dir, es);
      assert HoldsNodeExe(t, dir, es[i]);
      assert es[i] == DirEntry(es[i].name, t[dir + [es[i].name]].Dir?);
    }
  }

  /** Find only looks at dir: trees that agree on dir and below it give the same answer. */
  lemma FindLocal(t: Tree, u: Tree, dir: Path, version: string)
    requires AgreeBelow(t, u, dir)
    ensures Find(t, dir, version) == Find(u, dir, version)
  {
    assert ChildNames(t, dir) == ChildNames(u, dir);
    if IsDir(t, dir) {
      var names := SortedNames(ChildNames(t, dir));
      EntriesLocal(t, u, dir, names);
      var es := ReadDir(t, dir, "windows").value;
      forall j | 0 <= j < |es| ensures HoldsNodeExe(t, dir, es[j]) == HoldsNodeExe(u, dir, es[j]) {
        assert dir <= dir + [es[j].name, NodeExe];
      }
      FirstHitLocal(t, u, dir, es);
    }
  }

  lemma {:induction false} EntriesLocal(t: Tree, u: Tree, dir: Path, names: seq<string>)
    requires forall q :: dir <= q ==> (q in t <==> q in u) && (q in t ==> t[q] == u[q])
    requires forall n :: n in names ==> dir + [n] in t
    ensures forall n :: n in names ==> dir + [n] in u
    ensures EntriesOf(t, dir, names) == EntriesOf(u, dir, names)
    decreases |names|
  {
    forall n | n in names ensures dir + [n] in u {
      assert dir <= dir + [n];
    }
    if names != [] {
      assert dir <= dir + [names[0]];
      EntriesLocal(t, u, dir, names[1..]);
    }
  }

  lemma {:induction false} FirstHitLocal(t: Tree, u: Tree, dir: Path, es: seq<DirEntry>)
    requires forall j :: 0 <= j < |es| ==> HoldsNodeExe(t, dir, es[j]) == HoldsNodeExe(u, dir, es[j])
    ensures FirstHit(t, dir, es) == FirstHit(u, dir, es)
    decreases |es|
  {
    if es != [] {
      assert forall j :: 0 <= j < |es[1..]| ==> es[1..][j] == es[j + 1];
      FirstHitLocal(t, u, dir, es[1..]);
    }
  }

  // ---------------------------------------------------------------------------
  // collectFiles and copyFiles

  /** collectFiles(root): the walk's non-directories; a missing root fails the walk at once. */
  function CollectFiles(t: Tree, root: Path): (r: Result<seq<Path>>)
    ensures r.Success? <==> root in t
    ensures r.Failure? ==> r.error == PathError("lstat", root)
    ensures r.Success? ==> Distinct(r.value)
    ensures WellFormed(t) && r.Success? ==> forall x :: x in r.value <==> x in t && root <= x && !t[x].Dir?
  {
    if root !in t then Failure(PathError("lstat", root))
    else
      assert WellFormed(t) ==> forall x :: x in Walk(t, root) <==> x in t && root <= x && !t[x].Dir? by {
        if WellFormed(t) {
          WalkMembers(t, root);
        }
      }
      WalkDistinct(t, root);
      Success(Walk(t, root))
  }

  /** filepath.Rel(src, p) for the paths a walk of src yields: what follows src. */
  function Rel(src: Path, p: Path): (r: Result<Path>)
    ensures r.Success? <==> src <= p
    ensures r.Success? ==> src + r.value == p
  {
    if src <= p then
      assert src + p[|src|..] == p;
      Success(p[|src|..])
    else Failure(PathError("Rel", p))
  }

  /** One iteration of copyFiles: the relative path, its directory under dst, and the copy. */
  function CopyStep(t: Tree, faulty: set<Path>, src: Path, dst: Path, f: Path): (r: (Tree, Outcome))
    ensures WellFormed(t) ==> WellFormed(r.0)
    ensures !(src <= f) ==> r == (t, Err(Wrapped("get relative path", PathError("Rel", f))))
    ensures src <= f ==> forall q :: q in t && q != Relocate(f, src, dst) ==> q in r.0 && r.0[q] == t[q]
    ensures src <= f ==> forall q :: q in r.0 && q !in t ==> q <= Relocate(f, src, dst)
    ensures src <= f ==> forall q :: q in r.0 && q !in t && q != Relocate(f, src, dst) ==> r.0[q].Dir?
    ensures r.1.Err? ==> r.1.error.Wrapped?
    ensures r.1 == Ok ==>
      (src <= f && IsFile(t, f) && Relocate(f, src, dst) in r.0 &&
       r.0[Relocate(f, src, dst)] == File(t[f].data, KeptPerm(t, Relocate(f, src, dst), CreatePerm)))
  {
    var rel := Rel(src, f);
    if rel.Failure? then (t, Err(Wrapped("get relative path", rel.error)))
    else
      var dstPath := dst + rel.value;
      var m := MkdirAllTree(t, faulty, Parent(dstPath), DirPerm);
      if m.1.Err? then (m.0, Err(Wrapped("create dir", m.1.error)))
      else
        var c := CopyFileTree(m.0, faulty, f, dstPath);
        assert c.1 == Ok ==> f in t;
        assert KeptPerm(m.0, dstPath, CreatePerm) == KeptPerm(t, dstPath, CreatePerm) by {
          if dstPath !in t && dstPath in m.0 {
            assert m.0[dstPath].Dir?;
          }
        }
        if c.1.Err? then (c.0, Err(Wrapped("copy " + PathText(rel.value), c.1.error)))
        else (c.0, Ok)
  }

  /** copyFiles(files, src, dst) from the given file on: the final tree and the first error. */
  function CopySteps(t: Tree, faulty: set<Path>, src: Path, dst: Path, files: seq<Path>): (r: (Tree, Outcome))
    ensures WellFormed(t) ==> WellFormed(r.0)
    ensures r.1.Err? ==> r.1.error.Wrapped?
    decreases |files|
  {
    if files == [] then (t, Ok)
    else
      var s := CopyStep(t, faulty, src, dst, files[0]);
      if s.1.Err? then s else CopySteps(s.0, faulty, src, dst, files[1..])
  }

  /**
   * A path that is no file's target keeps its node through the copies, and if
   * it was absent and appears, it appears as a directory.
   */
  lemma {:induction false} CopyStepsUntargeted(t: Tree, faulty: set<Path>, src: Path, dst: Path, files: seq<Path>, q: Path)
    requires forall g :: g in files ==> src <= g && q != Relocate(g, src, dst)
    ensures var u := CopySteps(t, faulty, src, dst, files).0;
      (q in t ==> q in u && u[q] == t[q]) && (q in u && q !in t ==> u[q].Dir?)
    decreases |files|
  {
    if files != [] {
      var s := CopyStep(t, faulty, src, dst, files[0]);
      if s.1.Ok? {
        assert forall g :: g in files[1..] ==> g in files;
        CopyStepsUntargeted(s.0, faulty, src, dst, files[1..], q);
      }
    }
  }

  /** A node the copies add lies on the way to some file's target. */
  lemma {:induction false} CopyStepsAdds(t: Tree, faulty: set<Path>, src: Path, dst: Path, files: seq<Path>, q: Path)
    requires forall g :: g in files ==> src <= g
    requires q in CopySteps(t, faulty, src, dst, files).0 && q !in t
    ensures exists g :: g in files && q <= Relocate(g, src, dst)
    decreases |files|
  {
    var s := CopyStep(t, faulty, src, dst, files[0]);
    if s.1.Ok? && q !in s.0 {
      assert forall g :: g in files[1..] ==> g in files;
      CopyStepsAdds(s.0, faulty, src, dst, files[1..], q);
    }
  }

  /** A non-directory after the copies is the node it was before, or some file's target. */
  lemma {:induction false} CopyStepsSources(t: Tree, faulty: set<Path>, src: Path, dst: Path, files: seq<Path>, q: Path)
    requires forall g :: g in files ==> src <= g
    ensures var u := CopySteps(t, faulty, src, dst, files).0;
      q in u && !u[q].Dir? ==>
        (q in t && u[q] == t[q]) || exists g :: g in files && q == Relocate(g, src, dst)
    decreases |files|
  {
    if files != [] {
      var s := CopyStep(t, faulty, src, dst, files[0]);
      if s.1.Ok? {
        assert forall g :: g in files[1..] ==> g in files;
        CopyStepsSources(s.0, faulty, src, dst, files[1..], q);
      }
    }
  }

  /** Below an installed version other than "current", nothing is versions/current/bin or below it. */
  lemma BinApart(version: string, src: Path)
    requires version != "current" && VersionDir(version) <= src
    ensures Apart(src, Bin)
  {
    assert src[1] == version;
  }

  /** Different files below src have different targets. */
  lemma TargetsDistinct(src: Path, dst: Path, f: Path, g: Path)
    requires src <= f && src <= g && f != g
    ensures Relocate(f, src, dst) != Relocate(g, src, dst)
  {
    assert src + f[|src|..] == f && src + g[|src|..] == g;
    assert Relocate(f, src, dst)[|dst|..] == f[|src|..] && Relocate(g, src, dst)[|dst|..] == g[|src|..];
  }

  /** Every file of files was a file of t and its target in u holds its bytes. */
  ghost predicate WritesAll(t: Tree, u: Tree, src: Path, dst: Path, files: seq<Path>)
  {
    forall g :: g in files ==>
      src <= g && IsFile(t, g) && Relocate(g, src, dst) in u && u[Relocate(g, src, dst)].File? && u[Relocate(g, src, dst)].data == t[g].data
  }

  /** The facts written by one copy and by the copies after it, combined. */
  lemma WritesAllCons(t: Tree, s: Tree, u: Tree, src: Path, dst: Path, f: Path, rest: seq<Path>, files: seq<Path>)
    requires files == [f] + rest
    requires Apart(src, dst) && src <= f && forall g :: g in rest ==> src <= g
    requires IsFile(t, f) && Relocate(f, src, dst) in u && u[Relocate(f, src, dst)].File?
    requires u[Relocate(f, src, dst)].data == t[f].data
    requires forall q :: q in t && q != Relocate(f, src, dst) ==> q in s && s[q] == t[q]
    requires forall q :: q in s && q !in t && q != Relocate(f, src, dst) ==> s[q].Dir?
    requires WritesAll(s, u, src, dst, rest)
    ensures WritesAll(t, u, src, dst, files)
  {
    forall g | g in rest ensures IsFile(t, g) && s[g] == t[g] {
      ApartDisjoint(src, dst, g);
      assert dst <= Relocate(f, src, dst);
    }
  }

  /** One successful copy followed by copies that write all the rest writes all the files. */
  lemma WritesAllStep(t: Tree, faulty: set<Path>, src: Path, dst: Path, f: Path, rest: seq<Path>, files: seq<Path>)
    requires files == [f] + rest && f !in rest
    requires Apart(src, dst) && src <= f && forall g :: g in rest ==> src <= g
    requires CopyStep(t, faulty, src, dst, f).1 == Ok
    requires var s := CopyStep(t, faulty, src, dst, f).0;
      WritesAll(s, CopySteps(s, faulty, src, dst, rest).0, src, dst, rest)
    ensures var s := CopyStep(t, faulty, src, dst, f).0;
      WritesAll(t, CopySteps(s, faulty, src, dst, rest).0, src, dst, files)
  {
    var s := CopyStep(t, faulty, src, dst, f).0;
    var u := CopySteps(s, faulty, src, dst, rest).0;
    forall g | g in rest ensures Relocate(f, src, dst) != Relocate(g, src, dst) {
      TargetsDistinct(src, dst, f, g);
    }
    CopyStepsUntargeted(s, faulty, src, dst, rest, Relocate(f, src, dst));
    WritesAllCons(t, s, u, src, dst, f, rest, files);
  }

  /**
   * After copies that all succeed, every walked file f was a file and is now
   * at its target below dst with f's bytes, when src and dst are apart and no
   * file is listed twice.
   */
  lemma {:induction false} CopyStepsWritesAll(t: Tree, faulty: set<Path>, src: Path, dst: Path, files: seq<Path>)
    requires Apart(src, dst) && Distinct(files)
    requires forall g :: g in files ==> src <= g
    requires CopySteps(t, faulty, src, dst, files).1 == Ok
    ensures WritesAll(t, CopySteps(t, faulty, src, dst, files).0, src, dst, files)
    decreases |files|
  {
    if files != [] {
      var f := files[0];
      var rest := files[1..];
      var s := CopyStep(t, faulty, src, dst, f);
      DistinctTail(files);
      CopyStepUnfold(t, faulty, src, dst, files, s.0, s.1);
      assert s.1 == Ok;
      var u := CopySteps(s.0, faulty, src, dst, rest).0;
      assert CopySteps(t, faulty, src, dst, files).0 == u;
      assert files == [f] + rest;
      CopyStepsWritesAll(s.0, faulty, src, dst, rest);
      WritesAllStep(t, faulty, src, dst, f, rest, files);
    }
  }

  /** One iteration of copyFiles, through the disk. */
  method CopyOne(fs: Disk, src: Path, dst: Path, f: Path) returns (r: Outcome)
    requires fs.Valid()
    modifies fs
    ensures fs.Valid()
    ensures (fs.nodes, r) == CopyStep(old(fs.nodes), fs.faulty, src, dst, f)
  {
    var relPath := Rel(src, f);
    if relPath.Failure? {
      return Err(Wrapped("get relative path", relPath.error));
    }
    var dstPath := dst + relPath.value;
    r := fs.MkdirAll(Parent(dstPath), DirPerm);
    if r.Err? {
      return Err(Wrapped("create dir", r.error));
    }
    r := fs.CopyFile(f, dstPath);
    if r.Err? {
      return Err(Wrapped("copy " + PathText(relPath.value), r.error));
    }
  }

  lemma CopyStepUnfold(t: Tree, faulty: set<Path>, src: Path, dst: Path, files: seq<Path>, t1: Tree, o: Outcome)
    requires files != []
    requires t1 == CopyStep(t, faulty, src, dst, files[0]).0 && o == CopyStep(t, faulty, src, dst, files[0]).1
    ensures CopySteps(t, faulty, src, dst, files) == if o.Err? then (t1, o) else CopySteps(t1, faulty, src, dst, files[1..])
  {
  }

  /** copyFiles(files, src, dst) */
  method CopyFiles(fs: Disk, files: seq<Path>, src: Path, dst: Path) returns (r: Outcome)
    requires fs.Valid()
    modifies fs
    ensures fs.Valid()
    ensures (fs.nodes, r) == CopySteps(old(fs.nodes), fs.faulty, src, dst, files)
  {
    ghost var goal := CopySteps(fs.nodes, fs.faulty, src, dst, files);
    assert files[0..] == files;
    for i := 0 to |files|
      invariant fs.Valid()
      invariant goal == CopySteps(fs.nodes, fs.faulty, src, dst, files[i..])
    {
      ghost var t := fs.nodes;
      var o := CopyOne(fs, src, dst, files[i]);
      CopyStepUnfold(t, fs.faulty, src, dst, files[i..], fs.nodes, o);
      if o.Err? {
        return o;
      }
      assert files[i..][1..] == files[i + 1..];
    }
    return Ok;
  }

  // ---------------------------------------------------------------------------
  // The search loop of WindowsFinder.Find

  /** Find stops at the first entry holding node.exe. */
  lemma PickAt(t: Tree, dir: Path, version: string, es: seq<DirEntry>, i: nat)
    requires forall j :: 0 <= j < |es| ==> dir + [es[j].name] in t && es[j].isDir == t[dir + [es[j].name]].Dir?
    requires i < |es| && HoldsNodeExe(t, dir, es[i])
    requires forall j :: 0 <= j < i ==> !HoldsNodeExe(t, dir, es[j])
    ensures Pick(t, dir, version, es) == if es[i].isDir then Success(dir + [es[i].name]) else Success(dir)
  {
    assert FirstHit(t, dir, es) == i;
  }

  /** The loop of WindowsFinder.Find over the listing entries of dir. */
  method ScanEntries(t: Tree, dir: Path, version: string, entries: seq<DirEntry>) returns (r: Result<Path>)
    requires forall j :: 0 <= j < |entries| ==>
      dir + [entries[j].name] in t && entries[j].isDir == t[dir + [entries[j].name]].Dir?
    ensures r == Pick(t, dir, version, entries)
  {
    for i := 0 to |entries|
      invariant forall j :: 0 <= j < i ==> !HoldsNodeExe(t, dir, entries[j])
    {
      var e := entries[i];
      if e.isDir {
        var candidate := dir + [e.name];
        if candidate + [NodeExe] in t {
          assert candidate + [NodeExe] == dir + [e.name, NodeExe];
          PickAt(t, dir, version, entries, i);
          return Success(candidate);
        }
        assert candidate + [NodeExe] == dir + [e.name, NodeExe];
      } else if e.name == NodeExe {
        PickAt(t, dir, version, entries, i);
        return Success(dir);
      }
    }
    return Failure(NodeExeNotFound(version));
  }

  /** WindowsFinder.Find(dir, version) */
  method FindSource(fs: Disk, dir: Path, version: string) returns (r: Result<Path>)
    ensures r == Find(fs.nodes, dir, version)
  {
    var listing := ReadDir(fs.nodes, dir, "windows");
    if listing.Failure? {
      return Failure(Wrapped("read version directory", listing.error));
    }
    r := ScanEntries(fs.nodes, dir, version, listing.value);
  }

  // ---------------------------------------------------------------------------
  // switchWindows and switchUnix

  /**
   * switchWindows: find the directory holding node.exe, then mirror it into
   * versions/current/bin and put binDir (the absolute form of
   * versions/current/bin) in front of PATH. The results are the tree, the
   * registry's Path value and the error.
   */
  function SwitchWindowsRun(t: Tree, faulty: set<Path>, path: Option<string>, faults: RegistryFaults,
                            binDir: string, versionDir: Path, version: string): (r: (Tree, Option<string>, Outcome))
    ensures r.1 != path ==> r.2 == Ok
    ensures WellFormed(t) ==> WellFormed(r.0)
    ensures versionDir !in t ==> r == (t, path, Err(Wrapped("read version directory", PathError("open", versionDir))))
    ensures versionDir in t && !IsDir(t, versionDir) ==>
      r == (t, path, Err(Wrapped("read version directory", PathError("readdir", versionDir))))
  {
    var found := Find(t, versionDir, version);
    if found.Failure? then (t, path, Err(found.error))
    else
      var mirrored := MirrorBin(t, faulty, found.value);
      if mirrored.1.Err? then (mirrored.0, path, mirrored.1)
      else SwitchPublish(mirrored.0, path, faults, binDir)
  }

  /** The last step of switchWindows: binDir goes in front of PATH. */
  function SwitchPublish(t: Tree, path: Option<string>, faults: RegistryFaults, binDir: string): (r: (Tree, Option<string>, Outcome))
    ensures r.0 == t
    ensures r.2 == Ok <==> AddToUserPathRun(path, faults, binDir).1 == Ok
    ensures r.1 == AddToUserPathRun(path, faults, binDir).0
  {
    var reg := AddToUserPathRun(path, faults, binDir);
    if reg.1.Err? then (t, reg.0, Err(Wrapped("update PATH", reg.1.error)))
    else (t, reg.0, Ok)
  }

  /**
   * switchWindows once the source directory is known: collect its files,
   * empty versions/current/bin, and copy the files there.
   */
  function MirrorBin(t: Tree, faulty: set<Path>, sourceDir: Path): (r: (Tree, Outcome))
    ensures WellFormed(t) ==> WellFormed(r.0)
    ensures r.1.Err? ==> r.1.error.Wrapped?
  {
    var files := CollectFiles(t, sourceDir);
    if files.Failure? then (t, Err(Wrapped("collect files", files.error)))
    else
      var cleared := RemoveAllTree(t, faulty, Bin);
      if cleared.1.Err? then (cleared.0, Err(Wrapped("remove dest dir", cleared.1.error)))
      else
        var made := MkdirAllTree(cleared.0, faulty, Bin, DirPerm);
        if made.1.Err? then (made.0, Err(Wrapped("create dest dir", made.1.error)))
        else CopySteps(made.0, faulty, sourceDir, Bin, files.value)
  }

  /** The text of the error switchUnix reports when creating the link fails. */
  function SymlinkContext(currentLink: Path, versionDir: Path): string
  {
    "symlink " + PathText(currentLink) + " -> " + PathText(versionDir)
  }

  /** switchUnix: make currentLink a link to versionDir. */
  function SwitchUnixRun(t: Tree, faulty: set<Path>, versionDir: Path, currentLink: Path): (r: (Tree, Outcome))
    ensures r.1 == Ok <==> currentLink !in t && IsDir(t, Parent(currentLink)) && currentLink !in faulty
    ensures r.1 == Ok ==> r.0 == t[currentLink := Link(versionDir)]
    ensures r.1.Err? ==> r.0 == t && r.1.error.Wrapped? && r.1.error.context == SymlinkContext(currentLink, versionDir)
    ensures WellFormed(t) ==> WellFormed(r.0)
  {
    var s := SymlinkTree(t, faulty, versionDir, currentLink);
    if s.1.Err? then (s.0, Err(Wrapped(SymlinkContext(currentLink, versionDir), s.1.error)))
    else s
  }

  // ---------------------------------------------------------------------------
  // Usage.UseNodeVersion

  /**
   * Usage.UseNodeVersion(version) on the tree and the registry's Path value,
   * for the operating system goos.
   */
  function UseRun(t: Tree, faulty: set<Path>, path: Option<string>, faults: RegistryFaults,
                  binDir: string, goos: string, version: string): (r: (Tree, Option<string>, Outcome))
    ensures r.1 != path ==> r.2 == Ok && goos == "windows"
    ensures WellFormed(t) ==> WellFormed(r.0)
  {
    var nvxDir := GetVersionsDir(t);
    if nvxDir.Failure? then (t, path, Err(Wrapped("get versions dir", nvxDir.error)))
    else
      var versionDir := nvxDir.value + [version];
      if versionDir !in t then (t, path, Err(VersionNotInstalled(version)))
      else
        var currentLink := nvxDir.value + ["current"];
        var cleanup := RemoveAllTree(t, faulty, currentLink);
        if cleanup.1.Err? then (cleanup.0, path, Err(Wrapped("cleanup current link", cleanup.1.error)))
        else if goos == "windows" then SwitchWindowsRun(cleanup.0, faulty, path, faults, binDir, versionDir, version)
        else
          var s := SwitchUnixRun(cleanup.0, faulty, versionDir, currentLink);
          (s.0, path, s.1)
  }

  // ---------------------------------------------------------------------------
  // Properties of use

  /** A version that is not installed changes nothing. */
  lemma UseNotInstalled(t: Tree, faulty: set<Path>, path: Option<string>, faults: RegistryFaults,
                        binDir: string, goos: string, version: string)
    requires VersionDir(version) !in t
    ensures var r := UseRun(t, faulty, path, faults, binDir, goos, version);
      r.0 == t && r.1 == path && r.2.Err? &&
      (VersionsRoot in t ==> r.2.error == VersionNotInstalled(version))
  {
  }

  /**
   * Off Windows, a successful use leaves versions/current a link to the
   * version directory and removes whatever was below it before; nothing else
   * changes, the PATH included.
   */
  lemma UseUnixLinks(t: Tree, faulty: set<Path>, path: Option<string>, faults: RegistryFaults,
                     binDir: string, goos: string, version: string)
    requires WellFormed(t) && goos != "windows"
    requires UseRun(t, faulty, path, faults, binDir, goos, version).2 == Ok
    ensures var r := UseRun(t, faulty, path, faults, binDir, goos, version);
      VersionDir(version) in t && r.1 == path &&
      Current in r.0 && r.0[Current] == Link(VersionDir(version)) &&
      forall q :: q != Current ==> (q in r.0 <==> q in t && !(Current <= q)) && (q in r.0 ==> r.0[q] == t[q])
  {
    assert VersionsRoot + ["current"] == Current && VersionsRoot + [version] == VersionDir(version);
  }

  /**
   * Off Windows the old versions/current is gone once the link cannot be made:
   * removal and linking are two steps, and a failed link leaves no current version.
   */
  lemma UseUnixFailedLinkLeavesNoCurrent(t: Tree, faulty: set<Path>, path: Option<string>, faults: RegistryFaults,
                                         binDir: string, goos: string, version: string)
    requires WellFormed(t) && goos != "windows"
    requires var r := UseRun(t, faulty, path, faults, binDir, goos, version);
      r.2.Err? && r.2.error.Wrapped? && r.2.error.context == SymlinkContext(Current, VersionDir(version))
    ensures var r := UseRun(t, faulty, path, faults, binDir, goos, version);
      forall q :: Current <= q ==> q !in r.0
  {
  }

  /** Every non-directory below src is a file whose bytes sit at the same place below Bin in u. */
  ghost predicate CopiedFrom(t: Tree, src: Path, u: Tree)
  {
    forall q :: q in t && src <= q && !t[q].Dir? ==>
      t[q].File? && Relocate(q, src, Bin) in u &&
      u[Relocate(q, src, Bin)].File? && u[Relocate(q, src, Bin)].data == t[q].data
  }

  /** Every non-directory below Bin in u comes from a non-directory below src. */
  ghost predicate OnlyCopies(t: Tree, src: Path, u: Tree)
  {
    forall q :: q in u && Bin <= q && !u[q].Dir? ==>
      exists p :: p in t && src <= p && !t[p].Dir? && q == Relocate(p, src, Bin)
  }

  /**
   * The mirror switchWindows builds from the source directory src, stated on
   * the tree it starts from (in which versions/current no longer exists): every
   * non-directory below src is a file copied to the same place below
   * versions/current/bin, and every non-directory there was copied from one.
   */
  lemma MirrorBinCopies(t: Tree, faulty: set<Path>, src: Path)
    requires WellFormed(t) && Apart(src, Bin)
    requires forall q :: q in t ==> !(Current <= q)
    requires MirrorBin(t, faulty, src).1 == Ok
    ensures CopiedFrom(t, src, MirrorBin(t, faulty, src).0)
    ensures OnlyCopies(t, src, MirrorBin(t, faulty, src).0)
  {
    MirrorBinOk(t, faulty, src);
    var files := Walk(t, src);
    var m := MkdirAllTree(t, faulty, Bin, DirPerm).0;
    forall q | q in m && Bin <= q ensures m[q].Dir? {
      BelowBin(q);
    }
    MirrorForward(t, m, faulty, src, files);
    MirrorBackward(t, m, faulty, src, files);
  }

  /** What a successful MirrorBin went through: the walk of src copied into a freshly made Bin. */
  lemma MirrorBinOk(t: Tree, faulty: set<Path>, src: Path)
    requires forall q :: q in t ==> !(Current <= q)
    requires MirrorBin(t, faulty, src).1 == Ok
    ensures src in t && MkdirAllTree(t, faulty, Bin, DirPerm).1 == Ok
    ensures var copied := CopySteps(MkdirAllTree(t, faulty, Bin, DirPerm).0, faulty, src, Bin, Walk(t, src));
      copied.1 == Ok && MirrorBin(t, faulty, src).0 == copied.0
  {
    assert Current <= Bin && Bin !in t;
    assert RemoveAllTree(t, faulty, Bin) == (t, Ok);
  }

  lemma BelowBin(q: Path)
    requires Bin <= q
    ensures Current <= q
  {
    assert Current == Bin[..2];
  }

  /** The directories on the way to Bin, other than the working directory and versions/, lie at or below Current. */
  lemma AboveBin(q: Path)
    requires q <= Bin && q != [] && q != VersionsRoot
    ensures Current <= q
  {
    assert |q| >= 2;
    assert q[..2] == Bin[..2] == Current;
  }

  /**
   * The mirror, started on a tree without versions/current, keeps every node
   * of that tree and adds nodes only at or below versions/current.
   */
  lemma MirrorBinFrame(t: Tree, faulty: set<Path>, src: Path)
    requires WellFormed(t) && VersionsRoot in t
    requires forall q :: q in t ==> !(Current <= q)
    requires MirrorBin(t, faulty, src).1 == Ok
    ensures var u := MirrorBin(t, faulty, src).0;
      (forall q :: q in t ==> q in u && u[q] == t[q]) && (forall q :: q in u && q !in t ==> Current <= q)
  {
    MirrorBinOk(t, faulty, src);
    var files := Walk(t, src);
    var m := MkdirAllTree(t, faulty, Bin, DirPerm).0;
    var u := MirrorBin(t, faulty, src).0;
    assert u == CopySteps(m, faulty, src, Bin, files).0;
    forall q | q in t ensures q in u && u[q] == t[q] {
      forall g | g in files ensures q != Relocate(g, src, Bin) {
        if q == Relocate(g, src, Bin) {
          BelowBin(q);
        }
      }
      CopyStepsUntargeted(m, faulty, src, Bin, files, q);
    }
    forall q | q in u && q !in t ensures Current <= q {
      if q in m {
        AboveBin(q);
      } else {
        CopyStepsAdds(m, faulty, src, Bin, files, q);
        var g :| g in files && q <= Relocate(g, src, Bin);
        PrefixesComparable(q, Bin, Relocate(g, src, Bin));
        if Bin <= q {
          BelowBin(q);
        } else {
          AboveBin(q);
        }
      }
    }
  }

  /** Every non-directory below src is a file, copied with its bytes to its place below Bin. */
  lemma MirrorForward(t: Tree, m: Tree, faulty: set<Path>, src: Path, files: seq<Path>)
    requires WellFormed(t) && src in t && files == Walk(t, src) && Apart(src, Bin)
    requires forall q :: q in t ==> q in m && m[q] == t[q]
    requires CopySteps(m, faulty, src, Bin, files).1 == Ok
    ensures CopiedFrom(t, src, CopySteps(m, faulty, src, Bin, files).0)
  {
    WalkMembers(t, src);
    WalkDistinct(t, src);
    CopyStepsWritesAll(m, faulty, src, Bin, files);
  }

  /** Every non-directory below Bin after the copies was copied from a non-directory below src. */
  lemma MirrorBackward(t: Tree, m: Tree, faulty: set<Path>, src: Path, files: seq<Path>)
    requires WellFormed(t) && src in t && files == Walk(t, src)
    requires forall q :: q in m && Bin <= q ==> m[q].Dir?
    ensures OnlyCopies(t, src, CopySteps(m, faulty, src, Bin, files).0)
  {
    WalkMembers(t, src);
    var u := CopySteps(m, faulty, src, Bin, files).0;
    forall q | q in u && Bin <= q && !u[q].Dir?
      ensures exists p :: p in t && src <= p && !t[p].Dir? && q == Relocate(p, src, Bin)
    {
      CopyStepsSources(m, faulty, src, Bin, files, q);
    }
  }

  /** Both mirror facts only look at src's subtree of the first tree. */
  lemma MirrorLocal(c: Tree, t: Tree, src: Path, u: Tree)
    requires AgreeBelow(c, t, src)
    requires CopiedFrom(c, src, u) && OnlyCopies(c, src, u)
    ensures CopiedFrom(t, src, u) && OnlyCopies(t, src, u)
  {
  }

  /** The Windows runs that get as far as switchWindows. */
  lemma UseRunWindows(t: Tree, faulty: set<Path>, path: Option<string>, faults: RegistryFaults,
                      binDir: string, version: string)
    ensures var r := UseRun(t, faulty, path, faults, binDir, "windows", version);
      var cleanup := RemoveAllTree(t, faulty, Current);
      r.2 == Ok || r.2 == Err(NodeExeNotFound(version)) ==>
        VersionDir(version) in t && cleanup.1 == Ok &&
        r == SwitchWindowsRun(cleanup.0, faulty, path, faults, binDir, VersionDir(version), version)
  {
    assert VersionsRoot + ["current"] == Current && VersionsRoot + [version] == VersionDir(version);
  }

  /** What a switchWindows that succeeds, or that finds no node.exe, went through. */
  lemma SwitchWindowsOutcome(t: Tree, faulty: set<Path>, path: Option<string>, faults: RegistryFaults,
                             binDir: string, versionDir: Path, version: string)
    ensures var r := SwitchWindowsRun(t, faulty, path, faults, binDir, versionDir, version);
      var found := Find(t, versionDir, version);
      (r.2 == Ok ==>
        found.Success? && MirrorBin(t, faulty, found.value).1 == Ok && r.0 == MirrorBin(t, faulty, found.value).0 &&
        r.1 == Some(NewPath(binDir, CleanParts(if path.Some? then path.value else "")))) &&
      (r.2 == Err(NodeExeNotFound(version)) ==> r.0 == t && r.1 == path)
  {
  }

  /**
   * On Windows a successful use leaves versions/current/bin a mirror of the
   * directory Find picks in the version directory, and PATH starting with binDir.
   */
  lemma UseWindowsMirror(t: Tree, faulty: set<Path>, path: Option<string>, faults: RegistryFaults,
                         binDir: string, version: string)
    requires WellFormed(t) && version != "current"
    requires UseRun(t, faulty, path, faults, binDir, "windows", version).2 == Ok
    ensures var r := UseRun(t, faulty, path, faults, binDir, "windows", version);
      var found := Find(t, VersionDir(version), version);
      found.Success? && CopiedFrom(t, found.value, r.0) && OnlyCopies(t, found.value, r.0) &&
      r.1 == Some(NewPath(binDir, CleanParts(if path.Some? then path.value else ""))) &&
      (forall q :: q in t && !(Current <= q) ==> q in r.0 && r.0[q] == t[q]) &&
      (forall q :: q in r.0 && q !in t ==> Current <= q)
  {
    var vd := VersionDir(version);
    UseRunWindows(t, faulty, path, faults, binDir, version);
    var c := RemoveAllTree(t, faulty, Current).0;
    SwitchWindowsOutcome(c, faulty, path, faults, binDir, vd, version);
    CleanupAgrees(t, faulty, version);
    FindLocal(c, t, vd, version);
    var src := Find(c, vd, version).value;
    BinApart(version, src);
    MirrorBinCopies(c, faulty, src);
    AgreeNarrow(c, t, vd, src);
    MirrorLocal(c, t, src, MirrorBin(c, faulty, src).0);
    UseWindowsFrame(t, faulty, path, faults, binDir, version);
  }

  /** The frame of a successful Windows use: it keeps every node outside versions/current and adds nodes only there. */
  lemma UseWindowsFrame(t: Tree, faulty: set<Path>, path: Option<string>, faults: RegistryFaults,
                        binDir: string, version: string)
    requires WellFormed(t) && version != "current"
    requires UseRun(t, faulty, path, faults, binDir, "windows", version).2 == Ok
    ensures var r := UseRun(t, faulty, path, faults, binDir, "windows", version);
      (forall q :: q in t && !(Current <= q) ==> q in r.0 && r.0[q] == t[q]) &&
      (forall q :: q in r.0 && q !in t ==> Current <= q)
  {
    var vd := VersionDir(version);
    UseRunWindows(t, faulty, path, faults, binDir, version);
    var c := RemoveAllTree(t, faulty, Current).0;
    SwitchWindowsOutcome(c, faulty, path, faults, binDir, vd, version);
    var src := Find(c, vd, version).value;
    assert VersionsRoot in c by {
      assert vd[..1] == VersionsRoot;
      AncestorIsDir(t, vd, 1);
    }
    MirrorBinFrame(c, faulty, src);
  }

  /** A versions/current that cannot be removed stops the call: nothing changes, and the error is wrapped. */
  lemma UseCleanupFails(t: Tree, faulty: set<Path>, path: Option<string>, faults: RegistryFaults,
                        binDir: string, goos: string, version: string)
    requires WellFormed(t) && VersionDir(version) in t && RemoveAllTree(t, faulty, Current).1.Err?
    ensures UseRun(t, faulty, path, faults, binDir, goos, version) ==
      (t, path, Err(Wrapped("cleanup current link", RemoveAllTree(t, faulty, Current).1.error)))
  {
    AncestorIsDir(t, VersionDir(version), 1);
    assert VersionDir(version)[..1] == VersionsRoot;
    assert VersionsRoot + ["current"] == Current && VersionsRoot + [version] == VersionDir(version);
  }

  /**
   * When no node.exe is found on Windows, the old versions/current is gone and
   * PATH is not touched.
   */
  lemma UseWindowsNotFoundLeavesNoCurrent(t: Tree, faulty: set<Path>, path: Option<string>, faults: RegistryFaults,
                                          binDir: string, version: string)
    requires WellFormed(t)
    requires UseRun(t, faulty, path, faults, binDir, "windows", version).2 == Err(NodeExeNotFound(version))
    ensures var r := UseRun(t, faulty, path, faults, binDir, "windows", version);
      r.1 == path && forall q :: Current <= q ==> q !in r.0
  {
    UseRunWindows(t, faulty, path, faults, binDir, version);
    SwitchWindowsOutcome(RemoveAllTree(t, faulty, Current).0, faulty, path, faults, binDir, VersionDir(version), version);
  }

  // ---------------------------------------------------------------------------
  // The operations on the disk and the registry

  /** switchWindows from collectFiles to copyFiles. */
  method MirrorInto(fs: Disk, sourceDir: Path) returns (r: Outcome)
    requires fs.Valid()
    modifies fs
    ensures fs.Valid()
    ensures (fs.nodes, r) == MirrorBin(old(fs.nodes), fs.faulty, sourceDir)
  {
    var files := CollectFiles(fs.nodes, sourceDir);
    if files.Failure? {
      return Err(Wrapped("collect files", files.error));
    }
    r := fs.RemoveAll(Bin);
    if r.Err? {
      return Err(Wrapped("remove dest dir", r.error));
    }
    r := fs.MkdirAll(Bin, DirPerm);
    if r.Err? {
      return Err(Wrapped("create dest dir", r.error));
    }
    r := CopyFiles(fs, files.value, sourceDir, Bin);
  }

  /** Usage.switchWindows(versionDir, nvxDir, version) */
  method SwitchWindows(fs: Disk, env: UserEnvironment, binDir: string, versionDir: Path, version: string)
    returns (r: Outcome)
    requires fs.Valid()
    modifies fs, env
    ensures fs.Valid()
    ensures (fs.nodes, env.path, r) ==
      SwitchWindowsRun(old(fs.nodes), fs.faulty, old(env.path), env.faults, binDir, versionDir, version)
  {
    ghost var t := fs.nodes;
    ghost var goal := SwitchWindowsRun(t, fs.faulty, env.path, env.faults, binDir, versionDir, version);
    var sourceDir := FindSource(fs, versionDir, version);
    if sourceDir.Failure? {
      return Err(sourceDir.error);
    }
    r := MirrorInto(fs, sourceDir.value);
    if r.Err? {
      return;
    }
    assert goal == SwitchPublish(fs.nodes, env.path, env.faults, binDir);
    r := env.AddToUserPath(binDir);
    if r.Err? {
      return Err(Wrapped("update PATH", r.error));
    }
  }

  /** Usage.switchUnix(versionDir, currentLink) */
  method SwitchUnix(fs: Disk, versionDir: Path, currentLink: Path) returns (r: Outcome)
    requires fs.Valid()
    modifies fs
    ensures fs.Valid()
    ensures (fs.nodes, r) == SwitchUnixRun(old(fs.nodes), fs.faulty, versionDir, currentLink)
  {
    r := fs.Symlink(versionDir, currentLink);
    if r.Err? {
      r := Err(Wrapped(SymlinkContext(currentLink, versionDir), r.error));
    }
  }

  /** Usage.UseNodeVersion(version) */
  method UseNodeVersion(fs: Disk, env: UserEnvironment, binDir: string, goos: string, version: string)
    returns (r: Outcome)
    requires fs.Valid()
    modifies fs, env
    ensures fs.Valid()
    ensures (fs.nodes, env.path, r) ==
      UseRun(old(fs.nodes), fs.faulty, old(env.path), env.faults, binDir, goos, version)
  {
    var nvxDir := GetVersionsDir(fs.nodes);
    if nvxDir.Failure? {
      return Err(Wrapped("get versions dir", nvxDir.error));
    }
    var versionDir := nvxDir.value + [version];
    if versionDir !in fs.nodes {
      return Err(VersionNotInstalled(version));
    }
    var currentLink := nvxDir.value + ["current"];
    r := fs.RemoveAll(currentLink);
    if r.Err? {
      return Err(Wrapped("cleanup current link", r.error));
    }
    if goos == "windows" {
      r := SwitchWindows(fs, env, binDir, versionDir, version);
    } else {
      r := SwitchUnix(fs, versionDir, currentLink);
    }
  }

  /**
   * The use command of internal/use.go: "v" + arg is activated, an error is
   * printed, and "Now using Node.js" follows whether or not there was one.
   */
  method UseCommand(fs: Disk, env: UserEnvironment, binDir: string, goos: string, arg: string)
    returns (lines: seq<string>)
    requires fs.Valid()
    modifies fs, env
    ensures fs.Valid()
    ensures var run := UseRun(old(fs.nodes), fs.faulty, old(env.path), env.faults, binDir, goos, "v" + arg);
      fs.nodes == run.0 && env.path == run.1 &&
      lines == (if run.2.Err? then ["Error: " + Text(run.2.error)] else []) + ["Now using Node.js v" + arg]
  {
    var version := "v" + arg;
    var r := UseNodeVersion(fs, env, binDir, goos, version);
    assert "Now using Node.js " + version == "Now using Node.js v" + arg;
    lines := [];
    if r.Err? {
      lines := lines + ["Error: " + Text(r.error)];
    }
    lines := lines + ["Now using Node.js " + version];
  }
}
