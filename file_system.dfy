/**
 * The part of the operating system the core acts on: a filesystem as a map from
 * paths to nodes, and the os / path/filepath calls the Go code makes on it
 * (MkdirAll, OpenFile and Create, RemoveAll, Symlink, Stat, ReadDir, Walk),
 * plus the helpers pkg.CopyFile and pkg.CopyDir, whose source is not part of
 * this model and which are pinned down here as plain copies.
 *
 * Every mutating call is a pure function from the old tree to the new tree and
 * the call's error. Injected I/O faults are a set of paths at which creating,
 * writing or removing fails; reads never fail except on a missing path.
 */
module FileSystem {
  import opened Common
  import opened Strings

  /** A node; a symbolic link records the path, from the working directory, that it points to. */
  datatype Node = Dir(perm: Mode) | File(data: Bytes, perm: Mode) | Link(target: Path)

  type Tree = map<Path, Node>

  /** filepath.Dir on a component path; the working directory is its own parent. */
  function Parent(p: Path): (q: Path)
    ensures |p| > 0 ==> |q| == |p| - 1 && q <= p
    ensures |p| == 0 ==> q == []
  {
    if |p| == 0 then [] else p[..|p| - 1]
  }

  predicate IsDir(t: Tree, p: Path)
  {
    p in t && t[p].Dir?
  }

  predicate IsFile(t: Tree, p: Path)
  {
    p in t && t[p].File?
  }

  /** The mode a file opened with O_CREATE ends up with: its own when it already exists. */
  function KeptPerm(t: Tree, p: Path, perm: Mode): Mode
  {
    if IsFile(t, p) then t[p].perm else perm
  }

  /** The working directory exists, and every node hangs below a directory. */
  ghost predicate WellFormed(t: Tree)
  {
    IsDir(t, []) && forall p {:trigger Parent(p)} :: p in t && p != [] ==> IsDir(t, Parent(p))
  }

  /** Every proper prefix of a node's path is a directory. */
  lemma {:induction false} AncestorIsDir(t: Tree, p: Path, k: nat)
    requires WellFormed(t) && p in t && k < |p|
    ensures IsDir(t, p[..k])
    decreases |p|
  {
    assert IsDir(t, Parent(p));
    if k < |p| - 1 {
      AncestorIsDir(t, Parent(p), k);
      assert Parent(p)[..k] == p[..k];
    }
  }

  /** A path with something strictly below it in a well-formed tree is a directory. */
  lemma PrefixesPresent(t: Tree, p: Path)
    requires WellFormed(t)
    ensures forall q :: q in t && p <= q ==> q == p || IsDir(t, p)
  {
    forall q | q in t && p <= q ensures q == p || IsDir(t, p) {
      if q != p {
        AncestorIsDir(t, q, |p|);
        assert q[..|p|] == p;
      }
    }
  }

  lemma PrefixOfParent(p: Path, q: Path)
    ensures p <= Parent(q) ==> p <= q
  {
  }

  /** The paths at or below p. */
  function Subtree(t: Tree, p: Path): (s: set<Path>)
    ensures forall q :: q in s <==> q in t && p <= q
  {
    set q | q in t && p <= q
  }

  /** A child's subtree is smaller than its parent's. */
  lemma SubtreeShrinks(t: Tree, p: Path, n: string)
    requires p in t
    ensures |Subtree(t, p + [n])| < |Subtree(t, p)|
  {
    var a, b := Subtree(t, p + [n]), Subtree(t, p);
    forall q | q in a ensures q in b {
      assert q[..|p|] == (p + [n])[..|p|];
    }
    assert p in b - a;
    assert b == a + (b - a);
  }

  // ---------------------------------------------------------------------------
  // Mutating calls

  /**
   * os.MkdirAll(p, perm): nil when p already is a directory, an error when it is
   * something else; otherwise the parent first, then p. A failure below keeps
   * the directories already made above it.
   */
  function MkdirAllTree(t: Tree, faulty: set<Path>, p: Path, perm: Mode): (r: (Tree, Outcome))
    ensures forall q :: q in t ==> q in r.0 && r.0[q] == t[q]
    ensures forall q :: q in r.0 && q !in t ==> q <= p && r.0[q] == Dir(perm)
    ensures r.1 == Ok ==> IsDir(r.0, p)
    ensures IsDir(t, p) ==> r == (t, Ok)
    ensures WellFormed(t) ==> WellFormed(r.0)
    decreases |p|
  {
    if p in t then (t, if t[p].Dir? then Ok else Err(PathError("mkdir", p)))
    else if p == [] then (t, Err(PathError("mkdir", p)))
    else
      var r1 := MkdirAllTree(t, faulty, Parent(p), perm);
      if r1.1.Err? then r1
      else if p in faulty then (r1.0, Err(PathError("mkdir", p)))
      else (r1.0[p := Dir(perm)], Ok)
  }

  /**
   * os.OpenFile(p, O_WRONLY|O_CREATE|O_TRUNC, perm), and os.Create with 0o666:
   * an existing file is emptied and keeps its mode, a missing one is created
   * with perm inside an existing directory.
   */
  function OpenTruncTree(t: Tree, faulty: set<Path>, p: Path, perm: Mode): (r: (Tree, Outcome))
    ensures r.1 == Ok ==> r.0 == t[p := File([], KeptPerm(t, p, perm))]
    ensures r.1 == Ok ==> p !in faulty && (p in t ==> t[p].File?) && (p !in t ==> IsDir(t, Parent(p)))
    ensures r.1.Err? ==> r.0 == t
    ensures WellFormed(t) ==> WellFormed(r.0)
  {
    if p in t && !t[p].File? then (t, Err(PathError("open", p)))
    else if p !in t && !IsDir(t, Parent(p)) then (t, Err(PathError("open", p)))
    else if p in faulty then (t, Err(PathError("open", p)))
    else if p in t then (t[p := File([], t[p].perm)], Ok)
    else (t[p := File([], perm)], Ok)
  }

  /** Writing data through an open file. */
  function FillTree(t: Tree, p: Path, data: Bytes): (r: Tree)
    requires IsFile(t, p)
    ensures r == t[p := File(data, t[p].perm)]
    ensures WellFormed(t) ==> WellFormed(r)
  {
    t[p := File(data, t[p].perm)]
  }

  /** io.Copy of a stream into the open file p: the bytes read reach the file, then the reader's error, if any. */
  function CopyStreamTree(t: Tree, p: Path, s: Stream): (r: (Tree, Outcome))
    requires IsFile(t, p)
    ensures r.0 == t[p := File(if s.Whole? then s.data else s.prefix, t[p].perm)]
    ensures r.1 == Ok <==> s.Whole?
    ensures s.Truncated? ==> r.1 == Err(s.cause)
  {
    match s
    case Whole(data) => (FillTree(t, p, data), Ok)
    case Truncated(prefix, cause) => (FillTree(t, p, prefix), Err(cause))
  }

  /**
   * os.RemoveAll(p): nil when p does not exist; otherwise p and everything below
   * it go. `.` itself is refused. A fault anywhere below p fails the call and
   * removes nothing.
   */
  function RemoveAllTree(t: Tree, faulty: set<Path>, p: Path): (r: (Tree, Outcome))
    ensures WellFormed(t) && r.1 == Ok ==> forall q :: q in r.0 <==> q in t && !(p <= q)
    ensures r.1 == Ok ==> forall q :: q in r.0 ==> q in t && r.0[q] == t[q]
    ensures r.1.Err? ==> r.0 == t
    ensures p !in t && p != [] ==> r == (t, Ok)
    ensures p == [] ==> r.1.Err?
    ensures WellFormed(t) ==> WellFormed(r.0)
  {
    if p == [] then (t, Err(PathError("RemoveAll", p)))
    else if p !in t then
      assert WellFormed(t) ==> Subtree(t, p) == {} by {
        if WellFormed(t) {
          PrefixesPresent(t, p);
        }
      }
      (t, Ok)
    else if Subtree(t, p) * faulty != {} then (t, Err(PathError("unlinkat", p)))
    else
      var t' := map q | q in t && !(p <= q) :: t[q];
      assert WellFormed(t) ==> WellFormed(t') by {
        if WellFormed(t) {
          forall q | q in t' && q != [] ensures IsDir(t', Parent(q)) {
            PrefixOfParent(p, q);
          }
        }
      }
      (t', Ok)
  }

  /**
   * Where a link made at link with the relative text `text` points: the
   * system reads relative link text from the link's own directory.
   */
  function RelativeLinkTarget(link: Path, text: Path): (p: Path)
    ensures Parent(link) <= p && p[|Parent(link)|..] == text
  {
    Parent(link) + text
  }

  /**
   * os.Symlink(target, link), with target the path the link points to:
   * link must not exist and must sit in an existing directory.
   */
  function SymlinkTree(t: Tree, faulty: set<Path>, target: Path, link: Path): (r: (Tree, Outcome))
    ensures r.1 == Ok <==> link !in t && IsDir(t, Parent(link)) && link !in faulty
    ensures r.1 == Ok ==> r.0 == t[link := Link(target)]
    ensures r.1.Err? ==> r.0 == t
    ensures WellFormed(t) ==> WellFormed(r.0)
  {
    if link in t || !IsDir(t, Parent(link)) || link in faulty then (t, Err(PathError("symlink", link)))
    else
      (t[link := Link(target)], Ok)
  }

  /**
   * pkg.CopyFile(from, to): the regular file from is read whole and written to
   * to as os.Create would (a new file gets mode 0o666, an existing one keeps its mode).
   */
  function CopyFileTree(t: Tree, faulty: set<Path>, from: Path, to: Path): (r: (Tree, Outcome))
    ensures r.1 == Ok ==> IsFile(t, from) && r.0 == t[to := File(t[from].data, KeptPerm(t, to, CreatePerm))]
    ensures !IsFile(t, from) ==> r.1.Err?
    ensures r.1.Err? ==> r.0 == t
    ensures WellFormed(t) ==> WellFormed(r.0)
  {
    if !IsFile(t, from) then (t, Err(PathError("open", from)))
    else
      var o := OpenTruncTree(t, faulty, to, CreatePerm);
      if o.1.Err? then o
      else (FillTree(o.0, to, t[from].data), Ok)
  }

  // ---------------------------------------------------------------------------
  // Reading

  /** The names of the entries of directory dir. */
  function ChildNames(t: Tree, dir: Path): (s: set<string>)
    ensures forall n :: n in s <==> dir + [n] in t
  {
    var s := set q | q in t && |q| == |dir| + 1 && dir <= q :: q[|dir|];
    assert forall n :: dir + [n] in t ==> n in s by {
      forall n | dir + [n] in t ensures n in s {
        assert (dir + [n])[|dir|] == n;
      }
    }
    assert forall q :: q in t && |q| == |dir| + 1 && dir <= q ==> q == dir + [q[|dir|]];
    s
  }

  /** One entry of an os.ReadDir listing; a link is not a directory. */
  datatype DirEntry = DirEntry(name: string, isDir: bool)

  function Names(es: seq<DirEntry>): (r: seq<string>)
    ensures |r| == |es| && forall i :: 0 <= i < |es| ==> r[i] == es[i].name
  {
    if es == [] then [] else [es[0].name] + Names(es[1..])
  }

  function EntriesOf(t: Tree, dir: Path, names: seq<string>): (r: seq<DirEntry>)
    requires forall n :: n in names ==> dir + [n] in t
    ensures Names(r) == names
    ensures forall i :: 0 <= i < |r| ==> r[i].isDir == t[dir + [names[i]]].Dir?
  {
    if names == [] then []
    else [DirEntry(names[0], t[dir + [names[0]]].Dir?)] + EntriesOf(t, dir, names[1..])
  }

  /**
   * The operation Go's File.ReadDir names when the opened path is not a
   * directory: getdents on Linux and the other Unixes, fdopendir on macOS,
   * and the Windows directory reader.
   */
  function ReadDirOp(goos: string): (op: string)
    ensures op != "open"
    ensures goos == "windows" ==> op == "readdir"
    ensures goos == "linux" ==> op == "readdirent"
  {
    if goos == "windows" then "readdir" else if goos == "darwin" then "fdopendir" else "readdirent"
  }

  /**
   * os.ReadDir(dir) on goos: the entries of a directory, sorted by name. A
   * missing path fails to open; an existing non-directory opens and then
   * fails to be read.
   */
  function ReadDir(t: Tree, dir: Path, goos: string): (r: Result<seq<DirEntry>>)
    ensures r.Success? <==> IsDir(t, dir)
    ensures dir !in t ==> r == Failure(PathError("open", dir))
    ensures dir in t && !IsDir(t, dir) ==> r == Failure(PathError(ReadDirOp(goos), dir))
    ensures r.Success? ==> Names(r.value) == SortedNames(ChildNames(t, dir))
    ensures r.Success? ==> forall i :: 0 <= i < |r.value| ==>
      dir + [r.value[i].name] in t && r.value[i].isDir == t[dir + [r.value[i].name]].Dir?
  {
    if dir !in t then Failure(PathError("open", dir))
    else if !IsDir(t, dir) then Failure(PathError(ReadDirOp(goos), dir))
    else Success(EntriesOf(t, dir, SortedNames(ChildNames(t, dir))))
  }

  /** Where the entry n of a directory sits in its listing. */
  lemma ListedAt(t: Tree, dir: Path, goos: string, n: string) returns (j: nat)
    requires IsDir(t, dir) && dir + [n] in t
    ensures j < |ReadDir(t, dir, goos).value| && ReadDir(t, dir, goos).value[j] == DirEntry(n, t[dir + [n]].Dir?)
  {
    var es := ReadDir(t, dir, goos).value;
    assert n in Names(es);
    j :| 0 <= j < |es| && Names(es)[j] == n;
  }

  /**
   * The paths filepath.Walk(p, fn) hands to fn with a non-directory FileInfo, in
   * visiting order: p itself when it is not a directory, else the walks of its
   * entries in name order. Links are not followed.
   */
  function Walk(t: Tree, p: Path): (r: seq<Path>)
    requires p in t
    ensures forall x :: x in r ==> p <= x
    decreases |Subtree(t, p)|, 1
  {
    if !t[p].Dir? then [p] else WalkAll(t, p, SortedNames(ChildNames(t, p)))
  }

  function WalkAll(t: Tree, dir: Path, names: seq<string>): (r: seq<Path>)
    requires dir in t && forall n :: n in names ==> dir + [n] in t
    ensures forall x :: x in r ==> |x| > |dir| && dir <= x && x[|dir|] in names
    decreases |Subtree(t, dir)|, 0, |names|
  {
    if names == [] then []
    else
      SubtreeShrinks(t, dir, names[0]);
      var first := Walk(t, dir + [names[0]]);
      assert forall x :: x in first ==> x[|dir|] == names[0] by {
        forall x | x in first ensures x[|dir|] == names[0] {
          assert x[..|dir| + 1] == dir + [names[0]];
        }
      }
      first + WalkAll(t, dir, names[1..])
  }

  /** A present path below dir passes through a present entry of dir. */
  lemma ChildPresent(t: Tree, dir: Path, x: Path)
    requires WellFormed(t) && x in t && dir <= x && |x| > |dir|
    ensures dir + [x[|dir|]] in t
  {
    assert x[..|dir| + 1] == dir + [x[|dir|]];
    if |x| > |dir| + 1 {
      AncestorIsDir(t, x, |dir| + 1);
    } else {
      assert x[..|dir| + 1] == x;
    }
  }

  lemma SortedChildName(t: Tree, dir: Path, n: string)
    requires dir + [n] in t
    ensures n in SortedNames(ChildNames(t, dir))
  {
  }

  lemma ChildPrefix(dir: Path, n: string, x: Path)
    ensures dir + [n] <= x <==> |x| > |dir| && dir <= x && x[|dir|] == n
  {
    if |x| > |dir| && dir <= x && x[|dir|] == n {
      assert x[..|dir| + 1] == dir + [n];
    }
  }

  /** filepath.Walk reaches exactly the non-directories at or below p. */
  lemma {:induction false} WalkMembers(t: Tree, p: Path)
    requires WellFormed(t) && p in t
    ensures forall x :: x in Walk(t, p) <==> x in t && p <= x && !t[x].Dir?
    decreases |Subtree(t, p)|, 1
  {
    if t[p].Dir? {
      WalkDirMembers(t, p);
    } else {
      WalkLeafMembers(t, p);
    }
  }

  lemma WalkLeafMembers(t: Tree, p: Path)
    requires WellFormed(t) && p in t && !t[p].Dir?
    ensures forall x :: x in Walk(t, p) <==> x in t && p <= x && !t[x].Dir?
  {
    assert Walk(t, p) == [p];
    PrefixesPresent(t, p);
  }

  lemma {:induction false} WalkDirMembers(t: Tree, p: Path)
    requires WellFormed(t) && IsDir(t, p)
    ensures forall x :: x in Walk(t, p) <==> x in t && p <= x && !t[x].Dir?
    decreases |Subtree(t, p)|, 0, |ChildNames(t, p)| + 1
  {
    var names := SortedNames(ChildNames(t, p));
    assert Walk(t, p) == WalkAll(t, p, names);
    WalkAllMembers(t, p, names);
    forall x | x in t && p <= x && !t[x].Dir? ensures |x| > |p| && x[|p|] in names {
      assert x != p;
      ChildPresent(t, p, x);
      SortedChildName(t, p, x[|p|]);
    }
  }

  lemma {:induction false} WalkAllMembers(t: Tree, dir: Path, names: seq<string>)
    requires WellFormed(t) && dir in t && forall n :: n in names ==> dir + [n] in t
    ensures forall x :: x in WalkAll(t, dir, names) <==>
      x in t && |x| > |dir| && dir <= x && x[|dir|] in names && !t[x].Dir?
    decreases |Subtree(t, dir)|, 0, |names|
  {
    if names != [] {
      SubtreeShrinks(t, dir, names[0]);
      WalkMembers(t, dir + [names[0]]);
      WalkAllMembers(t, dir, names[1..]);
      forall x ensures dir + [names[0]] <= x <==> |x| > |dir| && dir <= x && x[|dir|] == names[0] {
        ChildPrefix(dir, names[0], x);
      }
      assert forall n :: n in names <==> n == names[0] || n in names[1..];
    }
  }

  lemma StrictlySortedDistinct(names: seq<string>)
    requires StrictlySorted(names)
    ensures Distinct(names)
  {
  }

  /** filepath.Walk visits each path once. */
  lemma {:induction false} WalkDistinct(t: Tree, p: Path)
    requires p in t
    ensures Distinct(Walk(t, p))
    decreases |Subtree(t, p)|, 1
  {
    if t[p].Dir? {
      var names := SortedNames(ChildNames(t, p));
      StrictlySortedDistinct(names);
      WalkAllDistinct(t, p, names);
    }
  }

  lemma {:induction false} WalkAllDistinct(t: Tree, dir: Path, names: seq<string>)
    requires dir in t && forall n :: n in names ==> dir + [n] in t
    requires Distinct(names)
    ensures Distinct(WalkAll(t, dir, names))
    decreases |Subtree(t, dir)|, 0, |names|
  {
    if names != [] {
      SubtreeShrinks(t, dir, names[0]);
      var first := Walk(t, dir + [names[0]]);
      WalkDistinct(t, dir + [names[0]]);
      assert Distinct(names[1..]) by {
        forall i, j | 0 <= i < j < |names[1..]| ensures names[1..][i] != names[1..][j] {
          assert names[1..][i] == names[i + 1] && names[1..][j] == names[j + 1];
        }
      }
      WalkAllDistinct(t, dir, names[1..]);
      forall x | x in first ensures x !in WalkAll(t, dir, names[1..]) {
        ChildPrefix(dir, names[0], x);
        assert names[0] !in names[1..] by {
          forall k | 0 <= k < |names[1..]| ensures names[1..][k] != names[0] {
            assert names[1..][k] == names[k + 1];
          }
        }
      }
      DistinctConcat(first, WalkAll(t, dir, names[1..]));
    }
  }

  // ---------------------------------------------------------------------------
  // Paths that lie apart

  /** Neither path lies at or below the other. */
  predicate Apart(a: Path, b: Path)
  {
    !(a <= b) && !(b <= a)
  }

  /** Two prefixes of one path are prefixes of each other. */
  lemma PrefixesComparable(a: Path, b: Path, x: Path)
    requires a <= x && b <= x
    ensures a <= b || b <= a
  {
    if |a| <= |b| {
      assert a == b[..|a|];
    } else {
      assert b == a[..|b|];
    }
  }

  /** Nothing lies below two paths that are apart. */
  lemma ApartDisjoint(a: Path, b: Path, x: Path)
    requires Apart(a, b)
    ensures !(a <= x && b <= x)
  {
    if a <= x && b <= x {
      PrefixesComparable(a, b, x);
    }
  }

  /** t and u hold the same nodes at dir and below it. */
  ghost predicate AgreeBelow(t: Tree, u: Tree, dir: Path)
  {
    forall q :: dir <= q ==> (q in t <==> q in u) && (q in t ==> t[q] == u[q])
  }

  lemma AgreeNarrow(t: Tree, u: Tree, dir: Path, sub: Path)
    requires AgreeBelow(t, u, dir) && dir <= sub
    ensures AgreeBelow(t, u, sub)
  {
    forall q | sub <= q ensures (q in t <==> q in u) && (q in t ==> t[q] == u[q]) {
      assert q[..|dir|] == sub[..|dir|];
    }
  }

  // ---------------------------------------------------------------------------
  // pkg.CopyDir

  /** Where pkg.CopyDir(from, to) puts the node found at p. */
  function Relocate(p: Path, from: Path, to: Path): (q: Path)
    requires from <= p
    ensures to <= q && q[|to|..] == p[|from|..]
  {
    to + p[|from|..]
  }

  /** The node pkg.CopyDir(from, to) reads for the path q below to, if any. */
  predicate Sourced(t: Tree, q: Path, from: Path, to: Path)
  {
    to <= q && from + q[|to|..] in t
  }

  /** Entries already below to whose kind differs from the entry copied onto them. */
  function Clashes(t: Tree, from: Path, to: Path): set<Path>
  {
    set q | q in t && Sourced(t, q, from, to) && t[q].Dir? != t[from + q[|to|..]].Dir?
  }

  lemma RelocateBack(t: Tree, from: Path, to: Path)
    ensures forall q :: q in t && from <= q ==> from + Relocate(q, from, to)[|to|..] == q
  {
    forall q | q in t && from <= q ensures from + Relocate(q, from, to)[|to|..] == q {
      assert q == q[..|from|] + q[|from|..];
    }
  }

  function Images(t: Tree, from: Path, to: Path): (s: set<Path>)
    ensures forall q :: q in t && from <= q ==> Relocate(q, from, to) in s
    ensures forall q :: q in s ==> Sourced(t, q, from, to)
  {
    var s := set q | q in t && from <= q :: Relocate(q, from, to);
    RelocateBack(t, from, to);
    s
  }

  /**
   * pkg.CopyDir(from, to): the directory from and everything below it, laid
   * over to. Entries already below to that nothing is copied onto stay. The copy
   * fails, changing nothing, when from is not a directory, the two overlap,
   * to has no parent directory, a directory and a non-directory would meet,
   * or a target path is faulty.
   */
  function CopyDirTree(t: Tree, faulty: set<Path>, from: Path, to: Path): (r: (Tree, Outcome))
    ensures r.1 == Ok ==> forall q :: q in t && from <= q ==>
      Relocate(q, from, to) in r.0 && r.0[Relocate(q, from, to)] == t[q]
    ensures r.1 == Ok ==> forall q :: q in t && !Sourced(t, q, from, to) ==> q in r.0 && r.0[q] == t[q]
    ensures r.1 == Ok ==> forall q :: q in r.0 ==> q in t || Sourced(t, q, from, to)
    ensures !IsDir(t, from) ==> r.1.Err?
    ensures r.1.Err? ==> r.0 == t
    ensures WellFormed(t) ==> WellFormed(r.0)
  {
    if !IsDir(t, from) then (t, Err(PathError("open", from)))
    else if from <= to || to <= from then (t, Err(PathError("copy", to)))
    else if !IsDir(t, Parent(to)) then (t, Err(PathError("mkdir", to)))
    else if Clashes(t, from, to) != {} || Images(t, from, to) * faulty != {} then (t, Err(PathError("copy", to)))
    else
      var u := map q | q in t.Keys + Images(t, from, to) ::
        if Sourced(t, q, from, to) then t[from + q[|to|..]] else t[q];
      assert IsOverlay(t, from, to, u);
      RelocateBack(t, from, to);
      OverlayWellFormed(t, from, to, u);
      (u, Ok)
  }

  /** u is t with the subtree at from laid over to. */
  ghost predicate IsOverlay(t: Tree, from: Path, to: Path, u: Tree)
  {
    (forall q :: q in u <==> q in t || q in Images(t, from, to)) &&
    (forall q :: q in u && Sourced(t, q, from, to) ==> u[q] == t[from + q[|to|..]]) &&
    (forall q :: q in u && !Sourced(t, q, from, to) ==> q in t && u[q] == t[q])
  }

  lemma OverlaySourcedParent(t: Tree, from: Path, to: Path, u: Tree, k: Path)
    requires WellFormed(t) && IsOverlay(t, from, to, u)
    requires k in u && Sourced(t, k, from, to) && k != to
    ensures IsDir(u, Parent(k))
  {
    var s := from + k[|to|..];
    assert |s| > |from|;
    assert from + Parent(k)[|to|..] == Parent(s);
    assert Parent(s) in t && from <= Parent(s);
    assert Parent(k) == Relocate(Parent(s), from, to);
  }

  lemma OverlayOtherParent(t: Tree, from: Path, to: Path, u: Tree, k: Path)
    requires WellFormed(t) && IsOverlay(t, from, to, u) && Clashes(t, from, to) == {}
    requires k in u && k != [] && !Sourced(t, k, from, to)
    ensures IsDir(u, Parent(k))
  {
    assert k in t;
    if Sourced(t, Parent(k), from, to) {
      assert Parent(k) !in Clashes(t, from, to);
    }
  }

  lemma OverlayWellFormed(t: Tree, from: Path, to: Path, u: Tree)
    requires IsDir(t, from) && !(to <= from) && IsDir(t, Parent(to)) && Clashes(t, from, to) == {}
    requires IsOverlay(t, from, to, u)
    ensures WellFormed(t) ==> WellFormed(u)
  {
    if WellFormed(t) {
      assert !Sourced(t, [], from, to);
      forall k | k in u && k != [] ensures IsDir(u, Parent(k)) {
        if !Sourced(t, k, from, to) {
          OverlayOtherParent(t, from, to, u, k);
        } else if k == to {
          assert !Sourced(t, Parent(k), from, to);
        } else {
          OverlaySourcedParent(t, from, to, u, k);
        }
      }
    }
  }

  // ---------------------------------------------------------------------------
  // The filesystem the process sees

  /**
   * The disk: its tree, changed in place by the os calls, and the paths at which
   * those calls fail.
   */
  class Disk {
    var nodes: Tree
    const faulty: set<Path>

    ghost predicate Valid()
      reads this
    {
      WellFormed(nodes)
    }

    constructor (nodes: Tree, faulty: set<Path>)
      requires WellFormed(nodes)
      ensures Valid() && this.nodes == nodes && this.faulty == faulty
    {
      this.nodes := nodes;
      this.faulty := faulty;
    }

    method MkdirAll(p: Path, perm: Mode) returns (r: Outcome)
      requires Valid()
      modifies this
      ensures Valid()
      ensures (nodes, r) == MkdirAllTree(old(nodes), faulty, p, perm)
    {
      var res := MkdirAllTree(nodes, faulty, p, perm);
      nodes, r := res.0, res.1;
    }

    method OpenTrunc(p: Path, perm: Mode) returns (r: Outcome)
      requires Valid()
      modifies this
      ensures Valid()
      ensures (nodes, r) == OpenTruncTree(old(nodes), faulty, p, perm)
    {
      var res := OpenTruncTree(nodes, faulty, p, perm);
      nodes, r := res.0, res.1;
    }

    method CopyStream(p: Path, s: Stream) returns (r: Outcome)
      requires Valid() && IsFile(nodes, p)
      modifies this
      ensures Valid()
      ensures (nodes, r) == CopyStreamTree(old(nodes), p, s)
    {
      var res := CopyStreamTree(nodes, p, s);
      nodes, r := res.0, res.1;
    }

    method RemoveAll(p: Path) returns (r: Outcome)
      requires Valid()
      modifies this
      ensures Valid()
      ensures (nodes, r) == RemoveAllTree(old(nodes), faulty, p)
    {
      var res := RemoveAllTree(nodes, faulty, p);
      nodes, r := res.0, res.1;
    }

    method Symlink(target: Path, link: Path) returns (r: Outcome)
      requires Valid()
      modifies this
      ensures Valid()
      ensures (nodes, r) == SymlinkTree(old(nodes), faulty, target, link)
    {
      var res := SymlinkTree(nodes, faulty, target, link);
      nodes, r := res.0, res.1;
    }

    method CopyFile(from: Path, to: Path) returns (r: Outcome)
      requires Valid()
      modifies this
      ensures Valid()
      ensures (nodes, r) == CopyFileTree(old(nodes), faulty, from, to)
    {
      var res := CopyFileTree(nodes, faulty, from, to);
      nodes, r := res.0, res.1;
    }

    method CopyDir(from: Path, to: Path) returns (r: Outcome)
      requires Valid()
      modifies this
      ensures Valid()
      ensures (nodes, r) == CopyDirTree(old(nodes), faulty, from, to)
    {
      var res := CopyDirTree(nodes, faulty, from, to);
      nodes, r := res.0, res.1;
    }
  }
}
