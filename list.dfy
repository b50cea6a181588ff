/**
 * internal/list.go: the list command prints a header and then one line for
 * each directory entry of the versions directory, skipping versions/current.
 */
module List {
  import opened Common
  import opened Strings
  import opened FileSystem
  import opened VersionsDir

  const Header := "Installed Node.js versions:"

  /** The names of the listed entries, in listing order: directories other than "current". */
  function ListedNames(es: seq<DirEntry>): (names: seq<string>)
    ensures forall n :: n in names <==> DirEntry(n, true) in es && n != "current"
    ensures |names| <= |es|
    decreases |es|
  {
    if es == [] then []
    else
      var last := es[|es| - 1];
      var rest := ListedNames(es[..|es| - 1]);
      assert es == es[..|es| - 1] + [last];
      if last.isDir && last.name != "current" then rest + [last.name] else rest
  }

  /** One "- name" line per name. */
  function Bullets(names: seq<string>): (lines: seq<string>)
    ensures |lines| == |names|
    ensures forall i :: 0 <= i < |names| ==> lines[i] == "- " + names[i]
  {
    seq(|names|, i requires 0 <= i < |names| => "- " + names[i])
  }

  /**
   * The directories other than "current" in the versions directory: what the
   * list command is meant to show.
   */
  function InstalledVersions(t: Tree): (s: set<string>)
    ensures forall n :: n in s <==> IsDir(t, VersionsRoot + [n]) && n != "current"
  {
    var s := set p | p in t && |p| == 2 && p[0] == VersionsRoot[0] && t[p].Dir? && p[1] != "current" :: p[1];
    assert forall n :: IsDir(t, VersionsRoot + [n]) && n != "current" ==> (VersionsRoot + [n])[1] == n;
    assert forall p :: p in t && |p| == 2 && p[0] == VersionsRoot[0] ==> p == VersionsRoot + [p[1]];
    s
  }

  /** listNodeVersions on the tree t, running on goos: the lines printed and the error. */
  function ListRun(t: Tree, goos: string): (r: (seq<string>, Outcome))
    ensures VersionsRoot !in t ==> r == ([], Err(Wrapped("error", VersionsDirMissing)))
    ensures VersionsRoot in t && !IsDir(t, VersionsRoot) ==>
      r == ([], Err(Wrapped("failed to read versions directory", PathError(ReadDirOp(goos), VersionsRoot))))
    ensures r.1 == Ok <==> IsDir(t, VersionsRoot)
    ensures r.1 == Ok ==> |r.0| >= 1 && r.0[0] == Header
  {
    var versionsDir := GetVersionsDir(t);
    if versionsDir.Failure? then ([], Err(Wrapped("error", versionsDir.error)))
    else
      var files := ReadDir(t, versionsDir.value, goos);
      if files.Failure? then ([], Err(Wrapped("failed to read versions directory", files.error)))
      else ([Header] + Bullets(ListedNames(files.value)), Ok)
  }

  /** A readable versions directory gives the header and the bullets of its listing. */
  lemma ListRunOk(t: Tree, goos: string)
    requires IsDir(t, VersionsRoot)
    ensures ListRun(t, goos) == ([Header] + Bullets(ListedNames(ReadDir(t, VersionsRoot, goos).value)), Ok)
  {
  }

  /** A name above every name of a sorted sequence can be appended to it. */
  lemma SortedSnoc(r: seq<string>, x: string)
    requires StrictlySorted(r)
    requires forall n :: n in r ==> LessEq(n, x) && n != x
    ensures StrictlySorted(r + [x])
  {
    var s := r + [x];
    forall i, j | 0 <= i < j < |s| ensures LessEq(s[i], s[j]) && s[i] != s[j] {
      if j < |r| {
        assert s[i] == r[i] && s[j] == r[j];
      } else {
        assert s[i] == r[i] && r[i] in r;
      }
    }
  }

  /** The listed names of a sorted listing come out sorted as well. */
  lemma {:induction false} ListedSorted(es: seq<DirEntry>)
    requires StrictlySorted(Names(es))
    ensures StrictlySorted(ListedNames(es))
    decreases |es|
  {
    if es != [] {
      var init := es[..|es| - 1];
      var last := es[|es| - 1];
      assert Names(init) == Names(es)[..|es| - 1];
      ListedSorted(init);
      var rest := ListedNames(init);
      if last.isDir && last.name != "current" {
        forall n | n in rest ensures LessEq(n, last.name) && n != last.name {
          var j :| 0 <= j < |init| && init[j] == DirEntry(n, true);
          assert Names(es)[j] == n && Names(es)[|es| - 1] == last.name;
        }
        SortedSnoc(rest, last.name);
      }
    }
  }

  /** A sequence without repeats has as many elements as the set it enumerates. */
  lemma {:induction false} SortedCount(r: seq<string>, s: set<string>)
    requires StrictlySorted(r)
    requires forall x :: x in r <==> x in s
    ensures |r| == |s|
    decreases |r|
  {
    if r != [] {
      var last := r[|r| - 1];
      var init := r[..|r| - 1];
      assert StrictlySorted(init) by {
        forall i, j | 0 <= i < j < |init| ensures LessEq(init[i], init[j]) && init[i] != init[j] {
          assert init[i] == r[i] && init[j] == r[j];
        }
      }
      forall x ensures x in init <==> x in s - {last} {
        if x in init {
          var i :| 0 <= i < |init| && init[i] == x;
          assert r[i] == x;
        }
        if x in s - {last} {
          assert x in r && x != r[|r| - 1];
          var i :| 0 <= i < |r| && r[i] == x;
          assert x == init[i];
        }
      }
      SortedCount(init, s - {last});
    }
  }

  /**
   * When the versions directory can be read, the list command prints the
   * header and then "- " + name for exactly the installed versions other than
   * "current", each once, in increasing name order.
   */
  lemma ListShowsInstalled(t: Tree, goos: string)
    requires IsDir(t, VersionsRoot)
    ensures var names := ListedNames(ReadDir(t, VersionsRoot, goos).value);
      ListRun(t, goos) == ([Header] + Bullets(names), Ok) &&
      (forall n :: n in names <==> n in InstalledVersions(t)) &&
      StrictlySorted(names) && |names| == |InstalledVersions(t)|
  {
    var es := ReadDir(t, VersionsRoot, goos).value;
    var names := ListedNames(es);
    forall n ensures n in names <==> n in InstalledVersions(t) {
      if IsDir(t, VersionsRoot + [n]) {
        var j := ListedAt(t, VersionsRoot, goos, n);
        assert es[j] == DirEntry(n, true);
      }
      if DirEntry(n, true) in es {
        var j :| 0 <= j < |es| && es[j] == DirEntry(n, true);
        assert VersionsRoot + [es[j].name] in t;
      }
    }
    ListedSorted(es);
    SortedCount(names, InstalledVersions(t));
  }

  lemma BulletsSnoc(names: seq<string>, n: string)
    ensures Bullets(names + [n]) == Bullets(names) + ["- " + n]
  {
  }

  /** The loop of listNodeVersions: a line for each directory entry other than "current". */
  method ListEntries(entries: seq<DirEntry>) returns (lines: seq<string>)
    ensures lines == Bullets(ListedNames(entries))
  {
    lines := [];
    for i := 0 to |entries|
      invariant lines == Bullets(ListedNames(entries[..i]))
    {
      var prefix := entries[..i + 1];
      assert prefix[..i] == entries[..i] && prefix[i] == entries[i];
      var file := entries[i];
      if file.isDir {
        if file.name == "current" {
          continue;
        }
        BulletsSnoc(ListedNames(entries[..i]), file.name);
        lines := lines + ["- " + file.name];
      }
    }
    assert entries[..|entries|] == entries;
  }

  /** listNodeVersions. It only reads the disk. */
  method ListNodeVersions(fs: Disk, goos: string) returns (lines: seq<string>, r: Outcome)
    ensures (lines, r) == ListRun(fs.nodes, goos)
  {
    lines := [];
    var versionsDir := GetVersionsDir(fs.nodes);
    if versionsDir.Failure? {
      return lines, Err(Wrapped("error", versionsDir.error));
    }
    var files := ReadDir(fs.nodes, versionsDir.value, goos);
    if files.Failure? {
      return lines, Err(Wrapped("failed to read versions directory", files.error));
    }
    var listed := ListEntries(files.value);
    ListRunOk(fs.nodes, goos);
    lines := lines + [Header];
    lines := lines + listed;
    r := Ok;
    assert lines == [Header] + listed;
    assert (lines, r) == ([Header] + listed, Ok);
  }

  /** The list command: the lines are printed and the error is dropped. */
  method ListCommand(fs: Disk, goos: string) returns (lines: seq<string>)
    ensures lines == ListRun(fs.nodes, goos).0
  {
    var err;
    lines, err := ListNodeVersions(fs, goos);
  }
}
