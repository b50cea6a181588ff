/**
 * A zip archive as the Go code sees it through archive/zip: a list of entries.
 * Decoding the archive's bytes is the library's business and is a parameter here.
 */
module Archive {
  import opened Common
  import opened FileSystem

  /**
   * One *zip.File: its name split at `/`, whether FileInfo().IsDir() holds,
   * its Mode(), and what f.Open() yields (the open error, or the stream
   * io.Copy reads from).
   */
  datatype Entry = Entry(name: Path, isDir: bool, mode: Mode, content: Result<Stream>)

  /** archive/zip's parser: the entries of an archive, or why it is not one. */
  type Decoder = Bytes -> Result<seq<Entry>>

  /** zip.OpenReader(src): the archive must be a regular file that the decoder accepts. */
  function OpenReader(t: Tree, decode: Decoder, src: Path): (r: Result<seq<Entry>>)
    ensures !IsFile(t, src) ==> r == Failure(PathError("open", src))
    ensures IsFile(t, src) ==> r == decode(t[src].data)
  {
    if IsFile(t, src) then decode(t[src].data) else Failure(PathError("open", src))
  }

  /** A name component that filepath.Clean leaves in place. */
  predicate Plain(c: string)
  {
    c != "" && c != "." && c != ".."
  }

  /** No component climbs out with `..`. */
  predicate NoClimb(name: Path)
  {
    forall i :: 0 <= i < |name| ==> name[i] != ".."
  }

  /**
   * filepath.Join(dir, name) onto a clean dir: the joined text is cleaned, so
   * an empty or "." component vanishes and ".." takes back the component
   * before it (it stays only when there is none to take back).
   */
  function JoinPath(dir: Path, name: Path): (p: Path)
    ensures NoClimb(name) ==> dir <= p
    decreases |name|
  {
    if name == [] then dir
    else
      var c := name[0];
      var next :=
        if c == "" || c == "." then dir
        else if c == ".." then (if dir != [] && dir[|dir| - 1] != ".." then dir[..|dir| - 1] else dir + [".."])
        else dir + [c];
      assert NoClimb(name) ==> NoClimb(name[1..]) && dir <= next by {
        if NoClimb(name) {
          assert c == name[0] != "..";
          forall i | 0 <= i < |name[1..]| ensures name[1..][i] != ".." {
            assert name[1..][i] == name[i + 1];
          }
        }
      }
      JoinPath(next, name[1..])
  }

  /** filepath.Join(dest, f.Name): where an entry is written. */
  function Target(dest: Path, e: Entry): (p: Path)
    ensures NoClimb(e.name) ==> dest <= p
  {
    JoinPath(dest, e.name)
  }

  /** A name made of plain components is appended as it is. */
  lemma {:induction false} JoinPlain(dir: Path, name: Path)
    requires forall i :: 0 <= i < |name| ==> Plain(name[i])
    ensures JoinPath(dir, name) == dir + name
    decreases |name|
  {
    if name != [] {
      forall i | 0 <= i < |name[1..]| ensures Plain(name[1..][i]) {
        assert name[1..][i] == name[i + 1];
      }
      JoinPlain(dir + [name[0]], name[1..]);
      assert dir + [name[0]] + name[1..] == dir + name;
    }
  }

  /** The zip-slip: an entry named ../evil is written beside the destination, not inside it. */
  lemma ClimbingNameEscapes(version: string, data: Bytes, m: Mode)
    requires Plain(version) && version != "evil"
    ensures var e := Entry(["..", "evil"], false, m, Success(Whole(data)));
      Target(["versions", version], e) == ["versions", "evil"] && !(["versions", version] <= Target(["versions", version], e))
  {
    var dest := ["versions", version];
    var name := ["..", "evil"];
    assert dest[..|dest| - 1] == ["versions"];
    assert name[1..] == ["evil"] && name[1..][1..] == [];
    assert JoinPath(["versions"], ["evil"]) == ["versions", "evil"];
    assert JoinPath(dest, name) == JoinPath(["versions"], ["evil"]);
  }

  /** Every archive the decoder accepts names its entries without `..`. */
  ghost predicate NamesStayInside(decode: Decoder)
  {
    forall b :: decode(b).Success? ==> forall e :: e in decode(b).value ==> NoClimb(e.name)
  }

  /** The data an entry yields when it opens and reads to the end. */
  predicate Readable(e: Entry)
  {
    e.content.Success? && e.content.value.Whole?
  }

  /** No entry's target lies at or below another entry's target: distinct targets, and no file inside another. */
  predicate PrefixFree(dest: Path, es: seq<Entry>)
  {
    forall i, j :: 0 <= i < |es| && 0 <= j < |es| && i != j ==> !(Target(dest, es[i]) <= Target(dest, es[j]))
  }

  /** Some entry's target lies at or below q: the only paths an extraction into dest may change. */
  ghost predicate OnTargetPath(q: Path, dest: Path, es: seq<Entry>)
  {
    exists j :: 0 <= j < |es| && q <= Target(dest, es[j])
  }

  lemma PrefixFreeTail(dest: Path, es: seq<Entry>)
    requires PrefixFree(dest, es) && |es| > 0
    ensures PrefixFree(dest, es[1..])
  {
    forall i, j | 0 <= i < |es[1..]| && 0 <= j < |es[1..]| && i != j
      ensures !(Target(dest, es[1..][i]) <= Target(dest, es[1..][j]))
    {
      assert es[1..][i] == es[i + 1] && es[1..][j] == es[j + 1];
    }
  }

  lemma JoinPrefix(dest: Path, a: Path, b: Path)
    ensures dest + a <= dest + b <==> a <= b
  {
    if dest + a <= dest + b {
      assert (dest + a)[|dest|..] == a && (dest + b)[|dest|..] == b;
      assert a == (dest + b)[|dest|..|dest| + |a|];
    }
  }

  /** For names of plain components, targets apart is names apart: no name is a prefix of another. */
  lemma PlainNamesApart(dest: Path, es: seq<Entry>)
    requires forall k, i :: 0 <= k < |es| && 0 <= i < |es[k].name| ==> Plain(es[k].name[i])
    ensures PrefixFree(dest, es) <==>
      forall i, j :: 0 <= i < |es| && 0 <= j < |es| && i != j ==> !(es[i].name <= es[j].name)
  {
    forall k | 0 <= k < |es| ensures Target(dest, es[k]) == dest + es[k].name {
      JoinPlain(dest, es[k].name);
    }
    forall i, j | 0 <= i < |es| && 0 <= j < |es|
      ensures Target(dest, es[i]) <= Target(dest, es[j]) <==> es[i].name <= es[j].name
    {
      JoinPrefix(dest, es[i].name, es[j].name);
    }
  }

  lemma PrefixTransitive(a: Path, b: Path, c: Path)
    ensures a <= b && b <= c ==> a <= c
  {
  }

  /** A path on the way to a later entry's target is not on the way to the first one's, and the other way round. */
  lemma PrefixFreeFirst(dest: Path, es: seq<Entry>)
    requires PrefixFree(dest, es) && |es| > 0
    ensures forall q :: OnTargetPath(q, dest, es[1..]) ==> !(Target(dest, es[0]) <= q)
    ensures forall j :: 1 <= j < |es| ==> !(Target(dest, es[j]) <= Target(dest, es[0]))
  {
    forall q | OnTargetPath(q, dest, es[1..]) ensures !(Target(dest, es[0]) <= q) {
      var j :| 0 <= j < |es[1..]| && q <= Target(dest, es[1..][j]);
      assert es[1..][j] == es[j + 1];
      PrefixTransitive(Target(dest, es[0]), q, Target(dest, es[j + 1]));
    }
  }

  lemma OnTargetPathCons(q: Path, dest: Path, es: seq<Entry>)
    requires |es| > 0
    ensures OnTargetPath(q, dest, es) <==> q <= Target(dest, es[0]) || OnTargetPath(q, dest, es[1..])
  {
    if OnTargetPath(q, dest, es) {
      var j :| 0 <= j < |es| && q <= Target(dest, es[j]);
      if j > 0 {
        assert es[1..][j - 1] == es[j];
      }
    }
    if OnTargetPath(q, dest, es[1..]) {
      var k :| 0 <= k < |es[1..]| && q <= Target(dest, es[1..][k]);
      assert es[1..][k] == es[k + 1];
    }
  }
}
