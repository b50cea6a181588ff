/**
 * pkg/set_user_path.go: AddToUserPath rebuilds the user's PATH in the
 * registry key HKEY_CURRENT_USER\Environment with the bin directory in front.
 * The key is modelled by its "Path" value and by which of its operations fail;
 * the path handed in is taken to be absolute and clean already.
 */
module UserPath {
  import opened Common
  import opened Strings

  // ---------------------------------------------------------------------------
  // The PATH string

  /** Putting a trimmed, non-blank piece after trimmed, non-blank pieces. */
  lemma TrimmedSnoc(rest: seq<string>, p: string)
    requires forall i :: 0 <= i < |rest| ==> rest[i] != "" && TrimSpace(rest[i]) == rest[i]
    requires p != "" && TrimSpace(p) == p
    ensures var r := rest + [p]; forall i :: 0 <= i < |r| ==> r[i] != "" && TrimSpace(r[i]) == r[i]
  {
    var r := rest + [p];
    forall i | 0 <= i < |r| ensures r[i] != "" && TrimSpace(r[i]) == r[i] {
      if i < |rest| {
        assert r[i] == rest[i];
      }
    }
  }

  /** The pieces worth keeping, in order: each trimmed, the blank ones dropped. */
  function Kept(pieces: seq<string>): (parts: seq<string>)
    ensures |parts| <= |pieces|
    ensures forall i :: 0 <= i < |parts| ==> parts[i] != "" && TrimSpace(parts[i]) == parts[i]
    decreases |pieces|
  {
    if pieces == [] then []
    else
      var rest := Kept(pieces[..|pieces| - 1]);
      var p := TrimSpace(pieces[|pieces| - 1]);
      if p == "" then rest
      else
        TrimSpaceIdempotent(pieces[|pieces| - 1]);
        TrimmedSnoc(rest, p);
        rest + [p]
  }

  /** The cleanParts slice built from the existing value. */
  function CleanParts(existing: string): (parts: seq<string>)
    ensures |parts| <= |Split(existing, ';')|
  {
    Kept(Split(existing, ';'))
  }

  /** newPath: bin alone, or bin, `;`, and the kept pieces joined with `;`. */
  function NewPath(bin: string, parts: seq<string>): (r: string)
    ensures bin <= r
    ensures parts != [] ==> |r| > |bin|
  {
    if |parts| > 0 then bin + ";" + Join(parts, ';') else bin
  }

  /** Trimming keeps a character out if it was out. */
  lemma TrimSpaceWithout(s: string, c: char)
    requires c !in s
    ensures c !in TrimSpace(s)
  {
    var l := TrimLeft(s);
    var a := |s| - |l|;
    var r := TrimRight(l);
    assert TrimSpace(s) == r;
    forall k | 0 <= k < |r| ensures r[k] != c {
      assert r[k] == l[k] == s[a + k];
    }
  }

  /** Kept works piece by piece. */
  lemma {:induction false} KeptConcat(a: seq<string>, b: seq<string>)
    ensures Kept(a + b) == Kept(a) + Kept(b)
    decreases |b|
  {
    if b == [] {
      assert a + b == a;
    } else {
      var init := b[..|b| - 1];
      assert (a + b)[..|a + b| - 1] == a + init;
      assert (a + b)[|a + b| - 1] == b[|b| - 1];
      KeptConcat(a, init);
    }
  }

  /** Pieces without a `;` keep none after trimming. */
  lemma {:induction false} KeptWithout(pieces: seq<string>, c: char)
    requires forall i :: 0 <= i < |pieces| ==> c !in pieces[i]
    ensures forall i :: 0 <= i < |Kept(pieces)| ==> c !in Kept(pieces)[i]
    decreases |pieces|
  {
    if pieces != [] {
      KeptWithout(pieces[..|pieces| - 1], c);
      TrimSpaceWithout(pieces[|pieces| - 1], c);
    }
  }

  /** Every kept piece is non-blank text of the old value, trimmed, without a `;`. */
  lemma CleanPartsShape(existing: string)
    ensures forall i :: 0 <= i < |CleanParts(existing)| ==>
      var p := CleanParts(existing)[i];
      p != "" && TrimSpace(p) == p && ';' !in p
  {
    KeptWithout(Split(existing, ';'), ';');
  }

  /** The pieces before a `;` come before the pieces after it: the old order is kept. */
  lemma CleanPartsConcat(a: string, b: string)
    ensures CleanParts(a + ";" + b) == CleanParts(a) + CleanParts(b)
  {
    assert a + ";" + b == a + [';'] + b;
    SplitConcat(a, ';', b);
    KeptConcat(Split(a, ';'), Split(b, ';'));
  }

  /** A missing or blank value leaves the bin directory alone on the PATH. */
  lemma BlankGivesBin(bin: string, existing: string)
    requires forall k :: 0 <= k < |existing| ==> IsSpace(existing[k])
    ensures NewPath(bin, CleanParts(existing)) == bin
  {
    assert ';' !in existing by {
      forall k | 0 <= k < |existing| ensures existing[k] != ';' {
        assert IsSpace(existing[k]);
      }
    }
    SplitWithoutSeparator(existing, ';');
    assert Split(existing, ';')[..0] == [];
  }

  /** Splitting a new PATH built from `;`-free parts gives back bin and the parts. */
  lemma NewPathSplit(bin: string, parts: seq<string>)
    requires ';' !in bin
    requires forall i :: 0 <= i < |parts| ==> ';' !in parts[i]
    ensures Split(NewPath(bin, parts), ';') == [bin] + parts
  {
    if |parts| == 0 {
      SplitWithoutSeparator(bin, ';');
    } else {
      assert NewPath(bin, parts) == bin + [';'] + Join(parts, ';');
      SplitAtSeparator(bin, ';', Join(parts, ';'));
      SplitJoin(parts, ';');
    }
  }

  /**
   * The new PATH, split at `;`, is the bin directory followed by the kept
   * pieces: it always starts with bin, and nothing else is added or reordered.
   */
  lemma NewPathPieces(bin: string, existing: string)
    requires ';' !in bin
    ensures Split(NewPath(bin, CleanParts(existing)), ';') == [bin] + CleanParts(existing)
  {
    var parts := CleanParts(existing);
    CleanPartsShape(existing);
    assert forall i :: 0 <= i < |parts| ==> ';' !in parts[i];
    NewPathSplit(bin, parts);
  }

  /** Nothing is deduplicated: a PATH that already is the bin directory gets it twice. */
  lemma NoDeduplication(bin: string)
    requires bin != "" && ';' !in bin && TrimSpace(bin) == bin
    ensures NewPath(bin, CleanParts(bin)) == bin + ";" + bin
  {
    SplitWithoutSeparator(bin, ';');
    assert [bin][..0] == [];
    assert Kept([bin]) == [bin];
  }

  /** The append loop of AddToUserPath over the pieces of the old value. */
  method CleanPathParts(existing: string) returns (parts: seq<string>)
    ensures parts == CleanParts(existing)
  {
    var pieces := Split(existing, ';');
    parts := [];
    for i := 0 to |pieces|
      invariant parts == Kept(pieces[..i])
    {
      assert pieces[..i + 1][..i] == pieces[..i];
      var pTrim := TrimSpace(pieces[i]);
      if pTrim == "" {
        continue;
      }
      parts := parts + [pTrim];
    }
    assert pieces[..|pieces|] == pieces;
  }

  // ---------------------------------------------------------------------------
  // The registry key

  /** Which registry operations fail: creating the key, reading Path, writing Path. */
  datatype RegistryFaults = RegistryFaults(open: bool, read: bool, write: bool)

  /**
   * AddToUserPath(bin) on the key's Path value (None: the value does not
   * exist): the new value and the error.
   */
  function AddToUserPathRun(path: Option<string>, faults: RegistryFaults, bin: string): (r: (Option<string>, Outcome))
    ensures r.1 == Ok <==> !faults.open && !faults.read && !faults.write
    ensures r.1 == Ok ==> r.0 == Some(NewPath(bin, CleanParts(if path.Some? then path.value else "")))
    ensures r.1.Err? ==> r.0 == path
  {
    if faults.open then (path, Err(Wrapped("failed to open registry", RegistryError("open"))))
    else
      var existing := if path.Some? then path.value else "";
      if faults.read then (path, Err(Wrapped("failed to read PATH", RegistryError("read"))))
      else
        var newPath := NewPath(bin, CleanParts(existing));
        if faults.write then (path, Err(Wrapped("failed to update PATH", RegistryError("write"))))
        else (Some(newPath), Ok)
  }

  /** HKEY_CURRENT_USER\Environment, as far as AddToUserPath uses it. */
  class UserEnvironment {
    var path: Option<string>
    const faults: RegistryFaults

    constructor (path: Option<string>, faults: RegistryFaults)
      ensures this.path == path && this.faults == faults
    {
      this.path := path;
      this.faults := faults;
    }

    /** AddToUserPath(bin) */
    method AddToUserPath(bin: string) returns (r: Outcome)
      modifies this
      ensures (path, r) == AddToUserPathRun(old(path), faults, bin)
    {
      if faults.open {
        return Err(Wrapped("failed to open registry", RegistryError("open")));
      }
      if faults.read {
        return Err(Wrapped("failed to read PATH", RegistryError("read")));
      }
      var existing := if path.Some? then path.value else "";
      var cleanParts := CleanPathParts(existing);
      var newPath := bin;
      if |cleanParts| > 0 {
        newPath := newPath + ";" + Join(cleanParts, ';');
      }
      if faults.write {
        return Err(Wrapped("failed to update PATH", RegistryError("write")));
      }
      path := Some(newPath);
      return Ok;
    }
  }
}
