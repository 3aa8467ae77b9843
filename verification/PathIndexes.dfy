/** The volume's path index, and the rules a path must meet to be written. */
module PathIndexes {
  import opened Wrappers
  import opened Strings

  type Path = string
  type DocId = nat

  const FILEPATH_MAX_LENGTH: nat := 4096
  const BASENAME_MAX_LENGTH: nat := 255
  const RESERVED: Path := "/profile.md"

  // ---- Shape ----

  datatype Rejection = Empty | TooLong | NotAbsolute | ControlChar | DoubleSlash | EmptyLeaf | BasenameTooLong
                     | MissingExtension

  predicate IsControl(c: char) {
    (c as int) < 0x20 || (c as int) == 0x7F
  }

  predicate HasControl(s: string) {
    exists i :: 0 <= i < |s| && IsControl(s[i])
  }

  /** What follows the last slash. */
  function Basename(path: Path): string
    decreases |path|
  {
    if path == "" || path[|path| - 1] == '/' then "" else Basename(path[..|path| - 1]) + [path[|path| - 1]]
  }

  /** `checkFilepath`: the first rule the path breaks. */
  function CheckFilepath(path: Path): Option<Rejection> {
    if path == "" then Some(Empty)
    else if |path| > FILEPATH_MAX_LENGTH then Some(TooLong)
    else if path[0] != '/' then Some(NotAbsolute)
    else if HasControl(path) then Some(ControlChar)
    else if Contains(path, "//") then Some(DoubleSlash)
    else if Basename(path) == "" then Some(EmptyLeaf)
    else if |Basename(path)| > BASENAME_MAX_LENGTH then Some(BasenameTooLong)
    else if '.' !in Basename(path) || Basename(path)[|Basename(path)| - 1] == '.' then Some(MissingExtension)
    else None
  }

  // ---- Paths under paths ----

  /** `q` lies below `p`. */
  predicate Under(p: Path, q: Path) {
    |p| < |q| && q[..|p|] == p && q[|p|] == '/'
  }

  ghost predicate PrefixFree(paths: set<Path>) {
    forall p, q | p in paths && q in paths :: !Under(p, q)
  }

  /** The paths the ancestor check looks up: proper, nonempty starts of the components. */
  function Ancestor(path: Path, i: nat): Path
    requires i <= |Components(path)|
  {
    Render(Components(path)[..i])
  }

  ghost predicate HasAncestorFile(files: set<Path>, path: Path) {
    exists i :: 1 <= i < |Components(path)| && Ancestor(path, i) in files
  }

  ghost predicate HasDescendantFile(files: set<Path>, path: Path) {
    path != "/" && path != "" && exists f :: f in files && Below(path, f)
  }

  /** `f` starts with the path and a slash. */
  predicate Below(path: Path, f: Path)
    requires path != ""
  {
    if path[|path| - 1] == '/' then path <= f else path + "/" <= f
  }

  // ---- Components of well-shaped paths ----

  lemma {:induction false} SplitTwo(a: string, b: string)
    ensures Split(a + "/" + b, '/') == Split(a, '/') + Split(b, '/')
    decreases |a|
  {
    if '/' !in a {
      SplitAt(a, b, '/');
      SplitWhole(a, '/');
    } else {
      var first, rest := CutAtSlash(a);
      SplitTwo(rest, b);
      SplitMore(first, rest, b);
    }
  }

  lemma SplitMore(first: string, rest: string, b: string)
    requires '/' !in first && Split(rest + "/" + b, '/') == Split(rest, '/') + Split(b, '/')
    ensures Split(first + ['/'] + rest + "/" + b, '/') == Split(first + ['/'] + rest, '/') + Split(b, '/')
  {
    SplitAt(first, rest, '/');
    assert first + ['/'] + rest + "/" + b == first + ['/'] + (rest + "/" + b);
    SplitAt(first, rest + "/" + b, '/');
    Assoc([first], Split(rest, '/'), Split(b, '/'));
  }

  lemma {:induction false} FindSome(a: string)
    requires '/' in a
    ensures Find(a, "/").Some? && '/' !in a[..Find(a, "/").value]
  {
    if a[0] != '/' {
      assert '/' in a[1..];
      FindSome(a[1..]);
      var i := Find(a[1..], "/").value;
      assert a[..i + 1] == [a[0]] + a[1..][..i];
    }
  }

  lemma CutAtSlash(s: string) returns (a: string, rest: string)
    requires '/' in s
    ensures '/' !in a && s == a + ['/'] + rest
  {
    FindSome(s);
    var i := Find(s, "/").value;
    a, rest := s[..i], s[i + 1..];
  }

  lemma JoinedCons(a: string, parts: seq<string>)
    requires parts != []
    ensures Joined([a] + parts) == a + "/" + Joined(parts)
  {
    assert ([a] + parts)[1..] == parts;
  }

  lemma JoinSplitAt(a: string, rest: string, s: string)
    requires '/' !in a && Joined(Split(rest, '/')) == rest && s == a + ['/'] + rest
    ensures Joined(Split(s, '/')) == s
  {
    SplitAt(a, rest, '/');
    JoinedCons(a, Split(rest, '/'));
  }

  /** Joining the pieces of a path gives it back. */
  lemma {:induction false} JoinSplit(s: string)
    ensures Joined(Split(s, '/')) == s
    decreases |s|
  {
    if '/' in s {
      var a, rest := CutAtSlash(s);
      JoinSplit(rest);
      JoinSplitAt(a, rest, s);
    } else {
      SplitWhole(s, '/');
    }
  }

  /** Rooted, with something between its slashes and after the last. */
  predicate WellShaped(path: Path) {
    path != "" && path[0] == '/' && ValidParts(Split(path[1..], '/'))
  }

  /** A string with no slash at either end, and no two together, has no empty piece. */
  lemma {:induction false} PiecesNotEmpty(s: string)
    requires s != "" && s[0] != '/' && s[|s| - 1] != '/'
    requires forall i | 0 <= i < |s| - 1 :: s[i] != '/' || s[i + 1] != '/'
    ensures ValidParts(Split(s, '/'))
    decreases |s|
  {
    if '/' in s {
      FindSome(s);
      var i := Find(s, "/").value;
      PiecesNotEmpty(s[i + 1..]);
    } else {
      SplitWhole(s, '/');
    }
  }

  /** The shape rules admit only paths with something between their slashes and after the last. */
  lemma CheckedIsWellShaped(path: Path)
    requires CheckFilepath(path).None?
    ensures WellShaped(path)
  {
    var s := path[1..];
    IndexFirst(path, "//");
    forall i | 0 <= i < |path| - 1 ensures path[i] != '/' || path[i + 1] != '/' {
      assert !OccursAt(path, "//", i);
      assert path[i..i + 2] == [path[i], path[i + 1]];
    }
    assert path[|path| - 1] != '/';
    assert s != "" && s[0] == path[1] && s[|s| - 1] == path[|path| - 1];
    forall i | 0 <= i < |s| - 1 ensures s[i] != '/' || s[i + 1] != '/' {
      assert s[i] == path[i + 1] && s[i + 1] == path[i + 1 + 1];
    }
    PiecesNotEmpty(s);
  }

  lemma PiecesOfShaped(path: Path)
    requires WellShaped(path)
    ensures Split(path, '/') == [""] + Components(path) && Components(path) == Split(path[1..], '/')
            && Render(Components(path)) == path
  {
    var parts := Split(path[1..], '/');
    assert path == "" + "/" + path[1..];
    SplitTwo("", path[1..]);
    SplitWhole("", '/');
    JoinSplit(path[1..]);
    ComponentsOfRender(parts);
  }

  /** What lies under a path has it among its ancestors. */
  lemma UnderIsAncestor(p: Path, q: Path)
    requires WellShaped(q) && Under(p, q) && p != ""
    ensures exists i :: 1 <= i < |Components(q)| && Ancestor(q, i) == p
  {
    var rest := q[|p| + 1..];
    assert q == p + "/" + rest;
    SplitTwo(p, rest);
    PiecesOfShaped(q);
    var i := |Split(p, '/')| - 1;
    assert Split(q, '/')[..i + 1] == Split(p, '/');
    assert Split(p, '/') == [""] + Components(q)[..i];
    JoinSplit(p);
    assert i > 0;
    assert Split(p, '/')[1..] == Components(q)[..i];
    assert Ancestor(q, i) == p;
  }

  lemma {:induction false} JoinedTwo(a: seq<string>, b: seq<string>)
    requires a != [] && b != []
    ensures Joined(a + b) == Joined(a) + "/" + Joined(b)
  {
    assert (a + b)[1..] == a[1..] + b;
    if |a| > 1 {
      JoinedTwo(a[1..], b);
    }
  }

  /** An ancestor is what a path lies under. */
  lemma AncestorIsAbove(q: Path, i: nat)
    requires WellShaped(q) && 1 <= i < |Components(q)|
    ensures Under(Ancestor(q, i), q)
  {
    var parts := Components(q);
    PiecesOfShaped(q);
    assert parts == parts[..i] + parts[i..];
    JoinedTwo(parts[..i], parts[i..]);
    assert q == Ancestor(q, i) + "/" + Joined(parts[i..]);
  }

  lemma BelowIsUnder(p: Path, q: Path)
    requires p != "" && p[|p| - 1] != '/'
    ensures Below(p, q) <==> Under(p, q)
  {
    if Under(p, q) {
      assert q[..|p| + 1] == p + "/";
    }
    if p + "/" <= q {
      assert q[..|p|] == (p + "/")[..|p|] && q[|p|] == (p + "/")[|p|];
    }
  }

  /** A path passes the checks on the files above and below it exactly when it can join them and
      still no file lies under another. */
  lemma AdmittedIffPrefixFree(files: set<Path>, path: Path)
    requires WellShaped(path) && (forall p | p in files :: WellShaped(p)) && PrefixFree(files)
    ensures !HasAncestorFile(files, path) && !HasDescendantFile(files, path) <==> PrefixFree(files + {path})
  {
    PiecesOfShaped(path);
    NotSlashEnded(path);
    forall p | p in files
      ensures (Under(p, path) ==> HasAncestorFile(files, path)) && (Under(path, p) ==> HasDescendantFile(files, path))
    {
      if Under(p, path) {
        UnderIsAncestor(p, path);
      }
      BelowIsUnder(path, p);
    }
    assert !Under(path, path);
    forall i | 1 <= i < |Components(path)| && Ancestor(path, i) in files ensures !PrefixFree(files + {path}) {
      AncestorIsAbove(path, i);
    }
    forall f | f in files && Below(path, f) ensures !PrefixFree(files + {path}) {
      BelowIsUnder(path, f);
    }
  }

  lemma NotSlashEnded(path: Path)
    requires WellShaped(path)
    ensures path != "/" && path[|path| - 1] != '/'
  {
    var parts := Split(path[1..], '/');
    PiecesOfShaped(path);
    assert ValidPart(parts[|parts| - 1]);
    JoinedEnd(parts);
  }

  lemma {:induction false} JoinedEnd(parts: seq<string>)
    requires parts != [] && parts[|parts| - 1] != ""
    ensures Joined(parts) != "" && Joined(parts)[|Joined(parts)| - 1] == parts[|parts| - 1][|parts[|parts| - 1]| - 1]
  {
    if |parts| > 1 {
      JoinedEnd(parts[1..]);
    }
  }

  // ---- The index ----

  /** Which file, if any, the path lies under; and the checks a write makes, in order. */
  datatype WriteError = BadShape(Rejection) | Reserved | NotDirectory | IsDirectory

  class PathIndex {
    var files: map<Path, DocId>
    var byDocId: map<DocId, Path>

    /** The two maps are inverse. */
    ghost predicate Valid()
      reads this
    {
      && (forall p | p in files :: files[p] in byDocId && byDocId[files[p]] == p)
      && forall d | d in byDocId :: byDocId[d] in files && files[byDocId[d]] == d
    }

    constructor ()
      ensures Valid() && files == map[]
    {
      files, byDocId := map[], map[];
    }

    /** `insert`: the path's old document, if another, is forgotten. The maps stay inverse exactly
        unless the document was indexed under another path, which keeps naming it. */
    method Insert(path: Path, id: DocId)
      modifies this
      ensures files == old(files)[path := id]
      ensures
        var replaced := path in old(files) && old(files)[path] != id;
        byDocId == (if replaced then old(byDocId) - {old(files)[path]} else old(byDocId))[id := path]
      ensures old(Valid()) ==> (Valid() <==> (id in old(byDocId) ==> old(byDocId)[id] == path))
    {
      ghost var before, ids := files, byDocId;
      if path in files && files[path] != id {
        byDocId := byDocId - {files[path]};
      }
      files, byDocId := files[path := id], byDocId[id := path];
      if id in ids && ids[id] != path && (ids[id] in before && before[ids[id]] == id) {
        assert files[ids[id]] == id;
      }
    }

    method Remove(path: Path)
      modifies this
      ensures files == old(files) - {path}
      ensures byDocId == if path in old(files) then old(byDocId) - {old(files)[path]} else old(byDocId)
      ensures old(Valid()) ==> Valid()
    {
      if path in files {
        byDocId := byDocId - {files[path]};
      }
      files := files - {path};
    }

    /** `findAncestorFile`: the deepest file above the path. */
    method FindAncestorFile(path: Path) returns (r: Option<Path>)
      ensures r.Some? <==> HasAncestorFile(files.Keys, path)
      ensures r.Some? ==> exists i :: 1 <= i < |Components(path)| && r.value == Ancestor(path, i) && r.value in files
                                      && forall j | i < j < |Components(path)| :: Ancestor(path, j) !in files
    {
      var segments := Components(path);
      var i := |segments| - 1;
      while i >= 1
        invariant i < |segments|
        invariant forall j | i < j < |segments| && j >= 1 :: Ancestor(path, j) !in files
      {
        if Render(segments[..i]) in files {
          assert Ancestor(path, i) in files;
          return Some(Render(segments[..i]));
        }
        i := i - 1;
      }
      r := None;
    }

    /** `hasDescendant`: looks at every indexed path. */
    method HasDescendant(path: Path) returns (found: bool)
      ensures found == HasDescendantFile(files.Keys, path)
    {
      if path == "/" || path == "" {
        return false;
      }
      var rest := files.Keys;
      while rest != {}
        invariant rest <= files.Keys && forall f | f in files && f !in rest :: !Below(path, f)
        decreases |rest|
      {
        var f :| f in rest;
        if Below(path, f) {
          return true;
        }
        rest := rest - {f};
      }
      found := false;
    }

    /** `assertWritable`: shape, then reserved, then the files above, then those below. */
    method AssertWritable(path: Path) returns (e: Option<WriteError>)
      ensures e == WriteErrorFor(files.Keys, path)
    {
      var shape := CheckFilepath(path);
      if shape.Some? {
        return Some(BadShape(shape.value));
      }
      if path == RESERVED {
        return Some(Reserved);
      }
      var above := FindAncestorFile(path);
      if above.Some? {
        return Some(NotDirectory);
      }
      var below := HasDescendant(path);
      e := if below then Some(IsDirectory) else None;
    }
  }

  ghost function WriteErrorFor(files: set<Path>, path: Path): Option<WriteError> {
    if CheckFilepath(path).Some? then Some(BadShape(CheckFilepath(path).value))
    else if path == RESERVED then Some(Reserved)
    else if HasAncestorFile(files, path) then Some(NotDirectory)
    else if HasDescendantFile(files, path) then Some(IsDirectory)
    else None
  }
}
