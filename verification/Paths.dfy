/** Climbing from an inode to the root, walking back down, and creating directories on the way. */
module Paths {
  import opened Wrappers
  import opened Strings
  import opened Namespace
  import opened Refinement
  import opened LinkCounts

  type Dentries = map<Key, Ino>

  /** Follows names down from `i`. */
  function Walk(d: Dentries, i: Ino, parts: seq<Name>): Option<Ino>
    decreases |parts|
  {
    if parts == [] then Some(i)
    else if (i, parts[0]) in d then Walk(d, d[(i, parts[0])], parts[1..])
    else None
  }

  /** Every climb from `i` ends, at the root or at an inode without a name, within `n` steps. */
  predicate Halts(d: Dentries, i: Ino, n: nat)
    decreases n
  {
    i == ROOT || (n > 0 && forall k | k in Names(d, i) :: Halts(d, k.0, n - 1))
  }

  ghost predicate Climbable(d: Dentries, i: Ino) {
    exists n: nat :: Halts(d, i, n)
  }

  /** The tables form a tree: every climb from every inode ends. */
  ghost predicate TreeShaped(s: Sql) {
    forall i | i in s.inodes :: Climbable(s.dentries, i)
  }

  /** `i` is `top` or lies below it. */
  ghost predicate Beneath(d: Dentries, top: Ino, i: Ino) {
    exists q: seq<Name> :: Walk(d, top, q) == Some(i)
  }

  // ---- Walks ----

  lemma {:induction false} WalkAppend(d: Dentries, i: Ino, a: seq<Name>, b: seq<Name>)
    ensures Walk(d, i, a + b) == if Walk(d, i, a).None? then None else Walk(d, Walk(d, i, a).value, b)
    decreases |a|
  {
    if a == [] {
      assert a + b == b;
    } else {
      assert (a + b)[1..] == a[1..] + b;
      if (i, a[0]) in d {
        WalkAppend(d, d[(i, a[0])], a[1..], b);
      }
    }
  }

  /** The last step of a walk is an entry of the inode the walk reaches. */
  lemma WalkLast(d: Dentries, i: Ino, q: seq<Name>)
    requires q != [] && Walk(d, i, q).Some?
    ensures
      var up := Walk(d, i, q[..|q| - 1]);
      up.Some? && (up.value, q[|q| - 1]) in d && d[(up.value, q[|q| - 1])] == Walk(d, i, q).value
  {
    assert q == q[..|q| - 1] + [q[|q| - 1]];
    WalkAppend(d, i, q[..|q| - 1], [q[|q| - 1]]);
  }

  lemma RootUnnamed(s: Sql)
    requires NamesExact(s)
    ensures forall k | k in s.dentries :: s.dentries[k] != ROOT
  {
    assert NamesExactAt(s, ROOT);
    forall k | k in s.dentries ensures s.dentries[k] != ROOT {
      assert k !in Names(s.dentries, ROOT);
    }
  }

  /** Two walks from the root to the same directory take the same path. */
  lemma {:induction false} DirectoryPathUnique(s: Sql, p: seq<Name>, q: seq<Name>)
    requires WellKept(s) && NamesExact(s)
    requires Walk(s.dentries, ROOT, p).Some? && Walk(s.dentries, ROOT, p) == Walk(s.dentries, ROOT, q)
    requires IsDir(s, Walk(s.dentries, ROOT, p).value)
    ensures p == q
    decreases |p|
  {
    RootUnnamed(s);
    if p != [] {
      WalkLast(s.dentries, ROOT, p);
    }
    if q != [] {
      WalkLast(s.dentries, ROOT, q);
    }
    if p != [] && q != [] {
      var kp := (Walk(s.dentries, ROOT, p[..|p| - 1]).value, p[|p| - 1]);
      var kq := (Walk(s.dentries, ROOT, q[..|q| - 1]).value, q[|q| - 1]);
      OnlyName(s, kp);
      assert kp == kq;
      DirectoryPathUnique(s, p[..|p| - 1], q[..|q| - 1]);
      assert p == p[..|p| - 1] + [p[|p| - 1]] && q == q[..|q| - 1] + [q[|q| - 1]];
    }
  }

  // ---- The climb ----

  lemma {:induction false} HaltsLater(d: Dentries, i: Ino, n: nat, n': nat)
    requires Halts(d, i, n) && n <= n'
    ensures Halts(d, i, n')
    decreases n
  {
    if i != ROOT {
      forall k | k in Names(d, i) ensures Halts(d, k.0, n' - 1) {
        HaltsLater(d, k.0, n - 1, n' - 1);
      }
    }
  }

  /** `resolve_filepath`: climbs from `ino` to the root, at each inode by any one of its entries,
      and prints the path found; `None` when it reaches an inode that has no entry. It takes at
      most `fuel` steps wherever every climb from `ino` ends within them. */
  method ResolveFilepath(s: Sql, ino: Ino, ghost fuel: nat) returns (r: Option<seq<Name>>)
    requires Halts(s.dentries, ino, fuel)
    ensures r.Some? ==> Walk(s.dentries, ROOT, r.value) == Some(ino)
    ensures WellKept(s) && NamesExact(s) && ino in s.inodes ==> r.Some?
  {
    var parts: seq<Name> := [];
    var current := ino;
    ghost var left := fuel;
    while current != ROOT
      invariant Halts(s.dentries, current, left)
      invariant Walk(s.dentries, current, parts) == Some(ino)
      invariant WellKept(s) && NamesExact(s) && ino in s.inodes ==> current in s.inodes
      decreases left
    {
      var entries := Names(s.dentries, current);
      if entries == {} {
        assert current in s.inodes && NamesExact(s) && WellKept(s) ==> NamesExactAt(s, current);
        return None;
      }
      var k :| k in entries;
      assert ([k.1] + parts)[1..] == parts;
      parts := [k.1] + parts;
      current := k.0;
      left := left - 1;
    }
    return Some(parts);
  }

  // ---- Creating the directories of a path ----

  /** One component of `ensure_dirs`: descend, or create a directory here. Nothing checks that the
      parent is one. */
  function EnsureStep(s: Sql, parent: Ino, part: Name, victims: set<Key>): (Sql, Ino) {
    var k := (parent, part);
    if k in s.dentries then (s, s.dentries[k])
    else
      var inodes := s.inodes[s.next := Inode(Dir, 2)];
      (Sql(if parent in inodes then inodes[parent := inodes[parent].(nlink := inodes[parent].nlink + 1)] else inodes,
           s.dentries[k := s.next], s.symlinks, s.next + 1, Cached(s.cache, k, s.next, victims)),
       s.next)
  }

  function EnsureAll(s: Sql, parent: Ino, parts: seq<Name>, victims: set<Key>): (Sql, Ino)
    decreases |parts|
  {
    if parts == [] then (s, parent)
    else
      var r := EnsureStep(s, parent, parts[0], victims);
      EnsureAll(r.0, r.1, parts[1..], victims)
  }

  lemma {:induction false} EnsureOneMore(s: Sql, parent: Ino, parts: seq<Name>, p: Name, victims: set<Key>)
    ensures
      var r := EnsureAll(s, parent, parts, victims);
      EnsureAll(s, parent, parts + [p], victims) == EnsureStep(r.0, r.1, p, victims)
    decreases |parts|
  {
    if parts == [] {
      assert [p][1..] == [];
    } else {
      var r := EnsureStep(s, parent, parts[0], victims);
      assert (parts + [p])[1..] == parts[1..] + [p];
      EnsureOneMore(r.0, r.1, parts[1..], p, victims);
    }
  }

  method EnsureDirs(s: Sql, path: string, victims: set<Key>) returns (t: Sql, ino: Ino)
    ensures (t, ino) == EnsureAll(s, ROOT, Components(path), victims)
  {
    var parts := Components(path);
    t, ino := s, ROOT;
    var n := 0;
    while n < |parts|
      invariant 0 <= n <= |parts|
      invariant (t, ino) == EnsureAll(s, ROOT, parts[..n], victims)
    {
      var part := parts[n];
      assert parts[..n + 1] == parts[..n] + [part];
      EnsureOneMore(s, ROOT, parts[..n], part, victims);
      if (ino, part) in t.dentries {
        ino := t.dentries[(ino, part)];
      } else {
        var made := t.next;
        var inodes := t.inodes[made := Inode(Dir, 2)];
        if ino in inodes {
          inodes := inodes[ino := inodes[ino].(nlink := inodes[ino].nlink + 1)];
        }
        t := Sql(inodes, t.dentries[(ino, part) := made], t.symlinks, made + 1,
          Cached(t.cache, (ino, part), made, victims));
        ino := made;
      }
      n := n + 1;
    }
    assert parts[..n] == parts;
  }

  /** A component has to be created below an inode that is not a directory. */
  predicate Blocked(s: Sql, parent: Ino, parts: seq<Name>)
    decreases |parts|
  {
    parts != []
    && if (parent, parts[0]) in s.dentries then Blocked(s, s.dentries[(parent, parts[0])], parts[1..])
       else !IsDir(s, parent)
  }

  /** Everything the tables keep: entries below directories, a coherent cache, exact counts. */
  ghost predicate Kept(s: Sql) {
    WellKept(s) && Coherent(s) && NamesExact(s) && DirsExact(s)
  }

  /** The tables only gained: old entries stay, old inodes keep their kind. */
  ghost predicate Extends(s: Sql, t: Sql) {
    && (forall k | k in s.dentries :: k in t.dentries && t.dentries[k] == s.dentries[k])
    && (forall i | i in s.inodes :: i in t.inodes && t.inodes[i].kind == s.inodes[i].kind)
  }

  lemma EnsureStepIsMkdir(s: Sql, parent: Ino, part: Name, victims: set<Key>)
    requires WellKept(s) && IsDir(s, parent) && (parent, part) !in s.dentries
    ensures EnsureStep(s, parent, part, victims) == (SqlAdd(s, parent, part, Inode(Dir, 2), None, 1, victims).0, s.next)
  {
  }

  lemma MkdirKeeps(s: Sql, parent: Ino, part: Name, victims: set<Key>)
    requires Kept(s) && IsDir(s, parent) && (parent, part) !in s.dentries
    ensures Kept(EnsureStep(s, parent, part, victims).0)
  {
    EnsureStepIsMkdir(s, parent, part, victims);
    AddKept(s, parent, part, Inode(Dir, 2), None, 1, victims);
    AddNames(s, parent, part, Inode(Dir, 2), None, 1, victims);
    AddDirs(s, parent, part, Inode(Dir, 2), None, 1, victims);
  }

  /** The new directory is named, and nothing is in it. */
  lemma MkdirExtends(s: Sql, parent: Ino, part: Name, victims: set<Key>)
    requires WellKept(s) && IsDir(s, parent) && (parent, part) !in s.dentries
    ensures
      var r := EnsureStep(s, parent, part, victims);
      Extends(s, r.0) && (parent, part) in r.0.dentries && r.0.dentries[(parent, part)] == r.1 && IsDir(r.0, r.1)
      && forall k | k in r.0.dentries :: k.0 != r.1
  {
  }

  lemma EnsureStepKeeps(s: Sql, parent: Ino, part: Name, victims: set<Key>)
    requires Kept(s) && (IsDir(s, parent) || (parent, part) in s.dentries)
    ensures
      var r := EnsureStep(s, parent, part, victims);
      Kept(r.0) && Extends(s, r.0) && (parent, part) in r.0.dentries && r.0.dentries[(parent, part)] == r.1
      && ((parent, part) !in s.dentries ==> IsDir(r.0, r.1) && forall k | k in r.0.dentries :: k.0 != r.1)
  {
    if (parent, part) !in s.dentries {
      MkdirKeeps(s, parent, part, victims);
      MkdirExtends(s, parent, part, victims);
    }
  }

  lemma TailNotBlocked(s: Sql, parent: Ino, parts: seq<Name>, victims: set<Key>)
    requires Kept(s) && parts != [] && !Blocked(s, parent, parts)
    ensures
      var r := EnsureStep(s, parent, parts[0], victims);
      Kept(r.0) && Extends(s, r.0) && (parent, parts[0]) in r.0.dentries && r.0.dentries[(parent, parts[0])] == r.1
      && !Blocked(r.0, r.1, parts[1..]) && ((parent, parts[0]) !in s.dentries ==> IsDir(r.0, r.1))
  {
    EnsureStepKeeps(s, parent, parts[0], victims);
    var r := EnsureStep(s, parent, parts[0], victims);
    if (parent, parts[0]) !in s.dentries {
      FreshNotBlocked(r.0, r.1, parts[1..]);
    }
  }

  lemma {:induction false} EnsureWalks(s: Sql, parent: Ino, parts: seq<Name>, victims: set<Key>)
    requires Kept(s) && !Blocked(s, parent, parts)
    ensures
      var r := EnsureAll(s, parent, parts, victims);
      Kept(r.0) && Extends(s, r.0) && Walk(r.0.dentries, parent, parts) == Some(r.1)
    decreases |parts|
  {
    if parts != [] {
      TailNotBlocked(s, parent, parts, victims);
      var r := EnsureStep(s, parent, parts[0], victims);
      EnsureWalks(r.0, r.1, parts[1..], victims);
    }
  }

  /** What a directory's missing path is made to lead to is a directory. */
  lemma {:induction false} EnsureEndsAtDirectory(s: Sql, parent: Ino, parts: seq<Name>, victims: set<Key>)
    requires Kept(s) && !Blocked(s, parent, parts) && (IsDir(s, parent) || Walk(s.dentries, parent, parts).None?)
    requires Walk(s.dentries, parent, parts).Some? ==> IsDir(s, Walk(s.dentries, parent, parts).value)
    ensures IsDir(EnsureAll(s, parent, parts, victims).0, EnsureAll(s, parent, parts, victims).1)
    decreases |parts|
  {
    if parts != [] {
      TailNotBlocked(s, parent, parts, victims);
      var r := EnsureStep(s, parent, parts[0], victims);
      if (parent, parts[0]) !in s.dentries {
        FreshLeadsNowhere(r.0, r.1, parts[1..], s, parent, parts[0], victims);
      } else if Walk(s.dentries, parent, parts).Some? && parts[1..] != [] {
        WalkPassesDirectory(s, r.1, parts[1..]);
      }
      EnsureEndsAtDirectory(r.0, r.1, parts[1..], victims);
    }
  }

  lemma FreshLeadsNowhere(t: Sql, i: Ino, parts: seq<Name>, s: Sql, parent: Ino, part: Name, victims: set<Key>)
    requires Kept(s) && (parent, part) !in s.dentries && IsDir(s, parent)
    requires EnsureStep(s, parent, part, victims) == (t, i)
    ensures parts != [] ==> Walk(t.dentries, i, parts).None?
  {
    EnsureStepKeeps(s, parent, part, victims);
  }

  lemma WalkPassesDirectory(s: Sql, i: Ino, parts: seq<Name>)
    requires WellKept(s) && parts != [] && Walk(s.dentries, i, parts).Some?
    ensures IsDir(s, i)
  {
  }

  /** Unless something has to be created below a file, the tables stay sound, nothing old changes,
      and the path leads to the returned inode: a directory, if it had to be made. */
  lemma EnsureReaches(s: Sql, parent: Ino, parts: seq<Name>, victims: set<Key>)
    requires Kept(s) && !Blocked(s, parent, parts)
    ensures
      var r := EnsureAll(s, parent, parts, victims);
      Kept(r.0) && Extends(s, r.0) && Walk(r.0.dentries, parent, parts) == Some(r.1)
      && (IsDir(s, parent) && Walk(s.dentries, parent, parts).None? ==> IsDir(r.0, r.1))
  {
    EnsureWalks(s, parent, parts, victims);
    if IsDir(s, parent) && Walk(s.dentries, parent, parts).None? {
      EnsureEndsAtDirectory(s, parent, parts, victims);
    }
  }

  lemma {:induction false} StaysBroken(s: Sql, k: Key, parent: Ino, parts: seq<Name>, victims: set<Key>)
    requires k in s.dentries && k.0 < s.next && !IsDir(s, k.0)
    ensures !WellKept(EnsureAll(s, parent, parts, victims).0)
    decreases |parts|
  {
    if parts != [] {
      var r := EnsureStep(s, parent, parts[0], victims);
      assert r.0.dentries[k] == s.dentries[k];
      StaysBroken(r.0, k, r.1, parts[1..], victims);
    }
  }

  lemma {:induction false} BlockedBreaks(s: Sql, parent: Ino, parts: seq<Name>, victims: set<Key>)
    requires WellKept(s) && Blocked(s, parent, parts) && parent < s.next
    ensures !WellKept(EnsureAll(s, parent, parts, victims).0)
    decreases |parts|
  {
    var k := (parent, parts[0]);
    var r := EnsureStep(s, parent, parts[0], victims);
    if k in s.dentries {
      BlockedBreaks(s, s.dentries[k], parts[1..], victims);
    } else {
      StaysBroken(r.0, k, r.1, parts[1..], victims);
    }
  }

  /** Creating the directories of a path keeps the tables sound exactly unless one of them has to
      be created below something that is not a directory. */
  lemma EnsureSoundIff(s: Sql, parts: seq<Name>, victims: set<Key>)
    requires Kept(s)
    ensures Kept(EnsureAll(s, ROOT, parts, victims).0) <==> !Blocked(s, ROOT, parts)
  {
    if Blocked(s, ROOT, parts) {
      BlockedBreaks(s, ROOT, parts, victims);
    } else {
      EnsureReaches(s, ROOT, parts, victims);
    }
  }

  lemma {:induction false} FreshNotBlocked(s: Sql, i: Ino, parts: seq<Name>)
    requires IsDir(s, i) && forall k | k in s.dentries :: k.0 != i
    ensures !Blocked(s, i, parts)
  {
  }

  lemma {:induction false} EnsureExisting(s: Sql, parent: Ino, parts: seq<Name>, victims: set<Key>)
    requires Walk(s.dentries, parent, parts).Some?
    ensures EnsureAll(s, parent, parts, victims) == (s, Walk(s.dentries, parent, parts).value)
    decreases |parts|
  {
    if parts != [] {
      EnsureExisting(s, s.dentries[(parent, parts[0])], parts[1..], victims);
    }
  }

  // ---- Which operations keep the tables a tree ----

  /** `src` may take the place of `dst`: another inode of its kind, and empty if a directory. */
  predicate CanReplace(s: Sql, src: Ino, dst: Ino) {
    dst != src && dst in s.inodes && (IsDir(s, src) <==> IsDir(s, dst)) && (IsDir(s, dst) ==> !HasEntries(s, dst))
  }

  /** The rename is one the tables allow, and moves an inode below itself. */
  ghost predicate MovesBeneathItself(s: Sql, op: Op) {
    op.Rename? && NameError(op).None?
    && var from, to := (op.oldParent, op.oldName), (op.newParent, op.newName);
       && from in s.dentries && s.dentries[from] in s.inodes && IsDir(s, to.0)
       && (to in s.dentries ==> CanReplace(s, s.dentries[from], s.dentries[to]))
       && Beneath(s.dentries, s.dentries[from], to.0)
  }

  /** Fewer entries, no longer climbs. */
  lemma {:induction false} HaltsFewer(d: Dentries, d': Dentries, i: Ino, n: nat)
    requires Halts(d, i, n) && forall k | k in d' :: k in d && d[k] == d'[k]
    ensures Halts(d', i, n)
    decreases n
  {
    if i != ROOT {
      forall k | k in Names(d', i) ensures Halts(d', k.0, n - 1) {
        assert k in Names(d, i);
        HaltsFewer(d, d', k.0, n - 1);
      }
    }
  }

  lemma BeneathChild(d: Dentries, top: Ino, k: Key)
    requires k in d && Beneath(d, top, k.0)
    ensures Beneath(d, top, d[k])
  {
    var q :| Walk(d, top, q) == Some(k.0);
    WalkAppend(d, top, q, [k.1]);
    assert Walk(d, k.0, [k.1]) == Walk(d, d[k], []) == Some(d[k]);
  }

  /** A climb from outside the part below `top` never meets a new entry of `top`. */
  lemma {:induction false} HaltsOutside(d: Dentries, k: Key, top: Ino, i: Ino, n: nat)
    requires k !in d && Halts(d, i, n) && !Beneath(d, top, i)
    ensures Halts(d[k := top], i, n)
    decreases n
  {
    if i != ROOT {
      forall j | j in Names(d[k := top], i) ensures Halts(d[k := top], j.0, n - 1) {
        assert Walk(d, top, []) == Some(top);
        assert j in Names(d, i);
        if Beneath(d, top, j.0) {
          BeneathChild(d, top, j);
        }
        HaltsOutside(d, k, top, j.0, n - 1);
      }
    }
  }

  /** A new entry whose parent is not below what it names lengthens climbs by a bounded amount. */
  lemma {:induction false} HaltsAdded(d: Dentries, k: Key, top: Ino, up: nat, i: Ino, n: nat)
    requires k !in d && !Beneath(d, top, k.0) && Halts(d, k.0, up) && Halts(d, i, n)
    ensures Halts(d[k := top], i, n + up + 1)
    decreases n
  {
    if i != ROOT {
      forall j | j in Names(d[k := top], i) ensures Halts(d[k := top], j.0, n + up) {
        if j == k {
          HaltsOutside(d, k, top, k.0, up);
          HaltsLater(d[k := top], k.0, up, n + up);
        } else {
          assert j in Names(d, i);
          HaltsAdded(d, k, top, up, j.0, n - 1);
        }
      }
    }
  }

  /** A climb passes through everything it is below, unless it meets the root first. */
  lemma {:induction false} ClimbPasses(d: Dentries, top: Ino, q: seq<Name>, n: nat)
    requires Walk(d, top, q).Some? && Halts(d, Walk(d, top, q).value, n)
    requires forall k | k in d :: d[k] != ROOT
    ensures |q| <= n && Halts(d, top, n - |q|)
    decreases |q|
  {
    if q != [] {
      WalkLast(d, top, q);
      var up := q[..|q| - 1];
      var k := (Walk(d, top, up).value, q[|q| - 1]);
      assert k in Names(d, Walk(d, top, q).value);
      ClimbPasses(d, top, up, n - 1);
    }
  }

  /** No climb from a cycle ends. */
  lemma {:induction false} CyclesNeverHalt(d: Dentries, i: Ino, q: seq<Name>, n: nat)
    requires q != [] && Walk(d, i, q) == Some(i) && i != ROOT && forall k | k in d :: d[k] != ROOT
    ensures !Halts(d, i, n)
    decreases n
  {
    if Halts(d, i, n) {
      ClimbPasses(d, i, q, n);
      CyclesNeverHalt(d, i, q, n - |q|);
    }
  }

  /** The entries a rename leaves before it adds the moved one. */
  function Emptied(s: Sql, from: Key, to: Key): Dentries {
    s.dentries - {from, to}
  }

  /** In a tree nothing below an inode holds an entry of that inode. */
  lemma NoEntryFromBelow(s: Sql, k: Key)
    requires NamesExact(s) && k in s.dentries && Climbable(s.dentries, s.dentries[k])
    ensures !Beneath(s.dentries, s.dentries[k], k.0)
  {
    var d, top := s.dentries, s.dentries[k];
    if Beneath(d, top, k.0) {
      var p :| Walk(d, top, p) == Some(k.0);
      WalkAppend(d, top, p, [k.1]);
      assert Walk(d, k.0, [k.1]) == Walk(d, top, []) == Some(top);
      RootUnnamed(s);
      var n: nat :| Halts(d, top, n);
      CyclesNeverHalt(d, top, p + [k.1], n);
    }
  }

  /** A walk down from an inode of a tree never uses the inode's own entry, nor the entry of an
      empty one. */
  lemma {:induction false} WalkSurvives(s: Sql, from: Key, to: Key, i: Ino, q: seq<Name>)
    requires NamesExact(s) && from in s.dentries && Walk(s.dentries, i, q) == Some(to.0)
    requires Climbable(s.dentries, s.dentries[from]) && Beneath(s.dentries, s.dentries[from], i)
    requires to in s.dentries ==> s.dentries[to] != to.0 && forall k | k in s.dentries :: k.0 != s.dentries[to]
    ensures Walk(Emptied(s, from, to), i, q) == Some(to.0)
    decreases |q|
  {
    if q != [] {
      var k := (i, q[0]);
      BeneathChild(s.dentries, s.dentries[from], k);
      NoEntryFromBelow(s, from);
      WalkSurvives(s, from, to, s.dentries[k], q[1..]);
    }
  }

  lemma RenamedTables(s: Sql, from: Key, to: Key, victims: set<Key>)
    requires SqlRename(s, from, to, victims).1.Ok? && (to in s.dentries ==> s.dentries[to] != s.dentries[from])
    ensures
      var r := SqlRename(s, from, to, victims).0;
      r.dentries == Emptied(s, from, to)[to := s.dentries[from]] && r.inodes.Keys <= s.inodes.Keys
      && s.dentries[from] in r.inodes && to.0 in s.inodes
      && (to in s.dentries ==> IsDir(s, s.dentries[to]) ==> !HasEntries(s, s.dentries[to]))
  {
    var r := SqlRename(s, from, to, victims).0;
    if to in s.dentries {
      assert r.dentries == (s.dentries - {to} - {from})[to := s.dentries[from]];
    } else {
      assert r.dentries == (s.dentries - {from})[to := s.dentries[from]];
    }
  }

  /** A rename keeps every climb finite exactly unless it moves an inode below itself; then no
      climb from that inode ever ends again. */
  lemma RenameTree(s: Sql, r: Sql, from: Key, to: Key)
    requires WellKept(s) && NamesExact(s) && TreeShaped(s) && from in s.dentries && to.0 in s.inodes
    requires s.dentries[from] in r.inodes && r.inodes.Keys <= s.inodes.Keys
    requires to in s.dentries ==> IsDir(s, s.dentries[to]) ==> !HasEntries(s, s.dentries[to])
    requires r.dentries == Emptied(s, from, to)[to := s.dentries[from]]
    ensures TreeShaped(r) <==> !Beneath(s.dentries, s.dentries[from], to.0)
    ensures !TreeShaped(r) ==> forall n: nat :: !Halts(r.dentries, s.dentries[from], n)
  {
    if Beneath(s.dentries, s.dentries[from], to.0) {
      RenameCycles(s, from, to, r.dentries);
      assert !Climbable(r.dentries, s.dentries[from]);
    } else {
      forall i | i in r.inodes ensures Climbable(r.dentries, i) {
        RenameClimbs(s, from, to, i);
      }
    }
  }

  lemma RenameCycles(s: Sql, from: Key, to: Key, d': Dentries)
    requires WellKept(s) && NamesExact(s) && TreeShaped(s) && from in s.dentries && s.dentries[from] in s.inodes
    requires to in s.dentries ==> IsDir(s, s.dentries[to]) ==> !HasEntries(s, s.dentries[to])
    requires d' == Emptied(s, from, to)[to := s.dentries[from]] && Beneath(s.dentries, s.dentries[from], to.0)
    ensures forall n: nat :: !Halts(d', s.dentries[from], n)
  {
    var src := s.dentries[from];
    var q :| Walk(s.dentries, src, q) == Some(to.0);
    assert Walk(s.dentries, src, []) == Some(src);
    if to in s.dentries {
      FileHasNoEntries(s, s.dentries[to]);
      assert to.0 != s.dentries[to];
    }
    WalkSurvives(s, from, to, src, q);
    CycleAfterRename(s, from, to, d', q);
  }

  lemma FileHasNoEntries(s: Sql, i: Ino)
    requires WellKept(s) && (IsDir(s, i) ==> !HasEntries(s, i))
    ensures !HasEntries(s, i)
  {
  }

  lemma CycleAfterRename(s: Sql, from: Key, to: Key, d': Dentries, q: seq<Name>)
    requires NamesExact(s) && from in s.dentries && d' == Emptied(s, from, to)[to := s.dentries[from]]
    requires Walk(Emptied(s, from, to), s.dentries[from], q) == Some(to.0)
    ensures forall n: nat :: !Halts(d', s.dentries[from], n)
  {
    var src := s.dentries[from];
    WalkMore(Emptied(s, from, to), d', src, q);
    WalkAppend(d', src, q, [to.1]);
    assert Walk(d', to.0, [to.1]) == Walk(d', src, []) == Some(src);
    RootUnnamed(s);
    forall n: nat ensures !Halts(d', src, n) {
      CyclesNeverHalt(d', src, q + [to.1], n);
    }
  }

  lemma {:induction false} WalkMore(d: Dentries, d': Dentries, i: Ino, q: seq<Name>)
    requires Walk(d, i, q).Some? && forall k | k in d :: k in d' && d'[k] == d[k]
    ensures Walk(d', i, q) == Walk(d, i, q)
    decreases |q|
  {
    if q != [] {
      WalkMore(d, d', d[(i, q[0])], q[1..]);
    }
  }

  lemma RenameClimbs(s: Sql, from: Key, to: Key, i: Ino)
    requires TreeShaped(s) && from in s.dentries && i in s.inodes && to.0 in s.inodes
    requires !Beneath(s.dentries, s.dentries[from], to.0)
    ensures Climbable(Emptied(s, from, to)[to := s.dentries[from]], i)
  {
    var d, rest, src := s.dentries, Emptied(s, from, to), s.dentries[from];
    assert Climbable(d, i) && Climbable(d, to.0);
    var n: nat :| Halts(d, i, n);
    var up: nat :| Halts(d, to.0, up);
    HaltsFewer(d, rest, i, n);
    HaltsFewer(d, rest, to.0, up);
    if Beneath(rest, src, to.0) {
      var q :| Walk(rest, src, q) == Some(to.0);
      WalkMore(rest, d, src, q);
    }
    HaltsAdded(rest, to, src, up, i, n);
  }

  lemma FewerTree(s: Sql, r: Sql)
    requires TreeShaped(s) && r.inodes.Keys <= s.inodes.Keys
    requires forall k | k in r.dentries :: k in s.dentries && s.dentries[k] == r.dentries[k]
    ensures TreeShaped(r)
  {
    forall i | i in r.inodes ensures Climbable(r.dentries, i) {
      assert Climbable(s.dentries, i);
      var n: nat :| Halts(s.dentries, i, n);
      HaltsFewer(s.dentries, r.dentries, i, n);
    }
  }

  /** A new entry for a new inode, or for one without entries of its own. */
  lemma AddedTree(s: Sql, r: Sql, k: Key, i: Ino)
    requires TreeShaped(s) && k !in s.dentries && k.0 in s.inodes && k.0 != i
    requires forall j | j in s.dentries :: j.0 != i
    requires i !in s.inodes ==> forall j | j in s.dentries :: s.dentries[j] != i
    requires r.dentries == s.dentries[k := i] && r.inodes.Keys == s.inodes.Keys + {i}
    ensures TreeShaped(r)
  {
    var d := s.dentries;
    assert Climbable(d, k.0);
    var up: nat :| Halts(d, k.0, up);
    forall q: seq<Name> ensures Walk(d, i, q) != Some(k.0) {
    }
    forall j | j in r.inodes ensures Climbable(r.dentries, j) {
      if j in s.inodes {
        assert Climbable(d, j);
      } else {
        assert Names(d, j) == {};
        assert Halts(d, j, 1);
      }
      var n: nat :| Halts(d, j, n);
      HaltsAdded(d, k, i, up, j, n);
    }
  }

  lemma StepAddTree(s: Sql, p: Ino, n: Name, row: Inode, target: Option<string>, up: nat, victims: set<Key>)
    requires WellKept(s) && NamesExact(s) && TreeShaped(s)
    ensures TreeShaped(SqlAdd(s, p, n, row, target, up, victims).0)
  {
    if SqlAdd(s, p, n, row, target, up, victims).1.Ok? {
      AddedTree(s, SqlAdd(s, p, n, row, target, up, victims).0, (p, n), s.next);
    }
  }

  lemma StepRmdirTree(s: Sql, p: Ino, n: Name)
    requires TreeShaped(s)
    ensures TreeShaped(SqlRmdir(s, p, n).0)
  {
    FewerTree(s, SqlRmdir(s, p, n).0);
  }

  lemma StepUnlinkTree(s: Sql, p: Ino, n: Name)
    requires TreeShaped(s)
    ensures TreeShaped(SqlUnlink(s, p, n).0)
  {
    FewerTree(s, SqlUnlink(s, p, n).0);
  }

  lemma StepHardlinkTree(s: Sql, i: Ino, p: Ino, n: Name, victims: set<Key>)
    requires WellKept(s) && TreeShaped(s)
    ensures TreeShaped(SqlHardlink(s, i, p, n, victims).0)
  {
    if SqlHardlink(s, i, p, n, victims).1.Ok? {
      AddedTree(s, SqlHardlink(s, i, p, n, victims).0, (p, n), i);
    }
  }

  /** Every operation keeps the tables a tree, exactly unless it moves an inode below itself. */
  lemma StepTree(s: Sql, op: Op, victims: set<Key>)
    requires WellKept(s) && NamesExact(s) && TreeShaped(s)
    ensures TreeShaped(SqlStep(s, op, victims).0) <==> !MovesBeneathItself(s, op)
  {
    if NameError(op).None? {
      match op
      case Lookup(_, _) => FewerTree(s, SqlStep(s, op, victims).0);
      case Readlink(_) =>
      case Mkdir(p, n) => StepAddTree(s, p, n, Inode(Dir, 2), None, 1, victims);
      case Create(p, n) => StepAddTree(s, p, n, Inode(Regular, 1), None, 0, victims);
      case Symlink(p, n, target) => StepAddTree(s, p, n, Inode(SymLink, 1), Some(target), 0, victims);
      case Rmdir(p, n) => StepRmdirTree(s, p, n);
      case Unlink(p, n) => StepUnlinkTree(s, p, n);
      case Hardlink(i, p, n) => StepHardlinkTree(s, i, p, n, victims);
      case Rename(_, _, _, _) => StepRenameTree(s, op, victims);
    }
  }

  lemma StepRenameTree(s: Sql, op: Op, victims: set<Key>)
    requires WellKept(s) && NamesExact(s) && TreeShaped(s) && op.Rename? && NameError(op).None?
    ensures TreeShaped(SqlStep(s, op, victims).0) <==> !MovesBeneathItself(s, op)
  {
    var from, to := (op.oldParent, op.oldName), (op.newParent, op.newName);
    if SqlRename(s, from, to, victims).1.Ok? && (to in s.dentries ==> s.dentries[to] != s.dentries[from]) {
      RenamedTables(s, from, to, victims);
      RenameTree(s, SqlRename(s, from, to, victims).0, from, to);
    }
  }

  ghost predicate NeverBeneathItself(s: Sql, es: seq<Event>)
    decreases |es|
  {
    es == [] || (!MovesBeneathItself(s, es[0].op) && NeverBeneathItself(SqlStep(s, es[0].op, es[0].victims).0, es[1..]))
  }

  /** Over every run that moves no directory below itself and replaces no file with other names,
      the tables stay a tree, so every climb ends and prints a path that leads back. */
  lemma {:induction false} RunStaysTree(m: Mem, s: Sql, es: seq<Event>)
    requires Related(m, s) && NamesExact(s) && TreeShaped(s)
    requires NeverOverwritesShared(s, es) && NeverBeneathItself(s, es)
    ensures TreeShaped(RunSql(s, es)) && NamesExact(RunSql(s, es)) && WellKept(RunSql(s, es))
    decreases |es|
  {
    if es != [] {
      NothingDanglesNothingParts(s, es[0].op);
      StepRefines(m, s, es[0].op, es[0].victims);
      StepNames(s, es[0].op, es[0].victims);
      StepTree(s, es[0].op, es[0].victims);
      RunStaysTree(MemStep(m, es[0].op).0, SqlStep(s, es[0].op, es[0].victims).0, es[1..]);
    }
  }

  // ---- Resolving what was created ----

  lemma EnsureStepTree(s: Sql, parent: Ino, part: Name, victims: set<Key>)
    requires Kept(s) && TreeShaped(s) && (IsDir(s, parent) || (parent, part) in s.dentries)
    ensures TreeShaped(EnsureStep(s, parent, part, victims).0)
  {
    if (parent, part) !in s.dentries {
      EnsureStepIsMkdir(s, parent, part, victims);
      StepAddTree(s, parent, part, Inode(Dir, 2), None, 1, victims);
    }
  }

  /** Creating directories keeps the tables a tree, unless one would be created below a file. */
  lemma {:induction false} EnsureTree(s: Sql, parent: Ino, parts: seq<Name>, victims: set<Key>)
    requires Kept(s) && TreeShaped(s) && !Blocked(s, parent, parts)
    ensures TreeShaped(EnsureAll(s, parent, parts, victims).0)
    decreases |parts|
  {
    if parts != [] {
      TailNotBlocked(s, parent, parts, victims);
      EnsureStepTree(s, parent, parts[0], victims);
      var r := EnsureStep(s, parent, parts[0], victims);
      EnsureTree(r.0, r.1, parts[1..], victims);
    }
  }

  /** A climb from what a path leads to can only print that path, if it is a directory. */
  lemma ClimbsBack(s: Sql, path: string, victims: set<Key>, climbed: seq<Name>)
    requires Kept(s) && !Blocked(s, ROOT, Components(path))
    requires Walk(s.dentries, ROOT, Components(path)).Some? ==> IsDir(s, Walk(s.dentries, ROOT, Components(path)).value)
    requires
      var r := EnsureAll(s, ROOT, Components(path), victims);
      Walk(r.0.dentries, ROOT, climbed) == Some(r.1)
    ensures climbed == Components(path)
  {
    var parts := Components(path);
    var r := EnsureAll(s, ROOT, parts, victims);
    EnsureReaches(s, ROOT, parts, victims);
    if Walk(s.dentries, ROOT, parts).Some? {
      EnsureExisting(s, ROOT, parts, victims);
    }
    DirectoryPathUnique(r.0, climbed, parts);
  }

  lemma ReachedExists(s: Sql, parts: seq<Name>)
    requires NamesExact(s) && Walk(s.dentries, ROOT, parts).Some?
    ensures Walk(s.dentries, ROOT, parts).value in s.inodes
  {
    if parts != [] {
      WalkLast(s.dentries, ROOT, parts);
    }
  }

  /** `resolve_filepath(ensure_dirs(p)) == p`: in tables that are a tree, creating the directories of
      a path and climbing back from the last ends, and prints that path without its empty components,
      unless something would have to be created below a file; when the whole path names a file, it
      prints some path of that file. */
  method EnsureThenResolve(s: Sql, path: string, victims: set<Key>) returns (printed: Option<seq<Name>>)
    requires Kept(s) && TreeShaped(s) && !Blocked(s, ROOT, Components(path))
    ensures printed.Some?
    ensures
      var t := EnsureAll(s, ROOT, Components(path), victims);
      Walk(t.0.dentries, ROOT, printed.value) == Some(t.1) == Walk(t.0.dentries, ROOT, Components(path))
    ensures
      var found := Walk(s.dentries, ROOT, Components(path));
      (found.Some? ==> IsDir(s, found.value)) ==> printed == Some(Components(path))
  {
    EnsureReaches(s, ROOT, Components(path), victims);
    EnsureTree(s, ROOT, Components(path), victims);
    var t, ino := EnsureDirs(s, path, victims);
    ReachedExists(t, Components(path));
    assert Climbable(t.dentries, ino);
    ghost var fuel: nat :| Halts(t.dentries, ino, fuel);
    printed := ResolveFilepath(t, ino, fuel);
    var found := Walk(s.dentries, ROOT, Components(path));
    if found.Some? ==> IsDir(s, found.value) {
      ClimbsBack(s, path, victims, printed.value);
    }
  }
}
