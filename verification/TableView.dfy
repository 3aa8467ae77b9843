/** The stored tables against the cache as it looks from outside: reconciling and scanning rows does
    to the paths what it should, exactly unless it moves or removes something with entries below. */
module TableView {
  import opened Wrappers
  import opened Paths
  import opened Reconcile
  import opened SyncedTables
  import opened Convergence
  import opened LinkCounts
  import Namespace

  type Key = Namespace.Key

  // ---- Paths in a table of entries ----

  /** No inode has two entries, and the root has none: no two paths lead to one inode. */
  ghost predicate OneEntryEach(d: Dentries) {
    (forall k | k in d :: d[k] != ROOT) && forall j, k | j in d && k in d && d[j] == d[k] :: j == k
  }

  ghost predicate Reached(d: Dentries, i: Ino) {
    exists l: Location :: Walk(d, ROOT, l) == Some(i)
  }

  /** A tree all of whose entries can be reached, with inode numbers below `next`. */
  ghost predicate Sound(d: Dentries, next: Ino) {
    ROOT < next && OneEntryEach(d) && forall k | k in d :: Reached(d, k.0) && k.0 < next && d[k] < next
  }

  /** Nothing is filed below the inode. */
  ghost predicate Leaf(d: Dentries, i: Ino) {
    forall k | k in d :: k.0 != i
  }

  function Found(names: map<Location, Ino>, l: Location): Option<Ino> {
    if l in names then Some(names[l]) else None
  }

  /** Walking the entries finds what the paths name. */
  ghost predicate LooksAs(d: Dentries, names: map<Location, Ino>) {
    [] !in names && forall l: Location | l != [] :: Walk(d, ROOT, l) == Found(names, l)
  }

  lemma WalkSnoc(d: Dentries, i: Ino, l: Location, c: string)
    ensures
      var up := Walk(d, i, l);
      Walk(d, i, l + [c]) == if up.Some? && (up.value, c) in d then Some(d[(up.value, c)]) else None
  {
    WalkAppend(d, i, l, [c]);
    var up := Walk(d, i, l);
    if up.Some? && (up.value, c) in d {
      assert Walk(d, up.value, [c]) == Walk(d, d[(up.value, c)], []);
    }
  }

  lemma Snoc(l: Location)
    requires l != []
    ensures l == l[..|l| - 1] + [l[|l| - 1]]
  {
  }

  lemma {:induction false} PathUnique(d: Dentries, p: Location, q: Location)
    requires OneEntryEach(d) && Walk(d, ROOT, p).Some? && Walk(d, ROOT, p) == Walk(d, ROOT, q)
    ensures p == q
    decreases |p|
  {
    if p != [] {
      WalkLast(d, ROOT, p);
    }
    if q != [] {
      WalkLast(d, ROOT, q);
    }
    if p != [] && q != [] {
      PathUnique(d, p[..|p| - 1], q[..|q| - 1]);
      Snoc(p);
      Snoc(q);
    }
  }

  /** A new entry for an inode with nothing below it adds one path, and changes no other. */
  lemma {:induction false} WalkAdded(d: Dentries, k: Key, i: Ino, r: Ino, l: Location)
    requires k !in d && Leaf(d, i) && k.0 != i
    ensures
      Walk(d[k := i], r, l)
      == if l != [] && Walk(d, r, l[..|l| - 1]) == Some(k.0) && l[|l| - 1] == k.1 then Some(i) else Walk(d, r, l)
    decreases |l|
  {
    if l != [] {
      var init, c := l[..|l| - 1], l[|l| - 1];
      Snoc(l);
      WalkAdded(d, k, i, r, init);
      WalkSnoc(d, r, init, c);
      WalkSnoc(d[k := i], r, init, c);
      if init != [] && Walk(d, r, init[..|init| - 1]) == Some(k.0) && init[|init| - 1] == k.1 {
        Snoc(init);
        WalkSnoc(d, r, init[..|init| - 1], init[|init| - 1]);
      }
    }
  }

  /** Dropping the only entry of an inode with nothing below it takes away its paths, and no other. */
  lemma {:induction false} WalkDropped(d: Dentries, k: Key, r: Ino, l: Location)
    requires k in d && Leaf(d, d[k]) && r != d[k] && forall j | j in d && d[j] == d[k] :: j == k
    ensures Walk(d - {k}, r, l) == if Walk(d, r, l) == Some(d[k]) then None else Walk(d, r, l)
    decreases |l|
  {
    if l != [] {
      var init, c := l[..|l| - 1], l[|l| - 1];
      Snoc(l);
      WalkDropped(d, k, r, init);
      WalkSnoc(d, r, init, c);
      WalkSnoc(d - {k}, r, init, c);
    }
  }

  /** The inode has neither an entry nor entries below it, and is not the root. */
  ghost predicate Unused(d: Dentries, i: Ino) {
    i != ROOT && Leaf(d, i) && forall k | k in d :: d[k] != i
  }

  /** Adding an entry under the path `q` names one more path. */
  lemma AddName(d: Dentries, names: map<Location, Ino>, q: Location, k: Key, i: Ino)
    requires LooksAs(d, names) && OneEntryEach(d) && Walk(d, ROOT, q) == Some(k.0) && k !in d && Leaf(d, i) && i != k.0
    ensures LooksAs(d[k := i], names[q + [k.1] := i])
  {
    var d' := d[k := i];
    forall l: Location | l != [] ensures Walk(d', ROOT, l) == Found(names[q + [k.1] := i], l) {
      WalkAdded(d, k, i, ROOT, l);
      Snoc(l);
      if Walk(d, ROOT, l[..|l| - 1]) == Some(k.0) && l[|l| - 1] == k.1 {
        PathUnique(d, q, l[..|l| - 1]);
      } else {
        assert l != q + [k.1];
      }
    }
  }

  lemma AddReached(d: Dentries, k: Key, i: Ino, j: Ino)
    requires Reached(d, j) && k !in d && Unused(d, i) && k.0 != i
    ensures Reached(d[k := i], j)
  {
    var l: Location :| Walk(d, ROOT, l) == Some(j);
    WalkAdded(d, k, i, ROOT, l);
    if l != [] {
      Snoc(l);
      WalkSnoc(d, ROOT, l[..|l| - 1], l[|l| - 1]);
    }
    assert Walk(d[k := i], ROOT, l) == Some(j);
  }

  lemma AddSound(d: Dentries, next: Ino, k: Key, i: Ino, next': Ino)
    requires Sound(d, next) && Reached(d, k.0) && k.0 < next && k !in d && Unused(d, i) && i != k.0 && i < next'
             && next <= next'
    ensures Sound(d[k := i], next')
  {
    forall j | j in d[k := i] ensures Reached(d[k := i], j.0) {
      AddReached(d, k, i, j.0);
    }
  }

  /** The locations an inode has among the paths. */
  function Spots(names: map<Location, Ino>, i: Ino): set<Location> {
    set l | l in names && names[l] == i
  }

  lemma PathHasEntry(d: Dentries, names: map<Location, Ino>, l: Location, i: Ino)
    requires LooksAs(d, names) && l in Spots(names, i)
    ensures Names(d, i) != {}
  {
    WalkLast(d, ROOT, l);
    assert (Walk(d, ROOT, l[..|l| - 1]).value, l[|l| - 1]) in Names(d, i);
  }

  /** The one path of an entry. */
  lemma EntryHasPath(d: Dentries, names: map<Location, Ino>, k: Key) returns (l: Location)
    requires LooksAs(d, names) && OneEntryEach(d) && k in d && Reached(d, k.0)
    ensures l != [] && Walk(d, ROOT, l[..|l| - 1]) == Some(k.0) && l[|l| - 1] == k.1 && Spots(names, d[k]) == {l}
  {
    var q: Location :| Walk(d, ROOT, q) == Some(k.0);
    WalkSnoc(d, ROOT, q, k.1);
    l := q + [k.1];
    assert l in Spots(names, d[k]) && l[..|l| - 1] == q;
    forall p | p in Spots(names, d[k]) ensures p == l {
      PathUnique(d, p, l);
    }
  }

  /** An inode has as many entries as paths: none, or one. */
  lemma EntriesArePaths(d: Dentries, names: map<Location, Ino>, next: Ino, i: Ino)
    requires LooksAs(d, names) && Sound(d, next)
    ensures |Names(d, i)| == |Spots(names, i)| <= 1
    ensures Names(d, i) == {} <==> Spots(names, i) == {}
  {
    if k :| k in Names(d, i) {
      var l := EntryHasPath(d, names, k);
      assert Names(d, i) == {k};
    } else {
      forall l | l in Spots(names, i) ensures Names(d, i) != {} {
        PathHasEntry(d, names, l, i);
      }
      assert Spots(names, i) == {};
    }
  }

  /** Dropping the entry of an inode with nothing below it drops its path. */
  lemma DropName(d: Dentries, names: map<Location, Ino>, next: Ino, k: Key)
    requires LooksAs(d, names) && Sound(d, next) && k in d && Leaf(d, d[k])
    ensures LooksAs(d - {k}, names - Spots(names, d[k])) && Sound(d - {k}, next) && Unused(d - {k}, d[k])
  {
    var d' := d - {k};
    forall l: Location | l != [] ensures Walk(d', ROOT, l) == Found(names - Spots(names, d[k]), l) {
      WalkDropped(d, k, ROOT, l);
    }
    forall j | j in d' ensures Reached(d', j.0) {
      var l: Location :| Walk(d, ROOT, l) == Some(j.0);
      WalkDropped(d, k, ROOT, l);
      assert Walk(d', ROOT, l) == Some(j.0);
    }
  }

  // ---- Tables and how they look ----

  /** From outside the tables are the cache `s`. */
  ghost predicate LooksLike(t: Tables, s: Local) {
    && LooksAs(t.names, s.names)
    && s == Store(s.names, t.dirs, t.content, t.dirty, t.derived, t.remote, t.next, t.watermark)
  }

  ghost predicate SoundTables(t: Tables) {
    Sound(t.names, t.next)
  }

  lemma NextIsUnused(t: Tables)
    requires SoundTables(t)
    ensures Unused(t.names, t.next)
  {
  }

  /** The tables look like `s`, and the path `q` has led to the inode. */
  ghost predicate Arrived(at: Spot, s: Local, q: Location) {
    LooksLike(at.tables, s) && SoundTables(at.tables) && At(at.tables, q) == Some(at.ino) && at.ino < at.tables.next
  }

  /** One component seen from outside. */
  function Stepped(s: Local, q: Location): Local {
    if q in s.names then s else s.(names := s.names[q := s.next], dirs := s.dirs + {s.next}, next := s.next + 1)
  }

  /** A new row under the parent a path has led to names one more path. */
  lemma NewRowLooks(at: Spot, s: Local, q: Location, c: string)
    requires Arrived(at, s, q)
    ensures (at.ino, c) in at.tables.names <==> q + [c] in s.names
    ensures (at.ino, c) in at.tables.names ==> at.tables.names[(at.ino, c)] == s.names[q + [c]]
    ensures (at.ino, c) !in at.tables.names ==>
              var i := at.tables.next;
              LooksAs(at.tables.names[(at.ino, c) := i], s.names[q + [c] := i])
                && Sound(at.tables.names[(at.ino, c) := i], i + 1)
  {
    var t, k := at.tables, (at.ino, c);
    WalkSnoc(t.names, ROOT, q, c);
    if k !in t.names {
      NextIsUnused(t);
      AddName(t.names, s.names, q, k, t.next);
      AddSound(t.names, t.next, k, t.next, t.next + 1);
    }
  }

  lemma StepLooks(at: Spot, s: Local, q: Location, c: string)
    requires Arrived(at, s, q)
    ensures Arrived(StepInto(at, c), Stepped(s, q + [c]), q + [c])
  {
    NewRowLooks(at, s, q, c);
  }

  lemma ArrivedOn(at: Spot, s: Local, l: Location, n: nat, at': Spot, s': Local)
    requires 0 < n <= |l| && Arrived(at, s, l[..n - 1])
    requires at' == StepInto(at, l[n - 1]) && s' == Stepped(s, l[..n])
    ensures Arrived(at', s', l[..n])
  {
    assert l[..n] == l[..n - 1] + [l[n - 1]];
    StepLooks(at, s, l[..n - 1], l[n - 1]);
  }

  lemma ArrivedAtRoot(t: Tables, s: Local, l: Location)
    requires LooksLike(t, s) && SoundTables(t)
    ensures Arrived(Spot(t, ROOT), s, l[..0])
  {
  }

  /** Creating the directories of a path in the rows looks as it should. */
  lemma {:induction false} EnsureLooks(t: Tables, s: Local, l: Location, n: nat)
    requires LooksLike(t, s) && SoundTables(t) && n <= |l|
    ensures Arrived(EnsureRows(t, l, n), EnsureUpTo(s, l, n), l[..n])
  {
    if n == 0 {
      ArrivedAtRoot(t, s, l);
    } else {
      EnsureLooks(t, s, l, n - 1);
      ArrivedOn(EnsureRows(t, l, n - 1), EnsureUpTo(s, l, n - 1), l, n, EnsureRows(t, l, n), EnsureUpTo(s, l, n));
    }
  }

  // ---- Moves ----

  /** Nothing is filed below the inode, and the path does not lead through it. */
  ghost predicate Movable(t: Tables, i: Ino, l: Location) {
    Leaf(t.names, i) && forall n | 0 < n < |l| :: At(t, l[..n]) != Some(i)
  }

  /** Creating directories neither files anything below an inode off the path, nor ends at it: it
      stays on the old path as long as there is one, and then goes through new inodes. */
  lemma {:induction false} EnsureAvoids(t: Tables, l: Location, n: nat, i: Ino)
    requires SoundTables(t) && n < |l| && Movable(t, i, l) && i < t.next && i != ROOT
    ensures
      var up := EnsureRows(t, l, n);
      && Leaf(up.tables.names, i) && up.ino != i && up.tables.next >= t.next
      && (up.ino >= t.next || (up.tables == t && At(t, l[..n]) == Some(up.ino)))
      && (forall k | k in up.tables.names && k !in t.names :: up.tables.names[k] >= t.next)
  {
    if n > 0 {
      EnsureAvoids(t, l, n - 1, i);
      assert l[..n] == l[..n - 1] + [l[n - 1]];
      WalkSnoc(t.names, ROOT, l[..n - 1], l[n - 1]);
    }
  }

  /** A row can be moved when, and only when, it looks as if it could. */
  lemma MoveRefused(at: Spot, s: Local, q: Location, c: string, i: Ino)
    requires Arrived(at, s, q)
    ensures (at.ino, c) in at.tables.names <==> q + [c] in s.names
    ensures (at.ino, c) in at.tables.names ==> at.tables.names[(at.ino, c)] == s.names[q + [c]]
    ensures MoveRow(at.tables, i, (at.ino, c)).Some? <==> Relocate(s, i, q + [c]).Some?
  {
    WalkSnoc(at.tables.names, ROOT, q, c);
    EntriesArePaths(at.tables.names, s.names, at.tables.next, i);
    assert Spots(s.names, i) == LocationsOf(s, i);
  }

  lemma MovedNames(d: Dentries, names: map<Location, Ino>, next: Ino, q: Location, k: Key, i: Ino, old_: Key)
    requires LooksAs(d, names) && Sound(d, next) && Walk(d, ROOT, q) == Some(k.0) && k.0 < next
    requires old_ in d && d[old_] == i && Leaf(d, i) && k.0 != i && (k in d ==> d[k] == i)
    ensures
      var d', names' := (d - {old_})[k := i], (names - Spots(names, i))[q + [k.1] := i];
      LooksAs(d', names') && Sound(d', next)
  {
    DropName(d, names, next, old_);
    WalkDropped(d, old_, ROOT, q);
    AddName(d - {old_}, names - Spots(names, i), q, k, i);
    AddSound(d - {old_}, next, k, i, next);
  }

  /** A row with nothing below it moves as it should. */
  lemma MoveLooks(at: Spot, s: Local, q: Location, c: string, i: Ino)
    requires Arrived(at, s, q) && Leaf(at.tables.names, i) && at.ino != i
    requires MoveRow(at.tables, i, (at.ino, c)).Some? && Relocate(s, i, q + [c]).Some?
    ensures LooksLike(MoveRow(at.tables, i, (at.ino, c)).value, Relocate(s, i, q + [c]).value)
    ensures SoundTables(MoveRow(at.tables, i, (at.ino, c)).value)
  {
    var d, rows := at.tables.names, Names(at.tables.names, i);
    var k :| k in rows;
    forall j | j in rows ensures j == k {
    }
    assert rows == {k} && Spots(s.names, i) == LocationsOf(s, i);
    MovedNames(d, s.names, at.tables.next, q, (at.ino, c), i, k);
  }

  lemma IsAtLooks(t: Tables, s: Local, i: Ino, l: Location)
    requires LooksLike(t, s) && SoundTables(t) && l != []
    ensures IsAt(t, i, l) <==> LocationsOf(s, i) == {l}
  {
    EntriesArePaths(t.names, s.names, t.next, i);
    assert Spots(s.names, i) == LocationsOf(s, i);
    assert At(t, l) == Some(i) <==> l in LocationsOf(s, i);
    if l in LocationsOf(s, i) {
      forall p | p in LocationsOf(s, i) ensures p == l {
        PathUnique(t.names, p, l);
      }
      assert LocationsOf(s, i) == {l};
    }
  }

  /** An inode is moved by `apply_rename_to` when, and only when, it looks as if it could be. */
  lemma RenameRefused(t: Tables, s: Local, i: Ino, l: Location)
    requires LooksLike(t, s) && SoundTables(t) && l != []
    ensures RenameTo(t, i, l).Some? <==> Moved(s, i, l).Some?
    ensures LooksLike(ParentRows(t, l).tables, EnsureParents(s, l)) && SoundTables(ParentRows(t, l).tables)
  {
    IsAtLooks(t, s, i, l);
    EnsureLooks(t, s, l, |l| - 1);
    Snoc(l);
    MoveRefused(ParentRows(t, l), EnsureParents(s, l), l[..|l| - 1], l[|l| - 1], i);
  }

  lemma RenameLooks(t: Tables, s: Local, i: Ino, l: Location)
    requires LooksLike(t, s) && SoundTables(t) && l != [] && RenameTo(t, i, l).Some? && Moved(s, i, l).Some?
    requires IsAt(t, i, l) || (Movable(t, i, l) && i < t.next)
    ensures LooksLike(RenameTo(t, i, l).value, Moved(s, i, l).value) && SoundTables(RenameTo(t, i, l).value)
  {
    IsAtLooks(t, s, i, l);
    if !IsAt(t, i, l) {
      RenameAway(t, s, i, l, ParentRows(t, l), EnsureParents(s, l));
    }
  }

  lemma RenameAway(t: Tables, s: Local, i: Ino, l: Location, at: Spot, g: Local)
    requires LooksLike(t, s) && SoundTables(t) && l != [] && Movable(t, i, l) && i < t.next
    requires at == ParentRows(t, l) && g == EnsureParents(s, l)
    requires MoveRow(at.tables, i, KeyOf(at, l)).Some? && Relocate(g, i, l).Some?
    ensures LooksLike(MoveRow(at.tables, i, KeyOf(at, l)).value, Relocate(g, i, l).value)
    ensures SoundTables(MoveRow(at.tables, i, KeyOf(at, l)).value)
  {
    EnsureLooks(t, s, l, |l| - 1);
    OffThePath(t, g, i, l);
    MoveLooksAt(at, g, l, i);
  }

  lemma OffThePath(t: Tables, s: Local, i: Ino, l: Location)
    requires SoundTables(t) && l != [] && Movable(t, i, l) && i < t.next
    requires Arrived(ParentRows(t, l), s, l[..|l| - 1]) && RowsOf(ParentRows(t, l).tables, i) != {}
    ensures Leaf(ParentRows(t, l).tables.names, i) && ParentRows(t, l).ino != i
  {
    EnsureAvoids(t, l, |l| - 1, i);
  }

  lemma MoveLooksAt(at: Spot, s: Local, l: Location, i: Ino)
    requires l != [] && Arrived(at, s, l[..|l| - 1]) && Leaf(at.tables.names, i) && at.ino != i
    requires MoveRow(at.tables, i, KeyOf(at, l)).Some? && Relocate(s, i, l).Some?
    ensures LooksLike(MoveRow(at.tables, i, KeyOf(at, l)).value, Relocate(s, i, l).value)
    ensures SoundTables(MoveRow(at.tables, i, KeyOf(at, l)).value)
  {
    Snoc(l);
    MoveLooks(at, s, l[..|l| - 1], l[|l| - 1], i);
  }

  /** The old and the new path of a move. */
  lemma MovedAway(t: Tables, s: Local, i: Ino, l: Location) returns (old_: Location)
    requires LooksLike(t, s) && SoundTables(t) && l != [] && i < t.next && !IsAt(t, i, l) && Moved(s, i, l).Some?
    ensures old_ != [] && LocationsOf(s, i) == {old_} && At(t, old_) == Some(i) && old_ != l
    ensures
      var m := Moved(s, i, l).value;
      && old_ !in m.names && l in m.names && m.names[l] == i
      && forall p | p in s.names && p != old_ :: p in m.names && m.names[p] == s.names[p]
  {
    IsAtLooks(t, s, i, l);
    ParentsGrow(s, l, |l| - 1);
    SameLocations(s, EnsureParents(s, l), l, i);
    old_ :| old_ in LocationsOf(s, i);
    forall p | p in LocationsOf(s, i) ensures p == old_ {
      PathUnique(t.names, p, old_);
    }
  }

  /** What is filed below the inode, or the inode itself if it is moved below itself, is from outside
      behind a path that leads nowhere. */
  lemma MoveHides(t: Tables, s: Local, i: Ino, l: Location) returns (old_: Location, tail: Location)
    requires LooksLike(t, s) && SoundTables(t) && l != [] && i < t.next && !IsAt(t, i, l) && Moved(s, i, l).Some?
    requires !Movable(t, i, l)
    ensures
      var names := Moved(s, i, l).value.names;
      && old_ != [] && old_ !in names && tail != [] && old_ + tail in names && names[old_ + tail] < t.next
  {
    old_ := MovedAway(t, s, i, l);
    if Leaf(t.names, i) {
      var n :| 0 < n < |l| && At(t, l[..n]) == Some(i);
      PathUnique(t.names, l[..n], old_);
      tail := l[n..];
      assert l == old_ + tail;
    } else {
      var k :| k in t.names && k.0 == i;
      WalkSnoc(t.names, ROOT, old_, k.1);
      tail := [k.1];
      assert old_ + tail != old_ && old_ + tail in s.names;
    }
  }

  lemma {:induction false} NewLeadsToNew(d: Dentries, next: Ino, i: Ino, q: Location)
    requires i >= next && (forall k | k in d && k.0 >= next :: d[k] >= next)
    ensures Walk(d, i, q).Some? ==> Walk(d, i, q).value >= next
    decreases |q|
  {
    if q != [] && (i, q[0]) in d {
      NewLeadsToNew(d, next, d[(i, q[0])], q[1..]);
    }
  }

  /** Behind a path that leads nowhere, or to a new inode, there is nothing old. */
  lemma NothingOldBehind(d: Dentries, names: map<Location, Ino>, next: Ino, q: Location, tail: Location)
    requires LooksAs(d, names) && q != [] && (q in names ==> names[q] >= next)
    requires forall k | k in d && k.0 >= next :: d[k] >= next
    ensures q + tail in names ==> names[q + tail] >= next
  {
    WalkAppend(d, ROOT, q, tail);
    if q in names {
      NewLeadsToNew(d, next, names[q], tail);
    }
  }

  /** Moving an inode's row moves its path, and no other, exactly if nothing is filed below it and
      the new path does not lead through it. */
  lemma RenameLooksIff(t: Tables, s: Local, i: Ino, l: Location)
    requires LooksLike(t, s) && SoundTables(t) && l != [] && i < t.next && RenameTo(t, i, l).Some? && !IsAt(t, i, l)
    ensures Moved(s, i, l).Some? && (LooksLike(RenameTo(t, i, l).value, Moved(s, i, l).value) <==> Movable(t, i, l))
  {
    RenameRefused(t, s, i, l);
    var m := RenameTo(t, i, l).value;
    if Movable(t, i, l) {
      RenameLooks(t, s, i, l);
    } else {
      MovedNumbered(t, s, i, l);
      NeverLooks(t, s, i, l, m, Moved(s, i, l).value);
    }
  }

  /** Only new inodes have been named, and no entry is gone. */
  ghost predicate OnlyNew(m: Tables, u: Tables, m': Local, u': Local) {
    && (forall k | k in u.names :: (k in m.names && u.names[k] == m.names[k]) || u.names[k] >= m.next)
    && (forall l | l in m'.names :: l in u'.names && u'.names[l] == m'.names[l])
    && (forall l | l in u'.names && l !in m'.names :: u'.names[l] >= m.next)
  }

  /** Entries stay below inodes numbered below the next one. */
  lemma MovedNumbered(t: Tables, s: Local, i: Ino, l: Location)
    requires LooksLike(t, s) && SoundTables(t) && l != [] && RenameTo(t, i, l).Some? && !IsAt(t, i, l)
    requires Moved(s, i, l).Some?
    ensures
      var m := RenameTo(t, i, l).value;
      m.next == Moved(s, i, l).value.next >= t.next && forall k | k in m.names :: k.0 < m.next
  {
    IsAtLooks(t, s, i, l);
    EnsureLooks(t, s, l, |l| - 1);
    NextGrows(s, l);
    RowMoved(ParentRows(t, l), EnsureParents(s, l), l, i);
  }

  lemma NextGrows(s: Local, l: Location)
    requires l != []
    ensures EnsureParents(s, l).next >= s.next
  {
    ParentsGrow(s, l, |l| - 1);
  }

  lemma RowMoved(at: Spot, s: Local, l: Location, i: Ino)
    requires l != [] && Arrived(at, s, l[..|l| - 1]) && MoveRow(at.tables, i, KeyOf(at, l)).Some?
    requires Relocate(s, i, l).Some?
    ensures
      var m := MoveRow(at.tables, i, KeyOf(at, l)).value;
      m.next == Relocate(s, i, l).value.next == s.next && forall k | k in m.names :: k.0 < m.next
  {
  }

  /** Whatever new entries are made after such a move, what it hides stays hidden. */
  lemma NeverLooks(t: Tables, s: Local, i: Ino, l: Location, u: Tables, u': Local)
    requires LooksLike(t, s) && SoundTables(t) && l != [] && i < t.next && !IsAt(t, i, l) && !Movable(t, i, l)
    requires RenameTo(t, i, l).Some? && Moved(s, i, l).Some?
    requires forall k | k in RenameTo(t, i, l).value.names :: k.0 < RenameTo(t, i, l).value.next
    requires RenameTo(t, i, l).value.next >= t.next
    requires OnlyNew(RenameTo(t, i, l).value, u, Moved(s, i, l).value, u')
    ensures !LooksAs(u.names, u'.names)
  {
    var old_, tail := MoveHides(t, s, i, l);
    if LooksAs(u.names, u'.names) {
      NothingOldBehind(u.names, u'.names, RenameTo(t, i, l).value.next, old_, tail);
    }
  }

  // ---- Reconciling ----

  /** The same at a path whose parent exists. */
  lemma NewFileLooks(at: Spot, s: Local, l: Location)
    requires l != [] && Arrived(at, s, l[..|l| - 1])
    ensures KeyOf(at, l) in at.tables.names <==> l in s.names
    ensures KeyOf(at, l) in at.tables.names ==> at.tables.names[KeyOf(at, l)] == s.names[l]
    ensures KeyOf(at, l) !in at.tables.names ==>
              var i := at.tables.next;
              LooksAs(at.tables.names[KeyOf(at, l) := i], s.names[l := i])
                && Sound(at.tables.names[KeyOf(at, l) := i], i + 1)
  {
    Snoc(l);
    NewRowLooks(at, s, l[..|l| - 1], l[|l| - 1]);
  }

  lemma DeriveLooks(t: Tables, s: Local, l: Location, text: string)
    requires LooksLike(t, s) && SoundTables(t) && l != []
    ensures LooksLike(DeriveRow(t, l, text), WriteDerived(s, l, text)) && SoundTables(DeriveRow(t, l, text))
  {
    EnsureLooks(t, s, l, |l| - 1);
    NewFileLooks(ParentRows(t, l), EnsureParents(s, l), l);
  }

  lemma ErrorLooks(t: Tables, s: Local, v: Version)
    requires LooksLike(t, s) && SoundTables(t) && v.errorPlace != []
    ensures LooksLike(ErrorRow(t, v), SyncErrorSibling(s, v)) && SoundTables(ErrorRow(t, v))
  {
    if v.status == Failed {
      DeriveLooks(t, s, v.errorPlace, v.report);
    }
  }

  lemma MirrorLooks(t: Tables, s: Local, i: Ino, v: Version)
    requires LooksLike(t, s)
    ensures
      var u, u' := SetMirrored(Rewrite(t, i, v.content), i, v.ms), SetMirrored(Rewrite(s, i, v.content), i, v.ms);
      LooksLike(u, u') && u.names == t.names && u.next == t.next
  {
  }

  lemma AttachLooks(t: Tables, s: Local, i: Ino, v: Version)
    requires LooksLike(t, s)
    ensures LooksLike(Attach(t, i, v).0, Attach(s, i, v).0) && Attach(t, i, v).1 == Attach(s, i, v).1
    ensures Attach(t, i, v).0.names == t.names && Attach(t, i, v).0.next == t.next
  {
    assert LooksLike(SetRemoteId(t, i, v.id), SetRemoteId(s, i, v.id));
    MirrorLooks(SetRemoteId(t, i, v.id), SetRemoteId(s, i, v.id), i, v);
  }

  lemma FillLooks(t: Tables, s: Local, i: Ino, v: Version)
    requires LooksLike(t, s)
    ensures LooksLike(Fill(t, i, v), Fill(s, i, v)) && Fill(t, i, v).names == t.names && Fill(t, i, v).next == t.next
  {
  }

  lemma PlacingLooks(at: Spot, s: Local, v: Version)
    requires v.place != [] && Arrived(at, s, v.place[..|v.place| - 1])
    ensures
      var r, r' := AttachOrInsert(at.tables, KeyOf(at, v.place), v), AttachOrCreate(s, v);
      LooksLike(r.0, r'.0) && SoundTables(r.0) && r.1 == r'.1
  {
    NewFileLooks(at, s, v.place);
    if KeyOf(at, v.place) in at.tables.names {
      AttachLooks(at.tables, s, s.names[v.place], v);
    } else {
      InsertLooks(at.tables, s, KeyOf(at, v.place), v);
    }
  }

  lemma InsertLooks(t: Tables, s: Local, k: Key, v: Version)
    requires LooksLike(t, s) && k !in t.names && v.place !in s.names
    requires LooksAs(t.names[k := t.next], s.names[v.place := t.next]) && Sound(t.names[k := t.next], t.next + 1)
    ensures
      var r, r' := AttachOrInsert(t, k, v), AttachOrCreate(s, v);
      LooksLike(r.0, r'.0) && SoundTables(r.0) && r.1 == r'.1
  {
    var t1, s1 := t.(names := t.names[k := t.next], next := t.next + 1),
      s.(names := s.names[v.place := s.next], next := s.next + 1);
    InsertedLooks(t, s, t1, s1, t.names[k := t.next], s.names[v.place := t.next]);
    FillLooks(t1, s1, t.next, v);
  }

  lemma InsertedLooks(t: Tables, s: Local, t1: Tables, s1: Local, d: Dentries, names: map<Location, Ino>)
    requires LooksLike(t, s) && LooksAs(d, names) && Sound(d, t.next + 1)
    requires t1 == t.(names := d, next := t.next + 1) && s1 == s.(names := names, next := s.next + 1)
    ensures LooksLike(t1, s1) && SoundTables(t1)
  {
  }

  lemma AddLooks(t: Tables, s: Local, v: Version)
    requires LooksLike(t, s) && SoundTables(t) && v.place != [] && v.errorPlace != []
    ensures LooksLike(AddRows(t, v).0, ReconcileNew(s, v).0) && SoundTables(AddRows(t, v).0)
            && AddRows(t, v).1 == ReconcileNew(s, v).1
  {
    if v.status != Done {
      ErrorLooks(t, s, v);
    } else {
      EnsureLooks(t, s, v.place, |v.place| - 1);
      PlacingLooks(ParentRows(t, v.place), EnsureParents(s, v.place), v);
    }
  }

  /** If the version has its document's inode moved, nothing is filed below the inode, and the
      version's place is not below it. */
  ghost predicate MovesCleanly(t: Tables, i: Ino, v: Version)
    requires i in t.remote && v.place != []
  {
    NewerLocally(t, i, v.ms) || AlreadyMirrored(t, i, v) || IsAt(t, i, v.place) || RenameTo(t, i, v.place).None?
    || Movable(t, i, v.place)
  }

  /** What follows a move that looked as it should. */
  lemma MovedLooks(m: Tables, m': Local, i: Ino, v: Version)
    requires LooksLike(m, m') && SoundTables(m) && v.errorPlace != []
    ensures
      var u := if v.status == Done then SetMirrored(Rewrite(m, i, v.content), i, v.ms) else ErrorRow(m, v);
      var u' := if v.status == Done then SetMirrored(Rewrite(m', i, v.content), i, v.ms) else SyncErrorSibling(m', v);
      LooksLike(u, u') && SoundTables(u)
  {
    if v.status == Done {
      MirrorLooks(m, m', i, v);
    } else {
      ErrorLooks(m, m', v);
    }
  }

  lemma GuardsLook(t: Tables, s: Local, i: Ino, v: Version)
    requires LooksLike(t, s) && i in t.remote
    ensures NewerLocally(t, i, v.ms) == NewerLocally(s, i, v.ms) && AlreadyMirrored(t, i, v) == AlreadyMirrored(s, i, v)
  {
  }

  lemma UpdateLooks(t: Tables, s: Local, i: Ino, v: Version)
    requires LooksLike(t, s) && SoundTables(t) && i in t.remote && i < t.next && v.place != [] && v.errorPlace != []
    requires MovesCleanly(t, i, v)
    ensures LooksLike(UpdateRows(t, i, v).0, ReconcileMapped(s, i, v).0) && SoundTables(UpdateRows(t, i, v).0)
    ensures UpdateRows(t, i, v).1 == ReconcileMapped(s, i, v).1
  {
    GuardsLook(t, s, i, v);
    if !NewerLocally(t, i, v.ms) && !AlreadyMirrored(t, i, v) {
      RenameRefused(t, s, i, v.place);
      if RenameTo(t, i, v.place).Some? {
        var m, m' := RenameTo(t, i, v.place).value, Moved(s, i, v.place).value;
        assert LooksLike(m, m') && SoundTables(m) by {
          RenameLooks(t, s, i, v.place);
        }
        MovedLooks(m, m', i, v);
      }
    }
  }

  lemma SameInoOf(t: Tables, s: Local, id: DocId)
    requires LooksLike(t, s) && Injective(t.remote)
    ensures InoOf(t, id) == InoOf(s, id)
  {
  }

  /** Reconciling a version in the rows looks as it should, unless it moves an inode that has
      something filed below it, or moves it below itself. */
  lemma ReconcileLooks(t: Tables, s: Local, v: Version)
    requires LooksLike(t, s) && SoundTables(t) && Injective(t.remote) && v.place != [] && v.errorPlace != []
    requires InoOf(t, v.id).Some? ==> InoOf(t, v.id).value < t.next && MovesCleanly(t, InoOf(t, v.id).value, v)
    ensures LooksLike(ReconciledRows(t, v), Reconciled(s, v)) && SoundTables(ReconciledRows(t, v))
    ensures ReconcileRows(t, v).1 == ReconcileOne(s, v).1
  {
    SameInoOf(t, s, v.id);
    if InoOf(t, v.id).Some? {
      UpdateLooks(t, s, InoOf(t, v.id).value, v);
    } else {
      AddLooks(t, s, v);
    }
  }

  lemma {:induction false} EnsureAdds(t: Tables, l: Location, n: nat)
    requires n <= |l|
    ensures
      var u := EnsureRows(t, l, n).tables;
      u.next >= t.next
      && forall k | k in u.names :: (k in t.names && u.names[k] == t.names[k]) || u.names[k] >= t.next
  {
    if n > 0 {
      EnsureAdds(t, l, n - 1);
    }
  }

  lemma ErrorAdds(m: Tables, m': Local, v: Version)
    requires v.errorPlace != [] && m.next == m'.next
    ensures OnlyNew(m, ErrorRow(m, v), m', SyncErrorSibling(m', v))
  {
    if v.status == Failed {
      DeriveAddsRows(m, v.errorPlace, v.report);
      DeriveAddsPaths(m', v.errorPlace, v.report);
    }
  }

  lemma DeriveAddsRows(m: Tables, l: Location, text: string)
    requires l != []
    ensures
      var u := DeriveRow(m, l, text);
      forall k | k in u.names :: (k in m.names && u.names[k] == m.names[k]) || u.names[k] >= m.next
  {
    EnsureAdds(m, l, |l| - 1);
  }

  lemma DeriveAddsPaths(m: Local, l: Location, text: string)
    requires l != []
    ensures
      var u := WriteDerived(m, l, text);
      && (forall p | p in m.names :: p in u.names && u.names[p] == m.names[p])
      && (forall p | p in u.names && p !in m.names :: u.names[p] >= m.next)
  {
    ParentsGrow(m, l, |l| - 1);
  }

  lemma OutcomeAdds(m: Tables, m': Local, i: Ino, v: Version)
    requires v.errorPlace != [] && m.next == m'.next
    ensures
      var u := if v.status == Done then SetMirrored(Rewrite(m, i, v.content), i, v.ms) else ErrorRow(m, v);
      var u' := if v.status == Done then SetMirrored(Rewrite(m', i, v.content), i, v.ms) else SyncErrorSibling(m', v);
      OnlyNew(m, u, m', u')
  {
    ErrorAdds(m, m', v);
  }

  /** For a mapped document it looks as it should exactly if it moves cleanly. */
  lemma UpdateLooksIff(t: Tables, s: Local, i: Ino, v: Version)
    requires LooksLike(t, s) && SoundTables(t) && i in t.remote && i < t.next && v.place != [] && v.errorPlace != []
    ensures LooksLike(UpdateRows(t, i, v).0, ReconcileMapped(s, i, v).0) <==> MovesCleanly(t, i, v)
  {
    if MovesCleanly(t, i, v) {
      UpdateLooks(t, s, i, v);
    } else {
      GuardsLook(t, s, i, v);
      RenameRefused(t, s, i, v.place);
      MovedNumbered(t, s, i, v.place);
      OutcomeAdds(RenameTo(t, i, v.place).value, Moved(s, i, v.place).value, i, v);
      NeverLooks(t, s, i, v.place, UpdateRows(t, i, v).0, ReconcileMapped(s, i, v).0);
    }
  }

  /** Reconciling any version in the rows looks as it should, exactly unless it moves an inode that has
      something filed below it, or moves it below itself. */
  lemma ReconcileLooksIff(t: Tables, s: Local, v: Version)
    requires LooksLike(t, s) && SoundTables(t) && Injective(t.remote) && v.place != [] && v.errorPlace != []
    requires InoOf(t, v.id).Some? ==> InoOf(t, v.id).value < t.next
    ensures LooksLike(ReconciledRows(t, v), Reconciled(s, v))
       <==> (InoOf(t, v.id).Some? ==> MovesCleanly(t, InoOf(t, v.id).value, v))
  {
    SameInoOf(t, s, v.id);
    if InoOf(t, v.id).Some? {
      UpdateLooksIff(t, s, InoOf(t, v.id).value, v);
    } else {
      AddLooks(t, s, v);
    }
  }

  // ---- Pulls ----

  /** On the way to a listed place, or to anything in the tree, there is no document's file. */
  lemma NoFileAbove(s: Local, h: seq<Version>, p: Location, l: Location)
    requires OnlyPulled(s, h) && ValidHistory(h) && p in s.names && s.names[p] in s.remote && p <= l
    requires l in s.names || exists d :: d in h && d.place == l
    ensures p == l
  {
    assert Accounted(s, h, p);
    var d :| d in h && d.place == p;
    if l in s.names {
      assert Accounted(s, h, l);
    }
    var e :| e in h && l <= e.place;
    assert d.place <= e.place;
  }

  /** Nothing is filed below a document's file while only pulls have filled the tables. */
  lemma NothingBelowFiles(t: Tables, s: Local, h: seq<Version>, i: Ino)
    requires LooksLike(t, s) && SoundTables(t) && OnlyPulled(s, h) && ValidHistory(h) && i in s.remote
    ensures Leaf(t.names, i)
  {
    assert OneHome(s, i);
    var old_ :| LocationsOf(s, i) == {old_};
    assert old_ in LocationsOf(s, i);
    forall k | k in t.names ensures k.0 != i {
      var l := EntryHasPath(t.names, s.names, k);
      assert l in Spots(s.names, t.names[k]);
      if k.0 == i {
        PathUnique(t.names, l[..|l| - 1], old_);
        NoFileAbove(s, h, old_, l);
      }
    }
  }

  lemma PulledMovesCleanly(t: Tables, s: Local, h: seq<Version>, i: Ino, d: Version)
    requires LooksLike(t, s) && SoundTables(t) && OnlyPulled(s, h) && ValidHistory(h) && d in h && i in s.remote
    ensures i < t.next && MovesCleanly(t, i, d)
  {
    NothingBelowFiles(t, s, h, i);
    NotThroughFiles(t, s, h, i, d);
  }

  lemma NotThroughFiles(t: Tables, s: Local, h: seq<Version>, i: Ino, d: Version)
    requires LooksLike(t, s) && OnlyPulled(s, h) && ValidHistory(h) && d in h && i in s.remote
    ensures forall n | 0 < n < |d.place| :: At(t, d.place[..n]) != Some(i)
  {
    forall n | 0 < n < |d.place| ensures At(t, d.place[..n]) != Some(i) {
      if At(t, d.place[..n]) == Some(i) {
        NoFileAbove(s, h, d.place[..n], d.place);
      }
    }
  }

  lemma PullLooks(t: Tables, s: Local, h: seq<Version>, d: Version)
    requires LooksLike(t, s) && SoundTables(t) && OnlyPulled(s, h) && ValidHistory(h) && d in h
    ensures LooksLike(ReconciledRows(t, d), Reconciled(s, d)) && SoundTables(ReconciledRows(t, d))
  {
    if InoOf(t, d.id).Some? {
      PulledMovesCleanly(t, s, h, InoOf(t, d.id).value, d);
    }
    ReconcileLooks(t, s, d);
  }

  lemma {:induction false} PullAllLooks(t: Tables, s: Local, h: seq<Version>, docs: seq<Version>)
    requires LooksLike(t, s) && SoundTables(t) && OnlyPulled(s, h) && ValidHistory(h) && forall d | d in docs :: d in h
    ensures Placed(docs)
    ensures LooksLike(ReconcileAllRows(t, docs), ReconcileAll(s, docs)) && SoundTables(ReconcileAllRows(t, docs))
  {
    if docs != [] {
      var init, d := docs[..|docs| - 1], docs[|docs| - 1];
      PullAllLooks(t, s, h, init);
      PullMany(s, h, init);
      PullLooks(ReconcileAllRows(t, init), ReconcileAll(s, init), h, d);
    }
  }

  /** A pull of the rows, cut short or not, looks as it should. */
  lemma DeltaLooks(t: Tables, s: Local, h: seq<Version>, all: seq<Version>, served: nat)
    requires LooksLike(t, s) && SoundTables(t) && OnlyPulled(s, h) && ValidHistory(h) && forall d | d in all :: d in h
    ensures Placed(all) && LooksLike(DeltaRows(t, all, served), Delta(s, all, served))
            && SoundTables(DeltaRows(t, all, served))
  {
    if CutShort(Unseen(s.watermark, all), |all|, served) {
      PullAllLooks(t, s, h, Met(all, served));
    } else {
      PullAllLooks(t, s, h, all[..Unseen(s.watermark, all)]);
    }
  }

  lemma FullLooks(t: Tables, s: Local, h: seq<Version>, all: seq<Version>, served: nat)
    requires LooksLike(t, s) && SoundTables(t) && OnlyPulled(s, h) && ValidHistory(h) && forall d | d in all :: d in h
    ensures Placed(all) && LooksLike(FullRows(t, all, served), Full(s, all, served))
            && SoundTables(FullRows(t, all, served))
  {
    if CutShort(|all|, |all|, served) {
      PullAllLooks(t, s, h, Met(all, served));
    } else {
      PullAllLooks(t, s, h, all);
    }
  }

  lemma PullLooksWhole(t: Tables, s: Local, h: seq<Version>, served: nat)
    requires LooksLike(t, s) && SoundTables(t) && OnlyPulled(s, h) && ValidHistory(h)
    ensures Placed(Listing(h))
    ensures LooksLike(DeltaRows(t, Listing(h), served), Delta(s, Listing(h), served))
    ensures LooksLike(FullRows(t, Listing(h), served), Full(s, Listing(h), served))
    ensures SoundTables(DeltaRows(t, Listing(h), served)) && SoundTables(FullRows(t, Listing(h), served))
  {
    ListingSorted(h);
    DeltaLooks(t, s, h, Listing(h), served);
    FullLooks(t, s, h, Listing(h), served);
  }

  // ---- Runs ----

  const EMPTY_TABLES: Tables := Store(map[], {}, map[], map[], {}, map[], 2, "")

  /** The tables after a run whose pulls are all incremental, or all full. */
  ghost function RowsAfter(es: seq<Convergence.Event>, incremental: bool): Tables {
    if es == [] then EMPTY_TABLES
    else
      var t, listing := RowsAfter(es[..|es| - 1], incremental), Listing(History(es[..|es| - 1]));
      if es[|es| - 1].Edit? || !Placed(listing) then t
      else if incremental then DeltaRows(t, listing, es[|es| - 1].served) else FullRows(t, listing, es[|es| - 1].served)
  }

  /** The rows of a run look like the cache of the run. */
  lemma {:induction false} RunLooks(es: seq<Convergence.Event>, incremental: bool)
    requires ValidEdits(Edits(es))
    ensures LooksLike(RowsAfter(es, incremental), After(es, incremental)) && SoundTables(RowsAfter(es, incremental))
  {
    if es == [] {
      EmptyLooks();
    } else {
      var init := es[..|es| - 1];
      ValidInit(es);
      RunLooks(init, incremental);
      IncrementalEqualsFull(init);
      if es[|es| - 1].Pull? {
        PullLooksWhole(RowsAfter(init, incremental), After(init, incremental), History(init), es[|es| - 1].served);
      }
    }
  }

  lemma EmptyLooks()
    ensures LooksLike(EMPTY_TABLES, Convergence.EMPTY) && SoundTables(EMPTY_TABLES)
  {
  }

  /** How the tables look, and that they are sound, leaves no choice of rows. */
  lemma LooksDetermine(d: Dentries, d': Dentries, names: map<Location, Ino>, next: Ino, next': Ino)
    requires LooksAs(d, names) && LooksAs(d', names) && Sound(d, next) && Sound(d', next')
    ensures d == d'
  {
    forall k | k in d ensures k in d' && d'[k] == d[k] {
      RowDetermined(d, d', names, next, k);
    }
    forall k | k in d' ensures k in d {
      RowDetermined(d', d, names, next', k);
    }
  }

  lemma RowDetermined(d: Dentries, d': Dentries, names: map<Location, Ino>, next: Ino, k: Key)
    requires LooksAs(d, names) && LooksAs(d', names) && Sound(d, next) && k in d
    ensures k in d' && d'[k] == d[k]
  {
    var q: Location :| Walk(d, ROOT, q) == Some(k.0);
    WalkSnoc(d, ROOT, q, k.1);
    WalkSnoc(d', ROOT, q, k.1);
    assert q != [] ==> Walk(d', ROOT, q) == Found(names, q);
    assert Walk(d', ROOT, q + [k.1]) == Found(names, q + [k.1]);
  }

  /** Incremental sync equals full resync, row by row: the tables two runs leave, one pulling
      increments and one everything, are the same but for the watermark, and altogether the same
      after a pull that is not cut short. */
  lemma IncrementalRowsEqualFull(es: seq<Convergence.Event>)
    requires ValidEdits(Edits(es))
    ensures RowsAfter(es, true).(watermark := "") == RowsAfter(es, false).(watermark := "")
    ensures EndsWithWholePull(es) ==> RowsAfter(es, true) == RowsAfter(es, false)
  {
    IncrementalEqualsFull(es);
    RunLooks(es, true);
    RunLooks(es, false);
    var t, u := RowsAfter(es, true), RowsAfter(es, false);
    assert After(es, true).names == After(es, false).names;
    LooksDetermine(t.names, u.names, After(es, true).names, t.next, u.next);
  }

  // ---- Scans ----

  /** Whatever is filed below an inode that goes is gone itself. */
  ghost predicate GoesWhole(d: Dentries, gone: set<Ino>) {
    forall k | k in d && k.0 in gone :: d[k] in gone
  }

  lemma {:induction false} WalkWithout(d: Dentries, d': Dentries, gone: set<Ino>, l: Location)
    requires GoesWhole(d, gone) && ROOT !in gone && d' == map k | k in d && d[k] !in gone :: d[k]
    ensures Walk(d', ROOT, l) == if Walk(d, ROOT, l).Some? && Walk(d, ROOT, l).value !in gone then Walk(d, ROOT, l)
            else None
    decreases |l|
  {
    if l != [] {
      var init, c := l[..|l| - 1], l[|l| - 1];
      Snoc(l);
      WalkWithout(d, d', gone, init);
      WalkSnoc(d, ROOT, init, c);
      WalkSnoc(d', ROOT, init, c);
    }
  }

  /** Removing inodes from the rows removes their paths, and no other, exactly if what is filed
      below them goes with them. */
  lemma RemoveLooksIff(t: Tables, s: Local, gone: set<Ino>)
    requires LooksLike(t, s) && SoundTables(t) && ROOT !in gone
    ensures LooksLike(RemoveRows(t, gone), Remove(s, gone)) <==> GoesWhole(t.names, gone)
  {
    var d', names' := RemoveRows(t, gone).names, Remove(s, gone).names;
    if GoesWhole(t.names, gone) {
      forall l: Location | l != [] ensures Walk(d', ROOT, l) == Found(names', l) {
        WalkWithout(t.names, d', gone, l);
      }
    } else {
      var k :| k in t.names && k.0 in gone && t.names[k] !in gone;
      var l := EntryHasPath(t.names, s.names, k);
      assert l in Spots(s.names, t.names[k]);
      CutOff(t.names, d', gone, k, l);
    }
  }

  /** A row left below an inode that went is on no path. */
  lemma CutOff(d: Dentries, d': Dentries, gone: set<Ino>, k: Key, l: Location)
    requires OneEntryEach(d) && d' == (map j | j in d && d[j] !in gone :: d[j]) && k in d && k.0 in gone
             && ROOT !in gone
    ensures Walk(d', ROOT, l) != Some(d[k])
  {
    if l != [] && Walk(d', ROOT, l) == Some(d[k]) {
      WalkLast(d', ROOT, l);
      var up := l[..|l| - 1];
      assert (Walk(d', ROOT, up).value, l[|l| - 1]) == k;
      if up != [] {
        WalkLast(d', ROOT, up);
      }
    }
  }

  /** A deletion scan of the rows looks as it should exactly if everything filed below what it
      removes goes too. */
  lemma ScanLooksIff(t: Tables, s: Local, listed: set<DocId>)
    requires LooksLike(t, s) && SoundTables(t)
    ensures LooksLike(ScanRows(t, listed), Scanned(s, listed)) <==> GoesWhole(t.names, GoneRows(t, listed))
  {
    forall i ensures i in GoneRows(t, listed) <==> i in Gone(s, listed) {
      EntriesArePaths(t.names, s.names, t.next, i);
      assert Spots(s.names, i) == LocationsOf(s, i);
    }
    assert GoneRows(t, listed) == Gone(s, listed);
    RemoveLooksIff(t, s, GoneRows(t, listed));
  }
}
