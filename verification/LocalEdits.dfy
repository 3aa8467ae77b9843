/** Local edits against the pull side: what reconciling, scanning and finished pushes may do to a
    file that has been written locally, in any order, and to the path that leads to it. */
module LocalEdits {
  import opened Wrappers
  import opened Paths
  import opened Reconcile
  import opened SyncedTables
  import opened Convergence
  import opened TableView
  import LinkCounts
  import SyncedFs

  /** A step of the interleaving. A write marks the file dirty, a truncation does not; a push that
      went through clears the mark, and a POST maps the file to the new document. */
  datatype Step =
    | Remote(v: Version)
    | Scan(listed: set<DocId>)
    | Write(i: Ino, bytes: string, now: int)
    | Truncate(i: Ino, bytes: string)
    | Sent(i: Ino, posted: Option<DocId>)

  predicate Readable(e: Step) {
    e.Remote? ==> e.v.place != [] && e.v.errorPlace != []
  }

  ghost function After(t: Tables, e: Step): Tables
    requires Readable(e)
  {
    match e
    case Remote(v) => ReconciledRows(t, v)
    case Scan(listed) => ScanRows(t, listed)
    case Write(i, bytes, now) =>
      if i in t.content then t.(content := t.content[i := bytes], dirty := t.dirty[i := now]) else t
    case Truncate(i, bytes) => if i in t.content then t.(content := t.content[i := bytes]) else t
    case Sent(i, posted) =>
      var u := if posted.Some? then SetRemoteId(t, i, posted.value) else t;
      u.(dirty := u.dirty - {i})
  }

  ghost function AfterAll(t: Tables, es: seq<Step>): Tables
    requires forall e | e in es :: Readable(e)
    decreases |es|
  {
    if es == [] then t else After(AfterAll(t, es[..|es| - 1]), es[|es| - 1])
  }

  // ---- Rows that are only added ----

  /** Inode numbers in the rows are below the next one. */
  ghost predicate Numbered(t: Tables) {
    ROOT < t.next && forall k | k in t.names :: k.0 < t.next && t.names[k] < t.next
  }

  /** Old rows stay, and new ones are for new inodes. */
  ghost predicate Grows(t: Tables, u: Tables) {
    && t.next <= u.next && Numbered(u)
    && (forall k | k in t.names :: k in u.names && u.names[k] == t.names[k])
    && (forall k | k in u.names && k !in t.names :: u.names[k] >= t.next)
    && (OneEntryEach(t.names) ==> OneEntryEach(u.names))
  }

  /** The other tables stay. */
  ghost predicate SameFiles(t: Tables, u: Tables) {
    u.content == t.content && u.dirty == t.dirty && u.derived == t.derived && u.remote == t.remote
  }

  lemma GrowsOn(t: Tables, u: Tables, w: Tables)
    requires Grows(t, u) && Grows(u, w)
    ensures Grows(t, w)
  {
  }

  lemma NewRowGrows(t: Tables, u: Tables, k: Key)
    requires Numbered(t) && k.0 < t.next && k !in t.names && u.names == t.names[k := t.next] && u.next == t.next + 1
    ensures Grows(t, u)
  {
  }

  /** `ensure_dirs` stays on the old path as long as there is one, and then goes through new inodes. */
  lemma {:induction false} EnsureGrows(t: Tables, l: Location, n: nat)
    requires Numbered(t) && n <= |l|
    ensures
      var up := EnsureRows(t, l, n);
      && Grows(t, up.tables) && SameFiles(t, up.tables) && up.ino < up.tables.next
      && if up.ino < t.next then up.tables == t && At(t, l[..n]) == Some(up.ino)
         else Leaf(up.tables.names, up.ino) && At(t, l[..n]) == None
    decreases n
  {
    if n > 0 {
      EnsureGrows(t, l, n - 1);
      assert l[..n] == l[..n - 1] + [l[n - 1]];
      WalkSnoc(t.names, ROOT, l[..n - 1], l[n - 1]);
      StepGrows(t, EnsureRows(t, l, n - 1), l[n - 1]);
    }
  }

  lemma StepGrows(t: Tables, at: Spot, c: string)
    requires Grows(t, at.tables) && SameFiles(t, at.tables) && at.ino < at.tables.next
    ensures Grows(t, StepInto(at, c).tables) && SameFiles(t, StepInto(at, c).tables)
    ensures StepInto(at, c).ino < StepInto(at, c).tables.next
  {
    if (at.ino, c) !in at.tables.names {
      NewRowGrows(at.tables, StepInto(at, c).tables, (at.ino, c));
      GrowsOn(t, at.tables, StepInto(at, c).tables);
    }
  }

  /** What the path led to before its parents were created, it leads to afterwards, and nothing else. */
  lemma PlaceFound(t: Tables, l: Location)
    requires Numbered(t) && l != []
    ensures
      var up := ParentRows(t, l);
      if At(t, l).Some? then KeyOf(up, l) in t.names && up.tables == t && t.names[KeyOf(up, l)] == At(t, l).value
      else KeyOf(up, l) !in up.tables.names
  {
    EnsureGrows(t, l, |l| - 1);
    Snoc(l);
    WalkSnoc(t.names, ROOT, l[..|l| - 1], l[|l| - 1]);
  }

  lemma GrownRows(t: Tables, u: Tables, i: Ino)
    requires Grows(t, u) && i < t.next
    ensures RowsOf(u, i) == RowsOf(t, i)
  {
  }

  /** Files keep their bytes. */
  ghost predicate KeepsFiles(t: Tables, u: Tables) {
    u.dirty == t.dirty && u.remote == t.remote && t.next <= u.next
    && forall i | Plain(t, i) :: Plain(u, i) && u.content[i] == t.content[i]
  }

  lemma DeriveGrows(t: Tables, l: Location, text: string)
    requires Numbered(t) && l != []
    ensures Grows(t, DeriveRow(t, l, text)) && KeepsFiles(t, DeriveRow(t, l, text))
  {
    EnsureGrows(t, l, |l| - 1);
    DeriveAt(t, ParentRows(t, l), l, text);
  }

  lemma DeriveAt(t: Tables, up: Spot, l: Location, text: string)
    requires l != [] && up == ParentRows(t, l) && Grows(t, up.tables) && SameFiles(t, up.tables)
    requires up.ino < up.tables.next
    ensures Grows(t, DeriveRow(t, l, text)) && KeepsFiles(t, DeriveRow(t, l, text))
  {
    if KeyOf(up, l) in up.tables.names {
      DerivedOver(t, up.tables, DeriveRow(t, l, text), up.tables.names[KeyOf(up, l)], text);
    } else {
      DerivedNew(t, up.tables, DeriveRow(t, l, text), KeyOf(up, l), text);
    }
  }

  lemma DerivedOver(t: Tables, s: Tables, u: Tables, i: Ino, text: string)
    requires Grows(t, s) && SameFiles(t, s) && u == if i in s.derived then s.(content := s.content[i := text]) else s
    ensures Grows(t, u) && KeepsFiles(t, u)
  {
    assert u.names == s.names && u.next == s.next;
  }

  lemma DerivedNew(t: Tables, s: Tables, u: Tables, k: Key, text: string)
    requires Grows(t, s) && SameFiles(t, s) && k.0 < s.next && k !in s.names
    requires u == s.(names := s.names[k := s.next], content := s.content[s.next := text],
                     derived := s.derived + {s.next}, next := s.next + 1)
    ensures Grows(t, u) && KeepsFiles(t, u)
  {
    NewRowGrows(s, u, k);
    GrowsOn(t, s, u);
  }

  lemma ErrorGrows(t: Tables, v: Version)
    requires Numbered(t) && v.errorPlace != []
    ensures Grows(t, ErrorRow(t, v)) && KeepsFiles(t, ErrorRow(t, v))
  {
    if v.status == Failed {
      DeriveGrows(t, v.errorPlace, v.report);
    }
  }

  // ---- One reconciliation ----

  /** A file of its own: it has contents and is not one the cache derives. */
  ghost predicate Plain(t: Tables, i: Ino) {
    i in t.content && i !in t.derived && i < t.next
  }

  /** An inode keeps its bytes, dirty mark and rows. */
  ghost predicate Kept(t: Tables, u: Tables, i: Ino) {
    && i in t.content && Plain(u, i) && u.content[i] == t.content[i]
    && (i in u.dirty <==> i in t.dirty) && (i in t.dirty ==> u.dirty[i] == t.dirty[i])
    && RowsOf(u, i) == RowsOf(t, i)
  }

  /** An inode with one row can be moved to where nothing is, and need not be to where it is; it then
      has the one row that names it there, and all other rows stay. */
  lemma MoveIs(t: Tables, j: Ino, l: Location)
    requires Numbered(t) && l != [] && j < t.next
    ensures RenameTo(t, j, l).Some? <==> |RowsOf(t, j)| == 1 && (At(t, l) == None || At(t, l) == Some(j))
    ensures RenameTo(t, j, l).Some? ==> SameFiles(t, RenameTo(t, j, l).value)
    ensures RenameTo(t, j, l).Some? && At(t, l) == Some(j) ==> RenameTo(t, j, l).value == t
    ensures RenameTo(t, j, l).Some? && At(t, l) == None ==>
              var up := ParentRows(t, l);
              && KeyOf(up, l) !in up.tables.names
              && RenameTo(t, j, l).value == up.tables.(names := (up.tables.names - RowsOf(t, j))[KeyOf(up, l) := j])
  {
    PlaceFound(t, l);
    EnsureGrows(t, l, |l| - 1);
    GrownRows(t, ParentRows(t, l).tables, j);
  }

  /** Moving a file leaves its bytes and its mark, and other files altogether. */
  lemma MoveSpares(t: Tables, j: Ino, l: Location, i: Ino)
    requires Numbered(t) && l != [] && j < t.next && Plain(t, i) && RenameTo(t, j, l).Some?
    ensures
      var m := RenameTo(t, j, l).value;
      && Plain(m, i) && m.content[i] == t.content[i] && m.dirty == t.dirty && Numbered(m)
      && (i != j ==> RowsOf(m, i) == RowsOf(t, i))
  {
    MoveIs(t, j, l);
    if At(t, l) == None {
      EnsureGrows(t, l, |l| - 1);
      MoveSparesIn(t, ParentRows(t, l).tables, RenameTo(t, j, l).value, j, KeyOf(ParentRows(t, l), l), i);
    }
  }

  lemma MoveSparesIn(t: Tables, up: Tables, m: Tables, j: Ino, k: Key, i: Ino)
    requires Grows(t, up) && SameFiles(t, up) && Plain(t, i) && j < t.next && k.0 < up.next && k !in up.names
    requires m == up.(names := (up.names - RowsOf(t, j))[k := j])
    ensures Plain(m, i) && m.content[i] == t.content[i] && m.dirty == t.dirty && Numbered(m)
    ensures i != j ==> RowsOf(m, i) == RowsOf(t, i)
  {
    GrownRows(t, up, i);
  }

  lemma UpdateWrites(t: Tables, j: Ino, v: Version, i: Ino)
    requires Numbered(t) && v.place != [] && v.errorPlace != [] && j in t.remote && j < t.next && Plain(t, i)
    ensures
      var u := UpdateRows(t, j, v).0;
      var written := i == j && v.status == Done && v.content.Some? && !NewerLocally(t, i, v.ms)
        && !AlreadyMirrored(t, j, v)
                     && RenameTo(t, j, v.place).Some?;
      i in u.content && u.content[i] == if written then v.content.value else t.content[i]
    ensures i != j || NewerLocally(t, i, v.ms) ==> Kept(t, UpdateRows(t, j, v).0, i)
  {
    if !NewerLocally(t, j, v.ms) && !AlreadyMirrored(t, j, v) {
      var moved := RenameTo(t, j, v.place);
      if moved.None? {
        EnsureGrows(t, v.place, |v.place| - 1);
        GrownRows(t, ParentRows(t, v.place).tables, i);
      } else {
        MoveSpares(t, j, v.place, i);
        if v.status != Done {
          ErrorGrows(moved.value, v);
          GrownRows(moved.value, ErrorRow(moved.value, v), i);
        }
      }
    }
  }

  lemma PlacingWrites(t: Tables, k: Key, v: Version, i: Ino)
    requires Plain(t, i)
    ensures
      var u := AttachOrInsert(t, k, v).0;
      var written := k in t.names && t.names[k] == i && v.content.Some? && !NewerLocally(t, i, v.ms);
      i in u.content && u.content[i] == if written then v.content.value else t.content[i]
    ensures NewerLocally(t, i, v.ms) || k !in t.names || t.names[k] != i ==> Kept(t, AttachOrInsert(t, k, v).0, i)
  {
    if k in t.names {
      assert RowsOf(AttachOrInsert(t, k, v).0, i) == RowsOf(t, i);
    } else {
      assert RowsOf(AttachOrInsert(t, k, v).0, i) == RowsOf(t, i);
    }
  }

  /** The inode a version is about, if it gets as far as writing one that exists. */
  ghost function Target(t: Tables, v: Version): Option<Ino>
    requires v.place != []
  {
    var mapped := InoOf(t, v.id);
    if mapped.Some? then
      if AlreadyMirrored(t, mapped.value, v) || RenameTo(t, mapped.value, v.place).None? then None else mapped
    else At(t, v.place)
  }

  /** The version's text replaces the file's. */
  ghost predicate Lands(t: Tables, v: Version, i: Ino)
    requires v.place != []
  {
    v.status == Done && v.content.Some? && !NewerLocally(t, i, v.ms) && Target(t, v) == Some(i)
  }

  /** The tables a step can find: numbered rows, mapped inodes numbered too. */
  ghost predicate Usable(t: Tables) {
    Numbered(t) && forall i | i in t.remote :: i < t.next
  }

  /** A version changes a plain file's bytes exactly when it lands there; a file with a local write
      newer than the version keeps its bytes, its mark and its rows. */
  lemma RemoteWrites(t: Tables, v: Version, i: Ino)
    requires Usable(t) && v.place != [] && v.errorPlace != [] && Plain(t, i)
    ensures
      var u := ReconciledRows(t, v);
      i in u.content && u.content[i] == if Lands(t, v, i) then v.content.value else t.content[i]
    ensures NewerLocally(t, i, v.ms) ==> Kept(t, ReconciledRows(t, v), i)
  {
    var mapped := InoOf(t, v.id);
    if mapped.Some? {
      UpdateWrites(t, mapped.value, v, i);
    } else if v.status != Done {
      ErrorGrows(t, v);
      GrownRows(t, ErrorRow(t, v), i);
    } else {
      var up := ParentRows(t, v.place);
      EnsureGrows(t, v.place, |v.place| - 1);
      GrownRows(t, up.tables, i);
      PlaceFound(t, v.place);
      PlacingWrites(up.tables, KeyOf(up, v.place), v, i);
    }
  }

  // ---- Which rows a step takes away ----

  /** The version has its document's inode `j` moved: it is newer than what is known of it, and
      there is nothing yet at its place. */
  ghost predicate Moves(t: Tables, v: Version, j: Ino)
    requires j in t.remote && v.place != []
  {
    !NewerLocally(t, j, v.ms) && !AlreadyMirrored(t, j, v) && |RowsOf(t, j)| == 1 && At(t, v.place) == None
  }

  /** The step moves or removes the inode. */
  ghost predicate Uproots(t: Tables, e: Step, j: Ino)
    requires Readable(e)
  {
    match e
    case Remote(v) => InoOf(t, v.id) == Some(j) && Moves(t, v, j)
    case Scan(listed) => j in GoneRows(t, listed)
    case _ => false
  }

  /** All rows stay but those of `gone`, and no inode gets a second one. */
  ghost predicate RowsStay(t: Tables, u: Tables, gone: iset<Ino>) {
    && Usable(u) && t.next <= u.next && (OneEntryEach(t.names) ==> OneEntryEach(u.names))
    && forall k | k in t.names && t.names[k] !in gone :: k in u.names && u.names[k] == t.names[k]
  }

  /** After a move the inode has the one row that names it at its new place, and other rows stay. */
  lemma MovedRows(t: Tables, j: Ino, l: Location)
    requires Usable(t) && l != [] && j < t.next && RenameTo(t, j, l).Some? && At(t, l) == None
    ensures RowsStay(t, RenameTo(t, j, l).value, iset{j})
    ensures RowsOf(RenameTo(t, j, l).value, j) == {KeyOf(ParentRows(t, l), l)}
  {
    MoveIs(t, j, l);
    MovedRowsAt(t, j, l, ParentRows(t, l), RenameTo(t, j, l).value);
  }

  lemma MovedRowsAt(t: Tables, j: Ino, l: Location, up: Spot, m: Tables)
    requires Usable(t) && l != [] && j < t.next && up == ParentRows(t, l) && |RowsOf(t, j)| == 1
    requires KeyOf(up, l) !in up.tables.names
    requires m == up.tables.(names := (up.tables.names - RowsOf(t, j))[KeyOf(up, l) := j])
    ensures RowsStay(t, m, iset{j}) && RowsOf(m, j) == {KeyOf(up, l)}
  {
    EnsureGrows(t, l, |l| - 1);
    GrownRows(t, up.tables, j);
    MovedRowsIn(t, up.tables, m, j, KeyOf(up, l));
  }

  lemma MovedRowsIn(t: Tables, up: Tables, m: Tables, j: Ino, k: Key)
    requires Usable(t) && Grows(t, up) && SameFiles(t, up) && RowsOf(up, j) == RowsOf(t, j) != {} && j < t.next
    requires k.0 < up.next && k !in up.names && m == up.(names := (up.names - RowsOf(t, j))[k := j])
    ensures RowsStay(t, m, iset{j}) && RowsOf(m, j) == {k}
  {
    MovedEntries(up.names, RowsOf(t, j), k, j);
  }

  lemma MovedEntries(d: Dentries, rows: set<Key>, k: Key, j: Ino)
    requires rows == LinkCounts.Names(d, j) && k !in d
    ensures
      var d' := (d - rows)[k := j];
      && LinkCounts.Names(d', j) == {k} && (forall r | r in d && d[r] != j :: r in d' && d'[r] == d[r])
      && (OneEntryEach(d) && rows != {} ==> OneEntryEach(d'))
  {
    if r :| r in rows {
      assert OneEntryEach(d) ==> j != ROOT;
    }
  }

  lemma GrownStays(t: Tables, u: Tables, w: Tables, gone: iset<Ino>)
    requires RowsStay(t, u, gone) && Grows(u, w) && w.remote == u.remote
    ensures RowsStay(t, w, gone)
  {
  }

  lemma UpdateStays(t: Tables, j: Ino, v: Version)
    requires Usable(t) && v.place != [] && v.errorPlace != [] && j in t.remote
    ensures RowsStay(t, UpdateRows(t, j, v).0, if Moves(t, v, j) then iset{j} else iset{})
  {
    if !NewerLocally(t, j, v.ms) && !AlreadyMirrored(t, j, v) {
      MoveIs(t, j, v.place);
      if RenameTo(t, j, v.place).None? {
        EnsureGrows(t, v.place, |v.place| - 1);
      } else {
        if At(t, v.place) == None {
          MovedRows(t, j, v.place);
        }
        MovedStays(t, RenameTo(t, j, v.place).value, j, v, if Moves(t, v, j) then iset{j} else iset{});
      }
    }
  }

  lemma MovedStays(t: Tables, m: Tables, j: Ino, v: Version, gone: iset<Ino>)
    requires RowsStay(t, m, gone) && v.errorPlace != [] && j in m.remote
    ensures
      RowsStay(t, if v.status == Done then SetMirrored(Rewrite(m, j, v.content), j, v.ms) else ErrorRow(m, v), gone)
  {
    if v.status != Done {
      ErrorGrows(m, v);
      GrownStays(t, m, ErrorRow(m, v), gone);
    }
  }

  lemma AddStays(t: Tables, v: Version)
    requires Usable(t) && v.place != [] && v.errorPlace != []
    ensures RowsStay(t, AddRows(t, v).0, iset{})
  {
    if v.status != Done {
      ErrorGrows(t, v);
    } else {
      var up := ParentRows(t, v.place);
      EnsureGrows(t, v.place, |v.place| - 1);
      PlacingStays(up.tables, KeyOf(up, v.place), v);
    }
  }

  lemma PlacingStays(t: Tables, k: Key, v: Version)
    requires Usable(t) && k.0 < t.next
    ensures RowsStay(t, AttachOrInsert(t, k, v).0, iset{}) && Grows(t, AttachOrInsert(t, k, v).0)
  {
    if k !in t.names {
      NewRowGrows(t, AttachOrInsert(t, k, v).0, k);
    }
  }

  /** A step keeps every row but those of the inodes it uproots. */
  lemma StepStays(t: Tables, e: Step)
    requires Usable(t) && Readable(e) && (e.Sent? ==> e.i < t.next)
    ensures RowsStay(t, After(t, e), iset j | Uproots(t, e, j))
  {
    match e
    case Remote(v) =>
      var mapped := InoOf(t, v.id);
      if mapped.Some? {
        UpdateStays(t, mapped.value, v);
        assert Moves(t, v, mapped.value) <==> Uproots(t, e, mapped.value);
      } else {
        AddStays(t, v);
      }
    case Scan(listed) =>
    case Write(_, _, _) =>
    case Truncate(_, _) =>
    case Sent(_, _) =>
  }

  /** An uprooted inode has no row afterwards, or only the one that names it at the version's place. */
  lemma UprootedRows(t: Tables, e: Step, j: Ino)
    requires Usable(t) && Readable(e) && Uproots(t, e, j)
    ensures e.Scan? ==> RowsOf(After(t, e), j) == {}
    ensures e.Remote? ==> RowsOf(After(t, e), j) == {KeyOf(ParentRows(t, e.v.place), e.v.place)}
  {
    if e.Remote? {
      var v := e.v;
      MoveIs(t, j, v.place);
      MovedRows(t, j, v.place);
      var m := RenameTo(t, j, v.place).value;
      if v.status != Done {
        ErrorGrows(m, v);
        GrownRows(m, ErrorRow(m, v), j);
      } else {
        assert RowsOf(SetMirrored(Rewrite(m, j, v.content), j, v.ms), j) == RowsOf(m, j);
      }
    }
  }

  // ---- What becomes of a path ----

  /** The path passes through the inode. */
  ghost predicate Through(t: Tables, l: Location, j: Ino) {
    exists n :: 0 < n < |l| && At(t, l[..n]) == Some(j)
  }

  /** The step uproots something on the path. */
  ghost predicate Breaks(t: Tables, e: Step, l: Location)
    requires Readable(e)
  {
    exists n :: 0 < n < |l| && At(t, l[..n]).Some? && Uproots(t, e, At(t, l[..n]).value)
  }

  lemma {:induction false} PathStays(t: Tables, e: Step, l: Location, n: nat)
    requires Usable(t) && Readable(e) && (e.Sent? ==> e.i < t.next) && n <= |l| && At(t, l).Some?
    requires !Breaks(t, e, l) && (l != [] ==> !Uproots(t, e, At(t, l).value))
    ensures At(t, l[..n]).Some? && At(After(t, e), l[..n]) == At(t, l[..n])
    decreases n
  {
    StepStays(t, e);
    assert l == l[..n] + l[n..];
    WalkAppend(t.names, ROOT, l[..n], l[n..]);
    if n > 0 {
      PathStays(t, e, l, n - 1);
      assert l[..n] == l[..n - 1] + [l[n - 1]];
      WalkSnoc(t.names, ROOT, l[..n - 1], l[n - 1]);
      WalkSnoc(After(t, e).names, ROOT, l[..n - 1], l[n - 1]);
      assert l[..|l|] == l;
    }
  }

  /** If an inode is still on a path, and nothing between it and `m` was uprooted, what was at `m`
      still is. */
  lemma {:induction false} TraceBack(t: Tables, e: Step, l: Location, m: nat, n: nat)
    requires Usable(t) && OneEntryEach(t.names) && Readable(e) && (e.Sent? ==> e.i < t.next)
    requires n <= m <= |l| && At(t, l[..m]).Some? && At(After(t, e), l[..m]) == At(t, l[..m])
    requires forall k | n < k <= m :: At(t, l[..k]).Some? ==> !Uproots(t, e, At(t, l[..k]).value)
    ensures At(t, l[..n]).Some? && At(After(t, e), l[..n]) == At(t, l[..n])
    decreases m
  {
    if n < m {
      StepStays(t, e);
      var u, q := After(t, e), l[..m];
      WalkLast(t.names, ROOT, q);
      WalkLast(u.names, ROOT, q);
      assert q[..m - 1] == l[..m - 1];
      TraceBack(t, e, l, m - 1, n);
    }
  }

  /** The inodes the parents of `l` lead through, from the root. */
  ghost function ParentInos(t: Tables, l: Location): (xs: seq<Ino>)
    requires l != []
    ensures |xs| == |l| && forall m | 0 <= m < |l| :: xs[m] == EnsureRows(t, l, m).ino
  {
    seq(|l|, m requires 0 <= m < |l| => EnsureRows(t, l, m).ino)
  }

  /** Rows lead down the path `l` through `xs`, except to `j`, whose one row is the last. */
  ghost predicate LeadsDown(u: Tables, l: Location, xs: seq<Ino>, j: Ino) {
    && |xs| == |l| > 0 && xs[0] == ROOT && OneEntryEach(u.names)
    && (forall m | 0 < m < |l| && xs[m] != j ::
          (xs[m - 1], l[m - 1]) in u.names && u.names[(xs[m - 1], l[m - 1])] == xs[m])
    && RowsOf(u, j) == {(xs[|l| - 1], l[|l| - 1])}
  }

  lemma NeverRoot(u: Tables, l: Location, xs: seq<Ino>, j: Ino, m: nat)
    requires LeadsDown(u, l, xs, j) && 0 < m < |l|
    ensures xs[m] != ROOT
  {
    assert (xs[|l| - 1], l[|l| - 1]) in RowsOf(u, j);
    if xs[m] != j {
      assert u.names[(xs[m - 1], l[m - 1])] == xs[m];
    }
  }

  /** So any path to one of them is the beginning of `l`, or goes around by `j`. */
  lemma {:induction false} ComesDown(u: Tables, l: Location, xs: seq<Ino>, j: Ino, q: Location, m: nat)
    requires LeadsDown(u, l, xs, j) && m < |l| && At(u, q) == Some(xs[m])
    ensures q == l[..m] || (l <= q && At(u, l) == Some(j))
    decreases |q|
  {
    if m > 0 {
      NeverRoot(u, l, xs, j, m);
    }
    if q != [] {
      WalkLast(u.names, ROOT, q);
      Snoc(q);
      var up := q[..|q| - 1];
      var k := (At(u, up).value, q[|q| - 1]);
      assert u.names[k] == xs[m];
      if xs[m] == j {
        assert k in RowsOf(u, j);
        ComesDown(u, l, xs, j, up, |l| - 1);
        Snoc(l);
      } else if m > 0 {
        ComesDown(u, l, xs, j, up, m - 1);
        Snoc(l[..m]);
        assert l[..m][..m - 1] == l[..m - 1];
      }
    }
  }

  /** The one path to `j`, if any, is `l`. */
  lemma OnlyAt(u: Tables, l: Location, xs: seq<Ino>, j: Ino, q: Location)
    requires LeadsDown(u, l, xs, j) && At(u, q) == Some(j)
    ensures q == l
  {
    assert (xs[|l| - 1], l[|l| - 1]) in RowsOf(u, j);
    WalkLast(u.names, ROOT, q);
    Snoc(q);
    Snoc(l);
    assert (At(u, q[..|q| - 1]).value, q[|q| - 1]) in RowsOf(u, j);
    ComesDown(u, l, xs, j, q[..|q| - 1], |l| - 1);
    if l <= q[..|q| - 1] && At(u, l) == Some(j) {
      PathUnique(u.names, q, l);
    }
  }

  /** The rows of a move's new parents stay, whatever is written afterwards. */
  lemma MoveLeadsDown(t: Tables, v: Version, j: Ino)
    requires Usable(t) && OneEntryEach(t.names) && v.place != [] && v.errorPlace != [] && Uproots(t, Remote(v), j)
    ensures LeadsDown(After(t, Remote(v)), v.place, ParentInos(t, v.place), j)
  {
    var l, u, xs := v.place, After(t, Remote(v)), ParentInos(t, v.place);
    StepStays(t, Remote(v));
    UprootedRows(t, Remote(v), j);
    forall m | 0 < m < |l| && xs[m] != j
      ensures (xs[m - 1], l[m - 1]) in u.names && u.names[(xs[m - 1], l[m - 1])] == xs[m]
    {
      NewParentStays(t, v, j, m);
    }
  }

  lemma NewParentStays(t: Tables, v: Version, j: Ino, m: nat)
    requires Usable(t) && v.place != [] && v.errorPlace != [] && Uproots(t, Remote(v), j)
    requires 0 < m < |v.place| && EnsureRows(t, v.place, m).ino != j
    ensures
      var u, k := After(t, Remote(v)), (EnsureRows(t, v.place, m - 1).ino, v.place[m - 1]);
      k in u.names && u.names[k] == EnsureRows(t, v.place, m).ino
  {
    ParentRowStays(t, v.place, m, |v.place| - 1);
    MovedKeeps(t, v, j, (EnsureRows(t, v.place, m - 1).ino, v.place[m - 1]));
  }

  lemma {:induction false} ParentRowStays(t: Tables, l: Location, m: nat, n: nat)
    requires Numbered(t) && 0 < m <= n <= |l|
    ensures
      var k, names := (EnsureRows(t, l, m - 1).ino, l[m - 1]), EnsureRows(t, l, n).tables.names;
      k in names && names[k] == EnsureRows(t, l, m).ino
    decreases n
  {
    if m < n {
      ParentRowStays(t, l, m, n - 1);
    }
  }

  lemma MovedKeeps(t: Tables, v: Version, j: Ino, k: Key)
    requires Usable(t) && v.place != [] && v.errorPlace != [] && Uproots(t, Remote(v), j)
    requires var names := ParentRows(t, v.place).tables.names; k in names && names[k] != j
    ensures var u := After(t, Remote(v)); k in u.names && u.names[k] == ParentRows(t, v.place).tables.names[k]
  {
    MoveIs(t, j, v.place);
    MovedRows(t, j, v.place);
    var m := RenameTo(t, j, v.place).value;
    assert k in m.names && m.names[k] == ParentRows(t, v.place).tables.names[k];
    if v.status != Done {
      ErrorGrows(m, v);
    }
  }

  /** Once an inode on a path is uprooted, the path no longer leads there. */
  lemma UprootedIsElsewhere(t: Tables, e: Step, q: Location, j: Ino)
    requires Usable(t) && OneEntryEach(t.names) && Readable(e) && Uproots(t, e, j) && q != [] && At(t, q) == Some(j)
    ensures At(After(t, e), q) != Some(j)
  {
    var u := After(t, e);
    UprootedRows(t, e, j);
    if At(u, q) == Some(j) {
      WalkLast(u.names, ROOT, q);
      assert (At(u, q[..|q| - 1]).value, q[|q| - 1]) in RowsOf(u, j);
      if e.Remote? {
        MoveLeadsDown(t, e.v, j);
        OnlyAt(u, e.v.place, ParentInos(t, e.v.place), j, q);
      }
    }
  }

  /** The last place on a path where the step breaks it. */
  lemma {:induction false} LastBreak(t: Tables, e: Step, l: Location, m: nat) returns (n: nat)
    requires Readable(e) && m < |l|
    requires exists n :: 0 < n <= m && At(t, l[..n]).Some? && Uproots(t, e, At(t, l[..n]).value)
    ensures 0 < n <= m && At(t, l[..n]).Some? && Uproots(t, e, At(t, l[..n]).value)
    ensures forall k | n < k <= m :: At(t, l[..k]).Some? ==> !Uproots(t, e, At(t, l[..k]).value)
    decreases m
  {
    if At(t, l[..m]).Some? && Uproots(t, e, At(t, l[..m]).value) {
      n := m;
    } else {
      n := LastBreak(t, e, l, m - 1);
    }
  }

  /** A file that is not itself uprooted keeps its path exactly if nothing on the path is. */
  lemma PathKeptIff(t: Tables, e: Step, l: Location)
    requires Usable(t) && OneEntryEach(t.names) && Readable(e) && (e.Sent? ==> e.i < t.next)
    requires l != [] && At(t, l).Some? && !Uproots(t, e, At(t, l).value)
    ensures At(After(t, e), l) == At(t, l) <==> !Breaks(t, e, l)
  {
    assert l[..|l|] == l;
    if !Breaks(t, e, l) {
      PathStays(t, e, l, |l|);
    } else if At(After(t, e), l) == At(t, l) {
      var n := LastBreak(t, e, l, |l| - 1);
      TraceBack(t, e, l, |l|, n);
      UprootedIsElsewhere(t, e, l[..n], At(t, l[..n]).value);
    }
  }

  // ---- Runs ----

  /** The file is dirty since `since` or later. */
  ghost predicate Guarded(t: Tables, i: Ino, since: int) {
    Plain(t, i) && i in t.dirty && t.dirty[i] >= since
  }

  /** Documents met are older than `since`, local writes to the file are not, and no push of the
      file finishes. */
  ghost predicate Spares(es: seq<Step>, i: Ino, since: int) {
    forall e | e in es ::
      && Readable(e)
      && (e.Remote? ==> e.v.ms.Some? && e.v.ms.value < since)
      && (e.Write? && e.i == i ==> e.now >= since)
      && (e.Sent? ==> e.i != i)
  }

  /** Pushes are of inodes there are. */
  ghost predicate SendsOld(es: seq<Step>, next: Ino) {
    forall e | e in es && e.Sent? :: e.i < next
  }

  /** The file's bytes if only the local edits counted. */
  function LocalBytes(es: seq<Step>, i: Ino, before: string): string
    decreases |es|
  {
    if es == [] then before
    else
      match es[|es| - 1]
      case Write(j, bytes, _) => if j == i then bytes else LocalBytes(es[..|es| - 1], i, before)
      case Truncate(j, bytes) => if j == i then bytes else LocalBytes(es[..|es| - 1], i, before)
      case _ => LocalBytes(es[..|es| - 1], i, before)
  }

  lemma ScanSpares(t: Tables, listed: set<DocId>, i: Ino)
    requires Plain(t, i) && (i in t.dirty || i !in t.remote)
    ensures Kept(t, ScanRows(t, listed), i)
  {
    assert RowsOf(ScanRows(t, listed), i) == RowsOf(t, i);
  }

  lemma StepGuards(t: Tables, e: Step, i: Ino, since: int)
    requires Usable(t) && Guarded(t, i, since) && Spares([e], i, since) && (e.Sent? ==> e.i < t.next)
    ensures Guarded(After(t, e), i, since) && After(t, e).content[i] == LocalBytes([e], i, t.content[i])
    ensures RowsOf(After(t, e), i) == RowsOf(t, i) && !Uproots(t, e, i)
  {
    assert e in [e];
    match e
    case Remote(v) => RemoteWrites(t, v, i);
    case Scan(listed) => ScanSpares(t, listed, i);
    case Write(j, bytes, now) => assert RowsOf(After(t, e), i) == RowsOf(t, i);
    case Truncate(j, bytes) => assert RowsOf(After(t, e), i) == RowsOf(t, i);
    case Sent(j, posted) => assert RowsOf(After(t, e), i) == RowsOf(t, i);
  }

  /** Local edits survive sync: through any interleaving of older documents, scans, writes and
      pushes of other files, a dirty file keeps its rows, its mark and the bytes last put there locally. */
  lemma {:induction false} LocalEditsSurvive(t: Tables, es: seq<Step>, i: Ino, since: int)
    requires Usable(t) && Guarded(t, i, since) && Spares(es, i, since) && SendsOld(es, t.next)
    ensures
      var u := AfterAll(t, es);
      && Guarded(u, i, since) && u.content[i] == LocalBytes(es, i, t.content[i]) && RowsOf(u, i) == RowsOf(t, i)
      && Usable(u) && t.next <= u.next && (OneEntryEach(t.names) ==> OneEntryEach(u.names))
    decreases |es|
  {
    if es != [] {
      var init, e := es[..|es| - 1], es[|es| - 1];
      assert forall d | d in init :: d in es;
      LocalEditsSurvive(t, init, i, since);
      assert e in es && Spares([e], i, since);
      StepGuards(AfterAll(t, init), e, i, since);
      StepStays(AfterAll(t, init), e);
    }
  }

  // ---- Where the file is ----

  /** No step of the run uproots anything on the path, as it is when the step is taken. */
  ghost predicate NeverBreaks(t: Tables, es: seq<Step>, l: Location)
    requires forall e | e in es :: Readable(e)
    decreases |es|
  {
    es == []
    || (NeverBreaks(t, es[..|es| - 1], l) && !Breaks(AfterAll(t, es[..|es| - 1]), es[|es| - 1], l))
  }

  /** And if nothing on its path is ever uprooted, the file stays where it is. */
  lemma {:induction false} LocalEditsStay(t: Tables, es: seq<Step>, i: Ino, since: int, l: Location)
    requires Usable(t) && Guarded(t, i, since) && Spares(es, i, since) && SendsOld(es, t.next)
    requires At(t, l) == Some(i) && NeverBreaks(t, es, l)
    ensures At(AfterAll(t, es), l) == Some(i)
    decreases |es|
  {
    if es != [] {
      var init, e := es[..|es| - 1], es[|es| - 1];
      assert forall d | d in init :: d in es;
      LocalEditsSurvive(t, init, i, since);
      LocalEditsStay(t, init, i, since, l);
      assert e in es && Spares([e], i, since);
      StepGuards(AfterAll(t, init), e, i, since);
      PathStays(AfterAll(t, init), e, l, |l|);
      assert l[..|l|] == l;
    }
  }

  /** No directory on the path is mapped to a document. */
  ghost predicate Unmapped(t: Tables, l: Location) {
    forall n | 0 < n < |l| :: At(t, l[..n]).Some? ==> At(t, l[..n]).value !in t.remote
  }

  /** The step maps no directory on the path: no document is filed above the file, and none is posted
      from a directory. */
  ghost predicate KeepsOff(t: Tables, e: Step, l: Location) {
    && (e.Remote? ==> forall n | 0 < n < |l| :: e.v.place != l[..n])
    && (e.Sent? && e.posted.Some? ==> !Through(t, l, e.i))
  }

  /** Who is mapped after a version: who was, what was at its place, or a new inode. */
  lemma NewlyMapped(t: Tables, v: Version, j: Ino)
    requires Usable(t) && v.place != [] && v.errorPlace != [] && j in ReconciledRows(t, v).remote && j < t.next
    ensures j in t.remote || At(t, v.place) == Some(j)
  {
    var mapped := InoOf(t, v.id);
    if mapped.Some? {
      SyncedFs.UpdateKeeps(t, mapped.value, v);
    } else {
      AddMaps(t, v, j);
    }
  }

  lemma AddMaps(t: Tables, v: Version, j: Ino)
    requires Usable(t) && v.place != [] && v.errorPlace != [] && j in AddRows(t, v).0.remote && j < t.next
    ensures j in t.remote || At(t, v.place) == Some(j)
  {
    if v.status != Done {
      SyncedFs.DerivedKeeps(t, v);
    } else {
      SyncedFs.EnsureKeeps(t, v.place, |v.place| - 1);
      PlaceFound(t, v.place);
      NextGrows(t, v.place);
      PlacingMaps(ParentRows(t, v.place).tables, KeyOf(ParentRows(t, v.place), v.place), v);
    }
  }

  lemma NextGrows(t: Tables, l: Location)
    requires Numbered(t) && l != []
    ensures t.next <= ParentRows(t, l).tables.next
  {
    EnsureGrows(t, l, |l| - 1);
  }

  lemma PlacingMaps(t: Tables, k: Key, v: Version)
    ensures AttachOrInsert(t, k, v).0.remote.Keys == t.remote.Keys + {if k in t.names then t.names[k] else t.next}
  {
  }

  /** A step that keeps off the path breaks nothing on it, and leaves it unmapped. */
  lemma KeepsUnmapped(t: Tables, e: Step, l: Location)
    requires Usable(t) && OneEntryEach(t.names) && Readable(e) && (e.Sent? ==> e.i < t.next)
    requires At(t, l).Some? && (l != [] ==> !Uproots(t, e, At(t, l).value)) && Unmapped(t, l) && KeepsOff(t, e, l)
    ensures !Breaks(t, e, l) && Unmapped(After(t, e), l)
            && forall n | 0 <= n <= |l| :: At(After(t, e), l[..n]) == At(t, l[..n])
  {
    var u := After(t, e);
    forall n | 0 <= n <= |l| ensures At(t, l[..n]).Some? && At(u, l[..n]) == At(t, l[..n]) {
      PathStays(t, e, l, n);
    }
    forall n | 0 < n < |l| ensures At(u, l[..n]).value !in u.remote {
      PathNumbered(t, l[..n]);
      assert Through(t, l, At(t, l[..n]).value);
      if e.Remote? && At(t, l[..n]).value in u.remote {
        NewlyMapped(t, e.v, At(t, l[..n]).value);
        PathUnique(t.names, e.v.place, l[..n]);
      }
    }
  }

  lemma PathNumbered(t: Tables, q: Location)
    requires Numbered(t) && At(t, q).Some?
    ensures At(t, q).value < t.next
  {
    if q != [] {
      WalkLast(t.names, ROOT, q);
    }
  }

  ghost predicate AllKeepOff(t: Tables, es: seq<Step>, l: Location) {
    forall e | e in es :: KeepsOff(t, e, l)
  }

  /** The file stays where it is, in particular, if no directory above it stands for a document and
      none comes to: no document met is filed at one, and none is posted from one. */
  lemma {:induction false} LocalEditsStayPut(t: Tables, es: seq<Step>, i: Ino, since: int, l: Location)
    requires Usable(t) && OneEntryEach(t.names) && Guarded(t, i, since) && Spares(es, i, since) && SendsOld(es, t.next)
    requires l != [] && At(t, l) == Some(i) && Unmapped(t, l) && AllKeepOff(t, es, l)
    ensures NeverBreaks(t, es, l) && At(AfterAll(t, es), l) == Some(i) && Unmapped(AfterAll(t, es), l)
    ensures forall n | 0 <= n <= |l| :: At(AfterAll(t, es), l[..n]) == At(t, l[..n])
    decreases |es|
  {
    assert l[..|l|] == l;
    if es != [] {
      var init, e := es[..|es| - 1], es[|es| - 1];
      assert forall d | d in init :: d in es;
      LocalEditsSurvive(t, init, i, since);
      LocalEditsStayPut(t, init, i, since, l);
      var u := AfterAll(t, init);
      assert e in es && Spares([e], i, since) && KeepsOff(t, e, l);
      StepGuards(u, e, i, since);
      assert KeepsOff(u, e, l);
      KeepsUnmapped(u, e, l);
    }
  }

  // ---- Where the path is lost ----

  /** A directory `d` named `a`, and a file `f` named `c` in it. */
  function TwoRows(a: string, c: string, d: Ino, f: Ino): Dentries {
    map[(ROOT, a) := d, (d, c) := f]
  }

  lemma TwoPaths(t: Tables, a: string, c: string, d: Ino, f: Ino, b: string)
    requires t.names == TwoRows(a, c, d, f) && d != f && d != ROOT && f != ROOT
    ensures At(t, [a]) == Some(d) && At(t, [a, c]) == Some(f) && RowsOf(t, d) == {(ROOT, a)} && RowsOf(t, f) == {(d, c)}
    ensures b != a ==> At(t, [b]) == None && At(t, [b, c]) == None
  {
    assert [] + [a] == [a] && [] + [b] == [b] && [a] + [c] == [a, c] && [b] + [c] == [b, c];
    WalkSnoc(t.names, ROOT, [], a);
    WalkSnoc(t.names, ROOT, [], b);
    WalkSnoc(t.names, ROOT, [a], c);
    WalkSnoc(t.names, ROOT, [b], c);
  }

  /** The directory is clean, the file dirty, and nothing is mapped. */
  ghost predicate DirtyInDirectory(t: Tables, a: string, c: string, d: Ino, f: Ino) {
    && Usable(t) && t.names == TwoRows(a, c, d, f) && d != f && d != ROOT && f != ROOT
    && d in t.dirs && d !in t.dirty && f in t.dirty && t.remote == map[]
  }

  /** An old document filed at the directory's path takes the directory over: nothing stops it. */
  lemma DirectoryTakenOver(t: Tables, a: string, c: string, d: Ino, f: Ino, v: Version)
    requires DirtyInDirectory(t, a, c, d, f) && v.place == [a] && v.errorPlace != [] && v.status == Done && v.ms.Some?
    ensures
      var u := After(t, Remote(v));
      && u.names == t.names && u.remote == map[d := Mirror(v.id, v.ms)] && u.dirty == t.dirty && u.dirs == t.dirs
      && Usable(u)
  {
    assert InoOf(t, v.id) == None && ParentRows(t, v.place) == Spot(t, ROOT);
    assert After(t, Remote(v)) == Attach(t, d, v).0;
  }

  lemma OneMapped(t: Tables, d: Ino, id: DocId, ms: Option<int>)
    requires t.remote == map[d := Mirror(id, ms)]
    ensures InoOf(t, id) == Some(d)
  {
    assert t.remote[d].id == id;
  }

  /** When that document is filed elsewhere, the directory goes there, and the dirty file with it: its
      path leads nowhere. */
  lemma MovedDirectoryTakesFile(t: Tables, a: string, c: string, d: Ino, f: Ino, v: Version, w: Version, b: string)
    requires DirtyInDirectory(t, a, c, d, f) && v.place == [a] && v.errorPlace != [] && v.status == Done && v.ms.Some?
    requires a != b && w.id == v.id && w.place == [b] && w.errorPlace != []
    requires w.status == Done && w.ms.Some? && w.ms.value > v.ms.value
    ensures
      var u := After(After(t, Remote(v)), Remote(w));
      At(u, [a, c]) == None && At(u, [b, c]) == Some(f) && RowsOf(u, f) == RowsOf(t, f) && f in u.dirty
  {
    DirectoryTakenOver(t, a, c, d, f, v);
    TwoPaths(t, a, c, d, f, b);
    MovesDirectory(After(t, Remote(v)), a, c, d, f, w, b, v.ms.value);
    TwoPaths(After(After(t, Remote(v)), Remote(w)), b, c, d, f, a);
  }

  lemma MovesDirectory(s: Tables, a: string, c: string, d: Ino, f: Ino, w: Version, b: string, ms: int)
    requires Usable(s) && s.names == TwoRows(a, c, d, f) && d != f && d != ROOT && f != ROOT && d !in s.dirty
    requires s.remote == map[d := Mirror(w.id, Some(ms))] && a != b
    requires w.place == [b] && w.errorPlace != [] && w.status == Done && w.ms.Some? && w.ms.value > ms
    ensures
      var u := After(s, Remote(w));
      u.names == TwoRows(b, c, d, f) && u.dirty == s.dirty
  {
    OneMapped(s, d, w.id, Some(ms));
    TwoPaths(s, a, c, d, f, b);
    MoveIs(s, d, w.place);
    assert ParentRows(s, w.place) == Spot(s, ROOT);
    assert RenameTo(s, d, w.place).value.names == (s.names - {(ROOT, a)})[(ROOT, b) := d];
    assert (s.names - {(ROOT, a)})[(ROOT, b) := d] == TwoRows(b, c, d, f);
  }

  /** When that document is deleted, the directory goes, and the dirty file is on no path at all. */
  lemma RemovedDirectoryOrphansFile(t: Tables, a: string, c: string, d: Ino, f: Ino, v: Version, listed: set<DocId>,
                                    l: Location)
    requires DirtyInDirectory(t, a, c, d, f) && v.place == [a] && v.errorPlace != [] && v.status == Done && v.ms.Some?
    requires v.id !in listed
    ensures
      var u := After(After(t, Remote(v)), Scan(listed));
      f in u.dirty && RowsOf(u, f) == RowsOf(t, f) && At(u, l) != Some(f)
  {
    DirectoryTakenOver(t, a, c, d, f, v);
    TwoPaths(t, a, c, d, f, a);
    var s := After(t, Remote(v));
    TwoPaths(s, a, c, d, f, a);
    assert GoneRows(s, listed) == {d};
    Orphaned(After(s, Scan(listed)), c, d, f, l);
  }

  lemma Orphaned(u: Tables, c: string, d: Ino, f: Ino, l: Location)
    requires u.names == map[(d, c) := f] && d != f && d != ROOT && f != ROOT
    ensures RowsOf(u, f) == {(d, c)} && At(u, l) != Some(f)
  {
    assert l != [] ==> (ROOT, l[0]) !in u.names;
  }

  // ---- Scans ----

  /** A scan removes a file exactly when it is clean, mapped, has a row, and its document is gone;
      what it leaves has its document listed, is dirty, or had no row. */
  lemma ScanIsExact(t: Tables, listed: set<DocId>, i: Ino)
    requires i in t.remote && i in t.content && RowsOf(t, i) != {}
    ensures
      var u := ScanRows(t, listed);
      && (i in u.remote <==> t.remote[i].id in listed || i in t.dirty)
      && (i in u.content <==> i in u.remote) && (RowsOf(u, i) != {} <==> i in u.remote)
      && (i in u.remote ==> u.remote[i] == t.remote[i] && RowsOf(u, i) == RowsOf(t, i) && u.content[i] == t.content[i])
  {
    if i !in GoneRows(t, listed) {
      assert RowsOf(ScanRows(t, listed), i) == RowsOf(t, i);
    }
  }

  lemma NothingGone(t: Tables, listed: set<DocId>)
    requires GoneRows(t, listed) == {}
    ensures ScanRows(t, listed) == t
  {
    var u := ScanRows(t, listed);
    assert u.names == t.names && u.content == t.content && u.remote == t.remote && u.dirty == t.dirty;
  }

  /** Scanning the same listing again changes nothing. */
  lemma ScanTwice(t: Tables, listed: set<DocId>)
    ensures ScanRows(ScanRows(t, listed), listed) == ScanRows(t, listed)
  {
    var u := ScanRows(t, listed);
    forall i | i in u.remote ensures i !in GoneRows(u, listed) {
      if k :| k in RowsOf(u, i) {
        assert k in RowsOf(t, i);
      }
    }
    assert GoneRows(u, listed) == {};
    NothingGone(u, listed);
  }

  lemma {:induction false} EveryDocumentListed(h: seq<Version>, d: Version)
    requires d in h
    ensures exists e :: e in Listing(h) && e.id == d.id
  {
    var init, last := h[..|h| - 1], h[|h| - 1];
    assert Listing(h)[0] == last;
    if d.id != last.id {
      assert d in init;
      EveryDocumentListed(init, d);
      ExceptKeeps(Listing(init), last.id);
      var e :| e in Listing(init) && e.id == d.id;
      assert e in Except(Listing(init), last.id);
    } else {
      assert last in Listing(h);
    }
  }

  lemma MappedIsListed(s: Local, h: seq<Version>, i: Ino)
    requires OnlyPulled(s, h) && i in s.remote
    ensures exists e :: e in Listing(h) && e.id == s.remote[i].id
  {
    assert OneHome(s, i);
    var l :| LocationsOf(s, i) == {l};
    assert l in LocationsOf(s, i);
    assert Accounted(s, h, l);
    var d :| d in h && d.id == s.remote[i].id && d.place == l;
    EveryDocumentListed(h, d);
  }

  /** A scan of everything listed finds nothing to delete in tables that only pulls have filled, at
      whatever page they were cut short. */
  lemma ScanAfterPull(t: Tables, s: Local, h: seq<Version>)
    requires LooksLike(t, s) && OnlyPulled(s, h)
    ensures ScanRows(t, set d | d in Listing(h) :: d.id) == t
  {
    forall i | i in t.remote ensures exists e :: e in Listing(h) && e.id == t.remote[i].id {
      MappedIsListed(s, h, i);
    }
    NothingGone(t, set d | d in Listing(h) :: d.id);
  }

  // ---- Where the guard ends ----

  /** A finished version with text for a file it is mapped to, in its place, not yet mirrored. */
  ghost predicate Waiting(t: Tables, v: Version, i: Ino) {
    && Usable(t) && v.place != [] && v.errorPlace != [] && v.status == Done && v.content.Some?
    && Plain(t, i) && InoOf(t, v.id) == Some(i) && IsAt(t, i, v.place) && !AlreadyMirrored(t, i, v)
  }

  /** A waiting version is held off by a dirty mark newer than its stamp, and by nothing else. */
  lemma HeldOffIffNewer(t: Tables, v: Version, i: Ino)
    requires Waiting(t, v, i)
    ensures Holds(ReconciledRows(t, v), i, if NewerLocally(t, i, v.ms) then t.content[i] else v.content.value)
  {
    RemoteWrites(t, v, i);
  }

  predicate Holds(t: Tables, i: Ino, bytes: string) {
    i in t.content && t.content[i] == bytes
  }

  lemma StillWaiting(t: Tables, u: Tables, v: Version, i: Ino)
    requires Waiting(t, v, i) && Injective(t.remote)
    requires u.names == t.names && u.remote == t.remote && u.next == t.next && u.derived == t.derived && i in u.content
    ensures Waiting(u, v, i)
  {
    assert InoOf(u, v.id) == InoOf(t, v.id) && RowsOf(u, i) == RowsOf(t, i);
  }

  /** The mark goes with the first push that finishes, even one that sent older bytes: a write made
      while a push was under way is then overwritten by a document older than it. */
  lemma PushEndsProtection(t: Tables, v: Version, i: Ino, bytes: string, now: int)
    requires Injective(t.remote) && Waiting(t, v, i) && v.ms.Some? && v.ms.value < now
    ensures Holds(AfterAll(t, [Write(i, bytes, now), Remote(v)]), i, bytes)
    ensures Holds(AfterAll(t, [Write(i, bytes, now), Sent(i, None), Remote(v)]), i, v.content.value)
  {
    var w := After(t, Write(i, bytes, now));
    var c := After(w, Sent(i, None));
    StillWaiting(t, w, v, i);
    StillWaiting(t, c, v, i);
    HeldOffIffNewer(w, v, i);
    HeldOffIffNewer(c, v, i);
    RunOfTwo(t, Write(i, bytes, now), Remote(v));
    RunOfThree(t, Write(i, bytes, now), Sent(i, None), Remote(v));
  }

  /** A truncation leaves a clean file unprotected, where a write would not. */
  lemma TruncationIsUnprotected(t: Tables, v: Version, i: Ino, bytes: string, now: int)
    requires Injective(t.remote) && Waiting(t, v, i) && i !in t.dirty && v.ms.Some? && v.ms.value < now
    ensures Holds(AfterAll(t, [Truncate(i, bytes), Remote(v)]), i, v.content.value)
    ensures Holds(AfterAll(t, [Write(i, bytes, now), Remote(v)]), i, bytes)
  {
    var u, w := After(t, Truncate(i, bytes)), After(t, Write(i, bytes, now));
    StillWaiting(t, u, v, i);
    StillWaiting(t, w, v, i);
    HeldOffIffNewer(u, v, i);
    HeldOffIffNewer(w, v, i);
    RunOfTwo(t, Truncate(i, bytes), Remote(v));
    RunOfTwo(t, Write(i, bytes, now), Remote(v));
  }

  /** A file whose first push finishes after a scan's listing was taken is deleted by that scan. */
  lemma StaleListingDeletes(t: Tables, i: Ino, id: DocId, listed: set<DocId>)
    requires Plain(t, i) && RowsOf(t, i) != {} && id !in listed
    ensures i !in AfterAll(t, [Sent(i, Some(id)), Scan(listed)]).content
  {
    var u := After(t, Sent(i, Some(id)));
    assert RowsOf(u, i) == RowsOf(t, i);
    ScanIsExact(u, listed, i);
    RunOfTwo(t, Sent(i, Some(id)), Scan(listed));
  }

  lemma RunOfTwo(t: Tables, a: Step, b: Step)
    requires Readable(a) && Readable(b)
    ensures AfterAll(t, [a, b]) == After(After(t, a), b)
  {
    assert [a, b][..1] == [a] && [a][..0] == [];
    assert AfterAll(t, [a]) == After(AfterAll(t, []), a);
  }

  lemma RunOfThree(t: Tables, a: Step, b: Step, c: Step)
    requires Readable(a) && Readable(b) && Readable(c)
    ensures AfterAll(t, [a, b, c]) == After(After(After(t, a), b), c)
  {
    RunOfTwo(t, a, b);
    assert [a, b, c][..2] == [a, b];
  }
}
