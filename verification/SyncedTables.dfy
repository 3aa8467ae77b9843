/** The pull side on the tables as they are stored: one row per entry, keyed by parent inode and name.
    Moving a directory's row moves what lies below it, and deleting it cuts that off. */
module SyncedTables {
  import opened Wrappers
  import opened Reconcile
  import opened Paths
  import Namespace
  import LinkCounts

  type Tables = Store<Dentries>

  const ROOT: Ino := Namespace.ROOT

  /** What a path leads to. */
  function At(t: Tables, l: Location): Option<Ino> {
    Walk(t.names, ROOT, l)
  }

  function RowsOf(t: Tables, i: Ino): set<Namespace.Key> {
    LinkCounts.Names(t.names, i)
  }

  // ---- Effects on the rows ----

  /** The tables, and the inode a path has led to in them. */
  datatype Spot = Spot(tables: Tables, ino: Ino)

  /** One component of `ensure_dirs`: passed through, or made a directory. */
  function StepInto(at: Spot, c: string): Spot {
    var k, t := (at.ino, c), at.tables;
    if k in t.names then Spot(t, t.names[k])
    else Spot(t.(names := t.names[k := t.next], dirs := t.dirs + {t.next}, next := t.next + 1), t.next)
  }

  /** `ensure_dirs` for the first `n` components. */
  function EnsureRows(t: Tables, l: Location, n: nat): Spot
    requires n <= |l|
  {
    if n == 0 then Spot(t, ROOT) else StepInto(EnsureRows(t, l, n - 1), l[n - 1])
  }

  function ParentRows(t: Tables, l: Location): Spot
    requires l != []
  {
    EnsureRows(t, l, |l| - 1)
  }

  /** The key a path has once its parent exists. */
  function KeyOf(up: Spot, l: Location): Namespace.Key
    requires l != []
  {
    (up.ino, l[|l| - 1])
  }

  /** `UPDATE fs_dentry`: refused when the inode has no row, or two that would become one, or
      another one's row is in the way. */
  function MoveRow(t: Tables, i: Ino, k: Namespace.Key): Option<Tables> {
    if |RowsOf(t, i)| != 1 || (k in t.names && t.names[k] != i) then None
    else Some(t.(names := (t.names - RowsOf(t, i))[k := i]))
  }

  /** The inode's one path is `l`. */
  predicate IsAt(t: Tables, i: Ino, l: Location) {
    |RowsOf(t, i)| == 1 && At(t, l) == Some(i)
  }

  /** `apply_rename_to`, unless the inode is there already. */
  function RenameTo(t: Tables, i: Ino, l: Location): Option<Tables>
    requires l != []
  {
    if IsAt(t, i, l) then Some(t) else MoveRow(ParentRows(t, l).tables, i, KeyOf(ParentRows(t, l), l))
  }

  /** `create_derived_sibling`. */
  function DeriveRow(t: Tables, l: Location, text: string): Tables
    requires l != []
  {
    var up := ParentRows(t, l);
    var s, k := up.tables, KeyOf(up, l);
    if k in s.names then
      if s.names[k] in s.derived then s.(content := s.content[s.names[k] := text]) else s
    else
      s.(names := s.names[k := s.next], content := s.content[s.next := text], derived := s.derived + {s.next},
        next := s.next + 1)
  }

  function ErrorRow(t: Tables, v: Version): Tables
    requires v.errorPlace != []
  {
    if v.status == Failed then DeriveRow(t, v.errorPlace, v.report) else t
  }

  // ---- Reconciling one version ----

  function UpdateRows(t: Tables, i: Ino, v: Version): (Tables, Outcome)
    requires i in t.remote && v.place != [] && v.errorPlace != []
  {
    if NewerLocally(t, i, v.ms) then (t, SkippedDirty)
    else if AlreadyMirrored(t, i, v) then (t, Unchanged)
    else
      var moved := RenameTo(t, i, v.place);
      if moved.None? then (ParentRows(t, v.place).tables, Refused)
      else if v.status == Done then (SetMirrored(Rewrite(moved.value, i, v.content), i, v.ms), Updated)
      else (ErrorRow(moved.value, v), Updated)
  }

  function AddRows(t: Tables, v: Version): (Tables, Outcome)
    requires v.place != [] && v.errorPlace != []
  {
    if v.status != Done then (ErrorRow(t, v), Deferred)
    else AttachOrInsert(ParentRows(t, v.place).tables, KeyOf(ParentRows(t, v.place), v.place), v)
  }

  /** Nothing looks at what kind of inode the document takes over: it may be a directory. */
  function AttachOrInsert(t: Tables, k: Namespace.Key, v: Version): (Tables, Outcome) {
    if k in t.names then Attach(t, t.names[k], v)
    else (Fill(t.(names := t.names[k := t.next], next := t.next + 1), t.next, v), Created)
  }

  /** `reconcile_one`. */
  ghost function ReconcileRows(t: Tables, v: Version): (Tables, Outcome)
    requires v.place != [] && v.errorPlace != []
  {
    var existing := InoOf(t, v.id);
    if existing.Some? then UpdateRows(t, existing.value, v) else AddRows(t, v)
  }

  ghost function ReconciledRows(t: Tables, v: Version): Tables
    requires v.place != [] && v.errorPlace != []
  {
    ReconcileRows(t, v).0
  }

  ghost function ReconcileAllRows(t: Tables, vs: seq<Version>): Tables
    requires Placed(vs)
  {
    if vs == [] then t else ReconciledRows(ReconcileAllRows(t, vs[..|vs| - 1]), vs[|vs| - 1])
  }

  // ---- Pulls and scans ----

  /** `delta_pull` while `served` pages can be listed. */
  ghost function DeltaRows(t: Tables, listing: seq<Version>, served: nat): Tables
    requires Placed(listing)
  {
    var n := Unseen(t.watermark, listing);
    if CutShort(n, |listing|, served) then ReconcileAllRows(t, Met(listing, served))
    else StoreWatermark(ReconcileAllRows(t, listing[..n]), Newest(t.watermark, listing[..n]))
  }

  /** `full_pull` while `served` pages can be listed. */
  ghost function FullRows(t: Tables, listing: seq<Version>, served: nat): Tables
    requires Placed(listing)
  {
    if CutShort(|listing|, |listing|, served) then ReconcileAllRows(t, Met(listing, served))
    else StoreWatermark(ReconcileAllRows(t, listing), Newest("", listing))
  }

  /** The inodes a deletion scan removes: mapped, clean, with a row, their document gone. */
  function GoneRows(t: Tables, listed: set<DocId>): set<Ino> {
    set i | i in t.remote && t.remote[i].id !in listed && i !in t.dirty && RowsOf(t, i) != {}
  }

  /** `apply_deletion` for each of them: its rows go, rows below it stay. */
  function RemoveRows(t: Tables, gone: set<Ino>): Tables {
    t.(names := map k | k in t.names && t.names[k] !in gone :: t.names[k],
       dirs := t.dirs - gone, content := t.content - gone, derived := t.derived - gone, remote := t.remote - gone,
       dirty := t.dirty - gone)
  }

  function ScanRows(t: Tables, listed: set<DocId>): Tables {
    RemoveRows(t, GoneRows(t, listed))
  }
}
