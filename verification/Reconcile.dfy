/** Folding timestamped remote versions into the local cache. Text documents; the cache is seen from
    outside here, as a map from locations, the components of a path, to inodes. */
module Reconcile {
  import opened Wrappers
  import opened Strings
  import opened Timestamps

  type Ino = nat
  type DocId = string
  type Location = seq<string>

  datatype Status = Done | Failed | Processing

  /** A document as listed; `report` is the text of the error file written if it failed. */
  datatype Doc = Doc(id: DocId, filepath: Option<string>, updatedAt: string, status: Status,
                     content: Option<string>, report: string)

  /** A listed document with its stamp parsed and its place, and that of its error file, found. */
  datatype Version = Version(id: DocId, place: Location, errorPlace: Location, stamp: string, ms: Option<int>,
                             status: Status, content: Option<string>, report: string)

  /** A `fs_remote` row: the document and the version last mirrored from it. */
  datatype Mirror = Mirror(id: DocId, mirrored: Option<int>)

  /** The tables of the cache, over whatever names its inodes. */
  datatype Store<N> = Store(
    names: N,
    dirs: set<Ino>,
    content: map<Ino, string>,
    dirty: map<Ino, int>,
    derived: set<Ino>,
    remote: map<Ino, Mirror>,
    next: Ino,
    watermark: string)

  /** The cache seen from outside: inodes are named by where they are. */
  type Local = Store<map<Location, Ino>>

  datatype Outcome = Created | Attached | Updated | Unchanged | SkippedDirty | Deferred | Refused

  // ---- Lookups ----

  /** The path a document is filed under: its own if it is one, else one made of its id. */
  function EffectivePath(doc: Doc): string {
    if doc.filepath.Some? && '/' in doc.filepath.value && doc.filepath.value[|doc.filepath.value| - 1] != '/'
    then doc.filepath.value
    else "/" + doc.id + ".md"
  }

  /** What reconciliation reads off a listed document. */
  function VersionOf(doc: Doc): (v: Version)
    ensures v.place != [] && v.errorPlace != []
  {
    var p := EffectivePath(doc);
    LastPiece(p);
    LastPiece(p + ".smfs-error.txt");
    Version(doc.id, Components(p), Components(p + ".smfs-error.txt"), doc.updatedAt, ParseIsoToMs(doc.updatedAt),
            doc.status, doc.content, doc.report)
  }

  /** A string with a last character that is not the separator has a component. */
  lemma {:induction false} LastPiece(s: string)
    requires s != "" && s[|s| - 1] != '/'
    ensures Components(s) != []
    decreases |s|
  {
    match Find(s, "/")
    case None => assert NonEmpty([s]) == [s];
    case Some(i) =>
      LastPiece(s[i + 1..]);
      var rest := Split(s[i + 1..], '/');
      assert ([s[..i]] + rest)[1..] == rest;
  }

  /** At most one inode is mapped to a document. */
  ghost predicate Injective(remote: map<Ino, Mirror>) {
    forall i, j | i in remote && j in remote && remote[i].id == remote[j].id :: i == j
  }

  ghost function InoOf<N>(s: Store<N>, id: DocId): (r: Option<Ino>)
    ensures r.Some? ==> r.value in s.remote && s.remote[r.value].id == id
    ensures r.None? ==> forall i | i in s.remote :: s.remote[i].id != id
  {
    if exists i :: i in s.remote && s.remote[i].id == id then
      var i :| i in s.remote && s.remote[i].id == id;
      Some(i)
    else None
  }

  function LocationsOf(s: Local, i: Ino): set<Location> {
    set l | l in s.names && s.names[l] == i
  }

  /** A local write newer than the document. */
  predicate NewerLocally<N>(s: Store<N>, i: Ino, ms: Option<int>) {
    i in s.dirty && ms.Some? && s.dirty[i] > ms.value
  }

  // ---- Effects on the tables ----

  /** `ensure_dirs` for the first `n` components: existing entries are passed through. */
  function EnsureUpTo(s: Local, l: Location, n: nat): Local
    requires n <= |l|
  {
    if n == 0 then s
    else
      var t := EnsureUpTo(s, l, n - 1);
      if l[..n] in t.names then t
      else t.(names := t.names[l[..n] := t.next], dirs := t.dirs + {t.next}, next := t.next + 1)
  }

  function EnsureParents(s: Local, l: Location): Local
    requires l != []
  {
    EnsureUpTo(s, l, |l| - 1)
  }

  /** The entry update of `apply_rename_to`; refused when the inode has no entry, or two that would
      become one, or another one is in the way. */
  function Relocate(s: Local, i: Ino, l: Location): Option<Local> {
    if |LocationsOf(s, i)| != 1 || (l in s.names && s.names[l] != i) then None
    else Some(s.(names := (s.names - LocationsOf(s, i))[l := i]))
  }

  function SetRemoteId<N>(s: Store<N>, i: Ino, id: DocId): Store<N> {
    s.(remote := s.remote[i := Mirror(id, None)])
  }

  /** Advances the mirrored stamp when there is one to advance to. */
  function SetMirrored<N>(s: Store<N>, i: Ino, ms: Option<int>): Store<N> {
    if i in s.remote && ms.Some? then s.(remote := s.remote[i := s.remote[i].(mirrored := ms)]) else s
  }

  function Rewrite<N>(s: Store<N>, i: Ino, content: Option<string>): Store<N> {
    if content.Some? then s.(content := s.content[i := content.value]) else s
  }

  /** A file the cache derives itself: never written over one it did not derive. */
  function WriteDerived(s: Local, l: Location, text: string): Local
    requires l != []
  {
    var t := EnsureParents(s, l);
    if l in t.names then
      if t.names[l] in t.derived then t.(content := t.content[t.names[l] := text]) else t
    else
      t.(names := t.names[l := t.next], content := t.content[t.next := text], derived := t.derived + {t.next},
        next := t.next + 1)
  }

  function SyncErrorSibling(s: Local, v: Version): Local
    requires v.errorPlace != []
  {
    if v.status == Failed then WriteDerived(s, v.errorPlace, v.report) else s
  }

  // ---- Reconciling one version ----

  /** The version is finished and no newer than what was mirrored. */
  predicate AlreadyMirrored<N>(s: Store<N>, i: Ino, v: Version)
    requires i in s.remote
  {
    v.status == Done && s.remote[i].mirrored.Some? && v.ms.Some? && s.remote[i].mirrored.value >= v.ms.value
  }

  /** Stays when already there, else is renamed. */
  function Moved(s: Local, i: Ino, l: Location): Option<Local>
    requires l != []
  {
    if LocationsOf(s, i) == {l} then Some(s) else Relocate(EnsureParents(s, l), i, l)
  }

  function ReconcileMapped(s: Local, i: Ino, v: Version): (Local, Outcome)
    requires i in s.remote && v.place != [] && v.errorPlace != []
  {
    if NewerLocally(s, i, v.ms) then (s, SkippedDirty)
    else if AlreadyMirrored(s, i, v) then (s, Unchanged)
    else
      var moved := Moved(s, i, v.place);
      if moved.None? then (EnsureParents(s, v.place), Refused)
      else if v.status == Done then (SetMirrored(Rewrite(moved.value, i, v.content), i, v.ms), Updated)
      else (SyncErrorSibling(moved.value, v), Updated)
  }

  function ReconcileNew(s: Local, v: Version): (Local, Outcome)
    requires v.place != [] && v.errorPlace != []
  {
    if v.status != Done then (SyncErrorSibling(s, v), Deferred) else AttachOrCreate(EnsureParents(s, v.place), v)
  }

  /** A finished new document takes over what is at its place, or becomes a new file there. */
  function AttachOrCreate(t: Local, v: Version): (Local, Outcome) {
    if v.place in t.names then Attach(t, t.names[v.place], v)
    else (Fill(t.(names := t.names[v.place := t.next], next := t.next + 1), t.next, v), Created)
  }

  /** The document takes over an inode; a newer local write keeps its bytes. */
  function Attach<N>(s: Store<N>, i: Ino, v: Version): (Store<N>, Outcome) {
    if NewerLocally(s, i, v.ms) then (SetRemoteId(s, i, v.id), SkippedDirty)
    else (SetMirrored(Rewrite(SetRemoteId(s, i, v.id), i, v.content), i, v.ms), Attached)
  }

  /** A newly named inode becomes the document's file. */
  function Fill<N>(s: Store<N>, i: Ino, v: Version): Store<N> {
    var made := s.(content := s.content[i := if v.content.Some? then v.content.value else ""]);
    SetMirrored(SetRemoteId(made, i, v.id), i, v.ms)
  }

  /** `reconcile_one`. */
  ghost function ReconcileOne(s: Local, v: Version): (Local, Outcome)
    requires v.place != [] && v.errorPlace != []
  {
    var existing := InoOf(s, v.id);
    if existing.Some? then ReconcileMapped(s, existing.value, v) else ReconcileNew(s, v)
  }

  ghost function Reconciled(s: Local, v: Version): Local
    requires v.place != [] && v.errorPlace != []
  {
    ReconcileOne(s, v).0
  }

  predicate Placed(vs: seq<Version>) {
    forall v | v in vs :: v.place != [] && v.errorPlace != []
  }

  ghost function ReconcileAll(s: Local, vs: seq<Version>): Local
    requires Placed(vs)
  {
    if vs == [] then s else Reconciled(ReconcileAll(s, vs[..|vs| - 1]), vs[|vs| - 1])
  }

  // ---- Pulls ----

  /** The latest stamp, as strings compare, of `seen` and the versions. */
  function Newest(seen: string, vs: seq<Version>): string {
    if vs == [] then seen
    else
      var before := Newest(seen, vs[..|vs| - 1]);
      if StrLess(before, vs[|vs| - 1].stamp) then vs[|vs| - 1].stamp else before
  }

  /** The version is at or below the watermark. */
  predicate Seen(watermark: string, v: Version) {
    watermark != "" && !StrLess(watermark, v.stamp)
  }

  /** How many versions precede the first one at or below the watermark. */
  function Unseen(watermark: string, vs: seq<Version>): (n: nat)
    ensures n <= |vs| && (n < |vs| ==> Seen(watermark, vs[n]))
    ensures forall k | 0 <= k < n :: !Seen(watermark, vs[k])
  {
    if vs == [] || Seen(watermark, vs[0]) then 0 else 1 + Unseen(watermark, vs[1..])
  }

  function StoreWatermark<N>(s: Store<N>, newest: string): Store<N> {
    if newest != "" then s.(watermark := newest) else s
  }

  const PAGE_SIZE: nat := 100

  /** Pages are numbered from one; the last may be short. */
  function PageCount(total: nat): nat {
    (total + PAGE_SIZE - 1) / PAGE_SIZE
  }

  /** With `served` pages that can be listed, a loop over `total` documents that stops after the
      first `wanted` asks for one page too many. */
  predicate CutShort(wanted: nat, total: nat, served: nat) {
    served == 0 || (served * PAGE_SIZE <= wanted && served < PageCount(total))
  }

  /** What such a loop has met by then. */
  function Met<T>(listing: seq<T>, served: nat): seq<T> {
    listing[..if served * PAGE_SIZE < |listing| then served * PAGE_SIZE else |listing|]
  }

  /** `delta_pull`: stops at the first version at or below the watermark. A page that cannot be
      listed ends it: what was reconciled stays, and no watermark is stored. */
  ghost function Delta(s: Local, listing: seq<Version>, served: nat): Local
    requires Placed(listing)
  {
    var n := Unseen(s.watermark, listing);
    if CutShort(n, |listing|, served) then ReconcileAll(s, Met(listing, served))
    else StoreWatermark(ReconcileAll(s, listing[..n]), Newest(s.watermark, listing[..n]))
  }

  /** `full_pull`: everything, whatever the watermark. */
  ghost function Full(s: Local, listing: seq<Version>, served: nat): Local
    requires Placed(listing)
  {
    if CutShort(|listing|, |listing|, served) then ReconcileAll(s, Met(listing, served))
    else StoreWatermark(ReconcileAll(s, listing), Newest("", listing))
  }

  // ---- Deletions ----

  /** The inodes a deletion scan removes: mapped, clean, in the tree, their document gone. */
  function Gone(s: Local, listed: set<DocId>): set<Ino> {
    set i | i in s.remote && s.remote[i].id !in listed && i !in s.dirty && LocationsOf(s, i) != {}
  }

  function Remove(s: Local, gone: set<Ino>): Local {
    s.(names := map l | l in s.names && s.names[l] !in gone :: s.names[l],
       dirs := s.dirs - gone, content := s.content - gone, derived := s.derived - gone, remote := s.remote - gone,
       dirty := s.dirty - gone)
  }

  function Scanned(s: Local, listed: set<DocId>): Local {
    Remove(s, Gone(s, listed))
  }
}
