/** Document identity across pushes: a file is posted at most once, whatever the interleaving of
    flushes, claims and replies, and atomic saves keep the document they replace. */
module OneDocument {
  import opened Wrappers
  import opened PushQueue

  // ---- Flushes of files that stay where they are ----

  /** How far a job has come: its request is out, the server has created the document, the
      mapping of the inode is recorded, the row is stamped. */
  datatype Phase = Sending | Created(id: RemoteId) | Recorded(id: RemoteId) | Stamped(id: RemoteId)

  datatype Live = Live(job: Job, phase: Phase)

  /** `remote` maps inodes to document ids and `posts` counts the documents created for each. */
  datatype World = World(rows: Rows, remote: map<Ino, RemoteId>, live: map<Path, Live>, posts: map<Ino, nat>)

  datatype Event =
    | Flush(fp: Path, ino: Ino, size: nat, now: int)
    | Take(fp: Path, now: int)
    | ServerCreates(fp: Path, id: RemoteId)
    | RecordMapping(fp: Path)
    | StampRow(fp: Path)
    | Complete(fp: Path, now: int)
    | Patched(fp: Path, now: int)
    | Fails(fp: Path, now: int, backoff: nat)
    | Refused(fp: Path, now: int)

  function Posts(w: World, ino: Ino): nat {
    if ino in w.posts then w.posts[ino] else 0
  }

  function Lookup<K, V>(m: map<K, V>, k: K): Option<V> {
    if k in m then Some(m[k]) else None
  }

  /** `flush`, atomic: nothing for an empty file; an update when the inode has a document, a create
      otherwise. */
  function FlushRows(rows: Rows, fp: Path, ino: Ino, size: nat, rid: Option<RemoteId>, now: int): Rows {
    if size == 0 then rows
    else Upsert(rows, fp, Intent(if rid.Some? then Update else Create, Some(ino), None, 0), rid, now)
  }

  ghost predicate Enabled(w: World, e: Event) {
    match e
    case Flush(_, _, _, _) => true
    case Take(fp, now) => Due(w.rows, fp, now)
    case ServerCreates(fp, _) =>
      fp in w.live && w.live[fp].phase == Sending && w.live[fp].job.remoteId.None?
    case RecordMapping(fp) => fp in w.live && w.live[fp].phase.Created? && w.live[fp].job.intent.contentIno.Some?
    case StampRow(fp) => fp in w.live && w.live[fp].phase.Recorded?
    case Complete(fp, _) => fp in w.live && w.live[fp].phase.Stamped?
    case Patched(fp, _) => fp in w.live && w.live[fp].phase == Sending && w.live[fp].job.remoteId.Some?
    case Fails(fp, _, _) => fp in w.live && w.live[fp].phase == Sending
    case Refused(fp, _) => fp in w.live && w.live[fp].phase == Sending
  }

  ghost function Next(w: World, e: Event): World
    requires Enabled(w, e)
  {
    match e
    case Flush(fp, ino, size, now) => w.(rows := FlushRows(w.rows, fp, ino, size, Lookup(w.remote, ino), now))
    case Take(fp, now) => w.(rows := Claim(w.rows, fp, now), live := w.live[fp := Live(JobOf(w.rows, fp), Sending)])
    case ServerCreates(fp, id) =>
      var ino := w.live[fp].job.intent.contentIno;
      w.(live := w.live[fp := w.live[fp].(phase := Created(id))],
         posts := if ino.Some? then w.posts[ino.value := Posts(w, ino.value) + 1] else w.posts)
    case RecordMapping(fp) =>
      var l := w.live[fp];
      w.(remote := w.remote[l.job.intent.contentIno.value := l.phase.id],
        live := w.live[fp := l.(phase := Recorded(l.phase.id))])
    case StampRow(fp) =>
      var l := w.live[fp];
      w.(rows := SetRemoteId(w.rows, fp, l.phase.id), live := w.live[fp := l.(phase := Stamped(l.phase.id))])
    case Complete(fp, now) => w.(rows := FinalizeSuccess(w.rows, fp, now), live := w.live - {fp})
    case Patched(fp, now) => w.(rows := FinalizeSuccess(w.rows, fp, now), live := w.live - {fp})
    case Fails(fp, now, backoff) => w.(rows := FinalizeFailure(w.rows, fp, now, backoff), live := w.live - {fp})
    case Refused(fp, now) => w.(rows := Poison(w.rows, fp, now), live := w.live - {fp})
  }

  ghost predicate IsRun(w: World, es: seq<Event>)
    decreases |es|
  {
    es == [] || (Enabled(w, es[0]) && IsRun(Next(w, es[0]), es[1..]))
  }

  ghost function After(w: World, es: seq<Event>): World
    requires IsRun(w, es)
    decreases |es|
  {
    if es == [] then w else After(Next(w, es[0]), es[1..])
  }

  const Start := World(map[], map[], map[], map[])

  /** Each inode is flushed under one path only, its home. */
  ghost predicate AtHome(es: seq<Event>, home: map<Ino, Path>) {
    forall e | e in es && e.Flush? :: e.ino in home && home[e.ino] == e.fp
  }

  ghost predicate HomeIsInjective(home: map<Ino, Path>) {
    forall i, j | i in home && j in home && home[i] == home[j] :: i == j
  }

  ghost predicate BelongsTo(home: map<Ino, Path>, fp: Path, intent: Intent) {
    intent.contentIno.Some? && intent.contentIno.value in home && home[intent.contentIno.value] == fp
  }

  /** Where the id of a created document is kept: with the job until it is recorded, then in the
      mapping, and in the row as soon as anything is queued there for a later job. */
  ghost predicate Kept(w: World, fp: Path, ino: Ino) {
    if fp in w.live && w.live[fp].phase.Created? then true
    else
      ino in w.remote
      && ((fp in w.live && w.live[fp].phase.Recorded?) || (fp in w.rows ==> w.rows[fp].remoteId.Some?))
  }

  /** No document yet, and no trace of one; or one document, and its id is kept. */
  ghost predicate OnceFor(w: World, fp: Path, ino: Ino) {
    if Posts(w, ino) == 0 then
      ino !in w.remote && (fp in w.live ==> w.live[fp].phase.Sending?) && (fp in w.rows ==> w.rows[fp].remoteId.None?)
    else
      Posts(w, ino) == 1 && Kept(w, fp, ino)
  }

  ghost predicate PostedOnce(w: World, home: map<Ino, Path>) {
    forall ino | ino in home :: OnceFor(w, home[ino], ino)
  }

  ghost predicate RowPlaced(w: World, home: map<Ino, Path>, fp: Path) {
    fp in w.rows ==>
      BelongsTo(home, fp, w.rows[fp].main)
      && (w.rows[fp].parked.Some? ==> BelongsTo(home, fp, w.rows[fp].parked.value))
  }

  ghost predicate JobPlaced(w: World, home: map<Ino, Path>, fp: Path) {
    (fp in w.live <==> Inflight(w.rows, fp))
    && (fp in w.live ==>
          BelongsTo(home, fp, w.live[fp].job.intent)
          && (w.live[fp].phase.Sending? ==> w.live[fp].job.remoteId == w.rows[fp].remoteId))
  }

  /** Rows and jobs of a path carry the inode that lives there, and live jobs hold their rows. */
  ghost predicate Placed(w: World, home: map<Ino, Path>) {
    forall fp: Path :: RowPlaced(w, home, fp) && JobPlaced(w, home, fp)
  }

  /** A step touches its own path only. */
  lemma StepElsewhere(w: World, e: Event, fp: Path)
    requires Enabled(w, e) && fp != e.fp
    ensures
      var w' := Next(w, e);
      (fp in w'.rows <==> fp in w.rows) && (fp in w.rows ==> w'.rows[fp] == w.rows[fp])
      && (fp in w'.live <==> fp in w.live) && (fp in w.live ==> w'.live[fp] == w.live[fp])
  {
  }

  lemma StepPlaced(w: World, e: Event, home: map<Ino, Path>)
    requires Placed(w, home) && Enabled(w, e)
    requires e.Flush? ==> e.ino in home && home[e.ino] == e.fp
    ensures Placed(Next(w, e), home)
  {
    var w' := Next(w, e);
    forall fp: Path ensures RowPlaced(w', home, fp) && JobPlaced(w', home, fp) {
      assert RowPlaced(w, home, fp) && JobPlaced(w, home, fp);
      if fp != e.fp {
        StepElsewhere(w, e, fp);
      } else {
        StepPlacedHere(w, e, home);
      }
    }
  }

  lemma StepPlacedHere(w: World, e: Event, home: map<Ino, Path>)
    requires RowPlaced(w, home, e.fp) && JobPlaced(w, home, e.fp) && Enabled(w, e)
    requires e.Flush? ==> e.ino in home && home[e.ino] == e.fp
    ensures RowPlaced(Next(w, e), home, e.fp) && JobPlaced(Next(w, e), home, e.fp)
  {
  }

  lemma StepPostsOnce(w: World, e: Event, home: map<Ino, Path>)
    requires HomeIsInjective(home) && Placed(w, home) && PostedOnce(w, home) && Enabled(w, e)
    requires e.Flush? ==> e.ino in home && home[e.ino] == e.fp
    ensures PostedOnce(Next(w, e), home)
  {
    var w' := Next(w, e);
    assert RowPlaced(w, home, e.fp) && JobPlaced(w, home, e.fp);
    forall ino | ino in home ensures OnceFor(w', home[ino], ino) {
      if e.fp != home[ino] {
        StepElsewhere(w, e, home[ino]);
        assert Posts(w', ino) == Posts(w, ino);
        assert ino in w'.remote <==> ino in w.remote;
      } else {
        StepPostsOnceHere(w, e, home, ino);
      }
    }
  }

  lemma StepPostsOnceHere(w: World, e: Event, home: map<Ino, Path>, ino: Ino)
    requires HomeIsInjective(home) && RowPlaced(w, home, e.fp) && JobPlaced(w, home, e.fp) && Enabled(w, e)
    requires ino in home && home[ino] == e.fp && OnceFor(w, e.fp, ino)
    requires e.Flush? ==> e.ino in home && home[e.ino] == e.fp
    ensures OnceFor(Next(w, e), e.fp, ino)
  {
  }

  /** Over any run, with flushes landing between any two steps of a job, at most one document is
      created for each file. */
  lemma {:induction false} OneDocumentPerFile(w: World, es: seq<Event>, home: map<Ino, Path>)
    requires HomeIsInjective(home) && Placed(w, home) && PostedOnce(w, home)
    requires IsRun(w, es) && AtHome(es, home)
    ensures Placed(After(w, es), home) && PostedOnce(After(w, es), home)
    decreases |es|
  {
    if es != [] {
      assert es[0] in es;
      StepPlaced(w, es[0], home);
      StepPostsOnce(w, es[0], home);
      OneDocumentPerFile(Next(w, es[0]), es[1..], home);
    }
  }

  /** What a flush of a file that is not empty leaves if it looked at the mapping while the inode
      had no document, and enqueues only now. */
  function LateFlush(w: World, fp: Path, ino: Ino, now: int): World {
    w.(rows := FlushRows(w.rows, fp, ino, 1, None, now))
  }

  /** Such a flush is harmless exactly while the path has a row, or the file has no document after all. */
  lemma LateFlushIsSafeIff(w: World, home: map<Ino, Path>, ino: Ino, now: int)
    requires HomeIsInjective(home) && Placed(w, home) && PostedOnce(w, home) && ino in home
    ensures PostedOnce(LateFlush(w, home[ino], ino, now), home) <==> home[ino] in w.rows || Posts(w, ino) == 0
  {
    var fp, late := home[ino], LateFlush(w, home[ino], ino, now);
    assert OnceFor(w, fp, ino) && JobPlaced(w, home, fp);
    assert OnceFor(late, fp, ino) <==> fp in w.rows || Posts(w, ino) == 0;
    forall i | i in home && i != ino ensures OnceFor(late, home[i], i) {
      assert OnceFor(w, home[i], i) && home[i] != fp;
    }
  }

  /** One whole push of a new file, from its first flush to the end of its job. */
  function FirstPush(fp: Path, ino: Ino, id: RemoteId, now: int): seq<Event> {
    [Flush(fp, ino, 1, now), Take(fp, now), ServerCreates(fp, id), RecordMapping(fp), StampRow(fp), Complete(fp, now)]
  }

  /** Where it is not harmless: from nothing, a flush that looks before the first push is over and
      enqueues after it has the file posted a second time. The look and the enqueue must be one step. */
  lemma LateFlushPostsTwice(fp: Path, ino: Ino, id: RemoteId, again: RemoteId, now: int)
    ensures
      var es := FirstPush(fp, ino, id, now);
      && IsRun(Start, es) && IsRun(Start, es[..1]) && Lookup(After(Start, es[..1]).remote, ino) == None
      && var late := LateFlush(After(Start, es), fp, ino, now);
         var more := [Take(fp, now), ServerCreates(fp, again)];
         IsRun(late, more) && Posts(After(late, more), ino) == 2
  {
    var es := FirstPush(fp, ino, id, now);
    FirstPushRuns(fp, ino, id, now);
    assert es[..1] == [es[0]] && [es[0]][1..] == [];
    assert After(Start, es[..1]) == Next(Start, es[0]);
    SecondPost(After(Start, es), fp, ino, again, now);
  }

  lemma FirstPushRuns(fp: Path, ino: Ino, id: RemoteId, now: int)
    ensures
      var es := FirstPush(fp, ino, id, now);
      IsRun(Start, es) && var w := After(Start, es); fp !in w.rows && fp !in w.live && Posts(w, ino) == 1
  {
    var look, take, post := Flush(fp, ino, 1, now), Take(fp, now), ServerCreates(fp, id);
    var note, stamp, done := RecordMapping(fp), StampRow(fp), Complete(fp, now);
    var w1 := Next(Start, look);
    var w2 := Next(w1, take);
    var w3 := Next(w2, post);
    var w4 := Next(w3, note);
    var w5 := Next(w4, stamp);
    Prepend(w5, done, []);
    Prepend(w4, stamp, [done]);
    Prepend(w3, note, [stamp, done]);
    Prepend(w2, post, [note, stamp, done]);
    Prepend(w1, take, [post, note, stamp, done]);
    Prepend(Start, look, [take, post, note, stamp, done]);
  }

  lemma Prepend(w: World, e: Event, es: seq<Event>)
    requires Enabled(w, e) && IsRun(Next(w, e), es)
    ensures IsRun(w, [e] + es) && After(w, [e] + es) == After(Next(w, e), es)
  {
    assert ([e] + es)[1..] == es;
  }

  lemma SecondPost(w: World, fp: Path, ino: Ino, id: RemoteId, now: int)
    requires fp !in w.rows && fp !in w.live && Posts(w, ino) == 1
    ensures
      var late, es := LateFlush(w, fp, ino, now), [Take(fp, now), ServerCreates(fp, id)];
      IsRun(late, es) && Posts(After(late, es), ino) == 2
  {
    var late := LateFlush(w, fp, ino, now);
    var es := [Take(fp, now), ServerCreates(fp, id)];
    assert es[1..] == [ServerCreates(fp, id)] && es[1..][1..] == [];
    var w1 := Next(late, es[0]);
    assert w1.live[fp].job.intent.contentIno == Some(ino);
    var w2 := Next(w1, es[1]);
    assert Posts(w2, ino) == 2;
    assert After(w1, es[1..]) == After(w2, []) == w2;
  }

  /** Starting with nothing queued, every file is posted at most once. */
  lemma AtMostOnePost(es: seq<Event>, home: map<Ino, Path>, ino: Ino)
    requires HomeIsInjective(home) && IsRun(Start, es) && AtHome(es, home) && ino in home
    ensures Posts(After(Start, es), ino) <= 1
  {
    OneDocumentPerFile(Start, es, home);
    assert OnceFor(After(Start, es), home[ino], ino);
  }

  // ---- Atomic saves ----

  /** The names two paths have, the mapping of inodes to documents, and the queue. */
  datatype Disk = Disk(rows: Rows, names: map<Path, Ino>, remote: map<Ino, RemoteId>, next: Ino)

  /** `write(tmp)` of `size` bytes, flush and `rename(tmp, final)`: the rename drops the replaced
      inode, moves the unsent create and hands it the replaced document's id; if there is no create
      to move, it asks for the replaced document to be deleted and for the rename to be sent. */
  function Save(d: Disk, tmp: Path, final: Path, size: nat, flushAt: int, renameAt: int): Disk
    requires tmp != final
  {
    var ino := d.next;
    var flushed := FlushRows(d.rows, tmp, ino, size, Lookup(d.remote, ino), flushAt);
    var replaced := if final in d.names then {d.names[final]} else {};
    var rid := if final in d.names then Lookup(d.remote, d.names[final]) else None;
    var kept := d.remote - replaced;
    var names := (d.names - {tmp})[final := ino];
    if Retargetable(flushed, tmp) then
      Disk(Retarget(flushed, tmp, final, rid, renameAt), names,
           if rid.Some? then kept[ino := rid.value] else kept, ino + 1)
    else
      var deleted := if final in d.names
                     then Upsert(flushed, final, Intent(Delete, None, None, 0), None, renameAt) else flushed;
      Disk(Upsert(deleted, tmp, Intent(Rename, None, Some(final), 0), Lookup(kept, ino), renameAt),
           names, kept, ino + 1)
  }

  /** The worker sends the row of `fp` to the end: a PATCH when it knows a document, a POST that
      returns `id` otherwise. */
  function SendWhole(d: Disk, fp: Path, id: RemoteId, now: int): Disk {
    if fp !in d.rows || d.rows[fp].main.contentIno.None? then d
    else if d.rows[fp].remoteId.Some? then d.(rows := FinalizeSuccess(d.rows, fp, now))
    else
      d.(rows := FinalizeSuccess(SetRemoteId(d.rows, fp, id), fp, now),
         remote := d.remote[d.rows[fp].main.contentIno.value := id])
  }

  function SendFails(d: Disk, fp: Path, now: int, backoff: nat): Disk {
    d.(rows := FinalizeFailure(d.rows, fp, now, backoff))
  }

  datatype SaveEvent =
    | SaveCycle(size: nat, flushAt: int, renameAt: int)
    | Sends(id: RemoteId, now: int)
    | SendError(now: int, backoff: nat)

  function ApplySave(d: Disk, e: SaveEvent, tmp: Path, final: Path): Disk
    requires tmp != final
  {
    match e
    case SaveCycle(size, flushAt, renameAt) => Save(d, tmp, final, size, flushAt, renameAt)
    case Sends(id, now) => SendWhole(d, final, id, now)
    case SendError(now, backoff) => SendFails(d, final, now, backoff)
  }

  function RunSaves(d: Disk, es: seq<SaveEvent>, tmp: Path, final: Path): Disk
    requires tmp != final
    decreases |es|
  {
    if es == [] then d else RunSaves(ApplySave(d, es[0], tmp, final), es[1..], tmp, final)
  }

  /** Documents created for `final` along the run. */
  function PostsOf(d: Disk, es: seq<SaveEvent>, tmp: Path, final: Path): nat
    requires tmp != final
    decreases |es|
  {
    if es == [] then 0
    else
      (if es[0].Sends? && final in d.rows && d.rows[final].remoteId.None? then 1 else 0)
      + PostsOf(ApplySave(d, es[0], tmp, final), es[1..], tmp, final)
  }

  /** Between saves: nothing is queued or named at `tmp`, no row is inflight, and `final`'s row,
      if any, is an unsent create of the inode named there. */
  ghost predicate Settled(d: Disk, tmp: Path, final: Path) {
    && tmp !in d.rows && tmp !in d.names
    && (forall i | i in d.remote :: i < d.next)
    && (final in d.rows ==>
          final in d.names && d.rows[final].inflight.None? && d.rows[final].parked.None?
          && d.rows[final].main.op == Create && d.rows[final].main.contentIno == Some(d.names[final])
          && d.rows[final].remoteId == Lookup(d.remote, d.names[final]))
    && (final in d.names ==> d.names[final] < d.next)
  }

  /** The document `final` stands for. */
  function DocumentOf(d: Disk, final: Path): Option<RemoteId> {
    if final in d.names then Lookup(d.remote, d.names[final]) else None
  }

  /** What an atomic save promises: no row for `tmp` and one create for `final`, with the new inode
      and the id of the document it replaces; nothing else in the queue changes. */
  predicate KeepsIdentity(d: Disk, d': Disk, tmp: Path, final: Path, renameAt: int) {
    && (var create := Row(Intent(Create, Some(d.next), None, 0), DocumentOf(d, final), None, None, 0, renameAt, false);
        d'.rows == d.rows[final := create])
    && final in d'.names && d'.names[final] == d.next && tmp !in d'.names
       && DocumentOf(d', final) == DocumentOf(d, final)
  }

  /** A save keeps the promise exactly if the file is not empty. */
  lemma SaveKeepsIdentityIff(d: Disk, tmp: Path, final: Path, size: nat, flushAt: int, renameAt: int)
    requires tmp != final && tmp !in d.rows && tmp !in d.names && d.next !in d.remote
    requires final in d.names ==> d.names[final] != d.next
    ensures KeepsIdentity(d, Save(d, tmp, final, size, flushAt, renameAt), tmp, final, renameAt) <==> size > 0
  {
    var d' := Save(d, tmp, final, size, flushAt, renameAt);
    if size == 0 {
      EmptySave(d, tmp, final, flushAt, renameAt);
      assert tmp in d'.rows && tmp !in d.rows;
    } else {
      var flushed := FlushRows(d.rows, tmp, d.next, size, None, flushAt);
      var row := Row(Intent(Create, Some(d.next), None, 0), None, None, None, 0, flushAt, false);
      assert flushed == d.rows[tmp := row];
      assert Retargetable(flushed, tmp);
      assert flushed - {tmp} == d.rows;
    }
  }

  /** What saving an empty file does instead. It is not flushed, so there is no create to move: the
      replaced document is to be deleted, the new file stands for none, and a rename that will find
      nothing to rename is queued under `tmp`. */
  lemma EmptySave(d: Disk, tmp: Path, final: Path, flushAt: int, renameAt: int)
    requires tmp != final && tmp !in d.rows && d.next !in d.remote
    ensures
      var d' := Save(d, tmp, final, 0, flushAt, renameAt);
      && tmp in d'.rows && d'.rows[tmp].main == Intent(Rename, None, Some(final), 0) && DocumentOf(d', final) == None
      && (final in d.names && !Inflight(d.rows, final) ==>
            final in d'.rows && d'.rows[final].main == Intent(Delete, None, None, 0))
  {
    assert !Retargetable(d.rows, tmp);
  }

  /** Every save or send keeps the paths settled, exactly unless it saves an empty file. */
  lemma StepSettled(d: Disk, e: SaveEvent, tmp: Path, final: Path)
    requires tmp != final && Settled(d, tmp, final)
    ensures Settled(ApplySave(d, e, tmp, final), tmp, final) <==> (e.SaveCycle? ==> e.size > 0)
    ensures
      var d' := ApplySave(d, e, tmp, final);
      DocumentOf(d, final).Some? && (e.SaveCycle? ==> e.size > 0) ==> DocumentOf(d', final) == DocumentOf(d, final)
    ensures e.Sends? && final in d.rows ==>
              final !in ApplySave(d, e, tmp, final).rows && DocumentOf(ApplySave(d, e, tmp, final), final).Some?
  {
    match e
    case SaveCycle(size, flushAt, renameAt) => SaveKeepsIdentityIff(d, tmp, final, size, flushAt, renameAt);
    case Sends(_, _) =>
    case SendError(_, _) =>
  }

  predicate NeverEmpty(es: seq<SaveEvent>) {
    forall e | e in es :: e.SaveCycle? ==> e.size > 0
  }

  /** Over any number of sends and atomic saves of files that are not empty, `final` keeps the
      document it started with, and at most one is created for it if it started with none. */
  lemma {:induction false} SavesKeepOneDocument(d: Disk, es: seq<SaveEvent>, tmp: Path, final: Path)
    requires tmp != final && Settled(d, tmp, final) && NeverEmpty(es)
    ensures Settled(RunSaves(d, es, tmp, final), tmp, final)
    ensures DocumentOf(d, final).Some? ==>
              DocumentOf(RunSaves(d, es, tmp, final), final) == DocumentOf(d, final) && PostsOf(d, es, tmp, final) == 0
    ensures PostsOf(d, es, tmp, final) <= 1
    decreases |es|
  {
    if es != [] {
      assert es[0] in es;
      StepSettled(d, es[0], tmp, final);
      SavesKeepOneDocument(ApplySave(d, es[0], tmp, final), es[1..], tmp, final);
    }
  }

  /** An empty save loses the document whatever `final` stood for, and the next save of anything
      has a new one created. */
  lemma EmptySaveLosesDocument(d: Disk, tmp: Path, final: Path, flushAt: int, renameAt: int)
    requires tmp != final && Settled(d, tmp, final) && DocumentOf(d, final).Some?
    ensures DocumentOf(Save(d, tmp, final, 0, flushAt, renameAt), final) != DocumentOf(d, final)
  {
    SaveKeepsIdentityIff(d, tmp, final, 0, flushAt, renameAt);
  }
}
