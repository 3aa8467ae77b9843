/** Pushes and pulls together: when a file that is pushed here, while pulls attach to it what others
    have filed at its path, stands for one document. */
module SharedDocuments {
  import opened Wrappers
  import opened PushQueue
  import opened OneDocument

  /** The queue, its jobs and the mapping; and for each file the documents that were created for it or
      attached to it. */
  datatype Shared = Shared(base: World, docs: map<Ino, set<RemoteId>>)

  /** A step of the push side; or a pull of a finished document that no inode is mapped to, which attaches
      it to the file at its path. `held` says whether a local write is newer than the document. */
  datatype Step =
    | Own(e: Event)
    | Pull(fp: Path, ino: Ino, id: RemoteId, held: bool)

  function PathOf(s: Step): Path {
    if s.Own? then s.e.fp else s.fp
  }

  function Docs(w: Shared, ino: Ino): set<RemoteId> {
    if ino in w.docs then w.docs[ino] else {}
  }

  /** The document belongs to none of the files but, perhaps, this one. */
  ghost predicate NoOthers(w: Shared, id: RemoteId, ino: Ino) {
    forall i | i in w.docs && i != ino :: id !in w.docs[i]
  }

  /** A created document is a new one; one that is pulled is not mapped. */
  ghost predicate May(w: Shared, s: Step) {
    match s
    case Own(e) => Enabled(w.base, e) && (e.ServerCreates? ==> forall i | i in w.docs :: e.id !in w.docs[i])
    case Pull(_, ino, id, _) => id !in w.base.remote.Values && NoOthers(w, id, ino)
  }

  /** The attachment: a write that is held off also hands the document to the queued push. */
  function Attached(w: World, fp: Path, ino: Ino, id: RemoteId, held: bool): World {
    w.(remote := w.remote[ino := id], rows := if held then SetRemoteId(w.rows, fp, id) else w.rows)
  }

  ghost function Then(w: Shared, s: Step): Shared
    requires May(w, s)
  {
    match s
    case Own(e) =>
      var base := Next(w.base, e);
      if e.ServerCreates? && w.base.live[e.fp].job.intent.contentIno.Some? then
        var ino := w.base.live[e.fp].job.intent.contentIno.value;
        Shared(base, w.docs[ino := Docs(w, ino) + {e.id}])
      else Shared(base, w.docs)
    case Pull(fp, ino, id, held) => Shared(Attached(w.base, fp, ino, id, held), w.docs[ino := Docs(w, ino) + {id}])
  }

  /** Files are flushed, and documents attached to them, at home. */
  ghost predicate AtItsHome(s: Step, home: map<Ino, Path>) {
    match s
    case Own(e) => e.Flush? ==> e.ino in home && home[e.ino] == e.fp
    case Pull(fp, ino, _, _) => ino in home && home[ino] == fp
  }

  /** What the row knows of the document. */
  predicate RowKnows(w: World, fp: Path, d: RemoteId) {
    fp in w.rows ==> w.rows[fp].remoteId == Some(d)
  }

  /** The document is the job's to record; or it is recorded, and every push that is or may become under
      way knows it, but for a rejected one. */
  ghost predicate KeptAs(w: World, fp: Path, ino: Ino, d: RemoteId) {
    && (fp in w.rows && w.rows[fp].remoteId.Some? ==> w.rows[fp].remoteId == Some(d))
    && (ino in w.remote ==> w.remote[ino] == d)
    && if fp in w.live && w.live[fp].phase.Created? then w.live[fp].phase.id == d
       else
         && ino in w.remote
         && (fp in w.live && w.live[fp].phase.Recorded? ==> w.live[fp].phase.id == d)
         && (fp in w.live && w.live[fp].phase.Stamped? ==> w.live[fp].phase.id == d)
         && ((fp in w.live && w.live[fp].phase.Recorded?) || (fp in w.rows && w.rows[fp].poisoned)
             || RowKnows(w, fp, d))
  }

  /** No document, and no trace of one; or one, and it is kept. */
  ghost predicate OneFor(w: Shared, fp: Path, ino: Ino) {
    if Docs(w, ino) == {} then
      && ino !in w.base.remote && (fp in w.base.live ==> w.base.live[fp].phase.Sending?)
      && (fp in w.base.rows ==> w.base.rows[fp].remoteId.None?)
    else exists d :: Docs(w, ino) == {d} && KeptAs(w.base, fp, ino, d)
  }

  /** Every file stands for at most one document. */
  ghost predicate OneEach(w: Shared, home: map<Ino, Path>) {
    forall ino | ino in home :: OneFor(w, home[ino], ino)
  }

  /** Jobs hold their rows, and rejected rows have none. */
  ghost predicate Orderly(w: Shared, home: map<Ino, Path>) {
    && Placed(w.base, home)
    && forall fp | fp in w.base.live && fp in w.base.rows :: !w.base.rows[fp].poisoned
  }

  /** The pull brings a second document to a file that has one; or a first one while a push is under way
      that will create another, or while one is queued and not told. */
  ghost predicate Clashes(w: Shared, s: Step) {
    s.Pull? && s.id !in Docs(w, s.ino)
    && (Docs(w, s.ino) != {} || s.fp in w.base.live
        || (s.fp in w.base.rows && !w.base.rows[s.fp].poisoned && !s.held))
  }

  // ---- One step ----

  /** A step of one path leaves the other files as they are. */
  lemma OthersKept(w: Shared, s: Step, home: map<Ino, Path>, ino: Ino)
    requires HomeIsInjective(home) && Orderly(w, home) && May(w, s) && AtItsHome(s, home)
    requires ino in home && home[ino] != PathOf(s) && OneFor(w, home[ino], ino)
    ensures OneFor(Then(w, s), home[ino], ino)
  {
    var w', fp := Then(w, s), home[ino];
    if s.Own? {
      assert JobPlaced(w.base, home, s.e.fp);
      StepElsewhere(w.base, s.e, fp);
    }
    assert Docs(w', ino) == Docs(w, ino);
    assert ino in w'.base.remote <==> ino in w.base.remote;
    if Docs(w, ino) != {} {
      var d :| Docs(w, ino) == {d} && KeptAs(w.base, fp, ino, d);
      assert KeptAs(w'.base, fp, ino, d);
    }
  }

  lemma OwnKeepsOrderly(w: Shared, e: Event, home: map<Ino, Path>)
    requires Orderly(w, home) && May(w, Own(e)) && AtItsHome(Own(e), home)
    ensures Orderly(Then(w, Own(e)), home)
  {
    StepPlaced(w.base, e, home);
    assert RowPlaced(w.base, home, e.fp) && JobPlaced(w.base, home, e.fp);
    var w' := Next(w.base, e);
    forall fp | fp in w'.live && fp in w'.rows ensures !w'.rows[fp].poisoned {
      if fp != e.fp {
        StepElsewhere(w.base, e, fp);
      }
    }
  }

  lemma OwnKeepsOne(w: Shared, e: Event, home: map<Ino, Path>, ino: Ino)
    requires HomeIsInjective(home) && Orderly(w, home) && May(w, Own(e)) && AtItsHome(Own(e), home)
    requires ino in home && home[ino] == e.fp && OneFor(w, e.fp, ino)
    ensures OneFor(Then(w, Own(e)), e.fp, ino)
  {
    assert RowPlaced(w.base, home, e.fp) && JobPlaced(w.base, home, e.fp);
    var w' := Then(w, Own(e));
    if Docs(w, ino) != {} {
      var d :| Docs(w, ino) == {d} && KeptAs(w.base, e.fp, ino, d);
      assert Docs(w', ino) == {d};
      assert KeptAs(w'.base, e.fp, ino, d);
    } else if e.ServerCreates? {
      assert Docs(w', ino) == {e.id} && KeptAs(w'.base, e.fp, ino, e.id);
    }
  }

  lemma PullKeepsOrderly(w: Shared, s: Step, home: map<Ino, Path>)
    requires Orderly(w, home) && OneEach(w, home) && May(w, s) && AtItsHome(s, home) && s.Pull? && !Clashes(w, s)
    ensures Orderly(Then(w, s), home)
  {
    var w' := Then(w, s);
    assert OneFor(w, s.fp, s.ino) && RowPlaced(w.base, home, s.fp) && JobPlaced(w.base, home, s.fp);
    forall fp: Path ensures RowPlaced(w'.base, home, fp) && JobPlaced(w'.base, home, fp) {
      assert RowPlaced(w.base, home, fp) && JobPlaced(w.base, home, fp);
    }
  }

  lemma PullKeepsOne(w: Shared, s: Step, home: map<Ino, Path>)
    requires Orderly(w, home) && May(w, s) && AtItsHome(s, home) && s.Pull? && OneFor(w, s.fp, s.ino)
    requires !Clashes(w, s)
    ensures OneFor(Then(w, s), s.fp, s.ino)
  {
    assert JobPlaced(w.base, home, s.fp);
    assert Docs(Then(w, s), s.ino) == {s.id};
    assert KeptAs(Then(w, s).base, s.fp, s.ino, s.id);
  }

  /** Every step keeps each file at one document and every push told of it, exactly unless it is a pull
      that clashes: attaching another's document is safe before anything is queued, while a local write
      holds it off, and never while the file is being posted; attaching the document just posted, before
      the push records it, always is. */
  lemma StepKeepsOneIff(w: Shared, s: Step, home: map<Ino, Path>)
    requires HomeIsInjective(home) && Orderly(w, home) && OneEach(w, home) && May(w, s) && AtItsHome(s, home)
    ensures Orderly(Then(w, s), home) && OneEach(Then(w, s), home) <==> !Clashes(w, s)
  {
    if Clashes(w, s) {
      ClashBreaks(w, s, home);
    } else {
      if s.Own? {
        OwnKeepsOrderly(w, s.e, home);
      } else {
        PullKeepsOrderly(w, s, home);
      }
      forall ino | ino in home ensures OneFor(Then(w, s), home[ino], ino) {
        assert OneFor(w, home[ino], ino);
        if home[ino] != PathOf(s) {
          OthersKept(w, s, home, ino);
        } else if s.Own? {
          OwnKeepsOne(w, s.e, home, ino);
        } else {
          PullKeepsOne(w, s, home);
        }
      }
    }
  }

  lemma ClashBreaks(w: Shared, s: Step, home: map<Ino, Path>)
    requires HomeIsInjective(home) && Orderly(w, home) && OneEach(w, home) && May(w, s) && AtItsHome(s, home)
    requires Clashes(w, s)
    ensures !Orderly(Then(w, s), home) || !OneEach(Then(w, s), home)
  {
    var w' := Then(w, s);
    assert OneFor(w, s.fp, s.ino) && JobPlaced(w.base, home, s.fp);
    assert OneEach(w', home) ==> OneFor(w', s.fp, s.ino);
    assert Orderly(w', home) ==> JobPlaced(w'.base, home, s.fp);
    assert Docs(w', s.ino) == Docs(w, s.ino) + {s.id};
    if d :| d in Docs(w, s.ino) {
      assert forall x :: Docs(w', s.ino) != {x};
    }
  }

  // ---- Runs ----

  ghost predicate IsSharedRun(w: Shared, ss: seq<Step>)
    decreases |ss|
  {
    ss == [] || (May(w, ss[0]) && IsSharedRun(Then(w, ss[0]), ss[1..]))
  }

  ghost function AfterSteps(w: Shared, ss: seq<Step>): Shared
    requires IsSharedRun(w, ss)
    decreases |ss|
  {
    if ss == [] then w else AfterSteps(Then(w, ss[0]), ss[1..])
  }

  ghost predicate NeverClashes(w: Shared, ss: seq<Step>)
    requires IsSharedRun(w, ss)
    decreases |ss|
  {
    ss == [] || (!Clashes(w, ss[0]) && NeverClashes(Then(w, ss[0]), ss[1..]))
  }

  ghost predicate AllAtHome(ss: seq<Step>, home: map<Ino, Path>) {
    forall s | s in ss :: AtItsHome(s, home)
  }

  /** Over any run of pushes and pulls none of which clashes, a file never stands for two documents. */
  lemma {:induction false} OneDocumentShared(w: Shared, ss: seq<Step>, home: map<Ino, Path>)
    requires HomeIsInjective(home) && Orderly(w, home) && OneEach(w, home)
    requires IsSharedRun(w, ss) && AllAtHome(ss, home) && NeverClashes(w, ss)
    ensures Orderly(AfterSteps(w, ss), home) && OneEach(AfterSteps(w, ss), home)
    ensures forall ino | ino in home :: |Docs(AfterSteps(w, ss), ino)| <= 1
    decreases |ss|
  {
    if ss != [] {
      assert ss[0] in ss;
      StepKeepsOneIff(w, ss[0], home);
      OneDocumentShared(Then(w, ss[0]), ss[1..], home);
    } else {
      forall ino | ino in home ensures |Docs(w, ino)| <= 1 {
        assert OneFor(w, home[ino], ino);
      }
    }
  }

  /** What brings out the second document after a clash: nothing, if the file has one; the reply of the
      POST that is under way; or the push that is queued. */
  ghost function Exposing(w: Shared, s: Step, other: RemoteId, now: int): seq<Step>
    requires s.Pull?
  {
    if Docs(w, s.ino) != {} then []
    else if s.fp in w.base.live then [Own(ServerCreates(s.fp, other))]
    else [Own(Take(s.fp, now)), Own(ServerCreates(s.fp, other))]
  }

  /** After a pull that clashes the push side by itself, without another pull, ends with two documents
      for the file. */
  lemma ClashPostsSecond(w: Shared, s: Step, home: map<Ino, Path>, other: RemoteId, now: int)
    requires HomeIsInjective(home) && Orderly(w, home) && OneEach(w, home) && May(w, s) && AtItsHome(s, home)
    requires Clashes(w, s) && other != s.id && forall i | i in w.docs :: other !in w.docs[i]
    requires s.fp in w.base.rows ==> w.base.rows[s.fp].updatedAt <= now
    ensures
      var ss := Exposing(w, s, other, now);
      IsSharedRun(Then(w, s), ss) && s.id in Docs(AfterSteps(Then(w, s), ss), s.ino)
      && |Docs(AfterSteps(Then(w, s), ss), s.ino)| > 1
  {
    var w' := Then(w, s);
    assert OneFor(w, s.fp, s.ino) && RowPlaced(w.base, home, s.fp) && JobPlaced(w.base, home, s.fp);
    if Docs(w, s.ino) != {} {
      var d :| Docs(w, s.ino) == {d} && KeptAs(w.base, s.fp, s.ino, d);
      assert Docs(w', s.ino) == {d, s.id};
    } else if s.fp in w.base.live {
      SecondCreated(w', s.fp, s.ino, s.id, other);
    } else {
      var take := Own(Take(s.fp, now));
      var w1 := Then(w', take);
      SecondCreated(w1, s.fp, s.ino, s.id, other);
      assert [take, Own(ServerCreates(s.fp, other))][1..] == [Own(ServerCreates(s.fp, other))];
    }
  }

  lemma SecondCreated(w: Shared, fp: Path, ino: Ino, id: RemoteId, other: RemoteId)
    requires fp in w.base.live && w.base.live[fp].phase == Sending && w.base.live[fp].job.remoteId.None?
    requires w.base.live[fp].job.intent.contentIno == Some(ino)
    requires Docs(w, ino) == {id} && other != id && forall i | i in w.docs :: other !in w.docs[i]
    ensures
      var ss := [Own(ServerCreates(fp, other))];
      IsSharedRun(w, ss) && Docs(AfterSteps(w, ss), ino) == {id, other} && |Docs(AfterSteps(w, ss), ino)| > 1
  {
    var s := Own(ServerCreates(fp, other));
    assert [s][1..] == [];
    assert AfterSteps(w, [s]) == AfterSteps(Then(w, s), []);
    assert |{id, other}| == 2;
  }

  // ---- From nothing ----

  const NOTHING := Shared(Start, map[])

  /** From nothing: at most one document for each file, over any run of pushes and pulls none of which
      clashes. */
  lemma AtMostOneDocument(ss: seq<Step>, home: map<Ino, Path>, ino: Ino)
    requires HomeIsInjective(home) && ino in home
    requires IsSharedRun(NOTHING, ss) && AllAtHome(ss, home) && NeverClashes(NOTHING, ss)
    ensures |Docs(AfterSteps(NOTHING, ss), ino)| <= 1
  {
    OneDocumentShared(NOTHING, ss, home);
  }

  /** A clash takes no more than a new file that has been flushed, and a document filed at its path that
      is newer than what was written. */
  lemma ClashIsNear(fp: Path, ino: Ino, id: RemoteId, now: int)
    ensures
      var flush, pull := Own(Flush(fp, ino, 1, now)), Pull(fp, ino, id, false);
      && May(NOTHING, flush) && May(Then(NOTHING, flush), pull) && Clashes(Then(NOTHING, flush), pull)
      && !Clashes(Then(NOTHING, flush), pull.(held := true))
  {
    assert Then(NOTHING, Own(Flush(fp, ino, 1, now))).base.remote == map[];
  }
}
