/** Runs of the push queue under its worker: enqueues, retargets, claims and job endings in
    any interleaving, each one atomic step on the table. */
module PushWorker {
  import opened Wrappers
  import opened PushQueue

  const PUSH_CONCURRENCY: nat := 8

  /** The table, the jobs being sent, and what has been asked and confirmed so far: the serial
      last enqueued for each path, and the serials confirmed by a success, in order. */
  datatype World = World(rows: Rows, live: seq<Job>, issued: map<Path, nat>, confirmed: map<Path, seq<nat>>, next: nat)

  datatype Event =
    | Enqueue(fp: Path, op: PushOp, contentIno: Option<Ino>, renameTo: Option<Path>, rid: Option<RemoteId>, now: int)
    | Move(from: Path, to: Path, rebind: Option<RemoteId>, now: int)
    | Take(fp: Path, now: int)
    | Stamp(i: nat, id: RemoteId)
    | End(i: nat, answer: Answer, now: int)

  function Confirmed(w: World, fp: Path): seq<nat> {
    if fp in w.confirmed then w.confirmed[fp] else []
  }

  function Without<T>(s: seq<T>, i: nat): seq<T>
    requires i < |s|
  {
    s[..i] + s[i + 1..]
  }

  /** The request says what to send. */
  predicate Complete(intent: Intent) {
    match intent.op
    case Delete => true
    case Rename => intent.renameTo.Some?
    case _ => intent.contentIno.Some?
  }

  /** How the job ends on this answer, and the id it was given. */
  function Ending(w: World, e: Event): Outcome
    requires e.End? && e.i < |w.live|
  {
    OutcomeOf(w.live[e.i], e.answer)
  }

  function Given(w: World, e: Event): Option<RemoteId>
    requires e.End? && e.i < |w.live|
  {
    PostedId(w.live[e.i], e.answer)
  }

  /** Every enqueue says what to send, and a rename moves to another path. A claim needs a free permit
      and takes a due row with the oldest stamp. */
  ghost predicate Enabled(w: World, e: Event) {
    match e
    case Enqueue(_, op, ino, to, _, _) => Complete(Intent(op, ino, to, w.next))
    case Move(from, to, _, _) => from != to
    case Take(fp, now) => |w.live| < PUSH_CONCURRENCY && ClaimChoice(w.rows, now, fp)
    case Stamp(i, _) => i < |w.live|
    case End(i, _, _) => i < |w.live|
  }

  /** The requests of a moved row are new requests for its new path, in the order they had. */
  function Renumbered(r: Row, n: nat): Row {
    r.(main := r.main.(serial := n),
       parked := if r.parked.Some? then Some(r.parked.value.(serial := n + 1)) else None)
  }

  /** What stays the newest request of a path whose unsent ones were moved away: the last confirmed. */
  function Forgotten(w: World, fp: Path): map<Path, nat> {
    var sent := Confirmed(w, fp);
    if sent == [] then w.issued - {fp} else w.issued[fp := sent[|sent| - 1]]
  }

  function Moved(w: World, from: Path, to: Path, rebind: Option<RemoteId>, now: int): World
    requires from != to
  {
    if !Retargetable(w.rows, from) then w
    else
      var rows := Retarget(w.rows, from, to, rebind, now);
      var row := Renumbered(rows[to], w.next);
      w.(rows := rows[to := row], issued := Forgotten(w, from)[to := Latest(row)], next := w.next + 2)
  }

  /** The serial the row will send last. */
  function Latest(r: Row): nat {
    if r.parked.Some? then r.parked.value.serial else r.main.serial
  }

  ghost function Next(w: World, e: Event): World
    requires Enabled(w, e)
  {
    match e
    case Enqueue(fp, op, ino, to, rid, now) =>
      w.(rows := Upsert(w.rows, fp, Intent(op, ino, to, w.next), rid, now), issued := w.issued[fp := w.next],
        next := w.next + 1)
    case Move(from, to, rebind, now) => Moved(w, from, to, rebind, now)
    case Take(fp, now) => w.(rows := Claim(w.rows, fp, now), live := w.live + [JobOf(w.rows, fp)])
    case Stamp(i, id) => w.(rows := SetRemoteId(w.rows, w.live[i].filepath, id))
    case End(i, _, now) =>
      var job := w.live[i];
      w.(rows := Finish(w.rows, job.filepath, Given(w, e), Ending(w, e), now),
         live := Without(w.live, i),
         confirmed := if Ending(w, e).Success?
                      then w.confirmed[job.filepath := Confirmed(w, job.filepath) + [job.intent.serial]]
                      else w.confirmed)
  }

  const Start := World(map[], [], map[], map[], 0)

  /** A run: every event is enabled when its turn comes. */
  ghost predicate IsRun(w: World, es: seq<Event>)
    decreases |es|
  {
    es == [] || (Enabled(w, es[0]) && IsRun(Next(w, es[0]), es[1..]))
  }

  ghost function After(w: World, es: seq<Event>): World
    requires IsRun(w, es)
    decreases |es|
  {
    if es == [] then w else After(Next(w, es[0]), es[1..])
  }

  // ---- One job per path, at most eight in flight ----

  predicate RowComplete(r: Row) {
    Complete(r.main) && (r.parked.Some? ==> Complete(r.parked.value))
  }

  /** The live jobs are exactly the inflight rows, one each, a row keeps the request its job is
      sending, and every request says what to send. */
  ghost predicate Safe(w: World) {
    && (forall fp | fp in w.rows :: RowComplete(w.rows[fp]))
    && |w.live| <= PUSH_CONCURRENCY
    && (forall i, j | 0 <= i < j < |w.live| :: w.live[i].filepath != w.live[j].filepath)
    && (forall i | 0 <= i < |w.live| ::
          Inflight(w.rows, w.live[i].filepath) && w.rows[w.live[i].filepath].main == w.live[i].intent)
    && (forall fp | Inflight(w.rows, fp) :: HasJob(w.live, fp))
  }

  ghost predicate HasJob(live: seq<Job>, fp: Path) {
    exists i :: 0 <= i < |live| && live[i].filepath == fp
  }

  /** The retarget replaces a row that is being sent. */
  ghost predicate HitsInflight(w: World, e: Event) {
    e.Move? && Retargetable(w.rows, e.from) && Inflight(w.rows, e.to)
  }

  /** A job's ending touches its own path only, and leaves that released. */
  lemma EndElsewhere(w: World, e: Event, q: Path)
    requires e.End? && Enabled(w, e)
    ensures !Inflight(Next(w, e).rows, w.live[e.i].filepath)
    ensures q != w.live[e.i].filepath ==>
              (q in Next(w, e).rows <==> q in w.rows) && (q in w.rows ==> Next(w, e).rows[q] == w.rows[q])
  {
    var w', fp := Next(w, e), w.live[e.i].filepath;
    FinishReleases(w.rows, fp, Given(w, e), Ending(w, e), e.now);
    if q != fp {
      assert q in w'.rows - {fp} <==> q in w.rows - {fp};
      assert q in w.rows ==> (w'.rows - {fp})[q] == (w.rows - {fp})[q];
    }
  }

  /** Removing a job from the live ones keeps the others. */
  lemma StillLive(live: seq<Job>, i: nat, fp: Path)
    requires i < |live| && HasJob(live, fp) && live[i].filepath != fp
    ensures HasJob(Without(live, i), fp)
  {
    var j :| 0 <= j < |live| && live[j].filepath == fp;
    var k := if j < i then j else j - 1;
    assert Without(live, i)[k].filepath == fp;
  }

  lemma EndKeepsRows(w: World, e: Event)
    requires Safe(w) && e.End? && Enabled(w, e)
    ensures forall fp | fp in Next(w, e).rows :: RowComplete(Next(w, e).rows[fp])
  {
    forall fp | fp in Next(w, e).rows ensures RowComplete(Next(w, e).rows[fp]) {
      EndElsewhere(w, e, fp);
      assert fp in w.rows && RowComplete(w.rows[fp]);
    }
  }

  lemma EndKeepsSafe(w: World, e: Event)
    requires Safe(w) && e.End? && Enabled(w, e)
    ensures Safe(Next(w, e))
  {
    var w', fp := Next(w, e), w.live[e.i].filepath;
    EndKeepsRows(w, e);
    forall q | Inflight(w'.rows, q) ensures HasJob(w'.live, q) {
      EndElsewhere(w, e, q);
      assert HasJob(w.live, q);
      StillLive(w.live, e.i, q);
    }
    forall i | 0 <= i < |w'.live|
      ensures Inflight(w'.rows, w'.live[i].filepath) && w'.rows[w'.live[i].filepath].main == w'.live[i].intent
    {
      var k := if i < e.i then i else i + 1;
      assert w'.live[i] == w.live[k] && w.live[k].filepath != fp;
      EndElsewhere(w, e, w.live[k].filepath);
    }
  }

  lemma TakeKeepsSafe(w: World, e: Event)
    requires Safe(w) && e.Take? && Enabled(w, e)
    ensures Safe(Next(w, e))
  {
    var w' := Next(w, e);
    assert w'.live[|w.live|].filepath == e.fp;
    forall q | Inflight(w'.rows, q) ensures HasJob(w'.live, q) {
      if q != e.fp {
        assert Inflight(w.rows, q) && HasJob(w.live, q);
        var i :| 0 <= i < |w.live| && w.live[i].filepath == q;
        assert w'.live[i].filepath == q;
      }
    }
  }

  lemma MoveKeepsSafe(w: World, e: Event)
    requires Safe(w) && e.Move? && Enabled(w, e)
    ensures Safe(Next(w, e)) <==> !HitsInflight(w, e)
  {
    var w' := Next(w, e);
    if HitsInflight(w, e) {
      assert HasJob(w.live, e.to) && !Inflight(w'.rows, e.to);
      var i :| 0 <= i < |w.live| && w.live[i].filepath == e.to;
      assert w'.live[i].filepath == e.to;
    } else {
      assert forall q :: Inflight(w'.rows, q) <==> Inflight(w.rows, q);
    }
  }

  /** Every step keeps the worker safe, but for a retarget onto a path that is being sent: there
      the job loses its row. */
  lemma StepSafe(w: World, e: Event)
    requires Safe(w) && Enabled(w, e)
    ensures Safe(Next(w, e)) <==> !HitsInflight(w, e)
  {
    match e
    case Enqueue(_, _, _, _, _, _) => assert Next(w, e).live == w.live;
    case Move(_, _, _, _) => MoveKeepsSafe(w, e);
    case Take(_, _) => TakeKeepsSafe(w, e);
    case Stamp(_, _) =>
      assert Next(w, e).live == w.live;
      assert forall q :: Inflight(Next(w, e).rows, q) <==> Inflight(w.rows, q);
    case End(_, _, _) => EndKeepsSafe(w, e);
  }

  ghost predicate NoHit(w: World, es: seq<Event>)
    requires IsRun(w, es)
    decreases |es|
  {
    es == [] || (!HitsInflight(w, es[0]) && NoHit(Next(w, es[0]), es[1..]))
  }

  /** Over every run without such a retarget, the worker stays safe. */
  lemma {:induction false} RunSafe(w: World, es: seq<Event>)
    requires Safe(w) && IsRun(w, es) && NoHit(w, es)
    ensures Safe(After(w, es))
    decreases |es|
  {
    if es != [] {
      StepSafe(w, es[0]);
      RunSafe(Next(w, es[0]), es[1..]);
    }
  }

  // ---- No enqueued write is lost ----

  /** No job is ever dropped for lack of what to send. */
  lemma NeverDropped(w: World, e: Event)
    requires Safe(w) && e.End? && Enabled(w, e)
    ensures !Ending(w, e).Dropped?
  {
    assert RowComplete(w.rows[w.live[e.i].filepath]);
  }

  /** The newest request for `fp` is in one of the row's slots, or has been confirmed. */
  ghost predicate Held(w: World, fp: Path) {
    (fp in w.issued && fp in w.rows
     && (w.rows[fp].main.serial == w.issued[fp]
         || (w.rows[fp].parked.Some? && w.rows[fp].parked.value.serial == w.issued[fp])))
    || (fp in w.issued && w.issued[fp] in Confirmed(w, fp))
  }

  ghost predicate NothingLost(w: World) {
    forall fp | fp in w.issued :: Held(w, fp)
  }

  lemma StepLosesNothing(w: World, e: Event)
    requires Safe(w) && NothingLost(w) && Enabled(w, e) && !HitsInflight(w, e)
    ensures NothingLost(Next(w, e))
  {
    var w' := Next(w, e);
    forall fp | fp in w'.issued ensures Held(w', fp) {
      if fp in w.issued {
        assert Held(w, fp);
      }
      if e.End? && fp == w.live[e.i].filepath && fp in w.issued {
        EndHolds(w, e);
      } else if e.End? {
        EndElsewhere(w, e, fp);
      }
    }
  }

  lemma EndHolds(w: World, e: Event)
    requires Safe(w) && e.End? && Enabled(w, e)
    requires Held(w, w.live[e.i].filepath)
    ensures Held(Next(w, e), w.live[e.i].filepath)
  {
    var w', fp := Next(w, e), w.live[e.i].filepath;
    if w.issued[fp] in Confirmed(w, fp) {
      assert Ending(w, e).Success? ==> w.issued[fp] in Confirmed(w', fp);
    } else if Ending(w, e).Success? && w.rows[fp].main.serial == w.issued[fp] {
      assert Confirmed(w', fp)[|Confirmed(w, fp)|] == w.issued[fp];
    }
  }

  /** Over every run of enqueues, retargets, claims, successes, failures, 404s and rejections in which
      no retarget hits a row that is being sent, the newest request for each path is waiting in its row
      or has been confirmed. */
  lemma {:induction false} NoEnqueuedWriteIsLost(w: World, es: seq<Event>)
    requires Safe(w) && NothingLost(w) && IsRun(w, es) && NoHit(w, es)
    ensures Safe(After(w, es)) && NothingLost(After(w, es))
    decreases |es|
  {
    if es != [] {
      StepLosesNothing(w, es[0]);
      StepSafe(w, es[0]);
      NoEnqueuedWriteIsLost(Next(w, es[0]), es[1..]);
    }
  }

  // ---- Confirmed sends follow enqueue order ----

  ghost predicate Increasing(s: seq<nat>) {
    forall i, j | 0 <= i < j < |s| :: s[i] < s[j]
  }

  lemma IncreasingAppend(s: seq<nat>, x: nat)
    requires Increasing(s) && forall y | y in s :: y < x
    ensures Increasing(s + [x])
  {
    forall i | 0 <= i < |s| ensures s[i] < x {
      assert s[i] in s;
    }
  }

  ghost predicate OrderedAt(w: World, fp: Path) {
    var sent := Confirmed(w, fp);
    && Increasing(sent)
    && (fp in w.rows ==>
          fp in w.issued && Latest(w.rows[fp]) == w.issued[fp]
          && (w.rows[fp].parked.Some? ==> w.rows[fp].main.serial < w.rows[fp].parked.value.serial)
          && forall x | x in sent :: x < w.rows[fp].main.serial)
    && (fp !in w.rows && fp in w.issued ==> sent != [] && sent[|sent| - 1] == w.issued[fp])
    && (fp in w.issued ==> w.issued[fp] < w.next)
    && (fp !in w.issued ==> sent == [])
    && forall x | x in sent :: x < w.next
  }

  ghost predicate Ordered(w: World) {
    forall fp: Path :: OrderedAt(w, fp)
  }

  /** The enqueue lands on a released row whose parked write is still waiting. */
  ghost predicate OvertakesParked(w: World, e: Event) {
    e.Enqueue? && e.fp in w.rows && w.rows[e.fp].inflight.None? && w.rows[e.fp].parked.Some?
  }

  /** Every step keeps the order, exactly unless it enqueues onto a released row that still has
      a parked write. */
  lemma StepOrdered(w: World, e: Event)
    requires Safe(w) && Ordered(w) && Enabled(w, e) && !HitsInflight(w, e)
    ensures Ordered(Next(w, e)) <==> !OvertakesParked(w, e)
  {
    var w' := Next(w, e);
    if OvertakesParked(w, e) {
      assert OrderedAt(w, e.fp);
      assert !OrderedAt(w', e.fp);
    } else {
      forall fp: Path ensures OrderedAt(w', fp) {
        assert OrderedAt(w, fp);
        if e.End? {
          EndOrdered(w, e, fp);
        } else if e.Move? {
          assert OrderedAt(w, e.from);
          MoveOrdered(w, e, fp);
        } else {
          OtherOrdered(w, e, fp);
        }
      }
    }
  }

  /** A retarget numbers what it moves after everything that was sent. */
  lemma MoveOrdered(w: World, e: Event, fp: Path)
    requires OrderedAt(w, fp) && e.Move? && Enabled(w, e) && OrderedAt(w, e.from)
    ensures OrderedAt(Next(w, e), fp)
  {
    var w' := Next(w, e);
    assert Confirmed(w', fp) == Confirmed(w, fp);
    if Retargetable(w.rows, e.from) && fp == e.from {
      var sent := Confirmed(w, fp);
      assert fp !in w'.rows && (sent != [] ==> sent[|sent| - 1] in sent);
    }
  }

  lemma OtherOrdered(w: World, e: Event, fp: Path)
    requires OrderedAt(w, fp) && !e.Move? && !e.End? && Enabled(w, e) && !OvertakesParked(w, e)
    ensures OrderedAt(Next(w, e), fp)
  {
    assert Confirmed(Next(w, e), fp) == Confirmed(w, fp);
  }

  lemma EndOrdered(w: World, e: Event, fp: Path)
    requires Safe(w) && OrderedAt(w, fp) && e.End? && Enabled(w, e)
    ensures OrderedAt(Next(w, e), fp)
  {
    var w', q := Next(w, e), w.live[e.i].filepath;
    if fp == q {
      var sent, sent' := Confirmed(w, fp), Confirmed(w', fp);
      if Ending(w, e).Success? {
        assert sent' == sent + [w.rows[fp].main.serial];
        IncreasingAppend(sent, w.rows[fp].main.serial);
      }
    } else {
      EndElsewhere(w, e, fp);
    }
  }

  ghost predicate NoOvertaking(w: World, es: seq<Event>)
    requires IsRun(w, es)
    decreases |es|
  {
    es == [] || (!OvertakesParked(w, es[0]) && NoOvertaking(Next(w, es[0]), es[1..]))
  }

  lemma {:induction false} RunOrdered(w: World, es: seq<Event>)
    requires Safe(w) && Ordered(w) && IsRun(w, es) && NoHit(w, es) && NoOvertaking(w, es)
    ensures Safe(After(w, es)) && Ordered(After(w, es))
    decreases |es|
  {
    if es != [] {
      StepOrdered(w, es[0]);
      StepSafe(w, es[0]);
      RunOrdered(Next(w, es[0]), es[1..]);
    }
  }

  /** Confirmed sends follow enqueue order, and once a path's row is gone the last one sent is
      the last one enqueued. */
  lemma SendsFollowEnqueues(es: seq<Event>, fp: Path)
    requires IsRun(Start, es) && NoHit(Start, es) && NoOvertaking(Start, es)
    ensures
      var w := After(Start, es);
      Increasing(Confirmed(w, fp))
      && (fp in w.issued && fp !in w.rows ==>
            Confirmed(w, fp) != [] && Confirmed(w, fp)[|Confirmed(w, fp)| - 1] == w.issued[fp])
  {
    RunOrdered(Start, es);
    assert OrderedAt(After(Start, es), fp);
  }

  /** An answer that confirms any complete request. */
  const ACCEPTS := Answer(true, Accepted("id"), Ok(None))

  ghost function Sent(w: World, fp: Path, t: int, done: int): World
    requires Enabled(w, Take(fp, t)) && w.live == []
  {
    Next(Next(w, Take(fp, t)), End(0, ACCEPTS, done))
  }

  /** With a single due row and nothing in flight, its main write is claimed and confirmed, and the
      parked one takes its place. */
  lemma SendOne(w: World, fp: Path, t: int, done: int)
    requires Safe(w) && w.live == [] && w.rows.Keys == {fp} && Due(w.rows, fp, t)
    ensures Enabled(w, Take(fp, t))
    ensures
      var row, w' := w.rows[fp], Sent(w, fp, t, done);
      && w'.live == [] && w'.issued == w.issued && Confirmed(w', fp) == Confirmed(w, fp) + [row.main.serial] && Safe(w')
      && if row.parked.None? then w'.rows.Keys == {}
         else w'.rows.Keys == {fp} && w'.rows[fp].main == row.parked.value && w'.rows[fp].parked == None
              && Eligible(w'.rows[fp]) && w'.rows[fp].updatedAt == done
  {
    var take := Take(fp, t);
    var w1 := Next(w, take);
    var end := End(0, ACCEPTS, done);
    StepSafe(w, take);
    StepSafe(w1, end);
    assert w1.live == [JobOf(w.rows, fp)];
    AcceptedIsSuccess(JobOf(w.rows, fp));
    FinishReleases(w1.rows, fp, Given(w1, end), Ending(w1, end), done);
    assert Without(w1.live, 0) == [];
  }

  lemma AcceptedIsSuccess(job: Job)
    requires Complete(job.intent)
    ensures OutcomeOf(job, ACCEPTS) == Success
  {
  }

  /** Without that guard the order is really lost: the write that overtook is sent first, and
      the older parked one last. */
  lemma OvertakingSendsStaleLast(w: World, e: Event, t1: int, t2: int, t3: int, t4: int)
    requires Safe(w) && Enabled(w, e) && OvertakesParked(w, e) && w.live == [] && !w.rows[e.fp].poisoned
    requires w.rows.Keys == {e.fp} && e.now <= t1 && t2 <= t3
    ensures
      var es := [e, Take(e.fp, t1), End(0, ACCEPTS, t2), Take(e.fp, t3), End(0, ACCEPTS, t4)];
      IsRun(w, es)
      && var w' := After(w, es);
         e.fp !in w'.rows && e.fp in w'.issued && w'.issued[e.fp] == w.next
         && Confirmed(w', e.fp) == Confirmed(w, e.fp) + [w.next, w.rows[e.fp].parked.value.serial]
  {
    var fp, w1 := e.fp, Next(w, e);
    OvertakenRow(w, e);
    StepSafe(w, e);
    SendTwo(w1, fp, t1, t2, t3, t4);
    var w3 := Sent(w1, fp, t1, t2);
    FiveSteps(w, w1, Next(w1, Take(fp, t1)), w3, Next(w3, Take(fp, t3)), Sent(w3, fp, t3, t4),
              e, Take(fp, t1), End(0, ACCEPTS, t2), Take(fp, t3), End(0, ACCEPTS, t4));
  }

  /** A due row with a parked write is sent twice, and is gone. */
  lemma SendTwo(w: World, fp: Path, t1: int, t2: int, t3: int, t4: int)
    requires Safe(w) && w.live == [] && w.rows.Keys == {fp} && Due(w.rows, fp, t1) && w.rows[fp].parked.Some?
             && t2 <= t3
    ensures Enabled(w, Take(fp, t1)) && Enabled(Next(w, Take(fp, t1)), End(0, ACCEPTS, t2))
    ensures
      var w2 := Sent(w, fp, t1, t2);
      && Enabled(w2, Take(fp, t3)) && w2.live == [] && Enabled(Next(w2, Take(fp, t3)), End(0, ACCEPTS, t4))
      && var w4 := Sent(w2, fp, t3, t4);
         fp !in w4.rows && w4.issued == w.issued
         && Confirmed(w4, fp) == Confirmed(w, fp) + [w.rows[fp].main.serial, w.rows[fp].parked.value.serial]
  {
    SendOne(w, fp, t1, t2);
    SendOne(Sent(w, fp, t1, t2), fp, t3, t4);
  }

  lemma OvertakenRow(w: World, e: Event)
    requires Enabled(w, e) && OvertakesParked(w, e) && !w.rows[e.fp].poisoned && w.rows.Keys == {e.fp}
    ensures
      var w' := Next(w, e);
      w'.rows.Keys == {e.fp} && w'.live == w.live && w'.confirmed == w.confirmed
      && w'.rows[e.fp].main.serial == w.next && w'.rows[e.fp].parked == w.rows[e.fp].parked
      && Eligible(w'.rows[e.fp]) && w'.rows[e.fp].updatedAt == e.now
      && e.fp in w'.issued && w'.issued[e.fp] == w.next
  {
  }

  lemma FiveSteps(w0: World, w1: World, w2: World, w3: World, w4: World, w5: World,
                  a: Event, b: Event, c: Event, d: Event, f: Event)
    requires Enabled(w0, a) && w1 == Next(w0, a)
    requires Enabled(w1, b) && w2 == Next(w1, b)
    requires Enabled(w2, c) && w3 == Next(w2, c)
    requires Enabled(w3, d) && w4 == Next(w3, d)
    requires Enabled(w4, f) && w5 == Next(w4, f)
    ensures IsRun(w0, [a, b, c, d, f]) && After(w0, [a, b, c, d, f]) == w5
  {
    TwoSteps(w3, w4, w5, d, f);
    Prepend(w2, c, [d, f]);
    assert [c] + [d, f] == [c, d, f];
    LastSteps(w0, w1, w2, w5, a, b, [c, d, f]);
    assert [a, b] + [c, d, f] == [a, b, c, d, f];
  }

  lemma TwoSteps(w0: World, w1: World, w2: World, a: Event, b: Event)
    requires Enabled(w0, a) && w1 == Next(w0, a) && Enabled(w1, b) && w2 == Next(w1, b)
    ensures IsRun(w0, [a, b]) && After(w0, [a, b]) == w2
  {
    Prepend(w1, b, []);
    Prepend(w0, a, [b]);
    assert [b] + [] == [b] && [a] + [b] == [a, b];
  }

  lemma LastSteps(w0: World, w1: World, w2: World, end: World, a: Event, b: Event, es: seq<Event>)
    requires Enabled(w0, a) && w1 == Next(w0, a) && Enabled(w1, b) && w2 == Next(w1, b)
    requires IsRun(w2, es) && After(w2, es) == end
    ensures IsRun(w0, [a, b] + es) && After(w0, [a, b] + es) == end
  {
    Prepend(w1, b, es);
    Prepend(w0, a, [b] + es);
    assert [a] + ([b] + es) == [a, b] + es;
  }

  lemma Prepend(w: World, e: Event, es: seq<Event>)
    requires Enabled(w, e) && IsRun(Next(w, e), es)
    ensures IsRun(w, [e] + es) && After(w, [e] + es) == After(Next(w, e), es)
  {
    assert ([e] + es)[1..] == es;
  }

  // ---- At most two sends after a burst ----

  /** How many writes the row of `fp` still holds. */
  function Slots(rows: Rows, fp: Path): nat {
    if fp !in rows then 0 else if rows[fp].parked.Some? then 2 else 1
  }

  ghost predicate IsSuccess(w: World, e: Event, fp: Path)
    requires Enabled(w, e)
  {
    e.End? && Ending(w, e).Success? && w.live[e.i].filepath == fp
  }

  ghost function Successes(w: World, es: seq<Event>, fp: Path): nat
    requires IsRun(w, es)
    decreases |es|
  {
    if es == [] then 0
    else (if IsSuccess(w, es[0], fp) then 1 else 0) + Successes(Next(w, es[0]), es[1..], fp)
  }

  /** The event asks for nothing at `fp`, and moves nothing there or away. */
  predicate LeavesAlone(e: Event, fp: Path) {
    !(e.Enqueue? && e.fp == fp) && !(e.Move? && (e.from == fp || e.to == fp))
  }

  ghost predicate NoEnqueueAt(es: seq<Event>, fp: Path) {
    forall e | e in es :: LeavesAlone(e, fp)
  }

  lemma StepSlots(w: World, e: Event, fp: Path)
    requires Safe(w) && Enabled(w, e) && LeavesAlone(e, fp)
    ensures Slots(Next(w, e).rows, fp) + (if IsSuccess(w, e, fp) then 1 else 0) == Slots(w.rows, fp)
  {
    var w' := Next(w, e);
    if e.End? {
      NeverDropped(w, e);
      EndElsewhere(w, e, fp);
    }
  }

  /** Without new enqueues every success empties exactly one slot and nothing else does. */
  lemma {:induction false} SuccessesEmptySlots(w: World, es: seq<Event>, fp: Path)
    requires Safe(w) && IsRun(w, es) && NoHit(w, es) && NoEnqueueAt(es, fp)
    ensures Successes(w, es, fp) + Slots(After(w, es).rows, fp) == Slots(w.rows, fp)
    decreases |es|
  {
    if es != [] {
      assert es[0] in es;
      StepSlots(w, es[0], fp);
      StepSafe(w, es[0]);
      SuccessesEmptySlots(Next(w, es[0]), es[1..], fp);
    }
  }

  /** However many enqueues and failures came before, a path that is not enqueued again sees at
      most two more successes, and its row is gone once there have been as many as it had slots. */
  lemma AtMostTwoSends(before: seq<Event>, after: seq<Event>, fp: Path)
    requires IsRun(Start, before) && NoHit(Start, before)
    requires IsRun(After(Start, before), after) && NoHit(After(Start, before), after) && NoEnqueueAt(after, fp)
    ensures
      var w := After(Start, before);
      Successes(w, after, fp) <= 2
      && (Successes(w, after, fp) == 2 ==> fp !in After(w, after).rows)
      && (fp !in After(w, after).rows <==> Successes(w, after, fp) == Slots(w.rows, fp))
  {
    NoEnqueuedWriteIsLost(Start, before);
    SuccessesEmptySlots(After(Start, before), after, fp);
  }

  // ---- Bounded waiting ----

  /** Rows that could be claimed in preference to, or instead of, `fp`. */
  ghost function Ahead(rows: Rows, fp: Path): set<Path>
    requires fp in rows
  {
    set q | q in rows && Eligible(rows[q]) && rows[q].updatedAt <= rows[fp].updatedAt
  }

  /** The event happens after `stamp` and leaves the row of `fp` alone. */
  ghost predicate Passes(w: World, e: Event, fp: Path, stamp: int)
    requires Enabled(w, e)
  {
    match e
    case Enqueue(q, _, _, _, _, now) => q != fp && now > stamp
    case Move(from, to, _, now) => from != fp && to != fp && now > stamp
    case Take(q, now) => q != fp && now > stamp
    case Stamp(_, _) => true
    case End(_, _, now) => now > stamp
  }

  ghost predicate RunPasses(w: World, es: seq<Event>, fp: Path, stamp: int)
    requires IsRun(w, es)
    decreases |es|
  {
    es == [] || (Passes(w, es[0], fp, stamp) && RunPasses(Next(w, es[0]), es[1..], fp, stamp))
  }

  function Claims(es: seq<Event>): nat {
    if es == [] then 0 else (if es[0].Take? then 1 else 0) + Claims(es[1..])
  }

  /** What a job releases is stamped after `fp`, or deleted. */
  lemma EndShrinksAhead(w: World, e: Event, fp: Path)
    requires Safe(w) && e.End? && Enabled(w, e) && fp in w.rows && Eligible(w.rows[fp]) && e.now > w.rows[fp].updatedAt
    ensures fp in Next(w, e).rows && Next(w, e).rows[fp] == w.rows[fp]
            && Ahead(Next(w, e).rows, fp) <= Ahead(w.rows, fp)
  {
    var w', q := Next(w, e), w.live[e.i].filepath;
    assert Inflight(w.rows, q);
    EndElsewhere(w, e, fp);
    forall p | p in Ahead(w'.rows, fp) ensures p in Ahead(w.rows, fp) {
      EndElsewhere(w, e, p);
    }
  }

  lemma StepShrinksAhead(w: World, e: Event, fp: Path)
    requires Safe(w) && Enabled(w, e) && fp in w.rows && Eligible(w.rows[fp])
    requires Passes(w, e, fp, w.rows[fp].updatedAt)
    ensures fp in Next(w, e).rows && Eligible(Next(w, e).rows[fp])
    ensures Next(w, e).rows[fp].updatedAt == w.rows[fp].updatedAt
    ensures Ahead(Next(w, e).rows, fp) <= Ahead(w.rows, fp) - (if e.Take? then {e.fp} else {})
    ensures e.Take? ==> e.fp in Ahead(w.rows, fp)
  {
    var w' := Next(w, e);
    if e.End? {
      EndShrinksAhead(w, e, fp);
    } else if e.Take? {
      assert Due(w.rows, fp, e.now);
    }
  }

  /** While a due row waits unclaimed, every claim takes one of the rows stamped no later, and
      no row joins them; so it is claimed within as many claims as there were such rows. */
  lemma {:induction false} BoundedWaiting(w: World, es: seq<Event>, fp: Path)
    requires Safe(w) && IsRun(w, es) && NoHit(w, es)
    requires fp in w.rows && Eligible(w.rows[fp]) && RunPasses(w, es, fp, w.rows[fp].updatedAt)
    ensures Claims(es) < |Ahead(w.rows, fp)|
    decreases |es|
  {
    if es == [] {
      assert fp in Ahead(w.rows, fp);
    } else {
      var w', gone := Next(w, es[0]), if es[0].Take? then {es[0].fp} else {};
      StepSafe(w, es[0]);
      StepShrinksAhead(w, es[0], fp);
      BoundedWaiting(w', es[1..], fp);
      SubsetSize(Ahead(w'.rows, fp), Ahead(w.rows, fp) - gone);
    }
  }

  // ---- A rejected path stays rejected ----

  ghost predicate Rejected(w: World, fp: Path) {
    fp in w.rows && w.rows[fp].poisoned && !Inflight(w.rows, fp)
  }

  /** A retarget takes the row of `fp` away, or puts one there that is not itself rejected. */
  ghost predicate Replaces(w: World, e: Event, fp: Path) {
    e.Move? && Retargetable(w.rows, e.from) && (e.from == fp || (e.to == fp && !w.rows[e.from].poisoned))
  }

  /** A step leaves a rejected row rejected, exactly unless it is such a retarget; and then too
      nothing is confirmed for the path. */
  lemma StepRejected(w: World, e: Event, fp: Path)
    requires Safe(w) && Enabled(w, e) && Rejected(w, fp)
    ensures Rejected(Next(w, e), fp) <==> !Replaces(w, e, fp)
    ensures Confirmed(Next(w, e), fp) == Confirmed(w, fp)
  {
    if e.End? {
      assert Inflight(w.rows, w.live[e.i].filepath);
      EndElsewhere(w, e, fp);
    }
  }

  ghost predicate NeverReplaced(w: World, es: seq<Event>, fp: Path)
    requires IsRun(w, es)
    decreases |es|
  {
    es == [] || (!Replaces(w, es[0], fp) && NeverReplaced(Next(w, es[0]), es[1..], fp))
  }

  /** Until a retarget replaces it, a rejected row is never claimed again, whatever is enqueued on its
      path: deleting the file and copying it again does not retry it. */
  lemma {:induction false} RejectedForGood(w: World, es: seq<Event>, fp: Path)
    requires Safe(w) && IsRun(w, es) && NoHit(w, es) && NeverReplaced(w, es, fp) && Rejected(w, fp)
    ensures Rejected(After(w, es), fp) && Confirmed(After(w, es), fp) == Confirmed(w, fp)
    decreases |es|
  {
    if es != [] {
      StepSafe(w, es[0]);
      StepRejected(w, es[0], fp);
      RejectedForGood(Next(w, es[0]), es[1..], fp);
    }
  }

  /** A retarget does retry the path: the moved create is claimed as soon as it is due. */
  lemma RetargetRetries(w: World, from: Path, fp: Path, rebind: Option<RemoteId>, now: int)
    requires Rejected(w, fp) && from != fp && Retargetable(w.rows, from) && !w.rows[from].poisoned
    ensures
      var w' := Next(w, Move(from, fp, rebind, now));
      !Rejected(w', fp) && Due(w'.rows, fp, now) && w'.rows[fp].main.op == w.rows[from].main.op
  {
  }
}
