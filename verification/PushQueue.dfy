/** The durable push queue: one row per file path, with a main slot and a parked slot. */
module PushQueue {
  import opened Wrappers

  type Path = string
  type Ino = nat
  type RemoteId = string

  datatype PushOp = Create | Update | Delete | Rename | UploadBinary

  /** What one enqueue asks for. `serial` numbers the enqueues; the table does not store it and
      no operation looks at it, it only tells two equal requests apart. */
  datatype Intent = Intent(op: PushOp, contentIno: Option<Ino>, renameTo: Option<Path>, serial: nat)

  datatype Row = Row(
    main: Intent,
    remoteId: Option<RemoteId>,
    inflight: Option<int>,
    parked: Option<Intent>,
    attempt: nat,
    updatedAt: int,
    poisoned: bool)

  type Rows = map<Path, Row>

  datatype Job = Job(filepath: Path, intent: Intent, remoteId: Option<RemoteId>, attempt: nat)

  function Coalesce<T>(a: Option<T>, b: Option<T>): Option<T> {
    if a.Some? then a else b
  }

  predicate Inflight(rows: Rows, fp: Path) {
    fp in rows && rows[fp].inflight.Some?
  }

  // ---- The statements, as functions of the table ----

  /** Enqueue: into the parked slot while the row is being sent, into the main slot otherwise. */
  function Upsert(rows: Rows, fp: Path, intent: Intent, rid: Option<RemoteId>, now: int): Rows {
    if Inflight(rows, fp) then
      rows[fp := rows[fp].(parked := Some(intent), updatedAt := now)]
    else if fp in rows then
      rows[fp := rows[fp].(main := intent, remoteId := Coalesce(rid, rows[fp].remoteId), attempt := 0,
        updatedAt := now)]
    else
      rows[fp := Row(intent, rid, None, None, 0, now, false)]
  }

  predicate Retargetable(rows: Rows, fp: Path) {
    fp in rows && (rows[fp].main.op == Create || rows[fp].main.op == UploadBinary)
    && rows[fp].inflight.None? && rows[fp].remoteId.None?
  }

  /** Move an unsent create to another path, replacing whatever row is there. */
  function Retarget(rows: Rows, from: Path, to: Path, rebind: Option<RemoteId>, now: int): Rows {
    if !Retargetable(rows, from) then rows
    else if from == to then rows - {to}
    else
      (rows - {from})[to := rows[from].(remoteId := Coalesce(rebind, rows[from].remoteId), attempt := 0,
        updatedAt := now)]
  }

  predicate Eligible(r: Row) {
    r.inflight.None? && !r.poisoned
  }

  predicate Due(rows: Rows, fp: Path, now: int) {
    fp in rows && Eligible(rows[fp]) && rows[fp].updatedAt <= now
  }

  /** `fp` is a due row with the oldest stamp; ties are broken arbitrarily. */
  ghost predicate ClaimChoice(rows: Rows, now: int, fp: Path) {
    Due(rows, fp, now) && forall q | Due(rows, q, now) :: rows[fp].updatedAt <= rows[q].updatedAt
  }

  function Claim(rows: Rows, fp: Path, now: int): Rows
    requires fp in rows
  {
    rows[fp := rows[fp].(inflight := Some(now))]
  }

  function JobOf(rows: Rows, fp: Path): Job
    requires fp in rows
  {
    Job(fp, rows[fp].main, rows[fp].remoteId, rows[fp].attempt)
  }

  function SetRemoteId(rows: Rows, fp: Path, id: RemoteId): Rows {
    if fp in rows then rows[fp := rows[fp].(remoteId := Some(id))] else rows
  }

  /** Success: promote the parked write, or delete the row. */
  function FinalizeSuccess(rows: Rows, fp: Path, now: int): Rows {
    if fp !in rows then rows
    else if rows[fp].parked.Some? then
      rows[fp := rows[fp].(main := rows[fp].parked.value, parked := None, inflight := None, attempt := 0,
        updatedAt := now)]
    else rows - {fp}
  }

  /** Failure: release the row and push its stamp back; a parked write stays parked. */
  function FinalizeFailure(rows: Rows, fp: Path, now: int, backoff: int): Rows {
    if fp !in rows then rows
    else rows[fp := rows[fp].(inflight := None, attempt := rows[fp].attempt + 1, updatedAt := now + backoff)]
  }

  function Poison(rows: Rows, fp: Path, now: int): Rows {
    if fp !in rows then rows
    else rows[fp := rows[fp].(poisoned := true, inflight := None, updatedAt := now)]
  }

  function Drop(rows: Rows, fp: Path): Rows {
    rows - {fp}
  }

  function ForgetRemoteId(rows: Rows, fp: Path): Rows {
    if fp in rows then rows[fp := rows[fp].(remoteId := None)] else rows
  }

  function BackoffMs(attempt: nat): (ms: int)
    ensures 500 <= ms <= 60_000
  {
    if attempt == 0 then 500
    else if attempt == 1 then 1_000
    else if attempt == 2 then 2_000
    else if attempt == 3 then 5_000
    else if attempt == 4 then 15_000
    else if attempt == 5 then 30_000
    else 60_000
  }

  // ---- What the server answers ----

  /** `Accepted` carries the document id of a POST; it is not read for other requests. */
  datatype Reply = Accepted(id: RemoteId) | NotFound | Rejected | Failed

  /** `text` says whether the content is UTF-8, `lookup` is the id a rename finds by path. */
  datatype Answer = Answer(text: bool, reply: Reply, lookup: Result<Option<RemoteId>, ()>)

  /** How a job leaves the queue. */
  datatype Outcome = Success | Failure(backoff: int) | Poisoned | Dropped | Vanished(rid: RemoteId)

  predicate Posts(job: Job, text: bool) {
    job.intent.op == UploadBinary
    || ((job.intent.op == Create || job.intent.op == Update) && (!text || job.remoteId.None?))
  }

  /** Which outcome `process_job` reaches, over all its branches. */
  function OutcomeOf(job: Job, a: Answer): Outcome {
    if job.intent.op == Delete then
      PlainOutcome(job, a.reply)
    else if job.intent.op == Rename then
      if job.intent.renameTo.None? then Dropped
      else if job.remoteId.None? && a.lookup.Err? then Failure(BackoffMs(job.attempt))
      else if job.remoteId.None? && a.lookup.value.None? then Success
      else PlainOutcome(job, a.reply)
    else if job.intent.contentIno.None? then Dropped
    else if a.reply.NotFound? && !Posts(job, a.text) then Vanished(job.remoteId.value)
    else PlainOutcome(job, a.reply)
  }

  /** Done, rejected for good, or to be retried after the backoff. */
  function PlainOutcome(job: Job, reply: Reply): Outcome {
    match reply
    case Accepted(_) => Success
    case Rejected => Poisoned
    case NotFound => Failure(BackoffMs(job.attempt))
    case Failed => Failure(BackoffMs(job.attempt))
  }

  /** The table after a job ends; `posted` is the id a POST returned, if it was one. */
  function Finish(rows: Rows, fp: Path, posted: Option<RemoteId>, o: Outcome, now: int): Rows {
    match o
    case Success => FinalizeSuccess(if posted.Some? then SetRemoteId(rows, fp, posted.value) else rows, fp, now)
    case Failure(backoff) => FinalizeFailure(rows, fp, now, backoff)
    case Poisoned => Poison(rows, fp, now)
    case Dropped => Drop(rows, fp)
    case Vanished(_) => FinalizeFailure(ForgetRemoteId(rows, fp), fp, now, 0)
  }

  function PostedId(job: Job, a: Answer): Option<RemoteId> {
    if OutcomeOf(job, a).Success? && Posts(job, a.text) && a.reply.Accepted? then Some(a.reply.id) else None
  }

  /** Every way a job can end deletes its row or releases it, and touches no other row. */
  lemma FinishReleases(rows: Rows, fp: Path, posted: Option<RemoteId>, o: Outcome, now: int)
    ensures !Inflight(Finish(rows, fp, posted, o, now), fp)
    ensures Finish(rows, fp, posted, o, now) - {fp} == rows - {fp}
  {
  }

  // ---- What a sequence of statements amounts to ----

  /** Of two enqueues the later one counts. An id the earlier one brought stays known, unless the row
      is being sent: then neither brings one. */
  lemma NewestWriteWins(rows: Rows, fp: Path, a: Intent, b: Intent, ra: Option<RemoteId>, rb: Option<RemoteId>, t: int,
                        u: int)
    ensures
      Upsert(Upsert(rows, fp, a, ra, t), fp, b, rb, u)
      == Upsert(rows, fp, b, if Inflight(rows, fp) then rb else Coalesce(rb, ra), u)
  {
    var once, twice := Upsert(rows, fp, a, ra, t), Upsert(Upsert(rows, fp, a, ra, t), fp, b, rb, u);
    assert once.Keys == twice.Keys == rows.Keys + {fp};
  }

  /** A send that fails leaves the request as it was, one attempt older and due after its backoff;
      a write that arrived meanwhile is parked beside it. */
  lemma FailedSendRestores(rows: Rows, fp: Path, claimed: int, now: int, backoff: int)
    requires fp in rows && rows[fp].inflight.None?
    ensures
      var after := FinalizeFailure(Claim(rows, fp, claimed), fp, now, backoff);
      after == rows[fp := rows[fp].(attempt := rows[fp].attempt + 1, updatedAt := now + backoff)]
    ensures forall intent, rid, t ::
              var after := FinalizeFailure(Upsert(Claim(rows, fp, claimed), fp, intent, rid, t), fp, now, backoff);
              after == rows[fp := rows[fp].(attempt := rows[fp].attempt + 1, updatedAt := now + backoff,
                parked := Some(intent))]
  {
  }

  /** A send that succeeds leaves nothing, or exactly the write that arrived meanwhile: a request like
      any other, for the document the row knows by then. */
  lemma SuccessfulSendLeaves(rows: Rows, fp: Path, claimed: int, now: int)
    requires fp in rows && rows[fp].inflight.None? && rows[fp].parked.None?
    ensures FinalizeSuccess(Claim(rows, fp, claimed), fp, now) == rows - {fp}
    ensures forall intent, rid, t ::
              FinalizeSuccess(Upsert(Claim(rows, fp, claimed), fp, intent, rid, t), fp, now)
              == Upsert(rows, fp, intent, None, now)
  {
    assert FinalizeSuccess(Claim(rows, fp, claimed), fp, now) == rows - {fp};
  }

  /** The id a POST returned reaches the write that arrived during it, which is therefore a PATCH. */
  lemma PostedIdReachesParked(rows: Rows, fp: Path, id: RemoteId, now: int)
    requires fp in rows && rows[fp].parked.Some? && rows[fp].parked.value.op != UploadBinary
    ensures
      var after := FinalizeSuccess(SetRemoteId(rows, fp, id), fp, now);
      && fp in after && after[fp].remoteId == Some(id) && after[fp].main == rows[fp].parked.value
      && !Posts(JobOf(after, fp), true)
  {
  }

  /** A rejected row is due never again, whatever is enqueued on its path; the enqueues only replace
      what it would have sent. */
  lemma RejectedIsNeverDue(rows: Rows, fp: Path, rejected: int, intent: Intent, rid: Option<RemoteId>, t: int, now: int)
    requires fp in rows
    ensures
      var after := Upsert(Poison(rows, fp, rejected), fp, intent, rid, t);
      fp in after && after[fp].main == intent && after[fp].poisoned && !Due(after, fp, now)
  {
  }

  ghost predicate Holds(jobs: seq<Job>, fp: Path) {
    exists i :: 0 <= i < |jobs| && jobs[i].filepath == fp
  }

  /** `jobs` are distinct due rows of `before`, in stamp order, and marking them inflight is all
      that happened between `before` and `after`. */
  ghost predicate ClaimedInOrder(before: Rows, after: Rows, jobs: seq<Job>, now: int) {
    && after.Keys == before.Keys
    && (forall i | 0 <= i < |jobs| ::
          Due(before, jobs[i].filepath, now) && jobs[i] == JobOf(before, jobs[i].filepath)
          && after[jobs[i].filepath] == before[jobs[i].filepath].(inflight := Some(now)))
    && (forall i, j | 0 <= i < j < |jobs| ::
          jobs[i].filepath != jobs[j].filepath
          && before[jobs[i].filepath].updatedAt <= before[jobs[j].filepath].updatedAt)
    && (forall q | q in after && after[q] != before[q] :: Holds(jobs, q))
  }

  /** No claimed row is younger than a row still due. */
  ghost predicate NoOlderLeft(before: Rows, after: Rows, jobs: seq<Job>, now: int)
    requires forall i | 0 <= i < |jobs| :: jobs[i].filepath in before
  {
    forall i, q | 0 <= i < |jobs| && Due(after, q, now) :: before[jobs[i].filepath].updatedAt <= after[q].updatedAt
  }

  lemma ClaimOneMore(before: Rows, mid: Rows, after: Rows, jobs: seq<Job>, job: Job, now: int)
    requires ClaimedInOrder(before, mid, jobs, now) && NoOlderLeft(before, mid, jobs, now)
    requires ClaimChoice(mid, now, job.filepath)
    requires job == JobOf(mid, job.filepath) && after == Claim(mid, job.filepath, now)
    ensures ClaimedInOrder(before, after, jobs + [job], now) && NoOlderLeft(before, after, jobs + [job], now)
  {
    var all := jobs + [job];
    forall i | 0 <= i < |jobs| ensures jobs[i].filepath != job.filepath {
      assert mid[jobs[i].filepath].inflight.Some?;
    }
    assert mid[job.filepath] == before[job.filepath] by {
      assert !Holds(jobs, job.filepath);
    }
    forall q | q in after && after[q] != before[q] ensures Holds(all, q) {
      if q == job.filepath {
        assert all[|jobs|].filepath == q;
      } else {
        assert Holds(jobs, q);
        var i :| 0 <= i < |jobs| && jobs[i].filepath == q;
        assert all[i].filepath == q;
      }
    }
    assert forall q | Due(after, q, now) :: Due(mid, q, now) && after[q] == mid[q];
  }

  // ---- The table in place ----

  class Db {
    var rows: Rows
    var remote: map<Ino, RemoteId>
    var dirty: map<Ino, int>

    constructor ()
      ensures rows == map[] && remote == map[] && dirty == map[]
    {
      rows, remote, dirty := map[], map[], map[];
    }

    method PushQueueUpsert(fp: Path, intent: Intent, rid: Option<RemoteId>, now: int)
      modifies this`rows
      ensures rows == Upsert(old(rows), fp, intent, rid, now)
    {
      if fp in rows && rows[fp].inflight.Some? {
        rows := rows[fp := rows[fp].(parked := Some(intent), updatedAt := now)];
      } else if fp in rows {
        var row := rows[fp];
        row := row.(main := intent);
        if rid.Some? {
          row := row.(remoteId := rid);
        }
        rows := rows[fp := row.(attempt := 0, updatedAt := now)];
      } else {
        rows := rows[fp := Row(intent, rid, None, None, 0, now, false)];
      }
    }

    method PushQueueRetargetPendingCreate(from: Path, to: Path, rebind: Option<RemoteId>, now: int)
      returns (moved: bool)
      modifies this`rows
      ensures rows == Retarget(old(rows), from, to, rebind, now)
      ensures moved <==> Retargetable(old(rows), from) && from != to
    {
      var eligible := from in rows && (rows[from].main.op == Create || rows[from].main.op == UploadBinary)
                      && rows[from].inflight.None? && rows[from].remoteId.None?;
      if !eligible {
        return false;
      }
      rows := rows - {to};
      if from !in rows {
        return false;
      }
      var row := rows[from];
      if rebind.Some? {
        row := row.(remoteId := rebind);
      }
      rows := (rows - {from})[to := row.(attempt := 0, updatedAt := now)];
      assert rows == Retarget(old(rows), from, to, rebind, now);
      return true;
    }

    /** Claims a due row with the oldest stamp, by one pass over the table. */
    method PushQueueClaimNext(now: int) returns (job: Option<Job>)
      modifies this`rows
      ensures job.None? ==> rows == old(rows) && forall q :: !Due(rows, q, now)
      ensures job.Some? ==>
                ClaimChoice(old(rows), now, job.value.filepath)
                && job.value == JobOf(old(rows), job.value.filepath)
                && rows == Claim(old(rows), job.value.filepath, now)
    {
      var best: Option<Path> := None;
      var rest := rows.Keys;
      while rest != {}
        invariant rest <= rows.Keys
        invariant best.Some? ==> Due(rows, best.value, now)
        invariant best.None? ==> forall q | q in rows.Keys - rest :: !Due(rows, q, now)
        invariant best.Some? ==>
                    forall q | q in rows.Keys - rest && Due(rows, q, now) ::
                      rows[best.value].updatedAt <= rows[q].updatedAt
        decreases rest
        modifies {}
      {
        var q :| q in rest;
        rest := rest - {q};
        if rows[q].inflight.None? && !rows[q].poisoned && rows[q].updatedAt <= now
           && (best.None? || rows[q].updatedAt < rows[best.value].updatedAt) {
          best := Some(q);
        }
      }
      if best.None? {
        return None;
      }
      var fp := best.value;
      job := Some(Job(fp, rows[fp].main, rows[fp].remoteId, rows[fp].attempt));
      rows := rows[fp := rows[fp].(inflight := Some(now))];
    }

    /** The worker's claim loop: jobs are claimed, oldest stamp first, until the permits or the due
        rows run out. */
    method ClaimBatch(permits: nat, now: int) returns (jobs: seq<Job>)
      modifies this`rows
      ensures |jobs| <= permits && (|jobs| < permits ==> forall q :: !Due(rows, q, now))
      ensures ClaimedInOrder(old(rows), rows, jobs, now)
    {
      jobs := [];
      while |jobs| < permits
        invariant |jobs| <= permits
        invariant ClaimedInOrder(old(rows), rows, jobs, now)
        invariant NoOlderLeft(old(rows), rows, jobs, now)
      {
        ghost var before := rows;
        var job := PushQueueClaimNext(now);
        if job.None? {
          return;
        }
        ClaimOneMore(old(rows), before, rows, jobs, job.value, now);
        jobs := jobs + [job.value];
      }
    }

    method PushQueueSetRemoteId(fp: Path, id: RemoteId)
      modifies this`rows
      ensures rows == SetRemoteId(old(rows), fp, id)
    {
      if fp in rows {
        rows := rows[fp := rows[fp].(remoteId := Some(id))];
      }
    }

    method PushQueueFinalizeSuccess(fp: Path, now: int)
      modifies this`rows
      ensures rows == FinalizeSuccess(old(rows), fp, now)
    {
      if fp in rows && rows[fp].parked.Some? {
        var row := rows[fp];
        row := row.(main := row.parked.value);
        row := row.(parked := None, inflight := None, attempt := 0, updatedAt := now);
        rows := rows[fp := row];
      } else {
        rows := rows - {fp};
      }
    }

    method PushQueueFinalizeFailure(fp: Path, now: int, backoff: int)
      modifies this`rows
      ensures rows == FinalizeFailure(old(rows), fp, now, backoff)
    {
      if fp in rows {
        var row := rows[fp];
        rows := rows[fp := row.(inflight := None, attempt := row.attempt + 1, updatedAt := now + backoff)];
      }
    }

    method PushQueuePoison(fp: Path, now: int)
      modifies this`rows
      ensures rows == Poison(old(rows), fp, now)
    {
      if fp in rows {
        rows := rows[fp := rows[fp].(poisoned := true, inflight := None, updatedAt := now)];
      }
    }

    method PushQueueDrop(fp: Path)
      modifies this`rows
      ensures rows == Drop(old(rows), fp)
    {
      rows := rows - {fp};
    }

    /** On a 404: forget the id in the row and in every mapping that carries it. */
    method ClearRemoteIdAfter404(fp: Path, rid: RemoteId)
      modifies this`rows, this`remote
      ensures rows == ForgetRemoteId(old(rows), fp)
      ensures remote == map i | i in old(remote) && old(remote)[i] != rid :: old(remote)[i]
    {
      if fp in rows {
        rows := rows[fp := rows[fp].(remoteId := None)];
      }
      remote := map i | i in remote && remote[i] != rid :: remote[i];
    }

    /** `process_job` for one claimed job, given the server's answer. */
    method ProcessJob(job: Job, a: Answer, now: int)
      modifies this
      ensures rows == Finish(old(rows), job.filepath, PostedId(job, a), OutcomeOf(job, a), now)
      ensures PostedId(job, a).Some? ==>
                job.intent.contentIno.Some?
                  && remote == old(remote)[job.intent.contentIno.value := PostedId(job, a).value]
      ensures PostedId(job, a).None? ==> remote.Items <= old(remote).Items
      ensures OutcomeOf(job, a).Vanished? ==> job.remoteId.Some? && job.remoteId.value !in remote.Values
      ensures !OutcomeOf(job, a).Vanished? && PostedId(job, a).None? ==> remote == old(remote)
      ensures dirty == if OutcomeOf(job, a).Success? && job.intent.contentIno.Some?
                          && job.intent.op != Delete && job.intent.op != Rename
                       then old(dirty) - {job.intent.contentIno.value} else old(dirty)
    {
      if job.intent.op == Delete {
        ProcessPlain(job, a.reply, now);
        return;
      }
      if job.intent.op == Rename {
        if job.intent.renameTo.None? {
          PushQueueDrop(job.filepath);
        } else if job.remoteId.None? && a.lookup.Err? {
          PushQueueFinalizeFailure(job.filepath, now, BackoffMs(job.attempt));
        } else if job.remoteId.None? && a.lookup.value.None? {
          PushQueueFinalizeSuccess(job.filepath, now);
        } else {
          ProcessPlain(job, a.reply, now);
        }
        return;
      }
      if job.intent.contentIno.None? {
        PushQueueDrop(job.filepath);
        return;
      }
      var ino := job.intent.contentIno.value;
      if job.intent.op != UploadBinary && a.text && job.remoteId.Some? {
        match a.reply
        case Accepted(_) =>
          dirty := dirty - {ino};
          PushQueueFinalizeSuccess(job.filepath, now);
        case NotFound =>
          ClearRemoteIdAfter404(job.filepath, job.remoteId.value);
          PushQueueFinalizeFailure(job.filepath, now, 0);
        case Rejected =>
          PushQueuePoison(job.filepath, now);
        case Failed =>
          PushQueueFinalizeFailure(job.filepath, now, BackoffMs(job.attempt));
      } else {
        match a.reply
        case Accepted(id) =>
          remote := remote[ino := id];
          PushQueueSetRemoteId(job.filepath, id);
          dirty := dirty - {ino};
          PushQueueFinalizeSuccess(job.filepath, now);
        case Rejected =>
          PushQueuePoison(job.filepath, now);
        case NotFound =>
          PushQueueFinalizeFailure(job.filepath, now, BackoffMs(job.attempt));
        case Failed =>
          PushQueueFinalizeFailure(job.filepath, now, BackoffMs(job.attempt));
      }
    }

    /** A request without content: delete, or rename of a known document. */
    method ProcessPlain(job: Job, reply: Reply, now: int)
      modifies this`rows
      ensures rows == Finish(old(rows), job.filepath, None, PlainOutcome(job, reply), now)
    {
      match reply
      case Accepted(_) => PushQueueFinalizeSuccess(job.filepath, now);
      case Rejected => PushQueuePoison(job.filepath, now);
      case NotFound => PushQueueFinalizeFailure(job.filepath, now, BackoffMs(job.attempt));
      case Failed => PushQueueFinalizeFailure(job.filepath, now, BackoffMs(job.attempt));
    }
  }
}
