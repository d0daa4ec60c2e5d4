/** The queue of include/db_queue.hpp over the in-memory store, one worker's passes at a time,
    and the retry budget of a job over any sequence of them. */
module DbQueues {
  import opened Wrappers
  import opened Database
  import opened Jobs

  /** What a handler call does. */
  datatype Outcome = Succeeds | Throws(error: string)

  /** A failed_jobs row and the job it was written for. */
  datatype Burial = Burial(id: int, row: Failure)

  /** A pass so far: the tables, the jobs processed, the ids whose handler ran, those whose handler
      returned, those dropped for want of a handler, and the burials. */
  datatype Pass = Pass(tables: Tables, processed: nat, ran: seq<int>, succeeded: seq<int>, dropped: seq<int>, buried: seq<Burial>)

  function Start(t: Tables): Pass {
    Pass(t, 0, [], [], [], [])
  }

  /** One turn of the loop in `work`, on a row of the snapshot. */
  function Turn(p: Pass, j: Job, now: int, cfg: Config, outcome: int -> Outcome): Pass {
    var t := Rewritten(p.tables, Claimed(j, now));
    if !Due(j, now, cfg) || !Claimable(p.tables, j) then p
    else if j.job !in cfg.handlers then
      p.(tables := Deleted(t, j.id), processed := p.processed + 1, dropped := p.dropped + [j.id])
    else
      match outcome(j.id)
      case Succeeds =>
        p.(tables := Deleted(t, j.id), processed := p.processed + 1, ran := p.ran + [j.id], succeeded := p.succeeded + [j.id])
      case Throws(error) =>
        if Exhausted(j, cfg) then
          p.(tables := Deleted(Buried(t, j, error), j.id), processed := p.processed + 1, ran := p.ran + [j.id],
             buried := p.buried + [Burial(j.id, Failure(j.job, j.payload, error))])
        else
          p.(tables := Rewritten(t, Requeued(j, now, cfg)), processed := p.processed + 1, ran := p.ran + [j.id])
  }

  function Turns(t: Tables, rows: seq<Job>, now: int, cfg: Config, outcome: int -> Outcome): Pass {
    if rows == [] then Start(t)
    else Turn(Turns(t, rows[..|rows| - 1], now, cfg, outcome), rows[|rows| - 1], now, cfg, outcome)
  }

  /** A whole pass over a snapshot of the table. */
  function Worked(t: Tables, now: int, cfg: Config, outcome: int -> Outcome): Pass {
    Turns(t, t.jobs, now, cfg, outcome)
  }

  // ---- typed rows in the store ----

  function JobRow(j: Job): Row {
    map["id" := Int(j.id), "job" := Str(j.job), "payload" := Str(j.payload), "attempts" := Int(j.attempts),
        "available_at" := Int(j.availableAt), "reserved_at" := Int(j.reservedAt)]
  }

  function FailureRow(f: Failure, id: int): Row {
    map["id" := Int(id), "job" := Str(f.job), "payload" := Str(f.payload), "error" := Str(f.error)]
  }

  function JobRows(jobs: seq<Job>): (r: seq<Row>)
    ensures |r| == |jobs|
    ensures forall k :: 0 <= k < |jobs| ==> r[k] == JobRow(jobs[k])
  {
    seq(|jobs|, k requires 0 <= k < |jobs| => JobRow(jobs[k]))
  }

  /** The two tables of the store hold exactly these typed rows. */
  ghost predicate Holds(st: Store, t: Tables) {
    && RowsIn(st, "jobs") == JobRows(t.jobs) && LastId(st, "jobs") == t.lastId
    && |RowsIn(st, "failed_jobs")| == |t.failed| == LastId(st, "failed_jobs")
    && forall k :: 0 <= k < |t.failed| ==> RowsIn(st, "failed_jobs")[k] == FailureRow(t.failed[k], k + 1)
  }

  lemma {:induction false} SameIndex(jobs: seq<Job>, id: int)
    ensures IndexOf(JobRows(jobs), id) == JobIndex(jobs, id)
  {
    if jobs != [] {
      assert JobRows(jobs)[1..] == JobRows(jobs[1..]);
      SameIndex(jobs[1..], id);
    }
  }

  lemma DropNothing(id: int)
    ensures Without(JobRows([]), id) == JobRows(DropId([], id))
  {}

  lemma DropStep(jobs: seq<Job>, id: int)
    requires jobs != []
    ensures DropId(jobs, id) == if jobs[0].id == id then DropId(jobs[1..], id) else [jobs[0]] + DropId(jobs[1..], id)
  {
    assert [] + DropId(jobs[1..], id) == DropId(jobs[1..], id);
  }

  lemma RowHasId(j: Job, id: int)
    ensures HasId(JobRow(j), id) <==> j.id == id
  {}

  lemma {:induction false} SameDrop(jobs: seq<Job>, id: int)
    ensures Without(JobRows(jobs), id) == JobRows(DropId(jobs, id))
  {
    hide Without, DropId, JobRow, HasId;
    if jobs == [] {
      DropNothing(id);
    } else {
      var r, tail := JobRow(jobs[0]), jobs[1..];
      assert JobRows(jobs) == [r] + JobRows(tail);
      WithoutCons(r, JobRows(tail), id);
      DropStep(jobs, id);
      RowHasId(jobs[0], id);
      SameDrop(tail, id);
      assert JobRows([jobs[0]] + DropId(tail, id)) == [r] + JobRows(DropId(tail, id));
    }
  }

  lemma HoldsInsert(st: Store, t: Tables, job: string, payload: string, availableAt: int, row: Row)
    requires Holds(st, t) && WithId(row, t.lastId + 1) == JobRow(Job(t.lastId + 1, job, payload, 0, availableAt, 0))
    ensures Holds(Inserted(st, "jobs", row), Pushed(t, job, payload, availableAt))
  {}

  lemma HoldsBury(st: Store, t: Tables, j: Job, error: string, row: Row)
    requires Holds(st, t) && WithId(row, |t.failed| + 1) == FailureRow(Failure(j.job, j.payload, error), |t.failed| + 1)
    ensures Holds(Inserted(st, "failed_jobs", row), Buried(t, j, error))
  {}

  lemma HoldsUpdate(st: Store, t: Tables, j: Job)
    requires Holds(st, t)
    ensures Holds(Updated(st, "jobs", j.id, JobRow(j)).0, Rewritten(t, j))
  {
    SameIndex(t.jobs, j.id);
    assert WithId(JobRow(j), j.id) == JobRow(j);
  }

  lemma HoldsRemove(st: Store, t: Tables, id: int)
    requires Holds(st, t)
    ensures Holds(Removed(st, "jobs", id).0, Deleted(t, id))
  {
    SameDrop(t.jobs, id);
  }

  lemma HoldsClaim(st: Store, t: Tables, j: Job, now: int)
    requires Holds(st, t)
    ensures var r := UpdatedIf(st, "jobs", j.id, "reserved_at", Int(j.reservedAt), JobRow(Claimed(j, now)));
      r.1 == Claimable(t, j) && Holds(r.0, if r.1 then Rewritten(t, Claimed(j, now)) else t)
  {
    SameIndex(t.jobs, j.id);
    assert WithId(JobRow(Claimed(j, now)), j.id) == JobRow(Claimed(j, now));
  }

  lemma HoldsJobs(st: Store, t: Tables)
    requires Holds(st, t)
    ensures RowsIn(st, "jobs") == JobRows(t.jobs)
  {}

  lemma TurnsNext(t: Tables, rows: seq<Job>, k: nat, now: int, cfg: Config, outcome: int -> Outcome)
    requires k < |rows|
    ensures Turns(t, rows[..k + 1], now, cfg, outcome) == Turn(Turns(t, rows[..k], now, cfg, outcome), rows[k], now, cfg, outcome)
  {
    hide Turn;
    assert rows[..k + 1][..k] == rows[..k];
  }

  lemma StartIs(t: Tables)
    ensures Start(t).tables == t && Start(t).processed == 0
  {}

  lemma TurnsEnd(t: Tables, rows: seq<Job>, now: int, cfg: Config, outcome: int -> Outcome)
    ensures Turns(t, rows[..0], now, cfg, outcome) == Start(t)
    ensures rows == t.jobs ==> Turns(t, rows[..|rows|], now, cfg, outcome) == Worked(t, now, cfg, outcome)
  {
    hide Turn;
    assert rows[..|rows|] == rows && rows[..0] == [];
  }

  class DbQueue {
    const conn: MemoryConnection
    const cfg: Config

    constructor (conn: MemoryConnection, cfg: Config)
      ensures this.conn == conn && this.cfg == cfg
    {
      this.conn, this.cfg := conn, cfg;
    }

    /** `push`: queue a job, delayed from `clock` when `delay` is positive. */
    method Push(job: string, payload: string, delay: int, clock: int, ghost t: Tables)
      requires Holds(conn.Contents(), t)
      modifies conn
      ensures Holds(conn.Contents(), Pushed(t, job, payload, if delay > 0 then clock + delay else 0))
      ensures RowsIn(conn.Contents(), "jobs") == old(RowsIn(conn.Contents(), "jobs")) +
        [map["id" := Int(old(LastId(conn.Contents(), "jobs")) + 1), "job" := Str(job), "payload" := Str(payload), "attempts" := Int(0),
             "available_at" := Int(if delay > 0 then clock + delay else 0), "reserved_at" := Int(0)]]
    {
      var available := if delay > 0 then clock + delay else 0;
      var r: Row := map["job" := Str(job), "payload" := Str(payload), "attempts" := Int(0),
                        "available_at" := Int(available), "reserved_at" := Int(0)];
      assert WithId(r, t.lastId + 1) == JobRow(Job(t.lastId + 1, job, payload, 0, available, 0));
      HoldsInsert(conn.Contents(), t, job, payload, available, r);
      var _ := conn.Insert("jobs", r);
    }

    /** The body of the loop in `work`. */
    method WorkOne(row: Row, now: int, outcome: int -> Outcome, ghost j: Job, ghost p: Pass) returns (counted: bool)
      requires row == JobRow(j) && Holds(conn.Contents(), p.tables)
      modifies conn
      ensures var p' := Turn(p, j, now, cfg, outcome);
        Holds(conn.Contents(), p'.tables) && p'.processed == p.processed + (if counted then 1 else 0)
    {
      hide Holds, IndexOf, Without, DropId, JobIndex;
      var id := AsInt(row["id"]);
      var available := if "available_at" in row then AsInt(row["available_at"]) else 0;
      var reserved := if "reserved_at" in row then AsInt(row["reserved_at"]) else 0;
      if available > now { return false; }
      if reserved != 0 && now - reserved < cfg.retryAfter { return false; }
      var claim := row["reserved_at" := Int(now)];
      assert claim == JobRow(Claimed(j, now));
      HoldsClaim(conn.Contents(), p.tables, j, now);
      var won := conn.UpdateIf("jobs", id, "reserved_at", Int(reserved), claim);
      if !won { return false; }
      ghost var t := Rewritten(p.tables, Claimed(j, now));
      if row["job"].s !in cfg.handlers {
        HoldsRemove(conn.Contents(), t, id);
        var _ := conn.Remove("jobs", id);
        return true;
      }
      match outcome(id) {
        case Succeeds =>
          HoldsRemove(conn.Contents(), t, id);
          var _ := conn.Remove("jobs", id);
        case Throws(error) =>
          var attempts := AsInt(row["attempts"]) + 1;
          if attempts >= cfg.maxAttempts {
            Bury(row, error, j, t);
            HoldsRemove(conn.Contents(), Buried(t, j, error), id);
            var _ := conn.Remove("jobs", id);
          } else {
            var u := row["attempts" := Int(attempts)]["reserved_at" := Int(0)]
              ["available_at" := Int(if cfg.retryBackoff > 0 then now + cfg.retryBackoff * attempts else 0)];
            assert u == JobRow(Requeued(j, now, cfg));
            HoldsUpdate(conn.Contents(), t, Requeued(j, now, cfg));
            var _ := conn.Update("jobs", id, u);
          }
      }
      return true;
    }

    method Bury(row: Row, error: string, ghost j: Job, ghost t: Tables)
      requires row == JobRow(j) && Holds(conn.Contents(), t)
      modifies conn
      ensures Holds(conn.Contents(), Buried(t, j, error))
      ensures RowsIn(conn.Contents(), "failed_jobs") == old(RowsIn(conn.Contents(), "failed_jobs")) +
        [map["id" := Int(|t.failed| + 1), "job" := Str(j.job), "payload" := Str(j.payload), "error" := Str(error)]]
    {
      var f: Row := map["job" := row["job"], "payload" := row["payload"], "error" := Str(error)];
      assert WithId(f, |t.failed| + 1) == FailureRow(Failure(j.job, j.payload, error), |t.failed| + 1);
      HoldsBury(conn.Contents(), t, j, error, f);
      var _ := conn.Insert("failed_jobs", f);
    }

    /** `work`: one pass at `now` (0 reads the clock), with what each handler call does given by
        `outcome`; the store ends up holding what the pass computes. */
    method Work(now: int, clock: int, outcome: int -> Outcome, ghost t: Tables) returns (processed: nat)
      requires Holds(conn.Contents(), t)
      modifies conn
      ensures var p := Worked(t, if now == 0 then clock else now, cfg, outcome);
        Holds(conn.Contents(), p.tables) && processed == p.processed
    {
      hide *;
      var at := if now == 0 then clock else now;
      processed := 0;
      var rows := conn.All("jobs");
      HoldsJobs(conn.Contents(), t);
      ghost var p := Start(t);
      TurnsEnd(t, t.jobs, at, cfg, outcome);
      StartIs(t);
      for k := 0 to |rows|
        invariant rows == JobRows(t.jobs)
        invariant p == Turns(t, t.jobs[..k], at, cfg, outcome)
        invariant Holds(conn.Contents(), p.tables) && processed == p.processed
      {
        var counted := WorkOne(rows[k], at, outcome, t.jobs[k], p);
        if counted { processed := processed + 1; }
        TurnsNext(t, t.jobs, k, at, cfg, outcome);
        p := Turn(p, t.jobs[k], at, cfg, outcome);
      }
    }
  }
}
