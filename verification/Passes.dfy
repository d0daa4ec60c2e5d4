/** What one pass of include/db_queue.hpp does to a snapshot of jobs with distinct ids, row by row
    and in the columns' own terms. */
module Passes {
  import opened Wrappers
  import opened Jobs
  import opened DbQueues
  import opened Retries

  /** A row the pass takes up: it is available, and unclaimed or its claim is older than the lease. */
  predicate TakenUp(j: Job, now: int, cfg: Config) {
    j.availableAt <= now && (j.reservedAt == 0 || now >= j.reservedAt + cfg.retryAfter)
  }

  /** The rows taken up that also satisfy `pick`, in table order. */
  function Chosen(jobs: seq<Job>, now: int, cfg: Config, pick: Job -> bool): seq<int> {
    if jobs == [] then []
    else
      var j := jobs[|jobs| - 1];
      Chosen(jobs[..|jobs| - 1], now, cfg, pick) + if TakenUp(j, now, cfg) && pick(j) then [j.id] else []
  }

  /** How many rows are taken up. */
  function TakenUpCount(jobs: seq<Job>, now: int, cfg: Config): nat {
    |Chosen(jobs, now, cfg, _ => true)|
  }

  /** A pass so far: the handlers that ran, those that returned, the rows dropped for want of a
      handler, those buried with the error thrown, and the number answered. */
  ghost predicate LogsChosen(p: Pass, rows: seq<Job>, now: int, cfg: Config, outcome: int -> Outcome) {
    && p.ran == Chosen(rows, now, cfg, (j: Job) => j.job in cfg.handlers)
    && p.succeeded == Chosen(rows, now, cfg, (j: Job) => j.job in cfg.handlers && outcome(j.id) == Succeeds)
    && p.dropped == Chosen(rows, now, cfg, (j: Job) => j.job !in cfg.handlers)
    && BuriedIds(p.buried) == Chosen(rows, now, cfg, (j: Job) =>
      j.job in cfg.handlers && outcome(j.id).Throws? && j.attempts + 1 >= cfg.maxAttempts)
    && (forall b <- p.buried :: outcome(b.id) == Throws(b.row.error))
    && p.processed == |p.ran| + |p.dropped| == TakenUpCount(rows, now, cfg)
  }

  lemma ChosenNext(jobs: seq<Job>, j: Job, now: int, cfg: Config, pick: Job -> bool)
    ensures Chosen(jobs + [j], now, cfg, pick)
      == Chosen(jobs, now, cfg, pick) + if TakenUp(j, now, cfg) && pick(j) then [j.id] else []
  {
    assert (jobs + [j])[..|jobs|] == jobs;
  }

  lemma TurnLogsChosen(p: Pass, rows: seq<Job>, j: Job, now: int, cfg: Config, outcome: int -> Outcome)
    requires LogsChosen(p, rows, now, cfg, outcome) && RowOf(p.tables.jobs, j.id) == Some(j)
    ensures LogsChosen(Turn(p, j, now, cfg, outcome), rows + [j], now, cfg, outcome)
  {
    hide RowOf, Rewritten, Deleted, Buried, Requeued, Claimed, Chosen, BuriedIds;
    ChosenNext(rows, j, now, cfg, (j: Job) =>
      j.job in cfg.handlers && outcome(j.id).Throws? && j.attempts + 1 >= cfg.maxAttempts);
    var error := if outcome(j.id).Throws? then outcome(j.id).error else "";
    var b := Burial(j.id, Failure(j.job, j.payload, error));
    BurialsCat(p.buried, [b]);
    OneBurial(b);
    assert BuriedIds(p.buried) + [] == BuriedIds(p.buried);
    ChosenNext(rows, j, now, cfg, (j: Job) => j.job in cfg.handlers);
    ChosenNext(rows, j, now, cfg, (j: Job) => j.job in cfg.handlers && outcome(j.id) == Succeeds);
    ChosenNext(rows, j, now, cfg, (j: Job) => j.job !in cfg.handlers);
    ChosenNext(rows, j, now, cfg, _ => true);
    assert p.ran + [] == p.ran && p.succeeded + [] == p.succeeded && p.dropped + [] == p.dropped;
  }

  lemma {:induction false} TurnsLogChosen(t: Tables, rows: seq<Job>, now: int, cfg: Config, outcome: int -> Outcome)
    requires Distinct(rows) && forall j <- rows :: RowOf(t.jobs, j.id) == Some(j)
    ensures LogsChosen(Turns(t, rows, now, cfg, outcome), rows, now, cfg, outcome)
    decreases |rows|
  {
    hide RowOf, Turn, LogsChosen, After;
    if rows == [] {
      NothingChosen(t, now, cfg, outcome);
    } else {
      var init, j := rows[..|rows| - 1], rows[|rows| - 1];
      assert rows == init + [j];
      TurnsLogChosen(t, init, now, cfg, outcome);
      TurnsOnRow(t, init, now, cfg, outcome, j.id);
      NotAmong(init, j.id);
      TurnLogsChosen(Turns(t, init, now, cfg, outcome), init, j, now, cfg, outcome);
    }
  }

  lemma NothingChosen(t: Tables, now: int, cfg: Config, outcome: int -> Outcome)
    ensures LogsChosen(Start(t), [], now, cfg, outcome)
  {}

  /** What `work` answers: every row that is due is processed exactly once, in table order, its
      handler run or, without one, the row dropped; the number answered is the number of due rows. */
  lemma PassAnswers(t: Tables, now: int, cfg: Config, outcome: int -> Outcome)
    requires Distinct(t.jobs)
    ensures LogsChosen(Worked(t, now, cfg, outcome), t.jobs, now, cfg, outcome)
  {
    forall j | j in t.jobs ensures RowOf(t.jobs, j.id) == Some(j) { DistinctRows(t.jobs, j); }
    TurnsLogChosen(t, t.jobs, now, cfg, outcome);
  }

  /** On any tables at all, the number answered is that of the handlers run and the rows dropped. */
  lemma {:induction false} PassCounts(t: Tables, rows: seq<Job>, now: int, cfg: Config, outcome: int -> Outcome)
    ensures var p := Turns(t, rows, now, cfg, outcome); p.processed == |p.ran| + |p.dropped|
    decreases |rows|
  {
    hide Rewritten, Deleted, Buried, Requeued, Claimed, Claimable, Due;
    if rows != [] { PassCounts(t, rows[..|rows| - 1], now, cfg, outcome); }
  }

  /** What a pass leaves of each row: one not taken up stays as it is; one whose handler returned,
      that has none, or whose attempts are spent is gone; any other waits, unclaimed, with one more
      attempt and the backoff times its attempts, or for no time without a backoff. */
  lemma PassLeaves(t: Tables, j: Job, now: int, cfg: Config, outcome: int -> Outcome)
    requires Distinct(t.jobs) && j in t.jobs
    ensures RowOf(Worked(t, now, cfg, outcome).tables.jobs, j.id) ==
      if !TakenUp(j, now, cfg) then Some(j)
      else if j.job !in cfg.handlers || outcome(j.id) == Succeeds || j.attempts + 1 >= cfg.maxAttempts then None
      else
        var wait := cfg.retryBackoff * (j.attempts + 1);
        Some(Job(j.id, j.job, j.payload, j.attempts + 1, if cfg.retryBackoff > 0 then now + wait else 0, 0))
  {
    hide RowOf, Turns;
    DistinctRows(t.jobs, j);
    PassOnRow(t, now, cfg, outcome, j.id);
  }

  /** A pushed job waits under the next id, unclaimed and without attempts, beside the others. */
  lemma PushLeaves(t: Tables, job: string, payload: string, availableAt: int, id: int)
    requires Tidy(t)
    ensures RowOf(Pushed(t, job, payload, availableAt).jobs, id) ==
      if id == t.lastId + 1 then Some(Job(id, job, payload, 0, availableAt, 0)) else RowOf(t.jobs, id)
    ensures Pushed(t, job, payload, availableAt).failed == t.failed && Tidy(Pushed(t, job, payload, availableAt))
  {
    hide RowOf;
    RowAfterAppend(t.jobs, Job(t.lastId + 1, job, payload, 0, availableAt, 0), id);
    NotAmong(t.jobs, t.lastId + 1);
    PushKeepsRow(t, job, payload, availableAt, t.lastId);
  }
}
