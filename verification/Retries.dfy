/** The retry budget of include/db_queue.hpp: what successive, non-overlapping passes without
    crashes do to one job whose handler always throws. */
module Retries {
  import opened Wrappers
  import opened Jobs
  import opened DbQueues

  // ---- one pass, seen from one job ----

  /** The row a pass leaves in place of a row it reads at `now`. */
  function After(j: Job, now: int, cfg: Config, outcome: int -> Outcome): Option<Job> {
    if !Due(j, now, cfg) then Some(j)
    else if j.job !in cfg.handlers || outcome(j.id).Succeeds? || Exhausted(j, cfg) then None
    else Some(Requeued(j, now, cfg))
  }

  predicate Runs(j: Job, now: int, cfg: Config) {
    Due(j, now, cfg) && j.job in cfg.handlers
  }

  ghost predicate Distinct(jobs: seq<Job>) {
    forall i, k :: 0 <= i < k < |jobs| ==> jobs[i].id != jobs[k].id
  }

  function Count(ids: seq<int>, id: int): nat {
    multiset(ids)[id]
  }

  function BuriedIds(bs: seq<Burial>): (r: seq<int>)
    ensures |r| == |bs|
  {
    seq(|bs|, k requires 0 <= k < |bs| => bs[k].id)
  }

  function FailedRows(bs: seq<Burial>): (r: seq<Failure>)
    ensures |r| == |bs|
  {
    seq(|bs|, k requires 0 <= k < |bs| => bs[k].row)
  }

  lemma BurialsCat(a: seq<Burial>, b: seq<Burial>)
    ensures BuriedIds(a + b) == BuriedIds(a) + BuriedIds(b)
    ensures FailedRows(a + b) == FailedRows(a) + FailedRows(b)
  {}

  /** A turn changes only the row it is about. */
  lemma TurnOnRow(p: Pass, j: Job, now: int, cfg: Config, outcome: int -> Outcome, id: int)
    requires RowOf(p.tables.jobs, j.id) == Some(j)
    ensures RowOf(Turn(p, j, now, cfg, outcome).tables.jobs, id) ==
      if id == j.id then After(j, now, cfg, outcome) else RowOf(p.tables.jobs, id)
  {
    hide RowOf, DropId, JobIndex;
    var t := Rewritten(p.tables, Claimed(j, now));
    RowAfterRewrite(p.tables, Claimed(j, now), id);
    RowAfterRewrite(p.tables, Claimed(j, now), j.id);
    RowAfterDrop(t.jobs, j.id, id);
    RowAfterRewrite(t, Requeued(j, now, cfg), id);
  }

  lemma TurnLogs(p: Pass, j: Job, now: int, cfg: Config, outcome: int -> Outcome, id: int)
    requires RowOf(p.tables.jobs, j.id) == Some(j)
    ensures var p' := Turn(p, j, now, cfg, outcome);
      && Count(p'.ran, id) == Count(p.ran, id) + (if id == j.id && Runs(j, now, cfg) then 1 else 0)
      && Count(BuriedIds(p'.buried), id) == Count(BuriedIds(p.buried), id)
        + (if id == j.id && Runs(j, now, cfg) && outcome(id).Throws? && Exhausted(j, cfg) then 1 else 0)
      && p'.tables.lastId == p.tables.lastId
  {
    hide RowOf, DropId, JobIndex, Requeued, BuriedIds;
    var error := if outcome(j.id).Throws? then outcome(j.id).error else "";
    var b := Burial(j.id, Failure(j.job, j.payload, error));
    BurialsCat(p.buried, [b]);
    OneBurial(b);
  }

  lemma OneBurial(b: Burial)
    ensures BuriedIds([b]) == [b.id] && FailedRows([b]) == [b.row]
  {}

  /** The rows a turn adds to failed_jobs are those it logs, each under its own job's name and
      payload. */
  lemma TurnBuries(p: Pass, j: Job, now: int, cfg: Config, outcome: int -> Outcome)
    ensures var p' := Turn(p, j, now, cfg, outcome); var added := p'.buried[|p.buried|..];
      && p.buried <= p'.buried
      && p'.tables.failed == p.tables.failed + FailedRows(added)
      && forall b <- added :: b.id == j.id && (b.row.job, b.row.payload) == (j.job, j.payload)
  {
    hide DropId, JobIndex, Requeued, Claimable, Due;
    var p' := Turn(p, j, now, cfg, outcome);
    assert p.tables.failed + [] == p.tables.failed;
    if p'.buried == p.buried {
      assert p'.buried[|p.buried|..] == [];
    } else {
      var b := p'.buried[|p.buried|];
      assert p'.buried[|p.buried|..] == [b];
      OneBurial(b);
    }
  }

  /** What a run of turns over distinct rows has done to each id. */
  ghost predicate TurnsDid(t: Tables, rows: seq<Job>, now: int, cfg: Config, outcome: int -> Outcome, id: int) {
    var p := Turns(t, rows, now, cfg, outcome);
    var r := RowOf(rows, id);
    && RowOf(p.tables.jobs, id) == (if r.Some? then After(r.value, now, cfg, outcome) else RowOf(t.jobs, id))
    && Count(p.ran, id) == (if r.Some? && Runs(r.value, now, cfg) then 1 else 0)
    && Count(BuriedIds(p.buried), id) ==
      (if r.Some? && Runs(r.value, now, cfg) && outcome(id).Throws? && Exhausted(r.value, cfg) then 1 else 0)
    && p.tables.lastId == t.lastId
  }

  lemma {:induction false} TurnsOnRow(t: Tables, rows: seq<Job>, now: int, cfg: Config, outcome: int -> Outcome, id: int)
    requires Distinct(rows) && forall j <- rows :: RowOf(t.jobs, j.id) == Some(j)
    ensures TurnsDid(t, rows, now, cfg, outcome, id)
    decreases |rows|
  {
    hide RowOf, After, Due, Turn, BuriedIds;
    if rows == [] {
      assert BuriedIds([]) == [];
      NoRow(id);
    } else {
      var init, j := rows[..|rows| - 1], rows[|rows| - 1];
      assert rows == init + [j];
      TurnsOnRow(t, init, now, cfg, outcome, id);
      TurnsOnRow(t, init, now, cfg, outcome, j.id);
      NotAmong(init, j.id);
      RowAfterAppend(init, j, id);
      var p := Turns(t, init, now, cfg, outcome);
      TurnOnRow(p, j, now, cfg, outcome, id);
      TurnLogs(p, j, now, cfg, outcome, id);
      if j.id == id { NotAmong(init, id); }
    }
  }

  lemma NotAmong(rows: seq<Job>, id: int)
    requires forall j <- rows :: j.id != id
    ensures RowOf(rows, id) == None
  {}

  lemma {:induction false} DistinctRows(jobs: seq<Job>, j: Job)
    requires Distinct(jobs) && j in jobs
    ensures RowOf(jobs, j.id) == Some(j)
  {
    var k :| 0 <= k < |jobs| && jobs[k] == j;
    var x := JobIndex(jobs, j.id);
    assert x <= k && x == k;
  }

  /** A whole pass does to every job what it would do to that job alone. */
  lemma PassOnRow(t: Tables, now: int, cfg: Config, outcome: int -> Outcome, id: int)
    requires Distinct(t.jobs)
    ensures TurnsDid(t, t.jobs, now, cfg, outcome, id)
  {
    forall j | j in t.jobs ensures RowOf(t.jobs, j.id) == Some(j) { DistinctRows(t.jobs, j); }
    TurnsOnRow(t, t.jobs, now, cfg, outcome, id);
  }

  // ---- the shape every pass keeps ----

  ghost predicate Tidy(t: Tables) {
    && Distinct(t.jobs) && t.lastId >= 0
    && forall j <- t.jobs :: 1 <= j.id <= t.lastId
  }

  lemma {:induction false} DropKeepsDistinct(jobs: seq<Job>, id: int)
    requires Distinct(jobs)
    ensures Distinct(DropId(jobs, id))
  {
    if jobs != [] { DropKeepsDistinct(jobs[1..], id); }
  }

  lemma RewriteKeepsTidy(t: Tables, j: Job)
    requires Tidy(t)
    ensures Tidy(Rewritten(t, j))
  {
    var r := Rewritten(t, j);
    assert forall i :: 0 <= i < |t.jobs| ==> r.jobs[i].id == t.jobs[i].id;
    forall x | x in r.jobs ensures 1 <= x.id <= t.lastId {
      var k :| 0 <= k < |r.jobs| && r.jobs[k] == x;
      assert t.jobs[k] in t.jobs;
    }
  }

  lemma DropKeepsTidy(t: Tables, id: int)
    requires Tidy(t)
    ensures Tidy(Deleted(t, id))
  {
    DropKeepsDistinct(t.jobs, id);
  }

  lemma {:induction false} TurnsTidy(t: Tables, rows: seq<Job>, now: int, cfg: Config, outcome: int -> Outcome)
    requires Tidy(t)
    ensures Tidy(Turns(t, rows, now, cfg, outcome).tables)
    decreases |rows|
  {
    hide Tidy, DropId, Rewritten;
    if rows != [] {
      var init, j := rows[..|rows| - 1], rows[|rows| - 1];
      TurnsTidy(t, init, now, cfg, outcome);
      var p := Turns(t, init, now, cfg, outcome);
      var t' := Rewritten(p.tables, Claimed(j, now));
      RewriteKeepsTidy(p.tables, Claimed(j, now));
      DropKeepsTidy(t', j.id);
      RewriteKeepsTidy(t', Requeued(j, now, cfg));
      if outcome(j.id).Throws? {
        BuryKeepsTidy(t', j, outcome(j.id).error);
        DropKeepsTidy(Buried(t', j, outcome(j.id).error), j.id);
      }
    }
  }

  lemma BuryKeepsTidy(t: Tables, j: Job, error: string)
    requires Tidy(t)
    ensures Tidy(Buried(t, j, error))
  {}

  // ---- a job over many passes ----

  /** What happens between and including passes. */
  datatype Event =
    | Pushing(job: string, payload: string, availableAt: int)
    | Working(now: int, outcome: int -> Outcome)

  function Happened(t: Tables, e: Event, cfg: Config): Tables {
    match e
    case Pushing(job, payload, availableAt) => Pushed(t, job, payload, availableAt)
    case Working(now, outcome) => Worked(t, now, cfg, outcome).tables
  }

  function AfterAll(t: Tables, es: seq<Event>, cfg: Config): Tables {
    if es == [] then t else Happened(AfterAll(t, es[..|es| - 1], cfg), es[|es| - 1], cfg)
  }

  /** The times at which the handler of job `id` ran, in order. */
  function RunTimes(t: Tables, es: seq<Event>, cfg: Config, id: int): seq<int> {
    if es == [] then []
    else
      var before := AfterAll(t, es[..|es| - 1], cfg);
      var e := es[|es| - 1];
      RunTimes(t, es[..|es| - 1], cfg, id)
        + if e.Working? then seq(Count(Worked(before, e.now, cfg, e.outcome).ran, id), _ => e.now) else []
  }

  /** The failed_jobs rows inserted, in order, each with the job it was inserted for. */
  function BurialLog(t: Tables, es: seq<Event>, cfg: Config): seq<Burial> {
    if es == [] then []
    else
      var before := AfterAll(t, es[..|es| - 1], cfg);
      var e := es[|es| - 1];
      BurialLog(t, es[..|es| - 1], cfg) + if e.Working? then Worked(before, e.now, cfg, e.outcome).buried else []
  }

  /** How many failed_jobs rows were inserted for job `id`. */
  function Burials(t: Tables, es: seq<Event>, cfg: Config, id: int): nat {
    Count(BuriedIds(BurialLog(t, es, cfg)), id)
  }

  lemma BurialsStep(t: Tables, es: seq<Event>, cfg: Config, id: int)
    requires es != []
    ensures var init, e := es[..|es| - 1], es[|es| - 1];
      Burials(t, es, cfg, id) == Burials(t, init, cfg, id) + if e.Working?
        then Count(BuriedIds(Worked(AfterAll(t, init, cfg), e.now, cfg, e.outcome).buried), id) else 0
  {
    hide AfterAll, Worked, BuriedIds;
    var init, e := es[..|es| - 1], es[|es| - 1];
    var log := BurialLog(t, init, cfg);
    if e.Working? {
      BurialsCat(log, Worked(AfterAll(t, init, cfg), e.now, cfg, e.outcome).buried);
    } else {
      assert log + [] == log;
    }
  }

  ghost predicate AlwaysThrows(es: seq<Event>, id: int) {
    forall e <- es :: e.Working? ==> e.outcome(id).Throws?
  }

  function Budget(cfg: Config): int {
    if cfg.maxAttempts > 1 then cfg.maxAttempts else 1
  }

  /** The state of a failing job after `times` runs. */
  ghost predicate OnBudget(t: Tables, cfg: Config, id: int, first: Job, times: seq<int>, burials: nat) {
    var n := |times|;
    var row := RowOf(t.jobs, id);
    && n <= Budget(cfg)
    && (row.None? <==> n == Budget(cfg))
    && burials == (if n == Budget(cfg) then 1 else 0)
    && (row.Some? ==>
        && row.value == first.(attempts := n, availableAt := row.value.availableAt)
        && row.value.availableAt ==
          (if n == 0 then first.availableAt
           else if cfg.retryBackoff > 0 then times[n - 1] + cfg.retryBackoff * n else 0))
    && forall k :: 0 < k < n && cfg.retryBackoff > 0 ==> times[k] - times[k - 1] >= cfg.retryBackoff * k
  }

  /** A job just pushed: on its way, unclaimed, with no attempts. */
  ghost predicate FreshJob(t: Tables, cfg: Config, id: int) {
    && Tidy(t) && RowOf(t.jobs, id).Some? && id <= t.lastId
    && var j := RowOf(t.jobs, id).value; j.attempts == 0 && j.reservedAt == 0 && j.job in cfg.handlers
  }

  lemma PushKeepsRow(t: Tables, job: string, payload: string, availableAt: int, id: int)
    requires Tidy(t) && id <= t.lastId
    ensures Tidy(Pushed(t, job, payload, availableAt)) && id <= Pushed(t, job, payload, availableAt).lastId
    ensures RowOf(Pushed(t, job, payload, availableAt).jobs, id) == RowOf(t.jobs, id)
  {
    var j := Job(t.lastId + 1, job, payload, 0, availableAt, 0);
    RowAfterAppend(t.jobs, j, id);
    forall i | 0 <= i < |t.jobs| ensures t.jobs[i].id != j.id {
      assert t.jobs[i] in t.jobs;
    }
  }

  lemma EventKeeps(t: Tables, e: Event, cfg: Config, id: int)
    requires Tidy(t) && id <= t.lastId
    ensures Tidy(Happened(t, e, cfg)) && id <= Happened(t, e, cfg).lastId
  {
    hide Tidy, Turns;
    if e.Pushing? {
      PushKeepsRow(t, e.job, e.payload, e.availableAt, id);
    } else {
      TurnsTidy(t, t.jobs, e.now, cfg, e.outcome);
      TidyDistinct(t);
      PassOnRow(t, e.now, cfg, e.outcome, id);
    }
  }

  lemma TidyDistinct(t: Tables)
    requires Tidy(t)
    ensures Distinct(t.jobs)
  {}

  /** One pass over a failing job that is on budget. */
  lemma FailingPass(t: Tables, now: int, outcome: int -> Outcome, cfg: Config, id: int, first: Job, times: seq<int>, burials: nat)
    requires Tidy(t) && OnBudget(t, cfg, id, first, times, burials)
    requires first.id == id && first.reservedAt == 0 && first.attempts == 0 && first.job in cfg.handlers
    requires outcome(id).Throws?
    ensures var p := Worked(t, now, cfg, outcome);
      OnBudget(p.tables, cfg, id, first, times + seq(Count(p.ran, id), _ => now), burials + Count(BuriedIds(p.buried), id))
  {
    hide Turns, BuriedIds;
    PassOnRow(t, now, cfg, outcome, id);
    var p := Worked(t, now, cfg, outcome);
    var row := RowOf(t.jobs, id);
    if row.Some? && Runs(row.value, now, cfg) {
      assert seq(Count(p.ran, id), _ => now) == [now];
      assert (times + [now])[|times|] == now;
    } else {
      assert times + seq(Count(p.ran, id), _ => now) == times;
    }
  }

  lemma {:induction false} StaysOnBudget(t: Tables, es: seq<Event>, cfg: Config, id: int)
    requires FreshJob(t, cfg, id) && AlwaysThrows(es, id)
    ensures var t' := AfterAll(t, es, cfg);
      && Tidy(t') && id <= t'.lastId
      && OnBudget(t', cfg, id, RowOf(t.jobs, id).value, RunTimes(t, es, cfg, id), Burials(t, es, cfg, id))
    decreases |es|
  {
    hide Tidy, OnBudget, Happened, RowOf, Burials;
    if es == [] {
      BudgetAtStart(t, cfg, id);
      NoBurials(t, cfg, id);
    } else {
      BurialsStep(t, es, cfg, id);
      var init, e := es[..|es| - 1], es[|es| - 1];
      assert e in es && forall x <- init :: x in es;
      StaysOnBudget(t, init, cfg, id);
      var before := AfterAll(t, init, cfg);
      var first := RowOf(t.jobs, id).value;
      EventKeeps(before, e, cfg, id);
      if e.Working? {
        FailingPass(before, e.now, e.outcome, cfg, id, first, RunTimes(t, init, cfg, id), Burials(t, init, cfg, id));
        HappenedIs(before, e, cfg);
      } else {
        PushKeepsRow(before, e.job, e.payload, e.availableAt, id);
        HappenedIs(before, e, cfg);
        assert RunTimes(t, init, cfg, id) + [] == RunTimes(t, init, cfg, id);
        SameRowSameBudget(before, Happened(before, e, cfg), cfg, id, first, RunTimes(t, init, cfg, id), Burials(t, init, cfg, id));
      }
    }
  }

  lemma HappenedIs(t: Tables, e: Event, cfg: Config)
    ensures Happened(t, e, cfg) ==
      if e.Pushing? then Pushed(t, e.job, e.payload, e.availableAt) else Worked(t, e.now, cfg, e.outcome).tables
  {}

  lemma SameRowSameBudget(t: Tables, t': Tables, cfg: Config, id: int, first: Job, times: seq<int>, burials: nat)
    requires OnBudget(t, cfg, id, first, times, burials) && RowOf(t'.jobs, id) == RowOf(t.jobs, id)
    ensures OnBudget(t', cfg, id, first, times, burials)
  {}

  lemma NoBurials(t: Tables, cfg: Config, id: int)
    ensures Burials(t, [], cfg, id) == 0
  {
    assert BuriedIds([]) == [];
  }

  lemma BudgetAtStart(t: Tables, cfg: Config, id: int)
    requires FreshJob(t, cfg, id)
    ensures OnBudget(t, cfg, id, RowOf(t.jobs, id).value, [], 0) && Tidy(t) && id <= t.lastId
  {}

  // ---- the rows of failed_jobs ----

  lemma {:induction false} TurnsFailed(t: Tables, rows: seq<Job>, now: int, cfg: Config, outcome: int -> Outcome)
    ensures var p := Turns(t, rows, now, cfg, outcome);
      p.tables.failed == t.failed + FailedRows(p.buried)
    decreases |rows|
  {
    hide Turn, FailedRows;
    if rows == [] {
      NoFailures();
      assert t.failed + [] == t.failed;
    } else {
      var init, j := rows[..|rows| - 1], rows[|rows| - 1];
      TurnsFailed(t, init, now, cfg, outcome);
      var p := Turns(t, init, now, cfg, outcome);
      var p' := Turn(p, j, now, cfg, outcome);
      TurnBuries(p, j, now, cfg, outcome);
      var added := p'.buried[|p.buried|..];
      assert p'.buried == p.buried + added;
      BurialsCat(p.buried, added);
      assert t.failed + (FailedRows(p.buried) + FailedRows(added)) == (t.failed + FailedRows(p.buried)) + FailedRows(added);
    }
  }

  lemma NoFailures()
    ensures FailedRows([]) == []
  {}

  /** The table grows by exactly the logged rows, in order. */
  lemma {:induction false} FailedIsLog(t: Tables, es: seq<Event>, cfg: Config)
    ensures AfterAll(t, es, cfg).failed == t.failed + FailedRows(BurialLog(t, es, cfg))
    decreases |es|
  {
    hide FailedRows, Turns;
    if es == [] {
      NoFailures();
      assert t.failed + [] == t.failed;
    } else {
      var init, e := es[..|es| - 1], es[|es| - 1];
      FailedIsLog(t, init, cfg);
      var before, log := AfterAll(t, init, cfg), BurialLog(t, init, cfg);
      if e.Working? {
        TurnsFailed(before, before.jobs, e.now, cfg, e.outcome);
        var added := Worked(before, e.now, cfg, e.outcome).buried;
        BurialsCat(log, added);
        assert t.failed + (FailedRows(log) + FailedRows(added)) == (t.failed + FailedRows(log)) + FailedRows(added);
      } else {
        assert log + [] == log;
      }
    }
  }

  /** Whether a burial carries its own job's name and payload, as far as job `id` is concerned: rows
      of job `id` do, and rows of other jobs do not. */
  ghost predicate OwnRows(bs: seq<Burial>, id: int, job: string, payload: string, alone: bool) {
    forall b <- bs ::
      && (b.id == id ==> (b.row.job, b.row.payload) == (job, payload))
      && (alone && b.id != id ==> (b.row.job, b.row.payload) != (job, payload))
  }

  /** Job `id`'s row has this name and payload, and when it is alone, no other row has both. */
  ghost predicate OwnJobs(jobs: seq<Job>, id: int, job: string, payload: string, alone: bool) {
    forall j <- jobs ::
      && (j.id == id ==> (j.job, j.payload) == (job, payload))
      && (alone && j.id != id ==> (j.job, j.payload) != (job, payload))
  }

  lemma TurnKeepsOwn(p: Pass, j: Job, now: int, cfg: Config, outcome: int -> Outcome,
                     id: int, job: string, payload: string, alone: bool)
    requires OwnJobs(p.tables.jobs, id, job, payload, alone) && OwnJobs([j], id, job, payload, alone)
    requires OwnRows(p.buried, id, job, payload, alone)
    ensures var p' := Turn(p, j, now, cfg, outcome);
      OwnJobs(p'.tables.jobs, id, job, payload, alone) && OwnRows(p'.buried, id, job, payload, alone)
  {
    hide DropId, JobIndex, RowOf, Rewritten, Due, Claimable;
    assert j in [j];
    RewrittenRows(p.tables, Claimed(j, now));
    RewrittenRows(Rewritten(p.tables, Claimed(j, now)), Requeued(j, now, cfg));
    TurnBuries(p, j, now, cfg, outcome);
    var p' := Turn(p, j, now, cfg, outcome);
    forall b | b in p'.buried ensures b in p.buried || b in p'.buried[|p.buried|..] {
      var k :| 0 <= k < |p'.buried| && p'.buried[k] == b;
      if k < |p.buried| { assert p.buried[k] == b; } else { assert p'.buried[|p.buried|..][k - |p.buried|] == b; }
    }
  }

  lemma {:induction false} TurnsKeepOwn(t: Tables, rows: seq<Job>, now: int, cfg: Config, outcome: int -> Outcome,
                                        id: int, job: string, payload: string, alone: bool)
    requires OwnJobs(t.jobs, id, job, payload, alone) && OwnJobs(rows, id, job, payload, alone)
    ensures var p := Turns(t, rows, now, cfg, outcome);
      OwnJobs(p.tables.jobs, id, job, payload, alone) && OwnRows(p.buried, id, job, payload, alone)
    decreases |rows|
  {
    hide Turn;
    if rows != [] {
      var init, j := rows[..|rows| - 1], rows[|rows| - 1];
      assert j in rows;
      TurnsKeepOwn(t, init, now, cfg, outcome, id, job, payload, alone);
      TurnKeepsOwn(Turns(t, init, now, cfg, outcome), j, now, cfg, outcome, id, job, payload, alone);
    }
  }

  /** No job pushed meanwhile has this name and payload. */
  ghost predicate NotPushed(es: seq<Event>, job: string, payload: string) {
    forall e <- es :: e.Pushing? ==> (e.job, e.payload) != (job, payload)
  }

  lemma {:induction false} LogIsOwn(t: Tables, es: seq<Event>, cfg: Config, id: int, job: string, payload: string, alone: bool)
    requires Tidy(t) && id <= t.lastId && OwnJobs(t.jobs, id, job, payload, alone)
    requires alone ==> NotPushed(es, job, payload)
    ensures var t' := AfterAll(t, es, cfg);
      && Tidy(t') && id <= t'.lastId && OwnJobs(t'.jobs, id, job, payload, alone)
      && OwnRows(BurialLog(t, es, cfg), id, job, payload, alone)
    decreases |es|
  {
    hide Tidy, Turns, OwnJobs, OwnRows, Happened;
    if es == [] {
      NoRowsOwn(id, job, payload, alone);
    } else {
      var init, e := es[..|es| - 1], es[|es| - 1];
      assert e in es && forall x <- init :: x in es;
      LogIsOwn(t, init, cfg, id, job, payload, alone);
      var before, log := AfterAll(t, init, cfg), BurialLog(t, init, cfg);
      EventKeeps(before, e, cfg, id);
      HappenedIs(before, e, cfg);
      if e.Working? {
        TurnsKeepOwn(before, before.jobs, e.now, cfg, e.outcome, id, job, payload, alone);
        OwnRowsCat(log, Worked(before, e.now, cfg, e.outcome).buried, id, job, payload, alone);
      } else {
        assert log + [] == log;
        PushKeepsOwn(before, e.job, e.payload, e.availableAt, id, job, payload, alone);
      }
    }
  }

  lemma NoRowsOwn(id: int, job: string, payload: string, alone: bool)
    ensures OwnRows([], id, job, payload, alone)
  {}

  lemma OwnRowsCat(a: seq<Burial>, b: seq<Burial>, id: int, job: string, payload: string, alone: bool)
    requires OwnRows(a, id, job, payload, alone) && OwnRows(b, id, job, payload, alone)
    ensures OwnRows(a + b, id, job, payload, alone)
  {}

  lemma PushKeepsOwn(t: Tables, job': string, payload': string, availableAt: int, id: int, job: string, payload: string, alone: bool)
    requires OwnJobs(t.jobs, id, job, payload, alone) && id <= t.lastId && (alone ==> (job', payload') != (job, payload))
    ensures OwnJobs(Pushed(t, job', payload', availableAt).jobs, id, job, payload, alone)
  {}

  /** How many rows carry this name and payload. */
  function Carrying(rows: seq<Failure>, job: string, payload: string): nat {
    if rows == [] then 0
    else Carrying(rows[..|rows| - 1], job, payload)
         + if (rows[|rows| - 1].job, rows[|rows| - 1].payload) == (job, payload) then 1 else 0
  }

  lemma {:induction false} CarryingIsCount(bs: seq<Burial>, id: int, job: string, payload: string)
    requires OwnRows(bs, id, job, payload, true)
    ensures Carrying(FailedRows(bs), job, payload) == Count(BuriedIds(bs), id)
  {
    if bs != [] {
      var init, b := bs[..|bs| - 1], bs[|bs| - 1];
      assert b in bs && bs == init + [b];
      CarryingIsCount(init, id, job, payload);
      BurialsCat(init, [b]);
      OneBurial(b);
      assert FailedRows(bs)[..|bs| - 1] == FailedRows(init);
    } else {
      assert BuriedIds([]) == [];
    }
  }

  /** The retry budget, over any mix of passes and pushes: an always-failing job runs at most
      max(1, max_attempts) times; while its row is there the stored attempts are its runs so
      far; run k + 1 comes at least retry_backoff * k after run k; its row is gone exactly when
      the budget is spent. The rows added to failed_jobs are the logged ones; one of them was
      inserted for this job when its row is gone and none before, and it carries the job's name
      and payload. */
  lemma RetryBudget(t: Tables, es: seq<Event>, cfg: Config, id: int)
    requires FreshJob(t, cfg, id) && AlwaysThrows(es, id)
    ensures var times := RunTimes(t, es, cfg, id); var row := RowOf(AfterAll(t, es, cfg).jobs, id);
      && |times| <= Budget(cfg)
      && (row.None? <==> |times| == Budget(cfg))
      && (row.Some? ==> row.value.attempts == |times| && row.value.reservedAt == 0)
      && forall k :: 0 < k < |times| && cfg.retryBackoff > 0 ==> times[k] - times[k - 1] >= cfg.retryBackoff * k
    ensures var first, log := RowOf(t.jobs, id).value, BurialLog(t, es, cfg);
      && AfterAll(t, es, cfg).failed == t.failed + FailedRows(log)
      && Count(BuriedIds(log), id) == (if RowOf(AfterAll(t, es, cfg).jobs, id).None? then 1 else 0)
      && forall b <- log :: b.id == id ==> (b.row.job, b.row.payload) == (first.job, first.payload)
  {
    hide AfterAll, RunTimes, BurialLog, RowOf, BuriedIds, FailedRows;
    StaysOnBudget(t, es, cfg, id);
    FailedIsLog(t, es, cfg);
    var first := RowOf(t.jobs, id).value;
    FirstIsOwn(t, cfg, id);
    LogIsOwn(t, es, cfg, id, first.job, first.payload, false);
  }

  lemma FirstIsOwn(t: Tables, cfg: Config, id: int)
    requires FreshJob(t, cfg, id)
    ensures var first := RowOf(t.jobs, id).value; OwnJobs(t.jobs, id, first.job, first.payload, false)
  {
    forall j | j in t.jobs && j.id == id ensures j == RowOf(t.jobs, id).value { DistinctRows(t.jobs, j); }
  }

  /** Where no other job has its name and payload, failed_jobs gains exactly one row with them when
      the job's row is gone, and none before. */
  lemma OneFailedRow(t: Tables, es: seq<Event>, cfg: Config, id: int)
    requires FreshJob(t, cfg, id) && AlwaysThrows(es, id)
    requires var first := RowOf(t.jobs, id).value;
      && NotPushed(es, first.job, first.payload)
      && forall j <- t.jobs :: j.id != id ==> (j.job, j.payload) != (first.job, first.payload)
    ensures var first, t' := RowOf(t.jobs, id).value, AfterAll(t, es, cfg);
      && t.failed <= t'.failed
      && Carrying(t'.failed[|t.failed|..], first.job, first.payload) == if RowOf(t'.jobs, id).None? then 1 else 0
  {
    hide AfterAll, BurialLog, RowOf, BuriedIds, FailedRows, Carrying, NotPushed, AlwaysThrows, OwnRows;
    var first, t', log := RowOf(t.jobs, id).value, AfterAll(t, es, cfg), BurialLog(t, es, cfg);
    RetryBudget(t, es, cfg, id);
    assert t'.failed[|t.failed|..] == FailedRows(log);
    FirstIsOwn(t, cfg, id);
    LogIsOwn(t, es, cfg, id, first.job, first.payload, true);
    CarryingIsCount(log, id, first.job, first.payload);
  }

  /** Progress: a pass at or after the time a failing job waits for runs it once more. */
  lemma DueJobRuns(t: Tables, es: seq<Event>, cfg: Config, id: int, now: int, outcome: int -> Outcome)
    requires FreshJob(t, cfg, id) && AlwaysThrows(es, id) && outcome(id).Throws?
    requires var row := RowOf(AfterAll(t, es, cfg).jobs, id); row.Some? && row.value.availableAt <= now
    ensures RunTimes(t, es + [Working(now, outcome)], cfg, id) == RunTimes(t, es, cfg, id) + [now]
  {
    hide AfterAll, RowOf, Turns;
    var all := es + [Working(now, outcome)];
    assert all[..|all| - 1] == es;
    StaysOnBudget(t, es, cfg, id);
    var before := AfterAll(t, es, cfg);
    TidyDistinct(before);
    PassOnRow(before, now, cfg, outcome, id);
    assert seq(1, _ => now) == [now];
  }

  // ---- a job drains ----

  /** The times of the passes. */
  function PassTimes(es: seq<Event>): seq<int> {
    if es == [] then []
    else PassTimes(es[..|es| - 1]) + if es[|es| - 1].Working? then [es[|es| - 1].now] else []
  }

  /** When a job that failed at `times` may run again. */
  function Wait(first: Job, cfg: Config, times: seq<int>): int {
    var n := |times|;
    if n == 0 then first.availableAt else if cfg.retryBackoff > 0 then times[n - 1] + cfg.retryBackoff * n else 0
  }

  /** Each of the first passes comes no earlier than the wait after those before it. */
  ghost predicate Patient(nows: seq<int>, first: Job, cfg: Config) {
    forall k :: 0 <= k < |nows| && k < Budget(cfg) ==> nows[k] >= Wait(first, cfg, nows[..k])
  }

  function UpTo(nows: seq<int>, n: int): seq<int>
    requires n >= 0
  {
    if |nows| <= n then nows else nows[..n]
  }

  lemma FreshIs(t: Tables, cfg: Config, id: int)
    requires FreshJob(t, cfg, id)
    ensures RowOf(t.jobs, id).Some?
  {}

  lemma OnBudgetIs(t: Tables, cfg: Config, id: int, first: Job, times: seq<int>, burials: nat)
    requires OnBudget(t, cfg, id, first, times, burials)
    ensures |times| <= Budget(cfg) && (RowOf(t.jobs, id).None? <==> |times| == Budget(cfg))
    ensures RowOf(t.jobs, id).Some? ==> RowOf(t.jobs, id).value.availableAt == Wait(first, cfg, times)
  {}

  /** An always-failing job drains: with passes that each come at or after its waiting time, it runs
      at every one of the first max(1, max_attempts) of them; once there are that many its row is
      gone and its failure is in. */
  lemma {:induction false} FailingJobDrains(t: Tables, es: seq<Event>, cfg: Config, id: int)
    requires FreshJob(t, cfg, id) && AlwaysThrows(es, id) && Patient(PassTimes(es), RowOf(t.jobs, id).value, cfg)
    ensures RunTimes(t, es, cfg, id) == UpTo(PassTimes(es), Budget(cfg))
    ensures |PassTimes(es)| >= Budget(cfg) ==>
      RowOf(AfterAll(t, es, cfg).jobs, id).None? && Count(BuriedIds(BurialLog(t, es, cfg)), id) == 1
    decreases |es|
  {
    hide AfterAll, RowOf, FreshJob, OnBudget, BuriedIds, BurialLog, Wait;
    FreshIs(t, cfg, id);
    var first := RowOf(t.jobs, id).value;
    RetryBudget(t, es, cfg, id);
    if es != [] {
      var init, e := es[..|es| - 1], es[|es| - 1];
      assert es == init + [e] && e in es && forall x <- init :: x in es;
      var nows := PassTimes(init);
      assert PassTimes(es)[..|nows|] == nows;
      forall k | 0 <= k < |nows| && k < Budget(cfg) ensures nows[k] >= Wait(first, cfg, nows[..k]) {
        assert PassTimes(es)[..k] == nows[..k];
      }
      FailingJobDrains(t, init, cfg, id);
      if e.Working? {
        StaysOnBudget(t, init, cfg, id);
        OnBudgetIs(AfterAll(t, init, cfg), cfg, id, first, RunTimes(t, init, cfg, id), Burials(t, init, cfg, id));
        if |nows| < Budget(cfg) {
          assert PassTimes(es)[|nows|] == e.now;
          DueJobRuns(t, init, cfg, id, e.now, e.outcome);
        } else {
          RunsOnlyGrow(t, es, cfg, id);
        }
      } else {
        RunsOnlyGrow(t, es, cfg, id);
        assert PassTimes(es) == nows + [] == nows;
      }
    }
  }

  lemma RunsOnlyGrow(t: Tables, es: seq<Event>, cfg: Config, id: int)
    requires es != []
    ensures RunTimes(t, es[..|es| - 1], cfg, id) <= RunTimes(t, es, cfg, id)
    ensures es[|es| - 1].Pushing? ==> RunTimes(t, es, cfg, id) == RunTimes(t, es[..|es| - 1], cfg, id)
  {
    hide AfterAll, Worked;
    assert RunTimes(t, es[..|es| - 1], cfg, id) + [] == RunTimes(t, es[..|es| - 1], cfg, id);
  }
}
