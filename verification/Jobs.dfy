/** The tables of the database queue (include/db_queue.hpp) as typed rows, and the single writes
    a worker makes to them. */
module Jobs {
  import opened Wrappers

  /** A row of `jobs`. A `reservedAt` of 0 means unclaimed. */
  datatype Job = Job(id: int, job: string, payload: string, attempts: int, availableAt: int, reservedAt: int)

  /** A row of `failed_jobs`. */
  datatype Failure = Failure(job: string, payload: string, error: string)

  datatype Config = Config(maxAttempts: int, retryBackoff: int, retryAfter: int, handlers: set<string>)

  datatype Tables = Tables(jobs: seq<Job>, lastId: int, failed: seq<Failure>)

  function JobIndex(jobs: seq<Job>, id: int): (k: nat)
    ensures k <= |jobs|
    ensures k < |jobs| ==> jobs[k].id == id
    ensures forall j :: 0 <= j < k ==> jobs[j].id != id
  {
    if jobs == [] || jobs[0].id == id then 0 else 1 + JobIndex(jobs[1..], id)
  }

  function RowOf(jobs: seq<Job>, id: int): (r: Option<Job>)
    ensures r.Some? ==> r.value.id == id && r.value in jobs
  {
    var k := JobIndex(jobs, id);
    if k < |jobs| then Some(jobs[k]) else None
  }

  // ---- the writes ----

  function Pushed(t: Tables, job: string, payload: string, availableAt: int): Tables {
    var id := t.lastId + 1;
    t.(jobs := t.jobs + [Job(id, job, payload, 0, availableAt, 0)], lastId := id)
  }

  /** An unconditional update; nothing happens when the row is gone. */
  function Rewritten(t: Tables, j: Job): Tables {
    var k := JobIndex(t.jobs, j.id);
    if k < |t.jobs| then t.(jobs := t.jobs[k := j]) else t
  }

  /** Whether the compare-and-set of `observed` still finds the reservation it saw. */
  predicate Claimable(t: Tables, observed: Job) {
    var r := RowOf(t.jobs, observed.id);
    r.Some? && r.value.reservedAt == observed.reservedAt
  }

  function DropId(jobs: seq<Job>, id: int): (r: seq<Job>)
    ensures forall x <- r :: x in jobs && x.id != id
  {
    if jobs == [] then [] else (if jobs[0].id == id then [] else [jobs[0]]) + DropId(jobs[1..], id)
  }

  function Deleted(t: Tables, id: int): Tables {
    t.(jobs := DropId(t.jobs, id))
  }

  function Buried(t: Tables, j: Job, error: string): Tables {
    t.(failed := t.failed + [Failure(j.job, j.payload, error)])
  }

  // ---- what a worker decides ----

  predicate Due(j: Job, now: int, cfg: Config) {
    j.availableAt <= now && (j.reservedAt == 0 || now - j.reservedAt >= cfg.retryAfter)
  }

  predicate Exhausted(j: Job, cfg: Config) {
    j.attempts + 1 >= cfg.maxAttempts
  }

  function Claimed(j: Job, now: int): Job {
    j.(reservedAt := now)
  }

  function Requeued(j: Job, now: int, cfg: Config): Job {
    j.(attempts := j.attempts + 1, reservedAt := 0,
       availableAt := if cfg.retryBackoff > 0 then now + cfg.retryBackoff * (j.attempts + 1) else 0)
  }

  // ---- how the writes move a row ----

  lemma RowAfterRewrite(t: Tables, j: Job, id: int)
    ensures RowOf(Rewritten(t, j).jobs, id) ==
      if id == j.id && RowOf(t.jobs, id).Some? then Some(j) else RowOf(t.jobs, id)
  {
    var jobs' := Rewritten(t, j).jobs;
    assert forall i :: 0 <= i < |t.jobs| ==> jobs'[i].id == t.jobs[i].id;
    assert JobIndex(jobs', id) == JobIndex(t.jobs, id);
  }

  lemma RowAhead(x: Job, jobs: seq<Job>, id: int)
    ensures RowOf([x] + jobs, id) == if x.id == id then Some(x) else RowOf(jobs, id)
  {
    assert ([x] + jobs)[1..] == jobs;
  }

  lemma {:induction false} RowAfterDrop(jobs: seq<Job>, dropped: int, id: int)
    ensures RowOf(DropId(jobs, dropped), id) == if id == dropped then None else RowOf(jobs, id)
  {
    hide RowOf;
    if jobs == [] {
      NoRow(id);
    } else {
      RowAfterDrop(jobs[1..], dropped, id);
      assert jobs == [jobs[0]] + jobs[1..];
      RowAhead(jobs[0], jobs[1..], id);
      RowAhead(jobs[0], DropId(jobs[1..], dropped), id);
      assert [] + DropId(jobs[1..], dropped) == DropId(jobs[1..], dropped);
    }
  }

  lemma NoRow(id: int)
    ensures RowOf([], id) == None
  {}

  lemma {:induction false} RowAfterAppend(jobs: seq<Job>, j: Job, id: int)
    ensures RowOf(jobs + [j], id) ==
      if RowOf(jobs, id).Some? then RowOf(jobs, id) else if j.id == id then Some(j) else None
  {
    hide RowOf;
    if jobs == [] {
      NoRow(id);
      assert [] + [j] == [j] + [];
      RowAhead(j, [], id);
    } else {
      RowAfterAppend(jobs[1..], j, id);
      assert jobs == [jobs[0]] + jobs[1..];
      assert jobs + [j] == [jobs[0]] + (jobs[1..] + [j]);
      RowAhead(jobs[0], jobs[1..], id);
      RowAhead(jobs[0], jobs[1..] + [j], id);
    }
  }

  lemma RewrittenRows(t: Tables, j: Job)
    ensures forall x <- Rewritten(t, j).jobs :: x == j || x in t.jobs
  {}
}
