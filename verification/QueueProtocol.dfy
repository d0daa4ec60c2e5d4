/** Any number of queue workers interleaving one database operation at a time, with the clock,
    pushes and crashes: the concurrent reading of `DbQueue::work` in include/db_queue.hpp. */
module QueueProtocol {
  import opened Wrappers
  import opened Jobs

  /** Where a worker is in the loop body; every phase but Scanning works on a claimed job. */
  datatype Phase =
    | Scanning
    | Running(j: Job)                  // the handler is executing
    | Succeeding(j: Job)               // it returned; the row is still to be removed
    | Dropping(j: Job)                 // no handler; the row is still to be removed
    | Failing(j: Job, error: string)   // it threw; nothing written yet
    | Burying(j: Job)                  // the failed_jobs row is in; the job row is still there

  datatype Worker = Idle | Pass(now: int, rest: seq<Job>, phase: Phase)

  /** The database, the clock, the workers, and what has happened so far to each job id. */
  datatype State = State(
    clock: int,
    tables: Tables,
    workers: map<nat, Worker>,
    pushed: map<int, (string, string)>,
    succeeded: multiset<int>,          // handler returns
    finished: multiset<int>,           // rows removed after a handler return
    orphaned: multiset<int>,           // crashes between a handler return and the removal
    dropped: set<int>,
    buried: set<int>)

  datatype Action =
    | Tick(to: int)
    | Push(job: string, payload: string, delay: int)
    | Begin(w: nat, now: int)
    | Skip(w: nat)
    | Claim(w: nat)
    | Return(w: nat)
    | Throw(w: nat, error: string)
    | Write(w: nat)
    | End(w: nat)
    | Crash(w: nat)

  const INITIAL := State(0, Tables([], 0, []), map[], map[], multiset{}, multiset{}, multiset{}, {}, {})

  function At(s: State, w: nat): Worker {
    if w in s.workers then s.workers[w] else Idle
  }

  function Put(s: State, w: nat, k: Worker): State {
    s.(workers := s.workers[w := k])
  }

  /** The state after an action, or None where the action is not possible. */
  function Step(s: State, a: Action, cfg: Config): Option<State> {
    match a
    case Tick(to) => if to >= s.clock then Some(s.(clock := to)) else None
    case Push(job, payload, delay) =>
      Some(s.(tables := Pushed(s.tables, job, payload, if delay > 0 then s.clock + delay else 0),
              pushed := s.pushed[s.tables.lastId + 1 := (job, payload)]))
    case Begin(w, now) =>
      if At(s, w).Idle? then Some(Put(s, w, Pass(now, s.tables.jobs, Scanning))) else None
    case Skip(w) =>
      var k := At(s, w);
      if k.Pass? && k.phase.Scanning? && k.rest != [] && !Due(k.rest[0], k.now, cfg)
      then Some(Put(s, w, k.(rest := k.rest[1..]))) else None
    case Claim(w) =>
      var k := At(s, w);
      if k.Pass? && k.phase.Scanning? && k.rest != [] && Due(k.rest[0], k.now, cfg) then
        var j := k.rest[0];
        if Claimable(s.tables, j) then
          var phase := if j.job in cfg.handlers then Running(j) else Dropping(j);
          Some(Put(s.(tables := Rewritten(s.tables, Claimed(j, k.now))), w, Pass(k.now, k.rest[1..], phase)))
        else Some(Put(s, w, k.(rest := k.rest[1..])))
      else None
    case Return(w) =>
      var k := At(s, w);
      if k.Pass? && k.phase.Running?
      then Some(Put(s.(succeeded := s.succeeded + multiset{k.phase.j.id}), w, k.(phase := Succeeding(k.phase.j)))) else None
    case Throw(w, error) =>
      var k := At(s, w);
      if k.Pass? && k.phase.Running? then Some(Put(s, w, k.(phase := Failing(k.phase.j, error)))) else None
    case Write(w) =>
      var k := At(s, w);
      if k.Pass? && !k.phase.Scanning? && !k.phase.Running? then Some(Written(s, w, k, cfg)) else None
    case End(w) =>
      var k := At(s, w);
      if k.Pass? && k.phase.Scanning? && k.rest == [] then Some(Put(s, w, Idle)) else None
    case Crash(w) =>
      var k := At(s, w);
      if k.Pass? then
        Some(Put(if k.phase.Succeeding? then s.(orphaned := s.orphaned + multiset{k.phase.j.id}) else s, w, Idle))
      else None
  }

  /** The next single write of a worker that has finished with its job. */
  function Written(s: State, w: nat, k: Worker, cfg: Config): State
    requires k.Pass? && !k.phase.Scanning? && !k.phase.Running?
  {
    var j := k.phase.j;
    var scanning := k.(phase := Scanning);
    match k.phase
    case Succeeding(_) =>
      Put(s.(tables := Deleted(s.tables, j.id), finished := s.finished + multiset{j.id}), w, scanning)
    case Dropping(_) =>
      Put(s.(tables := Deleted(s.tables, j.id), dropped := s.dropped + {j.id}), w, scanning)
    case Failing(_, error) =>
      if Exhausted(j, cfg) then
        Put(s.(tables := Buried(s.tables, j, error), buried := s.buried + {j.id}), w, k.(phase := Burying(j)))
      else
        Put(s.(tables := Rewritten(s.tables, Requeued(j, k.now, cfg))), w, scanning)
    case Burying(_) =>
      Put(s.(tables := Deleted(s.tables, j.id)), w, scanning)
  }

  /** A finite run and the actions that made it. */
  ghost predicate Behaviour(run: seq<State>, acts: seq<Action>, cfg: Config) {
    && |run| == |acts| + 1 && run[0] == INITIAL
    && forall i :: 0 <= i < |acts| ==> Step(run[i], acts[i], cfg) == Some(run[i + 1])
  }

  /** The job a worker holds a claim on. */
  function Held(k: Worker): Option<Job> {
    if k.Idle? || k.phase.Scanning? then None else Some(k.phase.j)
  }

  // ---- nothing is lost, nothing returns: any timing, any crash ----

  predicate Matches(s: State, j: Job) {
    1 <= j.id <= s.tables.lastId && j.id in s.pushed && s.pushed[j.id] == (j.job, j.payload)
  }

  /** A failed_jobs row for this id's job and payload. */
  predicate HasFailure(s: State, id: int) {
    id in s.pushed && exists f <- s.tables.failed :: (f.job, f.payload) == s.pushed[id]
  }

  predicate Accounted(s: State, id: int, cfg: Config) {
    || RowOf(s.tables.jobs, id).Some?
    || id in s.succeeded
    || (id in s.dropped && id in s.pushed && s.pushed[id].0 !in cfg.handlers)
    || (id in s.buried && HasFailure(s, id))
  }

  ghost predicate Copies(s: State) {
    && (forall j <- s.tables.jobs :: Matches(s, j))
    && (forall w, k :: At(s, w).Pass? && 0 <= k < |At(s, w).rest| ==> Matches(s, At(s, w).rest[k]))
    && (forall w :: Held(At(s, w)).Some? ==> Matches(s, Held(At(s, w)).value))
  }

  /** What a worker about to delete a row knows about it. */
  ghost predicate Justified(s: State, k: Worker, cfg: Config) {
    k.Pass? ==>
      && (k.phase.Succeeding? ==> k.phase.j.id in s.succeeded)
      && (k.phase.Dropping? ==> k.phase.j.job !in cfg.handlers)
      && (k.phase.Burying? ==> k.phase.j.id in s.buried)
  }

  ghost predicate Ledger(s: State, cfg: Config) {
    && s.tables.lastId >= 0
    && (forall id :: id in s.pushed <==> 1 <= id <= s.tables.lastId)
    && Copies(s)
    && (forall w :: Justified(s, At(s, w), cfg))
    && (forall id <- s.buried :: HasFailure(s, id))
    && (forall id <- s.pushed :: Accounted(s, id, cfg))
  }

  // ---- mutual exclusion: passes that end before their lease ----

  /** Every running pass started at a positive time that is not in the future, and its lease
      (counted from the start of the pass) has not run out. */
  ghost predicate Timely(s: State, cfg: Config) {
    forall w :: At(s, w).Pass? ==> 0 < At(s, w).now <= s.clock < At(s, w).now + cfg.retryAfter
  }

  /** A held job's row is there and carries the holder's stamp. */
  ghost predicate Stamped(s: State) {
    forall w :: Held(At(s, w)).Some? ==>
      var r := RowOf(s.tables.jobs, Held(At(s, w)).value.id);
      r.Some? && r.value.reservedAt == At(s, w).now
  }

  ghost predicate Exclusive(s: State) {
    forall v, w :: v != w && Held(At(s, v)).Some? && Held(At(s, w)).Some? ==>
      Held(At(s, v)).value.id != Held(At(s, w)).value.id
  }

  /** Some worker has seen this job's handler return and has not removed the row. */
  ghost predicate Returning(s: State, id: int) {
    exists w :: At(s, w).Pass? && At(s, w).phase.Succeeding? && At(s, w).phase.j.id == id
  }

  /** Each handler return is accounted for once: its row was removed, or its worker crashed
      before removing it, or the removal is still to come. */
  ghost predicate Counted(s: State, id: int) {
    && s.succeeded[id] == s.orphaned[id] + s.finished[id] + (if Returning(s, id) then 1 else 0)
    && s.finished[id] <= 1
    && (s.finished[id] == 1 ==> RowOf(s.tables.jobs, id).None?)
  }

  ghost predicate Safe(s: State) {
    && Stamped(s) && Exclusive(s)
    && s.tables.lastId >= 0
    && (forall j <- s.tables.jobs :: 1 <= j.id <= s.tables.lastId)
    && (forall id :: id in s.finished ==> 1 <= id <= s.tables.lastId)
    && (forall id :: Counted(s, id))
  }
}
