/** The two safety results of the queue protocol: no job is lost and none returns, under any
    timing; and no job is run by two workers at once, while every pass ends within its lease. */
module QueueSafety {
  import opened Wrappers
  import opened Jobs
  import opened QueueProtocol

  // ---- no job is lost ----

  /** History only grows. */
  ghost predicate Grows(s: State, s': State) {
    && s.tables.lastId <= s'.tables.lastId
    && (forall id <- s.pushed :: id in s'.pushed && s'.pushed[id] == s.pushed[id])
    && s.succeeded <= s'.succeeded && s.dropped <= s'.dropped && s.buried <= s'.buried
    && s.tables.failed <= s'.tables.failed
  }

  lemma StepGrows(s: State, a: Action, s': State, cfg: Config)
    requires Step(s, a, cfg) == Some(s')
    requires forall id <- s.pushed :: id <= s.tables.lastId
    ensures Grows(s, s')
  {
    hide DropId, JobIndex, RowOf, Due;
  }

  lemma MatchesGrows(s: State, s': State, j: Job)
    requires Grows(s, s') && Matches(s, j)
    ensures Matches(s', j)
  {}

  lemma HasFailureGrows(s: State, s': State, id: int)
    requires Grows(s, s') && HasFailure(s, id)
    ensures HasFailure(s', id)
  {
    var f :| f in s.tables.failed && (f.job, f.payload) == s.pushed[id];
    assert f in s'.tables.failed;
  }

  /** Workers other than the acting one are left alone. */
  function Actor(a: Action): Option<nat> {
    if a.Tick? || a.Push? then None else Some(a.w)
  }

  lemma OthersStay(s: State, a: Action, s': State, cfg: Config, v: nat)
    requires Step(s, a, cfg) == Some(s') && Actor(a) != Some(v)
    ensures At(s', v) == At(s, v)
  {
    hide DropId, JobIndex, RowOf, Due;
  }

  /** Rows of the new table are rows of the old one, rows written by their holder, or new. */
  lemma NewRows(s: State, a: Action, s': State, cfg: Config, j: Job)
    requires Step(s, a, cfg) == Some(s') && Copies(s) && s.tables.lastId >= 0 && j in s'.tables.jobs
    requires Grows(s, s')
    ensures Matches(s', j)
  {
    hide DropId, JobIndex, RowOf, Due;
    if j in s.tables.jobs {
      MatchesGrows(s, s', j);
    } else if a.Claim? {
      var k := At(s, a.w);
      RewrittenRows(s.tables, Claimed(k.rest[0], k.now));
      MatchesGrows(s, s', k.rest[0]);
    } else if a.Write? {
      var k := At(s, a.w);
      RewrittenRows(s.tables, Requeued(k.phase.j, k.now, cfg));
      MatchesGrows(s, s', k.phase.j);
    }
  }

  lemma CopiesStep(s: State, a: Action, s': State, cfg: Config)
    requires Step(s, a, cfg) == Some(s') && Copies(s) && s.tables.lastId >= 0 && Grows(s, s')
    ensures Copies(s')
  {
    forall j | j in s'.tables.jobs ensures Matches(s', j) { NewRows(s, a, s', cfg, j); }
    forall w: nat, k: nat | At(s', w).Pass? && 0 <= k < |At(s', w).rest| ensures Matches(s', At(s', w).rest[k]) {
      RestOfWorker(s, a, s', cfg, w, k);
    }
    forall w: nat | Held(At(s', w)).Some? ensures Matches(s', Held(At(s', w)).value) {
      HeldByWorker(s, a, s', cfg, w);
    }
  }

  lemma RestOfWorker(s: State, a: Action, s': State, cfg: Config, w: nat, k: nat)
    requires Step(s, a, cfg) == Some(s') && Copies(s) && Grows(s, s')
    requires At(s', w).Pass? && k < |At(s', w).rest|
    ensures Matches(s', At(s', w).rest[k])
  {
    hide DropId, JobIndex, RowOf, Due, Grows, Matches;
    var j := At(s', w).rest[k];
    assert Matches(s, j) by {
      if Actor(a) != Some(w) { OthersStay(s, a, s', cfg, w); }
      else if a.Skip? || a.Claim? { assert j == At(s, w).rest[k + 1]; }
    }
    MatchesGrows(s, s', j);
  }

  lemma HeldByWorker(s: State, a: Action, s': State, cfg: Config, w: nat)
    requires Step(s, a, cfg) == Some(s') && Copies(s) && Grows(s, s')
    requires Held(At(s', w)).Some?
    ensures Matches(s', Held(At(s', w)).value)
  {
    hide DropId, JobIndex, RowOf, Due, Grows, Matches;
    var j := Held(At(s', w)).value;
    assert Matches(s, j) by {
      if Actor(a) != Some(w) { OthersStay(s, a, s', cfg, w); }
      else if a.Claim? { assert j == At(s, w).rest[0]; }
    }
    MatchesGrows(s, s', j);
  }

  lemma JustifiedStep(s: State, a: Action, s': State, cfg: Config, w: nat)
    requires Step(s, a, cfg) == Some(s') && Justified(s, At(s, w), cfg) && Grows(s, s')
    ensures Justified(s', At(s', w), cfg)
  {
    hide DropId, JobIndex, RowOf, Due;
    if Actor(a) != Some(w) { OthersStay(s, a, s', cfg, w); }
  }

  lemma BuriedStep(s: State, a: Action, s': State, cfg: Config, id: int)
    requires Step(s, a, cfg) == Some(s') && Copies(s) && Grows(s, s')
    requires (forall b <- s.buried :: HasFailure(s, b)) && id in s'.buried
    ensures HasFailure(s', id)
  {
    hide DropId, JobIndex, RowOf, Due;
    if id in s.buried {
      HasFailureGrows(s, s', id);
    } else {
      var j := At(s, a.w).phase.j;
      assert Matches(s, Held(At(s, a.w)).value);
      var f := s'.tables.failed[|s'.tables.failed| - 1];
      assert f in s'.tables.failed && (f.job, f.payload) == s'.pushed[id];
    }
  }

  /** A row goes away only when its holder deletes it. */
  lemma RowsGoByDeletion(s: State, a: Action, s': State, cfg: Config, id: int)
    requires Step(s, a, cfg) == Some(s') && RowOf(s.tables.jobs, id).Some? && RowOf(s'.tables.jobs, id).None?
    ensures a.Write? && At(s, a.w).Pass? && At(s, a.w).phase.j.id == id
    ensures var p := At(s, a.w).phase; p.Succeeding? || p.Dropping? || p.Burying?
    ensures At(s, a.w).phase.Dropping? ==> id in s'.dropped
  {
    hide DropId, JobIndex, RowOf, Due;
    if a.Push? {
      RowAfterAppend(s.tables.jobs, Job(s.tables.lastId + 1, a.job, a.payload, 0, if a.delay > 0 then s.clock + a.delay else 0, 0), id);
    } else if a.Claim? {
      RowAfterRewrite(s.tables, Claimed(At(s, a.w).rest[0], At(s, a.w).now), id);
    } else if a.Write? {
      var k := At(s, a.w);
      RowAfterRewrite(s.tables, Requeued(k.phase.j, k.now, cfg), id);
      RowAfterDrop(s.tables.jobs, k.phase.j.id, id);
    }
  }

  lemma AccountedStep(s: State, a: Action, s': State, cfg: Config, id: int)
    requires Step(s, a, cfg) == Some(s') && Ledger(s, cfg) && Grows(s, s') && id in s'.pushed
    requires forall b <- s'.buried :: HasFailure(s', b)
    ensures Accounted(s', id, cfg)
  {
    hide DropId, JobIndex, RowOf, Due, Step, HasFailure;
    if id !in s.pushed {
      PushAddsRow(s, a, s', cfg, id);
    } else if RowOf(s.tables.jobs, id).Some? && RowOf(s'.tables.jobs, id).None? {
      RowsGoByDeletion(s, a, s', cfg, id);
      assert Justified(s, At(s, a.w), cfg);
      assert Matches(s, Held(At(s, a.w)).value);
    } else if RowOf(s.tables.jobs, id).None? {
      if id in s.buried { assert HasFailure(s', id); }
    }
  }

  lemma PushAddsRow(s: State, a: Action, s': State, cfg: Config, id: int)
    requires Step(s, a, cfg) == Some(s') && id !in s.pushed && id in s'.pushed
    ensures a.Push? && id == s.tables.lastId + 1 && RowOf(s'.tables.jobs, id).Some?
  {
    hide DropId, JobIndex, RowOf, Due;
    if a.Push? {
      RowAfterAppend(s.tables.jobs, Job(s.tables.lastId + 1, a.job, a.payload, 0, if a.delay > 0 then s.clock + a.delay else 0, 0), id);
    }
  }

  lemma PushedIds(s: State, a: Action, s': State, cfg: Config)
    requires Step(s, a, cfg) == Some(s') && s.tables.lastId >= 0
    requires forall id :: id in s.pushed <==> 1 <= id <= s.tables.lastId
    ensures s'.tables.lastId >= 0
    ensures forall id :: id in s'.pushed <==> 1 <= id <= s'.tables.lastId
  {
    hide DropId, JobIndex, RowOf, Due;
  }

  /** Every action keeps the ledger. */
  lemma LedgerStep(s: State, a: Action, s': State, cfg: Config)
    requires Step(s, a, cfg) == Some(s') && Ledger(s, cfg)
    ensures Ledger(s', cfg) && Grows(s, s')
  {
    hide Step, Justified, Copies, HasFailure, Accounted, Grows;
    StepGrows(s, a, s', cfg);
    PushedIds(s, a, s', cfg);
    CopiesStep(s, a, s', cfg);
    forall w: nat ensures Justified(s', At(s', w), cfg) { JustifiedStep(s, a, s', cfg, w); }
    forall id | id in s'.buried ensures HasFailure(s', id) { BuriedStep(s, a, s', cfg, id); }
    forall id | id in s'.pushed ensures Accounted(s', id, cfg) { AccountedStep(s, a, s', cfg, id); }
  }

  lemma {:induction false} LedgerHolds(run: seq<State>, acts: seq<Action>, cfg: Config, n: nat)
    requires Behaviour(run, acts, cfg) && n < |run|
    ensures Ledger(run[n], cfg)
  {
    hide Step, Copies, HasFailure, Accounted;
    if n == 0 {
      LedgerAtStart(cfg);
    } else {
      LedgerHolds(run, acts, cfg, n - 1);
      var a := acts[n - 1];
      assert Step(run[n - 1], a, cfg) == Some(run[n - 1 + 1]);
      LedgerStep(run[n - 1], a, run[n], cfg);
    }
  }

  lemma LedgerAtStart(cfg: Config)
    ensures Ledger(INITIAL, cfg)
  {}

  /** No job is lost: at every point of every run, under any timing, overlap and crashes, each
      pushed job is still a row, or its handler returned, or it had no handler, or a
      failed_jobs row for it was inserted. */
  lemma NoJobLost(run: seq<State>, acts: seq<Action>, cfg: Config, n: nat, id: int)
    requires Behaviour(run, acts, cfg) && n < |run| && 1 <= id <= run[n].tables.lastId
    ensures Accounted(run[n], id, cfg)
  {
    hide Step, Copies, HasFailure, Accounted, Behaviour;
    LedgerHolds(run, acts, cfg, n);
  }

  lemma NoneReturnsStep(s: State, a: Action, s': State, cfg: Config, id: int)
    requires Step(s, a, cfg) == Some(s') && id <= s.tables.lastId && RowOf(s.tables.jobs, id).None?
    ensures RowOf(s'.tables.jobs, id).None? && s.tables.lastId <= s'.tables.lastId
  {
    hide DropId, JobIndex, RowOf, Due;
    if a.Push? {
      RowAfterAppend(s.tables.jobs, Job(s.tables.lastId + 1, a.job, a.payload, 0, if a.delay > 0 then s.clock + a.delay else 0, 0), id);
    } else if a.Claim? {
      RowAfterRewrite(s.tables, Claimed(At(s, a.w).rest[0], At(s, a.w).now), id);
    } else if a.Write? {
      var k := At(s, a.w);
      RowAfterRewrite(s.tables, Requeued(k.phase.j, k.now, cfg), id);
      RowAfterDrop(s.tables.jobs, k.phase.j.id, id);
    }
  }

  /** None returns: an id that was handed out and whose row is gone never has a row again. */
  lemma {:induction false} NoneReturns(run: seq<State>, acts: seq<Action>, cfg: Config, m: nat, n: nat, id: int)
    requires Behaviour(run, acts, cfg) && m <= n < |run|
    requires id <= run[m].tables.lastId && RowOf(run[m].tables.jobs, id).None?
    ensures RowOf(run[n].tables.jobs, id).None? && id <= run[n].tables.lastId
    decreases n - m
  {
    hide Step, RowOf;
    if m < n {
      NoneReturnsStep(run[m], acts[m], run[m + 1], cfg, id);
      NoneReturns(run, acts, cfg, m + 1, n, id);
    }
  }

  // ---- mutual exclusion ----

  /** A claim that succeeds is on a job nobody holds. */
  lemma ClaimTakesFreeJob(s: State, w: nat, s': State, cfg: Config, v: nat)
    requires Step(s, Claim(w), cfg) == Some(s') && Stamped(s) && Timely(s, cfg)
    requires Held(At(s', w)).Some? && Held(At(s, v)).Some?
    ensures Held(At(s, v)).value.id != Held(At(s', w)).value.id
  {
    hide DropId, JobIndex, RowOf, Rewritten;
    var observed := At(s, w).rest[0];
    var r := RowOf(s.tables.jobs, observed.id);
    assert r.value.reservedAt == observed.reservedAt;
    assert 0 < At(s, v).now <= s.clock < At(s, v).now + cfg.retryAfter;
    assert At(s, w).now <= s.clock;
  }

  /** The row of a job held by a worker that does not act stays as it is. */
  lemma HeldRowStays(s: State, a: Action, s': State, cfg: Config, v: nat)
    requires Step(s, a, cfg) == Some(s') && Stamped(s) && Exclusive(s) && Timely(s, cfg)
    requires Actor(a) != Some(v) && Held(At(s, v)).Some?
    ensures RowOf(s'.tables.jobs, Held(At(s, v)).value.id) == RowOf(s.tables.jobs, Held(At(s, v)).value.id)
  {
    hide DropId, JobIndex, RowOf, Due, Rewritten, Timely;
    var id := Held(At(s, v)).value.id;
    if a.Push? {
      RowAfterAppend(s.tables.jobs, Job(s.tables.lastId + 1, a.job, a.payload, 0, if a.delay > 0 then s.clock + a.delay else 0, 0), id);
    } else if a.Claim? {
      var j := Claimed(At(s, a.w).rest[0], At(s, a.w).now);
      RowAfterRewrite(s.tables, j, id);
      if Held(At(s', a.w)).Some? { ClaimTakesFreeJob(s, a.w, s', cfg, v); }
    } else if a.Write? {
      var k := At(s, a.w);
      assert Held(k).value.id != id;
      RowAfterRewrite(s.tables, Requeued(k.phase.j, k.now, cfg), id);
      RowAfterDrop(s.tables.jobs, k.phase.j.id, id);
    }
  }

  lemma ActorStamped(s: State, a: Action, s': State, cfg: Config, w: nat)
    requires Step(s, a, cfg) == Some(s') && Stamped(s) && Actor(a) == Some(w) && Held(At(s', w)).Some?
    ensures var r := RowOf(s'.tables.jobs, Held(At(s', w)).value.id);
      r.Some? && r.value.reservedAt == At(s', w).now
  {
    hide DropId, JobIndex, RowOf, Due, Rewritten;
    if a.Claim? {
      var j := Claimed(At(s, w).rest[0], At(s, w).now);
      RowAfterRewrite(s.tables, j, j.id);
    }
  }

  lemma ActorHolds(s: State, a: Action, s': State, cfg: Config, w: nat)
    requires Step(s, a, cfg) == Some(s') && Actor(a) == Some(w) && Held(At(s', w)).Some? && !a.Claim?
    ensures Held(At(s, w)).Some? && Held(At(s, w)).value.id == Held(At(s', w)).value.id
  {
    hide DropId, JobIndex, RowOf, Due, Rewritten;
  }

  lemma StampedStep(s: State, a: Action, s': State, cfg: Config)
    requires Step(s, a, cfg) == Some(s') && Stamped(s) && Exclusive(s) && Timely(s, cfg)
    ensures Stamped(s')
  {
    hide Step, RowOf, Timely, Exclusive;
    forall w: nat | Held(At(s', w)).Some?
      ensures var r := RowOf(s'.tables.jobs, Held(At(s', w)).value.id); r.Some? && r.value.reservedAt == At(s', w).now
    {
      if Actor(a) == Some(w) {
        ActorStamped(s, a, s', cfg, w);
      } else {
        OthersStay(s, a, s', cfg, w);
        HeldRowStays(s, a, s', cfg, w);
      }
    }
  }

  lemma ExclusiveStep(s: State, a: Action, s': State, cfg: Config)
    requires Step(s, a, cfg) == Some(s') && Stamped(s) && Exclusive(s) && Timely(s, cfg)
    ensures Exclusive(s')
  {
    hide Step, RowOf, Timely, Stamped;
    forall v: nat, w: nat | v != w && Held(At(s', v)).Some? && Held(At(s', w)).Some?
      ensures Held(At(s', v)).value.id != Held(At(s', w)).value.id
    {
      if Actor(a) == Some(v) {
        PairStaysApart(s, a, s', cfg, v, w);
      } else if Actor(a) == Some(w) {
        PairStaysApart(s, a, s', cfg, w, v);
      } else {
        OthersStay(s, a, s', cfg, v);
        OthersStay(s, a, s', cfg, w);
      }
    }
  }

  lemma PairStaysApart(s: State, a: Action, s': State, cfg: Config, v: nat, w: nat)
    requires Step(s, a, cfg) == Some(s') && Stamped(s) && Exclusive(s) && Timely(s, cfg)
    requires Actor(a) == Some(v) && v != w && Held(At(s', v)).Some? && Held(At(s', w)).Some?
    ensures Held(At(s', v)).value.id != Held(At(s', w)).value.id
  {
    hide Step, RowOf, Timely, Stamped;
    OthersStay(s, a, s', cfg, w);
    if a.Claim? { ClaimTakesFreeJob(s, v, s', cfg, w); } else { ActorHolds(s, a, s', cfg, v); }
  }

  // ---- counting handler returns ----

  lemma ReturningStep(s: State, a: Action, s': State, cfg: Config, id: int)
    requires Step(s, a, cfg) == Some(s') && Exclusive(s)
    ensures Returning(s', id) <==>
      || (a.Return? && At(s, a.w).phase.j.id == id)
      || (Returning(s, id) && !((a.Write? || a.Crash?) && At(s, a.w).phase.Succeeding? && At(s, a.w).phase.j.id == id))
  {
    hide DropId, JobIndex, RowOf, Due, Rewritten;
    if Returning(s, id) {
      var w: nat :| At(s, w).Pass? && At(s, w).phase.Succeeding? && At(s, w).phase.j.id == id;
      if Actor(a) != Some(w) {
        OthersStay(s, a, s', cfg, w);
        assert Held(At(s, w)).Some?;
      }
    }
    if Returning(s', id) {
      var w: nat :| At(s', w).Pass? && At(s', w).phase.Succeeding? && At(s', w).phase.j.id == id;
      if Actor(a) != Some(w) { OthersStay(s, a, s', cfg, w); }
    }
    if a.Return? { assert At(s', a.w).phase.Succeeding?; }
  }

  /** The counters an action moves for one id. */
  lemma CountersStep(s: State, a: Action, s': State, cfg: Config, id: int)
    requires Step(s, a, cfg) == Some(s')
    ensures s'.succeeded[id] == s.succeeded[id] + (if a.Return? && At(s, a.w).phase.j.id == id then 1 else 0)
    ensures s'.finished[id] == s.finished[id] +
      (if a.Write? && At(s, a.w).phase.Succeeding? && At(s, a.w).phase.j.id == id then 1 else 0)
    ensures s'.orphaned[id] == s.orphaned[id] +
      (if a.Crash? && At(s, a.w).phase.Succeeding? && At(s, a.w).phase.j.id == id then 1 else 0)
  {
    hide DropId, JobIndex, RowOf, Due, Rewritten;
  }

  /** A handler runs only while nobody else has seen it return. */
  lemma RunnerIsAlone(s: State, w: nat, id: int)
    requires Exclusive(s) && At(s, w).Pass? && At(s, w).phase.Running? && At(s, w).phase.j.id == id
    ensures !Returning(s, id)
  {
    assert Held(At(s, w)) == Some(At(s, w).phase.j);
  }

  lemma DeletionLeavesNoRow(s: State, a: Action, s': State, cfg: Config, id: int)
    requires Step(s, a, cfg) == Some(s') && a.Write? && At(s, a.w).phase.Succeeding? && At(s, a.w).phase.j.id == id
    ensures RowOf(s'.tables.jobs, id).None?
  {
    hide JobIndex, RowOf, DropId;
    RowAfterDrop(s.tables.jobs, id, id);
  }

  lemma ReturnFromRunning(s: State, a: Action, s': State, cfg: Config)
    requires Step(s, a, cfg) == Some(s') && (a.Return? || a.Write? || a.Crash?)
    ensures At(s, a.w).Pass? && (a.Return? ==> At(s, a.w).phase.Running?)
  {
    hide JobIndex, RowOf, DropId, Due, Rewritten;
  }

  lemma HolderIsReturning(s: State, w: nat)
    requires At(s, w).Pass? && At(s, w).phase.Succeeding?
    ensures Returning(s, At(s, w).phase.j.id) && Held(At(s, w)) == Some(At(s, w).phase.j)
  {}

  lemma CountedStep(s: State, a: Action, s': State, cfg: Config, id: int)
    requires Step(s, a, cfg) == Some(s') && Safe(s)
    ensures Counted(s', id)
  {
    hide Step, RowOf, Stamped, Exclusive, Returning;
    ReturningStep(s, a, s', cfg, id);
    CountersStep(s, a, s', cfg, id);
    assert Counted(s, id);
    if s.finished[id] == 1 { NoneReturnsStep(s, a, s', cfg, id); }
    if a.Return? || a.Write? || a.Crash? {
      ReturnFromRunning(s, a, s', cfg);
      if a.Return? && At(s, a.w).phase.j.id == id { RunnerIsAlone(s, a.w, id); }
      if !a.Return? && At(s, a.w).phase.Succeeding? && At(s, a.w).phase.j.id == id {
        HolderIsReturning(s, a.w);
        RowIsThere(s, a.w);
        if a.Write? { DeletionLeavesNoRow(s, a, s', cfg, id); }
      }
    }
  }

  lemma RowIsThere(s: State, w: nat)
    requires Stamped(s) && Held(At(s, w)).Some?
    ensures RowOf(s.tables.jobs, Held(At(s, w)).value.id).Some?
  {
    hide RowOf;
  }

  lemma IdsStep(s: State, a: Action, s': State, cfg: Config)
    requires Step(s, a, cfg) == Some(s') && Safe(s)
    ensures s'.tables.lastId >= s.tables.lastId >= 0
    ensures forall j <- s'.tables.jobs :: 1 <= j.id <= s'.tables.lastId
    ensures forall id :: id in s'.finished ==> 1 <= id <= s'.tables.lastId
  {
    hide JobIndex, DropId, Due, Exclusive, Counted;
    if a.Claim? {
      RewrittenRows(s.tables, Claimed(At(s, a.w).rest[0], At(s, a.w).now));
    } else if a.Write? {
      var k := At(s, a.w);
      assert Held(k) == Some(k.phase.j);
      assert k.phase.j.id == RowOf(s.tables.jobs, k.phase.j.id).value.id;
      RewrittenRows(s.tables, Requeued(k.phase.j, k.now, cfg));
    }
  }

  /** Every action from a timely state keeps the claims safe. */
  lemma SafeStep(s: State, a: Action, s': State, cfg: Config)
    requires Step(s, a, cfg) == Some(s') && Safe(s) && Timely(s, cfg)
    ensures Safe(s')
  {
    hide Step, Counted, RowOf;
    IdsStep(s, a, s', cfg);
    forall id ensures Counted(s', id) { CountedStep(s, a, s', cfg, id); }
    hide Stamped, Exclusive, Timely;
    StampedStep(s, a, s', cfg);
    ExclusiveStep(s, a, s', cfg);
  }

  lemma {:induction false} SafeHolds(run: seq<State>, acts: seq<Action>, cfg: Config, n: nat)
    requires Behaviour(run, acts, cfg) && n < |run|
    requires forall i :: 0 <= i < n ==> Timely(run[i], cfg)
    ensures Safe(run[n])
  {
    hide Step, Timely, Stamped, Exclusive, Counted;
    if n == 0 {
      SafeAtStart();
    } else {
      SafeHolds(run, acts, cfg, n - 1);
      var a := acts[n - 1];
      assert Step(run[n - 1], a, cfg) == Some(run[n - 1 + 1]);
      assert Timely(run[n - 1], cfg);
      SafeStep(run[n - 1], a, run[n], cfg);
    }
  }

  lemma SafeAtStart()
    ensures Safe(INITIAL)
  {
    forall id ensures Counted(INITIAL, id) {}
  }

  /** Mutual exclusion: while every pass has ended within its lease, no two workers hold one
      job, whether its handler runs or its outcome is still being written. */
  lemma MutualExclusion(run: seq<State>, acts: seq<Action>, cfg: Config, n: nat, v: nat, w: nat)
    requires Behaviour(run, acts, cfg) && n < |run|
    requires forall i :: 0 <= i < n ==> Timely(run[i], cfg)
    requires v != w && Held(At(run[n], v)).Some? && Held(At(run[n], w)).Some?
    ensures Held(At(run[n], v)).value.id != Held(At(run[n], w)).value.id
  {
    hide Behaviour, Step, Timely, Stamped, Counted;
    SafeHolds(run, acts, cfg, n);
  }

  /** A job's handler returns at most once more than crashes hit it between its return and the
      removal of its row; without crashes it returns at most once. */
  lemma SucceedsOnce(run: seq<State>, acts: seq<Action>, cfg: Config, n: nat, id: int)
    requires Behaviour(run, acts, cfg) && n < |run|
    requires forall i :: 0 <= i < n ==> Timely(run[i], cfg)
    ensures run[n].succeeded[id] <= 1 + run[n].orphaned[id]
  {
    hide Behaviour, Step, Timely, Exclusive;
    SafeHolds(run, acts, cfg, n);
    var s := run[n];
    assert Counted(s, id);
    if Returning(s, id) {
      var w: nat :| At(s, w).Pass? && At(s, w).phase.Succeeding? && At(s, w).phase.j.id == id;
      assert Held(At(s, w)).Some?;
    }
  }

  /** Without crashes nothing is orphaned. */
  lemma {:induction false} NoCrashNoOrphan(run: seq<State>, acts: seq<Action>, cfg: Config, n: nat, id: int)
    requires Behaviour(run, acts, cfg) && n < |run|
    requires forall i :: 0 <= i < n ==> !acts[i].Crash?
    ensures run[n].orphaned[id] == 0
  {
    hide Step;
    if n > 0 {
      NoCrashNoOrphan(run, acts, cfg, n - 1, id);
      var a := acts[n - 1];
      assert Step(run[n - 1], a, cfg) == Some(run[n - 1 + 1]);
      CountersStep(run[n - 1], a, run[n], cfg, id);
    }
  }

  /** Without crashes no job's handler returns twice. */
  lemma NoDoubleSuccess(run: seq<State>, acts: seq<Action>, cfg: Config, n: nat, id: int)
    requires Behaviour(run, acts, cfg) && n < |run|
    requires forall i :: 0 <= i < n ==> Timely(run[i], cfg) && !acts[i].Crash?
    ensures run[n].succeeded[id] <= 1
  {
    hide Behaviour, Timely;
    SucceedsOnce(run, acts, cfg, n, id);
    NoCrashNoOrphan(run, acts, cfg, n, id);
  }
}
