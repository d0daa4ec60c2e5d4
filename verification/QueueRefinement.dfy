/** The pass that `DbQueue.Work` computes is one of the runs of the protocol: the interleaving
    in which one worker takes all its steps without interruption. */
module QueueRefinement {
  import opened Wrappers
  import opened Jobs
  import opened QueueProtocol
  import Q = DbQueues

  function Exec(s: State, acts: seq<Action>, cfg: Config): Option<State>
    decreases |acts|
  {
    if acts == [] then Some(s)
    else
      var next := Step(s, acts[0], cfg);
      if next.None? then None else Exec(next.value, acts[1..], cfg)
  }

  lemma {:induction false} ExecAppend(s: State, a: seq<Action>, b: seq<Action>, cfg: Config)
    requires Exec(s, a, cfg).Some?
    ensures Exec(s, a + b, cfg) == Exec(Exec(s, a, cfg).value, b, cfg)
    decreases |a|
  {
    hide Step;
    if a == [] {
      assert a + b == b;
    } else {
      ExecAppend(Step(s, a[0], cfg).value, a[1..], b, cfg);
      assert (a + b)[1..] == a[1..] + b;
    }
  }

  lemma Exec1(s: State, a: Action, cfg: Config)
    ensures Exec(s, [a], cfg) == Step(s, a, cfg)
  {
    hide Step;
  }

  /** The uninterrupted steps of a worker for the next row of its snapshot. */
  function RowSteps(t: Tables, w: nat, j: Job, now: int, cfg: Config, outcome: int -> Q.Outcome): seq<Action> {
    if !Due(j, now, cfg) then [Skip(w)]
    else if !Claimable(t, j) then [Claim(w)]
    else if j.job !in cfg.handlers then [Claim(w), Write(w)]
    else if outcome(j.id).Succeeds? then [Claim(w), Return(w), Write(w)]
    else [Claim(w), Throw(w, outcome(j.id).error), Write(w)] + (if Exhausted(j, cfg) then [Write(w)] else [])
  }

  function Members(ids: seq<int>): set<int> {
    set id <- ids
  }

  function IdSet(bs: seq<Q.Burial>): set<int> {
    set b <- bs :: b.id
  }

  /** The history of `s` is that of `s0` and what the pass `p` has done since: every id whose
      handler returned is recorded as succeeded and as finished, every id dropped and every id
      buried as such; nothing is orphaned, and nobody else moved. */
  ghost predicate Since(s0: State, s: State, w: nat, p: Q.Pass) {
    && s.tables == p.tables && s.clock == s0.clock && s.pushed == s0.pushed && s.orphaned == s0.orphaned
    && s.succeeded == s0.succeeded + multiset(p.succeeded) && s.finished == s0.finished + multiset(p.succeeded)
    && s.dropped == s0.dropped + Members(p.dropped)
    && s.buried == s0.buried + IdSet(p.buried)
    && forall v :: v != w ==> At(s, v) == At(s0, v)
  }

  /** Where a pass that began at `s0` stands. */
  ghost predicate Stands(s0: State, s: State, w: nat, now: int, rest: seq<Job>, p: Q.Pass) {
    Since(s0, s, w, p) && At(s, w) == Pass(now, rest, Scanning)
  }

  lemma RowIsSteps(s0: State, s: State, w: nat, j: Job, now: int, rest: seq<Job>, cfg: Config, outcome: int -> Q.Outcome, p: Q.Pass)
    requires Stands(s0, s, w, now, [j] + rest, p)
    ensures var s' := Exec(s, RowSteps(s.tables, w, j, now, cfg, outcome), cfg);
      s'.Some? && Stands(s0, s'.value, w, now, rest, Q.Turn(p, j, now, cfg, outcome))
  {
    hide DropId, JobIndex, RowOf, Due, Rewritten, Claimable, IdSet;
    assert ([j] + rest)[0] == j && ([j] + rest)[1..] == rest;
    var steps := RowSteps(s.tables, w, j, now, cfg, outcome);
    if |steps| == 1 {
      Exec1(s, steps[0], cfg);
      assert steps == [steps[0]];
    } else {
      ClaimedSteps(s, w, j, now, rest, cfg, outcome);
      RowEndStands(s0, s, w, j, now, rest, cfg, outcome, p);
    }
  }

  /** The state in which the steps for a claimed row end. */
  function RowEnd(s: State, w: nat, j: Job, now: int, rest: seq<Job>, cfg: Config, outcome: int -> Q.Outcome): State {
    var t := Rewritten(s.tables, Claimed(j, now));
    var scanning := s.(workers := s.workers[w := Pass(now, rest, Scanning)]);
    if j.job !in cfg.handlers then scanning.(tables := Deleted(t, j.id), dropped := s.dropped + {j.id})
    else match outcome(j.id)
    case Succeeds =>
      scanning.(tables := Deleted(t, j.id), succeeded := s.succeeded + multiset{j.id}, finished := s.finished + multiset{j.id})
    case Throws(error) =>
      if Exhausted(j, cfg) then scanning.(tables := Deleted(Buried(t, j, error), j.id), buried := s.buried + {j.id})
      else scanning.(tables := Rewritten(t, Requeued(j, now, cfg)))
  }

  lemma RowEndTables(s: State, w: nat, j: Job, now: int, rest: seq<Job>, cfg: Config, outcome: int -> Q.Outcome, p: Q.Pass)
    requires s.tables == p.tables && Due(j, now, cfg) && Claimable(s.tables, j)
    ensures RowEnd(s, w, j, now, rest, cfg, outcome).tables == Q.Turn(p, j, now, cfg, outcome).tables
  {
    hide Deleted, Buried, Due, Rewritten, Claimable, Exhausted, Requeued;
  }

  /** What a turn on a claimed row logs. */
  lemma TurnLogged(p: Q.Pass, j: Job, now: int, cfg: Config, outcome: int -> Q.Outcome)
    requires Due(j, now, cfg) && Claimable(p.tables, j)
    ensures var p', handled := Q.Turn(p, j, now, cfg, outcome), j.job in cfg.handlers;
      && p'.succeeded == (if handled && outcome(j.id).Succeeds? then p.succeeded + [j.id] else p.succeeded)
      && p'.dropped == (if handled then p.dropped else p.dropped + [j.id])
      && p'.buried == if handled && outcome(j.id).Throws? && Exhausted(j, cfg)
           then p.buried + [Q.Burial(j.id, Failure(j.job, j.payload, outcome(j.id).error))] else p.buried
  {
    hide Deleted, Buried, Due, Rewritten, Claimable, Exhausted, Requeued;
  }

  lemma RowEndRecords(s: State, w: nat, j: Job, now: int, rest: seq<Job>, cfg: Config, outcome: int -> Q.Outcome)
    ensures var s', handled := RowEnd(s, w, j, now, rest, cfg, outcome), j.job in cfg.handlers;
      && s'.clock == s.clock && s'.pushed == s.pushed && s'.orphaned == s.orphaned
      && s'.workers == s.workers[w := Pass(now, rest, Scanning)]
      && s'.succeeded == (if handled && outcome(j.id).Succeeds? then s.succeeded + multiset{j.id} else s.succeeded)
      && s'.finished == (if handled && outcome(j.id).Succeeds? then s.finished + multiset{j.id} else s.finished)
      && s'.dropped == (if handled then s.dropped else s.dropped + {j.id})
      && s'.buried == if handled && outcome(j.id).Throws? && Exhausted(j, cfg) then s.buried + {j.id} else s.buried
  {
    hide Deleted, Buried, Due, Rewritten, Claimable, Exhausted, Requeued;
  }

  /** One more id on a record that has grown by what a pass logged. */
  lemma RecordGrows(before: multiset<int>, ids: seq<int>, id: int)
    ensures before + multiset(ids) + multiset{id} == before + multiset(ids + [id])
  {
    assert multiset(ids + [id]) == multiset(ids) + multiset{id};
  }

  lemma RecordsMove(s0: State, s: State, s': State, w: nat, j: Job, p: Q.Pass, p': Q.Pass,
                    returned: bool, dropped: bool, row: Option<Failure>)
    requires Since(s0, s, w, p) && s'.tables == p'.tables && w in s'.workers && s'.workers == s.workers[w := s'.workers[w]]
    requires s'.clock == s.clock && s'.pushed == s.pushed && s'.orphaned == s.orphaned
    requires s'.succeeded == if returned then s.succeeded + multiset{j.id} else s.succeeded
    requires s'.finished == if returned then s.finished + multiset{j.id} else s.finished
    requires s'.dropped == if dropped then s.dropped + {j.id} else s.dropped
    requires s'.buried == if row.Some? then s.buried + {j.id} else s.buried
    requires p'.succeeded == if returned then p.succeeded + [j.id] else p.succeeded
    requires p'.dropped == if dropped then p.dropped + [j.id] else p.dropped
    requires p'.buried == if row.Some? then p.buried + [Q.Burial(j.id, row.value)] else p.buried
    ensures Since(s0, s', w, p')
  {
    hide IdSet, Members;
    RecordGrows(s0.succeeded, p.succeeded, j.id);
    RecordGrows(s0.finished, p.succeeded, j.id);
    MemberAdds(p.dropped, j.id);
    if row.Some? { BurialAdds(p.buried, Q.Burial(j.id, row.value)); }
  }

  lemma RowEndStands(s0: State, s: State, w: nat, j: Job, now: int, rest: seq<Job>, cfg: Config, outcome: int -> Q.Outcome, p: Q.Pass)
    requires Stands(s0, s, w, now, [j] + rest, p) && Due(j, now, cfg) && Claimable(s.tables, j)
    ensures Stands(s0, RowEnd(s, w, j, now, rest, cfg, outcome), w, now, rest, Q.Turn(p, j, now, cfg, outcome))
  {
    hide Since, RowEnd, Q.Turn, Due, Claimable, Exhausted;
    SinceTables(s0, s, w, p);
    RowEndTables(s, w, j, now, rest, cfg, outcome, p);
    RowEndRecords(s, w, j, now, rest, cfg, outcome);
    TurnLogged(p, j, now, cfg, outcome);
    var handled := j.job in cfg.handlers;
    var row := if handled && outcome(j.id).Throws? && Exhausted(j, cfg)
      then Some(Failure(j.job, j.payload, outcome(j.id).error)) else None;
    RecordsMove(s0, s, RowEnd(s, w, j, now, rest, cfg, outcome), w, j, p, Q.Turn(p, j, now, cfg, outcome),
                handled && outcome(j.id).Succeeds?, !handled, row);
  }

  lemma SinceTables(s0: State, s: State, w: nat, p: Q.Pass)
    requires Since(s0, s, w, p)
    ensures s.tables == p.tables
  {}

  lemma MemberAdds(ids: seq<int>, id: int)
    ensures Members(ids + [id]) == Members(ids) + {id}
  {
    assert forall x <- ids :: x in ids + [id];
    assert id in ids + [id];
  }

  lemma BurialAdds(bs: seq<Q.Burial>, b: Q.Burial)
    ensures IdSet(bs + [b]) == IdSet(bs) + {b.id}
  {
    assert forall x <- bs :: x in bs + [b];
    assert b in bs + [b];
  }

  lemma ClaimedSteps(s: State, w: nat, j: Job, now: int, rest: seq<Job>, cfg: Config, outcome: int -> Q.Outcome)
    requires At(s, w) == Pass(now, [j] + rest, Scanning) && Due(j, now, cfg) && Claimable(s.tables, j)
    ensures Exec(s, RowSteps(s.tables, w, j, now, cfg, outcome), cfg) == Some(RowEnd(s, w, j, now, rest, cfg, outcome))
  {
    hide DropId, JobIndex, RowOf, Due, Rewritten, Claimable, Exec, Exhausted, Requeued;
    assert ([j] + rest)[0] == j && ([j] + rest)[1..] == rest;
    var s1 := Step(s, Claim(w), cfg).value;
    Exec1(s, Claim(w), cfg);
    if j.job !in cfg.handlers {
      Exec1(s1, Write(w), cfg);
      ExecAppend(s, [Claim(w)], [Write(w)], cfg);
      assert [Claim(w)] + [Write(w)] == [Claim(w), Write(w)];
      SameWorker(s, w, s1.workers[w], Pass(now, rest, Scanning));
    } else {
      var a := if outcome(j.id).Succeeds? then Return(w) else Throw(w, outcome(j.id).error);
      var s2 := Step(s1, a, cfg).value;
      var s3 := Step(s2, Write(w), cfg).value;
      Exec1(s1, a, cfg);
      Exec1(s2, Write(w), cfg);
      Exec1(s3, Write(w), cfg);
      ExecAppend(s, [Claim(w)], [a], cfg);
      ExecAppend(s, [Claim(w)] + [a], [Write(w)], cfg);
      ExecAppend(s, [Claim(w)] + [a] + [Write(w)], [Write(w)], cfg);
      assert [Claim(w)] + [a] + [Write(w)] == [Claim(w), a, Write(w)];
      assert [Claim(w), a, Write(w)] + [] == [Claim(w), a, Write(w)];
      SameWorker(s, w, s1.workers[w], s2.workers[w]);
      SameWorker(s, w, s2.workers[w], s3.workers[w]);
      SameWorker(s, w, s3.workers[w], Pass(now, rest, Scanning));
    }
  }

  lemma SameWorker(s: State, w: nat, a: Worker, b: Worker)
    ensures s.workers[w := a][w := b] == s.workers[w := b]
  {}

  lemma {:induction false} RowsAreSteps(s: State, w: nat, rows: seq<Job>, rest: seq<Job>, now: int, cfg: Config,
                                        outcome: int -> Q.Outcome, t: Tables) returns (acts: seq<Action>)
    requires Stands(s, s, w, now, rows + rest, Q.Start(t))
    ensures var s' := Exec(s, acts, cfg);
      s'.Some? && Stands(s, s'.value, w, now, rest, Q.Turns(t, rows, now, cfg, outcome))
    decreases |rows|
  {
    hide Q.Turn, Exec, RowSteps, Step, Since, Q.Start;
    acts := [];
    if rows == [] {
      ExecNone(s, cfg);
      assert rows + rest == rest;
    } else {
      var init, j := rows[..|rows| - 1], rows[|rows| - 1];
      assert rows + rest == init + ([j] + rest);
      var first := RowsAreSteps(s, w, init, [j] + rest, now, cfg, outcome, t);
      var mid := Exec(s, first, cfg).value;
      RowIsSteps(s, mid, w, j, now, rest, cfg, outcome, Q.Turns(t, init, now, cfg, outcome));
      acts := first + RowSteps(mid.tables, w, j, now, cfg, outcome);
      ExecAppend(s, first, RowSteps(mid.tables, w, j, now, cfg, outcome), cfg);
    }
  }

  lemma ExecNone(s: State, cfg: Config)
    ensures Exec(s, [], cfg) == Some(s)
  {}

  /** Every sequential pass is a run of the protocol: from any state where worker `w` is idle,
      its own steps alone lead from the tables before `Work` to the tables after it, and the
      protocol's records grow by exactly the ids the pass ran to success, dropped and buried. */
  lemma PassIsRun(s: State, w: nat, now: int, cfg: Config, outcome: int -> Q.Outcome) returns (acts: seq<Action>)
    requires At(s, w).Idle?
    ensures var s' := Exec(s, acts, cfg);
      s'.Some? && Since(s, s'.value, w, Q.Worked(s.tables, now, cfg, outcome)) && At(s'.value, w).Idle?
  {
    hide Q.Turns, Exec, IdSet;
    var s1 := Step(s, Begin(w, now), cfg).value;
    assert s.tables.jobs + [] == s.tables.jobs;
    StartsHere(s1, w, now, s.tables.jobs);
    var middle := RowsAreSteps(s1, w, s.tables.jobs, [], now, cfg, outcome, s.tables);
    var s2 := Exec(s1, middle, cfg).value;
    Exec1(s, Begin(w, now), cfg);
    Exec1(s2, End(w), cfg);
    ExecAppend(s, [Begin(w, now)], middle, cfg);
    ExecAppend(s, [Begin(w, now)] + middle, [End(w)], cfg);
    acts := [Begin(w, now)] + middle + [End(w)];
    SinceBegin(s, s1, s2, w, Q.Worked(s.tables, now, cfg, outcome));
  }

  /** Beginning and ending a pass changes nothing but the worker. */
  lemma SinceBegin(s: State, s1: State, s2: State, w: nat, p: Q.Pass)
    requires Since(s1, s2, w, p) && s1 == s.(workers := s1.workers) && forall v :: v != w ==> At(s1, v) == At(s, v)
    ensures Since(s, Put(s2, w, Idle), w, p)
  {}

  lemma StartsHere(s: State, w: nat, now: int, jobs: seq<Job>)
    requires At(s, w) == Pass(now, jobs, Scanning)
    ensures Stands(s, s, w, now, jobs, Q.Start(s.tables))
  {
    assert IdSet([]) == {} && Members([]) == {};
  }
}
