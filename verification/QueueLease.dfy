/** How long a pass may last: the exact bound under which claims of the database queue
    (include/db_queue.hpp) exclude each other, and the run that breaks it. */
module QueueLease {
  import opened Wrappers
  import opened Jobs
  import opened QueueProtocol
  import opened QueueSafety

  /** Every running pass started at a positive time that is not in the future, at most `limit`
      seconds ago. */
  ghost predicate Within(s: State, limit: int) {
    forall w :: At(s, w).Pass? ==> 0 < At(s, w).now <= s.clock <= At(s, w).now + limit
  }

  ghost predicate AllWithin(run: seq<State>, n: nat, limit: int)
    requires n <= |run|
  {
    forall i :: 0 <= i < n ==> Within(run[i], limit)
  }

  /** In every run whose passes have so far lasted at most `limit` seconds, no two workers hold
      one job. */
  ghost predicate Excludes(cfg: Config, limit: int) {
    forall run, acts, n: nat ::
      Behaviour(run, acts, cfg) && n < |run| && AllWithin(run, n, limit) ==> Exclusive(run[n])
  }

  /** The lease of a claim, counted from the start of the pass that made it. */
  function Lease(cfg: Config): int {
    if cfg.retryAfter > 0 then cfg.retryAfter else 0
  }

  // ---- a run at the lease ----

  const MAIL := Job(1, "mail", "", 0, 0, 0)

  function Holding(j: Job, now: int, cfg: Config): Worker {
    Pass(now, [], if j.job in cfg.handlers then Running(j) else Dropping(j))
  }

  /** Worker 0 starts its pass at second 1 and claims at the end of its lease; worker 1 starts
      then. */
  function LongActs(cfg: Config): seq<Action> {
    [Push("mail", "", 0), Tick(1), Begin(0, 1), Tick(1 + Lease(cfg)), Claim(0), Begin(1, 1 + Lease(cfg)), Claim(1)]
  }

  function LongRun(cfg: Config): seq<State> {
    var t := 1 + Lease(cfg);
    var first := Holding(MAIL, 1, cfg);
    var s1 := INITIAL.(tables := Tables([MAIL], 1, []), pushed := map[1 := ("mail", "")]);
    var s2 := s1.(clock := 1);
    var s3 := s2.(workers := map[0 := Pass(1, [MAIL], Scanning)]);
    var s4 := s3.(clock := t);
    var s5 := s4.(tables := Tables([Claimed(MAIL, 1)], 1, []), workers := map[0 := first]);
    var s6 := s5.(workers := map[0 := first, 1 := Pass(t, [Claimed(MAIL, 1)], Scanning)]);
    var s7 := s6.(tables := Tables([Claimed(MAIL, t)], 1, []),
                  workers := map[0 := first, 1 := Holding(Claimed(MAIL, 1), t, cfg)]);
    [INITIAL, s1, s2, s3, s4, s5, s6, s7]
  }

  lemma LongRunClaims(cfg: Config, run: seq<State>)
    requires run == LongRun(cfg)
    ensures Step(run[0], Push("mail", "", 0), cfg) == Some(run[1])
    ensures Step(run[1], Tick(1), cfg) == Some(run[2])
    ensures Step(run[2], Begin(0, 1), cfg) == Some(run[3])
    ensures Step(run[3], Tick(1 + Lease(cfg)), cfg) == Some(run[4])
    ensures Step(run[4], Claim(0), cfg) == Some(run[5])
  {
    assert [] + [MAIL] == [MAIL] && Pushed(run[0].tables, "mail", "", 0) == run[1].tables;
    assert [MAIL][1..] == [] && [MAIL][0 := Claimed(MAIL, 1)] == [Claimed(MAIL, 1)];
    assert Due(MAIL, 1, cfg) && Claimable(run[4].tables, MAIL) && Rewritten(run[4].tables, Claimed(MAIL, 1)) == run[5].tables;
    assert run[4].workers[0 := Holding(MAIL, 1, cfg)] == run[5].workers;
  }

  lemma LongRunReclaims(cfg: Config, run: seq<State>)
    requires run == LongRun(cfg)
    ensures Step(run[5], Begin(1, 1 + Lease(cfg)), cfg) == Some(run[6])
    ensures Step(run[6], Claim(1), cfg) == Some(run[7])
  {
    var seen, t := Claimed(MAIL, 1), 1 + Lease(cfg);
    assert [seen][1..] == [] && [seen][0 := Claimed(MAIL, t)] == [Claimed(MAIL, t)];
    assert Due(seen, t, cfg) && Claimable(run[6].tables, seen) && Rewritten(run[6].tables, Claimed(seen, t)) == run[7].tables;
    assert run[6].workers[1 := Holding(seen, t, cfg)] == run[7].workers;
  }

  /** The lease runs from the start of the pass, not from the claim: under every configuration
      there is a run without crashes, whose passes all last at most the lease, in which worker 1
      takes over the job in the very second worker 0 claimed it. */
  lemma LeaseRunsFromPassStart(cfg: Config)
    ensures var run, acts := LongRun(cfg), LongActs(cfg);
      && Behaviour(run, acts, cfg)
      && (forall i :: 0 <= i < |acts| ==> !acts[i].Crash?)
      && AllWithin(run, |run|, Lease(cfg))
      && run[4].clock == run[7].clock && Held(At(run[4], 0)).None?
      && Held(At(run[7], 0)).Some? && Held(At(run[7], 1)).Some?
      && Held(At(run[7], 0)).value.id == Held(At(run[7], 1)).value.id
  {
    LongRunClaims(cfg, LongRun(cfg));
    LongRunReclaims(cfg, LongRun(cfg));
    hide Step;
  }

  /** Mutual exclusion holds exactly for passes shorter than the lease: for every configuration
      and every bound on how long passes last. */
  lemma ExclusionIsExact(cfg: Config, limit: int)
    ensures Excludes(cfg, limit) <==> limit < Lease(cfg)
  {
    hide Behaviour, Exclusive, Step, Within, Timely;
    if limit < Lease(cfg) {
      forall run, acts, n: nat | Behaviour(run, acts, cfg) && n < |run| && AllWithin(run, n, limit)
        ensures Exclusive(run[n])
      {
        forall i | 0 <= i < n ensures Timely(run[i], cfg) { ShortIsTimely(run[i], limit, cfg); }
        SafeHolds(run, acts, cfg, n);
      }
    } else {
      LeaseRunsFromPassStart(cfg);
      var run := LongRun(cfg);
      forall i | 0 <= i < 7 ensures Within(run[i], limit) { WithinMore(run[i], Lease(cfg), limit); }
      assert AllWithin(run, 7, limit);
      SharedIsNotExclusive(run[7]);
      assert Behaviour(run, LongActs(cfg), cfg);
    }
  }

  lemma ShortIsTimely(s: State, limit: int, cfg: Config)
    requires Within(s, limit) && limit < Lease(cfg)
    ensures Timely(s, cfg)
  {}

  lemma WithinMore(s: State, limit: int, more: int)
    requires Within(s, limit) && limit <= more
    ensures Within(s, more)
  {}

  lemma SharedIsNotExclusive(s: State)
    requires Held(At(s, 0)).Some? && Held(At(s, 1)).Some? && Held(At(s, 0)).value.id == Held(At(s, 1)).value.id
    ensures !Exclusive(s)
  {}
}
