/** The scheduler of include/scheduler.hpp: cadences, stamps held in a map or in a table, and runs of
    ticks over restarts and throwing tasks. */
module Scheduler {
  import opened Wrappers
  import opened Database
  import Numbers
  import Strings

  /** When a task is due. The trigger of a daily task is `today_at`: the second at which its hour
      and minute fall on the day of `now`. */
  datatype Cadence = Every(secs: int) | DailyAt(trigger: int -> int)

  datatype Task = Task(name: string, cadence: Cadence)

  predicate Due(c: Cadence, now: int, last: int) {
    match c
    case Every(secs) => last == 0 || now - last >= secs
    case DailyAt(trigger) => now >= trigger(now) && last < trigger(now)
  }

  // ---- the time of a daily task ----

  /** `std::atoi`. */
  function Atoi(s: string): int {
    var n := Numbers.ParseInt(s, Numbers.INT_MIN, Numbers.INT_MAX);
    if n.None? then 0 else n.value
  }

  /** `parse_hhmm`. */
  method ParseClock(s: string) returns (hour: int, minute: int)
    ensures (hour, minute) == ClockOf(s)
  {
    hour, minute := 0, 0;
    var colon := Strings.Find(s, ":", 0);
    if colon.None? { return; }
    hour := Atoi(s[..colon.value]);
    minute := Atoi(s[colon.value + 1..]);
  }

  function ClockOf(s: string): (int, int) {
    var colon := Strings.Find(s, ":", 0);
    if colon.None? then (0, 0) else (Atoi(s[..colon.value]), Atoi(s[colon.value + 1..]))
  }

  /** An hour or a minute as a schedule writes it, with its leading zero. */
  function TwoDigits(n: nat): string
    requires n < 100
  {
    [Numbers.DigitChar(n / 10), Numbers.DigitChar(n % 10)]
  }

  lemma TwoDigitsValue(n: nat)
    requires n < 100
    ensures Numbers.AllDigits(TwoDigits(n)) && Numbers.NatOf(TwoDigits(n)) == n
  {
    var s := TwoDigits(n);
    assert s[..1] == [Numbers.DigitChar(n / 10)] && s[..1][..0] == "";
    assert Numbers.NatOf(s[..1]) == n / 10;
  }

  lemma NoColon(digits: string)
    requires Numbers.AllDigits(digits)
    ensures ':' !in digits
  {
    forall k | 0 <= k < |digits| ensures digits[k] != ':' {
      assert Numbers.IsDigit(digits[k]);
    }
  }

  /** Any digits before and behind the first colon are the hour and the minute. */
  lemma DigitsReadBack(hour: string, minute: string)
    requires Numbers.AllDigits(hour) && hour != "" && Numbers.NatOf(hour) <= Numbers.INT_MAX
    requires Numbers.AllDigits(minute) && minute != "" && Numbers.NatOf(minute) <= Numbers.INT_MAX
    ensures ClockOf(hour + ":" + minute) == (Numbers.NatOf(hour), Numbers.NatOf(minute))
  {
    hide Numbers.NatOf, Numbers.ParseInt, Strings.Find;
    NoColon(hour);
    ColonAt(hour, minute);
    Numbers.ParseIntOfDigits(hour, Numbers.INT_MIN, Numbers.INT_MAX);
    Numbers.ParseIntOfDigits(minute, Numbers.INT_MIN, Numbers.INT_MAX);
    assert (hour + ":" + minute)[..|hour|] == hour && (hour + ":" + minute)[|hour| + 1..] == minute;
  }

  /** Every time of the form HH:MM is read back. */
  lemma ClockReadsBack(hour: nat, minute: nat)
    requires hour < 100 && minute < 100
    ensures ClockOf(TwoDigits(hour) + ":" + TwoDigits(minute)) == (hour, minute)
  {
    hide TwoDigits;
    TwoDigitsValue(hour);
    TwoDigitsValue(minute);
    TwoDigitsLength(hour);
    TwoDigitsLength(minute);
    DigitsReadBack(TwoDigits(hour), TwoDigits(minute));
  }

  lemma TwoDigitsLength(n: nat)
    requires n < 100
    ensures TwoDigits(n) != ""
  {}

  /** A text without a colon is midnight, whatever it is; so an hour written alone is read as that
      hour, as the comment beside the code has it for "03", exactly when it is hour 0. */
  lemma BareHourIsMidnight(s: string)
    requires ':' !in s
    ensures ClockOf(s) == (0, 0)
    ensures Numbers.AllDigits(s) ==> (ClockOf(s) == (Numbers.NatOf(s), 0) <==> Numbers.NatOf(s) == 0)
  {
    hide Strings.Find, Numbers.NatOf;
    NoneWithout(s);
  }

  lemma ThreeIsMidnight()
    ensures ClockOf("03") == (0, 0) && TwoDigits(3) == "03"
  {
    BareHourIsMidnight("03");
  }

  lemma ColonAt(a: string, b: string)
    requires ':' !in a
    ensures Strings.Find(a + ":" + b, ":", 0) == Some(|a|)
  {
    var s := a + ":" + b;
    assert s[|a|..|a| + 1] == ":";
    forall j | 0 <= j < |a| ensures !Strings.At(s, j, ":") {
      assert s[j] == a[j] && s[j] in a;
      Strings.NotAt(s, j, ":", 0);
    }
    Strings.FindAt(s, ":", 0, |a|);
  }

  lemma NoneWithout(a: string)
    requires ':' !in a
    ensures Strings.Find(a, ":", 0) == None
  {
    forall j | 0 <= j < |a| ensures !Strings.At(a, j, ":") {
      assert a[j] in a;
      Strings.NotAt(a, j, ":", 0);
    }
  }

  // ---- one tick, over a map of stamps ----

  type Stamps = map<string, int>

  function LastOf(m: Stamps, name: string): int {
    if name in m then m[name] else 0
  }

  /** What a tick does: the stamps it leaves, the tasks it starts in order, and whether one threw. */
  datatype Tick = Tick(stamps: Stamps, fired: seq<string>, threw: bool)

  function Ticked(tasks: seq<Task>, m: Stamps, now: int, throws: set<string>): Tick {
    if tasks == [] then Tick(m, [], false)
    else
      var t := tasks[0];
      if !Due(t.cadence, now, LastOf(m, t.name)) then Ticked(tasks[1..], m, now, throws)
      else if t.name in throws then Tick(m[t.name := now], [t.name], true)
      else
        var rest := Ticked(tasks[1..], m[t.name := now], now, throws);
        rest.(fired := [t.name] + rest.fired)
  }

  lemma TickedTurn(tasks: seq<Task>, m: Stamps, now: int, throws: set<string>)
    ensures Ticked(tasks, m, now, throws) ==
      if tasks == [] then Tick(m, [], false)
      else
        var t := tasks[0];
        if !Due(t.cadence, now, LastOf(m, t.name)) then Ticked(tasks[1..], m, now, throws)
        else if t.name in throws then Tick(m[t.name := now], [t.name], true)
        else
          var rest := Ticked(tasks[1..], m[t.name := now], now, throws);
          rest.(fired := [t.name] + rest.fired)
  {}

  /** The tasks due at a tick, by the stamps it begins with. */
  function DueNames(tasks: seq<Task>, m: Stamps, now: int): seq<string> {
    if tasks == [] then []
    else (if Due(tasks[0].cadence, now, LastOf(m, tasks[0].name)) then [tasks[0].name] else []) + DueNames(tasks[1..], m, now)
  }

  /** The names up to and including the first that throws. */
  function UpToThrow(names: seq<string>, throws: set<string>): seq<string> {
    if names == [] then [] else [names[0]] + if names[0] in throws then [] else UpToThrow(names[1..], throws)
  }

  predicate DistinctNames(tasks: seq<Task>) {
    forall i, j :: 0 <= i < j < |tasks| ==> tasks[i].name != tasks[j].name
  }

  lemma {:induction false} DueUnmoved(tasks: seq<Task>, m: Stamps, now: int, name: string)
    requires forall t <- tasks :: t.name != name
    ensures DueNames(tasks, m[name := now], now) == DueNames(tasks, m, now)
  {
    if tasks != [] {
      assert tasks[0] in tasks;
      DueUnmoved(tasks[1..], m, now, name);
    }
  }

  /** A tick starts exactly the due tasks, in order, up to the first that throws, and stamps
      exactly those it starts, the one that threw included. */
  lemma {:induction false} TickFires(tasks: seq<Task>, m: Stamps, now: int, throws: set<string>)
    requires DistinctNames(tasks)
    ensures var r := Ticked(tasks, m, now, throws);
      && r.fired == UpToThrow(DueNames(tasks, m, now), throws)
      && r.threw == (exists name <- r.fired :: name in throws)
      && forall name :: LastOf(r.stamps, name) == if name in r.fired then now else LastOf(m, name)
  {
    if tasks != [] {
      var t := tasks[0];
      if Due(t.cadence, now, LastOf(m, t.name)) {
        TickFires(tasks[1..], m[t.name := now], now, throws);
        DueUnmoved(tasks[1..], m, now, t.name);
        assert (([t.name] + DueNames(tasks[1..], m, now)))[1..] == DueNames(tasks[1..], m, now);
        assert Ticked(tasks, m, now, throws).fired[0] == t.name;
      } else {
        TickFires(tasks[1..], m, now, throws);
        assert [] + DueNames(tasks[1..], m, now) == DueNames(tasks[1..], m, now);
      }
    }
  }

  /** A tick comes to task `k` unless an earlier task it started threw. */
  predicate Reached(tasks: seq<Task>, k: nat, r: Tick, throws: set<string>)
    requires k < |tasks|
  {
    forall i :: 0 <= i < k && tasks[i].name in r.fired ==> tasks[i].name !in throws
  }

  lemma FiredAreTasks(tasks: seq<Task>, m: Stamps, now: int, throws: set<string>, name: string)
    requires name in Ticked(tasks, m, now, throws).fired
    ensures exists t <- tasks :: t.name == name
  {
    hide Due;
    if tasks != [] {
      var t := tasks[0];
      if Due(t.cadence, now, LastOf(m, t.name)) {
        if t.name == name { assert t in tasks; }
        if t.name != name && t.name !in throws { FiredAreTasks(tasks[1..], m[t.name := now], now, throws, name); }
      } else {
        FiredAreTasks(tasks[1..], m, now, throws, name);
      }
    }
  }

  /** What makes a task start, spelled out for each cadence. A tick that comes to an `every` task
      starts it if and only if it was never run or its interval has passed since its stamp; one that
      comes to a daily task starts it if and only if the trigger has passed and the stamp is older. */
  lemma {:induction false} StartsWhen(tasks: seq<Task>, m: Stamps, now: int, throws: set<string>, k: nat)
    requires DistinctNames(tasks) && k < |tasks|
    requires Reached(tasks, k, Ticked(tasks, m, now, throws), throws)
    ensures var t, last := tasks[k], LastOf(m, tasks[k].name);
      t.name in Ticked(tasks, m, now, throws).fired <==>
        if t.cadence.Every? then last == 0 || now - last >= t.cadence.secs
        else last < t.cadence.trigger(now) <= now
    decreases |tasks|
  {
    var t, r := tasks[0], Ticked(tasks, m, now, throws);
    var due := Due(t.cadence, now, LastOf(m, t.name));
    var m' := if due then m[t.name := now] else m;
    if k > 0 {
      var rest := Ticked(tasks[1..], m', now, throws);
      if due {
        assert r.fired[0] == t.name;
        assert t.name !in throws;
        assert r.fired == [t.name] + rest.fired;
      }
      forall i | 0 <= i < k - 1 && tasks[1..][i].name in rest.fired ensures tasks[1..][i].name !in throws {
        assert tasks[i + 1].name in r.fired;
      }
      assert tasks[1..][k - 1] == tasks[k];
      StartsWhen(tasks[1..], m', now, throws, k - 1);
    } else if !due && t.name in r.fired {
      FiredAreTasks(tasks[1..], m, now, throws, t.name);
    }
  }

  // ---- runs of ticks ----

  /** One call of `run_pending`, by whatever process: its tasks, its time and the tasks that throw. */
  datatype Call = Call(tasks: seq<Task>, now: int, throws: set<string>)

  datatype Firing = Firing(name: string, at: int)

  function Firings(names: seq<string>, at: int): seq<Firing> {
    seq(|names|, k requires 0 <= k < |names| => Firing(names[k], at))
  }

  /** The stamps and the firings after a run of calls; the stamps outlive the processes. */
  function After(calls: seq<Call>, m: Stamps): (Stamps, seq<Firing>) {
    if calls == [] then (m, [])
    else
      var (before, log) := After(calls[..|calls| - 1], m);
      var c := calls[|calls| - 1];
      var r := Ticked(c.tasks, before, c.now, c.throws);
      (r.stamps, log + Firings(r.fired, c.now))
  }

  predicate Positive(calls: seq<Call>) {
    && (forall i :: 0 <= i < |calls| ==> calls[i].now > 0)
    && (forall i, j :: 0 <= i <= j < |calls| ==> calls[i].now <= calls[j].now)
  }

  /** Wherever the task is registered under this name, it has this cadence. */
  ghost predicate Registered(calls: seq<Call>, name: string, c: Cadence) {
    forall call <- calls, t <- call.tasks :: t.name == name ==> t.cadence == c
  }

  /** What a cadence promises of two firings, `a` before `b`. */
  predicate Apart(c: Cadence, a: int, b: int) {
    match c
    case Every(secs) => b - a >= secs
    case DailyAt(trigger) => a < trigger(b) <= b
  }

  predicate OnTime(c: Cadence, a: int) {
    c.DailyAt? ==> c.trigger(a) <= a
  }

  ghost predicate Spaced(log: seq<Firing>, name: string, c: Cadence) {
    && (forall i :: 0 <= i < |log| && log[i].name == name ==> OnTime(c, log[i].at))
    && (forall i, j :: 0 <= i < j < |log| && log[i].name == name && log[j].name == name ==> Apart(c, log[i].at, log[j].at))
  }

  /** No firing of the task is later than its stamp. */
  predicate Stamped(log: seq<Firing>, name: string, m: Stamps) {
    forall f <- log :: f.name == name ==> 0 < f.at <= LastOf(m, name)
  }

  lemma FiredOnce(log: seq<Firing>, m: Stamps, now: int, name: string, c: Cadence)
    requires Spaced(log, name, c) && Stamped(log, name, m) && LastOf(m, name) <= now && now > 0
    requires Due(c, now, LastOf(m, name))
    ensures Spaced(log + [Firing(name, now)], name, c)
    ensures Stamped(log + [Firing(name, now)], name, m[name := now])
  {
    forall i | 0 <= i < |log| && log[i].name == name ensures Apart(c, log[i].at, now) {
      assert log[i] in log;
    }
  }

  lemma FiredOther(log: seq<Firing>, m: Stamps, now: int, name: string, c: Cadence, other: string)
    requires Spaced(log, name, c) && Stamped(log, name, m) && other != name
    ensures Spaced(log + [Firing(other, now)], name, c)
    ensures Stamped(log + [Firing(other, now)], name, m[other := now])
  {}

  lemma {:induction false} TickSpaced(tasks: seq<Task>, m: Stamps, now: int, throws: set<string>,
                                      log: seq<Firing>, name: string, c: Cadence)
    requires Spaced(log, name, c) && Stamped(log, name, m) && LastOf(m, name) <= now && now > 0
    requires forall t <- tasks :: t.name == name ==> t.cadence == c
    ensures var r := Ticked(tasks, m, now, throws);
      && Spaced(log + Firings(r.fired, now), name, c)
      && Stamped(log + Firings(r.fired, now), name, r.stamps)
      && LastOf(r.stamps, name) <= now
  {
    hide Spaced, Stamped, Due;
    var r := Ticked(tasks, m, now, throws);
    if tasks == [] {
      assert log + Firings([], now) == log;
    } else {
      var t := tasks[0];
      assert t in tasks;
      if !Due(t.cadence, now, LastOf(m, t.name)) {
        TickSpaced(tasks[1..], m, now, throws, log, name, c);
      } else {
        var next := log + [Firing(t.name, now)];
        if t.name == name { FiredOnce(log, m, now, name, c); } else { FiredOther(log, m, now, name, c, t.name); }
        if t.name in throws {
          assert Firings([t.name], now) == [Firing(t.name, now)];
        } else {
          TickSpaced(tasks[1..], m[t.name := now], now, throws, next, name, c);
          var rest := Ticked(tasks[1..], m[t.name := now], now, throws).fired;
          assert log + Firings([t.name] + rest, now) == next + Firings(rest, now);
        }
      }
    }
  }

  lemma {:induction false} RunSpaced(calls: seq<Call>, m: Stamps, name: string, c: Cadence)
    requires Positive(calls) && Registered(calls, name, c)
    requires calls != [] ==> LastOf(m, name) <= calls[0].now
    ensures var (stamps, log) := After(calls, m);
      && Spaced(log, name, c) && Stamped(log, name, stamps)
      && LastOf(stamps, name) <= if calls == [] then LastOf(m, name) else calls[|calls| - 1].now
  {
    hide Spaced, Stamped, Ticked;
    if calls == [] {
      NothingFired(name, c, m);
    } else {
      var init, call := calls[..|calls| - 1], calls[|calls| - 1];
      assert call in calls && forall x <- init :: x in calls;
      RunSpaced(init, m, name, c);
      var (before, log) := After(init, m);
      TickSpaced(call.tasks, before, call.now, call.throws, log, name, c);
    }
  }

  lemma NothingFired(name: string, c: Cadence, m: Stamps)
    ensures Spaced([], name, c) && Stamped([], name, m)
  {}

  /** Over any run of ticks, restarts and throwing tasks, two firings of an `every` task are at
      least its interval apart. */
  lemma {:induction false} EverySpaced(calls: seq<Call>, m: Stamps, name: string, secs: int)
    requires Positive(calls) && Registered(calls, name, Every(secs))
    requires calls != [] ==> LastOf(m, name) <= calls[0].now
    ensures var log := After(calls, m).1;
      forall i, j :: 0 <= i < j < |log| && log[i].name == name && log[j].name == name ==> log[j].at - log[i].at >= secs
  {
    hide After;
    RunSpaced(calls, m, name, Every(secs));
  }

  /** A daily task whose trigger is fixed by the day fires at most once a day, and never before
      its trigger. */
  lemma {:induction false} DailyOnce(calls: seq<Call>, m: Stamps, name: string, trigger: int -> int, day: int -> int)
    requires Positive(calls) && Registered(calls, name, DailyAt(trigger))
    requires calls != [] ==> LastOf(m, name) <= calls[0].now
    requires forall a, b :: day(a) == day(b) ==> trigger(a) == trigger(b)
    ensures var log := After(calls, m).1;
      && (forall i :: 0 <= i < |log| && log[i].name == name ==> log[i].at >= trigger(log[i].at))
      && (forall i, j :: 0 <= i < j < |log| && log[i].name == name && log[j].name == name ==> day(log[i].at) != day(log[j].at))
  {
    hide After;
    RunSpaced(calls, m, name, DailyAt(trigger));
    var log := After(calls, m).1;
    forall i, j | 0 <= i < j < |log| && log[i].name == name && log[j].name == name
      ensures day(log[i].at) != day(log[j].at)
    {
      assert Apart(DailyAt(trigger), log[i].at, log[j].at) && OnTime(DailyAt(trigger), log[i].at);
      assert trigger(log[i].at) <= log[i].at < trigger(log[j].at);
    }
  }

  // ---- a task keeps firing ----

  /** When a task last fired in a run, or its stamp before the run. */
  function LastFiring(log: seq<Firing>, name: string, before: int): int {
    if log == [] then before
    else if log[|log| - 1].name == name then log[|log| - 1].at
    else LastFiring(log[..|log| - 1], name, before)
  }

  lemma {:induction false} FiringsLast(log: seq<Firing>, names: seq<string>, at: int, name: string, before: int)
    ensures LastFiring(log + Firings(names, at), name, before) == if name in names then at else LastFiring(log, name, before)
  {
    if names == [] {
      assert log + Firings([], at) == log;
    } else {
      var init, x := names[..|names| - 1], names[|names| - 1];
      var all := log + Firings(names, at);
      assert all[..|all| - 1] == log + Firings(init, at) && all[|all| - 1] == Firing(x, at);
      assert names == init + [x];
      FiringsLast(log, init, at, name, before);
    }
  }

  ghost predicate DistinctCalls(calls: seq<Call>) {
    forall c <- calls :: DistinctNames(c.tasks)
  }

  /** A task's stamp is the time it last fired. */
  lemma {:induction false} StampIsLastFiring(calls: seq<Call>, m: Stamps, name: string)
    requires DistinctCalls(calls)
    ensures var (stamps, log) := After(calls, m);
      LastOf(stamps, name) == LastFiring(log, name, LastOf(m, name))
  {
    hide Ticked, Firings, LastFiring;
    if calls == [] {
      NoFiring(name, LastOf(m, name));
    } else {
      var init, c := calls[..|calls| - 1], calls[|calls| - 1];
      assert c in calls && forall x <- init :: x in calls;
      StampIsLastFiring(init, m, name);
      var (before, log) := After(init, m);
      TickFires(c.tasks, before, c.now, c.throws);
      FiringsLast(log, Ticked(c.tasks, before, c.now, c.throws).fired, c.now, name, LastOf(m, name));
    }
  }

  lemma NoFiring(name: string, before: int)
    ensures LastFiring([], name, before) == before
  {}

  /** An `every` task keeps firing: after any run, a tick that comes to it starts it if and only if it
      never fired or its interval has passed since it last did. */
  lemma EveryFiresAgain(calls: seq<Call>, m: Stamps, c: Call, k: nat)
    requires DistinctCalls(calls) && DistinctNames(c.tasks) && k < |c.tasks| && c.tasks[k].cadence.Every?
    requires Reached(c.tasks, k, Ticked(c.tasks, After(calls, m).0, c.now, c.throws), c.throws)
    ensures var t, log := c.tasks[k], After(calls, m).1;
      var last := LastFiring(log, t.name, LastOf(m, t.name));
      t.name in Ticked(c.tasks, After(calls, m).0, c.now, c.throws).fired <==> last == 0 || c.now - last >= t.cadence.secs
  {
    hide Ticked, LastFiring, After;
    StampIsLastFiring(calls, m, c.tasks[k].name);
    StartsWhen(c.tasks, After(calls, m).0, c.now, c.throws, k);
  }

  /** A daily task fires every day: a tick that comes to it at or after the trigger starts it if it has
      not fired since the trigger. */
  lemma DailyFiresAgain(calls: seq<Call>, m: Stamps, c: Call, k: nat)
    requires DistinctCalls(calls) && DistinctNames(c.tasks) && k < |c.tasks| && c.tasks[k].cadence.DailyAt?
    requires Reached(c.tasks, k, Ticked(c.tasks, After(calls, m).0, c.now, c.throws), c.throws)
    ensures var t, log := c.tasks[k], After(calls, m).1;
      var last, trigger := LastFiring(log, t.name, LastOf(m, t.name)), t.cadence.trigger(c.now);
      t.name in Ticked(c.tasks, After(calls, m).0, c.now, c.throws).fired <==> last < trigger <= c.now
  {
    hide Ticked, LastFiring, After;
    StampIsLastFiring(calls, m, c.tasks[k].name);
    StartsWhen(c.tasks, After(calls, m).0, c.now, c.throws, k);
  }

  // ---- stamps kept in a table ----

  /** The query both stamp operations ask: the rows of one name. */
  function Named(name: string): seq<Where> {
    [Where("name", Eq, Str(name), [])]
  }

  predicate IsStamp(r: Row, name: string) {
    "name" in r && r["name"] == Str(name)
  }

  /** `last_run` of the row, 0 when it has none. */
  function StampIn(r: Row): int {
    if "last_run" in r then AsInt(r["last_run"]) else 0
  }

  function HeadStamp(r: Row): Stamps {
    if "name" in r && r["name"].Str? then map[r["name"].s := StampIn(r)] else map[]
  }

  /** The stamps a table holds: per name, those of its first row. */
  function StampsOf(rows: seq<Row>): Stamps {
    if rows == [] then map[]
    else StampsOf(rows[1..]) + HeadStamp(rows[0])
  }

  /** At most one row per name. */
  predicate OneEach(rows: seq<Row>) {
    forall i, j :: 0 <= i < j < |rows| && "name" in rows[i] && "name" in rows[j] ==> rows[i]["name"] != rows[j]["name"]
  }

  lemma NamedKept(r: Row, name: string)
    ensures Kept(r, Named(name)) <==> IsStamp(r, name)
  {
    var w := Where("name", Eq, Str(name), []);
    assert w in Named(name);
  }

  /** The rows of a name are those the query finds; the first of them carries the stamp. */
  lemma {:induction false} FirstNamed(rows: seq<Row>, name: string)
    ensures var found := Filter(rows, Named(name));
      if found == [] then name !in StampsOf(rows) && forall r <- rows :: !IsStamp(r, name)
      else name in StampsOf(rows) && StampsOf(rows)[name] == StampIn(found[0]) && IsStamp(found[0], name) && found[0] in rows
  {
    hide Kept, Named;
    if rows != [] {
      NamedKept(rows[0], name);
      FirstNamed(rows[1..], name);
      assert rows == [rows[0]] + rows[1..];
      assert [] + Filter(rows[1..], Named(name)) == Filter(rows[1..], Named(name));
    }
  }

  lemma {:induction false} AppendedStamp(rows: seq<Row>, r: Row, name: string)
    requires IsStamp(r, name) && name !in StampsOf(rows)
    ensures StampsOf(rows + [r]) == StampsOf(rows)[name := StampIn(r)]
  {
    hide *;
    StampsCons(rows);
    StampsCons(rows + [r]);
    HeadStampIs(r, name);
    if rows == [] {
      assert rows + [r] == [r] && [r][1..] == [];
      StampsCons([]);
    } else {
      assert (rows + [r])[1..] == rows[1..] + [r];
      AppendedStamp(rows[1..], r, name);
    }
  }

  lemma StampsCons(rows: seq<Row>)
    ensures StampsOf(rows) == if rows == [] then map[] else StampsOf(rows[1..]) + HeadStamp(rows[0])
  {}

  lemma HeadStampIs(r: Row, name: string)
    requires IsStamp(r, name)
    ensures HeadStamp(r) == map[name := StampIn(r)]
  {}

  lemma {:induction false} ReplacedStamp(rows: seq<Row>, k: nat, r: Row, name: string)
    requires k < |rows| && IsStamp(rows[k], name) && IsStamp(r, name) && OneEach(rows)
    ensures StampsOf(rows[k := r]) == StampsOf(rows)[name := StampIn(r)]
  {
    hide StampsOf, HeadStamp, StampIn;
    StampsCons(rows);
    StampsCons(rows[k := r]);
    if k == 0 {
      assert rows[0 := r][1..] == rows[1..];
      HeadStampIs(rows[0], name);
      HeadStampIs(r, name);
    } else {
      assert rows[k := r][1..] == rows[1..][k - 1 := r];
      assert OneEach(rows[1..]);
      ReplacedStamp(rows[1..], k - 1, r, name);
      OtherHeadStamp(rows[0], name);
    }
  }

  lemma OtherHeadStamp(r: Row, name: string)
    requires !IsStamp(r, name)
    ensures name !in HeadStamp(r)
  {}

  /** Recording a run of a name: its row is rewritten, or one is added. */
  function Recorded(st: Store, table: string, name: string, now: int): Store {
    var found := Filter(RowsIn(st, table), Named(name));
    if found == [] then Inserted(st, table, map["name" := Str(name), "last_run" := Int(now)])
    else if "id" in found[0] then Updated(st, table, AsInt(found[0]["id"]), found[0]["last_run" := Int(now)]).0
    else st
  }

  ghost predicate Keeps(st: Store, table: string) {
    ValidStore(st) && OneEach(RowsIn(st, table))
  }

  /** The table stays one row per name and holds exactly what the map would hold; other tables
      are not touched. */
  lemma RecordedAgrees(st: Store, table: string, name: string, now: int)
    requires Keeps(st, table)
    ensures var after := Recorded(st, table, name, now);
      && Keeps(after, table)
      && StampsOf(RowsIn(after, table)) == StampsOf(RowsIn(st, table))[name := now]
      && forall other | other != table :: RowsIn(after, other) == RowsIn(st, other)
  {
    hide StampsOf, Filter, ValidStore, Named;
    var rows := RowsIn(st, table);
    var found := Filter(rows, Named(name));
    FirstNamed(rows, name);
    if found == [] {
      RecordNew(st, table, name, now);
    } else {
      RecordAgain(st, table, name, now, found[0]);
    }
  }

  lemma RecordNew(st: Store, table: string, name: string, now: int)
    requires Keeps(st, table) && name !in StampsOf(RowsIn(st, table)) && forall r <- RowsIn(st, table) :: !IsStamp(r, name)
    ensures var row: Row := map["name" := Str(name), "last_run" := Int(now)];
      var after := Inserted(st, table, row);
      && Keeps(after, table)
      && StampsOf(RowsIn(after, table)) == StampsOf(RowsIn(st, table))[name := now]
      && forall other | other != table :: RowsIn(after, other) == RowsIn(st, other)
  {
    hide StampsOf, ValidStore;
    var row: Row := map["name" := Str(name), "last_run" := Int(now)];
    WritesKeepStore(st, table, 0, row, "", Int(0));
    var rows, stored := RowsIn(st, table), WithId(row, LastId(st, table) + 1);
    assert RowsIn(Inserted(st, table, row), table) == rows + [stored];
    AppendedStamp(rows, stored, name);
    forall i | 0 <= i < |rows| && "name" in rows[i] ensures rows[i]["name"] != Str(name) {
      assert rows[i] in rows;
    }
  }

  lemma RowAtId(st: Store, table: string, r: Row)
    requires ValidStore(st) && r in RowsIn(st, table)
    ensures "id" in r && r["id"].Int?
    ensures var k := IndexOf(RowsIn(st, table), AsInt(r["id"])); k < |RowsIn(st, table)| && RowsIn(st, table)[k] == r
  {
    var rows := RowsIn(st, table);
    assert WellKept(rows, LastId(st, table));
    var i :| 0 <= i < |rows| && rows[i] == r;
    var k := IndexOf(rows, AsInt(r["id"]));
    assert HasId(rows[i], AsInt(r["id"]));
  }

  lemma RecordAgain(st: Store, table: string, name: string, now: int, r: Row)
    requires Keeps(st, table) && r in RowsIn(st, table) && IsStamp(r, name)
    ensures "id" in r
    ensures var after := Updated(st, table, AsInt(r["id"]), r["last_run" := Int(now)]).0;
      && Keeps(after, table)
      && StampsOf(RowsIn(after, table)) == StampsOf(RowsIn(st, table))[name := now]
      && forall other | other != table :: RowsIn(after, other) == RowsIn(st, other)
  {
    hide StampsOf, ValidStore, IndexOf;
    RowAtId(st, table, r);
    var row, id := r["last_run" := Int(now)], AsInt(r["id"]);
    WritesKeepStore(st, table, id, row, "", Int(0));
    var rows := RowsIn(st, table);
    var k := IndexOf(rows, id);
    var stored := WithId(row, id);
    assert RowsIn(Updated(st, table, id, row).0, table) == rows[k := stored];
    ReplacedStamp(rows, k, stored, name);
    assert stored["name"] == rows[k]["name"];
  }

  // ---- the scheduler ----

  class Schedule {
    const conn: MemoryConnection?
    const table: string
    var tasks: seq<Task>
    var memory: Stamps

    constructor (conn: MemoryConnection?, table: string)
      ensures this.conn == conn && this.table == table && tasks == [] && memory == map[]
    {
      this.conn, this.table, tasks, memory := conn, table, [], map[];
    }

    function Backing(): set<object> {
      if conn == null then {} else {conn}
    }

    /** A table that backs the stamps holds at most one row per name. */
    ghost predicate Valid()
      reads this, Backing()
    {
      conn == null || Keeps(conn.Contents(), table)
    }

    /** The stamps, wherever they are kept. */
    function Held(): Stamps
      reads this, Backing()
    {
      if conn == null then memory else StampsOf(RowsIn(conn.Contents(), table))
    }

    /** `every`. */
    method AddEvery(secs: int, name: string)
      modifies this`tasks
      ensures tasks == old(tasks) + [Task(name, Every(secs))]
    {
      tasks := tasks + [Task(name, Every(secs))];
    }

    /** `daily_at`; `todayAt` stands for the local calendar. */
    method AddDailyAt(hhmm: string, name: string, todayAt: (int, int, int) -> int)
      modifies this`tasks
      ensures |tasks| == |old(tasks)| + 1 && tasks[..|old(tasks)|] == old(tasks)
      ensures var t := tasks[|old(tasks)|];
        && t.name == name && t.cadence.DailyAt?
        && forall now :: t.cadence.trigger(now) == todayAt(now, ClockOf(hhmm).0, ClockOf(hhmm).1)
    {
      var hour, minute := ParseClock(hhmm);
      tasks := tasks + [Task(name, DailyAt(now => todayAt(now, hour, minute)))];
    }

    method LastRun(name: string) returns (last: int)
      requires Valid()
      ensures last == LastOf(Held(), name)
    {
      if conn == null {
        return if name in memory then memory[name] else 0;
      }
      var rows := conn.Select(table, Query(Named(name), None, None, None));
      FirstNamed(RowsIn(conn.Contents(), table), name);
      if rows.value == [] { return 0; }
      return StampIn(rows.value[0]);
    }

    method RecordRun(name: string, now: int)
      requires Valid()
      modifies this`memory, Backing()
      ensures Valid() && Held() == old(Held())[name := now]
      ensures conn != null ==> forall other | other != table ::
        RowsIn(conn.Contents(), other) == RowsIn(old(conn.Contents()), other)
    {
      if conn == null {
        memory := memory[name := now];
        return;
      }
      RecordedAgrees(conn.Contents(), table, name, now);
      var rows := conn.Select(table, Query(Named(name), None, None, None));
      if rows.value == [] {
        var id := conn.Insert(table, map["name" := Str(name), "last_run" := Int(now)]);
      } else {
        var r := rows.value[0];
        FirstNamed(RowsIn(conn.Contents(), table), name);
        RowAtId(conn.Contents(), table, r);
        var done := conn.Update(table, AsInt(r["id"]), r["last_run" := Int(now)]);
      }
    }

    /** `run_pending`: `fired` lists the tasks started; a task that throws ends the call. */
    method RunPending(at: int, clock: int, throws: set<string>) returns (ran: nat, fired: seq<string>, threw: bool)
      requires Valid()
      modifies this`memory, Backing()
      ensures Valid() && ran == |fired|
      ensures Tick(Held(), fired, threw) == Ticked(tasks, old(Held()), if at == 0 then clock else at, throws)
    {
      hide LastOf, StampsOf, Keeps, Ticked, Due;
      var now := if at == 0 then clock else at;
      ran, fired, threw := 0, [], false;
      for i := 0 to |tasks|
        invariant Valid() && ran == |fired|
        invariant var rest := Ticked(tasks[i..], Held(), now, throws);
          Ticked(tasks, old(Held()), now, throws) == rest.(fired := fired + rest.fired)
      {
        var t := tasks[i];
        assert tasks[i..][1..] == tasks[i + 1..];
        TickedTurn(tasks[i..], Held(), now, throws);
        var last := LastRun(t.name);
        if Due(t.cadence, now, last) {
          RecordRun(t.name, now);
          ran := ran + 1;
          fired := fired + [t.name];
          if t.name in throws { return ran, fired, true; }
        }
      }
      TickedTurn(tasks[|tasks|..], Held(), now, throws);
    }
  }
}
