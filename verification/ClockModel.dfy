/** The states of a logical clock, every step it can take, and what all its runs keep. */
module ClockModel {
  import opened Sequences
  import opened Wrappers

  datatype Task = Task(id: nat, at: real, cancelled: bool)

  /** What an observer of the clock sees. A firing records the clock's time at that moment. */
  datatype Event =
    | Scheduled(id: nat, at: real)
    | Cancelled(id: nat)
    | Fired(id: nat, at: real, now: real)

  datatype State = State(now: real, nextId: nat, tasks: seq<Task>, log: seq<Event>)

  const INITIAL := State(0.0, 1, [], [])

  predicate Before(at: real, id: nat, later: real, laterId: nat)
  {
    at < later || (at == later && id < laterId)
  }

  predicate Earlier(a: Task, b: Task)
  {
    Before(a.at, a.id, b.at, b.id)
  }

  /** Insertion from the back: the new task goes after every task that is not later than it. */
  function Insert(tasks: seq<Task>, t: Task): seq<Task>
  {
    if tasks == [] || !Earlier(t, tasks[|tasks| - 1]) then tasks + [t]
    else Insert(tasks[..|tasks| - 1], t) + [tasks[|tasks| - 1]]
  }

  function Schedule(s: State, delay: real): State
  {
    var t := Task(s.nextId, s.now + delay, false);
    State(s.now, s.nextId + 1, Insert(s.tasks, t), s.log + [Scheduled(t.id, t.at)])
  }

  function Disable(tasks: seq<Task>, id: nat): (r: seq<Task>)
    ensures |r| == |tasks|
  {
    seq(|tasks|, i requires 0 <= i < |tasks| => if tasks[i].id == id then tasks[i].(cancelled := true) else tasks[i])
  }

  predicate HasNumber(tasks: seq<Task>, id: nat)
  {
    exists t | t in tasks :: t.id == id
  }

  /** Cancellers exist for scheduled tasks only. */
  function Cancel(s: State, id: nat): State
  {
    if HasNumber(s.tasks, id) then s.(tasks := Disable(s.tasks, id), log := s.log + [Cancelled(id)]) else s
  }

  predicate Due(t: Task, target: real)
  {
    !t.cancelled && t.at <= target
  }

  /** The first task that is due. */
  function FindDue(tasks: seq<Task>, target: real): (k: Option<nat>)
    ensures k.Some? ==> k.value < |tasks| && Due(tasks[k.value], target)
    ensures k.Some? ==> forall i | 0 <= i < k.value :: !Due(tasks[i], target)
    ensures k.None? ==> forall i | 0 <= i < |tasks| :: !Due(tasks[i], target)
  {
    if tasks == [] then None
    else
      var before := FindDue(tasks[..|tasks| - 1], target);
      if before.Some? then before
      else if Due(tasks[|tasks| - 1], target) then Some(|tasks| - 1) else None
  }

  function Fire(s: State, k: nat): State
    requires k < |s.tasks|
  {
    var t := s.tasks[k];
    State(t.at, s.nextId, s.tasks[k := t.(cancelled := true)], s.log + [Fired(t.id, t.at, t.at)])
  }

  // ----- Steps: scheduling and cancelling can happen at any moment, also while the clock advances

  datatype Mode = Idle | Advancing(target: real)

  datatype Step = DoSchedule(delay: real) | DoCancel(id: nat) | Begin(milliseconds: real) | DoFire | Finish

  datatype Config = Config(state: State, mode: Mode)

  ghost predicate Next(c: Config, step: Step, d: Config)
  {
    match step
    case DoSchedule(delay) => delay >= 0.0 && d == Config(Schedule(c.state, delay), c.mode)
    case DoCancel(id) => d == Config(Cancel(c.state, id), c.mode)
    case Begin(milliseconds) =>
      c.mode.Idle? && milliseconds >= 0.0 && d == Config(c.state, Advancing(c.state.now + milliseconds))
    case DoFire =>
      && c.mode.Advancing?
      && FindDue(c.state.tasks, c.mode.target).Some?
      && d == Config(Fire(c.state, FindDue(c.state.tasks, c.mode.target).value), c.mode)
    case Finish =>
      && c.mode.Advancing?
      && FindDue(c.state.tasks, c.mode.target).None?
      && d == Config(c.state.(now := c.mode.target), Idle)
  }

  /** Steps that lead from one configuration to the next. */
  ghost predicate Path(c: Config, configs: seq<Config>, steps: seq<Step>)
  {
    && |configs| == |steps| + 1
    && configs[0] == c
    && forall i | 0 <= i < |steps| :: Next(configs[i], steps[i], configs[i + 1])
  }

  ghost predicate Run(configs: seq<Config>, steps: seq<Step>)
  {
    Path(Config(INITIAL, Idle), configs, steps)
  }

  // ----- What holds of every log

  ghost predicate FiredIn(log: seq<Event>, id: nat)
  {
    exists e | e in log :: e.Fired? && e.id == id
  }

  ghost predicate Stopped(log: seq<Event>, id: nat)
  {
    FiredIn(log, id) || Cancelled(id) in log
  }

  /** Firings follow each other in strictly increasing (at, id) order. */
  ghost predicate FiringsIncrease(log: seq<Event>)
  {
    forall i, j | 0 <= i < j < |log| && log[i].Fired? && log[j].Fired? :: Before(log[i].at, log[i].id, log[j].at, log[j].id)
  }

  /** No task fires twice. */
  ghost predicate FiringsOnce(log: seq<Event>)
  {
    forall i, j | 0 <= i < j < |log| && log[i].Fired? && log[j].Fired? :: log[i].id != log[j].id
  }

  /** A task fires when the clock shows its time, after it was scheduled for that time, and not after a cancellation. */
  ghost predicate FiringsJustified(log: seq<Event>)
  {
    forall i | 0 <= i < |log| && log[i].Fired? ::
      log[i].now == log[i].at && Scheduled(log[i].id, log[i].at) in log[..i] && Cancelled(log[i].id) !in log[..i]
  }

  /** Every scheduled task gets a number of its own. */
  ghost predicate NumbersIncrease(log: seq<Event>)
  {
    forall i, j | 0 <= i < j < |log| && log[i].Scheduled? && log[j].Scheduled? :: log[i].id < log[j].id
  }

  ghost predicate GoodLog(log: seq<Event>)
  {
    FiringsIncrease(log) && FiringsOnce(log) && FiringsJustified(log) && NumbersIncrease(log)
  }

  // ----- The invariant

  ghost predicate Ordered(tasks: seq<Task>)
  {
    forall i, j | 0 <= i < j < |tasks| :: Earlier(tasks[i], tasks[j])
  }

  ghost predicate Numbered(tasks: seq<Task>, nextId: nat)
  {
    && (forall t | t in tasks :: t.id < nextId)
    && (forall t, u | t in tasks && u in tasks && t.id == u.id :: t == u)
  }

  ghost predicate HasTask(tasks: seq<Task>, id: nat, at: real)
  {
    exists t | t in tasks :: t.id == id && t.at == at
  }

  /** The log speaks of the tasks there are, and a task is off exactly when it was fired or cancelled. */
  ghost predicate LogMatches(s: State)
  {
    && (forall e | e in s.log :: e.id < s.nextId)
    && (forall id, at :: Scheduled(id, at) in s.log <==> HasTask(s.tasks, id, at))
    && (forall t | t in s.tasks :: t.cancelled <==> Stopped(s.log, t.id))
  }

  /** What was fired lies in the past, what is live lies in the future and after everything fired. */
  ghost predicate TimesMatch(s: State)
  {
    && (forall e | e in s.log && e.Fired? :: e.at <= s.now)
    && (forall t | t in s.tasks && !t.cancelled :: s.now <= t.at)
    && (forall e, t | e in s.log && e.Fired? && t in s.tasks && !t.cancelled :: Before(e.at, e.id, t.at, t.id))
  }

  ghost predicate Inv(s: State)
  {
    Ordered(s.tasks) && Numbered(s.tasks, s.nextId) && LogMatches(s) && TimesMatch(s) && GoodLog(s.log)
  }

  // ----- Insertion

  lemma {:induction false} InsertAt(tasks: seq<Task>, t: Task) returns (k: nat)
    requires Ordered(tasks)
    ensures k <= |tasks| && Insert(tasks, t) == tasks[..k] + [t] + tasks[k..]
    ensures forall i | 0 <= i < k :: !Earlier(t, tasks[i])
    ensures forall i | k <= i < |tasks| :: Earlier(t, tasks[i])
  {
    if tasks == [] || !Earlier(t, tasks[|tasks| - 1]) {
      k := |tasks|;
      assert tasks[..k] == tasks && tasks[k..] == [];
      forall i | 0 <= i < k
        ensures !Earlier(t, tasks[i])
      {
        assert i < |tasks| - 1 ==> Earlier(tasks[i], tasks[|tasks| - 1]);
      }
    } else {
      var init, last := tasks[..|tasks| - 1], tasks[|tasks| - 1];
      k := InsertAt(init, t);
      assert init[..k] == tasks[..k];
      assert init[k..] + [last] == tasks[k..];
      Assoc(init[..k] + [t], init[k..], [last]);
    }
  }

  lemma InsertMembers(tasks: seq<Task>, t: Task)
    requires Ordered(tasks)
    ensures forall x :: x in Insert(tasks, t) <==> x in tasks || x == t
  {
    var k := InsertAt(tasks, t);
    assert tasks == tasks[..k] + tasks[k..];
  }

  lemma InsertOrdered(tasks: seq<Task>, t: Task)
    requires Ordered(tasks) && forall u | u in tasks :: u.id != t.id
    ensures Ordered(Insert(tasks, t))
  {
    var k := InsertAt(tasks, t);
    var r := tasks[..k] + [t] + tasks[k..];
    assert forall i | 0 <= i < |r| :: r[i] == (if i < k then tasks[i] else if i == k then t else tasks[i - 1]);
    assert forall i | 0 <= i < |tasks| :: tasks[i] in tasks;
  }

  // ----- Appending to a log

  lemma FiredGrows(log: seq<Event>, e: Event, id: nat)
    ensures FiredIn(log + [e], id) <==> FiredIn(log, id) || (e.Fired? && e.id == id)
    ensures Stopped(log + [e], id) <==> Stopped(log, id) || (!e.Scheduled? && e.id == id)
  {
    assert forall x :: x in log + [e] <==> x in log || x == e;
  }

  lemma QuietFirings(log: seq<Event>, e: Event)
    requires FiringsIncrease(log) && FiringsOnce(log) && !e.Fired?
    ensures FiringsIncrease(log + [e]) && FiringsOnce(log + [e])
  {
  }

  lemma QuietJustified(log: seq<Event>, e: Event)
    requires FiringsJustified(log) && !e.Fired?
    ensures FiringsJustified(log + [e])
  {
    var longer := log + [e];
    assert forall i | 0 <= i < |log| :: longer[i] == log[i] && longer[..i] == log[..i];
  }

  lemma NumbersGrow(log: seq<Event>, e: Event)
    requires NumbersIncrease(log) && (e.Scheduled? ==> forall x | x in log :: x.id < e.id)
    ensures NumbersIncrease(log + [e])
  {
    assert forall i | 0 <= i < |log| :: log[i] in log;
  }

  lemma QuietLog(log: seq<Event>, e: Event)
    requires GoodLog(log) && !e.Fired?
    requires e.Scheduled? ==> forall x | x in log :: x.id < e.id
    ensures GoodLog(log + [e])
  {
    QuietFirings(log, e);
    QuietJustified(log, e);
    NumbersGrow(log, e);
  }

  lemma FiringLast(log: seq<Event>, e: Event)
    requires FiringsIncrease(log) && FiringsOnce(log) && e.Fired? && !FiredIn(log, e.id)
    requires forall x | x in log && x.Fired? :: Before(x.at, x.id, e.at, e.id)
    ensures FiringsIncrease(log + [e]) && FiringsOnce(log + [e])
  {
    assert forall i | 0 <= i < |log| :: log[i] in log;
  }

  lemma FiringJustified(log: seq<Event>, e: Event)
    requires FiringsJustified(log) && e.Fired? && e.now == e.at && Scheduled(e.id, e.at) in log && Cancelled(e.id) !in log
    ensures FiringsJustified(log + [e])
  {
    var longer := log + [e];
    assert longer[..|log|] == log;
    assert forall i | 0 <= i < |log| :: longer[i] == log[i] && longer[..i] == log[..i];
  }

  lemma FiringLog(log: seq<Event>, e: Event)
    requires GoodLog(log) && e.Fired? && e.now == e.at
    requires Scheduled(e.id, e.at) in log && !Stopped(log, e.id)
    requires forall x | x in log && x.Fired? :: Before(x.at, x.id, e.at, e.id)
    ensures GoodLog(log + [e])
  {
    FiringLast(log, e);
    FiringJustified(log, e);
    NumbersGrow(log, e);
  }

  // ----- Every step keeps the invariant

  lemma ScheduleMatches(s: State, delay: real)
    requires Inv(s) && delay >= 0.0
    ensures LogMatches(Schedule(s, delay))
  {
    var t := Task(s.nextId, s.now + delay, false);
    var e := Scheduled(t.id, t.at);
    var next := Schedule(s, delay);
    InsertMembers(s.tasks, t);
    assert forall x :: x in next.log <==> x in s.log || x == e;
    forall id, at
      ensures Scheduled(id, at) in next.log <==> HasTask(next.tasks, id, at)
    {
      if HasTask(s.tasks, id, at) {
        var u :| u in s.tasks && u.id == id && u.at == at;
        assert u in next.tasks;
      }
      if id == t.id && at == t.at { assert t in next.tasks; }
    }
    forall u | u in next.tasks
      ensures u.cancelled <==> Stopped(next.log, u.id)
    {
      FiredGrows(s.log, e, u.id);
    }
  }

  lemma ScheduleKeeps(s: State, delay: real)
    requires Inv(s) && delay >= 0.0
    ensures Inv(Schedule(s, delay))
  {
    var t := Task(s.nextId, s.now + delay, false);
    InsertOrdered(s.tasks, t);
    InsertMembers(s.tasks, t);
    QuietLog(s.log, Scheduled(t.id, t.at));
    ScheduleMatches(s, delay);
    ScheduleTimes(s, delay);
  }

  lemma ScheduleTimes(s: State, delay: real)
    requires Inv(s) && delay >= 0.0
    ensures TimesMatch(Schedule(s, delay))
  {
    var t := Task(s.nextId, s.now + delay, false);
    InsertMembers(s.tasks, t);
    assert forall x :: x in Schedule(s, delay).log <==> x in s.log || x == Scheduled(t.id, t.at);
  }

  lemma DisableMembers(tasks: seq<Task>, id: nat)
    ensures forall u :: u in Disable(tasks, id) <==>
              (u in tasks && u.id != id) || (u.id == id && u.cancelled && exists t | t in tasks :: u == t.(cancelled := true))
  {
    var r := Disable(tasks, id);
    forall u
      ensures u in r <==> (u in tasks && u.id != id) || (u.id == id && u.cancelled && exists t | t in tasks :: u == t.(cancelled := true))
    {
      if u in r {
        var i :| 0 <= i < |r| && r[i] == u;
        assert tasks[i] in tasks;
      }
      if u in tasks && u.id != id {
        var i :| 0 <= i < |tasks| && tasks[i] == u;
        assert r[i] == u;
      }
      if u.id == id && u.cancelled && exists t | t in tasks :: u == t.(cancelled := true) {
        var t :| t in tasks && u == t.(cancelled := true);
        var i :| 0 <= i < |tasks| && tasks[i] == t;
        assert r[i] == u;
      }
    }
  }

  lemma DisableHas(tasks: seq<Task>, n: nat, id: nat, at: real)
    ensures HasTask(Disable(tasks, n), id, at) <==> HasTask(tasks, id, at)
  {
    DisableMembers(tasks, n);
    if HasTask(tasks, id, at) {
      var t :| t in tasks && t.id == id && t.at == at;
      if t.id == n { assert t.(cancelled := true) in Disable(tasks, n); } else { assert t in Disable(tasks, n); }
    }
  }

  /** Switching a task off, with the event that says why. */
  lemma StopMatches(s: State, e: Event)
    requires Inv(s) && !e.Scheduled? && e.id < s.nextId
    ensures LogMatches(s.(tasks := Disable(s.tasks, e.id), log := s.log + [e]))
  {
    var next := s.(tasks := Disable(s.tasks, e.id), log := s.log + [e]);
    DisableMembers(s.tasks, e.id);
    assert forall x :: x in next.log <==> x in s.log || x == e;
    forall id, at
      ensures Scheduled(id, at) in next.log <==> HasTask(next.tasks, id, at)
    {
      DisableHas(s.tasks, e.id, id, at);
    }
    forall u | u in next.tasks
      ensures u.cancelled <==> Stopped(next.log, u.id)
    {
      FiredGrows(s.log, e, u.id);
    }
  }

  lemma DisableKeeps(tasks: seq<Task>, id: nat, nextId: nat)
    requires Ordered(tasks) && Numbered(tasks, nextId)
    ensures Ordered(Disable(tasks, id)) && Numbered(Disable(tasks, id), nextId)
  {
    DisableMembers(tasks, id);
  }

  lemma CancelKeeps(s: State, id: nat)
    requires Inv(s)
    ensures Inv(Cancel(s, id))
  {
    if HasNumber(s.tasks, id) {
      DisableKeeps(s.tasks, id, s.nextId);
      DisableMembers(s.tasks, id);
      StopMatches(s, Cancelled(id));
      QuietLog(s.log, Cancelled(id));
    }
  }

  /** Firing switches off one task, and tasks have different numbers. */
  lemma FireDisables(s: State, k: nat)
    requires Ordered(s.tasks) && Numbered(s.tasks, s.nextId) && k < |s.tasks|
    ensures Fire(s, k).tasks == Disable(s.tasks, s.tasks[k].id)
  {
    assert forall i | 0 <= i < |s.tasks| :: s.tasks[i] in s.tasks;
    assert forall i, j | 0 <= i < j < |s.tasks| :: s.tasks[i] != s.tasks[j] by {
      forall i, j | 0 <= i < j < |s.tasks| ensures s.tasks[i] != s.tasks[j] { assert Earlier(s.tasks[i], s.tasks[j]); }
    }
  }

  lemma FireKeeps(s: State, target: real)
    requires Inv(s) && FindDue(s.tasks, target).Some?
    ensures Inv(Fire(s, FindDue(s.tasks, target).value))
  {
    var k := FindDue(s.tasks, target).value;
    var t := s.tasks[k];
    var e := Fired(t.id, t.at, t.at);
    var next := Fire(s, k);
    assert t in s.tasks;
    FireDisables(s, k);
    DisableKeeps(s.tasks, t.id, s.nextId);
    StopMatches(s, e);
    assert HasTask(s.tasks, t.id, t.at);
    FiringLog(s.log, e);
    FireTimes(s, target);
  }

  lemma FireTimes(s: State, target: real)
    requires Inv(s) && FindDue(s.tasks, target).Some?
    ensures TimesMatch(Fire(s, FindDue(s.tasks, target).value))
  {
    var k := FindDue(s.tasks, target).value;
    var t := s.tasks[k];
    var next := Fire(s, k);
    assert t in s.tasks;
    assert forall x :: x in next.log <==> x in s.log || x == Fired(t.id, t.at, t.at);
    forall i | 0 <= i < k
      ensures s.tasks[i].cancelled
    {
      assert !Due(s.tasks[i], target);
      assert Earlier(s.tasks[i], s.tasks[k]);
    }
    forall u | u in next.tasks && !u.cancelled
      ensures u in s.tasks && Earlier(t, u)
    {
      var i :| 0 <= i < |next.tasks| && next.tasks[i] == u;
      assert i > k && u == s.tasks[i];
    }
  }

  lemma FinishKeeps(s: State, target: real)
    requires Inv(s) && FindDue(s.tasks, target).None? && s.now <= target
    ensures Inv(s.(now := target))
  {
    forall t | t in s.tasks && !t.cancelled
      ensures target <= t.at
    {
      var i :| 0 <= i < |s.tasks| && s.tasks[i] == t;
    }
  }

  /** The target of an advance is never passed. */
  ghost predicate ConfigInv(c: Config)
  {
    Inv(c.state) && (c.mode.Advancing? ==> c.state.now <= c.mode.target)
  }

  lemma NextKeepsInv(c: Config, step: Step, d: Config)
    requires ConfigInv(c) && Next(c, step, d)
    ensures ConfigInv(d)
    ensures c.state.log <= d.state.log && c.state.now <= d.state.now
  {
    match step
    case DoSchedule(delay) => ScheduleKeeps(c.state, delay);
    case DoCancel(id) => CancelKeeps(c.state, id);
    case Begin(milliseconds) =>
    case DoFire =>
      FireKeeps(c.state, c.mode.target);
      var t := c.state.tasks[FindDue(c.state.tasks, c.mode.target).value];
      assert t in c.state.tasks;
    case Finish => FinishKeeps(c.state, c.mode.target);
  }

  lemma {:induction false} PathKeepsInv(c: Config, configs: seq<Config>, steps: seq<Step>, n: nat)
    requires ConfigInv(c) && Path(c, configs, steps) && n <= |steps|
    ensures ConfigInv(configs[n])
  {
    if n > 0 {
      PathKeepsInv(c, configs, steps, n - 1);
      NextKeepsInv(configs[n - 1], steps[n - 1], configs[n]);
    }
  }

  lemma InvHolds(configs: seq<Config>, steps: seq<Step>, n: nat)
    requires Run(configs, steps) && n <= |steps|
    ensures ConfigInv(configs[n])
  {
    PathKeepsInv(Config(INITIAL, Idle), configs, steps, n);
  }

  /** Every task scheduled for a time up to now was fired or cancelled. */
  ghost predicate NothingOverdue(s: State)
  {
    forall id, at | Scheduled(id, at) in s.log && at <= s.now :: Stopped(s.log, id)
  }

  /**
   In every run, whatever callbacks schedule or cancel: the log is in order, and the end of an advance leaves the
   clock at its target with nothing overdue.
   */
  lemma RunIsSafe(configs: seq<Config>, steps: seq<Step>, n: nat)
    requires Run(configs, steps) && n <= |steps|
    ensures GoodLog(configs[n].state.log)
    ensures n < |steps| && steps[n].Finish? ==>
              configs[n + 1].state.now == configs[n].mode.target && NothingOverdue(configs[n + 1].state)
  {
    InvHolds(configs, steps, n);
    if n < |steps| && steps[n].Finish? {
      assert Next(configs[n], steps[n], configs[n + 1]);
      FinishedNotOverdue(configs[n].state, configs[n].mode.target);
    }
  }

  lemma FinishedNotOverdue(s: State, target: real)
    requires Inv(s) && FindDue(s.tasks, target).None?
    ensures NothingOverdue(s.(now := target))
  {
    forall id, at | Scheduled(id, at) in s.log && at <= target
      ensures Stopped(s.log, id)
    {
      assert HasTask(s.tasks, id, at);
      var t :| t in s.tasks && t.id == id && t.at == at;
      var i :| 0 <= i < |s.tasks| && s.tasks[i] == t;
      assert !Due(s.tasks[i], target);
    }
  }

  /** A canceller called before its task fires keeps the task from ever firing. */
  lemma CancelledNeverFires(configs: seq<Config>, steps: seq<Step>, i: nat, n: nat, id: nat)
    requires Run(configs, steps) && i < n <= |steps|
    requires steps[i] == DoCancel(id) && HasNumber(configs[i].state.tasks, id) && !FiredIn(configs[i].state.log, id)
    ensures !FiredIn(configs[n].state.log, id)
  {
    InvHolds(configs, steps, n);
    LogsGrow(configs, steps, i + 1, n);
    assert Next(configs[i], steps[i], configs[i + 1]);
    var before, log := configs[i].state.log, configs[n].state.log;
    assert configs[i + 1].state.log == before + [Cancelled(id)];
    assert log[|before|] == configs[i + 1].state.log[|before|];
    forall k | 0 <= k < |log| && log[k].Fired?
      ensures log[k].id != id
    {
      if k < |before| {
        assert log[k] == before[k] && before[k] in before;
      } else {
        assert k > |before| && log[..k][|before|] == log[|before|];
      }
    }
  }

  lemma {:induction false} LogsGrow(configs: seq<Config>, steps: seq<Step>, i: nat, n: nat)
    requires Run(configs, steps) && i <= n <= |steps|
    ensures configs[i].state.log <= configs[n].state.log
  {
    if i < n {
      LogsGrow(configs, steps, i, n - 1);
      NextGrows(configs[n - 1], steps[n - 1], configs[n]);
    }
  }

  lemma NextGrows(c: Config, step: Step, d: Config)
    requires Next(c, step, d)
    ensures c.state.log <= d.state.log
  {
  }
}
