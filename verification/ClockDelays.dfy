/** Delays are kept to the point: when each task fires, told from when it was scheduled and for how long. */
module ClockDelays {
  import opened ClockModel

  /** Tasks that nobody cancelled have fired exactly if their time has come, and when the clock showed that time. */
  ghost predicate Punctual(log: seq<Event>, now: real)
  {
    forall id, at | Scheduled(id, at) in log && Cancelled(id) !in log ::
      if at <= now then Fired(id, at, at) in log else !FiredIn(log, id)
  }

  lemma OneTime(log: seq<Event>, id: nat, at: real, other: real)
    requires NumbersIncrease(log) && Scheduled(id, at) in log && Scheduled(id, other) in log
    ensures at == other
  {
    var i :| 0 <= i < |log| && log[i] == Scheduled(id, at);
    var j :| 0 <= j < |log| && log[j] == Scheduled(id, other);
    assert i == j;
  }

  /** The one firing of a task is at the time it was scheduled for. */
  lemma FiredAtItsTime(s: State, id: nat, at: real)
    requires Inv(s) && Scheduled(id, at) in s.log && FiredIn(s.log, id)
    ensures Fired(id, at, at) in s.log && at <= s.now
  {
    var e :| e in s.log && e.Fired? && e.id == id;
    var i :| 0 <= i < |s.log| && s.log[i] == e;
    assert s.log[i].now == s.log[i].at && Scheduled(id, e.at) in s.log[..i];
    OneTime(s.log, id, at, e.at);
  }

  /** Which tasks are on time can be seen from the log alone. */
  lemma NothingOverdueIsPunctual(s: State)
    requires Inv(s) && NothingOverdue(s)
    ensures Punctual(s.log, s.now)
  {
    forall id, at | Scheduled(id, at) in s.log && Cancelled(id) !in s.log
      ensures if at <= s.now then Fired(id, at, at) in s.log else !FiredIn(s.log, id)
    {
      if at <= s.now { assert Stopped(s.log, id); }
      if FiredIn(s.log, id) { FiredAtItsTime(s, id, at); }
    }
  }

  // ----- Over whole runs

  /** A task is logged for exactly the time the clock shows when it is scheduled, plus the delay asked for. */
  lemma DelayIsLogged(configs: seq<Config>, steps: seq<Step>, i: nat, delay: real)
    requires Run(configs, steps) && i < |steps| && steps[i] == DoSchedule(delay)
    ensures configs[i + 1].state.log == configs[i].state.log + [Scheduled(configs[i].state.nextId, configs[i].state.now + delay)]
    ensures configs[i + 1].state.now == configs[i].state.now && configs[i + 1].state.nextId == configs[i].state.nextId + 1
  {
    assert Next(configs[i], steps[i], configs[i + 1]);
  }

  /** And every time that is logged comes from such a step. */
  lemma {:induction false} LoggedByAStep(configs: seq<Config>, steps: seq<Step>, n: nat, id: nat, at: real)
    requires Run(configs, steps) && n <= |steps| && Scheduled(id, at) in configs[n].state.log
    ensures exists i | 0 <= i < n ::
              steps[i].DoSchedule? && configs[i].state.nextId == id && configs[i].state.now + steps[i].delay == at
  {
    assert n > 0;
    assert Next(configs[n - 1], steps[n - 1], configs[n]);
    if Scheduled(id, at) in configs[n - 1].state.log {
      LoggedByAStep(configs, steps, n - 1, id, at);
    } else {
      assert steps[n - 1].DoSchedule?;
    }
  }

  lemma {:induction false} TargetStays(configs: seq<Config>, steps: seq<Step>, i: nat, m: nat)
    requires Run(configs, steps) && i < m <= |steps| && steps[i].Begin?
    requires forall k | i < k < m :: !steps[k].Finish?
    ensures configs[m].mode == Advancing(configs[i].state.now + steps[i].milliseconds)
  {
    assert Next(configs[m - 1], steps[m - 1], configs[m]);
    if m > i + 1 { TargetStays(configs, steps, i, m - 1); }
  }

  /** An advance that ends leaves the clock exactly as much later as it was told to, whatever happened meanwhile. */
  lemma AdvanceTakesItsTime(configs: seq<Config>, steps: seq<Step>, i: nat, m: nat)
    requires Run(configs, steps) && i < m < |steps| && steps[i].Begin? && steps[m].Finish?
    requires forall k | i < k < m :: !steps[k].Finish?
    ensures configs[m + 1].state.now == configs[i].state.now + steps[i].milliseconds
  {
    TargetStays(configs, steps, i, m);
    assert Next(configs[m], steps[m], configs[m + 1]);
  }

  /**
   At the end of an advance, a task that was scheduled at some time with some delay and not cancelled has fired if and only
   if that time plus that delay is not after the target, and then it fired when the clock showed exactly their sum.
   */
  lemma FiresAfterItsDelay(configs: seq<Config>, steps: seq<Step>, i: nat, delay: real, m: nat)
    requires Run(configs, steps) && i < m < |steps| && steps[i] == DoSchedule(delay) && steps[m].Finish?
    requires Cancelled(configs[i].state.nextId) !in configs[m + 1].state.log
    ensures var id, at, log := configs[i].state.nextId, configs[i].state.now + delay, configs[m + 1].state.log;
            && configs[m].mode.Advancing?
            && (FiredIn(log, id) <==> at <= configs[m].mode.target)
            && (FiredIn(log, id) ==> Fired(id, at, at) in log)
  {
    var id, at, s := configs[i].state.nextId, configs[i].state.now + delay, configs[m + 1].state;
    assert Next(configs[m], steps[m], configs[m + 1]);
    DelayIsLogged(configs, steps, i, delay);
    LogsGrow(configs, steps, i + 1, m + 1);
    assert configs[i + 1].state.log[|configs[i].state.log|] == Scheduled(id, at);
    InvHolds(configs, steps, m + 1);
    RunIsSafe(configs, steps, m);
    NothingOverdueIsPunctual(s);
  }
}
