/** What an advance of the clock does, with callbacks that act, and why it comes to an end. */
module ClockAdvance {
  import opened Sequences
  import opened Wrappers
  import opened ClockModel

  // ----- What callbacks do

  datatype Action = ScheduleAfter(delay: real) | CancelTask(id: nat)

  /** After each firing, the callback and the continuations it wakes act; what they do depends on everything so far. */
  type Program = p: seq<Event> -> seq<Action> | Onward(p) witness (log: seq<Event>) => []

  ghost predicate Forward(actions: seq<Action>)
  {
    forall a | a in actions && a.ScheduleAfter? :: a.delay >= 0.0
  }

  ghost predicate Paced(program: Program, pace: real)
  {
    pace > 0.0 && forall log :: Ahead(program(log), pace)
  }

  /** Delays are not negative. */
  ghost predicate Onward(program: seq<Event> -> seq<Action>)
  {
    forall log :: Forward(program(log))
  }

  function Act(s: State, action: Action): State
  {
    match action
    case ScheduleAfter(delay) => Schedule(s, delay)
    case CancelTask(id) => Cancel(s, id)
  }

  function Acts(s: State, actions: seq<Action>): State
  {
    if actions == [] then s else Act(Acts(s, actions[..|actions| - 1]), actions[|actions| - 1])
  }

  lemma {:induction false} ActsKeep(s: State, actions: seq<Action>)
    requires Inv(s) && Forward(actions)
    ensures var r := Acts(s, actions); Inv(r) && r.now == s.now && s.log <= r.log
  {
    if actions != [] {
      var init, last := actions[..|actions| - 1], actions[|actions| - 1];
      ActsKeep(s, init);
      assert last in actions;
      if last.ScheduleAfter? { ScheduleKeeps(Acts(s, init), last.delay); } else { CancelKeeps(Acts(s, init), last.id); }
    }
  }

  lemma {:induction false} ActsMove(s: State, actions: seq<Action>)
    ensures var r := Acts(s, actions); r.now == s.now && s.log <= r.log
  {
    if actions != [] { ActsMove(s, actions[..|actions| - 1]); }
  }

  // ----- Why an advance ends

  lemma Positive(a: real, b: real)
    requires a >= 0.0 && b >= 0.0
    ensures a * b >= 0.0 && (a > 0.0 && b > 0.0 ==> a * b > 0.0)
  {
  }

  lemma ScaledBelow(q: real, n: real, pace: real, d: real)
    requires pace > 0.0 && n <= q && q * pace == d
    ensures n * pace <= d
  {
    Positive(q - n, pace);
  }

  lemma ScaledAbove(q: real, n: real, pace: real, d: real)
    requires pace > 0.0 && q < n && q * pace == d
    ensures d < n * pace
  {
    Positive(n - q, pace);
  }

  lemma Divided(d: real, pace: real)
    requires pace > 0.0
    ensures (d / pace) * pace == d
  {
  }

  lemma Distribute(n: int, c: real)
    ensures (n + 1) as real * c == n as real * c + c
  {
    assert (n + 1) as real == n as real + 1.0;
  }

  /** Paces that fit between now and the target. */
  function Level(now: real, target: real, pace: real): int
    requires pace > 0.0
  {
    ((target - now) / pace).Floor
  }

  lemma FloorBounds(d: real, q: real, pace: real, n: int)
    requires pace > 0.0 && q * pace == d && n == q.Floor
    ensures n as real * pace <= d < (n + 1) as real * pace
  {
    ScaledBelow(q, n as real, pace, d);
    ScaledAbove(q, (n + 1) as real, pace, d);
  }

  lemma LevelBounds(now: real, target: real, pace: real)
    requires pace > 0.0
    ensures Level(now, target, pace) as real * pace <= target - now < Level(now, target, pace) as real * pace + pace
  {
    Divided(target - now, pace);
    FloorBounds(target - now, (target - now) / pace, pace, Level(now, target, pace));
    Distribute(Level(now, target, pace), pace);
  }

  lemma NotNegative(d: real, pace: real)
    requires pace > 0.0 && d >= 0.0
    ensures d / pace >= 0.0
  {
  }

  lemma LevelFalls(now: real, later: real, target: real, pace: real)
    requires pace > 0.0 && now <= later <= target
    ensures 0 <= Level(later, target, pace) <= Level(now, target, pace)
  {
    NotNegative(target - later, pace);
    Monotone(target - later, target - now, pace);
  }

  lemma Monotone(a: real, b: real, pace: real)
    requires pace > 0.0 && a <= b
    ensures (a / pace).Floor <= (b / pace).Floor
  {
    assert a / pace <= b / pace;
  }

  /** Live tasks up to a time. */
  function CountLive(tasks: seq<Task>, bound: real): nat
  {
    if tasks == [] then 0
    else CountLive(tasks[..|tasks| - 1], bound) + (if Due(tasks[|tasks| - 1], bound) then 1 else 0)
  }

  lemma CountAppend(tasks: seq<Task>, t: Task, bound: real)
    ensures CountLive(tasks + [t], bound) == CountLive(tasks, bound) + (if Due(t, bound) then 1 else 0)
  {
    assert (tasks + [t])[..|tasks|] == tasks;
  }

  lemma {:induction false} CountInsert(tasks: seq<Task>, t: Task, bound: real)
    ensures CountLive(Insert(tasks, t), bound) == CountLive(tasks, bound) + (if Due(t, bound) then 1 else 0)
  {
    if tasks == [] || !Earlier(t, tasks[|tasks| - 1]) {
      CountAppend(tasks, t, bound);
    } else {
      CountInsert(tasks[..|tasks| - 1], t, bound);
      CountAppend(Insert(tasks[..|tasks| - 1], t), tasks[|tasks| - 1], bound);
    }
  }

  lemma {:induction false} CountDisable(tasks: seq<Task>, id: nat, bound: real)
    ensures CountLive(Disable(tasks, id), bound) <= CountLive(tasks, bound)
  {
    if tasks != [] {
      CountDisable(tasks[..|tasks| - 1], id, bound);
      assert Disable(tasks, id)[..|tasks| - 1] == Disable(tasks[..|tasks| - 1], id);
    }
  }

  lemma {:induction false} CountOff(tasks: seq<Task>, k: nat, bound: real)
    requires k < |tasks| && Due(tasks[k], bound)
    ensures CountLive(tasks[k := tasks[k].(cancelled := true)], bound) == CountLive(tasks, bound) - 1
  {
    var n, off := |tasks|, tasks[k].(cancelled := true);
    if k == n - 1 {
      assert tasks[k := off][..n - 1] == tasks[..n - 1];
    } else {
      CountOff(tasks[..n - 1], k, bound);
      assert tasks[k := off][..n - 1] == tasks[..n - 1][k := off];
    }
  }

  lemma CountAct(s: State, action: Action, pace: real, bound: real)
    requires action.ScheduleAfter? ==> action.delay >= pace
    requires s.now + pace > bound
    ensures CountLive(Act(s, action).tasks, bound) <= CountLive(s.tasks, bound) && Act(s, action).now == s.now
  {
    if action.ScheduleAfter? {
      CountInsert(s.tasks, Task(s.nextId, s.now + action.delay, false), bound);
    } else {
      CountDisable(s.tasks, action.id, bound);
    }
  }

  ghost predicate Ahead(actions: seq<Action>, pace: real)
  {
    forall a | a in actions && a.ScheduleAfter? :: a.delay >= pace
  }

  /** Tasks scheduled a pace ahead are beyond the bound. */
  lemma {:induction false} CountActs(s: State, actions: seq<Action>, pace: real, bound: real)
    requires Ahead(actions, pace) && s.now + pace > bound
    ensures CountLive(Acts(s, actions).tasks, bound) <= CountLive(s.tasks, bound) && Acts(s, actions).now == s.now
  {
    if actions != [] {
      var init, last := actions[..|actions| - 1], actions[|actions| - 1];
      assert last in actions;
      CountActs(s, init, pace, bound);
      CountAct(Acts(s, init), last, pace, bound);
    }
  }

  function Bound(now: real, target: real, pace: real): real
    requires pace > 0.0
  {
    target - Level(now, target, pace) as real * pace
  }

  /** One turn of the loop: the first due task fires, and its callback acts. */
  function Turn(s: State, target: real, program: Program): State
    requires FindDue(s.tasks, target).Some?
  {
    var fired := Fire(s, FindDue(s.tasks, target).value);
    Acts(fired, program(fired.log))
  }

  lemma TurnKeeps(s: State, target: real, program: Program)
    requires Inv(s) && FindDue(s.tasks, target).Some?
    ensures Inv(Turn(s, target, program))
  {
    var fired := Fire(s, FindDue(s.tasks, target).value);
    FireKeeps(s, target);
    ActsKeep(fired, program(fired.log));
  }

  lemma TurnCounts(s: State, target: real, program: Program, pace: real, bound: real)
    requires FindDue(s.tasks, target).Some? && Paced(program, pace)
    requires var at := s.tasks[FindDue(s.tasks, target).value].at; at <= bound < at + pace
    ensures CountLive(Turn(s, target, program).tasks, bound) < CountLive(s.tasks, bound)
  {
    var k := FindDue(s.tasks, target).value;
    var fired := Fire(s, k);
    CountOff(s.tasks, k, bound);
    assert Ahead(program(fired.log), pace);
    CountActs(fired, program(fired.log), pace, bound);
  }

  lemma TurnGrows(s: State, target: real, program: Program)
    requires FindDue(s.tasks, target).Some?
    ensures s.log <= Turn(s, target, program).log
  {
    var fired := Fire(s, FindDue(s.tasks, target).value);
    ActsMove(fired, program(fired.log));
  }

  lemma TurnMoves(s: State, target: real, program: Program)
    requires Inv(s) && FindDue(s.tasks, target).Some?
    ensures var r := Turn(s, target, program);
            s.now <= r.now <= target && r.now == s.tasks[FindDue(s.tasks, target).value].at && s.log <= r.log
  {
    var k := FindDue(s.tasks, target).value;
    var fired := Fire(s, k);
    assert s.tasks[k] in s.tasks;
    ActsMove(fired, program(fired.log));
  }

  lemma TurnLevels(s: State, target: real, program: Program, pace: real)
    requires FindDue(s.tasks, target).Some? && Paced(program, pace)
    requires var at := s.tasks[FindDue(s.tasks, target).value].at; s.now <= at <= target && Turn(s, target, program).now == at
    ensures var r := Turn(s, target, program);
            && 0 <= Level(r.now, target, pace) <= Level(s.now, target, pace)
            && (Level(r.now, target, pace) == Level(s.now, target, pace) ==>
                  CountLive(r.tasks, Bound(r.now, target, pace)) < CountLive(s.tasks, Bound(s.now, target, pace)))
  {
    var at := s.tasks[FindDue(s.tasks, target).value].at;
    LevelFalls(s.now, at, target, pace);
    LevelBounds(at, target, pace);
    if Level(at, target, pace) == Level(s.now, target, pace) {
      assert Bound(at, target, pace) == Bound(s.now, target, pace);
      TurnCounts(s, target, program, pace, Bound(at, target, pace));
    }
  }

  /** Each turn gets nearer to the target, or uses up a task that was due before more can be added. */
  lemma TurnDecreases(s: State, target: real, program: Program, pace: real)
    requires Inv(s) && FindDue(s.tasks, target).Some? && Paced(program, pace)
    ensures var r := Turn(s, target, program);
            && 0 <= Level(r.now, target, pace) <= Level(s.now, target, pace)
            && (Level(r.now, target, pace) == Level(s.now, target, pace) ==>
                  CountLive(r.tasks, Bound(r.now, target, pace)) < CountLive(s.tasks, Bound(s.now, target, pace)))
  {
    TurnMoves(s, target, program);
    TurnLevels(s, target, program, pace);
  }

  // ----- The whole advance

  ghost predicate TurnsInto(s: State, target: real, program: Program, next: State)
  {
    FindDue(s.tasks, target).Some? && next == Turn(s, target, program)
  }

  ghost predicate TurnAt(states: seq<State>, target: real, program: Program, i: nat)
    requires i < |states|
  {
    if i < |states| - 1 then TurnsInto(states[i], target, program, states[i + 1]) else FindDue(states[i].tasks, target).None?
  }

  /** The states an advance goes through, turn by turn, until nothing is due. */
  ghost predicate Journey(states: seq<State>, target: real, program: Program)
  {
    states != [] && forall i | 0 <= i < |states| :: TurnAt(states, target, program, i)
  }

  lemma JourneyTail(states: seq<State>, target: real, program: Program)
    requires Journey(states, target, program) && |states| > 1
    ensures TurnsInto(states[0], target, program, states[1]) && Journey(states[1..], target, program)
  {
    assert TurnAt(states, target, program, 0);
    forall i | 0 <= i < |states| - 1
      ensures TurnAt(states[1..], target, program, i)
    {
      assert TurnAt(states, target, program, i + 1);
    }
  }

  /** Where an advance leaves the clock. */
  function Arrival(states: seq<State>, target: real): State
    requires states != []
  {
    states[|states| - 1].(now := target)
  }

  lemma JourneyGoesOn(states: seq<State>, target: real, program: Program, i: nat)
    requires Journey(states, target, program) && i < |states| && FindDue(states[i].tasks, target).Some?
    ensures i + 1 < |states| && TurnsInto(states[i], target, program, states[i + 1])
  {
    assert TurnAt(states, target, program, i);
  }

  lemma JourneyStops(states: seq<State>, target: real, program: Program, i: nat)
    requires Journey(states, target, program) && i < |states| && FindDue(states[i].tasks, target).None?
    ensures i == |states| - 1 && Arrival(states, target) == states[i].(now := target)
  {
    assert TurnAt(states, target, program, i);
  }

  /** With callbacks that wait for at least some pace, every advance ends. */
  lemma {:induction false} AdvanceEnds(s: State, target: real, program: Program, pace: real) returns (states: seq<State>)
    requires Inv(s) && s.now <= target && Paced(program, pace)
    ensures Journey(states, target, program) && states[0] == s
    decreases Level(s.now, target, pace), CountLive(s.tasks, Bound(s.now, target, pace))
  {
    if FindDue(s.tasks, target).None? {
      states := [s];
      assert TurnAt(states, target, program, 0);
    } else {
      TurnKeeps(s, target, program);
      TurnMoves(s, target, program);
      TurnDecreases(s, target, program, pace);
      var rest := AdvanceEnds(Turn(s, target, program), target, program, pace);
      states := Depart(s, rest, target, program);
    }
  }

  lemma Depart(s: State, rest: seq<State>, target: real, program: Program) returns (states: seq<State>)
    requires Journey(rest, target, program) && TurnsInto(s, target, program, rest[0])
    ensures Journey(states, target, program) && states[0] == s
  {
    states := [s] + rest;
    forall i | 0 <= i < |states|
      ensures TurnAt(states, target, program, i)
    {
      if i > 0 { assert TurnAt(rest, target, program, i - 1); }
    }
  }

  /** An advance goes one way. */
  lemma {:induction false} AdvanceUnique(a: seq<State>, b: seq<State>, target: real, program: Program)
    requires Journey(a, target, program) && Journey(b, target, program) && a[0] == b[0]
    ensures a == b
  {
    assert TurnAt(a, target, program, 0) && TurnAt(b, target, program, 0);
    if |a| > 1 {
      JourneyTail(a, target, program);
      JourneyTail(b, target, program);
      AdvanceUnique(a[1..], b[1..], target, program);
    }
  }

  ghost predicate Reaches(c: Config, d: Config, configs: seq<Config>, steps: seq<Step>)
  {
    Path(c, configs, steps) && configs[|steps|] == d
  }

  lemma OneStep(c: Config, d: Config, e: Config, configs: seq<Config>, steps: seq<Step>, step: Step)
    requires Next(c, step, d) && Reaches(d, e, configs, steps)
    ensures Reaches(c, e, [c] + configs, [step] + steps)
  {
    var all := [step] + steps;
    forall i | 0 <= i < |all|
      ensures Next(([c] + configs)[i], all[i], ([c] + configs)[i + 1])
    {
      if i > 0 { assert Next(configs[i - 1], steps[i - 1], configs[i]); }
    }
  }

  function StepOf(action: Action): Step
  {
    match action
    case ScheduleAfter(delay) => DoSchedule(delay)
    case CancelTask(id) => DoCancel(id)
  }

  lemma {:induction false} ActsRun(s: State, actions: seq<Action>, target: real, e: Config, configs: seq<Config>, steps: seq<Step>)
    returns (allConfigs: seq<Config>, allSteps: seq<Step>)
    requires Forward(actions) && Reaches(Config(Acts(s, actions), Advancing(target)), e, configs, steps)
    ensures Reaches(Config(s, Advancing(target)), e, allConfigs, allSteps)
    decreases actions
  {
    if actions == [] {
      allConfigs, allSteps := configs, steps;
    } else {
      var init, last := actions[..|actions| - 1], actions[|actions| - 1];
      assert last in actions;
      var c, d := Config(Acts(s, init), Advancing(target)), Config(Acts(s, actions), Advancing(target));
      assert Next(c, StepOf(last), d);
      OneStep(c, d, e, configs, steps, StepOf(last));
      allConfigs, allSteps := ActsRun(s, init, target, e, [c] + configs, [StepOf(last)] + steps);
    }
  }

  lemma TurnRun(s: State, target: real, program: Program, e: Config, configs: seq<Config>, steps: seq<Step>)
    returns (allConfigs: seq<Config>, allSteps: seq<Step>)
    requires FindDue(s.tasks, target).Some?
    requires Reaches(Config(Turn(s, target, program), Advancing(target)), e, configs, steps)
    ensures Reaches(Config(s, Advancing(target)), e, allConfigs, allSteps)
  {
    var fired := Fire(s, FindDue(s.tasks, target).value);
    allConfigs, allSteps := ActsRun(fired, program(fired.log), target, e, configs, steps);
    OneStep(Config(s, Advancing(target)), Config(fired, Advancing(target)), e, allConfigs, allSteps, DoFire);
    allConfigs, allSteps := [Config(s, Advancing(target))] + allConfigs, [DoFire] + allSteps;
  }

  /** Every advance is a sequence of the clock's steps. */
  lemma {:induction false} AdvanceIsRun(states: seq<State>, target: real, program: Program)
    returns (configs: seq<Config>, steps: seq<Step>)
    requires Journey(states, target, program)
    ensures Reaches(Config(states[0], Advancing(target)), Config(Arrival(states, target), Idle), configs, steps)
  {
    var c, e := Config(states[0], Advancing(target)), Config(Arrival(states, target), Idle);
    if |states| == 1 {
      assert TurnAt(states, target, program, 0);
      configs, steps := [c, e], [Finish];
    } else {
      JourneyTail(states, target, program);
      configs, steps := AdvanceIsRun(states[1..], target, program);
      configs, steps := TurnRun(states[0], target, program, e, configs, steps);
    }
  }

  lemma {:induction false} AdvanceGrows(states: seq<State>, target: real, program: Program)
    requires Journey(states, target, program)
    ensures states[0].log <= Arrival(states, target).log
  {
    if |states| > 1 {
      JourneyTail(states, target, program);
      TurnGrows(states[0], target, program);
      AdvanceGrows(states[1..], target, program);
    }
  }

  /** An advance that ends has reached its target with nothing overdue, and has kept the order of firings throughout. */
  lemma AdvanceReachesTarget(states: seq<State>, target: real, program: Program)
    requires Journey(states, target, program)
    requires Inv(states[0]) && states[0].now <= target
    ensures var goal := Arrival(states, target);
            Inv(goal) && GoodLog(goal.log) && states[0].log <= goal.log && goal.now == target && NothingOverdue(goal)
  {
    var goal := Arrival(states, target);
    var configs, steps := AdvanceIsRun(states, target, program);
    PathKeepsInv(Config(states[0], Advancing(target)), configs, steps, |steps|);
    AdvanceGrows(states, target, program);
    assert TurnAt(states, target, program, |states| - 1);
    FinishedNotOverdue(goal, target);
  }

  // ----- Without a positive pace an advance need not end

  /** Each firing schedules another task for the same time. */
  function Echo(log: seq<Event>): seq<Action>
  {
    [ScheduleAfter(0.0)]
  }

  lemma EchoTurn(s: State, target: real)
    requires FindDue(s.tasks, target).Some?
    ensures Turn(s, target, Echo) == Schedule(Fire(s, FindDue(s.tasks, target).value), 0.0)
  {
    var fired := Fire(s, FindDue(s.tasks, target).value);
    assert Echo(fired.log)[..0] == [];
    assert Acts(fired, []) == fired;
  }

  lemma ScheduledNowIsDue(s: State, target: real)
    requires Ordered(s.tasks) && s.now <= target
    ensures FindDue(Schedule(s, 0.0).tasks, target).Some?
  {
    var again := Task(s.nextId, s.now + 0.0, false);
    InsertMembers(s.tasks, again);
    assert again in Schedule(s, 0.0).tasks;
  }

  ghost predicate Tidy(s: State)
  {
    Ordered(s.tasks) && Numbered(s.tasks, s.nextId)
  }

  lemma FireTidy(s: State, k: nat)
    requires Tidy(s) && k < |s.tasks|
    ensures Tidy(Fire(s, k))
  {
    FireDisables(s, k);
    DisableKeeps(s.tasks, s.tasks[k].id, s.nextId);
  }

  lemma ScheduleTidy(s: State, delay: real)
    requires Tidy(s)
    ensures Tidy(Schedule(s, delay))
  {
    InsertOrdered(s.tasks, Task(s.nextId, s.now + delay, false));
    InsertMembers(s.tasks, Task(s.nextId, s.now + delay, false));
  }

  lemma EchoAgain(s: State, target: real)
    requires Tidy(s) && FindDue(s.tasks, target).Some?
    ensures var r := Turn(s, target, Echo); Tidy(r) && FindDue(r.tasks, target).Some?
  {
    var k := FindDue(s.tasks, target).value;
    EchoTurn(s, target);
    FireTidy(s, k);
    ScheduleTidy(Fire(s, k), 0.0);
    ScheduledNowIsDue(Fire(s, k), target);
  }

  /** Such an advance fires again and again: no number of turns brings it to an end. */
  lemma {:induction false} EchoNeverEnds(states: seq<State>, target: real)
    requires states != [] && Tidy(states[0]) && FindDue(states[0].tasks, target).Some?
    ensures !Journey(states, target, Echo)
  {
    if Journey(states, target, Echo) {
      assert TurnAt(states, target, Echo, 0);
      JourneyTail(states, target, Echo);
      EchoAgain(states[0], target);
      EchoNeverEnds(states[1..], target);
    }
  }
}
