/** The logical clock itself: its fields and the methods that update them. */
module LogicalClock {
  import opened Sequences
  import opened Wrappers
  import opened ClockModel
  import opened ClockAdvance
  import opened ClockDelays

  class ScheduledTask {
    const id: nat
    const at: real
    var cancelled: bool

    constructor (id: nat, at: real)
      ensures this.id == id && this.at == at && !cancelled
    {
      this.id, this.at, cancelled := id, at, false;
    }
  }

  /** The tasks as the specification sees them. */
  ghost predicate Mirrors(tasks: seq<ScheduledTask>, values: seq<Task>)
    reads tasks`cancelled
  {
    && |values| == |tasks|
    && forall i | 0 <= i < |tasks| :: values[i] == Task(tasks[i].id, tasks[i].at, tasks[i].cancelled)
  }

  /** The order that the source sorts by. */
  predicate Precedes(a: ScheduledTask, b: ScheduledTask)
  {
    Before(a.at, a.id, b.at, b.id)
  }

  function InsertTask(tasks: seq<ScheduledTask>, t: ScheduledTask): seq<ScheduledTask>
  {
    if tasks == [] || !Precedes(t, tasks[|tasks| - 1]) then tasks + [t]
    else InsertTask(tasks[..|tasks| - 1], t) + [tasks[|tasks| - 1]]
  }

  function SortTasks(tasks: seq<ScheduledTask>): seq<ScheduledTask>
  {
    if tasks == [] then [] else InsertTask(SortTasks(tasks[..|tasks| - 1]), tasks[|tasks| - 1])
  }

  /** The tasks are in order and have numbers of their own. */
  ghost predicate Listed(tasks: seq<ScheduledTask>, nextId: nat)
  {
    && (forall i, j | 0 <= i < j < |tasks| :: Precedes(tasks[i], tasks[j]) && tasks[i].id != tasks[j].id)
    && (forall i | 0 <= i < |tasks| :: tasks[i].id < nextId)
  }

  lemma {:induction false} SortedTasksStay(tasks: seq<ScheduledTask>)
    requires forall i, j | 0 <= i < j < |tasks| :: Precedes(tasks[i], tasks[j])
    ensures SortTasks(tasks) == tasks
  {
    if tasks != [] {
      var n := |tasks|;
      SortedTasksStay(tasks[..n - 1]);
      if n > 1 { assert Precedes(tasks[n - 2], tasks[n - 1]); }
    }
  }

  lemma {:induction false} InsertTaskAt(tasks: seq<ScheduledTask>, t: ScheduledTask) returns (k: nat)
    requires forall i, j | 0 <= i < j < |tasks| :: Precedes(tasks[i], tasks[j])
    ensures k <= |tasks| && InsertTask(tasks, t) == tasks[..k] + [t] + tasks[k..]
    ensures forall i | 0 <= i < k :: !Precedes(t, tasks[i])
    ensures forall i | k <= i < |tasks| :: Precedes(t, tasks[i])
  {
    if tasks == [] || !Precedes(t, tasks[|tasks| - 1]) {
      k := |tasks|;
      assert tasks[..k] == tasks && tasks[k..] == [];
      forall i | 0 <= i < k
        ensures !Precedes(t, tasks[i])
      {
        assert i < |tasks| - 1 ==> Precedes(tasks[i], tasks[|tasks| - 1]);
      }
    } else {
      var init, last := tasks[..|tasks| - 1], tasks[|tasks| - 1];
      k := InsertTaskAt(init, t);
      assert init[..k] == tasks[..k];
      assert init[k..] + [last] == tasks[k..];
      Assoc(init[..k] + [t], init[k..], [last]);
    }
  }

  ghost predicate Placed(r: seq<ScheduledTask>, tasks: seq<ScheduledTask>, t: ScheduledTask, k: nat)
    requires k <= |tasks|
  {
    && |r| == |tasks| + 1
    && (forall i | 0 <= i < k :: r[i] == tasks[i])
    && r[k] == t
    && (forall i | k < i <= |tasks| :: r[i] == tasks[i - 1])
  }

  lemma ListedPlaced(tasks: seq<ScheduledTask>, t: ScheduledTask, r: seq<ScheduledTask>, k: nat)
    requires Listed(tasks, t.id) && k <= |tasks| && Placed(r, tasks, t, k)
    requires forall i | 0 <= i < k :: !Precedes(t, tasks[i])
    requires forall i | k <= i < |tasks| :: Precedes(t, tasks[i])
    ensures Listed(r, t.id + 1)
  {
    forall i, j | 0 <= i < j < |r|
      ensures Precedes(r[i], r[j]) && r[i].id != r[j].id
    {
      if j == k { assert !Precedes(t, tasks[i]); }
      else if i == k { assert Precedes(t, tasks[j - 1]); }
    }
  }

  lemma ListedInsert(tasks: seq<ScheduledTask>, t: ScheduledTask)
    requires Listed(tasks, t.id)
    ensures Listed(InsertTask(tasks, t), t.id + 1)
  {
    var k := InsertTaskAt(tasks, t);
    assert Placed(tasks[..k] + [t] + tasks[k..], tasks, t, k);
    ListedPlaced(tasks, t, InsertTask(tasks, t), k);
  }

  lemma {:induction false} InsertTaskMembers(tasks: seq<ScheduledTask>, t: ScheduledTask)
    ensures forall x :: x in InsertTask(tasks, t) <==> x in tasks || x == t
  {
    if !(tasks == [] || !Precedes(t, tasks[|tasks| - 1])) {
      InsertTaskMembers(tasks[..|tasks| - 1], t);
      assert tasks == tasks[..|tasks| - 1] + [tasks[|tasks| - 1]];
    }
  }

  lemma {:induction false} InsertMirrors(tasks: seq<ScheduledTask>, values: seq<Task>, t: ScheduledTask)
    requires Mirrors(tasks, values)
    ensures Mirrors(InsertTask(tasks, t), Insert(values, Task(t.id, t.at, t.cancelled)))
  {
    if !(tasks == [] || !Precedes(t, tasks[|tasks| - 1])) {
      InsertMirrors(tasks[..|tasks| - 1], values[..|tasks| - 1], t);
    }
  }

  /** Sorting after adding a task at the end puts it in its place. */
  lemma SortAdded(tasks: seq<ScheduledTask>, t: ScheduledTask)
    requires Listed(tasks, t.id)
    ensures var r := SortTasks(tasks + [t]);
            r == InsertTask(tasks, t) && Listed(r, t.id + 1) && forall x :: x in r <==> x in tasks || x == t
  {
    assert (tasks + [t])[..|tasks|] == tasks;
    SortedTasksStay(tasks);
    ListedInsert(tasks, t);
    InsertTaskMembers(tasks, t);
  }

  /** Pushing a task and sorting. */
  method Place(tasks: seq<ScheduledTask>, t: ScheduledTask, ghost values: seq<Task>)
    returns (r: seq<ScheduledTask>, ghost mirrored: seq<Task>)
    requires Listed(tasks, t.id) && Mirrors(tasks, values)
    ensures Listed(r, t.id + 1) && (forall x :: x in r <==> x in tasks || x == t)
    ensures Mirrors(r, mirrored) && mirrored == Insert(values, Task(t.id, t.at, t.cancelled))
  {
    SortAdded(tasks, t);
    InsertMirrors(tasks, values, t);
    r, mirrored := SortTasks(tasks + [t]), Insert(values, Task(t.id, t.at, t.cancelled));
  }

  lemma JourneyIsPunctual(states: seq<State>, target: real, program: Program)
    requires Journey(states, target, program) && Inv(states[0]) && states[0].now <= target
    ensures Punctual(Arrival(states, target).log, Arrival(states, target).now)
  {
    AdvanceReachesTarget(states, target, program);
    NothingOverdueIsPunctual(Arrival(states, target));
  }

  class LogicalClock {
    var now: real
    var nextId: nat
    var tasks: seq<ScheduledTask>
    /** What callbacks have seen so far. */
    var log: seq<Event>
    ghost var values: seq<Task>
    ghost var repr: set<ScheduledTask>

    ghost function View(): State
      reads this
    {
      State(now, nextId, values, log)
    }

    ghost predicate Valid()
      reads this, tasks`cancelled
    {
      Listed(tasks, nextId) && Mirrors(tasks, values) && forall t | t in tasks :: t in repr
    }

    constructor ()
      ensures Valid() && View() == INITIAL && tasks == []
    {
      now, nextId, tasks, log, values, repr := 0.0, 1, [], [], [], {};
    }

    method Schedule(delay: real) returns (task: ScheduledTask)
      requires Valid() && delay >= 0.0
      modifies this
      ensures Valid() && fresh(task) && task.id == old(nextId) && repr == old(repr) + {task}
      ensures View() == ClockModel.Schedule(old(View()), delay)
      ensures task.at == old(now) + delay && now == old(now) && log == old(log) + [Scheduled(old(nextId), old(now) + delay)]
    {
      task := new ScheduledTask(nextId, now + delay);
      Add(task);
    }

    /** A new task is pushed, and the tasks are sorted again. */
    method Add(task: ScheduledTask)
      requires Valid() && task.id == nextId && !task.cancelled
      modifies this
      ensures Valid() && repr == old(repr) + {task} && now == old(now) && nextId == old(nextId) + 1
      ensures values == Insert(old(values), Task(task.id, task.at, false))
      ensures log == old(log) + [Scheduled(task.id, task.at)]
    {
      ghost var mirrored;
      tasks, mirrored := Place(tasks, task, values);
      values := mirrored;
      nextId := nextId + 1;
      log := log + [Scheduled(task.id, task.at)];
      repr := repr + {task};
    }

    /** What the function returned by scheduling does. */
    method Cancel(task: ScheduledTask)
      requires Valid() && task in tasks
      modifies this`log, this`values, task
      ensures Valid() && View() == ClockModel.Cancel(old(View()), task.id)
    {
      ghost var k :| 0 <= k < |tasks| && tasks[k] == task;
      assert values[k] in values;
      task.cancelled := true;
      log := log + [Cancelled(task.id)];
      values := Disable(values, task.id);
    }

    /** The search for the first due task; none is due when the result is the number of tasks. */
    method Find(target: real) returns (k: nat)
      requires Mirrors(tasks, values)
      ensures k <= |tasks|
      ensures FindDue(values, target) == if k == |tasks| then None else Some(k)
    {
      k := 0;
      while k < |tasks| && (tasks[k].cancelled || tasks[k].at > target)
        invariant k <= |tasks|
        invariant forall i | 0 <= i < k :: !Due(values[i], target)
      {
        k := k + 1;
      }
    }

    /** A callback calls the canceller of a task. */
    method CancelNumber(id: nat)
      requires Valid()
      modifies this`log, this`values, repr
      ensures Valid() && View() == ClockModel.Cancel(old(View()), id)
    {
      for k := 0 to |tasks|
        invariant forall i | 0 <= i < k :: tasks[i].id != id
      {
        if tasks[k].id == id {
          Cancel(tasks[k]);
          return;
        }
      }
      assert !HasNumber(values, id);
    }

    /** What one callback and its continuations do. */
    method Perform(actions: seq<Action>)
      requires Valid() && Forward(actions)
      modifies this, repr
      ensures Valid() && fresh(repr - old(repr))
      ensures View() == Acts(old(View()), actions)
    {
      for i := 0 to |actions|
        invariant Valid() && fresh(repr - old(repr))
        invariant View() == Acts(old(View()), actions[..i])
      {
        assert actions[..i + 1][..i] == actions[..i];
        assert actions[i] in actions;
        if actions[i].ScheduleAfter? {
          var task := Schedule(actions[i].delay);
        } else {
          CancelNumber(actions[i].id);
        }
      }
      assert actions[..|actions|] == actions;
    }

    /** One turn of the loop of an advance. */
    method TakeTurn(k: nat, target: real, program: Program, ghost turned: State)
      requires Valid() && FindDue(values, target) == Some(k) && TurnsInto(View(), target, program, turned)
      modifies this, repr
      ensures Valid() && fresh(repr - old(repr)) && View() == turned
    {
      var task := tasks[k];
      assert task in tasks;
      task.cancelled := true;
      now := task.at;
      log := log + [Fired(task.id, task.at, now)];
      values := values[k := values[k].(cancelled := true)];
      assert View() == Fire(old(View()), k);
      assert FindDue(old(values), target) == Some(k);
      Perform(program(log));
    }

    /** One round of the loop: a turn, and the search for the next task that is due. */
    method TurnAndFind(k: nat, target: real, program: Program, ghost turned: State) returns (next: nat)
      requires Valid() && FindDue(values, target) == Some(k) && TurnsInto(View(), target, program, turned)
      modifies this, repr
      ensures Valid() && fresh(repr - old(repr)) && View() == turned
      ensures next <= |tasks| && FindDue(turned.tasks, target) == if next == |tasks| then None else Some(next)
    {
      TakeTurn(k, target, program, turned);
      next := Find(target);
    }

    /** The advance goes through the states of a journey, and leaves every task on time. */
    method Advance(milliseconds: real, program: Program, ghost states: seq<State>)
      requires Valid() && milliseconds >= 0.0
      requires Journey(states, now + milliseconds, program) && states[0] == View()
      modifies this, repr
      ensures Valid() && fresh(repr - old(repr)) && View() == Arrival(states, old(now) + milliseconds)
      ensures old(Inv(View())) ==> Punctual(log, now)
    {
      GoThrough(milliseconds, program, states);
      if Inv(states[0]) { JourneyIsPunctual(states, now, program); }
    }

    /** Turn by turn, until nothing is due. */
    method GoThrough(milliseconds: real, program: Program, ghost states: seq<State>)
      requires Valid() && milliseconds >= 0.0
      requires Journey(states, now + milliseconds, program) && states[0] == View()
      modifies this, repr
      ensures Valid() && fresh(repr - old(repr)) && View() == Arrival(states, old(now) + milliseconds)
    {
      var target := now + milliseconds;
      ghost var i := 0;
      var k := Find(target);
      while k < |tasks|
        invariant Valid() && fresh(repr - old(repr)) && k <= |tasks|
        invariant i < |states| && View() == states[i]
        invariant FindDue(states[i].tasks, target) == if k == |tasks| then None else Some(k)
        decreases |states| - i
      {
        JourneyGoesOn(states, target, program, i);
        i := i + 1;
        k := TurnAndFind(k, target, program, states[i]);
      }
      JourneyStops(states, target, program, i);
      Arrive(target);
    }

    method Arrive(target: real)
      requires Valid()
      modifies this`now
      ensures Valid() && View() == old(View()).(now := target)
    {
      now := target;
    }

    /**
     The advance of a clock whose callbacks wait for at least some pace. It ends, whatever they schedule and cancel,
     at its target, with nothing overdue and the order of firings kept: every task that nobody cancelled, also those
     scheduled on the way, has fired at its own time if that has come, and not otherwise.
     */
    method AdvanceAtPace(milliseconds: real, program: Program, ghost pace: real)
      requires Valid() && Inv(View()) && milliseconds >= 0.0 && Paced(program, pace)
      modifies this, repr
      ensures Valid() && fresh(repr - old(repr)) && Inv(View())
      ensures now == old(now) + milliseconds && NothingOverdue(View())
      ensures GoodLog(log) && old(log) <= log && Punctual(log, now)
      ensures exists states :: Journey(states, now, program) && states[0] == old(View()) && View() == Arrival(states, now)
    {
      ghost var states := AdvanceEnds(View(), now + milliseconds, program, pace);
      AdvanceReachesTarget(states, now + milliseconds, program);
      Advance(milliseconds, program, states);
    }
  }
}
