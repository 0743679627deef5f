/** The task manager and the timer handler, which edit the task table in place. */
module TaskManagers {
  import opened Machine
  import opened Scheduling

  datatype Status = New | Ready | Running | Waiting

  class Task {
    const pid: Word
    var state: Status

    constructor (pid: Word)
      ensures this.pid == pid && state == New
    {
      this.pid, state := pid, New;
    }
  }

  /** The system task manager with the two global counters; the log stands for running a task. */
  class TaskManager {
    const tasks: array<Task?>
    var numTasks: nat
    var currentTask: Word
    var remTasks: Word
    var timerTicks: nat
    var log: seq<Word>

    ghost predicate Valid()
      reads this, tasks
    {
      tasks.Length == SLOTS && Counted(State())
    }

    ghost function State(): Table
      reads this, tasks
    {
      Table(seq(tasks.Length, i requires 0 <= i < tasks.Length reads this, tasks => tasks[i] != null),
            numTasks, currentTask, remTasks, timerTicks, log)
    }

    /** The tasks in the table. */
    ghost function Members(): set<Task>
      reads this, tasks
    {
      set i | 0 <= i < tasks.Length && tasks[i] != null :: tasks[i]
    }

    constructor ()
      ensures Valid() && State() == EMPTY && fresh(tasks) && Members() == {}
    {
      tasks := new Task?[SLOTS](_ => null);
      numTasks, currentTask, remTasks, timerTicks, log := 0, 0xFF, 0, 0, [];
      new;
      OccupiedAll(EMPTY.slots, false);
      assert State().slots == EMPTY.slots;
    }

    /** Puts a task into the first free slot; a full table is left alone. */
    method AddTask(t: Task)
      requires Valid()
      modifies this, tasks, t
      ensures Valid() && State() == Add(old(State()), t.pid)
      ensures old(numTasks) != SLOTS ==> t.state == Ready && exists i :: 0 <= i < SLOTS && tasks[i] == t
      ensures forall i :: 0 <= i < SLOTS && old(tasks[i]) != null ==> tasks[i] == old(tasks[i])
      ensures Members() <= old(Members()) + {t}
    {
      ghost var before := State();
      AfterCounted(before, AddEvent(t.pid));
      if numTasks == SLOTS {
        return;
      }
      if FirstFree(before.slots) == SLOTS {
        OccupiedAll(before.slots, true);
      }
      var i := 0;
      while tasks[i] != null
        invariant 0 <= i < SLOTS && forall k :: 0 <= k < i ==> tasks[k] != null
        invariant State() == before && FirstFree(before.slots) < SLOTS
        decreases SLOTS - i
      {
        assert before.slots[FirstFree(before.slots)] == (tasks[FirstFree(before.slots)] != null);
        i := i + 1;
      }
      FirstFreeIs(before.slots, i);
      tasks[i] := t;
      numTasks := numTasks + 1;
      currentTask := t.pid;
      t.state := Ready;
      remTasks := Increment(remTasks);
      assert State().slots == before.slots[i := true];
    }

    method RemoveTask(index: nat)
      requires Valid() && index < SLOTS
      modifies tasks
      ensures Valid() && State() == Remove(old(State()), index)
    {
      ghost var before := State();
      AfterCounted(before, RemoveEvent(index));
      tasks[index] := null;
      assert State().slots == before.slots[index := false];
    }

    method ClearManager()
      requires Valid()
      modifies this, tasks
      ensures Valid() && State() == Clear(old(State()))
    {
      ghost var before := State();
      AfterCounted(before, ClearEvent);
      if numTasks == 0 {
        return;
      }
      for i := 0 to SLOTS
        invariant tasks.Length == SLOTS
        invariant forall k :: 0 <= k < i ==> tasks[k] == null
        invariant numTasks == before.num && currentTask == before.current && remTasks == before.rem
        invariant timerTicks == before.ticks && log == before.log
      {
        tasks[i] := null;
      }
      numTasks := 0;
      currentTask := 0;
      assert State().slots == seq(SLOTS, _ => false);
    }

    /** Runs the current task and takes it out of the table. The state of an absent task, and of one
        behind the table, is not written. */
    method Schedule()
      requires Valid()
      requires numTasks > 0 ==> currentTask < SLOTS && tasks[currentTask] != null
      modifies this, tasks, Members()
      ensures Valid() && State() == Dispatch(old(State()))
      ensures forall i :: 0 <= i < SLOTS ==> tasks[i] == null || tasks[i] == old(tasks[i])
      ensures Members() <= old(Members())
      ensures old(numTasks) > 0 && (old(numTasks) < SLOTS ==> old(tasks[numTasks]) != old(tasks[currentTask])) ==>
        old(tasks[currentTask]).state == Running
      ensures old(numTasks) > 0 && old(currentTask) > 0 && old(tasks[currentTask - 1]) != null
              && old(tasks[currentTask - 1]) != old(tasks[currentTask]) ==>
        old(tasks[currentTask - 1]).state == Waiting
      ensures forall t: Task :: t in old(Members()) && t !in old(Members() * Touched()) ==> t.state == old(t.state)
    {
      hide Occupied, FirstFree;
      ghost var before := State();
      DispatchCounted(before);
      if numTasks <= 0 {
        return;
      }
      log := log + [currentTask];
      if currentTask == 0 {
        tasks[currentTask].state := Running;
      } else {
        if tasks[currentTask - 1] != null {
          tasks[currentTask - 1].state := Waiting;
        }
        tasks[currentTask].state := Running;
      }
      tasks[currentTask] := null;
      remTasks := Decrement(remTasks);
      currentTask := Increment(currentTask);
      if currentTask >= numTasks {
        currentTask := currentTask % numTasks;
        if numTasks < SLOTS && tasks[numTasks] != null {
          tasks[numTasks].state := Waiting;
        }
      }
      assert State().slots == before.slots[before.current := false];
    }

    /** The tasks whose state a dispatch may write. */
    ghost function Touched(): set<Task>
      reads this, tasks
    {
      set i | 0 <= i < tasks.Length && tasks[i] != null
              && (i == currentTask || i + 1 == currentTask || i == numTasks) :: tasks[i]
    }

    /** Counts a tick, and runs a task on every eighteenth. */
    method TimerHandler()
      requires Valid() && !Faults(State())
      modifies this, tasks, Members()
      ensures Valid() && State() == Tick(old(State()))
      ensures forall i :: 0 <= i < SLOTS ==> tasks[i] == null || tasks[i] == old(tasks[i])
      ensures Members() <= old(Members())
    {
      ghost var before := State();
      timerTicks := timerTicks + 1;
      assert State() == before.(ticks := timerTicks) by {
        assert State().slots == before.slots;
      }
      if timerTicks % PERIOD == 0 {
        if remTasks > 0 {
          Schedule();
        }
      }
    }
  }

  /** Fills an empty table. */
  method Fill(pids: seq<Word>) returns (manager: TaskManager)
    requires |pids| <= SLOTS
    ensures fresh(manager) && fresh(manager.tasks) && fresh(manager.Members())
    ensures manager.Valid() && manager.State() == AddAll(EMPTY, pids)
  {
    hide Add, Counted;
    manager := new TaskManager();
    var i := 0;
    assert pids[..0] == [];
    while i < |pids|
      invariant 0 <= i <= |pids| && fresh(manager) && fresh(manager.tasks) && manager.Valid()
      invariant manager.State() == AddAll(EMPTY, pids[..i])
      invariant fresh(manager.Members())
    {
      var t := new Task(pids[i]);
      manager.AddTask(t);
      assert pids[..i + 1][..i] == pids[..i];
      i := i + 1;
    }
    assert pids[..|pids|] == pids;
  }

  /** Fills an empty table and lets the timer run; no tick calls through an empty slot. */
  method Boot(pids: seq<Word>, m: nat) returns (manager: TaskManager)
    requires 0 < |pids| <= SLOTS && pids[|pids| - 1] < |pids|
    ensures fresh(manager) && manager.Valid() && manager.State() == Ticks(AddAll(EMPTY, pids), m)
  {
    hide Tick, AddAll, Counted, Faults, Occupied;
    manager := Fill(pids);
    AddAllLoaded(pids);
    var j := 0;
    while j < m
      invariant 0 <= j <= m && fresh(manager) && fresh(manager.tasks) && manager.Valid()
      invariant manager.State() == Ticks(AddAll(EMPTY, pids), j)
      invariant fresh(manager.Members())
    {
      DispatchOrder(pids, j);
      manager.TimerHandler();
      j := j + 1;
    }
  }
}
