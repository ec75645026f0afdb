/** The scheduler: the record of the current task, the vector with those of the others, and the lock. */
module Schedulers {
  import opened KVectors
  import opened SchedulerModel

  class Scheduler {
    var currentTask: Task
    const allTasks: KVector<Task>
    var locked: bool                 // editing_task_list
    var cpu: Registers               // what the processor holds
    var nextId: nat                  // the tasks made so far; the kernel does not count them
    ghost var freed: seq<Allocation> // what was passed to free_mem

    ghost predicate Valid()
      reads this, allTasks
    {
      allTasks.Valid()
    }

    ghost function Current(): State
      requires Valid()
      reads this, allTasks, allTasks.items
    {
      State(currentTask, allTasks.Contents(), cpu, locked, nextId, freed)
    }

    /** `init_scheduler`: the record of the initial task, which runs already. */
    constructor (registers: Registers, allocations: seq<Allocation>)
      ensures Valid() && fresh(allTasks) && fresh(allTasks.items) && Inv(Current())
      ensures Current().tasks == [] && Current().cpu == registers && Current().current.allocations == allocations
      ensures Current().current.count == 0 && Current().freed == []
    {
      currentTask := Task(0, Context(registers, Starting), Runnable, 0, allocations);
      allTasks := new KVector<Task>();
      locked, cpu, nextId, freed := false, registers, 1, [];
    }

    method FindNextTask() returns (next: nat)
      requires Valid()
      ensures next == FindNext(allTasks.Contents())
    {
      ghost var all := allTasks.Contents();
      FindNextNone(all);
      Items();
      hide *;
      var found := false;
      next := 0;
      for i := 0 to allTasks.numItems
        invariant found ==> next == FindNext(all[..i]) < i
        invariant !found ==> FindNext(all[..i]) == i
      {
        FindNextStep(all, i);
        var p := allTasks.items[i];
        if p.state.Runnable? {
          if !found || allTasks.items[next].count > p.count {
            found, next := true, i;
          }
        }
      }
      if !found {
        next := allTasks.numItems;
      }
    }

    lemma Items()
      requires allTasks.Valid()
      ensures |allTasks.Contents()| == allTasks.numItems <= allTasks.items.Length
      ensures forall i :: 0 <= i < allTasks.numItems ==> allTasks.items[i] == allTasks.Contents()[i]
      ensures allTasks.Contents()[..allTasks.numItems] == allTasks.Contents()
    {
    }

    /** `swap_task_registers`: save the processor's registers in the record at `slot`, with the point
        where the task goes on, and load those of the current record. */
    method SwapTaskRegisters(slot: nat, at: Point) returns (goesOnAt: Point)
      requires Valid() && slot < |allTasks.Contents()|
      modifies this`cpu, allTasks.items
      ensures Valid() && goesOnAt == currentTask.saved.at && cpu == currentTask.saved.registers
      ensures allTasks.Contents() ==
              old(allTasks.Contents())[slot := old(allTasks.Contents())[slot].(saved := Context(old(cpu), at))]
    {
      var record := allTasks.Get(slot);
      allTasks.Set(record.(saved := Context(cpu, at)), slot);
      cpu, goesOnAt := currentTask.saved.registers, currentTask.saved.at;
    }

    method SwapRecords(next: nat)
      requires Valid() && next < |allTasks.Contents()|
      modifies this`currentTask, allTasks.items
      ensures Valid() && currentTask == old(allTasks.Contents())[next]
      ensures allTasks.Contents() == old(allTasks.Contents())[next := old(currentTask)]
    {
      var record := allTasks.Get(next);
      allTasks.Set(currentTask, next);
      currentTask := record;
    }

    /** The record of the current task changes places with the one at `next`, and the registers with
        it: the code behind a call of this runs in the task switched to, at `goesOnAt`. */
    method Switch(next: nat, at: Point) returns (goesOnAt: Point)
      requires Valid() && next < |allTasks.Contents()|
      modifies this`currentTask, this`cpu, allTasks.items
      ensures Valid() && Current() == SwitchTo(old(Current()), next, old(currentTask.state), at)
      ensures goesOnAt == old(allTasks.Contents())[next].saved.at
    {
      SwapRecords(next);
      currentTask := currentTask.(count := (currentTask.count + 1) % COUNTS);
      goesOnAt := SwapTaskRegisters(next, at);
    }

    /** `sched`, up to the end of it in the task switched to. */
    method Sched()
      requires Valid() && (locked || Inv(Current()))
      modifies this`currentTask, this`cpu, this`locked, allTasks.items
      ensures Valid() && Current() == Yield(old(Current()))
    {
      if locked {
        return;
      }
      ghost var s := Current();
      YieldIs(s);
      hide *;
      CurrentIs();
      locked := true;
      var next := FindNextTask();
      CurrentIs();
      if next == allTasks.numItems {
        locked := false;
        CurrentIs();
        return;
      }
      var at := Switch(next, InSched);
      CurrentIs();
      LeaveScheduler(at);
      CurrentIs();
    }

    lemma CurrentIs()
      requires allTasks.Valid()
      ensures Valid() && Current() == State(currentTask, allTasks.Contents(), cpu, locked, nextId, freed)
      ensures |allTasks.Contents()| == allTasks.numItems
    {
    }

    /** What the incoming task does first: the end of `sched`, or `exit_scheduler_stub`. */
    method LeaveScheduler(at: Point)
      requires locked && !at.InEnd?
      modifies this`locked
      ensures !locked
    {
      match at {
        case InSched => locked := false;
        case Starting => locked := false;
      }
    }

    /** The task is made and added; with the lock held this waits for it, forever: on one processor the
        task that holds the lock does not run meanwhile. */
    method AddNewTask(registers: Registers, allocations: seq<Allocation>) returns (waits: bool)
      requires Valid()
      modifies this`locked, this`nextId, allTasks, allTasks.items
      ensures waits == old(locked) && Valid()
      ensures Current() == if waits then old(Current()) else Add(old(Current()), registers, allocations)
      ensures allTasks.items == old(allTasks.items) || fresh(allTasks.items)
    {
      if locked {
        return true;
      }
      locked := true;
      allTasks.PushBack(Task(nextId, Context(registers, Starting), Runnable, 0, allocations));
      nextId := nextId + 1;
      locked := false;
      return false;
    }

    /** `end_cur_task`, up to where another task runs; without one it halts, and with the lock held it
        waits. */
    method EndCurTask() returns (r: EndResult)
      requires Valid() && (locked || Inv(Current()))
      modifies this`currentTask, this`cpu, this`locked, allTasks.items
      ensures Valid() && Current() == if r.Waits? then old(Current()) else End(old(Current()))
      ensures r.Waits? <==> old(locked)
      ensures r.Halts? <==>
                !old(locked) && forall i :: 0 <= i < |old(Current()).tasks| ==> old(Current()).tasks[i].state.Finished?
    {
      if locked {
        return Waits;
      }
      ghost var s := Current();
      EndIs(s);
      hide *;
      CurrentIs();
      locked := true;
      var next := FindNextTask();
      if next == allTasks.numItems {
        locked := false;
        CurrentIs();
        return Halts;
      }
      currentTask := currentTask.(state := Finished);
      CurrentIs();
      var at := Switch(next, InEnd);
      CurrentIs();
      LeaveScheduler(at);
      CurrentIs();
      return Switches;
    }

    method CleanupFinishedTasks()
      requires Valid()
      modifies this`locked, this`freed, allTasks`numItems, allTasks.items
      ensures Valid() && Current() == Cleanup(old(Current())) && allTasks.items == old(allTasks.items)
    {
      if locked {
        return;
      }
      locked := true;
      EraseFinished();
      locked := false;
    }

    /** The loop of the cleanup, at position `k` of the vector as it was, and at `task` as it is. */
    ghost predicate Cleaning(all: seq<Task>, k: nat, task: nat, before: seq<Allocation>)
      reads this, allTasks, allTasks.items
    {
      && allTasks.Valid() && k <= |all| && task == |Unfinished(all[..k])|
      && allTasks.Contents() == Unfinished(all[..k]) + all[k..] && allTasks.numItems == task + (|all| - k)
      && freed == before + FreedBy(all[..k])
    }

    /** The loop erases while it walks: a position stays good because nothing is reallocated. */
    method EraseFinished()
      requires allTasks.Valid()
      modifies this`freed, allTasks`numItems, allTasks.items
      ensures Valid() && allTasks.items == old(allTasks.items)
      ensures allTasks.Contents() == Unfinished(old(allTasks.Contents()))
      ensures freed == old(freed) + FreedBy(old(allTasks.Contents()))
    {
      hide *;
      ghost var all, k, before := allTasks.Contents(), 0, freed;
      var task := 0;
      CleaningStarts(all);
      while task != allTasks.numItems
        invariant Cleaning(all, k, task, before) && allTasks.items == old(allTasks.items) && k <= |all|
        invariant task != allTasks.numItems <==> k < |all|
        decreases |all| - k
      {
        task := CleanupOne(task, all, k, before);
        k := k + 1;
        CleaningGoesOn(all, k, task, before);
      }
      CleaningEnds(all, k, task, before);
    }

    /** The body of the loop: free and erase, or step over. */
    method CleanupOne(task: nat, ghost all: seq<Task>, ghost k: nat, ghost before: seq<Allocation>) returns (next: nat)
      requires Cleaning(all, k, task, before) && k < |all|
      modifies this`freed, allTasks`numItems, allTasks.items
      ensures Cleaning(all, k + 1, next, before) && allTasks.items == old(allTasks.items)
    {
      CleanupStep(all, k, before);
      hide Unfinished, FreedBy;
      next := task;
      var t := allTasks.Get(task);
      if t.state.Finished? {
        FreeAllocations(t.allocations);
        allTasks.Erase(task);
      } else {
        next := task + 1;
      }
    }

    lemma CleaningStarts(all: seq<Task>)
      requires allTasks.Valid() && all == allTasks.Contents()
      ensures Cleaning(all, 0, 0, freed) && (0 != allTasks.numItems <==> 0 < |all|)
    {
      CleanupStarts(all);
    }

    lemma CleaningGoesOn(all: seq<Task>, k: nat, task: nat, before: seq<Allocation>)
      requires Cleaning(all, k, task, before)
      ensures k <= |all| && (task != allTasks.numItems <==> k < |all|)
    {
    }

    lemma CleaningEnds(all: seq<Task>, k: nat, task: nat, before: seq<Allocation>)
      requires Cleaning(all, k, task, before) && k == |all|
      ensures Valid() && allTasks.Contents() == Unfinished(all) && freed == before + FreedBy(all)
    {
      assert all[..k] == all && all[k..] == [];
    }

    method FreeAllocations(allocations: seq<Allocation>)
      modifies this`freed
      ensures freed == old(freed) + allocations
    {
      for j := 0 to |allocations|
        invariant freed == old(freed) + allocations[..j]
      {
        freed := freed + [allocations[j]];  // free_mem
      }
    }

    /** `scheduler_handle_tick`; in a new second it adds a task, and waits if the lock is held. */
    method HandleTick(newSecond: bool, registers: Registers, allocations: seq<Allocation>) returns (waits: bool)
      requires Valid() && (locked || Inv(Current()))
      modifies this, allTasks, allTasks.items
      ensures Valid() && (waits <==> newSecond && old(locked))
      ensures var s := Cleanup(old(Current()));
              Current() == if waits then old(Current())
                           else Yield(if newSecond then Add(s, registers, allocations) else s)
    {
      ghost var s := Current();
      CleanupFinishedTasks();
      if !s.held {
        ExecKeepsInv(s, CleanupOp);
      }
      if newSecond {
        if !s.held {
          ExecKeepsInv(Current(), AddOp(registers, allocations));
        }
        waits := AddNewTask(registers, allocations);
        if waits {
          return;
        }
      }
      Sched();
      return false;
    }
  }

  /** The choice of `sched`, and the state after the switch to it, with the lock released. */
  lemma YieldIs(s: State)
    requires Inv(s)
    ensures var i := FindNext(s.tasks);
            && i <= |s.tasks| && (i == |s.tasks| ==> Yield(s) == s)
            && (i < |s.tasks| ==>
                  && !s.tasks[i].saved.at.InEnd?
                  && SwitchTo(s.(held := true), i, s.current.state, InSched).(held := false) == Yield(s))
  {
  }

  /** The same for `end_cur_task`. */
  lemma EndIs(s: State)
    requires Inv(s)
    ensures var (i, ended) := (FindNext(s.tasks), s.current.(state := Finished));
            && i <= |s.tasks| && (i == |s.tasks| ==> End(s) == s)
            && (i == |s.tasks| <==> forall j :: 0 <= j < |s.tasks| ==> s.tasks[j].state.Finished?)
            && (i < |s.tasks| ==>
                  && !s.tasks[i].saved.at.InEnd?
                  && SwitchTo(s.(held := true, current := ended), i, Finished, InEnd).(held := false) == End(s))
  {
    hide Inv;
    assert FindNext(s.tasks) < |s.tasks| ==> s.tasks[FindNext(s.tasks)].state.Runnable?;
    ReadyAt(s);
  }

  lemma ReadyAt(s: State)
    requires Inv(s)
    ensures !s.held
    ensures forall j :: 0 <= j < |s.tasks| && s.tasks[j].state.Runnable? ==> !s.tasks[j].saved.at.InEnd?
  {
  }

  datatype EndResult = Switches | Halts | Waits

  lemma FindNextNone(all: seq<Task>)
    ensures FindNext(all[..0]) == 0
  {
  }

  lemma FindNextStep(all: seq<Task>, i: nat)
    requires i < |all|
    ensures var (j, n) := (FindNext(all[..i]), FindNext(all[..i + 1]));
            && j <= i && n <= i + 1
            && n == if all[i].state.Runnable? && (j == i || all[j].count > all[i].count) then i
                    else if j == i then i + 1 else j
  {
    assert all[..i + 1][..i] == all[..i];
  }

  lemma CleanupStarts(all: seq<Task>)
    ensures Unfinished(all[..0]) == [] && FreedBy(all[..0]) == [] && all[0..] == all
  {
  }

  /** The vector and the freed allocations when the loop gets to position `k` of the original vector. */
  lemma CleanupStep(all: seq<Task>, k: nat, before: seq<Allocation>)
    requires k < |all|
    ensures var (s, p) := (Unfinished(all[..k]) + all[k..], |Unfinished(all[..k])|);
            var (t, q) := (Unfinished(all[..k + 1]) + all[k + 1..], |Unfinished(all[..k + 1])|);
            && p < |s| && s[p] == all[k]
            && if all[k].state.Finished? then
                 q == p && s[..p] + s[p + 1..] == t &&
                   before + FreedBy(all[..k]) + all[k].allocations == before + FreedBy(all[..k + 1])
               else
                 q == p + 1 && s == t && FreedBy(all[..k]) == FreedBy(all[..k + 1])
  {
    assert all[..k + 1][..k] == all[..k];
    assert all[k..] == [all[k]] + all[k + 1..];
    var done := Unfinished(all[..k]);
    if !all[k].state.Finished? {
      assert (done + [all[k]]) + all[k + 1..] == done + ([all[k]] + all[k + 1..]);
    }
  }
}
