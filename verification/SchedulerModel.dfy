/** The scheduler's choice and its switches, as steps over whole states. */
module SchedulerModel {

  const COUNTS: nat := 0x1_0000_0000      // num_times_scheduled is 32 bits wide

  datatype TaskState = Runnable | Finished

  type Registers = seq<nat>

  /** Where a task goes on when its registers are loaded: in `exit_scheduler_stub`, behind the swap in
      `sched`, or behind the one in `end_cur_task`, where nothing may be reached. */
  datatype Point = Starting | InSched | InEnd

  datatype Context = Context(registers: Registers, at: Point)

  datatype Allocation = Allocation(addr: nat, len: nat)

  /** `id` tells tasks apart; the kernel knows them only by where their record is. */
  datatype Task = Task(id: nat, saved: Context, state: TaskState, count: nat, allocations: seq<Allocation>)

  /** `cpu` is what the processor holds for the current task, `freed` what was passed to free_mem. */
  datatype State = State(current: Task, tasks: seq<Task>, cpu: Registers, held: bool, nextId: nat,
    freed: seq<Allocation>)

  // ---------- The steps ----------

  /** Position of the first runnable task that was scheduled least often, or the number of tasks. */
  function FindNext(tasks: seq<Task>): (i: nat)
    ensures i <= |tasks|
    ensures i < |tasks| ==> tasks[i].state.Runnable?
    ensures forall j :: 0 <= j < |tasks| && tasks[j].state.Runnable? ==>
              i < |tasks| && tasks[i].count <= tasks[j].count && (j < i ==> tasks[i].count < tasks[j].count)
  {
    if tasks == [] then 0
    else
      var n := |tasks| - 1;
      var i := FindNext(tasks[..n]);
      assert forall j :: 0 <= j < n ==> tasks[j] == tasks[..n][j];
      if tasks[n].state.Runnable? && (i == n || tasks[i].count > tasks[n].count) then n
      else if i == n then |tasks| else i
  }

  /** The record of the current task changes places with the one at `i`; the processor's registers go
      into the old record, and it gets those of the new one. */
  function SwitchTo(s: State, i: nat, state: TaskState, at: Point): State
    requires i < |s.tasks|
  {
    var next := s.tasks[i];
    s.(current := next.(count := (next.count + 1) % COUNTS),
       tasks := s.tasks[i := s.current.(state := state, saved := Context(s.cpu, at))],
       cpu := next.saved.registers)
  }

  /** `sched`. */
  function Yield(s: State): State {
    if s.held || FindNext(s.tasks) == |s.tasks| then s
    else SwitchTo(s, FindNext(s.tasks), s.current.state, InSched)
  }

  /** `end_cur_task`; without another task the current one halts, still runnable. */
  function End(s: State): State {
    if FindNext(s.tasks) == |s.tasks| then s else SwitchTo(s, FindNext(s.tasks), Finished, InEnd)
  }

  /** `add_new_task`. */
  function Add(s: State, registers: Registers, allocations: seq<Allocation>): State {
    s.(tasks := s.tasks + [Task(s.nextId, Context(registers, Starting), Runnable, 0, allocations)],
      nextId := s.nextId + 1)
  }

  function Unfinished(tasks: seq<Task>): seq<Task> {
    if tasks == [] then []
    else
      var rest := Unfinished(tasks[..|tasks| - 1]);
      if tasks[|tasks| - 1].state.Finished? then rest else rest + [tasks[|tasks| - 1]]
  }

  function FreedBy(tasks: seq<Task>): seq<Allocation> {
    if tasks == [] then []
    else
      var rest := FreedBy(tasks[..|tasks| - 1]);
      if tasks[|tasks| - 1].state.Finished? then rest + tasks[|tasks| - 1].allocations else rest
  }

  /** `cleanup_finished_tasks`. */
  function Cleanup(s: State): State {
    if s.held then s else s.(tasks := Unfinished(s.tasks), freed := s.freed + FreedBy(s.tasks))
  }

  /** What task code can do.  A timer tick is a cleanup, perhaps a new task, and a yield. */
  datatype Op =
    | Compute(registers: Registers)
    | YieldOp
    | EndOp
    | AddOp(registers: Registers, allocations: seq<Allocation>)
    | CleanupOp

  function Exec(s: State, op: Op): State {
    match op
    case Compute(registers) => s.(cpu := registers)
    case YieldOp => Yield(s)
    case EndOp => End(s)
    case AddOp(registers, allocations) => Add(s, registers, allocations)
    case CleanupOp => Cleanup(s)
  }

  function After(s: State, ops: seq<Op>): State
    decreases |ops|
  {
    if ops == [] then s else After(Exec(s, ops[0]), ops[1..])
  }

  // ---------- The invariant ----------

  /** While task code runs the lock is free, the current task is not finished, every task has one
      record, and the finished ones are those that would go on where nothing may be reached. */
  ghost predicate Inv(s: State) {
    && !s.held && s.current.state.Runnable? && s.current.id < s.nextId && s.current.count < COUNTS
    && (forall i :: 0 <= i < |s.tasks| ==>
          && s.tasks[i].id < s.nextId && s.tasks[i].id != s.current.id && s.tasks[i].count < COUNTS
          && (s.tasks[i].state.Finished? <==> s.tasks[i].saved.at.InEnd?))
    && Distinct(s.tasks)
  }

  ghost predicate Distinct(tasks: seq<Task>) { forall i, j :: 0 <= i < j < |tasks| ==> tasks[i].id != tasks[j].id }

  lemma SwitchKeepsInv(s: State, i: nat, state: TaskState, at: Point)
    requires Inv(s) && i < |s.tasks| && s.tasks[i].state.Runnable? && (state.Finished? <==> at.InEnd?)
    ensures Inv(SwitchTo(s, i, state, at))
  {
  }

  lemma {:induction false} UnfinishedIn(tasks: seq<Task>)
    ensures forall t :: t in Unfinished(tasks) <==> t in tasks && t.state.Runnable?
  {
    if tasks != [] {
      UnfinishedIn(tasks[..|tasks| - 1]);
      assert tasks == tasks[..|tasks| - 1] + [tasks[|tasks| - 1]];
    }
  }

  lemma {:induction false} UnfinishedDistinct(tasks: seq<Task>)
    requires Distinct(tasks)
    ensures Distinct(Unfinished(tasks))
  {
    if tasks != [] {
      var n := |tasks| - 1;
      UnfinishedDistinct(tasks[..n]);
      UnfinishedIn(tasks[..n]);
      var q := Unfinished(tasks[..n]);
      forall i | 0 <= i < |q| ensures q[i].id != tasks[n].id {
        assert q[i] in tasks[..n];
      }
      assert Unfinished(tasks) == q || Unfinished(tasks) == q + [tasks[n]];
    }
  }

  lemma ExecKeepsInv(s: State, op: Op)
    requires Inv(s)
    ensures Inv(Exec(s, op)) && Exec(s, op).nextId >= s.nextId
  {
    match op
    case Compute(_) =>
    case YieldOp =>
      if FindNext(s.tasks) < |s.tasks| {
        SwitchKeepsInv(s, FindNext(s.tasks), s.current.state, InSched);
      }
    case EndOp =>
      if FindNext(s.tasks) < |s.tasks| {
        SwitchKeepsInv(s, FindNext(s.tasks), Finished, InEnd);
      }
    case AddOp(_, _) =>
    case CleanupOp =>
      UnfinishedIn(s.tasks);
      UnfinishedDistinct(s.tasks);
      var r := Unfinished(s.tasks);
      assert forall i :: 0 <= i < |r| ==> r[i] in s.tasks;
  }

  /** The invariant holds over every run: in particular no finished task is ever current, and nothing
      returns behind the swap in `end_cur_task`. */
  lemma {:induction false} EveryRunKeepsInv(s: State, ops: seq<Op>)
    requires Inv(s)
    ensures Inv(After(s, ops))
    decreases |ops|
  {
    if ops != [] {
      ExecKeepsInv(s, ops[0]);
      EveryRunKeepsInv(Exec(s, ops[0]), ops[1..]);
    }
  }

  // ---------- Contexts ----------

  /** Task `id` is waiting with these registers, to go on at this point. */
  ghost predicate Waiting(s: State, id: nat, c: Context) {
    exists i :: 0 <= i < |s.tasks| && s.tasks[i].id == id && s.tasks[i].state.Runnable? && s.tasks[i].saved == c
  }

  /** The task is not current in any state after one of the steps. */
  ghost predicate Avoids(s: State, ops: seq<Op>, id: nat)
    decreases |ops|
  {
    ops != [] ==> Exec(s, ops[0]).current.id != id && Avoids(Exec(s, ops[0]), ops[1..], id)
  }

  /** One step leaves a waiting task waiting with the same context, or loads exactly its registers. */
  lemma WaitingStep(s: State, op: Op, id: nat, c: Context)
    requires Inv(s) && Waiting(s, id, c)
    ensures var s' := Exec(s, op);
            if s'.current.id == id then s'.cpu == c.registers && (op.YieldOp? || op.EndOp?) else Waiting(s', id, c)
  {
    var i :| 0 <= i < |s.tasks| && s.tasks[i].id == id && s.tasks[i].state.Runnable? && s.tasks[i].saved == c;
    var s' := Exec(s, op);
    if op.CleanupOp? {
      UnfinishedIn(s.tasks);
      assert s.tasks[i] in s'.tasks;
    } else if s'.current.id != id {
      assert s'.tasks[i] == s.tasks[i];
    }
  }

  lemma {:induction false} WaitingRun(s: State, ops: seq<Op>, id: nat, c: Context)
    requires Inv(s) && Waiting(s, id, c) && ops != [] && Avoids(s, ops[..|ops| - 1], id)
    ensures After(s, ops).current.id == id ==> After(s, ops).cpu == c.registers
    decreases |ops|
  {
    WaitingStep(s, ops[0], id, c);
    ExecKeepsInv(s, ops[0]);
    if |ops| > 1 {
      assert ops[..|ops| - 1][1..] == ops[1..][..|ops| - 2];
      WaitingRun(Exec(s, ops[0]), ops[1..], id, c);
    }
  }

  /** Context fidelity: a task that gives up the processor has, when it is next current, exactly the
      registers it had, whatever ran in between. */
  lemma ContextFidelity(s: State, ops: seq<Op>)
    requires Inv(s) && Yield(s).current.id != s.current.id
    requires ops != [] && Avoids(Yield(s), ops[..|ops| - 1], s.current.id)
    requires After(Yield(s), ops).current.id == s.current.id
    ensures After(Yield(s), ops).cpu == s.cpu
  {
    var s' := Yield(s);
    ExecKeepsInv(s, YieldOp);
    assert s'.tasks[FindNext(s.tasks)].saved == Context(s.cpu, InSched);
    WaitingRun(s', ops, s.current.id, Context(s.cpu, InSched));
  }

  /** A new task is the last of the records, was never scheduled, and waits with its own registers; no
      other record changes, nor what runs. */
  lemma AddQueues(s: State, registers: Registers, allocations: seq<Allocation>)
    requires Inv(s)
    ensures var s' := Add(s, registers, allocations);
            && Waiting(s', s.nextId, Context(registers, Starting)) && s'.nextId == s.nextId + 1
            && |s'.tasks| == |s.tasks| + 1 && s'.tasks[..|s.tasks|] == s.tasks
            && s'.tasks[|s.tasks|].id == s.nextId && s'.tasks[|s.tasks|].count == 0
            && s'.tasks[|s.tasks|].allocations == allocations
            && s'.current == s.current && s'.cpu == s.cpu && s'.held == s.held && s'.freed == s.freed
  {
    assert Add(s, registers, allocations).tasks[|s.tasks|].id == s.nextId;
  }

  /** A new task starts with the registers made for it, whatever ran since it was added. */
  lemma NewTaskStarts(s: State, registers: Registers, allocations: seq<Allocation>, ops: seq<Op>)
    requires var s' := Add(s, registers, allocations);
             && Inv(s) && ops != [] && Avoids(s', ops[..|ops| - 1], s.nextId)
             && After(s', ops).current.id == s.nextId
    ensures After(Add(s, registers, allocations), ops).cpu == registers
  {
    hide *;
    AddQueues(s, registers, allocations);
    ExecKeepsInv(s, AddOp(registers, allocations));
    AddIs(s, registers, allocations);
    WaitingRun(Add(s, registers, allocations), ops, s.nextId, Context(registers, Starting));
  }

  lemma AddIs(s: State, registers: Registers, allocations: seq<Allocation>)
    ensures Exec(s, AddOp(registers, allocations)) == Add(s, registers, allocations)
  {
  }

  /** The task has ended: it is not current, and no record of it can be chosen. */
  ghost predicate Ended(s: State, id: nat) {
    && id < s.nextId && id != s.current.id
    && forall i :: 0 <= i < |s.tasks| && s.tasks[i].id == id ==> s.tasks[i].state.Finished?
  }

  lemma EndedStep(s: State, op: Op, id: nat)
    requires Inv(s) && Ended(s, id)
    ensures Ended(Exec(s, op), id)
  {
    if op.CleanupOp? {
      UnfinishedIn(s.tasks);
      var r := Unfinished(s.tasks);
      assert forall i :: 0 <= i < |r| ==> r[i] in s.tasks;
    }
  }

  lemma {:induction false} EndedNeverRuns(s: State, ops: seq<Op>, id: nat)
    requires Inv(s) && Ended(s, id)
    ensures Avoids(s, ops, id)
    decreases |ops|
  {
    if ops != [] {
      EndedStep(s, ops[0], id);
      ExecKeepsInv(s, ops[0]);
      EndedNeverRuns(Exec(s, ops[0]), ops[1..], id);
    }
  }

  /** `end_cur_task` ends the task exactly when there is another one to run; otherwise the task stays
      current and runnable, and can be scheduled again. */
  lemma EndEnds(s: State, ops: seq<Op>)
    requires Inv(s)
    ensures if exists i :: 0 <= i < |s.tasks| && s.tasks[i].state.Runnable?
            then Ended(End(s), s.current.id) && Avoids(End(s), ops, s.current.id)
            else End(s) == s
  {
    if i :| 0 <= i < |s.tasks| && s.tasks[i].state.Runnable? {
      ExecKeepsInv(s, EndOp);
      EndedNeverRuns(End(s), ops, s.current.id);
    }
  }

  // ---------- Counts ----------

  /** Who runs: at the start, and after each step. */
  function CurrentIds(s: State, ops: seq<Op>): (ids: seq<nat>)
    ensures |ids| == |ops| + 1 && ids[0] == s.current.id
    decreases |ops|
  {
    [s.current.id] + if ops == [] then [] else CurrentIds(Exec(s, ops[0]), ops[1..])
  }

  /** How often the task begins to run. */
  function TimesEntered(ids: seq<nat>, id: nat): nat {
    if |ids| < 2 then 0
    else (if ids[0] != id && ids[1] == id then 1 else 0) + TimesEntered(ids[1..], id)
  }

  /** The record of the task, if it has one, says that it was scheduled `n` times; a task that is still
      to be added was not. */
  ghost predicate Counted(s: State, id: nat, n: nat) {
    && (s.current.id == id ==> s.current.count == n)
    && (forall i :: 0 <= i < |s.tasks| && s.tasks[i].id == id ==> s.tasks[i].count == n)
    && (id >= s.nextId ==> n == 0)
  }

  lemma CountStep(s: State, op: Op, id: nat, n: nat)
    requires Inv(s) && Counted(s, id, n) && n < 0x1_0000_0000
    ensures var s' := Exec(s, op);
            Counted(s', id, (n + if s.current.id != id && s'.current.id == id then 1 else 0) % 0x1_0000_0000)
  {
    match op
    case Compute(_) =>
    case YieldOp =>
      if FindNext(s.tasks) < |s.tasks| {
        CountSwitch(s, FindNext(s.tasks), s.current.state, InSched, id, n);
        hide SwitchTo, Counted, Inv;
      }
    case EndOp =>
      if FindNext(s.tasks) < |s.tasks| {
        CountSwitch(s, FindNext(s.tasks), Finished, InEnd, id, n);
        hide SwitchTo, Counted, Inv;
      }
    case AddOp(_, _) =>
    case CleanupOp =>
      CountCleanup(s, id, n);
      hide Unfinished, Counted, Inv;
  }

  lemma CountCleanup(s: State, id: nat, n: nat)
    requires Counted(s, id, n) && n < 0x1_0000_0000
    ensures Cleanup(s).current == s.current && Counted(Cleanup(s), id, n % 0x1_0000_0000)
  {
    UnfinishedIn(s.tasks);
    hide Unfinished;
    var r := Unfinished(s.tasks);
    assert forall i :: 0 <= i < |r| ==> r[i] in s.tasks;
  }

  lemma CountSwitch(s: State, i: nat, state: TaskState, at: Point, id: nat, n: nat)
    requires Inv(s) && Counted(s, id, n) && n < 0x1_0000_0000 && i < |s.tasks|
    ensures var s' := SwitchTo(s, i, state, at);
            && Counted(s', id, (n + if s'.current.id == id then 1 else 0) % 0x1_0000_0000)
            && s.current.id != s'.current.id == s.tasks[i].id
  {
  }

  lemma CountedAt(s: State, id: nat, n: nat, i: nat)
    requires Counted(s, id, n) && i < |s.tasks| && s.tasks[i].id == id
    ensures s.tasks[i].count == n
  {
  }

  lemma CountsAtBoot(s: State, id: nat)
    requires Inv(s) && s.tasks == [] && s.current.count == 0
    ensures Counted(s, id, 0)
  {
  }

  lemma AddWrapped(n: nat, a: nat, b: nat)
    ensures ((n + a) % 0x1_0000_0000 + b) % 0x1_0000_0000 == (n + (a + b)) % 0x1_0000_0000
  {
  }

  /** The count of each task that has a record, over any run: how often it began to run, in 32 bits. */
  lemma {:induction false} CountsAreEntries(s: State, ops: seq<Op>, id: nat, n: nat)
    requires Inv(s) && Counted(s, id, n) && n < 0x1_0000_0000
    ensures Counted(After(s, ops), id, (n + TimesEntered(CurrentIds(s, ops), id)) % 0x1_0000_0000)
    decreases |ops|
  {
    hide *;
    if ops != [] {
      var s' := Exec(s, ops[0]);
      var one := if s.current.id != id && s'.current.id == id then 1 else 0;
      CountStep(s, ops[0], id, n);
      ExecKeepsInv(s, ops[0]);
      CountsAreEntries(s', ops[1..], id, (n + one) % 0x1_0000_0000);
      EnteredStep(s, ops, id);
      AddWrapped(n, one, TimesEntered(CurrentIds(s', ops[1..]), id));
    } else {
      NothingEntered(s, id);
    }
  }

  lemma NothingEntered(s: State, id: nat)
    ensures After(s, []) == s && TimesEntered(CurrentIds(s, []), id) == 0
  {
  }

  lemma EnteredStep(s: State, ops: seq<Op>, id: nat)
    requires ops != []
    ensures var s' := Exec(s, ops[0]);
            && After(s, ops) == After(s', ops[1..])
            && TimesEntered(CurrentIds(s, ops), id) ==
               (if s.current.id != id && s'.current.id == id then 1 else 0) + TimesEntered(CurrentIds(s', ops[1..]), id)
  {
    hide Exec, Inv;
    assert CurrentIds(s, ops)[1..] == CurrentIds(Exec(s, ops[0]), ops[1..]);
  }

  // ---------- Bounded waiting ----------

  /** How often a task can still be chosen before one that was scheduled `c` times. */
  function Debt(t: Task, id: nat, c: nat): nat {
    if t.id == id || t.state.Finished? || t.count > c then 0 else c + 1 - t.count
  }

  function Debts(tasks: seq<Task>, id: nat, c: nat): nat {
    if tasks == [] then 0 else Debts(tasks[..|tasks| - 1], id, c) + Debt(tasks[|tasks| - 1], id, c)
  }

  /** The sum over all other tasks. */
  function Wait(s: State, id: nat, c: nat): nat { Debt(s.current, id, c) + Debts(s.tasks, id, c) }

  lemma {:induction false} DebtsUpdate(tasks: seq<Task>, i: nat, t: Task, id: nat, c: nat)
    requires i < |tasks|
    ensures Debts(tasks[i := t], id, c) == Debts(tasks, id, c) - Debt(tasks[i], id, c) + Debt(t, id, c)
  {
    var n := |tasks| - 1;
    if i < n {
      DebtsUpdate(tasks[..n], i, t, id, c);
      assert tasks[i := t][..n] == tasks[..n][i := t];
    } else {
      assert tasks[i := t][..n] == tasks[..n];
    }
  }

  lemma {:induction false} DebtsUnfinished(tasks: seq<Task>, id: nat, c: nat)
    ensures Debts(Unfinished(tasks), id, c) == Debts(tasks, id, c)
  {
    if tasks != [] {
      var n := |tasks| - 1;
      DebtsUnfinished(tasks[..n], id, c);
      if tasks[n].state.Runnable? {
        assert Unfinished(tasks)[..|Unfinished(tasks)| - 1] == Unfinished(tasks[..n]);
      }
    }
  }

  /** Task `id` is waiting, and was scheduled `c` times. */
  ghost predicate Queued(s: State, id: nat, c: nat) {
    exists i :: 0 <= i < |s.tasks| && s.tasks[i].id == id && s.tasks[i].state.Runnable? && s.tasks[i].count == c
  }

  function Switches(op: Op): nat { if op.YieldOp? || op.EndOp? then 1 else 0 }

  function Adds(op: Op, c: nat): nat { if op.AddOp? then c + 1 else 0 }

  /** While a task that was scheduled fewer than 2^32 - 1 times waits, every switch to another task
      takes at least one from the sum, and a new task adds `c + 1`. */
  lemma WaitStep(s: State, op: Op, id: nat, c: nat)
    requires Inv(s) && Queued(s, id, c) && c + 1 < COUNTS && Exec(s, op).current.id != id
    ensures Queued(Exec(s, op), id, c)
    ensures Wait(Exec(s, op), id, c) + Switches(op) <= Wait(s, id, c) + Adds(op, c)
  {
    var k :| 0 <= k < |s.tasks| && s.tasks[k].id == id && s.tasks[k].state.Runnable? && s.tasks[k].count == c;
    var s' := Exec(s, op);
    if op.CleanupOp? {
      UnfinishedIn(s.tasks);
      assert s.tasks[k] in s'.tasks;
      DebtsUnfinished(s.tasks, id, c);
    } else {
      assert s'.tasks[k] == s.tasks[k];
      if op.AddOp? {
        assert s'.tasks[..|s'.tasks| - 1] == s.tasks;
      } else if !op.Compute? {
        SwitchPays(s, FindNext(s.tasks), if op.EndOp? then Finished else s.current.state,
          if op.EndOp? then InEnd else InSched, id, c);
      }
    }
  }

  lemma SwitchPays(s: State, i: nat, state: TaskState, at: Point, id: nat, c: nat)
    requires i < |s.tasks| && s.tasks[i].state.Runnable? && s.tasks[i].count <= c && c + 1 < COUNTS &&
        s.tasks[i].id != id
    requires state.Finished? || state == s.current.state
    ensures Wait(SwitchTo(s, i, state, at), id, c) + 1 <= Wait(s, id, c)
  {
    DebtsUpdate(s.tasks, i, s.current.(state := state, saved := Context(s.cpu, at)), id, c);
    hide Debts;
  }

  function SwitchCount(ops: seq<Op>): nat { if ops == [] then 0 else Switches(ops[0]) + SwitchCount(ops[1..]) }

  function AddedDebt(ops: seq<Op>, c: nat): nat { if ops == [] then 0 else Adds(ops[0], c) + AddedDebt(ops[1..], c) }

  /** Bounded waiting: a runnable task becomes current before the number of yields and ends passes the
      sum over the other tasks of what they are behind it, and `c + 1` for each task added. */
  lemma {:induction false} BoundedWaiting(s: State, ops: seq<Op>, id: nat, c: nat)
    requires Inv(s) && Queued(s, id, c) && c + 1 < COUNTS
    requires SwitchCount(ops) > Wait(s, id, c) + AddedDebt(ops, c)
    ensures !Avoids(s, ops, id)
    decreases |ops|
  {
    if Exec(s, ops[0]).current.id != id {
      WaitStep(s, ops[0], id, c);
      ExecKeepsInv(s, ops[0]);
      BoundedWaiting(Exec(s, ops[0]), ops[1..], id, c);
    }
  }

  /** The same from the start of the scheduler, for any task that began to run, or was added, in the
      meantime: `n` is how often it ran. */
  lemma BoundedWaitingInRun(boot: State, before: seq<Op>, ops: seq<Op>, id: nat)
    requires Inv(boot) && boot.tasks == [] && boot.current.count == 0
    requires var (s, n) := (After(boot, before), TimesEntered(CurrentIds(boot, before), id));
             && n + 1 < 0x1_0000_0000 && s.current.id != id
             && (exists i :: 0 <= i < |s.tasks| && s.tasks[i].id == id && s.tasks[i].state.Runnable?)
             && SwitchCount(ops) > Wait(s, id, n) + AddedDebt(ops, n)
    ensures !Avoids(After(boot, before), ops, id)
  {
    hide *;
    var (s, n) := (After(boot, before), TimesEntered(CurrentIds(boot, before), id));
    EveryRunKeepsInv(boot, before);
    CountsAtBoot(boot, id);
    CountsAreEntries(boot, before, id, 0);
    var i :| 0 <= i < |s.tasks| && s.tasks[i].id == id && s.tasks[i].state.Runnable?;
    CountedAt(s, id, n, i);
    QueuedAt(s, i);
    CountLimit();
    BoundedWaiting(s, ops, id, n);
  }

  lemma CountLimit()
    ensures COUNTS == 0x1_0000_0000
  {
  }

  lemma QueuedAt(s: State, i: nat)
    requires Inv(s) && i < |s.tasks| && s.tasks[i].state.Runnable?
    ensures Queued(s, s.tasks[i].id, s.tasks[i].count)
  {
  }

  /** The id and the count of a task. */
  function Seen(t: Task): (nat, nat) { (t.id, t.count) }

  /** Three runnable tasks: the current one, and the two records. */
  ghost predicate Trio(s: State, c: (nat, nat), a: (nat, nat), b: (nat, nat)) {
    && !s.held && |s.tasks| == 2 && Seen(s.current) == c && Seen(s.tasks[0]) == a && Seen(s.tasks[1]) == b
    && s.current.state.Runnable? && s.tasks[0].state.Runnable? && s.tasks[1].state.Runnable?
  }

  /** Three tasks that do nothing but yield. */
  lemma ThreeTasksTakeTurns(s: State)
    requires Trio(s, (7, 0), (8, 0), (9, 0))
    ensures CurrentIds(s, Yields(6)) == [7, 8, 7, 9, 8, 9, 7]
    ensures Seen(Yield(s).current) == (8, 1)
  {
    hide *;
    var s1 := Turn(s, 6, (7, 0), (8, 0), (9, 0));
    var s2 := Turn(s1, 5, (8, 1), (7, 0), (9, 0));
    var s3 := Turn(s2, 4, (7, 1), (8, 1), (9, 0));
    var s4 := Turn(s3, 3, (9, 1), (8, 1), (7, 1));
    var s5 := Turn(s4, 2, (8, 2), (9, 1), (7, 1));
    var s6 := Turn(s5, 1, (9, 2), (8, 2), (7, 1));
    NoTurn(s6, (7, 2), (8, 2), (9, 2));
  }

  lemma NoTurn(s: State, c: (nat, nat), a: (nat, nat), b: (nat, nat))
    requires Trio(s, c, a, b)
    ensures CurrentIds(s, Yields(0)) == [c.0]
  {
  }

  lemma Turn(s: State, n: nat, c: (nat, nat), a: (nat, nat), b: (nat, nat)) returns (s': State)
    requires Trio(s, c, a, b) && n > 0 && a.1 < 9 && b.1 < 9
    ensures CurrentIds(s, Yields(n)) == [c.0] + CurrentIds(s', Yields(n - 1))
              && Seen(Yield(s).current) == Seen(s'.current)
    ensures if a.1 <= b.1 then Trio(s', (a.0, a.1 + 1), c, b) else Trio(s', (b.0, b.1 + 1), a, c)
    ensures Seen(s'.current) == if a.1 <= b.1 then (a.0, a.1 + 1) else (b.0, b.1 + 1)
  {
    s' := Yield(s);
    YieldsOnce(s, n);
    assert FindNext(s.tasks) == if a.1 <= b.1 then 0 else 1;
    hide FindNext, CurrentIds;
  }

  lemma YieldsOnce(s: State, n: nat)
    requires n > 0
    ensures CurrentIds(s, Yields(n)) == [s.current.id] + CurrentIds(Yield(s), Yields(n - 1))
  {
    hide Yield;
    assert Yields(n)[1..] == Yields(n - 1);
  }

  function Yields(n: nat): seq<Op> { seq(n, _ => YieldOp) }

  /** At the largest count the bound fails: the count of the task chosen wraps to 0, and a task behind
      it in the vector waits forever. */
  lemma {:induction false} WrapStarves(s: State, n: nat)
    requires Inv(s) && |s.tasks| == 2 && s.tasks[0].state.Runnable? && s.tasks[1].state.Runnable?
    requires s.tasks[1].count == COUNTS - 1
    ensures Avoids(s, Yields(n), s.tasks[1].id) && SwitchCount(Yields(n)) == n
    decreases n
  {
    if n > 0 {
      assert Yields(n)[1..] == Yields(n - 1);
      assert FindNext(s.tasks) == 0;
      ExecKeepsInv(s, YieldOp);
      WrapStarves(Yield(s), n - 1);
    }
  }

  lemma WrapStarvesExists(n: nat)
    ensures exists s, id :: Inv(s) && Queued(s, id, COUNTS - 1) && Avoids(s, Yields(n), id)
    ensures SwitchCount(Yields(n)) == n
  {
    var c := Context([], Starting);
    var s := State(Task(0, c, Runnable, COUNTS - 1, []),
                   [Task(1, c, Runnable, COUNTS - 1, []), Task(2, c, Runnable, COUNTS - 1, [])], [], false, 3, []);
    assert s.tasks[1].id == 2;
    WrapStarves(s, n);
    assert Queued(s, 2, COUNTS - 1);
  }

  // ---------- Conservation ----------

  /** The ids and registers of all the tasks, those of the current one being in the processor. */
  ghost function Files(s: State): multiset<(nat, Registers)> {
    multiset{(s.current.id, s.cpu)} + SavedFiles(s.tasks)
  }

  ghost function SavedFiles(tasks: seq<Task>): multiset<(nat, Registers)> {
    if tasks == [] then multiset{}
    else SavedFiles(tasks[..|tasks| - 1]) + multiset{(tasks[|tasks| - 1].id, tasks[|tasks| - 1].saved.registers)}
  }

  lemma Carry<T>(a: multiset<T>, b: multiset<T>, x: multiset<T>, y: multiset<T>, last: multiset<T>)
    requires b + x == a + y
    ensures b + last + x == a + last + y
  {
    assert b + last + x == (b + x) + last;
  }

  lemma {:induction false} SavedFilesUpdate(tasks: seq<Task>, i: nat, t: Task)
    requires i < |tasks|
    ensures SavedFiles(tasks[i := t]) + multiset{(tasks[i].id, tasks[i].saved.registers)}
            == SavedFiles(tasks) + multiset{(t.id, t.saved.registers)}
  {
    var n := |tasks| - 1;
    if i < n {
      SavedFilesUpdate(tasks[..n], i, t);
      assert tasks[i := t][..n] == tasks[..n][i := t];
      Carry(SavedFiles(tasks[..n]), SavedFiles(tasks[..n][i := t]), multiset{(tasks[i].id, tasks[i].saved.registers)},
            multiset{(t.id, t.saved.registers)}, multiset{(tasks[n].id, tasks[n].saved.registers)});
    } else {
      assert tasks[i := t][..n] == tasks[..n];
    }
  }

  /** A switch neither loses nor duplicates a task, and changes the registers of none. */
  lemma SwitchKeepsFiles(s: State, op: Op)
    requires op.YieldOp? || op.EndOp?
    ensures Files(Exec(s, op)) == Files(s)
  {
    if FindNext(s.tasks) < |s.tasks| {
      SwitchFiles(s, FindNext(s.tasks), s.current.state, InSched);
      SwitchFiles(s, FindNext(s.tasks), Finished, InEnd);
    }
  }

  lemma SwitchFiles(s: State, i: nat, state: TaskState, at: Point)
    requires i < |s.tasks|
    ensures Files(SwitchTo(s, i, state, at)) == Files(s)
  {
    var t := s.current.(state := state, saved := Context(s.cpu, at));
    SavedFilesUpdate(s.tasks, i, t);
    var x, y := multiset{(s.tasks[i].id, s.tasks[i].saved.registers)}, multiset{(t.id, t.saved.registers)};
    assert x + SavedFiles(s.tasks[i := t]) == SavedFiles(s.tasks[i := t]) + x;
    assert y + SavedFiles(s.tasks) == SavedFiles(s.tasks) + y;
  }

  /** The tasks that have not ended. */
  ghost function Living(s: State): set<nat> { {s.current.id} + RunnableIds(s.tasks) }

  ghost function RunnableIds(tasks: seq<Task>): set<nat> { set t | t in tasks && t.state.Runnable? :: t.id }

  /** The task that a step ends. */
  ghost function EndedBy(s: State, op: Op): set<nat> {
    if op.EndOp? && FindNext(s.tasks) < |s.tasks| then {s.current.id} else {}
  }

  ghost function EndedIn(s: State, ops: seq<Op>): set<nat>
    decreases |ops|
  {
    if ops == [] then {} else EndedBy(s, ops[0]) + EndedIn(Exec(s, ops[0]), ops[1..])
  }

  /** The tasks added on the way from one state to another. */
  ghost function NewIds(s: State, s': State): set<nat> {
    set id: nat | s.nextId <= id < s'.nextId && AddedBetween(s, s', id)
  }

  predicate AddedBetween(s: State, s': State, id: nat) { s.nextId <= id < s'.nextId }

  lemma AddIds(tasks: seq<Task>, t: Task)
    requires t.state.Runnable?
    ensures RunnableIds(tasks + [t]) == RunnableIds(tasks) + {t.id}
  {
    assert forall x :: x in tasks + [t] <==> x in tasks || x == t;
    assert t in tasks + [t];
  }

  lemma UpdateIds(tasks: seq<Task>, i: nat, t: Task)
    requires i < |tasks| && tasks[i].state.Runnable? && Distinct(tasks)
    ensures RunnableIds(tasks[i := t]) == RunnableIds(tasks) - {tasks[i].id} + if t.state.Runnable? then {t.id} else {}
  {
    var u := tasks[i := t];
    assert u[i] == t;
    forall x | x in RunnableIds(tasks) - {tasks[i].id} ensures x in RunnableIds(u) {
      var k :| 0 <= k < |tasks| && tasks[k].state.Runnable? && tasks[k].id == x;
      assert u[k] == tasks[k];
    }
    forall x | x in RunnableIds(u) ensures x in RunnableIds(tasks) - {tasks[i].id} || (t.state.Runnable? && x == t.id) {
      var k :| 0 <= k < |u| && u[k].state.Runnable? && u[k].id == x;
      assert k != i ==> u[k] == tasks[k];
    }
  }

  lemma UnfinishedIds(tasks: seq<Task>)
    ensures RunnableIds(Unfinished(tasks)) == RunnableIds(tasks)
  {
    UnfinishedIn(tasks);
  }

  lemma LivingStep(s: State, op: Op)
    requires Inv(s)
    ensures Living(Exec(s, op)) == Living(s) + NewIds(s, Exec(s, op)) - EndedBy(s, op)
    ensures forall id :: id in EndedBy(s, op) ==> id < s.nextId
  {
    assert s.current.id < s.nextId;
    FewIds(s, Exec(s, op));
    hide NewIds, Inv;
    match op
    case Compute(_) =>
    case AddOp(registers, allocations) =>
      AddIds(s.tasks, Task(s.nextId, Context(registers, Starting), Runnable, 0, allocations));
      hide RunnableIds;
    case CleanupOp => UnfinishedIds(s.tasks);
    case YieldOp =>
      if FindNext(s.tasks) < |s.tasks| {
        SwitchLiving(s, FindNext(s.tasks), Runnable, InSched);
        hide Living, SwitchTo;
      }
    case EndOp =>
      if FindNext(s.tasks) < |s.tasks| {
        SwitchLiving(s, FindNext(s.tasks), Finished, InEnd);
        hide Living, SwitchTo;
      }
  }

  lemma FewIds(s: State, s': State)
    requires s.nextId <= s'.nextId <= s.nextId + 1
    ensures NewIds(s, s') == if s'.nextId == s.nextId then {} else {s.nextId}
  {
    assert AddedBetween(s, s', s.nextId) <==> s'.nextId > s.nextId;
  }

  lemma SwitchLiving(s: State, i: nat, state: TaskState, at: Point)
    requires Inv(s) && i < |s.tasks| && s.tasks[i].state.Runnable?
    ensures Living(SwitchTo(s, i, state, at)) == Living(s) - if state.Runnable? then {} else {s.current.id}
  {
    UpdateIds(s.tasks, i, s.current.(state := state, saved := Context(s.cpu, at)));
    CurrentElsewhere(s);
    hide RunnableIds, Inv;
  }

  lemma CurrentElsewhere(s: State)
    requires Inv(s)
    ensures s.current.id !in RunnableIds(s.tasks)
    ensures forall k :: 0 <= k < |s.tasks| && s.tasks[k].state.Runnable? ==> s.tasks[k].id in RunnableIds(s.tasks)
  {
  }

  lemma NewIdsJoin(s: State, s': State, s'': State)
    requires s.nextId <= s'.nextId <= s''.nextId
    ensures NewIds(s, s'') == NewIds(s, s') + NewIds(s', s'') && forall id :: id in NewIds(s', s'') ==> id >= s'.nextId
  {
    forall id: nat
      ensures AddedBetween(s, s'', id) <==> AddedBetween(s, s', id) || AddedBetween(s', s'', id)
    {
    }
  }

  /** Over any run no task is lost or doubled: the tasks that have not ended are those there were and
      those added, without those that were ended while another one could run. */
  lemma {:induction false} TasksConserved(s: State, ops: seq<Op>)
    requires Inv(s)
    ensures After(s, ops).nextId >= s.nextId && Distinct(After(s, ops).tasks)
    ensures Living(After(s, ops)) == Living(s) + NewIds(s, After(s, ops)) - EndedIn(s, ops)
    decreases |ops|
  {
    if ops != [] {
      var s' := Exec(s, ops[0]);
      LivingStep(s, ops[0]);
      ExecKeepsInv(s, ops[0]);
      TasksConserved(s', ops[1..]);
      NewIdsJoin(s, s', After(s', ops[1..]));
      hide Living, EndedBy, Exec, Inv;
    }
  }

  /** If the task has a record, these are the allocations in it. */
  ghost predicate Holds(s: State, id: nat, allocations: seq<Allocation>) {
    && (s.current.id == id ==> s.current.allocations == allocations)
    && (forall i :: 0 <= i < |s.tasks| && s.tasks[i].id == id ==> s.tasks[i].allocations == allocations)
  }

  lemma HoldsStep(s: State, op: Op, id: nat, allocations: seq<Allocation>)
    requires Inv(s) && Holds(s, id, allocations) && id < s.nextId
    ensures Holds(Exec(s, op), id, allocations)
  {
    if op.CleanupOp? {
      UnfinishedIn(s.tasks);
      hide Unfinished;
      var r := Unfinished(s.tasks);
      assert forall i :: 0 <= i < |r| ==> r[i] in s.tasks;
    }
  }

  /** A task keeps its own allocations as long as it has a record, whoever else runs and ends. */
  lemma {:induction false} AllocationsStay(s: State, ops: seq<Op>, id: nat, allocations: seq<Allocation>)
    requires Inv(s) && Holds(s, id, allocations) && id < s.nextId
    ensures Holds(After(s, ops), id, allocations)
    decreases |ops|
  {
    if ops != [] {
      HoldsStep(s, ops[0], id, allocations);
      ExecKeepsInv(s, ops[0]);
      AllocationsStay(Exec(s, ops[0]), ops[1..], id, allocations);
    }
  }

  ghost function Blocks(tasks: seq<Task>): multiset<Allocation> {
    if tasks == [] then multiset{} else Blocks(tasks[..|tasks| - 1]) + multiset(tasks[|tasks| - 1].allocations)
  }

  /** The memory of all the tasks, and what was freed. */
  ghost function AllBlocks(s: State): multiset<Allocation> {
    multiset(s.current.allocations) + Blocks(s.tasks) + multiset(s.freed)
  }

  lemma {:induction false} BlocksUpdate(tasks: seq<Task>, i: nat, t: Task)
    requires i < |tasks|
    ensures Blocks(tasks[i := t]) + multiset(tasks[i].allocations) == Blocks(tasks) + multiset(t.allocations)
  {
    var n := |tasks| - 1;
    if i < n {
      BlocksUpdate(tasks[..n], i, t);
      assert tasks[i := t][..n] == tasks[..n][i := t];
      Carry(Blocks(tasks[..n]), Blocks(tasks[..n][i := t]), multiset(tasks[i].allocations), multiset(t.allocations),
            multiset(tasks[n].allocations));
    } else {
      assert tasks[i := t][..n] == tasks[..n];
    }
  }

  lemma {:induction false} BlocksUnfinished(tasks: seq<Task>)
    ensures Blocks(Unfinished(tasks)) + multiset(FreedBy(tasks)) == Blocks(tasks)
  {
    if tasks != [] {
      var n := |tasks| - 1;
      BlocksUnfinished(tasks[..n]);
      if tasks[n].state.Runnable? {
        assert Unfinished(tasks)[..|Unfinished(tasks)| - 1] == Unfinished(tasks[..n]);
      }
    }
  }

  function AddedBlocks(ops: seq<Op>): multiset<Allocation> {
    if ops == [] then multiset{}
    else (if ops[0].AddOp? then multiset(ops[0].allocations) else multiset{}) + AddedBlocks(ops[1..])
  }

  /** Over any run every allocation that a task came with is either still in the record of exactly one
      task or was freed, once. */
  lemma {:induction false} EachBlockFreedOnce(s: State, ops: seq<Op>)
    ensures AllBlocks(After(s, ops)) == AllBlocks(s) + AddedBlocks(ops)
    decreases |ops|
  {
    if ops != [] {
      BlocksStep(s, ops[0]);
      EachBlockFreedOnce(Exec(s, ops[0]), ops[1..]);
    }
  }

  lemma BlocksStep(s: State, op: Op)
    ensures AllBlocks(Exec(s, op)) == AllBlocks(s) + if op.AddOp? then multiset(op.allocations) else multiset{}
  {
    match op
    case Compute(_) =>
    case AddOp(registers, allocations) => AddBlocks(s, registers, allocations);
    case CleanupOp => CleanupBlocks(s);
    case _ =>
      if FindNext(s.tasks) < |s.tasks| {
        SwitchBlocks(s, FindNext(s.tasks), s.current.state, InSched);
        SwitchBlocks(s, FindNext(s.tasks), Finished, InEnd);
        hide SwitchTo, AllBlocks;
      }
  }

  lemma AddBlocks(s: State, registers: Registers, allocations: seq<Allocation>)
    ensures AllBlocks(Add(s, registers, allocations)) == AllBlocks(s) + multiset(allocations)
  {
    var t := Add(s, registers, allocations).tasks;
    assert t[..|t| - 1] == s.tasks;
    var c, b, f, x := multiset(s.current.allocations), Blocks(s.tasks), multiset(s.freed), multiset(allocations);
    assert c + (b + x) + f == (c + b + f) + x;
  }

  lemma CleanupBlocks(s: State)
    ensures AllBlocks(Cleanup(s)) == AllBlocks(s)
  {
    BlocksUnfinished(s.tasks);
    var c, b, f, x := multiset(s.current.allocations), Blocks(Unfinished(s.tasks)), multiset(s.freed), FreedBy(s.tasks);
    assert multiset(s.freed + x) == f + multiset(x);
    assert c + b + (f + multiset(x)) == c + (b + multiset(x)) + f;
  }

  lemma SwitchBlocks(s: State, i: nat, state: TaskState, at: Point)
    requires i < |s.tasks|
    ensures AllBlocks(SwitchTo(s, i, state, at)) == AllBlocks(s)
  {
    var t := s.current.(state := state, saved := Context(s.cpu, at));
    BlocksUpdate(s.tasks, i, t);
    var x, y := multiset(s.tasks[i].allocations), multiset(t.allocations);
    assert x + Blocks(s.tasks[i := t]) == Blocks(s.tasks[i := t]) + x;
    assert y + Blocks(s.tasks) == Blocks(s.tasks) + y;
  }

  /** Cleanup leaves exactly the unfinished tasks, in their order: the one at `a` goes to the position
      that counts the unfinished ones before it. */
  lemma {:induction false} CleanupKeepsOrder(tasks: seq<Task>, a: nat)
    requires a < |tasks| && tasks[a].state.Runnable?
    ensures var k := |Unfinished(tasks[..a])|;
            k < |Unfinished(tasks)| && Unfinished(tasks)[k] == tasks[a] &&
              Unfinished(tasks)[..k] == Unfinished(tasks[..a])
  {
    var n := |tasks| - 1;
    if a < n {
      CleanupKeepsOrder(tasks[..n], a);
      assert tasks[..n][..a] == tasks[..a];
    }
  }
}
