/** The steps inside the scheduler: the lock is taken by the task that is switched away from, and
    released by the one that is switched to. */
module LockHandOff {
  import opened SchedulerModel

  /** `Switched` is behind the swap of the registers, before the code of the incoming task at `at`;
      `Lost` is behind the swap in `end_cur_task`; `Stuck` waits for a lock that is never released. */
  datatype Phase = InTask | Choosing(ending: bool) | Switched(ending: bool, at: Point) | Lost | Stuck {
    /** In the middle of `sched` or `end_cur_task`. */
    predicate Inside() { Choosing? || Switched? }
  }

  datatype LockEvent = Acquire(task: nat) | Release(task: nat)

  /** `done` are the calls that returned to task code, by whatever task. */
  datatype Micro = Micro(s: State, phase: Phase, log: seq<LockEvent>, done: seq<Op>)

  /** `Tick` is a timer interrupt in the middle of the scheduler, as if the lock did not mask it; in a
      new second it adds a task.  `Whole` is a step that lets go of the lock itself, or needs none. */
  datatype MicroOp = EnterSched | EnterEnd | Choose | Leave | Tick(newSecond: bool) | Whole(op: Op)

  function Enter(m: Micro, ending: bool): Micro {
    m.(s := m.s.(held := true), phase := Choosing(ending), log := m.log + [Acquire(m.s.current.id)])
  }

  function Unlock(m: Micro, op: Op): Micro {
    m.(s := m.s.(held := false), phase := InTask, log := m.log + [Release(m.s.current.id)], done := m.done + [op])
  }

  function OpOf(ending: bool): Op { if ending then EndOp else YieldOp }

  function Step(m: Micro, op: MicroOp): Micro {
    match op
    case EnterSched => if m.phase.InTask? && !m.s.held then Enter(m, false) else m
    case EnterEnd => if m.phase.InTask? && !m.s.held then Enter(m, true) else m
    case Choose =>
      if !m.phase.Choosing? then m
      else
        var (e, i) := (m.phase.ending, FindNext(m.s.tasks));
        if i == |m.s.tasks| then Unlock(m, OpOf(e))
        else if e then m.(s := SwitchTo(m.s, i, Finished, InEnd), phase := Switched(true, m.s.tasks[i].saved.at))
        else m.(s := SwitchTo(m.s, i, m.s.current.state, InSched), phase := Switched(false, m.s.tasks[i].saved.at))
    case Leave =>
      if !m.phase.Switched? then m
      else if m.phase.at.InEnd? then m.(phase := Lost)
      else Unlock(m, OpOf(m.phase.ending))
    case Tick(newSecond) =>
      if !m.phase.Inside() then m
      else if newSecond then m.(s := Cleanup(m.s), phase := Stuck)
      else m.(s := Yield(Cleanup(m.s)))
    case Whole(op) =>
      if !m.phase.InTask? || m.s.held || op.YieldOp? || op.EndOp? then m
      else m.(s := Exec(m.s, op), done := m.done + [op],
              log := m.log + if op.Compute? then [] else [Acquire(m.s.current.id), Release(m.s.current.id)])
  }

  function Start(boot: State): Micro { Micro(boot, InTask, [], []) }

  function MicroAfter(m: Micro, ops: seq<MicroOp>): Micro {
    if ops == [] then m else Step(MicroAfter(m, ops[..|ops| - 1]), ops[|ops| - 1])
  }

  /** Acquires and releases alternate, and who releases is the task that runs until the next acquire. */
  ghost predicate Alternates(log: seq<LockEvent>) {
    && (forall k :: 0 <= k < |log| ==> (log[k].Acquire? <==> k % 2 == 0))
    && (forall k :: 0 < k < |log| && log[k].Acquire? ==> log[k - 1].task == log[k].task)
  }

  /** How a state inside the scheduler relates to the run of whole steps that it is part of. */
  ghost predicate MicroInv(boot: State, m: Micro) {
    var b := After(boot, m.done);
    && Inv(b) && Alternates(m.log) && (|m.log| % 2 == 0 <==> m.phase.InTask?)
    && match m.phase
       case InTask => m.s == b && (m.log != [] ==> m.log[|m.log| - 1].task == m.s.current.id)
       case Choosing(_) => m.s == b.(held := true) && m.log[|m.log| - 1].task == m.s.current.id
       case Switched(e, at) =>
         && m.s == Exec(b, OpOf(e)).(held := true) && !at.InEnd?
         && m.log[|m.log| - 1].task == b.current.id && m.s.current.id != b.current.id
       case Lost => false
       case Stuck => m.s.held
  }

  lemma {:induction false} AfterAppend(s: State, ops: seq<Op>, op: Op)
    ensures After(s, ops + [op]) == Exec(After(s, ops), op)
    decreases |ops|
  {
    if ops == [] {
      assert ([] + [op])[1..] == [];
    } else {
      assert (ops + [op])[1..] == ops[1..] + [op];
      AfterAppend(Exec(s, ops[0]), ops[1..], op);
    }
  }

  lemma AlternatesAppend(log: seq<LockEvent>, e: LockEvent)
    requires Alternates(log) && (e.Acquire? <==> |log| % 2 == 0)
    requires e.Acquire? && log != [] ==> log[|log| - 1].task == e.task
    ensures Alternates(log + [e])
  {
  }

  lemma EnterKeeps(boot: State, m: Micro, ending: bool)
    requires MicroInv(boot, m) && m.phase.InTask?
    ensures MicroInv(boot, Enter(m, ending))
  {
    hide Alternates, Inv, After;
    AlternatesAppend(m.log, Acquire(m.s.current.id));
  }

  /** Without another task the call returns to the same one. */
  lemma GiveUpKeeps(boot: State, m: Micro)
    requires MicroInv(boot, m) && m.phase.Choosing? && FindNext(m.s.tasks) == |m.s.tasks|
    ensures MicroInv(boot, Unlock(m, OpOf(m.phase.ending)))
  {
    hide Alternates, After;
    AfterAppend(boot, m.done, OpOf(m.phase.ending));
    AlternatesAppend(m.log, Release(m.s.current.id));
  }

  lemma SwitchKeeps(boot: State, m: Micro)
    requires MicroInv(boot, m) && m.phase.Choosing? && FindNext(m.s.tasks) < |m.s.tasks|
    ensures MicroInv(boot, Step(m, Choose))
  {
    hide Alternates, After;
    assert FindNext(m.s.tasks) < |After(boot, m.done).tasks|;
  }

  lemma LeaveKeeps(boot: State, m: Micro)
    requires MicroInv(boot, m) && m.phase.Switched?
    ensures MicroInv(boot, Unlock(m, OpOf(m.phase.ending)))
  {
    var b, op := After(boot, m.done), OpOf(m.phase.ending);
    ExecKeepsInv(b, op);
    assert !Exec(b, op).held;
    hide Alternates, After, Inv, Exec;
    AfterAppend(boot, m.done, op);
    AlternatesAppend(m.log, Release(m.s.current.id));
  }

  lemma WholeKeeps(boot: State, m: Micro, op: Op)
    requires MicroInv(boot, m) && m.phase.InTask? && !op.YieldOp? && !op.EndOp?
    ensures MicroInv(boot, Step(m, Whole(op)))
  {
    ExecKeepsInv(m.s, op);
    AfterAppend(boot, m.done, op);
    assert Exec(m.s, op).current.id == m.s.current.id;
    hide Alternates, After, Inv, Exec;
    var c := m.s.current.id;
    if !op.Compute? {
      AlternatesAppend(m.log, Acquire(c));
      AlternatesAppend(m.log + [Acquire(c)], Release(c));
      assert m.log + [Acquire(c)] + [Release(c)] == m.log + [Acquire(c), Release(c)];
    } else {
      assert m.log + [] == m.log;
    }
  }

  lemma StepKeeps(boot: State, m: Micro, op: MicroOp)
    requires MicroInv(boot, m)
    ensures MicroInv(boot, Step(m, op))
  {
    hide Alternates, After, FindNext;
    match op
    case EnterSched =>
      if m.phase.InTask? && !m.s.held {
        EnterKeeps(boot, m, false);
      }
    case EnterEnd =>
      if m.phase.InTask? && !m.s.held {
        EnterKeeps(boot, m, true);
      }
    case Choose =>
      if m.phase.Choosing? {
        if FindNext(m.s.tasks) == |m.s.tasks| {
          GiveUpKeeps(boot, m);
        } else {
          FindNextBound(m.s.tasks);
          SwitchKeeps(boot, m);
        }
      }
    case Leave =>
      if m.phase.Switched? {
        LeaveKeeps(boot, m);
      }
    case Tick(_) =>
    case Whole(w) =>
      if m.phase.InTask? && !w.YieldOp? && !w.EndOp? {
        WholeKeeps(boot, m, w);
      }
  }

  lemma FindNextBound(tasks: seq<Task>)
    ensures FindNext(tasks) <= |tasks|
  {
  }

  lemma {:induction false} MicroRunKeepsInv(boot: State, ops: seq<MicroOp>)
    requires Inv(boot)
    ensures MicroInv(boot, MicroAfter(Start(boot), ops))
  {
    if ops != [] {
      MicroRunKeepsInv(boot, ops[..|ops| - 1]);
      StepKeeps(boot, MicroAfter(Start(boot), ops[..|ops| - 1]), ops[|ops| - 1]);
      hide Step, MicroInv;
    }
  }

  /** Lock hand-off, over every run of the small steps: the lock is free exactly when task code runs;
      every acquire is followed by one release, by the task that runs next; nothing is reached behind
      the swap in `end_cur_task`; and task code sees the states of a run of whole steps. */
  lemma {:induction false} LockIsHandedOff(boot: State, ops: seq<MicroOp>)
    requires Inv(boot)
    ensures var m := MicroAfter(Start(boot), ops);
            && (m.phase.InTask? <==> !m.s.held) && (m.phase.InTask? <==> |m.log| % 2 == 0) && !m.phase.Lost?
            && Alternates(m.log) && MicroInv(boot, m)
            && (m.phase.InTask? ==> m.s == After(boot, m.done) && (m.log != [] ==>
              m.log[|m.log| - 1] == Release(m.s.current.id)))
  {
    hide MicroAfter, Alternates, After, Exec;
    MicroRunKeepsInv(boot, ops);
    var m := MicroAfter(Start(boot), ops);
    if m.log != [] && |m.log| % 2 == 0 {
      LastIsRelease(m.log);
    }
    if m.phase.Switched? {
      assert m.s.held;
    }
  }

  /** The calls that task code makes: of the steps issued, those that come while task code runs. */
  function Calls(boot: State, ops: seq<MicroOp>): seq<Op> {
    if ops == [] then []
    else
      var before := ops[..|ops| - 1];
      Calls(boot, before) +
      if MicroAfter(Start(boot), before).phase.InTask? then CallOf(ops[|ops| - 1]) else []
  }

  function CallOf(op: MicroOp): seq<Op> {
    match op
    case EnterSched => [YieldOp]
    case EnterEnd => [EndOp]
    case Whole(o) => if o.YieldOp? || o.EndOp? then [] else [o]
    case _ => []
  }

  /** Task code sees the states of the run of whole steps that it called for; in the middle of the
      scheduler the last call is still to return. */
  lemma {:induction false} RunIsOfCalls(boot: State, ops: seq<MicroOp>)
    requires Inv(boot)
    ensures var (m, calls) := (MicroAfter(Start(boot), ops), Calls(boot, ops));
            && (m.phase.InTask? ==> calls == m.done && m.s == After(boot, calls))
            && (m.phase.Inside() ==> calls == m.done + [if m.phase.ending then EndOp else YieldOp])
  {
    LockIsHandedOff(boot, ops);
    var m, calls := MicroAfter(Start(boot), ops), Calls(boot, ops);
    assert Matches(m, calls) by {
      if ops != [] {
        var before := ops[..|ops| - 1];
        RunIsOfCalls(boot, before);
        LockIsHandedOff(boot, before);
        hide Alternates, After, Step, MicroInv, CallOf, Inv;
        CallsGrow(MicroAfter(Start(boot), before), ops[|ops| - 1], Calls(boot, before));
      }
    }
  }

  ghost predicate Matches(m: Micro, calls: seq<Op>) {
    && (m.phase.InTask? ==> calls == m.done)
    && (m.phase.Inside() ==> calls == m.done + [if m.phase.ending then EndOp else YieldOp])
  }

  lemma CallsGrow(m: Micro, op: MicroOp, calls: seq<Op>)
    requires Matches(m, calls) && (m.phase.InTask? ==> !m.s.held)
    ensures Matches(Step(m, op), calls + if m.phase.InTask? then CallOf(op) else [])
  {
    assert calls + [] == calls;
    hide FindNext, Cleanup, Yield, SwitchTo, Exec;
  }

  /** Step `k` is a tick in a new second, in the middle of the scheduler. */
  ghost predicate TickInside(boot: State, ops: seq<MicroOp>, k: nat) {
    k < |ops| && ops[k] == Tick(true) && MicroAfter(Start(boot), ops[..k]).phase.Inside()
  }

  /** The processor waits forever exactly if such a tick comes: it adds a task, for which it needs the
      lock that the task it interrupted holds. */
  lemma {:induction false} StuckExactly(boot: State, ops: seq<MicroOp>)
    ensures MicroAfter(Start(boot), ops).phase.Stuck? <==> exists k :: TickInside(boot, ops, k)
  {
    if ops == [] {
      assert forall k :: !TickInside(boot, ops, k);
    } else {
      var n := |ops| - 1;
      var before := ops[..n];
      StuckExactly(boot, before);
      assert ops[n] == ops[|ops| - 1];
      forall k: nat | k < n ensures TickInside(boot, ops, k) <==> TickInside(boot, before, k) {
        assert before[..k] == ops[..k];
      }
      StuckStep(MicroAfter(Start(boot), before), ops[n]);
      if MicroAfter(Start(boot), before).phase.Stuck? {
        var k :| TickInside(boot, before, k);
        assert TickInside(boot, ops, k);
      } else if ops[n] == Tick(true) && MicroAfter(Start(boot), before).phase.Inside() {
        assert TickInside(boot, ops, n);
      }
    }
  }

  lemma StuckStep(m: Micro, op: MicroOp)
    ensures Step(m, op).phase.Stuck? <==> m.phase.Stuck? || (op == Tick(true) && m.phase.Inside())
  {
  }

  lemma LastIsRelease(log: seq<LockEvent>)
    requires Alternates(log) && log != [] && |log| % 2 == 0
    ensures log[|log| - 1].Release?
  {
  }
}
