/**
 The execution status and the error flag over all schedules of the flow engine, and its termination.
 */
module FlowStatus {
  import opened Wrappers
  import opened Scripts
  import opened FlowSystem
  import opened FlowSafety

  /** The next update of a run that has work left, by its position in the run's program. */
  lemma NextUpdate(env: Env, s: System, r: nat)
    requires RunsShape(env, s) && r < |s.runs| && s.runs[r].todo != []
    ensures At(env, r).executor.Shell? && Framed(ProgramAt(env, r), SucceedsAt(env, r))
    ensures var n := |s.runs[r].done|; n < |ProgramAt(env, r)| && s.runs[r].todo == ProgramAt(env, r)[n..]
  {
    assert ProgramAt(env, r) != [];
    ShellProgramIsFramed(At(env, r).executor, env.flow[r].outcome);
  }

  // ----- kRunning is always owed a final status

  ghost predicate MidRun(run: RunState) {
    run.done != [] && run.todo != []
  }

  /** Some started run still has its final status write to make. */
  ghost predicate FinalStatusOwed(s: System) {
    exists i :: 0 <= i < |s.runs| && MidRun(s.runs[i])
  }

  ghost predicate SomeRunBegan(s: System) {
    exists i :: 0 <= i < |s.runs| && s.runs[i].done != []
  }

  ghost predicate StatusTracked(s: System) {
    && (s.ctx.status == Running ==> FinalStatusOwed(s))
    && (s.ctx.status == NotStarted <==> !SomeRunBegan(s))
  }

  /** What update n of an execution does to the status. */
  lemma StatusEffect(p: seq<Op>, success: bool, n: nat, c: Context)
    requires Framed(p, success) && n < |p|
    ensures n == 0 ==> Apply(p[n], c).status == Running
    ensures n == |p| - 1 ==> Apply(p[n], c).status == Succeeded || Apply(p[n], c).status == Failed
    ensures 0 < n < |p| - 1 ==> Apply(p[n], c).status == c.status
  {
  }

  lemma PerformOwesStatus(env: Env, s: System, r: nat)
    requires RunsShape(env, s) && StatusTracked(s) && r < |s.runs| && s.runs[r].todo != []
    requires Perform(s, r).ctx.status == Running
    ensures FinalStatusOwed(Perform(s, r))
  {
    NextUpdate(env, s, r);
    var s', p, n := Perform(s, r), ProgramAt(env, r), |s.runs[r].done|;
    StatusEffect(p, SucceedsAt(env, r), n, s.ctx);
    assert n < |p| - 1;
    assert s'.runs[r].todo == p[n + 1..];
    assert MidRun(s'.runs[r]);
  }

  lemma PerformTracksStatus(env: Env, s: System, r: nat)
    requires RunsShape(env, s) && StatusTracked(s) && r < |s.runs| && s.runs[r].todo != []
    ensures StatusTracked(Perform(s, r))
  {
    NextUpdate(env, s, r);
    var s', p, n := Perform(s, r), ProgramAt(env, r), |s.runs[r].done|;
    StatusEffect(p, SucceedsAt(env, r), n, s.ctx);
    if s'.ctx.status == Running {
      PerformOwesStatus(env, s, r);
    }
    assert s'.runs[r].done != [];
    if n > 0 {
      assert s.runs[r].done != [];
    }
  }

  lemma StartTracksStatus(env: Env, s: System)
    requires |s.runs| <= |env.flow| && StatusTracked(s)
    ensures StatusTracked(DispatchNext(env, s))
  {
    var s' := DispatchNext(env, s);
    assert forall i :: 0 <= i < |s.runs| ==> s'.runs[i] == s.runs[i];
  }

  lemma ControlTracksStatus(s: System, s': System)
    requires StatusTracked(s) && s'.runs == s.runs && s'.ctx == s.ctx
    ensures StatusTracked(s')
  {
  }

  lemma NextTracksStatus(env: Env, s: System, c: Choice)
    requires RunsShape(env, s) && StatusTracked(s) && Next(env, s, c).Some?
    ensures StatusTracked(Next(env, s, c).value)
  {
    match c
    case Thread(t) => PerformTracksStatus(env, s, s.threads[t]);
    case Dispatcher =>
      if s.control.Dispatching? {
        StartTracksStatus(env, s);
      } else if s.control.Executing? && s.runs[|s.runs| - 1].todo != [] {
        PerformTracksStatus(env, s, |s.runs| - 1);
      } else {
        ControlTracksStatus(s, Next(env, s, c).value);
      }
  }

  /** On every schedule, a kRunning status means that some started run still owes its final status write. */
  lemma {:induction false} RunningIsOwed(env: Env, schedule: seq<Choice>)
    requires env.init.status == NotStarted && Exec(env, schedule).Some?
    ensures StatusTracked(Exec(env, schedule).value)
  {
    if schedule != [] {
      var front := schedule[..|schedule| - 1];
      RunningIsOwed(env, front);
      ExecShape(env, front);
      NextTracksStatus(env, Exec(env, front).value, schedule[|schedule| - 1]);
    }
  }

  // ----- after Wait

  /** After `Wait` every started run has finished, having made each of its updates exactly once. */
  lemma FinishedRuns(env: Env, schedule: seq<Choice>)
    requires Exec(env, schedule).Some? && Exec(env, schedule).value.control.Finished?
    ensures var s := Exec(env, schedule).value;
      && |s.runs| <= |env.flow|
      && forall i :: 0 <= i < |s.runs| ==>
           At(env, i).Start? && s.runs[i] == RunState(ProgramAt(env, i), []) && OpsOf(s.history, i) == ProgramAt(env, i)
  {
    var s := Exec(env, schedule).value;
    ExecShape(env, schedule);
    HistoryExplainsContext(env, schedule);
    forall i | 0 <= i < |s.runs| ensures s.runs[i].todo == [] {
      assert !Unjoined(s, i);
    }
  }

  ghost predicate ShellRan(env: Env, n: nat)
    requires n <= |env.flow|
  {
    exists i :: 0 <= i < n && ShellAt(env, i)
  }

  /** After `Wait` the status is kSucceeded or kFailed if a shell script ran, and kNotStarted otherwise. */
  lemma StatusAfterWait(env: Env, schedule: seq<Choice>)
    requires env.init.status == NotStarted
    requires Exec(env, schedule).Some? && Exec(env, schedule).value.control.Finished?
    ensures var s := Exec(env, schedule).value;
      && |s.runs| <= |env.flow|
      && (s.ctx.status == Succeeded || s.ctx.status == Failed <==> ShellRan(env, |s.runs|))
      && (s.ctx.status == NotStarted <==> !ShellRan(env, |s.runs|))
  {
    var s := Exec(env, schedule).value;
    FinishedRuns(env, schedule);
    RunningIsOwed(env, schedule);
    forall i | 0 <= i < |s.runs| ensures s.runs[i].done != [] <==> ShellAt(env, i) {
      if ShellAt(env, i) {
        ShellProgramIsFramed(At(env, i).executor, env.flow[i].outcome);
      }
    }
    assert SomeRunBegan(s) <==> ShellRan(env, |s.runs|);
    assert !FinalStatusOwed(s);
  }

  // ----- which run decides the error flag

  /** Position `m` of the history is its last write of the error flag. */
  ghost predicate LastErrorWrite(history: seq<(nat, Op)>, m: nat) {
    m < |history| && history[m].1.SetError? && forall p :: m < p < |history| ==> !history[p].1.SetError?
  }

  lemma {:induction false} ReplayErrorFlag(c: Context, history: seq<(nat, Op)>, m: nat)
    requires LastErrorWrite(history, m)
    ensures Replay(c, history).hasError == history[m].1.isError
  {
    if m < |history| - 1 {
      ReplayErrorFlag(c, history[..|history| - 1], m);
    }
  }

  lemma {:induction false} OwnUpdate(history: seq<(nat, Op)>, m: nat)
    requires m < |history|
    ensures history[m].1 in OpsOf(history, history[m].0)
  {
    if m < |history| - 1 {
      OwnUpdate(history[..|history| - 1], m);
    }
  }

  /** After `Wait` the error flag tells how the run fared that wrote it last, whatever the others did. */
  lemma LastWriterDecidesError(env: Env, schedule: seq<Choice>, m: nat)
    requires Exec(env, schedule).Some? && Exec(env, schedule).value.control.Finished?
    requires LastErrorWrite(Exec(env, schedule).value.history, m)
    ensures var s := Exec(env, schedule).value;
      && s.history[m].0 < |s.runs| <= |env.flow|
      && (s.ctx.hasError <==> !SucceedsAt(env, s.history[m].0))
  {
    var s := Exec(env, schedule).value;
    FinishedRuns(env, schedule);
    HistoryExplainsContext(env, schedule);
    assert s.history[m] in s.history;
    var r := s.history[m].0;
    OwnUpdate(s.history, m);
    ReplayErrorFlag(env.init, s.history, m);
    ShellProgramIsFramed(At(env, r).executor, env.flow[r].outcome);
  }

  // ----- termination: every step uses up some of a bounded amount of work

  function FlowWork(env: Env, i: nat): nat
    requires i <= |env.flow|
    decreases |env.flow| - i
  {
    if i == |env.flow| then 0 else |ProgramAt(env, i)| + 3 + FlowWork(env, i + 1)
  }

  function RunWork(runs: seq<RunState>): nat {
    if runs == [] then 0 else RunWork(runs[..|runs| - 1]) + |runs[|runs| - 1].todo|
  }

  function ControlWork(s: System): nat
    requires JoinedUpTo(s) <= |s.threads|
  {
    match s.control
    case Dispatching => |s.threads| + 2
    case Executing => |s.threads| + 3
    case Joining(_, k) => |s.threads| - k + 1
    case Finished(_) => 0
  }

  function Remaining(env: Env, s: System): nat
    requires |s.runs| <= |env.flow| && JoinedUpTo(s) <= |s.threads|
  {
    FlowWork(env, |s.runs|) + RunWork(s.runs) + ControlWork(s)
  }

  lemma {:induction false} RunWorkUpdate(runs: seq<RunState>, r: nat, run: RunState)
    requires r < |runs|
    ensures RunWork(runs[r := run]) == RunWork(runs) - |runs[r].todo| + |run.todo|
  {
    var last := |runs| - 1;
    if r < last {
      assert runs[r := run][..last] == runs[..last][r := run];
      RunWorkUpdate(runs[..last], r, run);
    } else {
      assert runs[r := run][..last] == runs[..last];
    }
  }

  lemma PerformUsesWork(env: Env, s: System, r: nat)
    requires |s.runs| <= |env.flow| && JoinedUpTo(s) <= |s.threads| && r < |s.runs| && s.runs[r].todo != []
    ensures Remaining(env, Perform(s, r)) < Remaining(env, s)
  {
    RunWorkUpdate(s.runs, r, Perform(s, r).runs[r]);
  }

  lemma DispatchUsesWork(env: Env, s: System)
    requires |s.runs| <= |env.flow| && s.control.Dispatching?
    ensures var s' := DispatchNext(env, s);
      |s'.runs| <= |env.flow| && JoinedUpTo(s') <= |s'.threads| && Remaining(env, s') < Remaining(env, s)
  {
    var i := |s.runs|;
    if i < |env.flow| && !s.ctx.hasError && At(env, i).Start? {
      var started := s.runs + [RunState([], ProgramAt(env, i))];
      assert started[..i] == s.runs;
      assert RunWork(started) == RunWork(s.runs) + |ProgramAt(env, i)|;
    }
  }

  lemma ControlUsesWork(env: Env, s: System, s': System)
    requires |s.runs| <= |env.flow| && JoinedUpTo(s) <= |s.threads| && s'.runs == s.runs
    requires JoinedUpTo(s') <= |s'.threads| && ControlWork(s') < ControlWork(s)
    ensures Remaining(env, s') < Remaining(env, s)
  {
  }

  lemma StepUsesWork(env: Env, s: System, c: Choice)
    requires Shape(env, s) && Next(env, s, c).Some? && Shape(env, Next(env, s, c).value)
    ensures Remaining(env, Next(env, s, c).value) < Remaining(env, s)
  {
    match c
    case Thread(t) => PerformUsesWork(env, s, s.threads[t]);
    case Dispatcher =>
      if s.control.Dispatching? {
        DispatchUsesWork(env, s);
      } else if s.control.Executing? && s.runs[|s.runs| - 1].todo != [] {
        PerformUsesWork(env, s, |s.runs| - 1);
      } else {
        ControlUsesWork(env, s, Next(env, s, c).value);
      }
  }

  /** No schedule is longer than the work in the flow. */
  lemma {:induction false} SchedulesAreBounded(env: Env, schedule: seq<Choice>)
    requires Exec(env, schedule).Some?
    ensures Shape(env, Exec(env, schedule).value)
    ensures |schedule| + Remaining(env, Exec(env, schedule).value) <= FlowWork(env, 0) + 2
  {
    ExecShape(env, schedule);
    if schedule != [] {
      var front := schedule[..|schedule| - 1];
      SchedulesAreBounded(env, front);
      ExecShape(env, front);
      StepUsesWork(env, Exec(env, front).value, schedule[|schedule| - 1]);
    }
  }

  /** Until `Wait` has returned some thread can take a step: the join never deadlocks. */
  lemma AlwaysProgress(env: Env, schedule: seq<Choice>) returns (c: Choice)
    requires Exec(env, schedule).Some? && !Exec(env, schedule).value.control.Finished?
    ensures Next(env, Exec(env, schedule).value, c).Some?
  {
    ExecShape(env, schedule);
    var s := Exec(env, schedule).value;
    c := Dispatcher;
    if s.control.Joining? && s.control.k < |s.threads| && s.runs[s.threads[s.control.k]].todo != [] {
      c := Thread(s.control.k);
    }
  }

  /** Every schedule can be continued until `Wait` has returned. */
  lemma {:induction false} CanAlwaysFinish(env: Env, schedule: seq<Choice>) returns (more: seq<Choice>)
    requires Exec(env, schedule).Some?
    ensures schedule <= more
    ensures Exec(env, more).Some? && Exec(env, more).value.control.Finished?
    decreases FlowWork(env, 0) + 2 - |schedule|
  {
    SchedulesAreBounded(env, schedule);
    if Exec(env, schedule).value.control.Finished? {
      more := schedule;
    } else {
      var c := AlwaysProgress(env, schedule);
      var longer := schedule + [c];
      assert longer[..|longer| - 1] == schedule;
      assert Exec(env, longer) == Next(env, Exec(env, schedule).value, c);
      SchedulesAreBounded(env, longer);
      more := CanAlwaysFinish(env, longer);
    }
  }
}
