/**
 The flow executor as the source writes it: data_structure/executor_factory/src/flow_executor.cpp,
 include/flow_executor.h and `ShellScriptExecutor::Execute` of src/script_executor.cpp.  Before each
 access of the dispatching thread to the shared context, the threads started so far may take any number
 of steps.  Every run of this code is a schedule of the step system in FlowSystem.
 */
module FlowExecutors {
  import opened Wrappers
  import opened Scripts
  import opened ExecContexts
  import opened FlowSystem
  import opened FlowSafety
  import opened FlowStatus
  import opened FlowResults
  import FlowDispatch
  import FlowErrors
  import ScriptFactory

  /** What the dispatching thread can rely on while the others run: its own run and its place are its own. */
  ghost predicate OthersStepped(s: System, s': System) {
    && s'.control == s.control && s'.threads == s.threads && |s'.runs| == |s.runs|
    && (s.control.Executing? && s.runs != [] ==> s'.runs[|s.runs| - 1] == s.runs[|s.runs| - 1])
  }

  lemma ThreadCanStep(env: Env, s: System, t: nat)
    requires Shape(env, s) && t < |s.threads| && s.runs[s.threads[t]].todo != []
    ensures Next(env, s, Thread(t)) == Some(Perform(s, s.threads[t]))
    ensures OthersStepped(s, Perform(s, s.threads[t]))
  {
  }

  lemma InlineCanStep(env: Env, s: System)
    requires Shape(env, s) && s.control.Executing? && s.runs[|s.runs| - 1].todo != []
    ensures Next(env, s, Dispatcher) == Some(Perform(s, |s.runs| - 1))
    ensures |s.runs| - 1 !in s.threads
  {
  }

  /** `threads` lists what the threads of `s` still have to do. */
  ghost predicate WorkOf(s: System, threads: seq<seq<Op>>) {
    && |threads| == |s.threads|
    && forall t :: 0 <= t < |threads| ==> s.threads[t] < |s.runs| && threads[t] == s.runs[s.threads[t]].todo
  }

  /** `s` is a reachable state; `ctx` is its context and `threads` what its threads still have to do. */
  ghost predicate Tracks(env: Env, s: System, ctx: Context, threads: seq<seq<Op>>) {
    && Reachable(env, s) && Shape(env, s) == true
    && ctx == s.ctx
    && WorkOf(s, threads)
  }

  lemma InlineStepReachable(env: Env, s: System, r: nat)
    requires Reachable(env, s) && s.control.Executing? && r == |s.runs| - 1 && s.runs[r].todo != []
    ensures Reachable(env, Perform(s, r)) && Shape(env, Perform(s, r)) == true
  {
    ReachableShape(env, s);
    InlineCanStep(env, s);
    ReachableStep(env, s, Dispatcher);
    ReachableShape(env, Perform(s, r));
  }

  /** The synchronous run has no thread, so its update leaves the work of the threads alone. */
  lemma InlineStepIsLocal(env: Env, s: System, r: nat, t: nat)
    requires ThreadsShape(env, s) && s.control.Executing? && r == |s.runs| - 1 && s.runs[r].todo != []
    requires t < |s.threads|
    ensures Perform(s, r).runs[s.threads[t]] == s.runs[s.threads[t]]
  {
    assert s.threads[t] != r;
  }

  /** Each thread has a run of its own, so an update of one leaves the work of the others alone. */
  lemma ThreadStepIsLocal(env: Env, s: System, t: nat, u: nat)
    requires ThreadsShape(env, s) && t < |s.threads| && u < |s.threads| && u != t && s.runs[s.threads[t]].todo != []
    ensures Perform(s, s.threads[t]).runs[s.threads[u]] == s.runs[s.threads[u]]
  {
    assert s.threads[u] != s.threads[t];
  }

  lemma InlineStepTracks(env: Env, s: System, ctx: Context, threads: seq<seq<Op>>, r: nat)
    requires Tracks(env, s, ctx, threads)
    requires s.control.Executing? && r == |s.runs| - 1 && s.runs[r].todo != []
    ensures Tracks(env, Perform(s, r), Apply(s.runs[r].todo[0], ctx), threads) == true
  {
    InlineStepReachable(env, s, r);
    InlineStepWork(env, s, threads, r);
  }

  lemma InlineStepWork(env: Env, s: System, threads: seq<seq<Op>>, r: nat)
    requires ThreadsShape(env, s) && WorkOf(s, threads)
    requires s.control.Executing? && r == |s.runs| - 1 && s.runs[r].todo != []
    ensures WorkOf(Perform(s, r), threads) == true
  {
    forall t | 0 <= t < |s.threads| ensures Perform(s, r).runs[s.threads[t]] == s.runs[s.threads[t]] {
      InlineStepIsLocal(env, s, r, t);
    }
  }

  lemma ThreadStepReachable(env: Env, s: System, t: nat)
    requires Reachable(env, s) && Shape(env, s) && t < |s.threads| && s.runs[s.threads[t]].todo != []
    ensures var s' := Perform(s, s.threads[t]);
      Reachable(env, s') && Shape(env, s') == true && OthersStepped(s, s') && Remaining(env, s') < Remaining(env, s)
  {
    ThreadCanStep(env, s, t);
    PerformUsesWork(env, s, s.threads[t]);
    ReachableStep(env, s, Thread(t));
    ReachableShape(env, Perform(s, s.threads[t]));
  }

  lemma ThreadStepWork(env: Env, s: System, threads: seq<seq<Op>>, t: nat)
    requires ThreadsShape(env, s) && WorkOf(s, threads) && t < |threads| && threads[t] != []
    ensures WorkOf(Perform(s, s.threads[t]), threads[t := threads[t][1..]]) == true
  {
    var s' := Perform(s, s.threads[t]);
    forall u | 0 <= u < |threads| && u != t ensures s'.runs[s.threads[u]] == s.runs[s.threads[u]] {
      ThreadStepIsLocal(env, s, t, u);
    }
  }

  lemma ThreadStepTracks(env: Env, s: System, ctx: Context, threads: seq<seq<Op>>, t: nat)
    requires Tracks(env, s, ctx, threads) && t < |threads| && threads[t] != []
    ensures Tracks(env, Perform(s, s.threads[t]), Apply(threads[t][0], ctx), threads[t := threads[t][1..]]) == true
  {
    ThreadStepReachable(env, s, t);
    ThreadStepWork(env, s, threads, t);
  }

  /** The updates of an execution after its first. */
  lemma AfterStart(info: ScriptInfo, o: Outcome) returns (body: seq<Op>)
    ensures body == Program(Shell(info), o)[1..] && Program(Shell(info), o)[0] == SetExecStatus(Running)
    ensures body ==
            if info.path == "" then FAIL
            else match o
              case LogNotOpened => FAIL
              case ScriptMissing(start) => Appends([start]) + FAIL
              case PopenFailed(start) => Appends([start]) + FAIL
              case Ran(start, lines, wait) =>
                Appends([start] + lines) + [SetExitCode(ExitCode(wait))] + (if wait == Exited(0) then SUCCEED else FAIL)
              case Threw(appended, code) => Appends(appended) + ExitCodeWrite(code) + FAIL
  {
    body := Program(Shell(info), o)[1..];
  }

  class FlowExecutor {
    const factory: ScriptFactory.Factory
    /** What each started thread still has to do. */
    var threads: seq<seq<Op>>
    ghost const env: Env
    ghost var sys: System

    ghost predicate Valid(context: ExecContext)
      reads this, factory, context
    {
      && factory.scriptExecutors == env.registry
      && Tracks(env, sys, context.View(), threads) == true
    }

    constructor (factory: ScriptFactory.Factory, flow: seq<Planned>, context: ExecContext)
      ensures Valid(context) && sys == Initial(env)
      ensures env == Env(flow, factory.scriptExecutors, context.View()) && this.factory == factory
    {
      this.factory := factory;
      threads := [];
      env := Env(flow, factory.scriptExecutors, context.View());
      sys := Initial(Env(flow, factory.scriptExecutors, context.View()));
      new;
      assert Exec(env, []) == Some(sys);
      ReachableShape(env, sys);
    }

    /** Records a step of the dispatching thread that touches neither the context nor a started thread. */
    ghost method Advance(context: ExecContext)
      requires Valid(context) && Next(env, sys, Dispatcher).Some?
      requires Next(env, sys, Dispatcher).value.ctx == sys.ctx
      requires Next(env, sys, Dispatcher).value.threads == sys.threads
      requires sys.runs <= Next(env, sys, Dispatcher).value.runs
      modifies this`sys
      ensures Valid(context) && sys == Next(env, old(sys), Dispatcher).value
    {
      ReachableStep(env, sys, Dispatcher);
      sys := Next(env, sys, Dispatcher).value;
      ReachableShape(env, sys);
    }

    /** Started thread `t` makes its next update. */
    method StepThread(t: nat, context: ExecContext)
      requires Valid(context) && t < |threads| && threads[t] != []
      modifies this, context
      ensures Valid(context) && OthersStepped(old(sys), sys)
      ensures Remaining(env, sys) < Remaining(env, old(sys))
      ensures |threads[t]| < |old(threads[t])|
    {
      ThreadStepReachable(env, sys, t);
      ThreadStepTracks(env, sys, context.View(), threads, t);
      ghost var r := sys.threads[t];
      context.Perform(threads[t][0]);
      threads := threads[t := threads[t][1..]];
      sys := Perform(sys, r);
    }

    /** The started threads take any number of steps, in any order. */
    method Interfere(context: ExecContext)
      requires Valid(context)
      modifies this, context
      ensures Valid(context) && OthersStepped(old(sys), sys)
    {
      while *
        invariant Valid(context) && OthersStepped(old(sys), sys)
        decreases Remaining(env, sys)
      {
        var t: int := *;
        if 0 <= t < |threads| && threads[t] != [] {
          StepThread(t, context);
        } else {
          break;
        }
      }
    }

    // ----- ShellScriptExecutor::Execute on the dispatching thread

    /** What the synchronous run still has to do. */
    ghost function Todo(): seq<Op>
      reads this
      requires sys.runs != []
    {
      sys.runs[|sys.runs| - 1].todo
    }

    ghost predicate Inline(context: ExecContext, n: nat)
      reads this, factory, context
    {
      Valid(context) && sys.control.Executing? && |sys.runs| == n && n > 0
    }

    /** One setter call of the synchronous run. */
    method Update(op: Op, context: ExecContext, ghost n: nat)
      requires Inline(context, n) && Todo() != [] && Todo()[0] == op
      modifies this, context
      ensures sys.threads == old(sys.threads)
      ensures Inline(context, n) && Todo() == old(Todo())[1..]
    {
      InterfereInline(context, n);
      UpdateNow(op, context, n);
    }

    method InterfereInline(context: ExecContext, ghost n: nat)
      requires Inline(context, n)
      modifies this, context
      ensures Inline(context, n) == true
      ensures Todo() == old(Todo()) && sys.threads == old(sys.threads)
    {
      Interfere(context);
    }

    method UpdateNow(op: Op, context: ExecContext, ghost n: nat)
      requires Inline(context, n) && Todo() != [] && Todo()[0] == op
      modifies context, this`sys
      ensures Inline(context, n) == true
      ensures Todo() == old(Todo())[1..]
      ensures sys.threads == old(sys.threads)
    {
      InlineStepTracks(env, sys, context.View(), threads, n - 1);
      context.Perform(op);
      sys := Perform(sys, n - 1);
    }

    method Fail(context: ExecContext, ghost n: nat)
      requires Inline(context, n) && Todo() == FAIL
      modifies this, context
      ensures sys.threads == old(sys.threads)
      ensures Inline(context, n) && Todo() == []
    {
      Update(SetError(true), context, n);
      Update(SetExecStatus(Failed), context, n);
    }

    /** The read loop (src/script_executor.cpp:94-101). */
    method AppendLines(lines: seq<string>, context: ExecContext, ghost n: nat, ghost rest: seq<Op>)
      requires Inline(context, n) && Todo() == Appends(lines) + rest
      modifies this, context
      ensures sys.threads == old(sys.threads)
      ensures Inline(context, n) && Todo() == rest
    {
      var i := 0;
      while i < |lines|
        invariant 0 <= i <= |lines|
        invariant Inline(context, n) && Todo() == Appends(lines)[i..] + rest
        invariant sys.threads == old(sys.threads)
      {
        Update(AppendOutput(lines[i]), context, n);
        assert (Appends(lines)[i..] + rest)[1..] == Appends(lines)[i + 1..] + rest;
        i := i + 1;
      }
      assert Appends(lines)[i..] + rest == rest;
    }

    /** The start message, then a failure before the script runs (lines 69-89). */
    method StartAndFail(start: string, context: ExecContext, ghost n: nat)
      requires Inline(context, n) && Todo() == Appends([start]) + FAIL
      modifies this, context
      ensures sys.threads == old(sys.threads)
      ensures Inline(context, n) && Todo() == []
    {
      Update(AppendOutput(start), context, n);
      assert Todo() == FAIL;
      Fail(context, n);
    }

    /** A script that runs to its end, from the start message on (lines 69-132). */
    method RunScript(start: string, lines: seq<string>, wait: WaitStatus, context: ExecContext, ghost n: nat, ghost end: seq<Op>)
      requires end == if wait == Exited(0) then SUCCEED else FAIL
      requires Inline(context, n) && Todo() == Appends([start] + lines) + [SetExitCode(ExitCode(wait))] + end
      modifies this, context
      ensures sys.threads == old(sys.threads)
      ensures Inline(context, n) && Todo() == []
    {
      ghost var rest := [SetExitCode(ExitCode(wait))] + end;
      assert Todo() == Appends([start] + lines) + rest;
      AppendLines([start] + lines, context, n, rest);
      Update(SetExitCode(ExitCode(wait)), context, n);
      assert Todo() == end;
      if wait != Exited(0) {
        Fail(context, n);
      } else {
        Update(SetError(false), context, n);
        Update(SetExecStatus(Succeeded), context, n);
      }
    }

    /** An exception after some of the output, before or after the exit code is written (lines 134-141). */
    method AppendThenThrow(appended: seq<string>, code: Option<nat>, context: ExecContext, ghost n: nat)
      requires Inline(context, n) && Todo() == Appends(appended) + ExitCodeWrite(code) + FAIL
      modifies this, context
      ensures sys.threads == old(sys.threads)
      ensures Inline(context, n) && Todo() == []
    {
      ghost var rest := ExitCodeWrite(code) + FAIL;
      assert Todo() == Appends(appended) + rest;
      AppendLines(appended, context, n, rest);
      if code.Some? {
        Update(SetExitCode(code.value), context, n);
        assert Todo() == FAIL;
      } else {
        assert Todo() == FAIL;
      }
      Fail(context, n);
    }

    /** `ShellScriptExecutor::Execute` (src/script_executor.cpp:30-148). */
    method ExecuteShell(info: ScriptInfo, outcome: Outcome, context: ExecContext, ghost n: nat) returns (status: Status)
      requires Inline(context, n) && Todo() == Program(Shell(info), outcome)
      modifies this, context
      ensures sys.threads == old(sys.threads)
      ensures Inline(context, n) && Todo() == []
      ensures status == if info.path == "" || outcome.LogNotOpened? then InvalidArgument
                        else if outcome.ScriptMissing? then NotFound
                        else if outcome.PopenFailed? then Internal
                        else Ok
    {
      ghost var body := AfterStart(info, outcome);
      Update(SetExecStatus(Running), context, n);
      assert Todo() == body;
      if info.path == "" {
        Fail(context, n);
        return InvalidArgument;
      }
      match outcome
      case LogNotOpened =>
        Fail(context, n);
        return InvalidArgument;
      case ScriptMissing(start) =>
        StartAndFail(start, context, n);
        return NotFound;
      case PopenFailed(start) =>
        StartAndFail(start, context, n);
        return Internal;
      case Ran(start, lines, wait) =>
        RunScript(start, lines, wait, context, n, if wait == Exited(0) then SUCCEED else FAIL);
        return Ok;
      case Threw(appended, code) =>
        AppendThenThrow(appended, code, context, n);
        return Ok;
    }

    // ----- FlowExecutor

    /** At the top of the loop with `n` nodes dispatched. */
    ghost predicate AtNode(context: ExecContext, n: nat)
      reads this, factory, context
    {
      Valid(context) && sys.control.Dispatching? && |sys.runs| == n
    }

    /** After node number `n`: on to the next, or returned. */
    ghost predicate AfterNode(context: ExecContext, n: nat, status: Status)
      reads this, factory, context
    {
      if status == Ok then AtNode(context, n + 1) else Valid(context) && sys.control == Joining(status, 0)
    }

    /** Node number `n` was started last, and the dispatching thread has made all updates of `program` for it. */
    ghost predicate RanInline(n: nat, program: seq<Op>)
      reads this
    {
      |sys.runs| == n + 1 && sys.runs[n] == RunState(program, [])
    }

    /** `executor->Execute(context)` on the dispatching thread. */
    method ExecuteInline(executor: Executor, outcome: Outcome, context: ExecContext, ghost n: nat) returns (status: Status)
      requires AtNode(context, n) && n < |env.flow| && !sys.ctx.hasError
      requires At(env, n) == Start(executor, false) && env.flow[n].outcome == outcome
      modifies this, context
      ensures AfterNode(context, n, status) && RanInline(n, Program(executor, outcome))
      ensures |threads| == |old(threads)| && status == Returns(executor, outcome)
    {
      EnterInline(context, n);
      status := Execute(executor, outcome, context, n + 1);
      LeaveInline(context, n, status);
    }

    /** `Execute` of the executor; a DAG script does nothing (src/script_executor.cpp:150-183). */
    method Execute(executor: Executor, outcome: Outcome, context: ExecContext, ghost n: nat) returns (status: Status)
      requires Inline(context, n) && Todo() == Program(executor, outcome)
      modifies this, context
      ensures sys.threads == old(sys.threads)
      ensures Inline(context, n) && Todo() == []
      ensures status == Returns(executor, outcome)
    {
      match executor
      case Shell(info) => status := ExecuteShell(info, outcome, context, n);
      case Dag(_) => status := Ok;
    }

    /** The dispatching thread starts node `n` on itself. */
    ghost method EnterInline(context: ExecContext, n: nat)
      requires AtNode(context, n) && n < |env.flow| && !sys.ctx.hasError
      requires At(env, n).Start? && !At(env, n).async
      modifies this`sys
      ensures Inline(context, n + 1) && Todo() == ProgramAt(env, n)
      ensures sys.threads == old(sys.threads)
    {
      DispatchStarts(env, sys);
      Advance(context);
    }

    /** The synchronous run of node `n` is over. */
    ghost method LeaveInline(context: ExecContext, n: nat, status: Status)
      requires Inline(context, n + 1) && Todo() == [] && n < |env.flow| && status == ReturnsAt(env, n)
      modifies this`sys
      ensures AfterNode(context, n, status) && RanInline(n, ProgramAt(env, n))
      ensures sys.threads == old(sys.threads)
    {
      assert sys.runs[n].done + [] == sys.runs[n].done;
      Advance(context);
    }

    /** `ExecuteCommonStep` (src/flow_executor.cpp:42-57). */
    method ExecuteCommonStep(step: Planned, context: ExecContext, ghost n: nat) returns (status: Status)
      requires AtNode(context, n) && n < |env.flow| && !sys.ctx.hasError
      requires env.flow[n] == step && step.node.stepType == "common"
      modifies this, context
      ensures AfterNode(context, n, status)
      ensures var registry, name := factory.scriptExecutors, step.node.scriptName;
        if name !in registry then status == NotFound && threads == old(threads)
        else if step.node.async then status == Ok && threads == old(threads) + [Program(registry[name], step.outcome)]
        else
          && status == Returns(registry[name], step.outcome)
          && |threads| == |old(threads)|
          && RanInline(n, Program(registry[name], step.outcome))
    {
      var executor := factory.GetScriptExecutor(step.node.scriptName);
      if executor.None? {
        Advance(context);
        return NotFound;
      }
      if step.node.async {
        threads := threads + [Program(executor.value, step.outcome)];
        ReachableStep(env, sys, Dispatcher);
        sys := Next(env, sys, Dispatcher).value;
        ReachableShape(env, sys);
        return Ok;
      }
      status := ExecuteInline(executor.value, step.outcome, context, n);
    }

    /** `ExecuteBranchStep` (src/flow_executor.cpp:59-71). */
    method ExecuteBranchStep(step: Planned, context: ExecContext, ghost n: nat) returns (status: Status)
      requires AtNode(context, n) && n < |env.flow| && !sys.ctx.hasError
      requires env.flow[n] == step && step.node.stepType == "branch"
      modifies this, context
      ensures AfterNode(context, n, status)
      ensures var registry, name := factory.scriptExecutors, step.node.trueScriptName;
        if name !in registry then status == NotFound && threads == old(threads)
        else
          && status == Returns(registry[name], step.outcome)
          && |threads| == |old(threads)|
          && RanInline(n, Program(registry[name], step.outcome))
    {
      var targetScript := if EvaluateCondition(step.node.condition) then step.node.trueScriptName
                          else step.node.falseScriptName;
      var executor := factory.GetScriptExecutor(targetScript);
      if executor.None? {
        Advance(context);
        return NotFound;
      }
      status := ExecuteInline(executor.value, step.outcome, context, n);
    }

    /** `ExecuteFlow` (src/flow_executor.cpp:8-40). */
    method ExecuteFlow(flow: seq<Planned>, context: ExecContext) returns (status: Status)
      requires AtNode(context, 0) && env.flow == flow
      modifies this, context
      ensures Valid(context) && sys.control == Joining(status, 0)
      ensures forall i :: 0 <= i < |sys.runs| ==> FlowDispatch.RunIsNode(env, sys, i)
    {
      status := DispatchNodes(flow, context);
      ghost var schedule :| Exec(env, schedule) == Some(sys);
      forall i | 0 <= i < |sys.runs| ensures FlowDispatch.RunIsNode(env, sys, i) {
        FlowDispatch.RunsAreNodes(env, schedule, i);
      }
    }

    /** Its loop. */
    method DispatchNodes(flow: seq<Planned>, context: ExecContext) returns (status: Status)
      requires AtNode(context, 0) && env.flow == flow
      modifies this, context
      ensures Valid(context) && sys.control == Joining(status, 0)
    {
      var i := 0;
      while i < |flow|
        invariant 0 <= i <= |flow| && AtNode(context, i)
      {
        Interfere(context);
        if context.hasError {
          Advance(context);
          return FailedPrecondition;
        }
        if flow[i].node.stepType == "common" {
          status := ExecuteCommonStep(flow[i], context, i);
          if status != Ok {
            return;
          }
        } else if flow[i].node.stepType == "branch" {
          status := ExecuteBranchStep(flow[i], context, i);
          if status != Ok {
            return;
          }
        } else {
          Advance(context);
          return InvalidArgument;
        }
        i := i + 1;
      }
      Advance(context);
      return Ok;
    }

    /** `t.join()`: the threads run on until thread `k` has finished. */
    method JoinThread(k: nat, context: ExecContext)
      requires Valid(context) && k < |threads|
      modifies this, context
      ensures Valid(context) && OthersStepped(old(sys), sys) && threads[k] == []
    {
      while threads[k] != []
        invariant Valid(context) && OthersStepped(old(sys), sys)
        decreases Remaining(env, sys)
      {
        var t: int := *;
        if 0 <= t < |threads| && threads[t] != [] {
          StepThread(t, context);
        } else {
          StepThread(k, context);
        }
      }
    }

    /** `Wait` (include/flow_executor.h:13-20). */
    method Wait(context: ExecContext, ghost status: Status)
      requires Valid(context) && sys.control == Joining(status, 0)
      modifies this, context
      ensures Valid(context) && sys.control == Finished(status) && threads == []
    {
      var k := 0;
      while k < |threads|
        invariant 0 <= k <= |threads| && Valid(context) && sys.control == Joining(status, k)
        invariant |threads| == |old(threads)|
      {
        JoinThread(k, context);
        Advance(context);
        k := k + 1;
      }
      ReachableStep(env, sys, Dispatcher);
      threads := [];
      sys := Next(env, sys, Dispatcher).value;
      ReachableShape(env, sys);
    }

    /**
     `ExecuteFlow`, then `Wait`, as main.cpp:25-27 calls them.  Whatever the threads did in between, the
     result is one the step system reaches, so what holds for all schedules holds here.
     */
    method RunFlow(flow: seq<Planned>, context: ExecContext) returns (status: Status)
      requires AtNode(context, 0) && env.flow == flow
      modifies this, context
      ensures Valid(context) && sys.control == Finished(status) && threads == []
      ensures forall i :: 0 <= i < |sys.runs| ==> FlowDispatch.RunIsNode(env, sys, i)
      ensures |sys.runs| <= |env.flow| && FlowDispatch.Explains(env, |sys.runs|, status)
      ensures AllSucceed(env) ==> EndsWell(env, sys)
      ensures AllSync(env) ==>
                && StopsAfter(env, |sys.runs|)
                && status == StopStatus(env, |sys.runs|)
                && context.View() == Sequential(env, |sys.runs|)
      ensures !env.init.hasError && !FlowErrors.CanMislead(env) ==> FlowErrors.ReportsTruly(env, sys)
    {
      status := ExecuteFlow(flow, context);
      Wait(context, status);
      ghost var schedule :| Exec(env, schedule) == Some(sys);
      forall i | 0 <= i < |sys.runs| ensures FlowDispatch.RunIsNode(env, sys, i) {
        FlowDispatch.RunsAreNodes(env, schedule, i);
      }
      FlowDispatch.WhyItReturned(env, schedule);
      if AllSucceed(env) {
        ScheduleIndependence(env, schedule);
      }
      if !env.init.hasError && !FlowErrors.CanMislead(env) {
        FlowErrors.NeverMisleads(env, schedule);
      }
      if AllSync(env) {
        SyncFlowStopsAtFirstFailure(env, schedule);
      }
    }
  }
}
