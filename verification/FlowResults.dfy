/**
 What a flow ends with: independent of the schedule when every script succeeds, sequential when no
 node is asynchronous, and schedule-dependent in exactly known ways when all nodes are.
 */
module FlowResults {
  import opened Wrappers
  import opened Scripts
  import opened ScriptFactory
  import opened FlowSystem
  import opened FlowSafety
  import opened FlowStatus

  // ----- lookups

  /** If every script a node can use is declared, no lookup misses; only the step type can be rejected. */
  lemma LookupNeverMisses(registry: Registry, scripts: seq<ScriptInfo>, node: FlowNode)
    requires node.stepType == "common" ==> Declares(scripts, node.scriptName)
    requires node.stepType == "branch" ==> Declares(scripts, node.trueScriptName)
    ensures var d := Resolve(Registered(registry, scripts), node);
      if node.stepType == "common" || node.stepType == "branch" then d.Start? else d == Reject(InvalidArgument)
  {
    RegisteredIds(registry, scripts, node.scriptName);
    RegisteredIds(registry, scripts, node.trueScriptName);
  }

  // ----- the lines of an execution

  lemma {:induction false} LinesConcat(a: seq<Op>, b: seq<Op>)
    ensures Lines(a + b) == Lines(a) + Lines(b)
  {
    if b == [] {
      assert a + b == a;
    } else {
      assert (a + b)[..|a + b| - 1] == a + b[..|b| - 1];
      LinesConcat(a, b[..|b| - 1]);
    }
  }

  lemma {:induction false} LinesOfAppends(lines: seq<string>)
    ensures Lines(Appends(lines)) == lines
  {
    if lines != [] {
      LinesOfAppends(lines[..|lines| - 1]);
      assert Appends(lines)[..|lines| - 1] == Appends(lines[..|lines| - 1]);
    }
  }

  lemma {:induction false} NoLines(ops: seq<Op>)
    requires forall i :: 0 <= i < |ops| ==> !ops[i].AppendOutput?
    ensures Lines(ops) == []
  {
    if ops != [] {
      NoLines(ops[..|ops| - 1]);
    }
  }

  lemma LinesConcatIs(a: seq<Op>, b: seq<Op>, x: seq<string>, y: seq<string>)
    requires Lines(a) == x && Lines(b) == y
    ensures Lines(a + b) == x + y
  {
    LinesConcat(a, b);
  }

  lemma LinesBetween(before: seq<Op>, lines: seq<string>, after: seq<Op>)
    requires forall i :: 0 <= i < |before| ==> !before[i].AppendOutput?
    requires forall i :: 0 <= i < |after| ==> !after[i].AppendOutput?
    ensures Lines(before + Appends(lines) + after) == lines
  {
    LinesConcatIs(before, Appends(lines), [], lines) by {
      NoLines(before);
      LinesOfAppends(lines);
    }
    LinesConcatIs(before + Appends(lines), after, lines, []) by {
      NoLines(after);
    }
  }

  /** A script that ran contributes its start message and then every line it printed. */
  lemma LinesOfScript(info: ScriptInfo, start: string, lines: seq<string>, wait: WaitStatus)
    requires info.path != ""
    ensures Lines(Program(Shell(info), Ran(start, lines, wait))) == [start] + lines
  {
    var after := [SetExitCode(ExitCode(wait))] + (if wait == Exited(0) then SUCCEED else FAIL);
    LinesBetween(START, [start] + lines, after);
    assert Program(Shell(info), Ran(start, lines, wait)) == START + Appends([start] + lines) + after;
  }

  // ----- every script succeeds: the schedule does not matter

  ghost predicate AllSucceed(env: Env) {
    && !env.init.hasError && env.init.exitCode == 0 && env.init.status == NotStarted
    && forall i :: 0 <= i < |env.flow| ==> SucceedsAt(env, i)
  }

  /** No trace of a failure, and `ExecuteFlow` returns only with OK after the last node. */
  ghost predicate Untroubled(env: Env, s: System) {
    && !s.ctx.hasError && s.ctx.exitCode == 0 && s.ctx.status != Failed
    && (s.control.Joining? || s.control.Finished? ==> s.control.status == Ok && |s.runs| == |env.flow|)
  }

  lemma PerformUntroubled(env: Env, s: System, r: nat)
    requires AllSucceed(env) && RunsShape(env, s) && Untroubled(env, s) && r < |s.runs| && s.runs[r].todo != []
    ensures Untroubled(env, Perform(s, r))
  {
    NextUpdate(env, s, r);
    var p, op := ProgramAt(env, r), s.runs[r].todo[0];
    assert op == p[|s.runs[r].done|] && op in p;
    SuccessExitsWithZero(At(env, r).executor, env.flow[r].outcome);
    assert SucceedsAt(env, r);
  }

  lemma NextUntroubled(env: Env, s: System, c: Choice)
    requires AllSucceed(env) && Shape(env, s) && Untroubled(env, s) && Next(env, s, c).Some?
    ensures Untroubled(env, Next(env, s, c).value)
  {
    match c
    case Thread(t) => PerformUntroubled(env, s, s.threads[t]);
    case Dispatcher =>
      if s.control.Dispatching? {
        assert |s.runs| < |env.flow| ==> SucceedsAt(env, |s.runs|);
      } else if s.control.Executing? {
        var r := |s.runs| - 1;
        if s.runs[r].todo != [] {
          PerformUntroubled(env, s, r);
        } else {
          assert SucceedsAt(env, r);
          SuccessExitsWithZero(At(env, r).executor, env.flow[r].outcome);
        }
      }
  }

  lemma {:induction false} AlwaysUntroubled(env: Env, schedule: seq<Choice>)
    requires AllSucceed(env) && Exec(env, schedule).Some?
    ensures Untroubled(env, Exec(env, schedule).value)
  {
    if schedule != [] {
      var front := schedule[..|schedule| - 1];
      AlwaysUntroubled(env, front);
      ExecShape(env, front);
      NextUntroubled(env, Exec(env, front).value, schedule[|schedule| - 1]);
    }
  }

  /** The lines of every node's run. */
  ghost function FlowLines(env: Env): seq<seq<string>> {
    seq(|env.flow|, i requires 0 <= i < |env.flow| => Lines(ProgramAt(env, i)))
  }

  ghost predicate EndsWell(env: Env, s: System) {
    && s.control == Finished(Ok)
    && |s.runs| == |env.flow|
    && !s.ctx.hasError && s.ctx.exitCode == 0
    && s.ctx.status == (if ShellRan(env, |env.flow|) then Succeeded else NotStarted)
    && exists text :: s.ctx.output == env.init.output + text && Interleaves(FlowLines(env), text)
  }

  /**
   If every script succeeds and every lookup finds an executor, every schedule dispatches the whole
   flow, returns OK and ends without error; the output is some interleaving of the same lines.
   */
  lemma ScheduleIndependence(env: Env, schedule: seq<Choice>)
    requires AllSucceed(env)
    requires Exec(env, schedule).Some? && Exec(env, schedule).value.control.Finished?
    ensures EndsWell(env, Exec(env, schedule).value)
  {
    var s := Exec(env, schedule).value;
    AlwaysUntroubled(env, schedule);
    StatusAfterWait(env, schedule);
    FinishedRuns(env, schedule);
    OutputInterleavesLines(env, schedule);
    assert LinesSoFar(s) == FlowLines(env);
  }

  /** Two schedules of a successful flow end with the same context up to the interleaving of the output. */
  lemma TwoSchedulesAgree(env: Env, a: seq<Choice>, b: seq<Choice>)
    requires AllSucceed(env)
    requires Exec(env, a).Some? && Exec(env, a).value.control.Finished?
    requires Exec(env, b).Some? && Exec(env, b).value.control.Finished?
    ensures Exec(env, a).value.control == Exec(env, b).value.control
    ensures Exec(env, a).value.ctx == Exec(env, b).value.ctx.(output := Exec(env, a).value.ctx.output)
    ensures exists x, y :: Interleaves(FlowLines(env), x) && Interleaves(FlowLines(env), y)
              && Exec(env, a).value.ctx.output == env.init.output + x
              && Exec(env, b).value.ctx.output == env.init.output + y
  {
    ScheduleIndependence(env, a);
    ScheduleIndependence(env, b);
  }

  // ----- no asynchronous node: the flow is sequential and stops at the first failure

  /** No node that names a registered script is common and asynchronous. */
  ghost predicate AllSync(env: Env) {
    && !env.init.hasError
    && forall i :: 0 <= i < |env.flow| ==> var node := env.flow[i].node;
         node.stepType == "common" && node.scriptName in env.registry ==> !node.async
  }

  ghost predicate NoThreads(env: Env) {
    && !env.init.hasError
    && forall i :: 0 <= i < |env.flow| && At(env, i).Start? ==> !At(env, i).async
  }

  lemma SyncStartsNoThreads(env: Env)
    requires AllSync(env)
    ensures NoThreads(env)
  {
    forall i | 0 <= i < |env.flow| && At(env, i).Start? ensures !At(env, i).async {
      var node := env.flow[i].node;
      assert node.stepType == "common" && node.scriptName in env.registry ==> !node.async;
    }
  }

  /** The context after the first `n` nodes have run one after the other. */
  function Sequential(env: Env, n: nat): Context
    requires n <= |env.flow|
  {
    if n == 0 then env.init else Run(ProgramAt(env, n - 1), Sequential(env, n - 1))
  }

  /** Run n - 1 failed, so nothing after it may start. */
  predicate LastFailed(env: Env, n: nat)
    requires n <= |env.flow|
  {
    n > 0 && !SucceedsAt(env, n - 1)
  }

  /** What `ExecuteFlow` returns after `n` runs. */
  function StopStatus(env: Env, n: nat): Status
    requires n <= |env.flow|
  {
    if n > 0 && ReturnsAt(env, n - 1) != Ok then ReturnsAt(env, n - 1)
    else if n == |env.flow| then Ok
    else if LastFailed(env, n) then FailedPrecondition
    else match At(env, n) case Reject(status) => status case Start(_, _) => Ok
  }

  /** The flow stops after `n` runs: at its end, after the first failure, or before a node it cannot start. */
  ghost predicate StopsAfter(env: Env, n: nat) {
    && n <= |env.flow|
    && (forall i :: 0 <= i < n ==> At(env, i).Start?)
    && (forall i :: 0 <= i < n - 1 ==> SucceedsAt(env, i))
    && (n == |env.flow| || LastFailed(env, n) || At(env, n).Reject?)
  }

  ghost predicate AllButLastSucceed(env: Env, n: nat)
    requires n <= |env.flow|
  {
    forall i :: 0 <= i < n - 1 ==> SucceedsAt(env, i)
  }

  ghost predicate ContextInOrder(env: Env, s: System)
    requires |s.runs| <= |env.flow|
  {
    if s.control.Executing?
    then |s.runs| > 0 && Run(s.runs[|s.runs| - 1].todo, s.ctx) == Sequential(env, |s.runs|)
    else s.ctx == Sequential(env, |s.runs|)
  }

  ghost predicate ControlInOrder(env: Env, control: Control, n: nat)
    requires n <= |env.flow|
  {
    match control
    case Dispatching => n > 0 ==> ReturnsAt(env, n - 1) == Ok
    case Executing => n > 0
    case Joining(status, _) => StopsAfter(env, n) && status == StopStatus(env, n)
    case Finished(status) => StopsAfter(env, n) && status == StopStatus(env, n)
  }

  ghost predicate InOrder(env: Env, s: System) {
    && s.threads == []
    && |s.runs| <= |env.flow|
    && AllButLastSucceed(env, |s.runs|)
    && ContextInOrder(env, s)
    && ControlInOrder(env, s.control, |s.runs|)
  }

  /** After runs that all succeeded but perhaps the last, the error flag tells about the last. */
  lemma {:induction false} SequentialError(env: Env, n: nat)
    requires n <= |env.flow| && !env.init.hasError
    requires forall i :: 0 <= i < n ==> At(env, i).Start?
    requires forall i :: 0 <= i < n - 1 ==> SucceedsAt(env, i)
    ensures Sequential(env, n).hasError <==> LastFailed(env, n)
  {
    if n > 0 {
      SequentialError(env, n - 1);
      var p := ProgramAt(env, n - 1);
      if At(env, n - 1).executor.Shell? {
        ShellProgramIsFramed(At(env, n - 1).executor, env.flow[n - 1].outcome);
        assert p[0..] == p;
        FramedRunSetsError(p, Sequential(env, n - 1), SucceedsAt(env, n - 1), 0);
      }
    }
  }

  // (`== true` in these contracts keeps the verifier from unfolding the invariant piece by piece.)

  lemma DispatchStopsInOrder(env: Env, s: System)
    requires NoThreads(env) && RunsShape(env, s) && InOrder(env, s) && s.control.Dispatching?
    requires |s.runs| == |env.flow| || LastFailed(env, |s.runs|) || At(env, |s.runs|).Reject?
    ensures InOrder(env, DispatchNext(env, s)) == true
  {
    var n := |s.runs|;
    SequentialError(env, n);
    assert StopsAfter(env, n);
    assert DispatchNext(env, s) == s.(control := Joining(StopStatus(env, n), 0));
  }

  function Started(env: Env, s: System): System
    requires |s.runs| < |env.flow|
  {
    s.(runs := s.runs + [RunState([], ProgramAt(env, |s.runs|))], control := Executing)
  }

  lemma DispatchStarts(env: Env, s: System)
    requires |s.runs| < |env.flow| && !s.ctx.hasError
    requires At(env, |s.runs|).Start? && !At(env, |s.runs|).async
    ensures DispatchNext(env, s) == Started(env, s)
  {
  }

  lemma StartedInOrder(env: Env, s: System)
    requires InOrder(env, s) && s.control.Dispatching?
    requires |s.runs| < |env.flow| && !LastFailed(env, |s.runs|)
    ensures InOrder(env, Started(env, s)) == true
  {
    assert Started(env, s).runs[|s.runs|].todo == ProgramAt(env, |s.runs|);
  }

  lemma DispatchStartsInOrder(env: Env, s: System)
    requires NoThreads(env) && RunsShape(env, s) && InOrder(env, s) && s.control.Dispatching?
    requires |s.runs| < |env.flow| && !LastFailed(env, |s.runs|) && At(env, |s.runs|).Start?
    ensures InOrder(env, DispatchNext(env, s)) == true
  {
    SequentialError(env, |s.runs|);
    DispatchStarts(env, s);
    StartedInOrder(env, s);
  }

  lemma PerformInOrder(env: Env, s: System)
    requires InOrder(env, s) && s.control.Executing? && s.runs[|s.runs| - 1].todo != []
    ensures InOrder(env, Perform(s, |s.runs| - 1))
  {
    var r := |s.runs| - 1;
    assert Perform(s, r).runs[r].todo == s.runs[r].todo[1..];
  }

  lemma ReturnInOrder(env: Env, s: System, control: Control)
    requires RunsShape(env, s) && InOrder(env, s) && s.control.Executing? && s.runs[|s.runs| - 1].todo == []
    requires control == if ReturnsAt(env, |s.runs| - 1) == Ok then Dispatching
                        else Joining(ReturnsAt(env, |s.runs| - 1), 0)
    ensures InOrder(env, s.(control := control)) == true
  {
    var n := |s.runs|;
    if ReturnsAt(env, n - 1) != Ok {
      FailureReturns(env, n - 1);
      assert StopsAfter(env, n);
    }
  }

  lemma NextInOrder(env: Env, s: System, c: Choice)
    requires NoThreads(env) && RunsShape(env, s) && InOrder(env, s) && Next(env, s, c).Some?
    ensures InOrder(env, Next(env, s, c).value) == true
  {
    var n := |s.runs|;
    match s.control
    case Dispatching =>
      if n == |env.flow| || LastFailed(env, n) || At(env, n).Reject? {
        DispatchStopsInOrder(env, s);
      } else {
        DispatchStartsInOrder(env, s);
      }
    case Executing =>
      if s.runs[n - 1].todo != [] {
        PerformInOrder(env, s);
      } else {
        ReturnInOrder(env, s, Next(env, s, c).value.control);
      }
    case Joining(_, _) =>
    case Finished(_) =>
  }

  /** Only a failed execution returns anything but OK. */
  lemma FailureReturns(env: Env, i: nat)
    requires i < |env.flow| && At(env, i).Start? && ReturnsAt(env, i) != Ok
    ensures !SucceedsAt(env, i)
  {
  }

  lemma {:induction false} AlwaysInOrder(env: Env, schedule: seq<Choice>)
    requires NoThreads(env) && Exec(env, schedule).Some?
    ensures InOrder(env, Exec(env, schedule).value)
  {
    if schedule != [] {
      var front := schedule[..|schedule| - 1];
      AlwaysInOrder(env, front);
      ExecShape(env, front);
      NextInOrder(env, Exec(env, front).value, schedule[|schedule| - 1]);
    }
  }

  lemma ErrorIffSomeFailed(env: Env, n: nat)
    requires StopsAfter(env, n) && !env.init.hasError
    ensures Sequential(env, n).hasError <==> exists i :: 0 <= i < n && !SucceedsAt(env, i)
  {
    SequentialError(env, n);
  }

  /**
   A flow without asynchronous nodes runs its nodes in order up to and including the first that fails,
   or up to the first it cannot start; the context is that of running them one after the other, and it
   has an error if and only if some run failed.
   */
  lemma SyncFlowStopsAtFirstFailure(env: Env, schedule: seq<Choice>)
    requires AllSync(env) && Exec(env, schedule).Some? && Exec(env, schedule).value.control.Finished?
    ensures var s := Exec(env, schedule).value;
      && StopsAfter(env, |s.runs|)
      && s.control == Finished(StopStatus(env, |s.runs|))
      && s.ctx == Sequential(env, |s.runs|)
      && (s.ctx.hasError <==> exists i :: 0 <= i < |s.runs| && !SucceedsAt(env, i))
  {
    var s := Exec(env, schedule).value;
    SyncStartsNoThreads(env);
    AlwaysInOrder(env, schedule);
    ErrorIffSomeFailed(env, |s.runs|);
  }

  // ----- exit code and output of a flow without asynchronous nodes

  /** The exit code that node i's execution writes, if any. */
  ghost predicate WritesExitCode(env: Env, i: nat, code: int)
    requires i < |env.flow|
  {
    && ShellAt(env, i) && At(env, i).executor.info.path != ""
    && match env.flow[i].outcome
       case Ran(_, _, Exited(c)) => code == c
       case Ran(_, _, Signaled(signal)) => code == signal
       case Ran(_, _, Unknown) => code == 0
       case Threw(_, Some(c)) => code == c
       case _ => false
  }

  /** The exit code after `n` runs is that of the last script among them that ran to an exit code. */
  lemma {:induction false} SequentialExitCode(env: Env, n: nat, i: nat, code: int)
    requires i < n <= |env.flow| && WritesExitCode(env, i, code)
    requires forall j :: 0 <= j < n ==> At(env, j).Start?
    requires forall j, c :: i < j < n ==> !WritesExitCode(env, j, c)
    ensures Sequential(env, n).exitCode == code
  {
    WholeExecution(At(env, n - 1).executor, env.flow[n - 1].outcome, Sequential(env, n - 1));
    if i < n - 1 {
      SequentialExitCode(env, n - 1, i, code);
      KeepsExitCode(env, n - 1, Sequential(env, n - 1));
    }
  }

  lemma KeepsExitCode(env: Env, j: nat, c: Context)
    requires j < |env.flow| && At(env, j).Start? && forall code :: !WritesExitCode(env, j, code)
    ensures Run(ProgramAt(env, j), c).exitCode == c.exitCode
  {
    WholeExecution(At(env, j).executor, env.flow[j].outcome, c);
    var code := Run(ProgramAt(env, j), c).exitCode;
    assert !WritesExitCode(env, j, code);
  }

  /** On every schedule of a flow without asynchronous nodes, the last exit code written is the one left. */
  lemma SyncFlowExitCode(env: Env, schedule: seq<Choice>, i: nat, code: int)
    requires AllSync(env) && Exec(env, schedule).Some? && Exec(env, schedule).value.control.Finished?
    requires var n := |Exec(env, schedule).value.runs|;
      i < n <= |env.flow| && WritesExitCode(env, i, code) && forall j, c :: i < j < n ==> !WritesExitCode(env, j, c)
    ensures Exec(env, schedule).value.ctx.exitCode == code
  {
    SyncFlowStopsAtFirstFailure(env, schedule);
    SequentialExitCode(env, |Exec(env, schedule).value.runs|, i, code);
  }

  /** `StopsAfter` leaves no choice. */
  lemma StopIsUnique(env: Env, m: nat, n: nat)
    requires StopsAfter(env, m) && StopsAfter(env, n)
    ensures m == n
  {
  }

  /** An OK return means that every node ran and all but possibly the last succeeded. */
  lemma OkMeansAllRan(env: Env, n: nat)
    requires StopsAfter(env, n) && StopStatus(env, n) == Ok
    ensures n == |env.flow| && forall i :: 0 <= i < n - 1 ==> SucceedsAt(env, i)
  {
    if n < |env.flow| && !LastFailed(env, n) {
      assert At(env, n).Reject?;
      RejectIsNotOk(env.registry, env.flow[n].node);
    }
  }

  lemma RejectIsNotOk(registry: Registry, node: FlowNode)
    ensures Resolve(registry, node).Reject? ==> Resolve(registry, node).status != Ok
  {
  }
}
