/**
 How each node of a flow is dispatched, on every schedule: which script it runs, on which thread, and for
 which reasons `ExecuteFlow` returns.
 */
module FlowDispatch {
  import opened Wrappers
  import opened Scripts
  import opened FlowSystem
  import opened FlowSafety
  import opened FlowStatus

  /** The run of an asynchronous node has a thread until `Wait` has returned. */
  ghost predicate ThreadsKept(env: Env, s: System) {
    && |s.runs| <= |env.flow|
    && (!s.control.Finished? ==> forall i :: 0 <= i < |s.runs| && AsyncAt(env, i) ==> i in s.threads)
  }

  lemma DispatchKeepsThread(env: Env, s: System)
    requires ThreadsKept(env, s) && s.control.Dispatching?
    ensures ThreadsKept(env, DispatchNext(env, s)) == true
  {
    var s' := DispatchNext(env, s);
    if |s.threads| < |s'.threads| {
      assert s'.threads[|s.threads|] == |s.runs|;
    }
    assert forall i :: i in s.threads ==> i in s'.threads;
  }

  lemma NextKeepsThreads(env: Env, s: System, c: Choice)
    requires ThreadsKept(env, s) && Next(env, s, c).Some?
    ensures ThreadsKept(env, Next(env, s, c).value) == true
  {
    if c.Dispatcher? && s.control.Dispatching? {
      DispatchKeepsThread(env, s);
    }
  }

  lemma {:induction false} AlwaysThreadsKept(env: Env, schedule: seq<Choice>)
    requires Exec(env, schedule).Some?
    ensures ThreadsKept(env, Exec(env, schedule).value)
  {
    if schedule != [] {
      var front := schedule[..|schedule| - 1];
      AlwaysThreadsKept(env, front);
      NextKeepsThreads(env, Exec(env, front).value, schedule[|schedule| - 1]);
    }
  }

  /** The script that a common or a branch node runs: a branch always takes its true side. */
  function ScriptOf(node: FlowNode): string {
    if node.stepType == "branch" then node.trueScriptName else node.scriptName
  }

  /**
   Run i is an execution of the script that node i names, by the executor registered for it.  It has a thread
   of its own exactly if the node is common and asynchronous; any other run is over before the next node is
   looked at.
   */
  ghost predicate RunIsNode(env: Env, s: System, i: nat) {
    && i < |s.runs| <= |env.flow|
    && var node, run := env.flow[i].node, s.runs[i];
    && (node.stepType == "common" || node.stepType == "branch")
    && (node.stepType == "common" ==>
          && node.scriptName in env.registry
          && run.done + run.todo == Program(env.registry[node.scriptName], env.flow[i].outcome))
    && (node.stepType == "branch" ==>
          && node.trueScriptName in env.registry
          && run.done + run.todo == Program(env.registry[node.trueScriptName], env.flow[i].outcome))
    && (!s.control.Finished? ==> (i in s.threads <==> node.stepType == "common" && node.async))
    && (!(node.stepType == "common" && node.async) && run.todo != [] ==> s.control.Executing? && i == |s.runs| - 1)
  }

  /** So it is on every schedule. */
  lemma RunsAreNodes(env: Env, schedule: seq<Choice>, i: nat)
    requires Exec(env, schedule).Some? && i < |Exec(env, schedule).value.runs|
    ensures RunIsNode(env, Exec(env, schedule).value, i)
  {
    ExecShape(env, schedule);
    AlwaysThreadsKept(env, schedule);
    var s := Exec(env, schedule).value;
    assert At(env, i).Start? && ProgramAt(env, i) == s.runs[i].done + s.runs[i].todo;
    if i in s.threads {
      var t :| 0 <= t < |s.threads| && s.threads[t] == i;
    }
    if !AsyncAt(env, i) {
      assert !Unjoined(s, i);
    }
  }

  // ----- why the flow stopped

  ghost predicate NamesNoScript(env: Env, node: FlowNode) {
    || (node.stepType == "common" && node.scriptName !in env.registry)
    || (node.stepType == "branch" && node.trueScriptName !in env.registry)
  }

  /** The ways in which `ExecuteFlow` returns `status` after `n` nodes. */
  ghost predicate Explains(env: Env, n: nat, status: Status)
    requires n <= |env.flow|
  {
    || (status == Ok && n == |env.flow|)
    || (status == FailedPrecondition && n < |env.flow| && (env.init.hasError || SomeRunFailed(env, n)))
    || (status == NotFound && n < |env.flow| && NamesNoScript(env, env.flow[n].node))
    || (status == InvalidArgument && n < |env.flow|
        && env.flow[n].node.stepType != "common" && env.flow[n].node.stepType != "branch")
    || (status != Ok && n > 0 && HaltedBy(env, env.flow[n - 1], status))
  }

  /** A synchronous node whose script returned `status`. */
  ghost predicate HaltedBy(env: Env, step: Planned, status: Status) {
    && !(step.node.stepType == "common" && step.node.async)
    && ScriptOf(step.node) in env.registry
    && status == Returns(env.registry[ScriptOf(step.node)], step.outcome)
  }

  ghost predicate StopExplained(env: Env, s: System) {
    && |s.runs| <= |env.flow|
    && (s.ctx.hasError ==> env.init.hasError || SomeRunFailed(env, |s.runs|))
    && (s.control.Joining? || s.control.Finished? ==> Explains(env, |s.runs|, s.control.status))
  }

  lemma PerformExplained(env: Env, s: System, r: nat)
    requires RunsShape(env, s) && StopExplained(env, s) && r < |s.runs| && s.runs[r].todo != []
    ensures StopExplained(env, Perform(s, r)) == true
  {
    NextUpdate(env, s, r);
    var p, n, s' := ProgramAt(env, r), |s.runs[r].done|, Perform(s, r);
    assert s.runs[r].todo[0] == p[n];
    if s'.ctx.hasError && !s.ctx.hasError {
      assert n == |p| - 2 && FailsAt(env, r);
    }
  }

  lemma RejectExplained(env: Env, n: nat)
    requires n < |env.flow| && At(env, n).Reject?
    ensures Explains(env, n, At(env, n).status)
  {
  }

  lemma FailedBefore(env: Env, n: nat, m: nat)
    requires n <= m <= |env.flow| && SomeRunFailed(env, n)
    ensures SomeRunFailed(env, m)
  {
    var i :| 0 <= i < n && FailsAt(env, i);
    assert FailsAt(env, i);
  }

  lemma DispatchExplained(env: Env, s: System)
    requires StopExplained(env, s) && s.control.Dispatching?
    ensures StopExplained(env, DispatchNext(env, s)) == true
  {
    var n, s' := |s.runs|, DispatchNext(env, s);
    if n < |env.flow| && At(env, n).Reject? {
      RejectExplained(env, n);
    }
    if SomeRunFailed(env, n) {
      FailedBefore(env, n, |s'.runs|);
    }
  }

  lemma ReturnExplained(env: Env, s: System)
    requires Shape(env, s) && StopExplained(env, s) && s.control.Executing? && s.runs[|s.runs| - 1].todo == []
    ensures StopExplained(env, Next(env, s, Dispatcher).value) == true
  {
    var n := |s.runs|;
    if ReturnsAt(env, n - 1) != Ok {
      assert HaltedBy(env, env.flow[n - 1], ReturnsAt(env, n - 1));
    }
  }

  lemma NextExplained(env: Env, s: System, c: Choice)
    requires Shape(env, s) && StopExplained(env, s) && Next(env, s, c).Some?
    ensures StopExplained(env, Next(env, s, c).value) == true
  {
    match c
    case Thread(t) => PerformExplained(env, s, s.threads[t]);
    case Dispatcher =>
      if s.control.Dispatching? {
        DispatchExplained(env, s);
      } else if s.control.Executing? {
        if s.runs[|s.runs| - 1].todo != [] {
          PerformExplained(env, s, |s.runs| - 1);
        } else {
          ReturnExplained(env, s);
        }
      }
  }

  /**
   On every schedule: `ExecuteFlow` returns OK only after the last node; FailedPrecondition only before a
   node, with a failure behind it; NotFound or InvalidArgument before a node that names no registered script
   or has no known type; anything else is what a synchronous script returned.
   */
  lemma {:induction false} WhyItReturned(env: Env, schedule: seq<Choice>)
    requires Exec(env, schedule).Some?
    ensures StopExplained(env, Exec(env, schedule).value)
  {
    if schedule != [] {
      var front := schedule[..|schedule| - 1];
      WhyItReturned(env, front);
      ExecShape(env, front);
      NextExplained(env, Exec(env, front).value, schedule[|schedule| - 1]);
    }
  }
}
