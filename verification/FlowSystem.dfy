/**
 The flow engine of data_structure/executor_factory as a step system: the dispatching thread
 (`ExecuteFlow`, then `Wait`) and the threads it starts share one context, and any of them may take
 the next step.
 */
module FlowSystem {
  import opened Wrappers
  import opened Scripts
  import opened ScriptFactory

  datatype FlowNode = FlowNode(stepType: string, scriptName: string, condition: string,
                               trueScriptName: string, falseScriptName: string, async: bool)

  /** A node of the flow together with how its script goes if it is run. */
  datatype Planned = Planned(node: FlowNode, outcome: Outcome)

  datatype Env = Env(flow: seq<Planned>, registry: Registry, init: Context)

  datatype Dispatch = Start(executor: Executor, async: bool) | Reject(status: Status)

  /** `EvaluateCondition` (src/flow_executor.cpp:73-75) accepts every condition, so no node is skipped. */
  function EvaluateCondition(condition: string): bool { true }

  /** What `ExecuteFlow` does with a node: which executor it runs, and whether on a new thread. */
  function Resolve(registry: Registry, node: FlowNode): Dispatch {
    if node.stepType == "common" then
      if node.scriptName in registry then Start(registry[node.scriptName], node.async) else Reject(NotFound)
    else if node.stepType == "branch" then
      var target := if EvaluateCondition(node.condition) then node.trueScriptName else node.falseScriptName;
      if target in registry then Start(registry[target], false) else Reject(NotFound)
    else Reject(InvalidArgument)
  }

  function At(env: Env, i: nat): Dispatch
    requires i < |env.flow|
  {
    Resolve(env.registry, env.flow[i].node)
  }

  function ProgramAt(env: Env, i: nat): seq<Op>
    requires i < |env.flow|
  {
    match At(env, i)
    case Start(ex, _) => Program(ex, env.flow[i].outcome)
    case Reject(_) => []
  }

  predicate SucceedsAt(env: Env, i: nat)
    requires i < |env.flow|
  {
    At(env, i).Start? && Succeeds(At(env, i).executor, env.flow[i].outcome)
  }

  predicate ShellAt(env: Env, i: nat)
    requires i < |env.flow|
  {
    At(env, i).Start? && At(env, i).executor.Shell?
  }

  predicate AsyncAt(env: Env, i: nat)
    requires i < |env.flow|
  {
    At(env, i).Start? && At(env, i).async
  }

  predicate FailsAt(env: Env, i: nat)
    requires i < |env.flow|
  {
    At(env, i).Start? && !SucceedsAt(env, i)
  }

  ghost predicate SomeRunFailed(env: Env, n: nat)
    requires n <= |env.flow|
  {
    exists i :: 0 <= i < n && FailsAt(env, i)
  }

  function ReturnsAt(env: Env, i: nat): Status
    requires i < |env.flow|
  {
    match At(env, i)
    case Start(ex, _) => Returns(ex, env.flow[i].outcome)
    case Reject(status) => status
  }

  /** A started run: the updates it has made and those it still has to make.  Run i belongs to node i. */
  datatype RunState = RunState(done: seq<Op>, todo: seq<Op>)

  /** Where the dispatching thread is. */
  datatype Control =
    | Dispatching                       // at the top of the loop, about to look at node |runs|
    | Executing                         // inside the synchronous run of the last node
    | Joining(status: Status, k: nat)   // ExecuteFlow returned; Wait is at thread k
    | Finished(status: Status)

  datatype System = System(ctx: Context, runs: seq<RunState>, threads: seq<nat>,
                           history: seq<(nat, Op)>, control: Control)

  datatype Choice = Dispatcher | Thread(t: nat)

  function Initial(env: Env): System {
    System(env.init, [], [], [], Dispatching)
  }

  /** Run `r` makes its next update. */
  function Perform(s: System, r: nat): System
    requires r < |s.runs| && s.runs[r].todo != []
  {
    var run := s.runs[r];
    var op := run.todo[0];
    s.(ctx := Apply(op, s.ctx),
       runs := s.runs[r := RunState(run.done + [op], run.todo[1..])],
       history := s.history + [(r, op)])
  }

  /** The dispatching thread's next step at the top of the loop. */
  function DispatchNext(env: Env, s: System): System
    requires |s.runs| <= |env.flow|
  {
    var i := |s.runs|;
    if i == |env.flow| then s.(control := Joining(Ok, 0))
    else if s.ctx.hasError then s.(control := Joining(FailedPrecondition, 0))
    else match At(env, i)
      case Reject(status) => s.(control := Joining(status, 0))
      case Start(_, async) =>
        var started := s.(runs := s.runs + [RunState([], ProgramAt(env, i))]);
        if async then started.(threads := s.threads + [i]) else started.(control := Executing)
  }

  /** The step of one thread, if it can take one. */
  function Next(env: Env, s: System, c: Choice): Option<System> {
    match c
    case Thread(t) =>
      if t < |s.threads| && s.threads[t] < |s.runs| && s.runs[s.threads[t]].todo != []
      then Some(Perform(s, s.threads[t])) else None
    case Dispatcher =>
      match s.control
      case Dispatching => if |s.runs| <= |env.flow| then Some(DispatchNext(env, s)) else None
      case Executing =>
        var r := |s.runs| - 1;
        if !(0 <= r < |env.flow|) then None
        else if s.runs[r].todo != [] then Some(Perform(s, r))
        else if ReturnsAt(env, r) == Ok then Some(s.(control := Dispatching))
        else Some(s.(control := Joining(ReturnsAt(env, r), 0)))
      case Joining(status, k) =>
        if k >= |s.threads| then Some(s.(control := Finished(status), threads := []))
        else if s.threads[k] < |s.runs| && s.runs[s.threads[k]].todo == []
        then Some(s.(control := Joining(status, k + 1))) else None
      case Finished(_) => None
  }

  /** The state after a schedule, if every choice in it was possible. */
  function Exec(env: Env, schedule: seq<Choice>): Option<System> {
    if schedule == [] then Some(Initial(env))
    else match Exec(env, schedule[..|schedule| - 1])
      case None => None
      case Some(s) => Next(env, s, schedule[|schedule| - 1])
  }

  ghost predicate Reachable(env: Env, s: System) {
    exists schedule :: Exec(env, schedule) == Some(s)
  }

  lemma ReachableStep(env: Env, s: System, c: Choice)
    requires Reachable(env, s) && Next(env, s, c).Some?
    ensures Reachable(env, Next(env, s, c).value)
  {
    var schedule :| Exec(env, schedule) == Some(s);
    var longer := schedule + [c];
    assert longer[..|longer| - 1] == schedule;
    assert Exec(env, longer) == Next(env, s, c);
  }
}
