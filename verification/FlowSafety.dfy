/**
 What holds in every state of the flow engine that some schedule reaches, failing scripts included.
 */
module FlowSafety {
  import opened Wrappers
  import opened Scripts
  import opened FlowSystem

  // ----- the shape of reachable states

  function JoinedUpTo(s: System): nat {
    if s.control.Joining? then s.control.k else 0
  }

  /** Every started run is somewhere inside its program. */
  ghost predicate RunsShape(env: Env, s: System) {
    && |s.runs| <= |env.flow|
    && (forall i :: 0 <= i < |s.runs| ==> At(env, i).Start? && s.runs[i].done + s.runs[i].todo == ProgramAt(env, i))
  }

  ghost predicate ThreadsShape(env: Env, s: System) {
    && |s.runs| <= |env.flow|
    && (forall t :: 0 <= t < |s.threads| ==>
          s.threads[t] < |s.runs| && At(env, s.threads[t]).Start? && At(env, s.threads[t]).async)
    && (forall t, u :: 0 <= t < u < |s.threads| ==> s.threads[t] < s.threads[u])
    && (s.control.Executing? ==> |s.runs| > 0 && At(env, |s.runs| - 1).Start? && !At(env, |s.runs| - 1).async)
    && JoinedUpTo(s) <= |s.threads|
    && (s.control.Finished? ==> s.threads == [])
  }

  ghost predicate Unjoined(s: System, i: nat) {
    exists t :: JoinedUpTo(s) <= t < |s.threads| && s.threads[t] == i
  }

  /** Only a thread that is still to be joined, or the synchronous run of the last node, has work left. */
  ghost predicate WorkShape(s: System) {
    forall i :: 0 <= i < |s.runs| && s.runs[i].todo != [] ==>
      (s.control.Executing? && i == |s.runs| - 1) || Unjoined(s, i)
  }

  ghost predicate Shape(env: Env, s: System) {
    RunsShape(env, s) && ThreadsShape(env, s) && WorkShape(s)
  }

  lemma PerformKeepsRuns(env: Env, s: System, r: nat)
    requires RunsShape(env, s) && r < |s.runs| && s.runs[r].todo != []
    ensures RunsShape(env, Perform(s, r))
  {
    var run := s.runs[r];
    assert (run.done + [run.todo[0]]) + run.todo[1..] == run.done + run.todo;
  }

  lemma PerformKeepsWork(s: System, r: nat)
    requires WorkShape(s) && r < |s.runs| && s.runs[r].todo != []
    ensures WorkShape(Perform(s, r))
  {
    var s' := Perform(s, r);
    forall i | 0 <= i < |s'.runs| && s'.runs[i].todo != []
      ensures (s'.control.Executing? && i == |s'.runs| - 1) || Unjoined(s', i)
    {
      if !s.control.Executing? || i != |s.runs| - 1 {
        var t :| JoinedUpTo(s) <= t < |s.threads| && s.threads[t] == i;
        assert s'.threads[t] == i;
      }
    }
  }

  lemma PerformKeepsShape(env: Env, s: System, r: nat)
    requires Shape(env, s) && r < |s.runs| && s.runs[r].todo != []
    ensures Shape(env, Perform(s, r))
  {
    PerformKeepsRuns(env, s, r);
    PerformKeepsWork(s, r);
  }

  lemma DispatchKeepsRuns(env: Env, s: System)
    requires RunsShape(env, s)
    ensures RunsShape(env, DispatchNext(env, s))
  {
  }

  lemma DispatchKeepsThreads(env: Env, s: System)
    requires ThreadsShape(env, s) && s.control.Dispatching?
    ensures ThreadsShape(env, DispatchNext(env, s))
  {
  }

  lemma DispatchKeepsWork(env: Env, s: System)
    requires |s.runs| <= |env.flow| && WorkShape(s) && s.control.Dispatching?
    ensures WorkShape(DispatchNext(env, s))
  {
    var s' := DispatchNext(env, s);
    forall i | 0 <= i < |s'.runs| && s'.runs[i].todo != []
      ensures (s'.control.Executing? && i == |s'.runs| - 1) || Unjoined(s', i)
    {
      if i < |s.runs| {
        var t :| 0 <= t < |s.threads| && s.threads[t] == i;
        assert s'.threads[t] == i;
      } else if s'.control.Dispatching? {
        assert s'.threads[|s.threads|] == i;
      }
    }
  }

  lemma JoinKeepsWork(s: System, status: Status)
    requires s.control == Joining(status, JoinedUpTo(s)) && WorkShape(s)
    requires JoinedUpTo(s) < |s.threads| && s.threads[JoinedUpTo(s)] < |s.runs|
    requires s.runs[s.threads[JoinedUpTo(s)]].todo == []
    ensures WorkShape(s.(control := Joining(status, JoinedUpTo(s) + 1)))
  {
    var s' := s.(control := Joining(status, JoinedUpTo(s) + 1));
    forall i | 0 <= i < |s'.runs| && s'.runs[i].todo != [] ensures Unjoined(s', i) {
      var t :| JoinedUpTo(s) <= t < |s.threads| && s.threads[t] == i;
      assert s'.threads[t] == i;
    }
  }

  lemma AllDoneKeepsWork(s: System, s': System)
    requires WorkShape(s) && s'.runs == s.runs && !s.control.Executing?
    requires JoinedUpTo(s) >= |s.threads|
    ensures WorkShape(s')
  {
    forall i | 0 <= i < |s.runs| ensures s.runs[i].todo == [] {
      assert !Unjoined(s, i);
    }
  }

  lemma ReturnKeepsWork(s: System, control: Control)
    requires WorkShape(s) && s.control.Executing? && s.runs != [] && s.runs[|s.runs| - 1].todo == []
    requires control.Dispatching? || (control.Joining? && control.k == 0)
    ensures WorkShape(s.(control := control))
  {
    var s' := s.(control := control);
    forall i | 0 <= i < |s'.runs| && s'.runs[i].todo != [] ensures Unjoined(s', i) {
      var t :| 0 <= t < |s.threads| && s.threads[t] == i;
      assert s'.threads[t] == i;
    }
  }

  lemma DispatchKeepsShape(env: Env, s: System)
    requires Shape(env, s) && s.control.Dispatching?
    ensures Shape(env, DispatchNext(env, s))
  {
    DispatchKeepsRuns(env, s);
    DispatchKeepsThreads(env, s);
    DispatchKeepsWork(env, s);
  }

  lemma ReturnKeepsShape(env: Env, s: System, control: Control)
    requires Shape(env, s) && s.control.Executing? && s.runs[|s.runs| - 1].todo == []
    requires control.Dispatching? || (control.Joining? && control.k == 0)
    ensures Shape(env, s.(control := control))
  {
    ReturnKeepsWork(s, control);
  }

  lemma JoinKeepsShape(env: Env, s: System, status: Status, k: nat)
    requires Shape(env, s) && s.control == Joining(status, k)
    requires k < |s.threads| && s.runs[s.threads[k]].todo == []
    ensures Shape(env, s.(control := Joining(status, k + 1)))
  {
    JoinKeepsWork(s, status);
  }

  lemma FinishKeepsShape(env: Env, s: System, status: Status)
    requires Shape(env, s) && s.control == Joining(status, |s.threads|)
    ensures Shape(env, s.(control := Finished(status), threads := []))
  {
    AllDoneKeepsWork(s, s.(control := Finished(status), threads := []));
  }

  lemma NextKeepsShape(env: Env, s: System, c: Choice)
    requires Shape(env, s) && Next(env, s, c).Some?
    ensures Shape(env, Next(env, s, c).value)
  {
    match c
    case Thread(t) => PerformKeepsShape(env, s, s.threads[t]);
    case Dispatcher =>
      match s.control
      case Dispatching => DispatchKeepsShape(env, s);
      case Executing =>
        if s.runs[|s.runs| - 1].todo != [] {
          PerformKeepsShape(env, s, |s.runs| - 1);
        } else {
          ReturnKeepsShape(env, s, Next(env, s, c).value.control);
        }
      case Joining(status, k) =>
        if k < |s.threads| {
          JoinKeepsShape(env, s, status, k);
        } else {
          FinishKeepsShape(env, s, status);
        }
      case Finished(_) =>
  }

  lemma {:induction false} ExecShape(env: Env, schedule: seq<Choice>)
    requires Exec(env, schedule).Some?
    ensures Shape(env, Exec(env, schedule).value)
  {
    if schedule != [] {
      var front := schedule[..|schedule| - 1];
      ExecShape(env, front);
      NextKeepsShape(env, Exec(env, front).value, schedule[|schedule| - 1]);
    }
  }

  lemma ReachableShape(env: Env, s: System)
    requires Reachable(env, s)
    ensures Shape(env, s)
  {
    var schedule :| Exec(env, schedule) == Some(s);
    ExecShape(env, schedule);
  }

  // ----- the context is what the history makes of it, and the history interleaves the runs

  function Replay(c: Context, history: seq<(nat, Op)>): Context {
    if history == [] then c
    else Apply(history[|history| - 1].1, Replay(c, history[..|history| - 1]))
  }

  /** The updates of run `i`, in the order they were made. */
  function OpsOf(history: seq<(nat, Op)>, i: nat): seq<Op> {
    if history == [] then []
    else
      var front, last := OpsOf(history[..|history| - 1], i), history[|history| - 1];
      if last.0 == i then front + [last.1] else front
  }

  ghost predicate Explained(env: Env, s: System) {
    && s.ctx == Replay(env.init, s.history)
    && (forall e :: e in s.history ==> e.0 < |s.runs|)
    && (forall i :: 0 <= i < |s.runs| ==> OpsOf(s.history, i) == s.runs[i].done)
  }

  lemma {:induction false} NoOpsOfLaterRun(history: seq<(nat, Op)>, i: nat)
    requires forall e :: e in history ==> e.0 < i
    ensures OpsOf(history, i) == []
  {
    if history != [] {
      NoOpsOfLaterRun(history[..|history| - 1], i);
    }
  }

  lemma PerformIsExplained(env: Env, s: System, r: nat)
    requires Explained(env, s) && r < |s.runs| && s.runs[r].todo != []
    ensures Explained(env, Perform(s, r))
  {
    var s' := Perform(s, r);
    assert s'.history[..|s'.history| - 1] == s.history;
  }

  lemma DispatchIsExplained(env: Env, s: System)
    requires |s.runs| <= |env.flow| && Explained(env, s)
    ensures Explained(env, DispatchNext(env, s))
  {
    NoOpsOfLaterRun(s.history, |s.runs|);
    var s' := DispatchNext(env, s);
    assert forall i :: 0 <= i < |s.runs| ==> s'.runs[i] == s.runs[i];
  }

  lemma NextIsExplained(env: Env, s: System, c: Choice)
    requires Shape(env, s) && Explained(env, s) && Next(env, s, c).Some?
    ensures Explained(env, Next(env, s, c).value)
  {
    match c
    case Thread(t) => PerformIsExplained(env, s, s.threads[t]);
    case Dispatcher =>
      if s.control.Dispatching? {
        DispatchIsExplained(env, s);
      } else if s.control.Executing? && s.runs[|s.runs| - 1].todo != [] {
        PerformIsExplained(env, s, |s.runs| - 1);
      }
  }

  /**
   On every schedule the shared context is the result of the updates made so far, and those are an
   interleaving of the runs' updates: run i contributed exactly the first part of its program, in
   program order, with nothing lost, duplicated or invented.
   */
  lemma {:induction false} HistoryExplainsContext(env: Env, schedule: seq<Choice>)
    requires Exec(env, schedule).Some?
    ensures var s := Exec(env, schedule).value;
      && Explained(env, s)
      && |s.runs| <= |env.flow|
      && forall i :: 0 <= i < |s.runs| ==> OpsOf(s.history, i) <= ProgramAt(env, i)
  {
    ExecShape(env, schedule);
    if schedule != [] {
      var front := schedule[..|schedule| - 1];
      HistoryExplainsContext(env, front);
      ExecShape(env, front);
      NextIsExplained(env, Exec(env, front).value, schedule[|schedule| - 1]);
    }
  }

  // ----- output

  function Lines(ops: seq<Op>): seq<string> {
    if ops == [] then []
    else
      var front, last := Lines(ops[..|ops| - 1]), ops[|ops| - 1];
      if last.AppendOutput? then front + [last.line] else front
  }

  function Join(picks: seq<(nat, string)>): string {
    if picks == [] then "" else Join(picks[..|picks| - 1]) + picks[|picks| - 1].1
  }

  function PickedFrom(picks: seq<(nat, string)>, i: nat): seq<string> {
    if picks == [] then []
    else
      var front, last := PickedFrom(picks[..|picks| - 1], i), picks[|picks| - 1];
      if last.0 == i then front + [last.1] else front
  }

  /** `text` is made by taking lines from the parts, each part in order and used up completely. */
  ghost predicate Interleaves(parts: seq<seq<string>>, text: string) {
    exists picks :: Interleaving(picks, parts, text)
  }

  ghost predicate Interleaving(picks: seq<(nat, string)>, parts: seq<seq<string>>, text: string) {
    && (forall e :: e in picks ==> e.0 < |parts|)
    && (forall i :: 0 <= i < |parts| ==> PickedFrom(picks, i) == parts[i])
    && Join(picks) == text
  }

  lemma {:induction false} OutputOfHistory(c: Context, history: seq<(nat, Op)>, n: nat)
    returns (picks: seq<(nat, string)>)
    requires forall e :: e in history ==> e.0 < n
    ensures Replay(c, history).output == c.output + Join(picks)
    ensures forall e :: e in picks ==> e.0 < n
    ensures forall i :: 0 <= i < n ==> PickedFrom(picks, i) == Lines(OpsOf(history, i))
  {
    if history == [] {
      picks := [];
    } else {
      var front, last := history[..|history| - 1], history[|history| - 1];
      var p := OutputOfHistory(c, front, n);
      if last.1.AppendOutput? {
        picks := p + [(last.0, last.1.line)];
        assert picks[..|picks| - 1] == p;
        assert (c.output + Join(p)) + last.1.line == c.output + (Join(p) + last.1.line);
      } else {
        picks := p;
      }
      forall i | 0 <= i < n ensures PickedFrom(picks, i) == Lines(OpsOf(history, i)) {
        var before := OpsOf(front, i);
        assert (before + [last.1])[..|before|] == before;
      }
    }
  }

  /** The lines each started run has appended so far. */
  ghost function LinesSoFar(s: System): seq<seq<string>> {
    seq(|s.runs|, i requires 0 <= i < |s.runs| => Lines(s.runs[i].done))
  }

  /** At any moment the output is an interleaving of the lines each run has appended. */
  lemma OutputInterleavesLines(env: Env, schedule: seq<Choice>)
    requires Exec(env, schedule).Some?
    ensures var s := Exec(env, schedule).value;
      exists text :: s.ctx.output == env.init.output + text && Interleaves(LinesSoFar(s), text)
  {
    var s := Exec(env, schedule).value;
    HistoryExplainsContext(env, schedule);
    var picks := OutputOfHistory(env.init, s.history, |s.runs|);
    assert Interleaving(picks, LinesSoFar(s), Join(picks));
    assert s.ctx.output == env.init.output + Join(picks) && Interleaves(LinesSoFar(s), Join(picks));
  }
}
