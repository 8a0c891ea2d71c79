/**
 What the error flag is worth.  `SetError(false, ...)` at the end of a successful script clears the flag
 whatever other threads have reported.  For every flow, synchronous, asynchronous and mixed: which runs
 can have the last word, and exactly when the flag tells the truth on every schedule.
 */
module FlowErrors {
  import opened Wrappers
  import opened Scripts
  import opened FlowSystem
  import opened FlowSafety
  import opened FlowStatus

  /** The dispatching thread itself sees this node fail. */
  predicate HaltsAt(env: Env, i: nat)
    requires i < |env.flow|
  {
    FailsAt(env, i) && !AsyncAt(env, i)
  }

  function HorizonFrom(env: Env, n: nat): (end: nat)
    requires n <= |env.flow|
    ensures n <= end <= |env.flow|
    ensures forall i :: n <= i < end ==> At(env, i).Start?
    ensures forall i :: n <= i < end - 1 ==> !HaltsAt(env, i)
    ensures end == |env.flow| || At(env, end).Reject? || (end > n && HaltsAt(env, end - 1))
    decreases |env.flow| - n
  {
    if n == |env.flow| || At(env, n).Reject? then n
    else if HaltsAt(env, n) then n + 1
    else HorizonFrom(env, n + 1)
  }

  /** How many nodes come before the first rejected one, or up to the first synchronous one that fails. */
  function Horizon(env: Env): (end: nat)
    ensures end <= |env.flow|
    ensures forall i :: 0 <= i < end ==> At(env, i).Start?
    ensures forall i :: 0 <= i < end - 1 ==> !HaltsAt(env, i)
    ensures end == |env.flow| || At(env, end).Reject? || (end > 0 && HaltsAt(env, end - 1))
  {
    HorizonFrom(env, 0)
  }

  /** A shell script on its own thread, or one after which no shell script starts. */
  ghost predicate CanComeLast(env: Env, g: nat)
    requires g < Horizon(env)
  {
    ShellAt(env, g) && (AsyncAt(env, g) || forall h :: g < h < Horizon(env) ==> !ShellAt(env, h))
  }

  /** Some script fails while one that succeeds can come last. */
  ghost predicate CanMislead(env: Env) {
    exists f, g :: 0 <= f < Horizon(env) && 0 <= g < Horizon(env)
                   && FailsAt(env, f) && SucceedsAt(env, g) && CanComeLast(env, g)
  }

  /** The error flag is set exactly if some script that ran failed. */
  ghost predicate ReportsTruly(env: Env, s: System) {
    |s.runs| <= |env.flow| && (s.ctx.hasError <==> SomeRunFailed(env, |s.runs|))
  }

  ghost predicate AlwaysReportsTruly(env: Env) {
    forall s :: Reachable(env, s) && s.control.Finished? ==> ReportsTruly(env, s)
  }

  // ----- carrying one run to its end

  /** Choice `c` lets run `r` make its next update. */
  ghost predicate Drives(env: Env, s: System, c: Choice, r: nat) {
    && r < |s.runs| <= |env.flow|
    && match c
       case Thread(t) => t < |s.threads| && s.threads[t] == r
       case Dispatcher => s.control.Executing? && r == |s.runs| - 1
  }

  lemma DrivesOn(env: Env, s: System, c: Choice, r: nat)
    requires Drives(env, s, c, r) && s.runs[r].todo != []
    ensures Next(env, s, c) == Some(Perform(s, r)) && Drives(env, Perform(s, r), c, r)
  {
  }

  /** The state after run `r` has made all its remaining updates. */
  function Completed(s: System, r: nat, history: seq<(nat, Op)>): System
    requires r < |s.runs|
  {
    var run := s.runs[r];
    s.(ctx := Run(run.todo, s.ctx), runs := s.runs[r := RunState(run.done + run.todo, [])], history := history)
  }

  lemma CompletedAfterStep(s: System, r: nat, history: seq<(nat, Op)>)
    requires r < |s.runs| && s.runs[r].todo != []
    ensures Completed(Perform(s, r), r, history) == Completed(s, r, history)
  {
    var run := s.runs[r];
    assert (run.done + [run.todo[0]]) + run.todo[1..] == run.done + run.todo;
    assert Perform(s, r).runs[r := RunState(run.done + run.todo, [])] == s.runs[r := RunState(run.done + run.todo, [])];
  }

  lemma {:induction false} RunToEnd(env: Env, s: System, c: Choice, r: nat) returns (s': System)
    requires Reachable(env, s) && Drives(env, s, c, r)
    ensures Reachable(env, s') && s' == Completed(s, r, s'.history)
    decreases |s.runs[r].todo|
  {
    if s.runs[r].todo == [] {
      s' := s;
      assert s.runs[r].done + [] == s.runs[r].done;
    } else {
      DrivesOn(env, s, c, r);
      ReachableStep(env, s, c);
      s' := RunToEnd(env, Perform(s, r), c, r);
      CompletedAfterStep(s, r, s'.history);
    }
  }

  /** A whole execution leaves the flag as it fares; a DAG script leaves it alone. */
  lemma WholeRunSetsError(env: Env, r: nat, c: Context)
    requires r < |env.flow| && At(env, r).Start?
    ensures Run(ProgramAt(env, r), c).hasError == if ShellAt(env, r) then !SucceedsAt(env, r) else c.hasError
  {
    if ShellAt(env, r) {
      ShellProgramIsFramed(At(env, r).executor, env.flow[r].outcome);
      FramedRunSetsError(ProgramAt(env, r), c, SucceedsAt(env, r), 0);
      assert ProgramAt(env, r)[0..] == ProgramAt(env, r);
    }
  }

  lemma ThreadsInside(env: Env, s: System)
    requires Reachable(env, s)
    ensures |s.runs| <= |env.flow| && forall t :: 0 <= t < |s.threads| ==> s.threads[t] < |s.runs|
  {
    ReachableShape(env, s);
  }

  lemma ThreadOf(env: Env, s: System, i: nat) returns (t: nat)
    requires Reachable(env, s) && i < |s.runs| && s.runs[i].todo != [] && !s.control.Executing?
    ensures t < |s.threads| && s.threads[t] == i
  {
    ReachableShape(env, s);
    assert Unjoined(s, i);
    t :| 0 <= t < |s.threads| && s.threads[t] == i;
  }

  /** Work is left only on threads and in the synchronous run. */
  lemma NoThreadNoWork(env: Env, s: System, i: nat)
    requires Reachable(env, s) && i < |s.runs| && (s.control.Executing? ==> i != |s.runs| - 1)
    requires forall t :: 0 <= t < |s.threads| && s.threads[t] == i ==> s.runs[i].todo == []
    ensures s.runs[i].todo == []
  {
    ReachableShape(env, s);
    assert s.runs[i].todo != [] ==> Unjoined(s, i);
  }

  /** What finishing some threads keeps: where the dispatching thread is, and run `g`. */
  ghost predicate OthersRan(s: System, s': System, g: nat) {
    && s'.control == s.control && s'.threads == s.threads && |s'.runs| == |s.runs|
    && (g < |s.runs| ==> s'.runs[g] == s.runs[g])
    && forall i :: 0 <= i < |s.runs| && s.runs[i].todo == [] ==> s'.runs[i].todo == []
  }

  /** The first `n` threads have finished, except perhaps that of run `g`. */
  ghost predicate ThreadsDone(s: System, n: nat, g: nat) {
    forall t :: 0 <= t < n && t < |s.threads| && s.threads[t] < |s.runs| && s.threads[t] != g ==>
                  s.runs[s.threads[t]].todo == []
  }

  lemma FinishOneMore(s0: System, s: System, n: nat, g: nat, history: seq<(nat, Op)>)
    requires OthersRan(s0, s, g) && ThreadsDone(s, n, g)
    requires n < |s.threads| && s.threads[n] != g && s.threads[n] < |s.runs|
    ensures OthersRan(s0, Completed(s, s.threads[n], history), g) == true
    ensures ThreadsDone(Completed(s, s.threads[n], history), n + 1, g) == true
  {
  }

  lemma FinishThread(env: Env, s0: System, s: System, n: nat, g: nat) returns (s': System)
    requires Reachable(env, s) && OthersRan(s0, s, g) && ThreadsDone(s, n, g) && n < |s.threads|
    ensures Reachable(env, s') && OthersRan(s0, s', g) == true && ThreadsDone(s', n + 1, g) == true
  {
    if s.threads[n] == g {
      s' := s;
      assert ThreadsDone(s, n + 1, g);
    } else {
      ThreadsInside(env, s);
      s' := RunToEnd(env, s, Thread(n), s.threads[n]);
      FinishOneMore(s0, s, n, g, s'.history);
    }
  }

  /** The first `n` threads, but not the one of run `g`, run to their ends. */
  lemma {:induction false} FinishThreads(env: Env, s: System, n: nat, g: nat) returns (s': System)
    requires Reachable(env, s) && n <= |s.threads|
    ensures Reachable(env, s') && OthersRan(s, s', g) == true && ThreadsDone(s', n, g) == true
  {
    if n == 0 {
      s' := s;
      assert OthersRan(s, s, g) && ThreadsDone(s, 0, g);
    } else {
      var before := FinishThreads(env, s, n - 1, g);
      s' := FinishThread(env, s, before, n - 1, g);
    }
  }

  /** Only run `g` may have work left. */
  ghost predicate NothingLeftBut(s: System, g: nat) {
    forall i :: 0 <= i < |s.runs| && i != g ==> s.runs[i].todo == []
  }

  lemma FinishOthers(env: Env, s: System, g: nat) returns (s': System)
    requires Reachable(env, s) && (s.control.Executing? ==> g == |s.runs| - 1)
    ensures Reachable(env, s') && OthersRan(s, s', g) && NothingLeftBut(s', g)
  {
    s' := FinishThreads(env, s, |s.threads|, g);
    forall i | 0 <= i < |s'.runs| && i != g ensures s'.runs[i].todo == [] {
      NoThreadNoWork(env, s', i);
    }
  }

  // ----- dispatching several nodes while no thread runs

  /** Node `n` leaves the dispatching thread at the next node, with the flag clear. */
  ghost predicate Passed(env: Env, s: System, s': System, n: nat)
    requires n < |env.flow|
  {
    && s'.control == Dispatching && !s'.ctx.hasError
    && |s'.runs| == n + 1 && |s.runs| == n && s'.runs[..n] == s.runs
    && s'.runs[n].todo == if AsyncAt(env, n) then ProgramAt(env, n) else []
  }

  lemma PassSync(env: Env, s: System) returns (s': System)
    requires Reachable(env, s) && s.control.Dispatching? && !s.ctx.hasError
    requires |s.runs| < |env.flow| && At(env, |s.runs|).Start? && !AsyncAt(env, |s.runs|) && SucceedsAt(env, |s.runs|)
    ensures Reachable(env, s') && Passed(env, s, s', |s.runs|)
  {
    var n := |s.runs|;
    ReachableStep(env, s, Dispatcher);
    var begun := DispatchNext(env, s);
    s' := RunToEnd(env, begun, Dispatcher, n);
    WholeRunSetsError(env, n, s.ctx);
    s' := Return(env, s');
  }

  /** The synchronous run of a node that returned OK is over. */
  lemma Return(env: Env, s: System) returns (s': System)
    requires Reachable(env, s) && s.control.Executing? && 0 < |s.runs| <= |env.flow|
    requires s.runs[|s.runs| - 1].todo == [] && SucceedsAt(env, |s.runs| - 1)
    ensures Reachable(env, s') && s' == s.(control := Dispatching)
  {
    SuccessExitsWithZero(At(env, |s.runs| - 1).executor, env.flow[|s.runs| - 1].outcome);
    ReachableStep(env, s, Dispatcher);
    s' := s.(control := Dispatching);
  }

  lemma PassOne(env: Env, s: System) returns (s': System)
    requires Reachable(env, s) && s.control.Dispatching? && !s.ctx.hasError
    requires |s.runs| < |env.flow| && At(env, |s.runs|).Start? && !HaltsAt(env, |s.runs|)
    ensures Reachable(env, s') && Passed(env, s, s', |s.runs|)
  {
    if AsyncAt(env, |s.runs|) {
      ReachableStep(env, s, Dispatcher);
      s' := DispatchNext(env, s);
    } else {
      s' := PassSync(env, s);
    }
  }

  /** Nodes from `from` on have been dispatched: the synchronous ones are over, no thread has begun. */
  ghost predicate Untouched(env: Env, s: System, from: nat) {
    && from <= |s.runs| <= |env.flow|
    && forall i :: from <= i < |s.runs| ==> s.runs[i].todo == if AsyncAt(env, i) then ProgramAt(env, i) else []
  }

  /** From `s` on, nodes up to the first `m` have been dispatched. */
  ghost predicate PassedTo(env: Env, s: System, s': System, m: nat) {
    && s'.control == Dispatching && !s'.ctx.hasError
    && |s.runs| <= |s'.runs| == m && s'.runs[..|s.runs|] == s.runs && Untouched(env, s', |s.runs|)
  }

  lemma PassedFurther(env: Env, s: System, next: System, s': System, m: nat)
    requires |s.runs| < |env.flow| && Passed(env, s, next, |s.runs|) && PassedTo(env, next, s', m)
    ensures PassedTo(env, s, s', m) == true
  {
    var n := |s.runs|;
    assert s'.runs[n] == s'.runs[..n + 1][n] == next.runs[n];
    assert s'.runs[..n] == s'.runs[..n + 1][..n] == next.runs[..n];
  }

  lemma {:induction false} PassTo(env: Env, s: System, m: nat) returns (s': System)
    requires Reachable(env, s) && s.control.Dispatching? && !s.ctx.hasError && |s.runs| <= m <= |env.flow|
    requires forall i :: |s.runs| <= i < m ==> At(env, i).Start? && !HaltsAt(env, i)
    ensures Reachable(env, s') && PassedTo(env, s, s', m) == true
    decreases m - |s.runs|
  {
    if |s.runs| == m {
      s' := s;
      assert PassedTo(env, s, s', m);
    } else {
      var next := PassOne(env, s);
      s' := PassTo(env, next, m);
      PassedFurther(env, s, next, s', m);
    }
  }

  lemma Begin(env: Env)
    ensures Reachable(env, Initial(env))
  {
    assert Exec(env, []) == Some(Initial(env));
  }

  // ----- the end of the flow

  /** With nothing to do but join, `Wait` returns and changes no field of the context. */
  lemma {:induction false} JoinAll(env: Env, s: System, g: nat) returns (s': System)
    requires Reachable(env, s) && s.control.Joining? && s.control.k <= |s.threads|
    requires NothingLeftBut(s, g) && (g < |s.runs| ==> s.runs[g].todo == [])
    ensures Reachable(env, s') && s'.control.Finished? && s'.ctx == s.ctx && s'.runs == s.runs
    decreases |s.threads| - s.control.k
  {
    ReachableShape(env, s);
    ReachableStep(env, s, Dispatcher);
    s' := Next(env, s, Dispatcher).value;
    if s.control.k < |s.threads| {
      s' := JoinAll(env, s', g);
    }
  }

  /** At the horizon the dispatching thread stops. */
  lemma StopAtHorizon(env: Env, s: System) returns (s': System)
    requires Reachable(env, s) && s.control.Dispatching? && |s.runs| == Horizon(env)
    requires s.ctx.hasError || |s.runs| == |env.flow| || At(env, |s.runs|).Reject?
    ensures Reachable(env, s') && s'.control.Joining? && s' == s.(control := Joining(s'.control.status, 0))
  {
    ReachableStep(env, s, Dispatcher);
    s' := DispatchNext(env, s);
  }

  /** A synchronous node that fails leaves the flag set, and the dispatching thread after it. */
  lemma PassHalting(env: Env, s: System) returns (s': System)
    requires Reachable(env, s) && s.control.Dispatching? && !s.ctx.hasError
    requires |s.runs| < |env.flow| && HaltsAt(env, |s.runs|)
    ensures Reachable(env, s') && s'.ctx.hasError && |s'.runs| == |s.runs| + 1
    ensures s'.control == Dispatching || (s'.control.Joining? && s'.control.k == 0)
    ensures s'.runs[..|s.runs|] == s.runs && s'.runs[|s.runs|].todo == []
  {
    var n := |s.runs|;
    ReachableStep(env, s, Dispatcher);
    var begun := DispatchNext(env, s);
    var over := RunToEnd(env, begun, Dispatcher, n);
    WholeRunSetsError(env, n, s.ctx);
    ReachableStep(env, over, Dispatcher);
    s' := Next(env, over, Dispatcher).value;
  }

  lemma StillUntouched(env: Env, before: System, s: System)
    requires Untouched(env, before, 0) && |s.runs| == |before.runs| + 1 <= |env.flow|
    requires s.runs[..|before.runs|] == before.runs
    requires !AsyncAt(env, |before.runs|) && s.runs[|before.runs|].todo == []
    ensures Untouched(env, s, 0) == true
  {
    assert forall i :: 0 <= i < |before.runs| ==> s.runs[i] == s.runs[..|before.runs|][i];
  }

  /** The last node is synchronous and fails; every thread before it still waits. */
  lemma HaltAtHorizon(env: Env) returns (s: System)
    requires !env.init.hasError && Horizon(env) > 0 && HaltsAt(env, Horizon(env) - 1)
    ensures Reachable(env, s) && s.control.Joining? && |s.runs| == Horizon(env) && s.control.k == 0
    ensures Untouched(env, s, 0)
  {
    var n := Horizon(env) - 1;
    Begin(env);
    var before := PassTo(env, Initial(env), n);
    var after := PassHalting(env, before);
    StillUntouched(env, before, after);
    s := after;
    if after.control.Dispatching? {
      s := StopAtHorizon(env, after);
    }
  }

  /** All nodes up to the horizon are dispatched before any thread begins. */
  lemma DispatchAll(env: Env) returns (s: System)
    requires !env.init.hasError
    ensures Reachable(env, s) && s.control.Joining? && |s.runs| == Horizon(env) && s.control.k == 0
    ensures Untouched(env, s, 0)
  {
    var n := Horizon(env);
    if n > 0 && HaltsAt(env, n - 1) {
      s := HaltAtHorizon(env);
    } else {
      Begin(env);
      s := PassTo(env, Initial(env), n);
      s := StopAtHorizon(env, s);
    }
  }

  // ----- which runs can have the last word

  /** The only run with work left runs to its end, and all threads are joined. */
  lemma FinishLast(env: Env, s: System, g: nat) returns (s': System)
    requires Reachable(env, s) && s.control.Joining? && s.control.k == 0 && NothingLeftBut(s, g)
    requires g < |s.runs| <= |env.flow| && ShellAt(env, g) && s.runs[g].todo == ProgramAt(env, g)
    ensures Reachable(env, s') && s'.control.Finished? && |s'.runs| == |s.runs|
    ensures s'.ctx.hasError <==> !SucceedsAt(env, g)
  {
    WholeRunSetsError(env, g, s.ctx);
    ShellProgramIsFramed(At(env, g).executor, env.flow[g].outcome);
    var t := ThreadOf(env, s, g);
    s' := RunToEnd(env, s, Thread(t), g);
    s' := JoinAll(env, s', g);
  }

  /** Whichever thread one picks, some schedule ends with the error flag telling about that thread alone. */
  lemma AnyThreadCanHaveTheLastWord(env: Env, g: nat) returns (s: System)
    requires !env.init.hasError && g < Horizon(env) && ShellAt(env, g) && AsyncAt(env, g)
    ensures Reachable(env, s) && s.control.Finished? && |s.runs| == Horizon(env)
    ensures s.ctx.hasError <==> !SucceedsAt(env, g)
  {
    var all := DispatchAll(env);
    assert all.runs[g].todo == ProgramAt(env, g);
    var rest := FinishOthers(env, all, g);
    s := FinishLast(env, rest, g);
  }

  /** While synchronous node `g` is being run every thread before it finishes; then `g` does. */
  lemma RunLastAt(env: Env, g: nat) returns (s: System)
    requires !env.init.hasError && g < Horizon(env) && ShellAt(env, g) && !AsyncAt(env, g) && SucceedsAt(env, g)
    ensures Reachable(env, s) && s.control.Dispatching? && !s.ctx.hasError && |s.runs| == g + 1
    ensures NothingLeftBut(s, g) && s.runs[g].todo == []
  {
    Begin(env);
    s := PassTo(env, Initial(env), g);
    ReachableStep(env, s, Dispatcher);
    s := DispatchNext(env, s);
    s := FinishOthers(env, s, g);
    WholeRunSetsError(env, g, s.ctx);
    s := RunToEnd(env, s, Dispatcher, g);
    s := Return(env, s);
  }

  lemma NoShellNoWork(env: Env, s: System, done: System, g: nat)
    requires |s.runs| <= Horizon(env) && g < |s.runs| && |done.runs| == g + 1 && s.runs[..g + 1] == done.runs
    requires NothingLeftBut(done, g) && done.runs[g].todo == [] && Untouched(env, s, g + 1)
    requires forall h :: g < h < Horizon(env) ==> !ShellAt(env, h)
    ensures NothingLeftBut(s, g) && s.runs[g].todo == []
  {
    forall i | 0 <= i < |s.runs| ensures s.runs[i].todo == [] {
      if i <= g {
        assert s.runs[i] == done.runs[i];
      } else {
        assert !ShellAt(env, i);
      }
    }
  }

  /** So can a synchronous script that succeeds, if no shell script starts after it. */
  lemma LastSyncCanHaveTheLastWord(env: Env, g: nat) returns (s: System)
    requires !env.init.hasError && g < Horizon(env) && SucceedsAt(env, g) && CanComeLast(env, g) && !AsyncAt(env, g)
    ensures Reachable(env, s) && s.control.Finished? && |s.runs| == Horizon(env) && !s.ctx.hasError
  {
    var n := Horizon(env);
    var done := RunLastAt(env, g);
    forall i | g <= i < n ensures At(env, i).Start? && !HaltsAt(env, i) {
      assert i > g ==> !ShellAt(env, i);
    }
    s := PassTo(env, done, n);
    NoShellNoWork(env, s, done, g);
    s := StopAtHorizon(env, s);
    s := JoinAll(env, s, g);
  }

  // ----- no schedule misleads unless a success can come last

  /** A synchronous shell script that succeeds was started after run `i`. */
  ghost predicate Overruled(env: Env, n: nat, i: nat)
    requires n <= |env.flow|
  {
    exists j :: i < j < n && ShellAt(env, j) && !AsyncAt(env, j) && SucceedsAt(env, j)
  }

  /** A failure once reported stays visible until a later synchronous script overrules it. */
  ghost predicate FailuresShow(env: Env, s: System)
    requires |s.runs| <= |env.flow|
  {
    forall i :: 0 <= i < |s.runs| && FailsAt(env, i) && |s.runs[i].todo| <= 1 && !Overruled(env, |s.runs|, i) ==>
                  s.ctx.hasError
  }

  /** The flag is set only if some run failed, and the flow ends at the horizon or with the flag set. */
  ghost predicate Sound(env: Env, s: System) {
    && |s.runs| <= Horizon(env)
    && FailuresShow(env, s)
    && (s.ctx.hasError ==> SomeRunFailed(env, |s.runs|))
    && (s.control.Joining? || s.control.Finished? ==> s.ctx.hasError || |s.runs| == Horizon(env))
  }

  lemma WrittenElsewhere(env: Env, s: System, r: nat)
    requires RunsShape(env, s) && Sound(env, s) && r < |s.runs| && s.runs[r].todo != []
    requires !s.runs[r].todo[0].SetError?
    ensures Sound(env, Perform(s, r)) == true
  {
    NextUpdate(env, s, r);
    var s', p, n := Perform(s, r), ProgramAt(env, r), |s.runs[r].done|;
    assert n != |p| - 2;
    assert |s'.runs[r].todo| <= 1 ==> |s.runs[r].todo| <= 1;
  }

  lemma FailureWritten(env: Env, s: System, r: nat)
    requires RunsShape(env, s) && Sound(env, s) && r < |s.runs| && s.runs[r].todo != []
    requires s.runs[r].todo[0].SetError? && !SucceedsAt(env, r)
    ensures Sound(env, Perform(s, r)) == true
  {
    NextUpdate(env, s, r);
    var s', p, n := Perform(s, r), ProgramAt(env, r), |s.runs[r].done|;
    assert p[n] == SetError(true);
    assert FailsAt(env, r) && s'.ctx.hasError;
  }

  /** A success on a thread clears the flag only if no run failed. */
  lemma ThreadSuccessWritten(env: Env, s: System, r: nat)
    requires RunsShape(env, s) && Sound(env, s) && !CanMislead(env) && r < |s.runs| && s.runs[r].todo != []
    requires s.runs[r].todo[0].SetError? && SucceedsAt(env, r) && AsyncAt(env, r)
    ensures Sound(env, Perform(s, r)) == true
  {
    NextUpdate(env, s, r);
    assert CanComeLast(env, r);
    assert !SomeRunFailed(env, |s.runs|);
    assert forall i :: 0 <= i < |s.runs| ==> !FailsAt(env, i);
  }

  /** A success of the synchronous run overrules every failure before it. */
  lemma SyncSuccessWritten(env: Env, s: System, r: nat)
    requires RunsShape(env, s) && Sound(env, s) && s.control.Executing? && r == |s.runs| - 1 && s.runs[r].todo != []
    requires s.runs[r].todo[0].SetError? && SucceedsAt(env, r) && !AsyncAt(env, r)
    ensures Sound(env, Perform(s, r)) == true
  {
    NextUpdate(env, s, r);
    var s' := Perform(s, r);
    assert !s'.ctx.hasError;
    forall i | 0 <= i < |s.runs| && FailsAt(env, i) ensures Overruled(env, |s.runs|, i) {
      assert i < r;
    }
    assert FailuresShow(env, s');
  }

  lemma PerformSound(env: Env, s: System, r: nat)
    requires RunsShape(env, s) && Sound(env, s) && !CanMislead(env) && r < |s.runs| && s.runs[r].todo != []
    requires AsyncAt(env, r) || (s.control.Executing? && r == |s.runs| - 1)
    ensures Sound(env, Perform(s, r)) == true
  {
    if !s.runs[r].todo[0].SetError? {
      WrittenElsewhere(env, s, r);
    } else if SucceedsAt(env, r) && AsyncAt(env, r) {
      ThreadSuccessWritten(env, s, r);
    } else if SucceedsAt(env, r) {
      SyncSuccessWritten(env, s, r);
    } else {
      FailureWritten(env, s, r);
    }
  }

  lemma ControlSound(env: Env, s: System, s': System)
    requires Sound(env, s) && s'.runs == s.runs && s'.ctx == s.ctx
    requires s'.control.Joining? || s'.control.Finished? ==> s.ctx.hasError || |s.runs| == Horizon(env)
    ensures Sound(env, s') == true
  {
  }

  /** A synchronous run that failed and is over has its error in the flag. */
  lemma HaltShows(env: Env, s: System)
    requires Shape(env, s) && Sound(env, s) && s.control.Dispatching? && s.runs != [] && HaltsAt(env, |s.runs| - 1)
    ensures s.ctx.hasError
  {
    var n := |s.runs|;
    assert !Unjoined(s, n - 1);
    assert s.runs[n - 1].todo == [] && !Overruled(env, n, n - 1);
  }

  lemma StartSound(env: Env, s: System)
    requires Shape(env, s) && Sound(env, s) && s.control.Dispatching? && !s.ctx.hasError
    requires |s.runs| < Horizon(env)
    ensures Sound(env, DispatchNext(env, s)) == true
  {
    var n, s' := |s.runs|, DispatchNext(env, s);
    assert s'.runs[..n] == s.runs && s'.runs[n].todo == ProgramAt(env, n);
    if FailsAt(env, n) {
      ShellProgramIsFramed(At(env, n).executor, env.flow[n].outcome);
    }
    forall i | 0 <= i < n && FailsAt(env, i) && |s'.runs[i].todo| <= 1 ensures Overruled(env, n + 1, i) {
      assert s'.runs[i] == s.runs[i] && Overruled(env, n, i);
    }
  }

  lemma DispatchSound(env: Env, s: System)
    requires Shape(env, s) && Sound(env, s) && s.control.Dispatching?
    ensures Sound(env, DispatchNext(env, s)) == true
  {
    var n := |s.runs|;
    if n == Horizon(env) && n > 0 && HaltsAt(env, n - 1) {
      HaltShows(env, s);
    }
    if n < Horizon(env) && !s.ctx.hasError {
      StartSound(env, s);
    } else {
      ControlSound(env, s, DispatchNext(env, s));
    }
  }

  /** A synchronous run that returns an error ends the flow at the horizon. */
  lemma ReturnSound(env: Env, s: System)
    requires Shape(env, s) && Sound(env, s) && s.control.Executing? && s.runs[|s.runs| - 1].todo == []
    ensures Sound(env, Next(env, s, Dispatcher).value) == true
  {
    var n := |s.runs|;
    if ReturnsAt(env, n - 1) != Ok {
      assert HaltsAt(env, n - 1);
      assert n == Horizon(env);
    }
    ControlSound(env, s, Next(env, s, Dispatcher).value);
  }

  lemma NextSound(env: Env, s: System, c: Choice)
    requires Shape(env, s) && Sound(env, s) && !CanMislead(env) && Next(env, s, c).Some?
    ensures Sound(env, Next(env, s, c).value) == true
  {
    match c
    case Thread(t) => PerformSound(env, s, s.threads[t]);
    case Dispatcher =>
      if s.control.Dispatching? {
        DispatchSound(env, s);
      } else if s.control.Executing? {
        if s.runs[|s.runs| - 1].todo != [] {
          PerformSound(env, s, |s.runs| - 1);
        } else {
          ReturnSound(env, s);
        }
      } else {
        ControlSound(env, s, Next(env, s, c).value);
      }
  }

  lemma {:induction false} AlwaysSound(env: Env, schedule: seq<Choice>)
    requires !env.init.hasError && !CanMislead(env) && Exec(env, schedule).Some?
    ensures Sound(env, Exec(env, schedule).value)
  {
    if schedule != [] {
      var front := schedule[..|schedule| - 1];
      AlwaysSound(env, front);
      ExecShape(env, front);
      NextSound(env, Exec(env, front).value, schedule[|schedule| - 1]);
    }
  }

  /** Some shell script among the first `n` nodes has none after it. */
  lemma {:induction false} LastShell(env: Env, i: nat, n: nat) returns (last: nat)
    requires i < n <= |env.flow| && ShellAt(env, i)
    ensures last < n && ShellAt(env, last) && forall h :: last < h < n ==> !ShellAt(env, h)
    decreases n
  {
    if ShellAt(env, n - 1) {
      last := n - 1;
    } else {
      last := LastShell(env, i, n - 1);
    }
  }

  /** Unless a success can come last, the last shell script fails if any does. */
  lemma LastShellFails(env: Env, i: nat) returns (last: nat)
    requires !CanMislead(env) && i < Horizon(env) && FailsAt(env, i)
    ensures last < Horizon(env) && FailsAt(env, last) && !Overruled(env, Horizon(env), last)
  {
    last := LastShell(env, i, Horizon(env));
    assert CanComeLast(env, last);
  }

  lemma NeverMisleads(env: Env, schedule: seq<Choice>)
    requires !env.init.hasError && !CanMislead(env)
    requires Exec(env, schedule).Some? && Exec(env, schedule).value.control.Finished?
    ensures ReportsTruly(env, Exec(env, schedule).value)
  {
    var s := Exec(env, schedule).value;
    AlwaysSound(env, schedule);
    FinishedRuns(env, schedule);
    if i :| 0 <= i < |s.runs| && FailsAt(env, i) {
      if |s.runs| == Horizon(env) {
        var last := LastShellFails(env, i);
        assert s.runs[last].todo == [];
      }
    }
  }

  /** A flow that begins with the flag set runs nothing and leaves it set. */
  lemma InheritedErrorStays(env: Env) returns (s: System)
    requires env.init.hasError
    ensures Reachable(env, s) && s.control.Finished? && !ReportsTruly(env, s)
  {
    Begin(env);
    ReachableStep(env, Initial(env), Dispatcher);
    s := JoinAll(env, DispatchNext(env, Initial(env)), 0);
  }

  /**
   For every flow, the error flag tells on every schedule whether some script that ran failed, if and only
   if it was clear at the start and it is not so that one script fails while another, which succeeds and
   can come last, clears the flag.
   */
  lemma ErrorFlagReliableExactlyWhen(env: Env)
    ensures AlwaysReportsTruly(env) <==> !env.init.hasError && !CanMislead(env)
  {
    if env.init.hasError {
      var s := InheritedErrorStays(env);
    } else if CanMislead(env) {
      var f, g :| 0 <= f < Horizon(env) && 0 <= g < Horizon(env)
                  && FailsAt(env, f) && SucceedsAt(env, g) && CanComeLast(env, g);
      var s: System;
      if AsyncAt(env, g) {
        s := AnyThreadCanHaveTheLastWord(env, g);
      } else {
        s := LastSyncCanHaveTheLastWord(env, g);
      }
      assert SomeRunFailed(env, |s.runs|) && !ReportsTruly(env, s);
    } else {
      forall s | Reachable(env, s) && s.control.Finished? ensures ReportsTruly(env, s) {
        var schedule :| Exec(env, schedule) == Some(s);
        NeverMisleads(env, schedule);
      }
    }
  }

  /** On threads of their own, the runs are reported truly if and only if the scripts all succeed or all fail. */
  lemma AllAsyncReliableExactlyWhenUniform(env: Env)
    requires !env.init.hasError
    requires forall i :: 0 <= i < |env.flow| ==> ShellAt(env, i) && AsyncAt(env, i)
    ensures AlwaysReportsTruly(env) <==>
              (forall i :: 0 <= i < |env.flow| ==> SucceedsAt(env, i)) ||
              (forall i :: 0 <= i < |env.flow| ==> !SucceedsAt(env, i))
  {
    ErrorFlagReliableExactlyWhen(env);
    forall i | 0 <= i < |env.flow| ensures At(env, i).Start? && !HaltsAt(env, i) {
      assert AsyncAt(env, i);
    }
    assert forall i :: 0 <= i < |env.flow| ==> CanComeLast(env, i) && (FailsAt(env, i) || SucceedsAt(env, i));
  }

  // ----- whose report the flag is, reliable or not

  ghost predicate NoErrorWrite(history: seq<(nat, Op)>) {
    forall p :: 0 <= p < |history| ==> !history[p].1.SetError?
  }

  lemma {:induction false} FindLastErrorWrite(history: seq<(nat, Op)>) returns (m: nat)
    requires !NoErrorWrite(history)
    ensures LastErrorWrite(history, m)
  {
    var last := |history| - 1;
    if history[last].1.SetError? {
      m := last;
    } else {
      m := FindLastErrorWrite(history[..last]);
    }
  }

  lemma {:induction false} NoErrorWriteMeansNone(history: seq<(nat, Op)>, i: nat, op: Op)
    requires NoErrorWrite(history) && op in OpsOf(history, i)
    ensures !op.SetError?
  {
    if history != [] {
      var front := OpsOf(history[..|history| - 1], i);
      if op in front {
        NoErrorWriteMeansNone(history[..|history| - 1], i, op);
      }
    }
  }

  ghost predicate ReportOf(env: Env, s: System, r: nat) {
    r < |s.runs| <= |env.flow| && ShellAt(env, r) && (s.ctx.hasError <==> !SucceedsAt(env, r))
  }

  lemma ShellRunReported(env: Env, schedule: seq<Choice>, i: nat) returns (r: nat)
    requires Exec(env, schedule).Some? && Exec(env, schedule).value.control.Finished?
    requires i < |Exec(env, schedule).value.runs| <= |env.flow| && ShellAt(env, i)
    ensures ReportOf(env, Exec(env, schedule).value, r)
  {
    var s := Exec(env, schedule).value;
    FinishedRuns(env, schedule);
    var p := ProgramAt(env, i);
    ShellProgramIsFramed(At(env, i).executor, env.flow[i].outcome);
    if NoErrorWrite(s.history) {
      NoErrorWriteMeansNone(s.history, i, p[|p| - 2]);
    }
    var m := FindLastErrorWrite(s.history);
    LastWriterDecidesError(env, schedule, m);
    r := s.history[m].0;
    OwnUpdate(s.history, m);
  }

  lemma NobodyWrote(history: seq<(nat, Op)>, n: nat)
    requires forall e :: e in history ==> e.0 < n
    requires forall i :: 0 <= i < n ==> OpsOf(history, i) == []
    ensures history == []
  {
    if history != [] {
      assert history[0] in history;
      OwnUpdate(history, 0);
    }
  }

  lemma NothingReported(env: Env, schedule: seq<Choice>)
    requires Exec(env, schedule).Some? && Exec(env, schedule).value.control.Finished?
    requires |Exec(env, schedule).value.runs| <= |env.flow|
    requires forall i :: 0 <= i < |Exec(env, schedule).value.runs| ==> !ShellAt(env, i)
    ensures Exec(env, schedule).value.ctx == env.init
  {
    var s := Exec(env, schedule).value;
    FinishedRuns(env, schedule);
    HistoryExplainsContext(env, schedule);
    forall i | 0 <= i < |s.runs| ensures OpsOf(s.history, i) == [] {
      assert !ShellAt(env, i);
    }
    NobodyWrote(s.history, |s.runs|);
  }

  /**
   After `Wait` of any flow on any schedule: the flag is the report of a shell script that ran, or what it
   was at the start if none did.
   */
  lemma ReportIsSomeRuns(env: Env, schedule: seq<Choice>)
    requires Exec(env, schedule).Some? && Exec(env, schedule).value.control.Finished?
    ensures var s := Exec(env, schedule).value;
      && |s.runs| <= |env.flow|
      && if ShellRan(env, |s.runs|) then exists r: nat :: ReportOf(env, s, r) else s.ctx == env.init
  {
    var s := Exec(env, schedule).value;
    FinishedRuns(env, schedule);
    if ShellRan(env, |s.runs|) {
      var i :| 0 <= i < |s.runs| && ShellAt(env, i);
      var r := ShellRunReported(env, schedule, i);
    } else {
      assert forall i :: 0 <= i < |s.runs| ==> !ShellAt(env, i);
      NothingReported(env, schedule);
    }
  }
}
