/**
 Scripts and what running one does to the shared context: data_structure/executor_factory,
 `ShellScriptExecutor::Execute` and `DagScriptExecutor::Execute` of src/script_executor.cpp as
 sequences of atomic context updates, and the updates themselves (src/exec_context.cpp).
 */
module Scripts {

  import opened Wrappers

  datatype Status = Ok | FailedPrecondition | InvalidArgument | NotFound | Internal

  datatype ExecStatus = NotStarted | Running | Succeeded | Failed

  /** The fields of `ExecContext` that runs share. */
  datatype Context = Context(hasError: bool, status: ExecStatus, output: string, exitCode: int)

  /** One setter call; each is one atomic step. */
  datatype Op = SetExecStatus(status: ExecStatus) | SetError(isError: bool) | AppendOutput(line: string) | SetExitCode(code: int)

  function Apply(op: Op, c: Context): Context {
    match op
    case SetExecStatus(st) => c.(status := st)
    case SetError(e) => c.(hasError := e)
    case AppendOutput(line) => c.(output := c.output + line)
    case SetExitCode(code) => c.(exitCode := code)
  }

  datatype ScriptInfo = ScriptInfo(scriptId: string, path: string)

  datatype Executor = Shell(info: ScriptInfo) | Dag(info: ScriptInfo)

  /** What `pclose` reports: an exit status, a signal, or neither. */
  datatype WaitStatus = Exited(code: nat) | Signaled(signal: nat) | Unknown

  /** How one execution of a shell script with a path goes; `start` is the start message.  An exception may
   arrive before or after the exit code is written. */
  datatype Outcome =
    | LogNotOpened
    | ScriptMissing(start: string)
    | PopenFailed(start: string)
    | Ran(start: string, lines: seq<string>, wait: WaitStatus)
    | Threw(appended: seq<string>, exitCode: Option<nat>)

  function ExitCode(wait: WaitStatus): nat {
    match wait
    case Exited(code) => code
    case Signaled(signal) => signal
    case Unknown => 0
  }

  function Appends(lines: seq<string>): (ops: seq<Op>)
    ensures |ops| == |lines| && forall i :: 0 <= i < |ops| ==> ops[i] == AppendOutput(lines[i])
  {
    seq(|lines|, i requires 0 <= i < |lines| => AppendOutput(lines[i]))
  }

  function ExitCodeWrite(code: Option<nat>): seq<Op> {
    match code
    case None => []
    case Some(c) => [SetExitCode(c)]
  }

  const START: seq<Op> := [SetExecStatus(Running)]
  const FAIL: seq<Op> := [SetError(true), SetExecStatus(Failed)]
  const SUCCEED: seq<Op> := [SetError(false), SetExecStatus(Succeeded)]

  /** The updates of one execution, in order (src/script_executor.cpp:30-148). */
  function Program(ex: Executor, o: Outcome): seq<Op> {
    if ex.Dag? then []
    else if ex.info.path == "" then START + FAIL
    else match o
      case LogNotOpened => START + FAIL
      case ScriptMissing(start) => START + Appends([start]) + FAIL
      case PopenFailed(start) => START + Appends([start]) + FAIL
      case Ran(start, lines, wait) =>
        START + Appends([start] + lines) + [SetExitCode(ExitCode(wait))] + (if wait == Exited(0) then SUCCEED else FAIL)
      case Threw(appended, code) => START + Appends(appended) + ExitCodeWrite(code) + FAIL
  }

  /** What the execution returns; a script that ran and failed still returns OK. */
  function Returns(ex: Executor, o: Outcome): Status {
    if ex.Dag? then Ok
    else if ex.info.path == "" then InvalidArgument
    else match o
      case LogNotOpened => InvalidArgument
      case ScriptMissing(_) => NotFound
      case PopenFailed(_) => Internal
      case Ran(_, _, _) => Ok
      case Threw(_, _) => Ok
  }

  predicate Succeeds(ex: Executor, o: Outcome) {
    ex.Dag? || (ex.info.path != "" && o.Ran? && o.wait == Exited(0))
  }

  // ----- the shape of every execution

  /** Starts with kRunning, ends with its only other status write, and writes the error flag just before it. */
  ghost predicate Framed(p: seq<Op>, success: bool) {
    && |p| >= 3
    && p[0] == SetExecStatus(Running)
    && p[|p| - 2] == SetError(!success)
    && p[|p| - 1] == SetExecStatus(if success then Succeeded else Failed)
    && forall i :: 0 < i < |p| - 2 ==> p[i].AppendOutput? || p[i].SetExitCode?
  }

  lemma ShellProgramIsFramed(ex: Executor, o: Outcome)
    requires ex.Shell?
    ensures Framed(Program(ex, o), Succeeds(ex, o))
  {
  }

  lemma SuccessExitsWithZero(ex: Executor, o: Outcome)
    requires Succeeds(ex, o)
    ensures forall op :: op in Program(ex, o) && op.SetExitCode? ==> op.code == 0
    ensures Returns(ex, o) == Ok
  {
  }

  function Run(ops: seq<Op>, c: Context): Context {
    if ops == [] then c else Run(ops[1..], Apply(ops[0], c))
  }

  /** Whatever it starts from, an execution that runs on alone to its end, from any point before its final
   status write, leaves an error exactly when it fails. */
  lemma {:induction false} FramedRunSetsError(p: seq<Op>, c: Context, success: bool, n: nat)
    requires Framed(p, success) && n < |p| - 1
    ensures Run(p[n..], c).hasError == !success
    decreases |p| - n
  {
    assert p[n..][1..] == p[n + 1..];
    if n == |p| - 2 {
      assert p[n + 1..] == [p[n + 1]];
      assert Run(p[n + 1..], Apply(p[n], c)) == Run([], Apply(p[n + 1], Apply(p[n], c)));
    } else {
      FramedRunSetsError(p, Apply(p[n], c), success, n + 1);
    }
  }

  // ----- what a whole execution does, whatever context it starts from

  function Text(lines: seq<string>): string {
    if lines == [] then "" else lines[0] + Text(lines[1..])
  }

  lemma {:induction false} RunConcat(a: seq<Op>, b: seq<Op>, c: Context)
    ensures Run(a + b, c) == Run(b, Run(a, c))
  {
    if a == [] {
      assert a + b == b;
    } else {
      assert (a + b)[0] == a[0] && (a + b)[1..] == a[1..] + b;
      RunConcat(a[1..], b, Apply(a[0], c));
    }
  }

  lemma {:induction false} RunAppends(lines: seq<string>, c: Context)
    ensures Run(Appends(lines), c) == c.(output := c.output + Text(lines))
  {
    if lines == [] {
      assert c.output + "" == c.output;
    } else {
      assert Appends(lines)[1..] == Appends(lines[1..]);
      RunAppends(lines[1..], Apply(AppendOutput(lines[0]), c));
      assert (c.output + lines[0]) + Text(lines[1..]) == c.output + Text(lines);
    }
  }

  lemma RunOne(op: Op, c: Context)
    ensures Run([op], c) == Apply(op, c)
  {
    assert Run([op], c) == Run([], Apply(op, c));
  }

  lemma RunTwo(x: Op, y: Op, c: Context)
    ensures Run([x, y], c) == Apply(y, Apply(x, c))
  {
    assert [x, y][1..] == [y];
    RunOne(y, Apply(x, c));
  }

  lemma RunStart(lines: seq<string>, c: Context)
    ensures Run(START + Appends(lines), c) == c.(status := Running, output := c.output + Text(lines))
  {
    RunConcat(START, Appends(lines), c);
    RunOne(START[0], c);
    RunAppends(lines, Apply(START[0], c));
  }

  lemma RunExitCode(code: Option<nat>, c: Context)
    ensures Run(ExitCodeWrite(code), c) == c.(exitCode := if code.Some? then code.value else c.exitCode)
  {
    if code.Some? {
      RunOne(SetExitCode(code.value), c);
    }
  }

  lemma RunEnd(success: bool, c: Context)
    ensures Run(if success then SUCCEED else FAIL, c) ==
            c.(hasError := !success, status := if success then Succeeded else Failed)
  {
    var end := if success then SUCCEED else FAIL;
    RunTwo(end[0], end[1], c);
  }

  /** Started, some lines, at most one exit code, and the end. */
  lemma RunParts(lines: seq<string>, code: Option<nat>, success: bool, c: Context)
    ensures Run(START + Appends(lines) + ExitCodeWrite(code) + (if success then SUCCEED else FAIL), c) ==
            Context(!success, if success then Succeeded else Failed, c.output + Text(lines),
                    if code.Some? then code.value else c.exitCode)
  {
    var begun := START + Appends(lines);
    RunConcat(begun + ExitCodeWrite(code), if success then SUCCEED else FAIL, c);
    RunConcat(begun, ExitCodeWrite(code), c);
    RunStart(lines, c);
    RunExitCode(code, Run(begun, c));
    RunEnd(success, Run(begun + ExitCodeWrite(code), c));
  }

  /** The lines an execution appends and the exit code it writes, if any. */
  lemma ShellProgramParts(info: ScriptInfo, o: Outcome) returns (lines: seq<string>, code: Option<nat>, success: bool)
    ensures Program(Shell(info), o) == START + Appends(lines) + ExitCodeWrite(code) + (if success then SUCCEED else FAIL)
    ensures success <==> Succeeds(Shell(info), o)
    ensures if info.path == "" || o.LogNotOpened? then lines == [] && code == None
            else match o
              case ScriptMissing(start) => lines == [start] && code == None
              case PopenFailed(start) => lines == [start] && code == None
              case Ran(start, ls, wait) => lines == [start] + ls && code == Some(ExitCode(wait))
              case Threw(appended, exit) => lines == appended && code == exit
  {
    lines, code, success := [], None, Succeeds(Shell(info), o);
    if info.path != "" {
      match o
      case LogNotOpened =>
      case ScriptMissing(start) => lines := [start];
      case PopenFailed(start) => lines := [start];
      case Ran(start, ls, wait) => lines, code := [start] + ls, Some(ExitCode(wait));
      case Threw(appended, exit) => lines, code := appended, exit;
    }
    assert START + Appends([]) + ExitCodeWrite(None) == START;
  }

  /**
   From any context, every exit path of an execution: what it leaves in each field, and what it returns.
   A script that ran and failed leaves its exit code or signal and still returns OK.
   */
  lemma WholeExecution(ex: Executor, o: Outcome, c: Context)
    ensures Run(Program(ex, o), c) ==
            if ex.Dag? then c
            else if ex.info.path == "" then Context(true, Failed, c.output, c.exitCode)
            else match o
              case LogNotOpened => Context(true, Failed, c.output, c.exitCode)
              case ScriptMissing(start) => Context(true, Failed, c.output + start, c.exitCode)
              case PopenFailed(start) => Context(true, Failed, c.output + start, c.exitCode)
              case Ran(start, lines, Exited(code)) =>
                Context(code != 0, if code == 0 then Succeeded else Failed, c.output + start + Text(lines), code)
              case Ran(start, lines, Signaled(signal)) => Context(true, Failed, c.output + start + Text(lines), signal)
              case Ran(start, lines, Unknown) => Context(true, Failed, c.output + start + Text(lines), 0)
              case Threw(appended, None) => Context(true, Failed, c.output + Text(appended), c.exitCode)
              case Threw(appended, Some(code)) => Context(true, Failed, c.output + Text(appended), code)
    ensures Returns(ex, o) ==
            if ex.Dag? then Ok
            else if ex.info.path == "" || o.LogNotOpened? then InvalidArgument
            else if o.ScriptMissing? then NotFound
            else if o.PopenFailed? then Internal
            else Ok
  {
    if ex.Shell? {
      var lines, code, success := ShellProgramParts(ex.info, o);
      RunParts(lines, code, success, c);
      TextFrom(o, c);
      assert c.output + "" == c.output;
    }
  }

  /** The start message comes before the lines. */
  lemma TextFrom(o: Outcome, c: Context)
    ensures o.Ran? ==> c.output + Text([o.start] + o.lines) == c.output + o.start + Text(o.lines)
    ensures o.ScriptMissing? || o.PopenFailed? ==> c.output + Text([o.start]) == c.output + o.start
  {
    if o.Ran? {
      assert ([o.start] + o.lines)[1..] == o.lines;
    } else if o.ScriptMissing? || o.PopenFailed? {
      assert [o.start][1..] == [] && o.start + "" == o.start;
    }
  }
}
