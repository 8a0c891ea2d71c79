/**
 The shared execution context: data_structure/executor_factory/src/exec_context.cpp.
 */
module ExecContexts {
  import opened Scripts

  class ExecContext {
    var hasError: bool
    var execStatus: ExecStatus
    var outputContent: string
    var exitCode: int

    function View(): Context
      reads this
    {
      Context(hasError, execStatus, outputContent, exitCode)
    }

    constructor ()
      ensures View() == Context(false, NotStarted, "", 0)
    {
      hasError, execStatus, outputContent, exitCode := false, NotStarted, "", 0;
    }

    method PutError(isError: bool)
      modifies this
      ensures View() == old(View()).(hasError := isError)
    {
      hasError := isError;
    }

    method PutExecStatus(status: ExecStatus)
      modifies this
      ensures View() == old(View()).(status := status)
    {
      execStatus := status;
    }

    method Append(content: string)
      modifies this
      ensures View() == old(View()).(output := old(View()).output + content)
    {
      outputContent := outputContent + content;
    }

    method PutExitCode(code: int)
      modifies this
      ensures View() == old(View()).(exitCode := code)
    {
      exitCode := code;
    }

    /** The setter call that `op` stands for. */
    method Perform(op: Op)
      modifies this
      ensures View() == Apply(op, old(View()))
    {
      match op
      case SetExecStatus(status) => PutExecStatus(status);
      case SetError(isError) => PutError(isError);
      case AppendOutput(line) => Append(line);
      case SetExitCode(code) => PutExitCode(code);
    }
  }
}
