/**
 * The engine under test and the helpers of the fuzzer module, as black boxes.
 * A script is run through `run`, which stands for `run_shell_command`
 * (scripts/reduce_sql.py:45-51): it returns the stripped standard output,
 * the stripped standard error and the exit status.
 */
module Oracle {

  datatype Exec = Exec(stdout: string, stderr: string, returnCode: int)

  datatype Engine = Engine(
    /** `run_shell_command(shell, script)`. */
    run: string -> Exec,
    /** The first component of `fuzzer_helper.split_exception_trace(stderr)`. */
    exceptionOf: string -> string,
    /** `fuzzer_helper.is_internal_error(stderr)`. */
    isInternalError: string -> bool,
    /** Running this script terminates the crash-isolation worker abnormally. */
    killsWorker: string -> bool)
  {
    /** The fault signature of running `script`. */
    function Signature(script: string): string {
      exceptionOf(run(script).stderr)
    }
  }
}
