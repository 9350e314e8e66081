/**
 * Running a shell command and reading back what it printed. The command
 * itself is not run here: how it ended is an input.
 */
module Shell {
  import opened PyStr

  /**
   * How a command ended: it exited with status zero and printed `stdout`,
   * or it exited with another status after printing `output`.
   */
  datatype RunResult = Completed(stdout: string) | Failed(output: string)

  /** What the program puts in front of the output of a failed command. */
  const ErrorPrefix: string := "Error: "

  /**
   * The text a command gives back to the program: its output as printed
   * when it succeeded, and on failure the error prefix followed by the
   * stripped output.
   */
  function Output(result: RunResult): string {
    match result
    case Completed(stdout) => stdout
    case Failed(output) => ErrorPrefix + Strip(output)
  }

  /** What the status bar shows for a command: the text it gave back, stripped. */
  function Reply(result: RunResult): string {
    Strip(Output(result))
  }

  /**
   * A failed command never reads back as blank: stripped, its text is
   * "Error: " and the stripped output, or "Error:" alone when the command
   * printed only whitespace.
   */
  lemma FailedOutput(output: string)
    ensures Reply(Failed(output)) == if AllSpace(output) then "Error:" else ErrorPrefix + Strip(output)
    ensures Reply(Failed(output)) != []
  {
    var t := Strip(output);
    StripEmpty(output);
    if t == [] {
      assert Output(Failed(output)) == [] + "Error:" + " ";
      StripPadded([], "Error:", " ");
    } else {
      var s := ErrorPrefix + t;
      assert s[0] == 'E' && s[|s| - 1] == t[|t| - 1];
      StripTrimmed(s);
    }
  }
}
