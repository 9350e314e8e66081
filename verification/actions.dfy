/**
 * The decisions the action buttons make: the docker command for a
 * container, the status line after start, stop or restart, and the
 * terminal command that runs a new container from an image.
 */
module Actions {
  import opened PyStr
  import opened Shell
  import opened Inventory

  /** `docker <verb> <id>`: how every container action is sent to docker. */
  function DockerCommand(verb: string, id: string): string {
    "docker " + verb + " " + id
  }

  /** The verbs of the Start, Stop and Restart buttons. */
  predicate IsStateVerb(verb: string) {
    verb == "start" || verb == "stop" || verb == "restart"
  }

  /**
   * The status line after start, stop or restart: the command's stripped
   * output when there is any, otherwise "<Verb> command sent to <id>" with
   * the verb title-cased.
   */
  function ActionStatus(verb: string, id: string, output: string): (status: string)
    ensures status != []
  {
    if Strip(output) != [] then Strip(output) else Title(verb) + " command sent to " + id
  }

  /** The question asked before a container is removed. */
  function RemoveQuestion(id: string): string {
    "Remove container " + id + "?"
  }

  /** What the Create New button runs: `docker run -it <image>` in a new terminal that stays open. */
  function TerminalCommand(image: string): string {
    "gnome-terminal -- bash -c \"sudo docker run -it " + image + "; exec bash\""
  }

  /** The status line while a new container starts. */
  function LaunchStatus(image: string): string {
    "Launching interactive container: " + image
  }

  /**
   * For a container id the table can hold, the action command splits into
   * exactly three words: docker, the verb and the id. Python's `split()`
   * stands in here for the shell's word splitting, and the command has the
   * layout of a printed table row, so the proof reuses `SplitFormat`.
   */
  lemma DockerCommandWords(verb: string, id: string)
    requires verb != [] && NoSpace(verb) && id != [] && NoSpace(id)
    ensures Split(DockerCommand(verb, id), 2) == ["docker", verb, id]
    ensures |Split(DockerCommand(verb, id), -1)| >= 3
  {
    var row := Row("docker", verb, id);
    assert NoSpace("docker");
    assert Format(row) == DockerCommand(verb, id);
    SplitFormat(row);
    SplitCount(DockerCommand(verb, id), 2);
  }

  /** A command that failed always shows its error, never the "command sent" line. */
  lemma ActionStatusFailed(verb: string, id: string, output: string)
    ensures ActionStatus(verb, id, Output(Failed(output))) == Reply(Failed(output))
    ensures ActionStatus(verb, id, Output(Failed(output))) == if AllSpace(output) then "Error:" else ErrorPrefix + Strip(output)
  {
    FailedOutput(output);
  }

  /**
   * A command that succeeded silently is reported with the verb
   * capitalised: "Start command sent to <id>", "Stop ...", "Restart ...".
   */
  lemma ActionStatusSilent(verb: string, id: string, stdout: string)
    requires IsStateVerb(verb) && AllSpace(stdout)
    ensures ActionStatus(verb, id, Output(Completed(stdout))) == [UpperChar(verb[0])] + verb[1..] + " command sent to " + id
    ensures 'A' <= ActionStatus(verb, id, Output(Completed(stdout)))[0] <= 'Z'
  {
    assert LowerWord(verb);
    TitleOfLowerWord(verb);
  }

  /** A command that succeeded and printed something is reported with that text, stripped. */
  lemma ActionStatusEcho(verb: string, id: string, stdout: string)
    requires !AllSpace(stdout)
    ensures ActionStatus(verb, id, Output(Completed(stdout))) == Strip(stdout)
  {
    StripEmpty(stdout);
  }

  /** Different images give different terminal commands: the image is passed through unchanged. */
  lemma TerminalCommandInjective(a: string, b: string)
    requires TerminalCommand(a) == TerminalCommand(b)
    ensures a == b
  {
    var p := "gnome-terminal -- bash -c \"sudo docker run -it ";
    assert |a| == |b|;
    assert a == TerminalCommand(a)[|p|..|p| + |a|];
    assert b == TerminalCommand(b)[|p|..|p| + |b|];
  }
}
