/**
 * The window: the container table, the status bar, the search box, and
 * what the buttons do to them. Everything the program does outside the
 * window (commands run through the shell, a terminal launched, a warning,
 * question or text dialog shown, a text window opened) is recorded, in
 * order, in `log`.
 * What the user selects and answers, and how each command ends, are inputs.
 */
module App {
  import opened Wrappers
  import opened PyStr
  import opened Shell
  import opened Inventory
  import opened Actions

  /** Something the program does outside the main window. */
  datatype Effect =
    | Run(command: string)                      // run through the shell, waiting for its output
    | Launch(command: string)                   // started through the shell, not waited for
    | Warning(title: string, message: string)   // a warning box
    | Question(title: string, message: string)  // a yes/no box
    | Prompt(title: string, message: string)    // a box asking for a line of text
    | Window(title: string, text: string)       // a new window showing text

  /** The status line after every refresh. */
  const Refreshed: string := "Refreshed containers."

  /** The warning shown when an action needs a container and none is selected. */
  const NoSelection: Effect := Warning("No Selection", "Please select a container.")

  /** The dialog Create New shows to ask for an image name. */
  const ImagePrompt: Effect := Prompt("Run Container", "Enter image name (e.g. ubuntu):")

  /** The question shown before a container is removed. */
  function ConfirmRemoval(id: string): Effect {
    Question("Confirm", RemoveQuestion(id))
  }

  /** Appending effects one at a time is appending them together. */
  lemma AppendTwo(l: seq<Effect>, a: Effect, b: Effect)
    ensures l + [a] + [b] == l + [a, b]
  {
  }

  lemma AppendThree(l: seq<Effect>, a: Effect, b: Effect, c: Effect)
    ensures l + [a] + [b] + [c] == l + [a, b, c]
  {
  }

  /** What asking for the selection shows: the warning when nothing is selected. */
  function SelectionWarning(selection: seq<nat>): seq<Effect> {
    if selection == [] then [NoSelection] else []
  }

  /** The id of the first selected row, if any row is selected. */
  function Chosen(rows: seq<Row>, selection: seq<nat>): Option<string>
    requires selection != [] ==> selection[0] < |rows|
  {
    if selection == [] then None else Some(rows[selection[0]].id)
  }

  /** An id the handlers act on: present and, as Python tests it, not the empty string. */
  predicate Acts(id: Option<string>) {
    id.Some? && id.value != []
  }

  class Manager {
    /** The rows of the container table, top to bottom. */
    var rows: seq<Row>
    /** The text of the status bar. */
    var status: string
    /** The text of the search box. */
    var search: string
    /** Everything done outside the window so far. */
    var log: seq<Effect>

    /** The window opens with an empty search and loads the table once. */
    constructor (listing: RunResult)
      ensures rows == TableRows(Output(listing), [])
      ensures status == Refreshed && search == [] && log == [Run(ListCommand)]
    {
      rows := [];
      status := [];
      search := [];
      log := [];
      new;
      Refresh([], listing);
    }

    /**
     * Runs the list command, empties the table, then appends, line by line,
     * the row of every line that parses and matches the filter. Nothing of
     * the old table is left.
     */
    method Refresh(filter: string, listing: RunResult)
      modifies this
      ensures rows == TableRows(Output(listing), filter)
      ensures status == Refreshed && search == old(search)
      ensures log == old(log) + [Run(ListCommand)]
    {
      log := log + [Run(ListCommand)];
      var output := Output(listing);
      rows := [];
      var lines := SplitSep(Strip(output), '\n');
      var i := 0;
      while i < |lines|
        invariant 0 <= i <= |lines|
        invariant rows == Select(lines[..i], filter)
        invariant search == old(search) && log == old(log) + [Run(ListCommand)]
      {
        match ParseLine(lines[i]) {
          case Some(row) =>
            if Matches(row, filter) {
              rows := rows + [row];
            }
          case None =>
        }
        SelectStep(lines, i, filter);
        i := i + 1;
      }
      assert lines[..i] == lines;
      status := Refreshed;
    }

    /** The user types in the search box. */
    method EditSearch(text: string)
      modifies this
      ensures search == text
      ensures rows == old(rows) && status == old(status) && log == old(log)
    {
      search := text;
    }

    /** The Filter and Refresh buttons: refresh with the text of the search box. */
    method Filter(listing: RunResult)
      modifies this
      ensures rows == TableRows(Output(listing), old(search))
      ensures status == Refreshed && search == old(search)
      ensures log == old(log) + [Run(ListCommand)]
    {
      Refresh(search, listing);
    }

    /** The Clear button: empty the search box, then refresh without a filter. */
    method ClearFilter(listing: RunResult)
      modifies this
      ensures rows == TableRows(Output(listing), [])
      ensures status == Refreshed && search == []
      ensures log == old(log) + [Run(ListCommand)]
    {
      search := [];
      Refresh([], listing);
    }

    /**
     * The id of the first selected row; with nothing selected, a warning
     * and no id.
     */
    method SelectedContainer(selection: seq<nat>) returns (id: Option<string>)
      requires selection != [] ==> selection[0] < |rows|
      modifies this
      ensures rows == old(rows) && status == old(status) && search == old(search)
      ensures id == Chosen(rows, selection)
      ensures log == old(log) + SelectionWarning(selection)
    {
      if selection == [] {
        log := log + [NoSelection];
        return None;
      }
      id := Some(rows[selection[0]].id);
    }

    /**
     * Start, Stop and Restart: send `docker <verb> <id>` for the selected
     * container, put the result in the status bar, then refresh with the
     * search box's text, whose status line replaces the result.
     */
    method ActOnContainer(verb: string, selection: seq<nat>, result: RunResult, listing: RunResult)
      requires selection != [] ==> selection[0] < |rows|
      modifies this
      ensures var id := Chosen(old(rows), selection);
        rows == (if Acts(id) then TableRows(Output(listing), old(search)) else old(rows))
      ensures var id := Chosen(old(rows), selection);
        status == (if Acts(id) then Refreshed else old(status))
      ensures var id := Chosen(old(rows), selection);
        log == old(log) + (if Acts(id) then [Run(DockerCommand(verb, id.value)), Run(ListCommand)] else SelectionWarning(selection))
      ensures search == old(search)
    {
      var container := SelectedContainer(selection);
      if Acts(container) {
        Act(verb, container.value, result, listing);
      }
    }

    /** The part of ActOnContainer after a container is chosen. */
    method Act(verb: string, id: string, result: RunResult, listing: RunResult)
      modifies this
      ensures rows == TableRows(Output(listing), old(search)) && status == Refreshed && search == old(search)
      ensures log == old(log) + [Run(DockerCommand(verb, id)), Run(ListCommand)]
    {
      AppendTwo(log, Run(DockerCommand(verb, id)), Run(ListCommand));
      log := log + [Run(DockerCommand(verb, id))];
      var output := Output(result);
      status := ActionStatus(verb, id, output);
      Refresh(search, listing);
    }

    /**
     * Start, Stop and Restart with the status bar showing what the command
     * said: the same commands, with the status line set after the refresh.
     */
    method ActOnContainerReported(verb: string, selection: seq<nat>, result: RunResult, listing: RunResult)
      requires selection != [] ==> selection[0] < |rows|
      modifies this
      ensures var id := Chosen(old(rows), selection);
        rows == (if Acts(id) then TableRows(Output(listing), old(search)) else old(rows))
      ensures var id := Chosen(old(rows), selection);
        status == (if Acts(id) then ActionStatus(verb, id.value, Output(result)) else old(status))
      ensures var id := Chosen(old(rows), selection);
        log == old(log) + (if Acts(id) then [Run(DockerCommand(verb, id.value)), Run(ListCommand)] else SelectionWarning(selection))
      ensures search == old(search)
    {
      var container := SelectedContainer(selection);
      if Acts(container) {
        ActReported(verb, container.value, result, listing);
      }
    }

    /** The part of ActOnContainerReported after a container is chosen. */
    method ActReported(verb: string, id: string, result: RunResult, listing: RunResult)
      modifies this
      ensures rows == TableRows(Output(listing), old(search)) && search == old(search)
      ensures status == ActionStatus(verb, id, Output(result))
      ensures log == old(log) + [Run(DockerCommand(verb, id)), Run(ListCommand)]
    {
      AppendTwo(log, Run(DockerCommand(verb, id)), Run(ListCommand));
      log := log + [Run(DockerCommand(verb, id))];
      var output := Output(result);
      Refresh(search, listing);
      status := ActionStatus(verb, id, output);
    }

    /**
     * Remove: ask for confirmation about the selected container; when the
     * answer is yes, send `docker rm <id>`, put its stripped output in the
     * status bar, then refresh, whose status line replaces it.
     */
    method RemoveContainer(selection: seq<nat>, confirmed: bool, result: RunResult, listing: RunResult)
      requires selection != [] ==> selection[0] < |rows|
      modifies this
      ensures var id := Chosen(old(rows), selection);
        rows == (if Acts(id) && confirmed then TableRows(Output(listing), old(search)) else old(rows))
      ensures var id := Chosen(old(rows), selection);
        status == (if Acts(id) && confirmed then Refreshed else old(status))
      ensures var id := Chosen(old(rows), selection);
        log == old(log) + (if !Acts(id) then SelectionWarning(selection)
          else if !confirmed then [ConfirmRemoval(id.value)]
          else [ConfirmRemoval(id.value), Run(DockerCommand("rm", id.value)), Run(ListCommand)])
      ensures search == old(search)
    {
      var container := SelectedContainer(selection);
      if Acts(container) {
        Remove(container.value, confirmed, result, listing);
      }
    }

    /** The part of RemoveContainer after a container is chosen. */
    method Remove(id: string, confirmed: bool, result: RunResult, listing: RunResult)
      modifies this
      ensures rows == (if confirmed then TableRows(Output(listing), old(search)) else old(rows))
      ensures status == (if confirmed then Refreshed else old(status))
      ensures log == old(log) + (if confirmed then [ConfirmRemoval(id), Run(DockerCommand("rm", id)), Run(ListCommand)] else [ConfirmRemoval(id)])
      ensures search == old(search)
    {
      AppendThree(log, ConfirmRemoval(id), Run(DockerCommand("rm", id)), Run(ListCommand));
      log := log + [ConfirmRemoval(id)];
      if confirmed {
        log := log + [Run(DockerCommand("rm", id))];
        status := Reply(result);
        Refresh(search, listing);
      }
    }

    /** Remove with the status bar showing what `docker rm` said: the status line is set after the refresh. */
    method RemoveContainerReported(selection: seq<nat>, confirmed: bool, result: RunResult, listing: RunResult)
      requires selection != [] ==> selection[0] < |rows|
      modifies this
      ensures var id := Chosen(old(rows), selection);
        rows == (if Acts(id) && confirmed then TableRows(Output(listing), old(search)) else old(rows))
      ensures var id := Chosen(old(rows), selection);
        status == (if Acts(id) && confirmed then Reply(result) else old(status))
      ensures var id := Chosen(old(rows), selection);
        log == old(log) + (if !Acts(id) then SelectionWarning(selection)
          else if !confirmed then [ConfirmRemoval(id.value)]
          else [ConfirmRemoval(id.value), Run(DockerCommand("rm", id.value)), Run(ListCommand)])
      ensures search == old(search)
    {
      var container := SelectedContainer(selection);
      if Acts(container) {
        RemoveReported(container.value, confirmed, result, listing);
      }
    }

    /** The part of RemoveContainerReported after a container is chosen. */
    method RemoveReported(id: string, confirmed: bool, result: RunResult, listing: RunResult)
      modifies this
      ensures rows == (if confirmed then TableRows(Output(listing), old(search)) else old(rows))
      ensures status == (if confirmed then Reply(result) else old(status))
      ensures log == old(log) + (if confirmed then [ConfirmRemoval(id), Run(DockerCommand("rm", id)), Run(ListCommand)] else [ConfirmRemoval(id)])
      ensures search == old(search)
    {
      AppendThree(log, ConfirmRemoval(id), Run(DockerCommand("rm", id)), Run(ListCommand));
      log := log + [ConfirmRemoval(id)];
      if confirmed {
        log := log + [Run(DockerCommand("rm", id))];
        var reply := Reply(result);
        Refresh(search, listing);
        status := reply;
      }
    }

    /** View Logs: `docker logs <id>` in a window titled "Logs - <id>". */
    method ViewLogs(selection: seq<nat>, result: RunResult)
      requires selection != [] ==> selection[0] < |rows|
      modifies this
      ensures rows == old(rows) && status == old(status) && search == old(search)
      ensures var id := Chosen(old(rows), selection);
        log == old(log) + (if Acts(id) then [Run(DockerCommand("logs", id.value)), Window("Logs - " + id.value, Output(result))]
          else SelectionWarning(selection))
    {
      var container := SelectedContainer(selection);
      if Acts(container) {
        var text := Output(result);
        log := log + [Run(DockerCommand("logs", container.value)), Window("Logs - " + container.value, text)];
      }
    }

    /** Inspect: `docker inspect <id>` in a window titled "Inspect - <id>". */
    method InspectContainer(selection: seq<nat>, result: RunResult)
      requires selection != [] ==> selection[0] < |rows|
      modifies this
      ensures rows == old(rows) && status == old(status) && search == old(search)
      ensures var id := Chosen(old(rows), selection);
        log == old(log) + (if Acts(id) then [Run(DockerCommand("inspect", id.value)), Window("Inspect - " + id.value, Output(result))]
          else SelectionWarning(selection))
    {
      var container := SelectedContainer(selection);
      if Acts(container) {
        var text := Output(result);
        log := log + [Run(DockerCommand("inspect", container.value)), Window("Inspect - " + container.value, text)];
      }
    }

    /**
     * Create New: asks for an image name, `answer` being what was typed
     * (None when the dialog was cancelled); a non-empty name starts
     * `docker run -it <image>` in a new terminal and says so in the status
     * bar. The table is not refreshed.
     */
    method CreateContainer(answer: Option<string>)
      modifies this
      ensures rows == old(rows) && search == old(search)
      ensures status == (if Acts(answer) then LaunchStatus(answer.value) else old(status))
      ensures log == old(log) + [ImagePrompt] + (if Acts(answer) then [Launch(TerminalCommand(answer.value))] else [])
    {
      log := log + [ImagePrompt];
      if Acts(answer) {
        var image := answer.value;
        log := log + [Launch(TerminalCommand(image))];
        status := LaunchStatus(image);
      }
    }

    /**
     * A refresh that does not read a failed list command's error text as a
     * listing: the table is emptied and the status bar shows the error.
     */
    method RefreshChecked(filter: string, listing: RunResult)
      modifies this
      ensures rows == (if listing.Failed? then [] else TableRows(listing.stdout, filter))
      ensures status == (if listing.Failed? then Reply(listing) else Refreshed)
      ensures search == old(search) && log == old(log) + [Run(ListCommand)]
    {
      if listing.Failed? {
        log := log + [Run(ListCommand)];
        rows := [];
        status := Reply(listing);
      } else {
        Refresh(filter, listing);
      }
    }
  }

  /**
   * A failed list command whose output holds two words or more reads as a
   * listing: its error text "Error: <word> <rest>" becomes a table row.
   */
  lemma ErrorListed(word: string, rest: string)
    requires Printable(Row("Error:", word, rest))
    ensures TableRows(Output(Failed(word + " " + rest)), []) == [Row("Error:", word, rest)]
  {
    var row := Row("Error:", word, rest);
    var o := word + " " + rest;
    assert o[0] == word[0] && o[|o| - 1] == rest[|rest| - 1];
    StripTrimmed(o);
    assert Output(Failed(o)) == ErrorPrefix + o;
    assert ErrorPrefix + o == Format(row);
    assert Listing([row]) == Format(row);
    TableOfListing([row]);
  }

  /**
   * The status line the refresh leaves behind is never the one an action
   * reported: not the error of a failed command, and not the "command
   * sent" line of a silent start, stop or restart.
   */
  lemma ReportLost(verb: string, id: string, result: RunResult)
    requires result.Failed? || (IsStateVerb(verb) && AllSpace(result.stdout))
    ensures ActionStatus(verb, id, Output(result)) != Refreshed
  {
    if result.Failed? {
      ErrorNotRefreshed(verb, id, result.output);
    } else {
      SilentNotRefreshed(verb, id, result.stdout);
    }
  }

  /** The error of a failed command starts with "E", the refresh line with "R". */
  lemma ErrorNotRefreshed(verb: string, id: string, output: string)
    ensures ActionStatus(verb, id, Output(Failed(output))) != Refreshed
  {
    ActionStatusFailed(verb, id, output);
    assert ActionStatus(verb, id, Output(Failed(output)))[0] == 'E';
    assert Refreshed[0] == 'R';
  }

  /** "Start", "Stop" and "Restart" differ from "Refreshed" in their third letter. */
  lemma SilentNotRefreshed(verb: string, id: string, stdout: string)
    requires IsStateVerb(verb) && AllSpace(stdout)
    ensures ActionStatus(verb, id, Output(Completed(stdout))) != Refreshed
  {
    ActionStatusSilent(verb, id, stdout);
    assert ActionStatus(verb, id, Output(Completed(stdout)))[2] == verb[2];
    assert Refreshed[2] == 'f';
  }

  /**
   * The status the refresh leaves after a removal is never what `docker rm`
   * reported: not its error, and not a one-word reply such as the id it
   * prints on success.
   */
  lemma RemoveReplyLost(result: RunResult)
    requires result.Failed? || NoSpace(Reply(result))
    ensures Reply(result) != Refreshed
  {
    assert IsSpace(Refreshed[9]);
    if result.Failed? {
      FailedOutput(result.output);
      assert Reply(result)[0] == 'E';
    }
  }
}
