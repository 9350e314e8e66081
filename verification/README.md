# Docker Manager UI: a Dafny model of its container list and actions

`docker_gui.py` is a small tkinter front end for the `docker` command line.
It shows a table of containers (ID, Name, Status). The table is filled from
`docker ps -a --format '{{.ID}} {{.Names}} {{.Status}}'` and can be narrowed
by a search term. Buttons start, stop, restart, remove, view the logs of, or
inspect the selected container, or run a new container from an image in a
terminal. A status bar at the bottom shows one line of text.

This project models the parts of the script that make decisions:

- how the listing text becomes table rows and how the search filter keeps
  or drops them;
- the text a command gives back, including the "Error: ..." string of a
  failed command;
- the status line after an action;
- the gates on every action: a selected container, a confirmed removal, a
  non-empty image name;
- the command strings sent to docker and to the terminal.

Modules, one per file:

- `wrappers.dfy`, `Wrappers`: `Option`.
- `pystr.dfy`, `PyStr`: the Python `str` operations the script relies on.
  These are `strip()`, `split()` with and without `maxsplit`,
  `split('\n')`, `lower()`, `title()` and `in`. Whitespace is Python's
  whitespace set. `lower` and `title` act on ASCII letters only.
- `inventory.dfy`, `Inventory`: one listing line to a row, the filter, and
  the rows a refresh shows (`TableRows`).
- `shell.dfy`, `Shell`: the result of running a command, and the text
  `run_command` returns for it.
- `actions.dfy`, `Actions`: the command strings and the status-line rule.
- `app.dfy`, `App`: class `Manager`. It holds the window's state: the table
  rows, the status bar, the search box, and a log of everything done
  outside the window (commands run or launched, warnings, questions, the
  image-name dialog, text windows). Its methods are the buttons. `Refresh` clears the table and
  appends rows in a loop, proved equal to `TableRows`.

A command's result, the selection, the answer to the yes/no question and the
answer to the image dialog are all inputs.

## Model

| member | source | states |
|---|---|---|
| PyStr.Strip | docker_gui.py:21-22 | `str.strip()` leaves no whitespace at either end |
| PyStr.StripEmpty | docker_gui.py:21-22 | `str.strip()` gives the empty string exactly when the text is all whitespace |
| PyStr.StripSlice | docker_gui.py:21-22 | `str.strip()` keeps a slice of the text and removes only whitespace, only from the two ends |
| PyStr.StripPadded | docker_gui.py:22 | stripping removes exactly the whitespace around a trimmed text |
| PyStr.StripTrimmed | docker_gui.py:22 | stripping a trimmed text changes nothing |
| PyStr.SplitSep | docker_gui.py:21 | `split('\n')` gives at least one piece and no piece holds the separator |
| PyStr.SplitJoinSep | docker_gui.py:21 | splitting lines joined by '\n' gives back those lines: at least one, even for empty text |
| PyStr.Split | docker_gui.py:22 | `split(maxsplit=n)` gives at most n+1 fields, and none exactly when the text is all whitespace |
| PyStr.SplitCount | docker_gui.py:22 | a split limited to n cuts gives min(n+1, number of words) fields |
| PyStr.SplitFields | docker_gui.py:22 | the text is whitespace, the first field, non-empty whitespace, the next field, ..., the last field, whitespace: fields in order, all but the last single words, the last the untouched rest once the limit is reached (nothing after it then), nothing before the first field when the text starts with a non-space |
| PyStr.SplitColumns | docker_gui.py:22 | word, space, word, space, rest splits with `maxsplit=2` into exactly those three columns, keeping the spaces inside the rest |
| PyStr.Title | docker_gui.py:42 | `str.title()` keeps the length; on the verbs it meets, see TitleOfLowerWord |
| PyStr.Lower | docker_gui.py:24 | `lower()` keeps the length and leaves no upper-case ASCII letter |
| PyStr.LowerTwice | docker_gui.py:24 | lower-casing is idempotent |
| PyStr.TitleOfLowerWord | docker_gui.py:42 | `title()` of a lower-case word capitalises the first letter and keeps the rest |
| PyStr.ContainsEmpty | docker_gui.py:24 | the empty string is `in` every string |
| PyStr.ContainsSelf | docker_gui.py:24 | every string is `in` itself |
| PyStr.ContainsShorter | docker_gui.py:24 | a needle longer than the haystack is not `in` it |
| Inventory.ParseLine | docker_gui.py:22-24 | one line to a row, or none; its properties are stated by ParseLineSpec, ParseFormat, ParsePadded and ParseTwoWords |
| Inventory.ParseLineSpec | docker_gui.py:22-25 | a line gives a row iff its stripped text has at least three words; the row is well formed, and the stripped line is exactly id, a non-empty run of whitespace, name, a non-empty run of whitespace, status, so the status is the rest of the line with its inner spaces kept |
| Inventory.SplitFormat | docker_gui.py:18-22 | a row printed in the list command's format splits back into id, name, status |
| Inventory.ParseFormat | docker_gui.py:18-25 | a well-formed row printed by the list command parses back to itself |
| Inventory.ParsePadded | docker_gui.py:22 | whitespace around a line does not change its row |
| Inventory.ParseTwoWords | docker_gui.py:22-25 | a line of two words gives no row |
| Inventory.ParseIdAndNameOnly | docker_gui.py:22-25 | the line "abc123 onlyname" gives no row |
| Inventory.Matches | docker_gui.py:24 | the search rule: the lower-cased filter occurs in the lower-cased name or status; stated by EmptyFilterMatches, MatchesIgnoresCase, IdNeverMatched and FilterWeb |
| Inventory.EmptyFilterMatches | docker_gui.py:24 | the empty search term matches every row |
| Inventory.MatchesIgnoresCase | docker_gui.py:24 | a search term and its lower-cased form match the same rows |
| Inventory.IdNeverMatched | docker_gui.py:24 | the id column is not searched: changing a row's id never changes whether it matches |
| Inventory.FilterWeb | docker_gui.py:24 | "web" keeps a row by its name or by its status, and drops a row with name "db" and status "Exited" |
| Inventory.LineRows | docker_gui.py:22-25 | one line adds at most one row |
| Inventory.LineRowsMember | docker_gui.py:22-25 | a line adds a row iff it parses to that row and the row matches the filter |
| Inventory.LineRowsSound | docker_gui.py:22-25 | what a line adds is well formed and matches the filter |
| Inventory.Select | docker_gui.py:21-25 | the rows a run of lines gives, in line order; stated by SelectStep, SelectMember, SelectSound, SelectAppend and EmptyFilterKeepsAll |
| Inventory.SelectStep | docker_gui.py:21-25 | each further line appends its rows after the rows of the lines before it |
| Inventory.SelectMember | docker_gui.py:21-25 | a row is in the table iff some line yields it |
| Inventory.SelectSound | docker_gui.py:21-25 | every row kept is well formed and matches the filter |
| Inventory.SelectAppend | docker_gui.py:21-25 | rows keep the order of their lines: the rows of two runs of lines are the rows of each, concatenated |
| Inventory.EmptyFilterKeepsAll | docker_gui.py:24-25 | with the empty filter, lines that all parse give one row per line, in order |
| Inventory.TableRows | docker_gui.py:21-25 | the table for the list command's output; stated by TableRowsBlank, TableRowsSound and TableOfListing, and computed by App.Manager.Refresh |
| Inventory.TableRowsBlank | docker_gui.py:21-25 | empty or whitespace-only listing output gives an empty table |
| Inventory.TableRowsSound | docker_gui.py:21-25 | every row the table shows is well formed and matches the filter |
| Inventory.TableOfListing | docker_gui.py:18-25 | listing any non-empty sequence of single-line rows and refreshing with no filter shows exactly those rows |
| Shell.Output | docker_gui.py:6-14 | what `run_command` returns: the output of a command that succeeded, unchanged, or "Error: " and the stripped output of one that failed; stated by FailedOutput and ActionStatusEcho |
| Shell.Reply | docker_gui.py:50 | the stripped text a command gives back, as the status bar shows it; stated by FailedOutput and RemoveReplyLost |
| Shell.FailedOutput | docker_gui.py:12-14 | a failed command reads back, stripped, as "Error: " plus its stripped output, or "Error:" alone; never blank |
| Actions.DockerCommand | docker_gui.py:41 | `docker <verb> <id>`, the command of every container action (also lines 49, 57, 80); stated by DockerCommandWords |
| Actions.RemoveQuestion | docker_gui.py:48 | the question "Remove container <id>?"; used by App.Manager.RemoveContainer |
| Actions.TerminalCommand | docker_gui.py:96 | the terminal command running `sudo docker run -it <image>`; stated by TerminalCommandInjective |
| Actions.LaunchStatus | docker_gui.py:98 | "Launching interactive container: <image>"; used by App.Manager.CreateContainer |
| Actions.ActionStatus | docker_gui.py:42 | the status line after start, stop or restart is never empty |
| Actions.ActionStatusFailed | docker_gui.py:42 | after a failed command the status line is the error text, never the "command sent" line |
| Actions.ActionStatusSilent | docker_gui.py:42 | a silent start, stop or restart is reported as "<Verb> command sent to <id>", verb capitalised |
| Actions.ActionStatusEcho | docker_gui.py:42 | a command that printed something is reported with that text, stripped |
| Actions.DockerCommandWords | docker_gui.py:41 | `docker <verb> <id>` splits into exactly the three words docker, verb and id |
| Actions.TerminalCommandInjective | docker_gui.py:96 | different image names give different terminal commands |
| App.Manager.constructor | docker_gui.py:157-158 | the window opens with an empty search box and the table of one unfiltered refresh |
| App.Manager.Refresh | docker_gui.py:17-27 | runs the list command once; the table becomes exactly `TableRows` of its output, with nothing kept from before; the status is "Refreshed containers." |
| App.Manager.EditSearch | docker_gui.py:118-120 | typing changes the search box only |
| App.Manager.Filter | docker_gui.py:121 | Filter and Refresh refresh with the text of the search box |
| App.Manager.ClearFilter | docker_gui.py:122 | Clear empties the search box, then refreshes without a filter |
| App.Manager.SelectedContainer | docker_gui.py:30-35 | gives the id of the first selected row; with nothing selected, shows the "No Selection" warning and gives no id |
| App.Manager.ActOnContainer | docker_gui.py:38-43 | as written: with a non-empty selected id, runs `docker <verb> <id>` then one refresh, and the status ends as "Refreshed containers."; otherwise changes nothing but the warning |
| App.Manager.Act | docker_gui.py:40-43 | the part of ActOnContainer after a container is chosen |
| App.Manager.ActOnContainerReported | docker_gui.py:38-43 | corrected: the same commands, and the status ends as the action's own status line |
| App.Manager.ActReported | docker_gui.py:40-43 | the part of ActOnContainerReported after a container is chosen |
| App.Manager.RemoveContainer | docker_gui.py:46-51 | as written: asks "Remove container <id>?"; a no issues no command and changes nothing; a yes runs exactly `docker rm <id>` then one refresh, and the status ends as "Refreshed containers." |
| App.Manager.Remove | docker_gui.py:48-51 | the part of RemoveContainer after a container is chosen |
| App.Manager.RemoveContainerReported | docker_gui.py:46-51 | corrected: the same commands, and the status ends as the stripped output of `docker rm` |
| App.Manager.RemoveReported | docker_gui.py:48-51 | the part of RemoveContainerReported after a container is chosen |
| App.Manager.ViewLogs | docker_gui.py:54-67 | runs `docker logs <id>` for the selected container and opens "Logs - <id>" with its text; table and status unchanged |
| App.Manager.InspectContainer | docker_gui.py:77-88 | runs `docker inspect <id>` for the selected container and opens "Inspect - <id>" with its text; table and status unchanged |
| App.Manager.CreateContainer | docker_gui.py:92-98 | always shows the "Run Container" dialog; after a cancelled or empty image name nothing else happens; otherwise launches the terminal command once and sets "Launching interactive container: <image>"; no refresh |
| App.Manager.RefreshChecked | docker_gui.py:17-27 | corrected: a failed list command empties the table and shows its error; a successful one fills the table as Refresh does |
| App.ErrorListed | docker_gui.py:14-25 | as written, a failed list command whose output is two words or more puts the row ("Error:", first word, rest) in the table |
| App.ReportLost | docker_gui.py:42-43 | the status the refresh leaves is never what a failed or silent start, stop or restart reported |
| App.ErrorNotRefreshed | docker_gui.py:42-43 | the error line of a failed command differs from "Refreshed containers." |
| App.SilentNotRefreshed | docker_gui.py:42-43 | the "command sent" line of a silent action differs from "Refreshed containers." |
| App.RemoveReplyLost | docker_gui.py:49-51 | the status the refresh leaves after a removal is never the error of `docker rm`, nor a one-word reply such as the id it prints |

## Left out

- Widget construction, styling, layout and the main loop (docker_gui.py:101-161). Only the button bindings, the search box and the initial refresh are modelled.
- Printing each command and its result to the console (docker_gui.py:7, 10, 13): output only.
- `RunResult` holds the text after Python has decoded it and turned '\r\n' and '\r' into '\n' (`text=True`, docker_gui.py:9). Output that cannot be decoded raises an exception that `run_command` does not catch, so the handler stops before it clears the table or sets the status; decoding failures are not modelled.
- Running commands (docker_gui.py:9, 97). How a command ended is an input. `Failed` carries only what the command wrote to standard output, because standard error is not captured.
- A failure of `gnome-terminal` itself is not modelled: the launch is fire-and-forget and its outcome is never read.
- The logs and inspect windows: size, fonts, scrolling, read-only state, and the Copy and Clear buttons (docker_gui.py:60-74, 83-89). A window is modelled by its title and its text.
- Treeview stores a column value that looks like an integer as an integer, so the id read back from a selected row can differ from the listed one. This is not modelled: ids are read back as listed.
- `lower()` and `title()` act on ASCII letters only. Python's full Unicode case mapping is not modelled.
- Selections name rows by position. The requires `selection[0] < |rows|` states that tkinter only selects rows that are in the table.
- Line 42 sets the status to the command's result, and line 43's refresh sets it straight away to "Refreshed containers." (line 27), so that result is never displayed; lines 50-51 do the same for removal. The model follows the code; see Findings.

## Findings

| source | as written | input that shows it | evidently intended | confidence | as-written member | corrected member |
|---|---|---|---|---|---|---|
| docker_gui.py:42-43 | the status is set to the action's result, then `refresh_containers` sets it to "Refreshed containers." before the window redraws | stop a container with stdout empty and a non-zero exit: the status shows "Refreshed containers.", not "Error:" (App.ReportLost) | the status bar shows the action's output, or its error | not executed | App.Manager.ActOnContainer | App.Manager.ActOnContainerReported |
| docker_gui.py:50-51 | the status is set to the output of `docker rm`, then overwritten the same way by the refresh | confirm removal of a container; `docker rm` prints its id: the status ends as "Refreshed containers.", not the id (App.RemoveReplyLost) | the status bar shows what `docker rm` printed, or its error | not executed | App.Manager.RemoveContainer | App.Manager.RemoveContainerReported |
| docker_gui.py:14-25 | `run_command` returns a failure as the text "Error: <output>", and `refresh_containers` parses that text as a listing | `docker ps` exits non-zero after writing "foo bar" to standard output: the table shows the row ("Error:", "foo", "bar") (App.ErrorListed) | a failed listing shows no rows | not executed; needs a failing `docker ps` that writes two or more words to standard output | App.Manager.Refresh | App.Manager.RefreshChecked |
