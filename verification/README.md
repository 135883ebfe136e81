# hypr_some_events: workspace annotation, change suppression and argument classification

`hypr_some_events` is a small adapter between the Hyprland window manager and
a status-bar widget. It listens to Hyprland's event stream and prints JSON
lines to standard output:

- in `workspace` mode, the list of workspaces (`hyprctl -j workspaces`) with
  each workspace annotated with `num` (a copy of its `id`) and `focused`
  (whether it is the active workspace), printed again when an event means
  the display may have changed;
- in `submap` mode, `{"name": ...}` for each submap change.

This project models the logic of that program in Dafny and proves what it
promises:

- `json.dfy` (`Json`): the JSON values the program works on. Objects are maps
  from keys to values. A number is either an integer or a floating-point value,
  and `AsI64` tells whether it is representable as an `i64`, as
  `serde_json::Number::as_i64` does.
- `workspaces.dfy` (`Workspaces`): `get_workspaces_list` and
  `display_workspaces_maybe`. It has the per-element annotation `Annotate`, the
  specification `WorkspacesList` of the whole list, the loop `GetWorkspacesList`
  that annotates the list one element at a time, and the decision
  `DisplayWorkspacesMaybe`, which says whether a snapshot is printed and which
  id is returned.
- `handlers.dfy` (`Handlers`): `subscribe_to_workspace` and the submap
  handler. The five workspace handlers share one cell holding the last active
  id. `WorkspaceSubscription` is that cell, together with the log of printed
  snapshots. `Handle` is one handler invocation, selected by an `EventKind`.
  `Step` and `Run` are the same behaviour as pure functions of the cell and a
  sequence of events. The lemmas about `Run` state what holds after any
  sequence of events.
- `cli.dfy` (`Cli`): `Config::build`. It skips the program name, drops `--`
  options and classifies the first positional argument.
- `wrappers.dfy` (`Wrappers`): `Option` and `Result`.

The workspace list and the active workspace id come from `hyprctl` and from
the Hyprland library. Here they are parameters: an `Observation` carries the
event kind together with the active id (`None` when the lookup fails) and the
fetched list. A "printed" line is the JSON value that would be serialised.

The program never suppresses an empty list, because the serialised text of a
JSON value is never empty. Elements whose `id` is not an `i64` stay in the
list unannotated.

## Model

| member | source | states |
|---|---|---|
| `Json.AsI64` | src/main.rs:38 | a number yields an integer exactly when it is an integer within the `i64` bounds, and then that integer |
| `Workspaces.I64Id` | src/main.rs:32-38 | an element has an id exactly when it is an object whose `id` key holds a number representable as `i64` |
| `Workspaces.Annotate` | src/main.rs:32-51 | an element with an `i64` id gets `num` equal to the id (overwriting any old `num`) and `focused` true exactly when the id is the active id; it gains no key other than those two and every other key keeps its value; any other element (non-object, missing, non-numeric or out-of-range `id`) is returned unchanged |
| `Workspaces.WorkspacesList` | src/main.rs:23-61 | an array keeps its length and order and its element i is the annotated element i of the input (no sorting, no filtering); a value that is not an array is returned unchanged |
| `Workspaces.GetWorkspacesList` | src/main.rs:23-61 | the in-place loop over the array produces exactly `WorkspacesList`; the error line is written exactly when the fetched value is not an array |
| `Workspaces.DisplayWorkspacesMaybe` | src/main.rs:75-111 | with an active id found, a snapshot is printed iff there is no previous id or it differs, and the active id is returned; with none found, a snapshot is always printed and 0 is returned; any printed snapshot is the list annotated against the returned id |
| `Workspaces.AnnotateIdempotent` | src/main.rs:40-50 | annotating an annotated element again against the same active id changes nothing |
| `Workspaces.AnnotateLastWins` | src/main.rs:40-50 | annotating against `a` and then against `b` is the same as annotating against `b` only, because `num` and `focused` are overwritten |
| `Workspaces.WorkspacesListIdempotent` | src/main.rs:28-55 | annotating the whole list twice against the same id gives the list annotated once |
| `Workspaces.WorkspacesListKeepsIds` | src/main.rs:28-55 | element i of the result has the same `id` entry as element i of the input, whatever that entry holds (or lacks), and so the same `i64` id |
| `Workspaces.FocusedIffActive` | src/main.rs:45-50 | in the result, an element with an `i64` id has `focused` equal to `true` when its id equals the active id and `false` otherwise |
| `Handlers.PreviousFor` | src/main.rs:129-152 | the active-window handler passes the stored id; the workspace changed, added, moved and destroyed handlers pass `None` |
| `Handlers.Step` | src/main.rs:128-152 | a handler invocation stores `Some` of the id it got back (the active id, or 0); it prints nothing only for an active-window event whose active id is found and equals the stored id; otherwise it prints the list annotated against the id it now stores |
| `Handlers.Run` | src/main.rs:113-157 | handling a sequence of events prints at most one snapshot per event; an empty sequence leaves the cell unchanged |
| `Handlers.RunStoresLastReturn` | src/main.rs:129-152 | after any non-empty sequence of events the cell holds the id the last handler returned |
| `Handlers.RunPrintsEveryStructural` | src/main.rs:134-152 | at least one snapshot is printed for every structural event, whatever the cell holds |
| `Handlers.SameActiveWindowIsSilent` | src/main.rs:129-132 | after an event whose active id was found, an active-window event that sees the same active id prints nothing |
| `Handlers.WorkspaceSubscription.constructor` | src/main.rs:114-118 | the first display, with no previous id, always prints the annotated list, and the cell starts as `Some` of the returned id |
| `Handlers.WorkspaceSubscription.Handle` | src/main.rs:128-152 | one handler invocation sets the cell to the id `Step` stores and appends exactly the snapshot `Step` prints; the cell stays `Some` |
| `Handlers.SubmapName` | src/main.rs:169-172 | the printed name is never empty: `"default"` for an empty value, otherwise the value itself |
| `Handlers.SubmapOutput` | src/main.rs:166-179 | the submap output is an object whose only key is `name`, holding the normalised name |
| `Cli.Positionals` | src/lib.rs:16-24 | no longer than its input; an argument is kept iff it does not start with `--` |
| `Cli.PositionalsAppend` | src/lib.rs:18-24 | filtering distributes over concatenation, so positional arguments keep their original order |
| `Cli.Classify` | src/lib.rs:28-39 | `Workspace` iff there is no positional or it is exactly `"workspace"`; `Submap` iff it is exactly `"submap"`; `Invalid` iff it is anything else |
| `Cli.Build` | src/lib.rs:12-44 | the loop pushes the non-option arguments after the program name, and the result is always `Ok` with the event the first of them selects (the `Err` branch is never taken) |
| `Cli.ProgramNameIgnored` | src/lib.rs:13-14 | the first argument is discarded whatever it is |
| `Cli.OptionIgnored` | src/lib.rs:19-20 | inserting an argument that starts with `--` anywhere after the program name never changes the event |
| `Cli.LaterArgumentsIgnored` | src/lib.rs:26-39 | once there is a first positional argument, appending further arguments never changes the event |
| `Cli.NoPositionalIsWorkspace` | src/lib.rs:38 | a command line with no argument other than options selects `Workspace` |
| `Cli.OnlyOptionsNoPositionals` | src/lib.rs:18-24 | a list made only of options leaves no positional argument |

## Left out

- `exec_hyprctl_command` (src/main.rs:11-21) spawns `hyprctl` and parses its output, panicking on failure. The fetched JSON value is a parameter instead.
- `get_active_workspace_id` (src/main.rs:63-72) calls the Hyprland library. Its result is an `Option<int>` parameter, `None` when the lookup fails.
- The event listener (`EventListener`, handler registration, `start_listener`) is not modelled. Events reach the model as a sequence of `Observation`s.
- The `Arc<Mutex<...>>` sharing of the cell is left out. The model has one cell, updated by one handler at a time in delivery order.
- Serialisation by `serde_json` and the `println!`/`eprintln!` output are left out. A printed line is the JSON value itself. The diagnostics "Still same workspace" and "could not get active workspace" are not modelled; the "not a JSON array" diagnostic is the boolean `reportedError`.
- The `!result.is_empty()` checks are always true, because serialised JSON is never empty. The model always prints in those branches.
- `run` and `main` (src/main.rs:188-209) are process I/O. They are not modelled beyond `Cli.Build` never failing.
- Integer widths: ids are unbounded integers. The active id is an `i32` widened losslessly to `i64`, so no wrap-around can occur.
- Floating-point numbers: a floating-point value is kept only as opaque text. `as_i64` never yields an integer from it.
- The subscription of the submap handler to events is not modelled. `SubmapOutput` is what one submap event prints.
