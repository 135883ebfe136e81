/**
 The event handlers of the program: the workspace subscription, which keeps
 the id of the last active workspace in one shared cell and prints a new
 snapshot when the handler's rule says so, and the submap handler, which
 prints the name of the new submap.

 The Hyprland event listener is not modelled: an event arrives here as an
 `Observation`, carrying the kind of event together with what the handler
 would fetch when it runs (the active workspace id and the workspace list).
 */
module Handlers {
  import opened Wrappers
  import opened Json
  import opened Workspaces

  /** The events the workspace subscription registers a handler for. */
  datatype EventKind =
    | ActiveWindowChanged
    | WorkspaceChanged
    | WorkspaceAdded
    | WorkspaceMoved
    | WorkspaceDestroyed

  /** One delivered event, with the active id and the workspace list seen while handling it. */
  datatype Observation = Observation(kind: EventKind, active: Option<int>, workspaces: Value)

  /**
   The previous id a handler passes to `display_workspaces_maybe`: the
   active-window handler passes the stored id, the four structural handlers
   pass `None`.
   */
  function PreviousFor(kind: EventKind, stored: Option<int>): (p: Option<int>)
    ensures kind.ActiveWindowChanged? ==> p == stored
    ensures !kind.ActiveWindowChanged? ==> p.None?
  {
    if kind.ActiveWindowChanged? then stored else None
  }

  /** What one handler invocation prints and the id it leaves in the shared cell. */
  datatype Reaction = Reaction(snapshot: Option<Value>, stored: Option<int>)

  /**
   One handler invocation as a function of the shared cell and the event.
   Only an active-window event whose active id is found and equals the stored
   one prints nothing; the cell always receives the id that
   `display_workspaces_maybe` returned.
   */
  function Step(stored: Option<int>, ev: Observation): (r: Reaction)
    ensures r.stored == Some(RememberedId(ev.active))
    ensures r.snapshot.None? <==> ev.kind.ActiveWindowChanged? && ev.active.Some? && stored == ev.active
    ensures r.snapshot.Some? ==> r.snapshot.value == WorkspacesList(ev.workspaces, RememberedId(ev.active))
  {
    var d := DisplayWorkspacesMaybe(PreviousFor(ev.kind, stored), ev.active, ev.workspaces);
    Reaction(d.snapshot, Some(d.activeId))
  }

  /** The lines an optional snapshot contributes to the output. */
  function Lines(snapshot: Option<Value>): (s: seq<Value>)
    ensures snapshot.None? ==> s == []
    ensures snapshot.Some? ==> s == [snapshot.value]
  {
    if snapshot.Some? then [snapshot.value] else []
  }

  /** The shared cell and the printed output after a sequence of events. */
  datatype Trace = Trace(stored: Option<int>, printed: seq<Value>)

  /** Handling `evs` one at a time, in delivery order, from the cell value `stored`. */
  function Run(stored: Option<int>, evs: seq<Observation>): (t: Trace)
    ensures |t.printed| <= |evs|
    ensures evs == [] ==> t == Trace(stored, [])
    decreases |evs|
  {
    if evs == [] then Trace(stored, [])
    else
      var r := Step(stored, evs[0]);
      var rest := Run(r.stored, evs[1..]);
      Trace(rest.stored, Lines(r.snapshot) + rest.printed)
  }

  /** The number of structural events (those whose handler passes `None`) in `evs`. */
  function CountStructural(evs: seq<Observation>): (n: nat)
    ensures n <= |evs|
  {
    if evs == [] then 0
    else (if evs[0].kind.ActiveWindowChanged? then 0 else 1) + CountStructural(evs[1..])
  }

  /** After any non-empty sequence of events the cell holds the id the last handler returned. */
  lemma {:induction false} RunStoresLastReturn(stored: Option<int>, evs: seq<Observation>)
    requires evs != []
    ensures Run(stored, evs).stored == Some(RememberedId(evs[|evs| - 1].active))
    decreases |evs|
  {
    var r := Step(stored, evs[0]);
    if |evs| > 1 {
      RunStoresLastReturn(r.stored, evs[1..]);
      assert evs[1..][|evs[1..]| - 1] == evs[|evs| - 1];
    }
  }

  /** Every structural event prints a snapshot, whatever the cell holds. */
  lemma {:induction false} RunPrintsEveryStructural(stored: Option<int>, evs: seq<Observation>)
    ensures CountStructural(evs) <= |Run(stored, evs).printed|
    decreases |evs|
  {
    if evs != [] {
      var r := Step(stored, evs[0]);
      RunPrintsEveryStructural(r.stored, evs[1..]);
    }
  }

  /**
   Once an event has been handled with the active workspace found, an
   active-window event seeing the same active workspace prints nothing.
   */
  lemma {:induction false} SameActiveWindowIsSilent(stored: Option<int>, e1: Observation, e2: Observation)
    requires e1.active.Some? && e2.active == e1.active && e2.kind.ActiveWindowChanged?
    ensures Run(stored, [e1, e2]).printed == Lines(Step(stored, e1).snapshot)
  {
    var r := Step(stored, e1);
    assert [e1, e2][1..] == [e2];
    assert Run(r.stored, [e2]) == Trace(r.stored, []) by {
      assert [e2][1..] == [];
    }
  }

  /**
   The workspace subscription: the shared cell `lastActive` and the snapshots
   printed so far. The cell is shared by all five handlers; here they run one
   at a time, in the order the events are delivered.
   */
  class WorkspaceSubscription {
    var lastActive: Option<int>
    var printed: seq<Value>

    /**
     The cell starts as `Some` of the first display and is only ever replaced
     by `Some`, so the active-window handler never passes `None` as its
     previous id. No other contract depends on this; it records a fact about
     the program.
     */
    ghost predicate Valid()
      reads this
    {
      lastActive.Some?
    }

    /**
     `subscribe_to_workspace` before the listener starts: one display with no
     previous id, which always prints, and the cell set to the id it returned.
     */
    constructor (active: Option<int>, workspaces: Value)
      ensures Valid()
      ensures lastActive == Some(RememberedId(active))
      ensures printed == [WorkspacesList(workspaces, RememberedId(active))]
    {
      var d := DisplayWorkspacesMaybe(None, active, workspaces);
      printed := Lines(d.snapshot);
      lastActive := Some(d.activeId);
    }

    /**
     One handler invocation: display with the previous id the event kind's
     handler passes, then overwrite the cell with the returned id.
     */
    method Handle(ev: Observation)
      requires Valid()
      modifies this
      ensures Valid()
      ensures lastActive == Step(old(lastActive), ev).stored
      ensures printed == old(printed) + Lines(Step(old(lastActive), ev).snapshot)
    {
      var d := DisplayWorkspacesMaybe(PreviousFor(ev.kind, lastActive), ev.active, ev.workspaces);
      if d.snapshot.Some? {
        printed := printed + [d.snapshot.value];
      }
      lastActive := Some(d.activeId);
    }
  }

  /** The submap name printed: the event's value, or "default" when it is empty. */
  function SubmapName(value: string): (name: string)
    ensures name != []
    ensures value != [] ==> name == value
    ensures value == [] ==> name == "default"
  {
    if value == [] then "default" else value
  }

  /** The object the submap handler prints: `{"name": ...}` and nothing else. */
  function SubmapOutput(value: string): (out: Value)
    ensures out.Object? && out.fields.Keys == {"name"}
    ensures out.fields["name"] == Str(SubmapName(value))
  {
    Object(map["name" := Str(SubmapName(value))])
  }
}
