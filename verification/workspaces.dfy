/**
 The workspace list the program prints: the list `hyprctl -j workspaces`
 returns, with every workspace annotated with `num` and `focused`, and the
 decision whether a new snapshot of it is printed.

 The list and the active workspace id, which the program obtains from
 `hyprctl` and from the Hyprland library, are parameters here.
 */
module Workspaces {
  import opened Wrappers
  import opened Json

  /** The `id` of a workspace object, when it is a number representable as an `i64`. */
  function I64Id(w: Value): (r: Option<int>)
    ensures r.Some? <==> w.Object? && "id" in w.fields && w.fields["id"].Num? && AsI64(w.fields["id"].n).Some?
    ensures r.Some? ==> r.value == w.fields["id"].n.value
  {
    if w.Object? && "id" in w.fields && w.fields["id"].Num? then AsI64(w.fields["id"].n) else None
  }

  /**
   What the loop body of `get_workspaces_list` does to one element: an object
   whose `id` is an `i64` gains (or has overwritten) `num`, equal to the id,
   and `focused`, true exactly when the id is the active one; anything else is
   left as it is.
   */
  function Annotate(w: Value, activeId: int): (r: Value)
    ensures I64Id(w).None? ==> r == w
    ensures I64Id(w).Some? ==>
      r.Object? && r.fields.Keys == w.fields.Keys + {"num", "focused"} &&
      r.fields["num"] == Num(Int(I64Id(w).value)) &&
      r.fields["focused"] == Bool(I64Id(w).value == activeId) &&
      forall k :: k in w.fields && k != "num" && k != "focused" ==> r.fields[k] == w.fields[k]
  {
    match I64Id(w)
    case None => w
    case Some(id) => Object(w.fields["num" := Num(Int(id))]["focused" := Bool(id == activeId)])
  }

  /**
   The value `get_workspaces_list` returns for the fetched value `fetched`:
   an array keeps its length and order and has each element annotated; any
   other value is returned as it is.
   */
  function WorkspacesList(fetched: Value, activeId: int): (r: Value)
    ensures r.Array? <==> fetched.Array?
    ensures !fetched.Array? ==> r == fetched
    ensures fetched.Array? ==>
      |r.elems| == |fetched.elems| &&
      forall i :: 0 <= i < |r.elems| ==> r.elems[i] == Annotate(fetched.elems[i], activeId)
  {
    match fetched
    case Array(elems) => Array(seq(|elems|, i requires 0 <= i < |elems| => Annotate(elems[i], activeId)))
    case _ => fetched
  }

  /**
   `get_workspaces_list`: walks the fetched array and annotates its elements
   one at a time, in place. `reportedError` is the diagnostic line written
   when the fetched value is not an array.
   */
  method GetWorkspacesList(fetched: Value, activeId: int) returns (list: Value, reportedError: bool)
    ensures list == WorkspacesList(fetched, activeId)
    ensures reportedError <==> !fetched.Array?
  {
    list := fetched;
    reportedError := false;
    if fetched.Array? {
      var elems := fetched.elems;
      var i := 0;
      while i < |elems|
        invariant 0 <= i <= |elems| == |fetched.elems|
        invariant forall j :: 0 <= j < i ==> elems[j] == Annotate(fetched.elems[j], activeId)
        invariant forall j :: i <= j < |elems| ==> elems[j] == fetched.elems[j]
      {
        elems := elems[i := Annotate(elems[i], activeId)];
        i := i + 1;
      }
      list := Array(elems);
    } else {
      reportedError := true;
    }
  }

  /** The id `display_workspaces_maybe` returns: the active id, or 0 when it could not be found. */
  function RememberedId(active: Option<int>): int
  {
    if active.Some? then active.value else 0
  }

  /**
   The outcome of one call of `display_workspaces_maybe`: the snapshot it
   prints, if any, and the id it returns.
   */
  datatype Display = Display(snapshot: Option<Value>, activeId: int)

  /**
   `display_workspaces_maybe`: with an active id, a snapshot is printed when
   there is no previous id or it differs, and the active id is returned; when
   the active workspace cannot be found, a snapshot annotated against id 0 is
   always printed and 0 is returned.
   */
  function DisplayWorkspacesMaybe(previous: Option<int>, active: Option<int>, fetched: Value): (d: Display)
    ensures active.Some? ==> d.activeId == active.value
    ensures active.None? ==> d.activeId == 0
    ensures d.snapshot.Some? <==> active.None? || previous.None? || previous.value != active.value
    ensures d.snapshot.Some? ==> d.snapshot.value == WorkspacesList(fetched, d.activeId)
  {
    match active
    case Some(id) =>
      if previous.None? || previous.value != id then Display(Some(WorkspacesList(fetched, id)), id)
      else Display(None, id)
    case None => Display(Some(WorkspacesList(fetched, 0)), 0)
  }

  /** Annotating an already annotated element against the same active id changes nothing. */
  lemma AnnotateIdempotent(w: Value, activeId: int)
    ensures Annotate(Annotate(w, activeId), activeId) == Annotate(w, activeId)
  {
    var r := Annotate(w, activeId);
    if I64Id(w).Some? {
      assert r.fields["id"] == w.fields["id"];
      assert I64Id(r) == I64Id(w);
      assert Annotate(r, activeId).fields == r.fields;
    }
  }

  /** Re-annotating against another active id gives what annotating the original against it gives. */
  lemma AnnotateLastWins(w: Value, a: int, b: int)
    ensures Annotate(Annotate(w, a), b) == Annotate(w, b)
  {
    var r := Annotate(w, a);
    if I64Id(w).Some? {
      assert r.fields["id"] == w.fields["id"];
      assert I64Id(r) == I64Id(w);
      assert Annotate(r, b).fields == Annotate(w, b).fields;
    }
  }

  /** Annotating the whole list twice against the same active id is the same as once. */
  lemma WorkspacesListIdempotent(fetched: Value, activeId: int)
    ensures WorkspacesList(WorkspacesList(fetched, activeId), activeId) == WorkspacesList(fetched, activeId)
  {
    if fetched.Array? {
      var once := WorkspacesList(fetched, activeId);
      var twice := WorkspacesList(once, activeId);
      forall i | 0 <= i < |once.elems| ensures twice.elems[i] == once.elems[i] {
        AnnotateIdempotent(fetched.elems[i], activeId);
      }
    }
  }

  /** No element is ever added, removed or reordered; each keeps its `id`. */
  lemma WorkspacesListKeepsIds(fetched: Value, activeId: int, i: int)
    requires fetched.Array? && 0 <= i < |fetched.elems|
    ensures var w, e := fetched.elems[i], WorkspacesList(fetched, activeId).elems[i];
      (w.Object? ==> e.Object? && ("id" in e.fields <==> "id" in w.fields) &&
                     ("id" in w.fields ==> e.fields["id"] == w.fields["id"])) &&
      I64Id(e) == I64Id(w)
  {
    var w := fetched.elems[i];
    if I64Id(w).Some? {
      assert Annotate(w, activeId).fields["id"] == w.fields["id"];
    }
  }

  /** Exactly the elements whose `id` is the active id are `focused`. */
  lemma FocusedIffActive(fetched: Value, activeId: int, i: int)
    requires fetched.Array? && 0 <= i < |fetched.elems|
    requires I64Id(fetched.elems[i]).Some?
    ensures var e := WorkspacesList(fetched, activeId).elems[i];
      e.Object? && "focused" in e.fields &&
      e.fields["focused"] == Bool(I64Id(fetched.elems[i]).value == activeId)
  {
  }
}
