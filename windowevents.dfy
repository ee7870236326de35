/** The event handlers of a window's row in the popup: pressing starts a
    drag-and-drop session, releasing either drops the dragged window on
    another workspace or at a new position in its own, or is a plain click
    that activates the window; and the window manager's report that a
    window changed workspace moves the window in the mirror. The row is
    named by its workspace's position k and the window's id. */
module WindowEvents {
  import opened Common
  import opened WindowLists
  import opened WindowActions
  import opened Mirror
  import opened DragDrop
  import opened Screens

  /** on_button_press_event: the session starts on this row. */
  method OnButtonPress(screen: Screen, k: nat, id: WinId, pointer: (int, int))
    modifies screen.dnd
    ensures screen.dnd.dragStartWindow == Some(id) && screen.dnd.dragStartWorkspace == Some(k)
    ensures screen.dnd.dragStartWidget == Some(WindowWidget(id))
    ensures screen.dnd.dragStartX == pointer.0 && screen.dnd.dragStartY == pointer.1
    ensures screen.dnd.isDragging == old(screen.dnd.isDragging)
  {
    screen.dnd.Start(Some(id), Some(k), pointer);
  }

  /** on_button_release_event. A drag onto another workspace stores the
      predicted index in the window and asks the window manager to move it
      there; a drag within the same workspace reorders the window at the
      corrected index; either way the target workspace and then the window
      are activated. A release without a drag activates the window's
      workspace and the window. The session always ends. Because the
      press that began the gesture was on the same row, the session's
      start window and workspace are this window and its workspace. */
  method OnButtonRelease(screen: Screen, k: nat, id: WinId, time: Time, geometry: Rect) returns (cmds: seq<Command>)
    requires screen.Valid() && k < |screen.workspaces| && Holds(screen.workspaces[k].windows, id)
    requires screen.dnd.dragStartWindow == Some(id) && screen.dnd.dragStartWorkspace == Some(k)
    requires screen.dnd.dragWorkspace.Some? ==> screen.dnd.dragWorkspace.value < |screen.workspaces|
    modifies screen, screen.dnd
    ensures screen.Valid() && screen.dnd.Idle()
    ensures screen.PointersOf() == old(screen.PointersOf()) && screen.CachesOf() == old(screen.CachesOf())
    ensures !old(screen.dnd.isDragging) ==>
              screen.workspaces == old(screen.workspaces)[k := old(screen.workspaces)[k].(
                windows := WithPending(old(screen.workspaces)[k].windows, id, -1))] &&
              cmds == [ActivateWorkspace(old(screen.workspaces)[k].id, time), ActivateWindow(id, NextTime(time))]
    ensures old(screen.dnd.isDragging) && old(screen.dnd.dragWorkspace).None? ==>
              screen.workspaces == old(screen.workspaces) && cmds == []
    ensures old(screen.dnd.isDragging) && old(screen.dnd.dragWorkspace).Some? && old(screen.dnd.dragWorkspace).value != k ==>
              var target := old(screen.workspaces)[old(screen.dnd.dragWorkspace).value].id;
              screen.workspaces == old(screen.workspaces)[k := old(screen.workspaces)[k].(
                windows := WithPending(old(screen.workspaces)[k].windows, id, old(screen.dnd.newWindowIndex)))] &&
              cmds == [ActivateWorkspace(target, time), MoveToWorkspace(id, target), ActivateWindow(id, time)]
    ensures old(screen.dnd.isDragging) && old(screen.dnd.dragWorkspace) == Some(k) ==>
              var ws := old(screen.workspaces)[k].windows;
              var p := IndexOf(ws, id);
              p >= 0 &&
              screen.workspaces == old(screen.workspaces)[k := old(screen.workspaces)[k].(
                windows := Reordered(WithPending(ws, id, -1), ws[p].(newWindowIndex := -1),
                                     DropIndex(old(screen.dnd.newWindowIndex), p)))] &&
              cmds == [ActivateWorkspace(old(screen.workspaces)[k].id, time), ActivateWindow(id, time)]
  {
    var dnd := screen.dnd;
    cmds := [];
    if dnd.isDragging {
      if dnd.dragWorkspace.Some? {
        var target := screen.workspaces[dnd.dragWorkspace.value].id;
        if dnd.dragStartWorkspace != dnd.dragWorkspace {
          DropOnOtherWorkspace(screen, k, id);
          cmds := [ActivateWorkspace(target, time), MoveToWorkspace(id, target)];
        } else {
          DropInOwnWorkspace(screen, k, id);
          cmds := [ActivateWorkspace(target, time)];
        }
        cmds := cmds + WindowActivation(Some(id), geometry, time, false, screen.pointerNeedsRecentering);
      }
    } else {
      screen.SetPendingIndex(k, id, -1);
      cmds := WorkspaceAndWindowActivation(Some((screen.workspaces[k].id, id)), geometry, time, false,
                                           screen.pointerNeedsRecentering);
    }
    dnd.OnRelease();
  }

  /** The window keeps the session's predicted index for when the window
      manager reports it on the target workspace. */
  method DropOnOtherWorkspace(screen: Screen, k: nat, id: WinId)
    requires screen.Valid() && k < |screen.workspaces|
    modifies screen
    ensures screen.Valid()
    ensures screen.workspaces == old(screen.workspaces)[k := old(screen.workspaces)[k].(
              windows := WithPending(old(screen.workspaces)[k].windows, id, screen.dnd.newWindowIndex))]
    ensures screen.PointersOf() == old(screen.PointersOf()) && screen.CachesOf() == old(screen.CachesOf())
  {
    screen.SetPendingIndex(k, id, screen.dnd.newWindowIndex);
  }

  /** A drop back into the window's own workspace: the session's index is
      corrected for the window leaving its old place, the window's own
      pending index is cleared, and the window is reordered. */
  method DropInOwnWorkspace(screen: Screen, k: nat, id: WinId)
    requires screen.Valid() && k < |screen.workspaces| && Holds(screen.workspaces[k].windows, id)
    modifies screen, screen.dnd
    ensures screen.Valid()
    ensures var ws := old(screen.workspaces)[k].windows;
            var p := IndexOf(ws, id);
            p >= 0 &&
            screen.workspaces == old(screen.workspaces)[k := old(screen.workspaces)[k].(
              windows := Reordered(WithPending(ws, id, -1), ws[p].(newWindowIndex := -1),
                                   DropIndex(old(screen.dnd.newWindowIndex), p)))]
    ensures screen.PointersOf() == old(screen.PointersOf()) && screen.CachesOf() == old(screen.CachesOf())
  {
    var dnd := screen.dnd;
    ghost var wss := screen.workspaces;
    var ws := screen.workspaces[k].windows;
    var p := IndexOf(ws, id);
    PendingClearedInPlace(ws, id);
    ghost var pending := WithPending(ws, id, -1);
    ghost var d := dnd.newWindowIndex;
    if dnd.newWindowIndex > p {
      dnd.newWindowIndex := dnd.newWindowIndex - 1;
    }
    var index := dnd.newWindowIndex;
    assert index == DropIndex(d, p);
    screen.SetPendingIndex(k, id, -1);
    assert screen.workspaces == wss[k := wss[k].(windows := pending)];
    screen.ReorderWindow(k, Some(id), index);
    SameSlotTwice(wss, k, pending, Reordered(pending, ws[p].(newWindowIndex := -1), index));
  }

  /** Two edits of the same workspace's list: the second one wins. */
  lemma SameSlotTwice(wss: seq<Workspace>, k: nat, a: seq<Window>, b: seq<Window>)
    requires k < |wss|
    ensures var once := wss[k := wss[k].(windows := a)];
            once[k := once[k].(windows := b)] == wss[k := wss[k].(windows := b)]
  {
  }

  /** Clearing the window's pending index leaves it where it was. */
  lemma PendingClearedInPlace(ws: seq<Window>, id: WinId)
    requires Holds(ws, id)
    ensures var p := IndexOf(ws, id);
            var pending := WithPending(ws, id, -1);
            0 <= p < |ws| && IndexOf(pending, id) == p && Holds(pending, id) &&
            pending[p] == ws[p].(newWindowIndex := -1)
  {
    var pending := WithPending(ws, id, -1);
    IndexOfHolds(ws, id);
    IndexOfSameIds(pending, ws, id);
    IndexOfHolds(pending, id);
  }

  /** on_workspace_changed: the window leaves its old workspace, joins the
      one the window manager now reports (at its pending index, if any),
      and its pending index is cleared. */
  method OnWorkspaceChanged(screen: Screen, k: nat, id: WinId, wm: Wm)
    requires screen.Valid() && k < |screen.workspaces| && Holds(screen.workspaces[k].windows, id)
    requires 0 <= wm.workspaceOf(id) < |screen.workspaces|
    modifies screen
    ensures screen.Valid()
    ensures var n := wm.workspaceOf(id);
            var wss := old(screen.workspaces);
            var p := IndexOf(wss[k].windows, id);
            var mid := wss[k := wss[k].(windows := Removed(wss[k].windows, id))];
            p >= 0 &&
            screen.workspaces == mid[n := mid[n].(windows := WithPending(WithWindowAdded(mid[n].windows, wss[k].windows[p]), id, -1))]
    ensures multiset(AllIds(screen.workspaces)) == multiset(AllIds(old(screen.workspaces)))
    ensures Holds(screen.workspaces[wm.workspaceOf(id)].windows, id)
    ensures screen.PointersOf() == old(screen.PointersOf()) && screen.CachesOf() == old(screen.CachesOf())
  {
    var n := wm.workspaceOf(id);
    ghost var wss := screen.workspaces;
    var ws := screen.workspaces[k].windows;
    IndexOfHolds(ws, id);
    var w := ws[IndexOf(ws, id)];
    RemovedFromMirror(wss, k, id);
    screen.RemoveWindow(k, Some(id));
    ghost var mid := screen.workspaces;
    NotHeldWhenUntracked(mid, n, id);
    AddedIsHeld(mid[n].windows, w);
    screen.AddWindow(n, Some(w));
    ghost var joined := WithWindowAdded(mid[n].windows, w);
    screen.SetPendingIndex(n, id, -1);
    SameSlotTwice(mid, n, joined, WithPending(joined, id, -1));
  }

  /** A window added to a list it was not on is on it, pending index
      cleared or not. */
  lemma AddedIsHeld(ws: seq<Window>, w: Window)
    requires !Holds(ws, w.id)
    ensures Holds(WithWindowAdded(ws, w), w.id)
    ensures Holds(WithPending(WithWindowAdded(ws, w), w.id, -1), w.id)
  {
    WithWindowAddedSpec(ws, w);
    var added := WithWindowAdded(ws, w);
    var at := if w.newWindowIndex == -1 then |ws| else Clamp(w.newWindowIndex, 0, |ws|);
    var r := WithPending(added, w.id, -1);
    assert Ids(r)[at] == w.id;
    IndexOfHolds(r, w.id);
  }
}
