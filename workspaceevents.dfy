/** The event handlers of a workspace's header in the popup: scrolling
    steps to a neighbouring workspace, pressing starts a drag-and-drop
    session, and releasing either drops every window of the workspace onto
    the workspace under the pointer or is a plain click that switches to
    the workspace. The header is named by its workspace's position k. */
module WorkspaceEvents {
  import opened Common
  import opened Navigation
  import opened DragDrop
  import opened Screens

  datatype ScrollDirection = ScrollUp | ScrollDown | ScrollLeft | ScrollRight

  /** Up and left step back one workspace, down and right step forward. */
  function ScrollDelta(d: ScrollDirection): (delta: int)
    ensures delta == -1 <==> d == ScrollUp || d == ScrollLeft
    ensures delta == 1 <==> d == ScrollDown || d == ScrollRight
  {
    match d
    case ScrollUp | ScrollLeft => -1
    case ScrollDown | ScrollRight => 1
  }

  /** Scrolling one way and then the other returns to the workspace where
      scrolling started. */
  lemma ScrollBack(current: nat, n: nat, d: ScrollDirection, e: ScrollDirection)
    requires current < n && ScrollDelta(d) != ScrollDelta(e)
    ensures RelativeWorkspace(RelativeWorkspace(current, ScrollDelta(d), n), ScrollDelta(e), n) == current
  {
    RelativeRoundTrip(current, n);
  }

  /** on_scroll_event: a relative switch by the direction's step, with shift
      and control as the bring-along flags. */
  method OnScroll(screen: Screen, d: ScrollDirection, shifted: bool, ctrled: bool, time: Time)
    returns (cmds: seq<Command>)
    requires |screen.workspaces| > 0
    requires shifted && ctrled && screen.activeWorkspace.Some? ==>
               WorkspaceIndex(screen.workspaces, screen.activeWorkspace.value) >= 0
    ensures var w := RelativeWorkspace(screen.activeWorkspaceId, ScrollDelta(d), |screen.workspaces|);
            cmds == SwitchCommands(Carried(screen.workspaces, screen.activeWorkspace, screen.activeWindow, shifted, ctrled),
                                   screen.workspaces[w].id, time)
  {
    cmds := screen.ChangeActiveWorkspaceByDelta(ScrollDelta(d), shifted, ctrled, time);
  }

  /** on_button_press_event: the session starts on this header, with no
      window. */
  method OnButtonPress(screen: Screen, k: nat, pointer: (int, int))
    modifies screen.dnd
    ensures screen.dnd.dragStartWindow.None? && screen.dnd.dragStartWorkspace == Some(k)
    ensures screen.dnd.dragStartWidget == Some(HeaderWidget(k))
    ensures screen.dnd.dragStartX == pointer.0 && screen.dnd.dragStartY == pointer.1
    ensures screen.dnd.isDragging == old(screen.dnd.isDragging)
  {
    screen.dnd.Start(None, Some(k), pointer);
  }

  /** on_button_release_event. A drag onto another workspace asks the
      window manager to move each window of this workspace there, in list
      order; a drag onto any workspace then activates it. A release without
      a drag switches to this workspace, shift and control choosing what is
      brought along. The session always ends. */
  method OnButtonRelease(screen: Screen, k: nat, shifted: bool, ctrled: bool, time: Time) returns (cmds: seq<Command>)
    requires k < |screen.workspaces|
    requires screen.dnd.dragWorkspace.Some? ==> screen.dnd.dragWorkspace.value < |screen.workspaces|
    requires shifted && ctrled && screen.activeWorkspace.Some? ==>
               WorkspaceIndex(screen.workspaces, screen.activeWorkspace.value) >= 0
    modifies screen.dnd
    ensures screen.dnd.Idle()
    ensures old(screen.dnd.isDragging) && old(screen.dnd.dragWorkspace).None? ==> cmds == []
    ensures old(screen.dnd.isDragging) && old(screen.dnd.dragWorkspace).Some? ==>
              var t := old(screen.dnd.dragWorkspace).value;
              cmds == SwitchCommands(if t != k then Ids(screen.workspaces[k].windows) else [],
                                     screen.workspaces[t].id, time)
    ensures !old(screen.dnd.isDragging) ==>
              cmds == SwitchCommands(Carried(screen.workspaces, screen.activeWorkspace, screen.activeWindow, shifted, ctrled),
                                     screen.workspaces[k].id, time)
  {
    var dnd := screen.dnd;
    cmds := [];
    if dnd.isDragging {
      if dnd.dragWorkspace.Some? {
        var t := dnd.dragWorkspace.value;
        var target := screen.workspaces[t].id;
        if t != k {
          cmds := MoveAll(screen.workspaces[k].windows, target);
        }
        cmds := cmds + [ActivateWorkspace(target, time)];
      }
    } else {
      cmds := screen.ChangeActiveWorkspaceTo(screen.workspaces[k].id, shifted, ctrled, time);
    }
    dnd.OnRelease();
  }
}
