/** The drag-and-drop session (SSDragAndDrop): where a drag started, whether
    the pointer has moved far enough to count as a drag, and which workspace
    and list index the dragged window would be dropped at. Workspaces are
    referred to by their position in the screen's workspace list. */
module DragDrop {
  import opened Common
  import opened Layout

  /** The widget a drag started on: a window row or a workspace header. */
  datatype Widget = WindowWidget(win: WinId) | HeaderWidget(workspace: nat)

  class DragAndDrop {
    var isDragging: bool
    var dragStartX: int
    var dragStartY: int
    var dragStartWorkspace: Option<nat>
    var dragStartWindow: Option<WinId>
    var dragStartWidget: Option<Widget>
    var dragX: int
    var dragY: int
    var dragWorkspace: Option<nat>
    var newWindowIndex: int

    /** The state ss_draganddrop_reset establishes. */
    predicate Idle()
      reads this
    {
      !isDragging && dragStartX == -1 && dragStartY == -1 &&
      dragStartWindow.None? && dragStartWorkspace.None? && dragStartWidget.None? &&
      dragX == -1 && dragY == -1 && dragWorkspace.None? && newWindowIndex == -1
    }

    /** ss_draganddrop_new: a new session starts idle. */
    constructor ()
      ensures Idle()
    {
      isDragging := false;
      dragStartX, dragStartY := -1, -1;
      dragStartWindow := None;
      dragStartWorkspace := None;
      dragStartWidget := None;
      dragX, dragY := -1, -1;
      dragWorkspace := None;
      newWindowIndex := -1;
    }

    method Reset()
      modifies this
      ensures Idle()
    {
      isDragging := false;
      dragStartX := -1;
      dragStartY := -1;
      dragStartWindow := None;
      dragStartWorkspace := None;
      dragStartWidget := None;
      dragX := -1;
      dragY := -1;
      dragWorkspace := None;
      newWindowIndex := -1;
    }

    /** ss_draganddrop_start: remember the origin. The widget is the
        window's row, else the workspace header, else none; `pointer` is the
        pointer position relative to that widget. Never starts dragging. */
    method Start(window: Option<WinId>, workspace: Option<nat>, pointer: (int, int))
      modifies this
      ensures dragStartWindow == window && dragStartWorkspace == workspace
      ensures dragStartWidget ==
                if window.Some? then Some(WindowWidget(window.value))
                else if workspace.Some? then Some(HeaderWidget(workspace.value))
                else None
      ensures dragStartWidget.Some? ==> dragStartX == pointer.0 && dragStartY == pointer.1
      ensures dragStartWidget.None? ==> dragStartX == -1 && dragStartY == -1
      ensures isDragging == old(isDragging) && dragX == old(dragX) && dragY == old(dragY)
      ensures dragWorkspace == old(dragWorkspace) && newWindowIndex == old(newWindowIndex)
    {
      var w: Option<Widget>;
      if window.Some? {
        w := Some(WindowWidget(window.value));
      } else if workspace.Some? {
        w := Some(HeaderWidget(workspace.value));
      } else {
        w := None;
      }
      dragStartWindow := window;
      dragStartWorkspace := workspace;
      dragStartWidget := w;
      if w.Some? {
        dragStartX, dragStartY := pointer.0, pointer.1;
      } else {
        dragStartX, dragStartY := -1, -1;
      }
    }

    /** ss_draganddrop_on_motion. `pointer` is the pointer position relative
        to the start widget, `exceeds` is GTK's drag threshold test and
        `alloc` the current layout. */
    method OnMotion(pointer: (int, int), exceeds: (int, int, int, int) -> bool, alloc: Allocations)
      requires |alloc.windows| == |alloc.workspaces|
      modifies this
      ensures old(dragStartWidget).None? ==> unchanged(this)
      ensures old(dragStartWidget).Some? ==>
                isDragging == (old(isDragging) || exceeds(dragStartX, dragStartY, pointer.0, pointer.1))
      ensures dragStartX == old(dragStartX) && dragStartY == old(dragStartY)
      ensures dragStartWindow == old(dragStartWindow) && dragStartWorkspace == old(dragStartWorkspace)
      ensures dragStartWidget == old(dragStartWidget)
      ensures old(dragStartWidget).Some? && isDragging ==>
                dragX == pointer.0 && dragY == pointer.1 &&
                dragWorkspace == FindWorkspaceNearPoint(alloc.workspaces, pointer.0) &&
                newWindowIndex == (if dragWorkspace.Some?
                                   then FindIndexNearPoint(alloc.windows[dragWorkspace.value], pointer.1)
                                   else -1)
      ensures !isDragging ==>
                dragX == old(dragX) && dragY == old(dragY) &&
                dragWorkspace == old(dragWorkspace) && newWindowIndex == old(newWindowIndex)
    {
      if dragStartWidget.None? {
        return;
      }
      var (x, y) := pointer;
      if !isDragging && exceeds(dragStartX, dragStartY, x, y) {
        isDragging := true;
      }
      if isDragging {
        dragX := x;
        dragY := y;
        dragWorkspace := FindWorkspaceNearPoint(alloc.workspaces, x);
        if dragWorkspace.Some? {
          newWindowIndex := FindIndexNearPoint(alloc.windows[dragWorkspace.value], y);
        } else {
          newWindowIndex := -1;
        }
      }
    }

    /** ss_draganddrop_on_release: whatever the state, the session ends. */
    method OnRelease()
      modifies this
      ensures Idle()
    {
      Reset();
    }
  }
}
