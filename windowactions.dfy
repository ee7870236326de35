/** Per-window operations of SSWindow: the initial record, storing the
    search flag, and the two activation routines that talk to the window
    manager. */
module WindowActions {
  import opened Common

  /** ss_window_new: a fresh window is sensitive and has no pending index. */
  function NewWindow(id: WinId, title: string): (w: Window)
    ensures w.id == id && w.title == title
    ensures w.sensitive && w.newWindowIndex == -1
  {
    Window(id, title, true, -1)
  }

  /** ss_window_set_sensitive: stores the flag and nothing else. */
  function SetSensitive(w: Window, sensitive: bool): (r: Window)
    ensures r.sensitive == sensitive
    ensures r.id == w.id && r.title == w.title && r.newWindowIndex == w.newWindowIndex
  {
    w.(sensitive := sensitive)
  }

  /** Where the pointer is warped to: the centre of the window, halving
      with C's truncating division. */
  function Centre(g: Rect): (c: (int, int))
    ensures g.width >= 0 && g.height >= 0 ==>
              g.x <= c.0 <= g.x + g.width && g.y <= c.1 <= g.y + g.height
  {
    (g.x + CHalf(g.width), g.y + CHalf(g.height))
  }

  /** ss_window_activate_window: nothing for NULL; otherwise activate the
      window at `time` and, when both the caller asks for it and the screen
      recentres the pointer on focus change, warp the pointer to the
      window's centre. */
  function WindowActivation(win: Option<WinId>, geometry: Rect, time: Time, warp: bool, recentering: bool)
    : (cmds: seq<Command>)
    ensures win.None? ==> cmds == []
    ensures win.Some? ==> 1 <= |cmds| <= 2 && cmds[0] == ActivateWindow(win.value, time)
    ensures win.Some? ==> (|cmds| == 2 <==> warp && recentering)
    ensures |cmds| == 2 ==> cmds[1] == WarpPointer(Centre(geometry).0, Centre(geometry).1)
  {
    if win.None? then []
    else
      [ActivateWindow(win.value, time)] +
      (if warp && recentering then [WarpPointer(Centre(geometry).0, Centre(geometry).1)] else [])
  }

  /** ss_window_activate_workspace_and_window: nothing for NULL; otherwise
      activate the window's workspace at `time`, then the window at the
      next (wrapping) timestamp. */
  function WorkspaceAndWindowActivation(target: Option<(WsId, WinId)>, geometry: Rect, time: Time,
                                        warp: bool, recentering: bool): (cmds: seq<Command>)
    ensures target.None? ==> cmds == []
    ensures target.Some? ==> 2 <= |cmds| <= 3
    ensures target.Some? ==> cmds[0] == ActivateWorkspace(target.value.0, time)
    ensures target.Some? ==> cmds[1..] == WindowActivation(Some(target.value.1), geometry, NextTime(time), warp, recentering)
  {
    if target.None? then []
    else [ActivateWorkspace(target.value.0, time)] +
         WindowActivation(Some(target.value.1), geometry, NextTime(time), warp, recentering)
  }
}
