/** The popup (Popup): the actions its keys trigger, the search buffer with
    the match-count label, the one-shot completion of "new workspace", and
    the key handler that dispatches to them. Actions return the requests
    they make of the window manager. */
module Popups {
  import opened Common
  import opened Search
  import opened WindowLists
  import opened Navigation
  import opened WindowActions
  import opened Monitors
  import opened Screens
  import opened DeletePlans
  import opened WorkspaceEvents

  // ---------------------------------------------------------------------
  // Cycling through the windows of the active workspace

  /** The position of the window action_change_active_window_by_delta
      activates in the active workspace's list. Without an active window
      the first (+1) or last (-1) window is taken; with one, and at least
      two windows, its neighbour in the given direction, wrapping at both
      ends. Sensitivity plays no part. */
  function DeltaTarget(windows: seq<Window>, aw: Option<WinId>, delta: int): (r: Option<nat>)
    ensures r.Some? ==> r.value < |windows|
  {
    var n := |windows|;
    if aw.None? then (if n > 0 then Some(if delta == 1 then 0 else n - 1) else None)
    else if n <= 1 then None
    else
      var p := IndexOf(windows, aw.value);
      if p < 0 then None
      else if delta == 1 then Some(if p + 1 == n then 0 else p + 1)
      else Some(if p == 0 then n - 1 else p - 1)
  }

  /** The requests of the cycling branch: activate the target window,
      warping the pointer when asked to and the screen recentres. */
  function DeltaCommands(windows: seq<Window>, aw: Option<WinId>, delta: int, time: Time, warp: bool,
                         geometry: WinId -> Rect, recentering: bool): seq<Command>
  {
    var t := DeltaTarget(windows, aw, delta);
    if t.None? then []
    else WindowActivation(Some(windows[t.value].id), geometry(windows[t.value].id), time, warp, recentering)
  }

  /** Where bring-along puts the active window: one step in the given
      direction, -1 wrapping to the end and n wrapping to the front. */
  function BringIndex(p: int, delta: int, n: nat): int {
    var m := p + delta;
    if m == -1 then n - 1 else if m == n then 0 else m
  }

  /** Whether the bring-along branch runs: asked for, an active window, and
      more than one window in the workspace. */
  predicate Brings(bring: bool, aw: Option<WinId>, windows: seq<Window>) {
    bring && aw.Some? && |windows| > 1
  }

  lemma IndexOfUnique(ws: seq<Window>, p: nat)
    requires UniqueIds(ws) && p < |ws|
    ensures IndexOf(ws, ws[p].id) == p
  {
  }

  /** Stepping forward and then back (or back and then forward) returns to
      the window where cycling started, and a step never stays put. */
  lemma DeltaRoundTrip(ws: seq<Window>, p: nat)
    requires UniqueIds(ws) && p < |ws| && |ws| > 1
    ensures var next := DeltaTarget(ws, Some(ws[p].id), 1);
            next.Some? && next.value != p && DeltaTarget(ws, Some(ws[next.value].id), -1) == Some(p)
    ensures var prev := DeltaTarget(ws, Some(ws[p].id), -1);
            prev.Some? && prev.value != p && DeltaTarget(ws, Some(ws[prev.value].id), 1) == Some(p)
  {
    var n := |ws|;
    IndexOfUnique(ws, p);
    IndexOfUnique(ws, if p + 1 == n then 0 else p + 1);
    IndexOfUnique(ws, if p == 0 then n - 1 else p - 1);
  }

  /** Bring-along puts the active window one step along, wrapping, and the
      other windows keep their order; stepping forward and back restores
      the position. */
  lemma BringPlacesWindow(ws: seq<Window>, id: WinId, delta: int)
    requires UniqueIds(ws) && Holds(ws, id) && |ws| > 1 && (delta == 1 || delta == -1)
    ensures var p := IndexOf(ws, id);
            var q := BringIndex(p, delta, |ws|);
            var r := Reordered(ws, ws[p], q);
            0 <= q < |ws| && q != p &&
            |r| == |ws| && r[q] == ws[p] && Removed(r, id) == Removed(ws, id) &&
            BringIndex(q, -delta, |ws|) == p
  {
    IndexOfHolds(ws, id);
    var p := IndexOf(ws, id);
    var q := BringIndex(p, delta, |ws|);
    ReorderedPosition(ws, ws[p], q);
    ReorderedKeepsOthers(ws, ws[p], q);
  }

  /** The loop of the cycling branch: walk the list remembering the
      previous window (the last one before the first step) and a flag
      saying the window after the active one is wanted; wrap to the first
      window when the flag is still up at the end. */
  method CycleWindows(windows: seq<Window>, aw: WinId, delta: int) returns (t: Option<WinId>)
    requires |windows| > 1 && (delta == 1 || delta == -1)
    ensures t == (var r := DeltaTarget(windows, Some(aw), delta); if r.Some? then Some(windows[r.value].id) else None)
  {
    var n := |windows|;
    ghost var p := IndexOf(windows, aw);
    var activateNext := false;
    var previous := windows[n - 1].id;
    var i := 0;
    while i < n
      invariant 0 <= i <= n
      invariant previous == if i == 0 then windows[n - 1].id else windows[i - 1].id
      invariant activateNext <==> delta == 1 && p >= 0 && i == p + 1
      invariant p >= 0 ==> i <= (if delta == 1 then p + 1 else p)
    {
      var w := windows[i];
      if activateNext {
        return Some(w.id);
      }
      if w.id == aw {
        if delta == 1 {
          activateNext := true;
        } else {
          return Some(previous);
        }
      }
      previous := w.id;
      i := i + 1;
    }
    if activateNext {
      return Some(windows[0].id);
    }
    return None;
  }

  // ---------------------------------------------------------------------
  // Maximizing, minimizing and closing

  /** The two window states the popup toggles. */
  datatype Toggle = MaximizeToggle | MinimizeToggle

  function InState(t: Toggle, wm: Wm, id: WinId): bool {
    match t
    case MaximizeToggle => wm.isMaximized(id)
    case MinimizeToggle => wm.isMinimized(id)
  }

  function EnterState(t: Toggle, id: WinId): Command {
    match t
    case MaximizeToggle => Maximize(id)
    case MinimizeToggle => Minimize(id)
  }

  function LeaveState(t: Toggle, id: WinId, time: Time): Command {
    match t
    case MaximizeToggle => Unmaximize(id)
    case MinimizeToggle => Unminimize(id, time)
  }

  predicate AllInState(t: Toggle, wm: Wm, ids: seq<WinId>) {
    forall k :: 0 <= k < |ids| ==> InState(t, wm, ids[k])
  }

  /** Toggling a list of windows: when every one is already in the state
      (vacuously so for none) each leaves it, otherwise each enters it. */
  function ToggleCommands(t: Toggle, wm: Wm, ids: seq<WinId>, time: Time): seq<Command> {
    var all := AllInState(t, wm, ids);
    seq(|ids|, k requires 0 <= k < |ids| => if all then LeaveState(t, ids[k], time) else EnterState(t, ids[k]))
  }

  /** The toggle is all-or-nothing in both directions: every request
      un-sets exactly when every window was in the state, and every request
      sets exactly when some window was not. */
  lemma ToggleChoice(t: Toggle, wm: Wm, ids: seq<WinId>, time: Time)
    requires ids != []
    ensures var cmds := ToggleCommands(t, wm, ids, time);
            |cmds| == |ids| &&
            ((forall k :: 0 <= k < |ids| ==> cmds[k] == LeaveState(t, ids[k], time)) <==> AllInState(t, wm, ids)) &&
            ((forall k :: 0 <= k < |ids| ==> cmds[k] == EnterState(t, ids[k])) <==> !AllInState(t, wm, ids))
  {
    var cmds := ToggleCommands(t, wm, ids, time);
    assert LeaveState(t, ids[0], time) != EnterState(t, ids[0]);
    assert cmds[0] == if AllInState(t, wm, ids) then LeaveState(t, ids[0], time) else EnterState(t, ids[0]);
  }

  /** The first loop of the toggle-all actions: stop at the first window
      not in the state. */
  method AllWindowsInState(t: Toggle, wm: Wm, windows: seq<Window>) returns (all: bool)
    ensures all == AllInState(t, wm, Ids(windows))
  {
    all := true;
    var i := 0;
    while i < |windows|
      invariant 0 <= i <= |windows|
      invariant forall k :: 0 <= k < i ==> InState(t, wm, windows[k].id)
    {
      if !InState(t, wm, windows[i].id) {
        all := false;
        break;
      }
      i := i + 1;
    }
  }

  /** The toggle-all actions' loops: decide, then one request per window. */
  method ToggleList(t: Toggle, wm: Wm, windows: seq<Window>, time: Time) returns (cmds: seq<Command>)
    ensures cmds == ToggleCommands(t, wm, Ids(windows), time)
  {
    var all := AllWindowsInState(t, wm, windows);
    ghost var goal := ToggleCommands(t, wm, Ids(windows), time);
    cmds := [];
    var i := 0;
    while i < |windows|
      invariant 0 <= i <= |windows| && |cmds| == i
      invariant forall k :: 0 <= k < i ==> cmds[k] == goal[k]
    {
      var id := windows[i].id;
      cmds := cmds + [if all then LeaveState(t, id, time) else EnterState(t, id)];
      i := i + 1;
    }
  }

  /** One close request per window, in list order. */
  method CloseList(windows: seq<Window>, time: Time) returns (cmds: seq<Command>)
    ensures |cmds| == |windows|
    ensures forall k :: 0 <= k < |windows| ==> cmds[k] == CloseWindow(windows[k].id, time)
  {
    cmds := [];
    var i := 0;
    while i < |windows|
      invariant 0 <= i <= |windows| && |cmds| == i
      invariant forall k :: 0 <= k < i ==> cmds[k] == CloseWindow(windows[k].id, time)
    {
      cmds := cmds + [CloseWindow(windows[i].id, time)];
      i := i + 1;
    }
  }

  // ---------------------------------------------------------------------
  // The search buffer and the match label

  /** The buffer after typing: the first printable key creates it empty. */
  function Typed(buffer: Option<string>, text: string): (r: string)
    ensures buffer.Some? ==> r == buffer.value + text
    ensures buffer.None? ==> r == text
  {
    (if buffer.Some? then buffer.value else "") + text
  }

  /** The buffer after backspace: one character fewer, unless empty. */
  function Erased(s: string): (r: string)
    ensures s != [] ==> r + [s[|s| - 1]] == s
    ensures s == [] ==> r == []
  {
    if s == [] then s else s[..|s| - 1]
  }

  /** Backspace undoes typing one character, whether or not the buffer
      existed before. */
  lemma EraseUndoesTyping(buffer: Option<string>, c: char)
    ensures Erased(Typed(buffer, [c])) == (if buffer.Some? then buffer.value else "")
  {
    var s := Typed(buffer, [c]);
    assert s[..|s| - 1] == (if buffer.Some? then buffer.value else "");
  }

  /** The label beside the search text. */
  function MatchLabel(n: nat): string {
    if n == 1 then "(1 match)" else "(" + Decimal(n) + " matches)"
  }

  lemma {:induction false} DecimalInjective(m: nat, n: nat)
    requires Decimal(m) == Decimal(n)
    ensures m == n
    decreases m
  {
    var a, b := Decimal(m), Decimal(n);
    if m >= 10 && n >= 10 {
      assert a[..|a| - 1] == Decimal(m / 10);
      assert b[..|b| - 1] == Decimal(n / 10);
      DecimalInjective(m / 10, n / 10);
      assert a[|a| - 1] == b[|b| - 1];
    }
  }

  /** The label names the count: different counts give different labels. */
  lemma MatchLabelNamesCount(m: nat, n: nat)
    requires MatchLabel(m) == MatchLabel(n)
    ensures m == n
  {
    var a, b := MatchLabel(m), MatchLabel(n);
    if m != 1 && n != 1 {
      assert a[1..|a| - 9] == Decimal(m);
      assert b[1..|b| - 9] == Decimal(n);
      DecimalInjective(m, n);
    }
  }

  // ---------------------------------------------------------------------
  // Keys

  /** The keys the popup reacts to. Keypad keys are folded into their
      main-keyboard twins; Enter stands for Return, ISO_Enter and KP_Enter,
      Super for either Super key; FKey(n) is the function key Fn. */
  datatype Key =
    | Left | Right | Up | Down | PageUp | PageDown | Insert | Delete | Tab | Escape
    | FKey(number: nat) | Super | Enter | BackSpace | OtherKey

  /** What a key press asks for. */
  datatype Action =
    | WorkspaceByDelta(delta: int, bring: bool, all: bool)
    | WindowByDelta(delta: int, bring: bool)
    | ToggleWindows(toggle: Toggle, all: bool)
    | AddWorkspace(bring: bool)
    | DeleteEmptyWorkspaces(all: bool)
    | CycleStacking(backwards: bool)
    | CloseWindows(all: bool)
    | SwitchTo(n: nat, bring: bool, all: bool)
    | NextScreen
    | CycleLogical(backwards: bool)
    | EraseSearch
    | TypeSearch(text: string)
    | NoAction

  /** popup_on_key_press's case analysis. `text` is the string the key
      types (empty when it types nothing). */
  function Dispatch(key: Key, text: string, shifted: bool, ctrled: bool): Action {
    match key
    case Left => WorkspaceByDelta(-1, shifted, ctrled)
    case Right => WorkspaceByDelta(1, shifted, ctrled)
    case Up => WindowByDelta(-1, shifted)
    case Down => WindowByDelta(1, shifted)
    case PageUp => ToggleWindows(MaximizeToggle, ctrled)
    case PageDown => ToggleWindows(MinimizeToggle, ctrled)
    case Insert => AddWorkspace(shifted)
    case Delete => DeleteEmptyWorkspaces(shifted || ctrled)
    case Tab => CycleStacking(shifted)
    case Escape => CloseWindows(ctrled)
    case Super => NextScreen
    case Enter => CycleLogical(shifted)
    case BackSpace => EraseSearch
    case FKey(n) =>
      if 1 <= n <= NUMBER_OF_F_KEYS then SwitchTo(n - 1, shifted, ctrled)
      else if text != "" then TypeSearch(text) else NoAction
    case OtherKey => if text != "" then TypeSearch(text) else NoAction
  }

  /** The function key a workspace's header shows is the one that switches
      to it: workspace j is titled "F" and j + 1, and Fj+1 selects j. */
  lemma FKeySwitchesToTitledWorkspace(j: nat, text: string, shifted: bool, ctrled: bool)
    requires j < NUMBER_OF_F_KEYS
    ensures FKeyTitle(j) == "F" + Decimal(j + 1)
    ensures Dispatch(FKey(j + 1), text, shifted, ctrled) == SwitchTo(j, shifted, ctrled)
  {
    FKeyTitleNumbers(j);
  }

  /** Opposite keys undo each other: Left after Right (without bringing
      anything) returns to the workspace, Up after Down to the window, and
      Shift-Tab after Tab to the window in stacking order. */
  lemma OppositeKeysUndo(current: nat, n: nat, ws: seq<Window>, p: nat, e: seq<WinId>, a: WinId)
    requires current < n && UniqueIds(ws) && p < |ws| && |ws| > 1 && NoDup(e) && a in e
    ensures var l, r := Dispatch(Left, "", false, false), Dispatch(Right, "", false, false);
            l.WorkspaceByDelta? && r.WorkspaceByDelta? &&
            RelativeWorkspace(RelativeWorkspace(current, r.delta, n), l.delta, n) == current
    ensures var u, d := Dispatch(Up, "", false, false), Dispatch(Down, "", false, false);
            u.WindowByDelta? && d.WindowByDelta? &&
            var next := DeltaTarget(ws, Some(ws[p].id), d.delta);
            next.Some? && DeltaTarget(ws, Some(ws[next.value].id), u.delta) == Some(p)
    ensures var f, b := Dispatch(Tab, "", false, false), Dispatch(Tab, "", true, false);
            f.CycleStacking? && b.CycleStacking? &&
            StackingTarget(e, Some(StackingTarget(e, Some(a), f.backwards).value), b.backwards) == Some(a)
  {
    RelativeRoundTrip(current, n);
    DeltaRoundTrip(ws, p);
    StackingRoundTrip(e, a, false);
  }

  // ---------------------------------------------------------------------
  // The popup

  /** The time stored while no new-workspace completion is pending: -1 in
      a guint32. */
  const NO_TIME: Time := 0xFFFF_FFFF

  class Popup {
    const screen: Screen
    /** The search text, or None before the first printable key creates the
        search widget. */
    var searchText: Option<string>
    var matchLabel: string
    /** The pending completion of action_new_workspace. */
    var owcCompleteNewWorkspace: bool
    var owcBringActiveWindow: bool
    var owcTime: Time

    /** popup_create: the screen's search is reset to the empty query. */
    constructor (s: Screen)
      requires s.Valid()
      modifies s
      ensures screen == s && s.Valid()
      ensures s.workspaces == ApplySearch(old(s.workspaces), "")
      ensures s.numSearchMatches == CountSensitiveAll(s.workspaces)
      ensures s.PointersOf() == old(s.PointersOf())
      ensures searchText.None? && matchLabel == ""
      ensures !owcCompleteNewWorkspace && !owcBringActiveWindow && owcTime == NO_TIME
    {
      s.UpdateSearch("");
      screen := s;
      searchText := None;
      matchLabel := "";
      owcCompleteNewWorkspace := false;
      owcBringActiveWindow := false;
      owcTime := NO_TIME;
    }

    /** action_change_active_window_by_delta. The active workspace must be
        listed; with bring-along the active window must be one of its
        windows. */
    method ChangeActiveWindowByDelta(delta: int, bring: bool, time: Time, warp: bool, geometry: WinId -> Rect)
      returns (cmds: seq<Command>)
      requires screen.Valid() && ActiveIndex(screen.workspaces, screen.activeWorkspace).Some?
      requires delta == 1 || delta == -1
      requires bring && screen.activeWindow.Some? ==>
                 Holds(screen.workspaces[ActiveIndex(screen.workspaces, screen.activeWorkspace).value].windows,
                       screen.activeWindow.value)
      modifies screen
      ensures screen.Valid()
      ensures screen.PointersOf() == old(screen.PointersOf()) && screen.CachesOf() == old(screen.CachesOf())
      ensures var a := ActiveIndex(old(screen.workspaces), old(screen.activeWorkspace)).value;
              var ws := old(screen.workspaces)[a].windows;
              var aw := old(screen.activeWindow);
              (Brings(bring, aw, ws) ==>
                 var p := IndexOf(ws, aw.value);
                 cmds == [] &&
                 screen.workspaces == old(screen.workspaces)[a := old(screen.workspaces)[a].(
                   windows := Reordered(ws, ws[p], BringIndex(p, delta, |ws|)))]) &&
              (!Brings(bring, aw, ws) ==>
                 screen.workspaces == old(screen.workspaces) &&
                 cmds == DeltaCommands(ws, aw, delta, time, warp, geometry, old(screen.pointerNeedsRecentering)))
    {
      var a := ActiveIndex(screen.workspaces, screen.activeWorkspace).value;
      var windows := screen.workspaces[a].windows;
      var aw := screen.activeWindow;
      var recentering := screen.pointerNeedsRecentering;
      var n := |windows|;
      cmds := [];
      if aw.None? {
        if n > 0 {
          var w := if delta == 1 then windows[0] else windows[n - 1];
          cmds := WindowActivation(Some(w.id), geometry(w.id), time, warp, recentering);
        }
        return;
      }
      if n <= 1 {
        return;
      }
      if bring {
        var p := IndexOf(windows, aw.value);
        var target := p + delta;
        if target == -1 {
          target := n - 1;
        } else if target == n {
          target := 0;
        }
        screen.ReorderWindow(a, aw, target);
        return;
      }
      var t := CycleWindows(windows, aw.value, delta);
      if t.Some? {
        cmds := WindowActivation(t, geometry(t.value), time, warp, recentering);
      }
    }

    /** The popup's scroll handler: up and left cycle back one window,
        down and right forward, shift brings the active window along, and
        the pointer is not warped. */
    method OnScroll(d: ScrollDirection, shifted: bool, time: Time, geometry: WinId -> Rect)
      returns (cmds: seq<Command>)
      requires screen.Valid() && ActiveIndex(screen.workspaces, screen.activeWorkspace).Some?
      requires shifted && screen.activeWindow.Some? ==>
                 Holds(screen.workspaces[ActiveIndex(screen.workspaces, screen.activeWorkspace).value].windows,
                       screen.activeWindow.value)
      modifies screen
      ensures screen.Valid()
      ensures var a := ActiveIndex(old(screen.workspaces), old(screen.activeWorkspace)).value;
              var ws := old(screen.workspaces)[a].windows;
              var aw := old(screen.activeWindow);
              (Brings(shifted, aw, ws) ==>
                 var p := IndexOf(ws, aw.value);
                 cmds == [] &&
                 screen.workspaces == old(screen.workspaces)[a := old(screen.workspaces)[a].(
                   windows := Reordered(ws, ws[p], BringIndex(p, ScrollDelta(d), |ws|)))]) &&
              (!Brings(shifted, aw, ws) ==>
                 screen.workspaces == old(screen.workspaces) &&
                 cmds == DeltaCommands(ws, aw, ScrollDelta(d), time, false, geometry, old(screen.pointerNeedsRecentering)))
    {
      cmds := ChangeActiveWindowByDelta(ScrollDelta(d), shifted, time, false, geometry);
    }

    /** action_window_toggle_maximize and action_window_toggle_minimize.
        All mode toggles every window of the active workspace and does
        nothing without one; single mode toggles the active window and does
        nothing without one, which is toggling the one-window list. */
    method ToggleState(t: Toggle, all: bool, time: Time, wm: Wm) returns (cmds: seq<Command>)
      requires all && screen.activeWorkspace.Some? ==> ActiveIndex(screen.workspaces, screen.activeWorkspace).Some?
      ensures all && screen.activeWorkspace.None? ==> cmds == []
      ensures all && screen.activeWorkspace.Some? ==>
                var ws := screen.workspaces[ActiveIndex(screen.workspaces, screen.activeWorkspace).value].windows;
                cmds == ToggleCommands(t, wm, Ids(ws), time)
      ensures !all && screen.activeWindow.None? ==> cmds == []
      ensures !all && screen.activeWindow.Some? ==>
                cmds == ToggleCommands(t, wm, [screen.activeWindow.value], time)
    {
      cmds := [];
      if all {
        if screen.activeWorkspace.None? {
          return;
        }
        var a := ActiveIndex(screen.workspaces, screen.activeWorkspace).value;
        cmds := ToggleList(t, wm, screen.workspaces[a].windows, time);
      } else {
        if screen.activeWindow.None? {
          return;
        }
        var id := screen.activeWindow.value;
        if InState(t, wm, id) {
          cmds := [LeaveState(t, id, time)];
        } else {
          cmds := [EnterState(t, id)];
        }
      }
    }

    /** action_close_active_window: every window of the active workspace,
        each exactly once, or the active window alone. */
    method CloseActiveWindow(all: bool, time: Time) returns (cmds: seq<Command>)
      requires screen.Valid()
      requires all && screen.activeWorkspace.Some? ==> ActiveIndex(screen.workspaces, screen.activeWorkspace).Some?
      ensures all && screen.activeWorkspace.None? ==> cmds == []
      ensures all && screen.activeWorkspace.Some? ==>
                var ws := screen.workspaces[ActiveIndex(screen.workspaces, screen.activeWorkspace).value].windows;
                |cmds| == |ws| && NoDup(cmds) &&
                forall k :: 0 <= k < |ws| ==> cmds[k] == CloseWindow(ws[k].id, time)
      ensures !all ==> cmds == if screen.activeWindow.Some? then [CloseWindow(screen.activeWindow.value, time)] else []
    {
      cmds := [];
      if all {
        if screen.activeWorkspace.None? {
          return;
        }
        var a := ActiveIndex(screen.workspaces, screen.activeWorkspace).value;
        var ws := screen.workspaces[a].windows;
        cmds := CloseList(ws, time);
        UniqueInWorkspace(screen.workspaces, a);
      } else if screen.activeWindow.Some? {
        cmds := [CloseWindow(screen.activeWindow.value, time)];
      }
    }

    /** action_new_workspace: ask for one more workspace and leave the rest
        to the next workspace-created event. */
    method NewWorkspace(bring: bool, time: Time) returns (cmds: seq<Command>)
      modifies this
      ensures cmds == [SetWorkspaceCount(|screen.workspaces| + 1)]
      ensures owcCompleteNewWorkspace && owcBringActiveWindow == bring && owcTime == time
      ensures searchText == old(searchText) && matchLabel == old(matchLabel)
    {
      cmds := [SetWorkspaceCount(|screen.workspaces| + 1)];
      owcCompleteNewWorkspace := true;
      owcBringActiveWindow := bring;
      owcTime := time;
    }

    /** The popup's workspace-created handler: when a new-workspace action
        is pending, bring the window manager's active window along if asked
        (nothing happens for none) and activate the new workspace at the
        stored time; the pending state is cleared, so it fires once. */
    method OnWorkspaceCreated(created: WsId, wmActiveWindow: Option<WinId>) returns (cmds: seq<Command>)
      modifies this
      ensures !old(owcCompleteNewWorkspace) ==> cmds == [] && owcTime == old(owcTime)
      ensures old(owcCompleteNewWorkspace) ==>
                cmds == (if old(owcBringActiveWindow) && wmActiveWindow.Some?
                         then [MoveToWorkspace(wmActiveWindow.value, created)] else []) +
                        [ActivateWorkspace(created, old(owcTime))] &&
                owcTime == NO_TIME && !owcBringActiveWindow
      ensures !owcCompleteNewWorkspace
      ensures searchText == old(searchText) && matchLabel == old(matchLabel)
    {
      cmds := [];
      if owcCompleteNewWorkspace {
        if owcBringActiveWindow && wmActiveWindow.Some? {
          cmds := [MoveToWorkspace(wmActiveWindow.value, created)];
        }
        cmds := cmds + [ActivateWorkspace(created, owcTime)];
        owcCompleteNewWorkspace := false;
        owcBringActiveWindow := false;
        owcTime := NO_TIME;
      }
    }

    /** action_delete_workspace_if_empty, with the all-mode walk corrected
        so that the pointer never runs past the last workspace. Single mode
        needs the active workspace to be listed. */
    method DeleteWorkspaceIfEmpty(all: bool, time: Time) returns (cmds: seq<Command>)
      requires !all ==> ActiveIndex(screen.workspaces, screen.activeWorkspace).Some?
      ensures cmds == DeletionCommands(screen.workspaces, ActiveIndex(screen.workspaces, screen.activeWorkspace), all, time)
    {
      var wss := screen.workspaces;
      var active := ActiveIndex(wss, screen.activeWorkspace);
      var moves: seq<Command> := [];
      var activate: Option<WsId> := None;
      var deleted := 0;
      if all {
        moves, activate, deleted := CompactAll(wss, active);
      } else if wss[active.value].windows == [] {
        moves := ShiftLeft(wss, active.value);
        deleted := 1;
      }
      cmds := moves;
      if activate.Some? {
        cmds := cmds + [ActivateWorkspace(activate.value, time)];
      }
      if deleted > 0 {
        cmds := cmds + [SetWorkspaceCount(DeletePlans.Max(1, |wss| - deleted))];
      }
    }

    /** update_search: filter the mirror by the buffer and relabel. */
    method RefreshSearch(query: string)
      requires screen.Valid()
      modifies screen, this
      ensures screen.Valid()
      ensures screen.workspaces == ApplySearch(old(screen.workspaces), query)
      ensures screen.numSearchMatches == CountSensitiveAll(screen.workspaces)
      ensures matchLabel == MatchLabel(CountSensitiveAll(screen.workspaces))
      ensures screen.PointersOf() == old(screen.PointersOf())
      ensures searchText == old(searchText)
      ensures owcCompleteNewWorkspace == old(owcCompleteNewWorkspace) && owcTime == old(owcTime)
      ensures owcBringActiveWindow == old(owcBringActiveWindow)
    {
      screen.UpdateSearch(query);
      matchLabel := MatchLabel(screen.numSearchMatches);
    }

    /** Backspace: with a search widget, drop the last character (if any)
        and refilter; without one, nothing. */
    method EraseLast()
      requires screen.Valid()
      modifies screen, this
      ensures screen.Valid()
      ensures old(searchText).None? ==> searchText.None? && screen.workspaces == old(screen.workspaces)
      ensures old(searchText).Some? ==>
                searchText == Some(Erased(old(searchText).value)) &&
                screen.workspaces == ApplySearch(old(screen.workspaces), searchText.value) &&
                matchLabel == MatchLabel(CountSensitiveAll(screen.workspaces))
      ensures screen.PointersOf() == old(screen.PointersOf())
    {
      if searchText.None? {
        return;
      }
      var s := searchText.value;
      if |s| > 0 {
        searchText := Some(s[..|s| - 1]);
      }
      RefreshSearch(searchText.value);
    }

    /** A printable key: create the (empty) search widget if needed, append
        the typed text and refilter. */
    method Type(text: string)
      requires screen.Valid()
      modifies screen, this
      ensures screen.Valid()
      ensures searchText == Some(Typed(old(searchText), text))
      ensures screen.workspaces == ApplySearch(old(screen.workspaces), searchText.value)
      ensures matchLabel == MatchLabel(CountSensitiveAll(screen.workspaces))
      ensures screen.PointersOf() == old(screen.PointersOf())
    {
      if searchText.None? {
        searchText := Some("");
      }
      searchText := Some(searchText.value + text);
      RefreshSearch(searchText.value);
    }

    /** action_change_xinerama: move the active window to the next
        physical screen, keeping its offset from the screen's origin. */
    method ChangeXinerama(wm: Wm) returns (cmds: seq<Command>)
      requires |screen.xinerama.screens| >= 1
      ensures |screen.xinerama.screens| == 1 || screen.activeWindow.None? ==> cmds == []
      ensures |screen.xinerama.screens| > 1 && screen.activeWindow.Some? ==>
                var x, id := screen.xinerama, screen.activeWindow.value;
                var n, best := |x.screens|, BestScreen(x.screens, wm.geometry(id));
                |cmds| == (if wm.isMaximized(id) then 3 else 1) &&
                var moved := if wm.isMaximized(id) then cmds[1] else cmds[0];
                moved == MoveWindow(id, x.screens[(best + 1) % n].x + wm.frame(id).x - x.screens[best].x,
                                    x.screens[(best + 1) % n].y + wm.frame(id).y - x.screens[best].y) &&
                (wm.isMaximized(id) ==> cmds[0] == Unmaximize(id) && cmds[2] == Maximize(id))
    {
      var aw := screen.activeWindow;
      var id := if aw.Some? then aw.value else 0;
      cmds := MoveToNextScreen(screen.xinerama, aw, wm.isMaximized(id), wm.geometry(id), wm.frame(id));
    }

    /** What each action needs of the state: the screen's invariant, a
        listed active workspace where the action reads its windows, a
        workspace to step to, and a physical screen. */
    ghost predicate Ready(act: Action)
      reads this, screen
    {
      var wss, aws, aw := screen.workspaces, screen.activeWorkspace, screen.activeWindow;
      screen.Valid() &&
      match act
      case WorkspaceByDelta(_, bring, all) =>
        |wss| > 0 && (bring && all && aws.Some? ==> WorkspaceIndex(wss, aws.value) >= 0)
      case SwitchTo(_, bring, all) => bring && all && aws.Some? ==> WorkspaceIndex(wss, aws.value) >= 0
      case WindowByDelta(delta, bring) =>
        (delta == 1 || delta == -1) && ActiveIndex(wss, aws).Some? &&
        (bring && aw.Some? ==> Holds(wss[ActiveIndex(wss, aws).value].windows, aw.value))
      case ToggleWindows(_, all) => all && aws.Some? ==> ActiveIndex(wss, aws).Some?
      case CloseWindows(all) => all && aws.Some? ==> ActiveIndex(wss, aws).Some?
      case DeleteEmptyWorkspaces(all) => !all ==> ActiveIndex(wss, aws).Some?
      case CycleStacking(_) => ActiveIndex(wss, aws).Some?
      case NextScreen => |screen.xinerama.screens| >= 1
      case _ => true
    }

    /** The actions that only ask the window manager for something and
        leave the popup and the mirror as they are. */
    static predicate Asks(act: Action) {
      act.WorkspaceByDelta? || act.SwitchTo? || act.ToggleWindows? || act.CloseWindows? ||
      act.DeleteEmptyWorkspaces? || act.CycleLogical? || act.NextScreen? || act.NoAction?
    }

    /** The requests of an asking action other than NextScreen, read off
        the state: the key map as one definition. */
    ghost function Requests(act: Action, time: Time, wm: Wm): seq<Command>
      reads this, screen
      requires Ready(act) && Asks(act) && !act.NextScreen?
    {
      var wss, aws, aw := screen.workspaces, screen.activeWorkspace, screen.activeWindow;
      match act
      case WorkspaceByDelta(delta, bring, all) =>
        SwitchCommands(Carried(wss, aws, aw, bring, all),
                       wss[RelativeWorkspace(screen.activeWorkspaceId, delta, |wss|)].id, time)
      case SwitchTo(n, bring, all) =>
        if n < |wss| then SwitchCommands(Carried(wss, aws, aw, bring, all), wss[n].id, time) else []
      case ToggleWindows(t, all) =>
        if all then (if aws.None? then [] else ToggleCommands(t, wm, Ids(wss[ActiveIndex(wss, aws).value].windows), time))
        else if aw.None? then [] else ToggleCommands(t, wm, [aw.value], time)
      case CloseWindows(all) =>
        if all then
          (if aws.None? then []
           else var ws := wss[ActiveIndex(wss, aws).value].windows;
                seq(|ws|, k requires 0 <= k < |ws| => CloseWindow(ws[k].id, time)))
        else if aw.None? then [] else [CloseWindow(aw.value, time)]
      case DeleteEmptyWorkspaces(all) => DeletionCommands(wss, ActiveIndex(wss, aws), all, time)
      case CycleLogical(backwards) =>
        LogicalCommands(wss, aw, aws, backwards, time, wm.geometry, screen.pointerNeedsRecentering)
      case NoAction => []
    }

    /** The asking actions, run against the state as it is: each one's
        requests are the key map's; the next-screen move does nothing on a
        single screen or without an active window, and otherwise moves the
        active window to the screen after the one it mostly lies on. */
    method Ask(act: Action, time: Time, wm: Wm) returns (cmds: seq<Command>)
      requires Ready(act) && Asks(act)
      ensures !act.NextScreen? ==> cmds == Requests(act, time, wm)
      ensures act.NextScreen? && (|screen.xinerama.screens| == 1 || screen.activeWindow.None?) ==> cmds == []
      ensures act.NextScreen? && |screen.xinerama.screens| > 1 && screen.activeWindow.Some? ==>
                var x, id := screen.xinerama, screen.activeWindow.value;
                var n, best := |x.screens|, BestScreen(x.screens, wm.geometry(id));
                |cmds| == (if wm.isMaximized(id) then 3 else 1) &&
                (if wm.isMaximized(id) then cmds[1] else cmds[0]) ==
                  MoveWindow(id, x.screens[(best + 1) % n].x + wm.frame(id).x - x.screens[best].x,
                             x.screens[(best + 1) % n].y + wm.frame(id).y - x.screens[best].y) &&
                (wm.isMaximized(id) ==> cmds[0] == Unmaximize(id) && cmds[2] == Maximize(id))
    {
      match act {
        case WorkspaceByDelta(delta, bring, all) =>
          cmds := screen.ChangeActiveWorkspaceByDelta(delta, bring, all, time);
        case SwitchTo(n, bring, all) =>
          cmds := screen.ChangeActiveWorkspace(n, bring, all, time);
        case ToggleWindows(t, all) =>
          cmds := ToggleState(t, all, time, wm);
        case CloseWindows(all) =>
          cmds := CloseActiveWindow(all, time);
        case DeleteEmptyWorkspaces(all) =>
          cmds := DeleteWorkspaceIfEmpty(all, time);
        case NextScreen =>
          cmds := ChangeXinerama(wm);
        case CycleLogical(backwards) =>
          cmds := screen.ActivateNextWindow(backwards, time, wm.geometry);
        case NoAction =>
          cmds := [];
      }
    }

    /** popup_on_key_press: dispatch the key and run its action. `text` is
        what the key types, `wm` the window manager's answers at this
        moment. */
    method OnKeyPress(key: Key, text: string, shifted: bool, ctrled: bool, time: Time, wm: Wm)
      returns (cmds: seq<Command>)
      requires Ready(Dispatch(key, text, shifted, ctrled))
      modifies this, screen
      ensures screen.Valid() && screen.PointersOf() == old(screen.PointersOf())
      ensures var act := Dispatch(key, text, shifted, ctrled);
              Asks(act) ==> unchanged(this) && unchanged(screen) &&
                            (!act.NextScreen? ==> cmds == old(Requests(act, time, wm)))
      ensures var act := Dispatch(key, text, shifted, ctrled);
              act.NextScreen? ==> (|screen.xinerama.screens| == 1 || screen.activeWindow.None? ==> cmds == [])
      ensures var act := Dispatch(key, text, shifted, ctrled);
              act.AddWorkspace? ==>
                unchanged(screen) && cmds == [SetWorkspaceCount(|screen.workspaces| + 1)] &&
                owcCompleteNewWorkspace && owcBringActiveWindow == act.bring && owcTime == time
      ensures var act := Dispatch(key, text, shifted, ctrled);
              act.WindowByDelta? ==>
                var a := ActiveIndex(old(screen.workspaces), old(screen.activeWorkspace)).value;
                var ws := old(screen.workspaces)[a].windows;
                var aw := old(screen.activeWindow);
                unchanged(this) &&
                (Brings(act.bring, aw, ws) ==>
                   var p := IndexOf(ws, aw.value);
                   cmds == [] &&
                   screen.workspaces == old(screen.workspaces)[a := old(screen.workspaces)[a].(
                     windows := Reordered(ws, ws[p], BringIndex(p, act.delta, |ws|)))]) &&
                (!Brings(act.bring, aw, ws) ==>
                   screen.workspaces == old(screen.workspaces) &&
                   cmds == DeltaCommands(ws, aw, act.delta, time, true, wm.geometry, old(screen.pointerNeedsRecentering)))
      ensures var act := Dispatch(key, text, shifted, ctrled);
              act.CycleStacking? ==>
                unchanged(this) && screen.workspaces == old(screen.workspaces) &&
                (screen.workspaces[ActiveIndex(screen.workspaces, screen.activeWorkspace).value].windows == [] ==>
                   cmds == [] && screen.ignoreNextStackingChange == old(screen.ignoreNextStackingChange)) &&
                (screen.workspaces[ActiveIndex(screen.workspaces, screen.activeWorkspace).value].windows != [] ==>
                   screen.ignoreNextStackingChange &&
                   cmds == StackingCommands(screen.workspaces, screen.stacking, screen.activeWindow, wm,
                                            act.backwards, time, screen.pointerNeedsRecentering))
      ensures var act := Dispatch(key, text, shifted, ctrled);
              act.EraseSearch? ==>
                cmds == [] &&
                (old(searchText).None? ==> searchText.None? && screen.workspaces == old(screen.workspaces)) &&
                (old(searchText).Some? ==>
                   searchText == Some(Erased(old(searchText).value)) &&
                   screen.workspaces == ApplySearch(old(screen.workspaces), searchText.value) &&
                   matchLabel == MatchLabel(CountSensitiveAll(screen.workspaces)))
      ensures var act := Dispatch(key, text, shifted, ctrled);
              act.TypeSearch? ==>
                cmds == [] && searchText == Some(Typed(old(searchText), act.text)) &&
                screen.workspaces == ApplySearch(old(screen.workspaces), searchText.value) &&
                matchLabel == MatchLabel(CountSensitiveAll(screen.workspaces))
    {
      var act := Dispatch(key, text, shifted, ctrled);
      cmds := [];
      if Asks(act) {
        cmds := Ask(act, time, wm);
        return;
      }
      match act {
        case WindowByDelta(delta, bring) =>
          cmds := ChangeActiveWindowByDelta(delta, bring, time, true, wm.geometry);
        case AddWorkspace(bring) =>
          cmds := NewWorkspace(bring, time);
        case CycleStacking(backwards) =>
          cmds := screen.ActivateNextWindowInStackingOrder(backwards, time, wm);
        case EraseSearch =>
          EraseLast();
        case TypeSearch(typed) =>
          Type(typed);
      }
    }
  }
}
