/** SSScreen: the switcher's mirror of the window manager. It holds the
    workspaces in the window manager's order, each with its windows in
    display order, the active window and workspace, the cached stacking
    order with its one-shot suppression flag, and the search match count.
    Window-manager notifications arrive as handler calls; requests to the
    window manager are returned as command lists. */
module Screens {
  import opened Common
  import opened Search
  import opened WindowLists
  import opened Navigation
  import opened Mirror
  import opened WindowActions
  import opened DragDrop
  import opened Monitors

  /** Number of workspaces that get an F-key title. */
  const NUMBER_OF_F_KEYS: nat := 12
  const F_KEYS: seq<string> := ["F1", "F2", "F3", "F4", "F5", "F6", "F7", "F8", "F9", "F10", "F11", "F12"]

  /** The title of the j-th workspace. */
  function FKeyTitle(j: nat): (t: string)
    ensures j >= NUMBER_OF_F_KEYS ==> t == ""
    ensures j < NUMBER_OF_F_KEYS ==> t != "" && t[0] == 'F'
  {
    if j < NUMBER_OF_F_KEYS then F_KEYS[j] else ""
  }

  /** Decimal digits of a natural number. */
  function Decimal(n: nat): (s: string)
    ensures |s| >= 1
    decreases n
  {
    if n < 10 then [(('0' as int) + n) as char]
    else Decimal(n / 10) + [(('0' as int) + n % 10) as char]
  }

  /** The F-key titles read "F" followed by the workspace's 1-based number. */
  lemma FKeyTitleNumbers(j: nat)
    requires j < NUMBER_OF_F_KEYS
    ensures FKeyTitle(j) == "F" + Decimal(j + 1)
  {
    if j + 1 >= 10 {
      assert Decimal(j + 1) == Decimal(1) + [(('0' as int) + (j + 1) % 10) as char];
    }
  }

  /** Whether the window manager's window is one the switcher tracks: not
      hidden from pagers and on some workspace. */
  predicate Tracks(wm: Wm, id: WinId) {
    !wm.skipPager(id) && wm.workspaceOf(id) >= 0
  }

  /** Tracked and on the window manager's workspace number n. */
  function OnWorkspace(wm: Wm, n: int): WinId -> bool {
    (x: WinId) => Tracks(wm, x) && wm.workspaceOf(x) == n
  }

  /** The fresh records ss_window_new makes for the given windows, in order. */
  function Opened(ids: seq<WinId>, wm: Wm): (r: seq<Window>)
    ensures |r| == |ids|
    ensures forall k :: 0 <= k < |ids| ==> r[k] == NewWindow(ids[k], wm.name(ids[k]))
  {
    seq(|ids|, k requires 0 <= k < |ids| => NewWindow(ids[k], wm.name(ids[k])))
  }

  /** Opening one more window of the window manager's list adds it at the
      end of its own workspace's list and leaves every other list alone. */
  lemma OpenedStep(windows: seq<WinId>, m: nat, wm: Wm, n: int)
    requires m < |windows|
    ensures var keep := OnWorkspace(wm, n);
            Opened(Filter(windows[..m + 1], keep), wm) ==
            Opened(Filter(windows[..m], keep), wm) + (if keep(windows[m]) then [NewWindow(windows[m], wm.name(windows[m]))] else [])
  {
    var keep := OnWorkspace(wm, n);
    FilterStep(windows, m, keep);
    var a := Opened(Filter(windows[..m], keep), wm);
    if keep(windows[m]) {
      assert Opened(Filter(windows[..m], keep) + [windows[m]], wm) == a + [NewWindow(windows[m], wm.name(windows[m]))];
    } else {
      assert a + [] == a;
    }
  }

  /** After ss_screen_new, a window is listed on workspace j exactly when
      it is in the window manager's list, tracked, and reported on j; the
      list keeps the window manager's order and holds each window once. */
  lemma OpenedOnReportedWorkspace(windows: seq<WinId>, wm: Wm, j: int, x: WinId)
    requires NoDup(windows)
    ensures var listed := Ids(Opened(Filter(windows, OnWorkspace(wm, j)), wm));
            listed == Filter(windows, OnWorkspace(wm, j)) && NoDup(listed) &&
            (x in listed <==> x in windows && Tracks(wm, x) && wm.workspaceOf(x) == j)
  {
    var f := Filter(windows, OnWorkspace(wm, j));
    assert Ids(Opened(f, wm)) == f;
    FilterNoDup(windows, OnWorkspace(wm, j));
  }

  /** The workspace lists after ss_screen_new has opened the first m
      windows of the window manager's list on top of `base`. */
  ghost predicate OpenedUpTo(base: seq<Workspace>, wss: seq<Workspace>, windows: seq<WinId>, m: nat, wm: Wm)
    requires m <= |windows|
  {
    |wss| == |base| &&
    forall j :: 0 <= j < |wss| ==> wss[j] == base[j].(windows := base[j].windows + Opened(Filter(windows[..m], OnWorkspace(wm, j)), wm))
  }

  /** One add_window_to_screen step of ss_screen_new keeps OpenedUpTo. */
  lemma OpenedAll(base: seq<Workspace>, wss: seq<Workspace>, wss': seq<Workspace>, windows: seq<WinId>, m: nat, wm: Wm)
    requires m < |windows| && OpenedUpTo(base, wss, windows, m, wm)
    requires !Tracks(wm, windows[m]) ==> wss' == wss
    requires Tracks(wm, windows[m]) ==>
               var n := wm.workspaceOf(windows[m]);
               n < |wss| && wss' == wss[n := wss[n].(windows := wss[n].windows + [NewWindow(windows[m], wm.name(windows[m]))])]
    ensures OpenedUpTo(base, wss', windows, m + 1, wm)
  {
    forall j | 0 <= j < |wss'|
      ensures wss'[j] == base[j].(windows := base[j].windows + Opened(Filter(windows[..m + 1], OnWorkspace(wm, j)), wm))
    {
      OpenedStep(windows, m, wm, j);
    }
  }

  /** The window ss_screen_new records as active after opening `ids`: the
      window manager's active window when it is among them and tracked,
      otherwise what was recorded before. */
  function ActiveOpened(ids: seq<WinId>, wm: Wm, prior: Option<WinId>): Option<WinId> {
    if wm.activeWindow.Some? && wm.activeWindow.value in ids && Tracks(wm, wm.activeWindow.value)
    then wm.activeWindow else prior
  }

  /** The next window of a duplicate-free list is not yet tracked. */
  lemma OpenedFresh(ids: seq<WinId>, windows: seq<WinId>, m: nat, wm: Wm)
    requires m < |windows| && NoDup(windows)
    requires forall x :: x in ids <==> x in windows[..m] && Tracks(wm, x)
    ensures windows[m] !in ids
  {
    NoDupFresh(windows, m);
  }

  /** One add_window_to_screen step: the tracked ids grow by the window
      exactly when it is tracked, and the active window follows it. */
  lemma OpenedIds(ids: seq<WinId>, ids': seq<WinId>, windows: seq<WinId>, m: nat, wm: Wm,
                  prior: Option<WinId>, active: Option<WinId>, active': Option<WinId>)
    requires m < |windows|
    requires forall x :: x in ids <==> x in windows[..m] && Tracks(wm, x)
    requires active == ActiveOpened(windows[..m], wm, prior)
    requires !Tracks(wm, windows[m]) ==> ids' == ids && active' == active
    requires Tracks(wm, windows[m]) ==> multiset(ids') == multiset(ids) + multiset{windows[m]}
    requires Tracks(wm, windows[m]) ==> active' == if wm.activeWindow == Some(windows[m]) then Some(windows[m]) else active
    ensures forall x :: x in ids' <==> x in windows[..m + 1] && Tracks(wm, x)
    ensures active' == ActiveOpened(windows[..m + 1], wm, prior)
  {
    assert windows[..m + 1] == windows[..m] + [windows[m]];
    forall x
      ensures x in ids' <==> x in windows[..m + 1] && Tracks(wm, x)
    {
      assert x in ids' <==> x in multiset(ids');
      assert x in ids <==> x in multiset(ids);
    }
  }

  /** The workspaces add_workspace_to_screen makes for the given ids, in
      order, before any window or title is set. */
  ghost predicate FreshWorkspaces(wss: seq<Workspace>, ids: seq<WsId>) {
    |wss| == |ids| && forall j :: 0 <= j < |wss| ==> wss[j] == Workspace(ids[j], "", [])
  }

  lemma FreshWorkspacesAppend(wss: seq<Workspace>, ids: seq<WsId>, id: WsId)
    requires FreshWorkspaces(wss, ids)
    ensures FreshWorkspaces(wss + [Workspace(id, "", [])], ids + [id])
  {
    var wss', ids' := wss + [Workspace(id, "", [])], ids + [id];
    forall j | 0 <= j < |wss'|
      ensures wss'[j] == Workspace(ids'[j], "", [])
    {
      if j < |wss| {
        assert wss'[j] == wss[j] && ids'[j] == ids[j];
      }
    }
  }

  /** Fresh workspaces carry exactly the given ids and no window. */
  lemma {:induction false} FreshWorkspacesIds(wss: seq<Workspace>, ids: seq<WsId>)
    requires FreshWorkspaces(wss, ids)
    ensures WsIds(wss) == ids && Flatten(wss) == []
  {
    if wss != [] {
      assert FreshWorkspaces(wss[1..], ids[1..]) by {
        forall j | 0 <= j < |wss| - 1
          ensures wss[1..][j] == Workspace(ids[1..][j], "", [])
        {
          assert wss[1..][j] == wss[j + 1];
        }
      }
      FreshWorkspacesIds(wss[1..], ids[1..]);
    }
  }

  /** Not hidden from pagers. */
  function Unskipped(skipPager: WinId -> bool): WinId -> bool {
    (x: WinId) => !skipPager(x)
  }

  /** The WM's bottom-to-top list without the windows hidden from pagers. */
  function Shown(stacked: seq<WinId>, skipPager: WinId -> bool): (r: seq<WinId>)
    ensures |r| <= |stacked|
    ensures forall x :: x in r <==> x in stacked && !skipPager(x)
  {
    Filter(stacked, Unskipped(skipPager))
  }

  /** The inner loop of ss_screen_update_search: each window of one
      workspace gets the flag of whether its lower-cased title contains
      every term, and the matches are counted. */
  method SearchWindowList(windows: seq<Window>, query: string, terms: seq<string>)
    returns (r: seq<Window>, count: nat)
    requires terms == Terms(LowerStr(query))
    ensures r == SearchWindows(windows, query)
    ensures count == CountSensitive(r)
  {
    ghost var goal := SearchWindows(windows, query);
    r := windows;
    count := 0;
    var j := 0;
    while j < |r|
      invariant 0 <= j <= |r| == |windows|
      invariant forall k :: 0 <= k < j ==> r[k] == goal[k]
      invariant forall k :: j <= k < |r| ==> r[k] == windows[k]
      invariant count == CountSensitive(r[..j])
    {
      var w := r[j];
      var matched := MatchesTerms(LowerStr(w.title), terms);
      var before := r;
      r := r[j := SetSensitive(w, matched)];
      assert r[..j] == before[..j];
      assert r[..j + 1][..j] == r[..j];
      if matched {
        count := count + 1;
      }
      j := j + 1;
    }
    assert r == goal;
    assert r[..j] == r;
  }

  /** Which windows change_active_workspace_to carries to the target: every
      window of the active workspace, only the active window, or none. */
  function Carried(wss: seq<Workspace>, activeWorkspace: Option<WsId>, activeWindow: Option<WinId>,
                   bring: bool, all: bool): seq<WinId>
  {
    if !bring then []
    else if all then
      (if activeWorkspace.Some? && WorkspaceIndex(wss, activeWorkspace.value) >= 0
       then Ids(wss[WorkspaceIndex(wss, activeWorkspace.value)].windows) else [])
    else if activeWindow.Some? then [activeWindow.value] else []
  }

  /** The requests of change_active_workspace_to: one move per carried
      window, then the activation of the target. */
  function SwitchCommands(carried: seq<WinId>, target: WsId, time: Time): (cmds: seq<Command>)
    ensures |cmds| == |carried| + 1
    ensures forall k :: 0 <= k < |carried| ==> cmds[k] == MoveToWorkspace(carried[k], target)
    ensures cmds[|carried|] == ActivateWorkspace(target, time)
  {
    seq(|carried|, k requires 0 <= k < |carried| => MoveToWorkspace(carried[k], target)) +
    [ActivateWorkspace(target, time)]
  }

  /** One move to the target per window, in list order. */
  function MovesTo(windows: seq<Window>, target: WsId): (cmds: seq<Command>)
    ensures |cmds| == |windows|
    ensures forall k :: 0 <= k < |windows| ==> cmds[k] == MoveToWorkspace(windows[k].id, target)
  {
    seq(|windows|, k requires 0 <= k < |windows| => MoveToWorkspace(windows[k].id, target))
  }

  /** The loop that asks the window manager to move each window of a list
      to one workspace. */
  method MoveAll(windows: seq<Window>, target: WsId) returns (cmds: seq<Command>)
    ensures cmds == MovesTo(windows, target)
  {
    cmds := [];
    var i := 0;
    while i < |windows|
      invariant 0 <= i <= |windows| && |cmds| == i
      invariant forall j :: 0 <= j < i ==> cmds[j] == MoveToWorkspace(windows[j].id, target)
    {
      cmds := cmds + [MoveToWorkspace(windows[i].id, target)];
      i := i + 1;
    }
  }

  /** Bringing everything moves each window of the active workspace to the
      target exactly once, in list order; bringing only the active window
      moves just it; the target is activated last in every case. */
  lemma CarriedWindows(wss: seq<Workspace>, aws: WsId, aw: Option<WinId>, target: WsId, time: Time)
    requires WorkspaceIndex(wss, aws) >= 0
    ensures var ws := wss[WorkspaceIndex(wss, aws)].windows;
            var cmds := SwitchCommands(Carried(wss, Some(aws), aw, true, true), target, time);
            |cmds| == |ws| + 1 &&
            (forall k :: 0 <= k < |ws| ==> cmds[k] == MoveToWorkspace(ws[k].id, target)) &&
            cmds[|ws|] == ActivateWorkspace(target, time)
    ensures aw.Some? ==>
              SwitchCommands(Carried(wss, Some(aws), aw, true, false), target, time)
              == [MoveToWorkspace(aw.value, target), ActivateWorkspace(target, time)]
  {
    var cmds := SwitchCommands(Carried(wss, Some(aws), aw, true, false), target, time);
    if aw.Some? {
      assert |cmds| == 2;
    }
  }

  /** The tracked window with this id, if any. */
  function Lookup(wss: seq<Workspace>, id: WinId): (r: Option<WinId>)
    ensures r.Some? <==> id in AllIds(wss)
    ensures r.Some? ==> r.value == id
  {
    IndexOfHolds(Flatten(wss), id);
    if IndexOf(Flatten(wss), id) >= 0 then Some(id) else None
  }

  /** The position of the screen's active workspace in the list, if it is
      still listed. */
  function ActiveIndex(wss: seq<Workspace>, aws: Option<WsId>): (r: Option<nat>)
    ensures r.Some? ==> r.value < |wss| && aws == Some(wss[r.value].id)
    ensures r.None? ==> aws.None? || forall q :: 0 <= q < |wss| ==> wss[q].id != aws.value
  {
    if aws.Some? && WorkspaceIndex(wss, aws.value) >= 0 then Some(WorkspaceIndex(wss, aws.value)) else None
  }

  /** The window at position t of the flattening together with the
      workspace it belongs to. */
  function Target(wss: seq<Workspace>, t: Option<nat>): (r: Option<(WsId, WinId)>)
    requires t.Some? ==> t.value < |Flatten(wss)|
    ensures r.Some? <==> t.Some?
    ensures t.Some? ==> r.value.1 == Flatten(wss)[t.value].id
  {
    if t.None? then None
    else Some((wss[Locate(wss, t.value)].id, Flatten(wss)[t.value].id))
  }

  /** ss_window_activate_workspace_and_window as the cyclers call it:
      warping allowed, the geometry of the window itself. */
  function Activation(t: Option<(WsId, WinId)>, geometry: WinId -> Rect, time: Time, recentering: bool)
    : (cmds: seq<Command>)
    ensures t.None? <==> cmds == []
    ensures t.Some? ==> |cmds| >= 2 && cmds[..2] == [ActivateWorkspace(t.value.0, time), ActivateWindow(t.value.1, NextTime(time))]
  {
    var cmds := WorkspaceAndWindowActivation(t, if t.Some? then geometry(t.value.1) else Rect(0, 0, 0, 0), time, true, recentering);
    if t.Some? then
      assert cmds[1] == cmds[1..][0];
      cmds
    else cmds
  }

  /** What ss_screen_activate_next_window requests: the workspace and
      window LogicalTarget picks. */
  function LogicalCommands(wss: seq<Workspace>, aw: Option<WinId>, aws: Option<WsId>, backwards: bool,
                           time: Time, geometry: WinId -> Rect, recentering: bool): (cmds: seq<Command>)
    ensures var t := LogicalTarget(wss, aw, ActiveIndex(wss, aws), backwards);
            (t.None? <==> cmds == []) &&
            (t.Some? ==> Flatten(wss)[t.value].sensitive && |cmds| >= 2 &&
                         cmds[1] == ActivateWindow(Flatten(wss)[t.value].id, NextTime(time)) &&
                         cmds[0] == ActivateWorkspace(wss[Locate(wss, t.value)].id, time))
  {
    var t := LogicalTarget(wss, aw, ActiveIndex(wss, aws), backwards);
    var cmds := Activation(Target(wss, t), geometry, time, recentering);
    if t.Some? then
      assert cmds[0] == cmds[..2][0] && cmds[1] == cmds[..2][1];
      cmds
    else cmds
  }

  function Clip(o: Option<nat>, p: nat): Option<nat> {
    if o.Some? && o.value < p then o else None
  }

  predicate Beyond(o: Option<nat>, p: nat) {
    o.None? || o.value >= p
  }

  /** The first sensitive window from position s on, wrapping around once
      (forward), or the last one before s, wrapping around once
      (backward). */
  ghost function Answer(wss: seq<Workspace>, backwards: bool, s: nat): Option<nat>
    requires s <= |Flatten(wss)|
  {
    var f := Flatten(wss);
    if backwards then Or(LastSensitiveBefore(f, s), LastSensitiveBefore(f, |f|))
    else Or(FirstSensitiveFrom(f, s), FirstSensitiveFrom(f, 0))
  }

  /** The logical cycler's local variables: the latest and the first
      sensitive window met, and the two flags. */
  datatype Scan = Scan(prev: Option<(WsId, WinId)>, first: Option<(WsId, WinId)>, nextFlag: bool, lastFlag: bool)

  /** The state of the logical cycler's scan after the first P windows of
      the flattening: `prev` is the last sensitive window seen, `first` the
      first one; once the scan has passed its starting point s it has set
      the flag of its direction and, had the answer been among the windows
      seen, it would have returned already. */
  ghost predicate Scanned(wss: seq<Workspace>, backwards: bool, s: nat, P: nat, started: bool, st: Scan)
  {
    var f := Flatten(wss);
    P <= |f| && st == Expected(wss, backwards, P, started) &&
    (started ==> s <= P && if backwards then LastSensitiveBefore(f, s).None? else Beyond(FirstSensitiveFrom(f, s), P))
  }

  /** The scan state the first P windows of the flattening determine. */
  ghost function Expected(wss: seq<Workspace>, backwards: bool, P: nat, started: bool): Scan
    requires P <= |Flatten(wss)|
  {
    var f := Flatten(wss);
    Scan(Target(wss, LastSensitiveBefore(f, P)), Target(wss, Clip(FirstSensitiveFrom(f, 0), P)),
         !backwards && started, backwards && started)
  }

  /** Where the scan starts: just after the active window going forward,
      at it going backward, or at the active workspace's first window; the
      cycler's answer is the first hit from there, wrapping around once. */
  lemma LogicalFromStart(wss: seq<Workspace>, aw: Option<WinId>, aws: Option<WsId>, backwards: bool, k: int, a: int, s: nat)
    requires k == (if aw.Some? then IndexOf(Flatten(wss), aw.value) else -1)
    requires a == (if aw.None? && aws.Some? then WorkspaceIndex(wss, aws.value) else -1)
    requires s == (if k >= 0 then (if backwards then k else k + 1) else if a >= 0 then Offset(wss, a) else 0)
    ensures s <= |Flatten(wss)|
    ensures k < 0 && a < 0 ==> LogicalTarget(wss, aw, ActiveIndex(wss, aws), backwards).None?
    ensures k >= 0 || a >= 0 ==> LogicalTarget(wss, aw, ActiveIndex(wss, aws), backwards) == Answer(wss, backwards, s)
  {
    if a >= 0 {
      OffsetBound(wss, a);
    }
  }

  /** The cycler's requests in terms of where its scan starts. */
  lemma LogicalCommandsFromStart(wss: seq<Workspace>, aw: Option<WinId>, aws: Option<WsId>, backwards: bool,
                                 k: int, a: int, s: nat, time: Time, geometry: WinId -> Rect, recentering: bool)
    requires k == (if aw.Some? then IndexOf(Flatten(wss), aw.value) else -1)
    requires a == (if aw.None? && aws.Some? then WorkspaceIndex(wss, aws.value) else -1)
    requires s == (if k >= 0 then (if backwards then k else k + 1) else if a >= 0 then Offset(wss, a) else 0)
    ensures s <= |Flatten(wss)|
    ensures k < 0 && a < 0 ==> LogicalCommands(wss, aw, aws, backwards, time, geometry, recentering) == []
    ensures k >= 0 || a >= 0 ==>
              LogicalCommands(wss, aw, aws, backwards, time, geometry, recentering)
              == Activation(Target(wss, Answer(wss, backwards, s)), geometry, time, recentering)
  {
    LogicalFromStart(wss, aw, aws, backwards, k, a, s);
  }

  /** The scan meets window P, which is the active window exactly when
      `found`. Unless the cycler returns there, the scan state moves on to
      st'. */
  lemma ScanWindow(wss: seq<Workspace>, backwards: bool, s: nat, P: nat, Q: nat, found: bool,
                   started: bool, st: Scan, started': bool, st': Scan)
    requires Scanned(wss, backwards, s, P, started, st)
    requires P < |Flatten(wss)| && Q == P + 1
    requires found ==> !started && s == (if backwards then P else P + 1)
    requires backwards && found ==> st.prev.None?
    requires Flatten(wss)[P].sensitive ==> !st.nextFlag
    requires started' == (started || found)
    requires st'.prev == if Flatten(wss)[P].sensitive then Target(wss, Some(P)) else st.prev
    requires st'.first == if Flatten(wss)[P].sensitive && st.first.None? then Target(wss, Some(P)) else st.first
    requires st'.nextFlag == (st.nextFlag || (!backwards && found))
    requires st'.lastFlag == (st.lastFlag || (backwards && found))
    ensures Scanned(wss, backwards, s, Q, started', st')
  {
    var f := Flatten(wss);
    assert LastSensitiveBefore(f, Q) == if f[P].sensitive then Some(P) else LastSensitiveBefore(f, P);
    var o := FirstSensitiveFrom(f, 0);
    if o.Some? && o.value >= P && f[P].sensitive {
      assert o.value == P;
    }
  }

  /** The scan reaches the active workspace (no window being active). */
  lemma ScanStart(wss: seq<Workspace>, backwards: bool, s: nat, P: nat, st: Scan, st': Scan)
    requires Scanned(wss, backwards, s, P, false, st)
    requires s == P && (backwards ==> st.prev.None?)
    requires st' == if backwards then st.(lastFlag := true) else st.(nextFlag := true)
    ensures Scanned(wss, backwards, s, P, true, st')
  {
  }

  /** Going forward, the first sensitive window after the start is the
      answer. */
  lemma ScanForwardHit(wss: seq<Workspace>, s: nat, P: nat, started: bool, st: Scan)
    requires Scanned(wss, false, s, P, started, st) && st.nextFlag
    requires P < |Flatten(wss)| && Flatten(wss)[P].sensitive
    ensures s <= |Flatten(wss)| && Answer(wss, false, s) == Some(P)
  {
  }

  /** Going backward, the latest sensitive window before the start is the
      answer. */
  lemma ScanBackwardHit(wss: seq<Workspace>, s: nat, P: nat, started: bool, st: Scan)
    requires Scanned(wss, true, s, P, started, st)
    requires s == P && st.prev.Some?
    ensures s <= |Flatten(wss)| && st.prev == Target(wss, Answer(wss, true, s))
  {
  }

  /** At the end of the scan the flags say what is left to do. */
  lemma ScanEnd(wss: seq<Workspace>, backwards: bool, s: nat, started: bool, st: Scan)
    requires Scanned(wss, backwards, s, Offset(wss, |wss|), started, st)
    ensures started ==> s <= |Flatten(wss)|
    ensures st.nextFlag ==> started && st.first == Target(wss, Answer(wss, false, s))
    ensures st.lastFlag ==> started && st.prev == Target(wss, Answer(wss, true, s))
    ensures !st.nextFlag && !st.lastFlag ==> !started
  {
    FlattenLength(wss);
  }

  /** Reaching the active workspace when no window is active: going
      backward with a sensitive window already seen, that window is the
      answer; otherwise the scan starts here. */
  method ScanWorkspaceStart(ghost wss: seq<Workspace>, i: nat, ws: Workspace, aw: Option<WinId>, aws: Option<WsId>,
                            backwards: bool, ghost s: nat, ghost a: int, ghost started: bool, st: Scan)
    returns (hit: Option<(WsId, WinId)>, st': Scan, ghost started': bool)
    requires i < |wss| && ws == wss[i] && NoDup(WsIds(wss))
    requires a == (if aw.None? && aws.Some? then WorkspaceIndex(wss, aws.value) else -1)
    requires a >= 0 ==> s == Offset(wss, a)
    requires aw.None? ==> (started <==> 0 <= a < i)
    requires Scanned(wss, backwards, s, Offset(wss, i), started, st)
    ensures hit.Some? ==> a >= 0 && s <= |Flatten(wss)| && hit == Target(wss, Answer(wss, backwards, s))
    ensures aw.Some? ==> started' == started
    ensures aw.None? ==> (started' <==> 0 <= a < i + 1)
    ensures hit.None? ==> Scanned(wss, backwards, s, Offset(wss, i), started', st')
  {
    hit, st', started' := None, st, started;
    if aw.None? && aws == Some(ws.id) {
      WorkspaceIndexUnique(wss, i);
      if backwards && st.prev.Some? {
        ScanBackwardHit(wss, s, Offset(wss, i), started, st);
        return st.prev, st, true;
      }
      st' := if backwards then st.(lastFlag := true) else st.(nextFlag := true);
      ScanStart(wss, backwards, s, Offset(wss, i), st, st');
      started' := true;
    }
  }

  /** Where the logical cycler's scan starts: k is the active window's
      position (or -1), a the active workspace's position when no window is
      active (or -1), and s the first position the scan looks at. */
  ghost function ScanStartOf(wss: seq<Workspace>, aw: Option<WinId>, aws: Option<WsId>, backwards: bool): (int, int, nat)
  {
    var k := if aw.Some? then IndexOf(Flatten(wss), aw.value) else -1;
    var a := if aw.None? && aws.Some? then WorkspaceIndex(wss, aws.value) else -1;
    (k, a, if k >= 0 then (if backwards then k else k + 1) else if a >= 0 then Offset(wss, a) else 0)
  }

  /** The outer loop of activate_next_window: workspace by workspace,
      marking the active workspace's start when no window is active, until
      a workspace's windows produce the answer. */
  method ScanWorkspaces(wss: seq<Workspace>, aw: Option<WinId>, aws: Option<WsId>, backwards: bool,
                        ghost s: nat, ghost k: int, ghost a: int)
    returns (hit: Option<(WsId, WinId)>, st: Scan, ghost started: bool)
    requires WellFormed(wss)
    requires (k, a, s) == ScanStartOf(wss, aw, aws, backwards)
    ensures hit.Some? ==> (k >= 0 || a >= 0) && s <= |Flatten(wss)| && hit == Target(wss, Answer(wss, backwards, s))
    ensures hit.None? ==> Scanned(wss, backwards, s, Offset(wss, |wss|), started, st)
    ensures hit.None? ==> (started <==> k >= 0 || a >= 0)
  {
    st := Scan(None, None, false, false);
    started := false;
    var i := 0;
    while i < |wss|
      invariant 0 <= i <= |wss|
      invariant started == StartedBy(wss, aw, k, a, i)
      invariant Scanned(wss, backwards, s, Offset(wss, i), started, st)
    {
      hit, st, started := ScanWorkspace(wss, i, aw, aws, backwards, s, k, a, started, st);
      if hit.Some? {
        return;
      }
      i := i + 1;
    }
    FlattenLength(wss);
    hit := None;
  }

  /** Whether the scan has passed its start before workspace i: the active
      window, or else the active workspace, comes before it. */
  ghost function StartedBy(wss: seq<Workspace>, aw: Option<WinId>, k: int, a: int, i: nat): bool
    requires i <= |wss|
  {
    if aw.Some? then 0 <= k < Offset(wss, i) else 0 <= a < i
  }

  /** One round of the outer loop: the workspace's own check, then its
      windows. */
  method ScanWorkspace(wss: seq<Workspace>, i: nat, aw: Option<WinId>, aws: Option<WsId>, backwards: bool,
                       ghost s: nat, ghost k: int, ghost a: int, ghost started: bool, st: Scan)
    returns (hit: Option<(WsId, WinId)>, st': Scan, ghost started': bool)
    requires i < |wss| && WellFormed(wss)
    requires k == (if aw.Some? then IndexOf(Flatten(wss), aw.value) else -1)
    requires a == (if aw.None? && aws.Some? then WorkspaceIndex(wss, aws.value) else -1)
    requires s == (if k >= 0 then (if backwards then k else k + 1) else if a >= 0 then Offset(wss, a) else 0)
    requires started == StartedBy(wss, aw, k, a, i)
    requires Scanned(wss, backwards, s, Offset(wss, i), started, st)
    ensures hit.Some? ==> (k >= 0 || a >= 0) && s <= |Flatten(wss)| && hit == Target(wss, Answer(wss, backwards, s))
    ensures hit.None? ==> started' == StartedBy(wss, aw, k, a, i + 1)
    ensures hit.None? ==> Scanned(wss, backwards, s, Offset(wss, i + 1), started', st')
  {
    var ws := wss[i];
    hit, st', started' := ScanWorkspaceStart(wss, i, ws, aw, aws, backwards, s, a, started, st);
    if hit.Some? {
      return;
    }
    OffsetStep(wss, i);
    ActiveWithinAll(wss, i, aw, k);
    hit, st', started' := ScanWindows(wss, i, ws, aw, backwards, s, k, Offset(wss, i), Offset(wss, i + 1), started', st');
  }

  /** With distinct ids, position P holds the active window exactly when
      the active window's first position is P. */
  lemma ActiveAt(wss: seq<Workspace>, P: nat, aw: Option<WinId>)
    requires NoDup(AllIds(wss)) && P < |Flatten(wss)|
    ensures aw.Some? ==> (Flatten(wss)[P].id == aw.value <==> IndexOf(Flatten(wss), aw.value) == P)
  {
    UniqueIdsNoDup(Flatten(wss));
    UniqueIndex(Flatten(wss), P);
  }

  /** Window j of workspace i, with its workspace. */
  lemma TargetAt(wss: seq<Workspace>, i: nat, j: nat)
    requires i < |wss| && j < |wss[i].windows|
    ensures Offset(wss, i) + j < |Flatten(wss)|
    ensures Flatten(wss)[Offset(wss, i) + j] == wss[i].windows[j]
    ensures Target(wss, Some(Offset(wss, i) + j)) == Some((wss[i].id, wss[i].windows[j].id))
  {
    LocateOffset(wss, i, j);
    FlattenIndex(wss, i, j);
  }

  /** What the inner loop does on meeting window w when it returns there:
      going backward, the active window with a sensitive window already
      met answers that one; going forward, a sensitive window once the
      active one has been passed is the answer. */
  function WindowHit(st: Scan, wsId: WsId, w: Window, aw: Option<WinId>, backwards: bool): Option<(WsId, WinId)> {
    if backwards && aw == Some(w.id) && st.prev.Some? then st.prev
    else if w.sensitive && st.nextFlag then Some((wsId, w.id))
    else None
  }

  /** The scan state after meeting window w without returning. */
  function WindowPass(st: Scan, wsId: WsId, w: Window, aw: Option<WinId>, backwards: bool): Scan {
    var found := aw == Some(w.id);
    Scan(if w.sensitive then Some((wsId, w.id)) else st.prev,
         if w.sensitive && st.first.None? then Some((wsId, w.id)) else st.first,
         st.nextFlag || (!backwards && found),
         st.lastFlag || (backwards && found))
  }

  /** Within workspace i, the active window is the one at position k of
      the flattening, and no other window of the workspace is. */
  ghost predicate ActiveWithin(wss: seq<Workspace>, i: nat, aw: Option<WinId>, k: int)
    requires i < |wss|
  {
    forall q :: 0 <= q < |wss[i].windows| ==> (aw == Some(wss[i].windows[q].id) <==> k == Offset(wss, i) + q)
  }

  /** With distinct ids, k = IndexOf locates the active window within every
      workspace. */
  lemma ActiveWithinAll(wss: seq<Workspace>, i: nat, aw: Option<WinId>, k: int)
    requires i < |wss| && NoDup(AllIds(wss))
    requires k == (if aw.Some? then IndexOf(Flatten(wss), aw.value) else -1)
    ensures ActiveWithin(wss, i, aw, k)
  {
    forall q | 0 <= q < |wss[i].windows|
      ensures aw == Some(wss[i].windows[q].id) <==> k == Offset(wss, i) + q
    {
      TargetAt(wss, i, q);
      ActiveAt(wss, Offset(wss, i) + q, aw);
    }
  }

  /** Window j of workspace i, at position P0 of the flattening, is not a
      hit: passing it moves the scan invariant to P0 + 1. */
  lemma PassStep(wss: seq<Workspace>, i: nat, j: nat, P0: nat, P: nat, aw: Option<WinId>, backwards: bool,
                 s: nat, k: int, started0: bool, st0: Scan, started': bool, st': Scan)
    requires i < |wss| && j < |wss[i].windows| && ActiveWithin(wss, i, aw, k)
    requires k >= 0 ==> s == (if backwards then k else k + 1)
    requires P0 == Offset(wss, i) + j && P == P0 + 1
    requires aw.Some? ==> (started0 <==> 0 <= k < P0) && (started' <==> 0 <= k < P)
    requires aw.None? ==> started' == started0
    requires Scanned(wss, backwards, s, P0, started0, st0)
    requires WindowHit(st0, wss[i].id, wss[i].windows[j], aw, backwards).None?
    requires st' == WindowPass(st0, wss[i].id, wss[i].windows[j], aw, backwards)
    ensures Scanned(wss, backwards, s, P, started', st')
  {
    var found := aw == Some(wss[i].windows[j].id);
    assert found <==> k == P0;
    TargetAt(wss, i, j);
    ScanWindow(wss, backwards, s, P0, P, found, started0, st0, started', st');
  }

  /** Window j of workspace i, at position P of the flattening, is a hit:
      it is the cycler's answer, and the scan has passed its start. */
  lemma HitStep(wss: seq<Workspace>, i: nat, j: nat, P: nat, aw: Option<WinId>, backwards: bool,
                s: nat, k: int, started0: bool, st0: Scan, hit: Option<(WsId, WinId)>)
    requires i < |wss| && j < |wss[i].windows| && ActiveWithin(wss, i, aw, k)
    requires k >= 0 ==> s == (if backwards then k else k + 1)
    requires P == Offset(wss, i) + j
    requires aw.Some? ==> (started0 <==> 0 <= k < P)
    requires Scanned(wss, backwards, s, P, started0, st0)
    requires hit == WindowHit(st0, wss[i].id, wss[i].windows[j], aw, backwards) && hit.Some?
    ensures s <= |Flatten(wss)| && hit == Target(wss, Answer(wss, backwards, s))
    ensures aw.Some? ==> 0 <= k < P + 1
    ensures aw.None? ==> started0
  {
    var w := wss[i].windows[j];
    assert aw == Some(w.id) <==> k == P;
    TargetAt(wss, i, j);
    if backwards && aw == Some(w.id) && st0.prev.Some? {
      ScanBackwardHit(wss, s, P, started0, st0);
    } else {
      ScanForwardHit(wss, s, P, started0, st0);
    }
  }

  /** One window of the inner loop, whichever way its check goes: a hit is
      the cycler's answer, and passing moves the scan invariant on by one. */
  lemma WindowStep(wss: seq<Workspace>, i: nat, j: nat, P: nat, aw: Option<WinId>, backwards: bool,
                   s: nat, k: int, started0: bool, st0: Scan, hit: Option<(WsId, WinId)>, st': Scan)
    requires i < |wss| && j < |wss[i].windows| && ActiveWithin(wss, i, aw, k)
    requires k >= 0 ==> s == (if backwards then k else k + 1)
    requires P == Offset(wss, i) + j
    requires aw.Some? ==> (started0 <==> 0 <= k < P)
    requires Scanned(wss, backwards, s, P, started0, st0)
    requires hit == WindowHit(st0, wss[i].id, wss[i].windows[j], aw, backwards)
    requires hit.None? ==> st' == WindowPass(st0, wss[i].id, wss[i].windows[j], aw, backwards)
    ensures hit.Some? ==> s <= |Flatten(wss)| && hit == Target(wss, Answer(wss, backwards, s))
    ensures hit.Some? ==> if aw.Some? then 0 <= k < P + 1 else started0
    ensures hit.None? ==> Scanned(wss, backwards, s, P + 1, if aw.Some? then 0 <= k < P + 1 else started0, st')
  {
    if hit.Some? {
      HitStep(wss, i, j, P, aw, backwards, s, k, started0, st0, hit);
    } else {
      PassStep(wss, i, j, P, P + 1, aw, backwards, s, k, started0, st0, if aw.Some? then 0 <= k < P + 1 else started0, st');
    }
  }

  /** The inner loop of ss_screen_activate_next_window over the windows of
      workspace i, which starts at position P0 of the flattening and ends
      at P1. A hit is the window the whole scan activates. */
  method ScanWindows(ghost wss: seq<Workspace>, i: nat, ws: Workspace, aw: Option<WinId>, backwards: bool,
                     ghost s: nat, ghost k: int, ghost P0: nat, ghost P1: nat, ghost started: bool, st: Scan)
    returns (hit: Option<(WsId, WinId)>, st': Scan, ghost started': bool)
    requires i < |wss| && ws == wss[i] && ActiveWithin(wss, i, aw, k)
    requires k >= 0 ==> s == (if backwards then k else k + 1)
    requires P0 == Offset(wss, i) && P1 == P0 + |ws.windows|
    requires aw.Some? ==> (started <==> 0 <= k < P0)
    requires Scanned(wss, backwards, s, P0, started, st)
    ensures hit.Some? ==> s <= |Flatten(wss)| && hit == Target(wss, Answer(wss, backwards, s))
    ensures started' == if aw.Some? then 0 <= k < P1 else started
    ensures hit.Some? ==> started'
    ensures hit.None? ==> Scanned(wss, backwards, s, P1, started', st')
  {
    st' := st;
    started' := started;
    ghost var P := P0;
    var j := 0;
    while j < |ws.windows|
      invariant 0 <= j <= |ws.windows| && P == P0 + j
      invariant started' == if aw.Some? then 0 <= k < P else started
      invariant Scanned(wss, backwards, s, P, started', st')
    {
      var h, next := ScanWindowStep(ws.id, ws.windows[j], aw, backwards, st');
      WindowStep(wss, i, j, P, aw, backwards, s, k, started', st', h, next);
      if h.Some? {
        return h, st', if aw.Some? then 0 <= k < P1 else started;
      }
      st', started' := next, if aw.Some? then 0 <= k < P + 1 else started;
      j := j + 1;
      P := P + 1;
    }
    assert P == P1;
    hit := None;
  }

  /** One window of the inner loop: a hit ends the whole scan; otherwise
      the window's flags and the remembered windows are updated. */
  method ScanWindowStep(wsId: WsId, w: Window, aw: Option<WinId>, backwards: bool, st: Scan)
    returns (hit: Option<(WsId, WinId)>, st': Scan)
    ensures hit == WindowHit(st, wsId, w, aw, backwards)
    ensures hit.None? ==> st' == WindowPass(st, wsId, w, aw, backwards)
  {
    var found := aw.Some? && w.id == aw.value;
    if backwards && found && st.prev.Some? {
      return st.prev, st;
    }
    if w.sensitive && st.nextFlag {
      return Some((wsId, w.id)), st;
    }
    var prev, first, nextFlag, lastFlag := st.prev, st.first, st.nextFlag, st.lastFlag;
    if backwards && found {
      lastFlag := true;
    }
    if w.sensitive {
      prev := Some((wsId, w.id));
      if first.None? {
        first := prev;
      }
    }
    if !backwards && found {
      nextFlag := true;
    }
    st' := Scan(prev, first, nextFlag, lastFlag);
    hit := None;
  }

  /** What the stacking-order cycler remembers while walking the list: the
      first and the latest eligible window and the flag of its direction. */
  datatype Cycle = Cycle(first: Option<WinId>, prev: Option<WinId>, lastFlag: bool, nextFlag: bool)

  /** The cycler has seen the eligible windows e: going forward the active
      window, when seen, was the first of them; going backward it was the
      latest one (otherwise the scan would have stopped). */
  ghost predicate Cycled(e: seq<WinId>, aw: Option<WinId>, backwards: bool, c: Cycle) {
    c.prev == (if e == [] then None else Some(e[|e| - 1])) &&
    c.first == (if e == [] then None else Some(e[0])) &&
    (!backwards ==> !c.nextFlag && (c.lastFlag <==> aw.Some? && aw.value in e)) &&
    (!backwards && c.lastFlag ==> e[0] == aw.value) &&
    (backwards ==> !c.lastFlag && (c.nextFlag <==> aw.Some? && aw.value in e)) &&
    (backwards && c.nextFlag ==> e[|e| - 1] == aw.value)
  }

  /** One eligible window x of the stacking cycler, followed in the
      eligible list by `post`: either the target is settled or x joins the
      windows seen. */
  method VisitEligible(ghost e: seq<WinId>, x: WinId, ghost post: seq<WinId>, aw: Option<WinId>, backwards: bool, c: Cycle)
    returns (done: bool, t: Option<WinId>, c': Cycle)
    requires NoDup(e + [x] + post) && Cycled(e, aw, backwards, c)
    ensures done ==> t == StackingTarget(e + [x] + post, aw, backwards)
    ensures !done ==> Cycled(e + [x], aw, backwards, c')
  {
    var isActive := aw.Some? && x == aw.value;
    c' := c;
    if !backwards && isActive {
      if c.prev.None? {
        c' := c'.(lastFlag := true);
      } else {
        StackingForwardHit(e, x, post);
        return true, c.prev, c;
      }
    }
    if c'.nextFlag {
      StackingBackwardHit(e, x, post);
      return true, Some(x), c';
    }
    c' := c'.(prev := Some(x));
    if c'.first.None? {
      c' := c'.(first := Some(x));
    }
    if backwards && isActive {
      c' := c'.(nextFlag := true);
    }
    done, t := false, None;
  }

  /** One window of the stacking list: windows of other workspaces are
      passed over, eligible ones are visited. */
  method VisitStacked(stacking: seq<WinId>, m: nat, aw: Option<WinId>, wm: Wm, backwards: bool,
                      ghost e: seq<WinId>, c: Cycle)
    returns (done: bool, t: Option<WinId>, ghost e': seq<WinId>, c': Cycle)
    requires m < |stacking| && NoDup(Filter(stacking, Eligible(wm)))
    requires e == Filter(stacking[..m], Eligible(wm)) && Cycled(e, aw, backwards, c)
    ensures done ==> t == StackingTarget(Filter(stacking, Eligible(wm)), aw, backwards)
    ensures !done ==> e' == Filter(stacking[..m + 1], Eligible(wm)) && Cycled(e', aw, backwards, c')
  {
    var x := stacking[m];
    FilterStep(stacking, m, Eligible(wm));
    if WsNumber(wm, x) != ActiveNumber(wm) {
      return false, None, e, c;
    }
    FilterSplit(stacking, m, Eligible(wm));
    done, t, c' := VisitEligible(e, x, Filter(stacking[m + 1..], Eligible(wm)), aw, backwards, c);
    e' := e + [x];
  }

  /** The loop of ss_screen_activate_next_window_in_stacking_order over the
      bottom-to-top stacking list, then the choice the final flags make. */
  method ScanStacking(stacking: seq<WinId>, aw: Option<WinId>, wm: Wm, backwards: bool) returns (t: Option<WinId>)
    requires NoDup(stacking)
    ensures t == StackingTarget(Filter(stacking, Eligible(wm)), aw, backwards)
  {
    FilterNoDup(stacking, Eligible(wm));
    var done, c;
    ghost var e;
    done, t, e, c := WalkStacking(stacking, aw, wm, backwards);
    if !done {
      t := StackingChoice(e, aw, backwards, c);
    }
  }

  /** The walk itself: it stops early when a visit settles the target;
      otherwise it has seen every eligible window. */
  method WalkStacking(stacking: seq<WinId>, aw: Option<WinId>, wm: Wm, backwards: bool)
    returns (done: bool, t: Option<WinId>, ghost e: seq<WinId>, c: Cycle)
    requires NoDup(Filter(stacking, Eligible(wm)))
    ensures done ==> t == StackingTarget(Filter(stacking, Eligible(wm)), aw, backwards)
    ensures !done ==> e == Filter(stacking, Eligible(wm)) && Cycled(e, aw, backwards, c)
  {
    c := Cycle(None, None, false, false);
    e := [];
    done, t := false, None;
    var m := 0;
    assert stacking[..0] == [];
    while m < |stacking|
      invariant 0 <= m <= |stacking| && e == Filter(stacking[..m], Eligible(wm))
      invariant Cycled(e, aw, backwards, c)
      invariant !done
    {
      done, t, e, c := VisitStacked(stacking, m, aw, wm, backwards, e, c);
      if done {
        return;
      }
      m := m + 1;
    }
    assert stacking[..m] == stacking;
  }

  /** After the walk: with no active window the direction's flag is set;
      then the first eligible window (backward) or the latest (forward) is
      the target. */
  method StackingChoice(ghost e: seq<WinId>, aw: Option<WinId>, backwards: bool, c: Cycle) returns (t: Option<WinId>)
    requires NoDup(e) && Cycled(e, aw, backwards, c)
    ensures t == StackingTarget(e, aw, backwards)
  {
    var nextFlag, lastFlag := c.nextFlag, c.lastFlag;
    if aw.None? {
      if backwards {
        nextFlag := true;
      } else {
        lastFlag := true;
      }
    }
    if nextFlag {
      if aw.Some? {
        NoDupPos(e, |e| - 1);
      }
      t := c.first;
    } else if lastFlag {
      if aw.Some? {
        NoDupPos(e, 0);
      }
      t := c.prev;
    } else {
      t := None;
    }
  }

  /** What ss_screen_activate_next_window_in_stacking_order requests. */
  function StackingCommands(wss: seq<Workspace>, stacking: seq<WinId>, aw: Option<WinId>, wm: Wm,
                            backwards: bool, time: Time, recentering: bool): (cmds: seq<Command>)
    ensures var t := StackingTarget(Filter(stacking, Eligible(wm)), aw, backwards);
            (t.None? || t.value !in AllIds(wss) <==> cmds == []) &&
            (cmds != [] ==> cmds[0] == ActivateWindow(t.value, time) && WsNumber(wm, t.value) == ActiveNumber(wm))
  {
    var t := StackingTarget(Filter(stacking, Eligible(wm)), aw, backwards);
    if t.None? then []
    else WindowActivation(Lookup(wss, t.value), wm.geometry(t.value), time, true, recentering)
  }

  /** The request-free part of the screen: the fields that are not the
      workspace list. */
  datatype Pointers = Pointers(activeWindow: Option<WinId>, activeWorkspace: Option<WsId>, activeWorkspaceId: int)
  datatype Caches = Caches(stacking: seq<WinId>, ignoreNextStackingChange: bool, numSearchMatches: int,
                           pointerNeedsRecentering: bool)

  class Screen {
    var workspaces: seq<Workspace>
    var activeWindow: Option<WinId>
    /** The active workspace (a reference, which may outlive the workspace's
        removal from the list) and the window manager's number for it. */
    var activeWorkspace: Option<WsId>
    var activeWorkspaceId: int
    /** Bottom-to-top stacking order as last copied from the window manager. */
    var stacking: seq<WinId>
    var ignoreNextStackingChange: bool
    var numSearchMatches: int
    var pointerNeedsRecentering: bool
    const dnd: DragAndDrop
    const xinerama: Xinerama

    /** No window is tracked twice, no workspace appears twice, and the
        stacking cache lists each window once. */
    ghost predicate Valid()
      reads this
    {
      WellFormed(workspaces) && NoDup(stacking)
    }

    function PointersOf(): Pointers
      reads this
    {
      Pointers(activeWindow, activeWorkspace, activeWorkspaceId)
    }

    function CachesOf(): Caches
      reads this
    {
      Caches(stacking, ignoreNextStackingChange, numSearchMatches, pointerNeedsRecentering)
    }

    /** ss_screen_new. `wsIds` are the window manager's workspaces in order,
        `windows` its windows, `recentering` the focus-mode policy read from
        the configuration. */
    constructor (wm: Wm, wsIds: seq<WsId>, windows: seq<WinId>, xin: Xinerama, recentering: bool)
      requires NoDup(wsIds) && NoDup(windows) && NoDup(wm.stacked)
      requires forall k :: 0 <= k < |windows| && Tracks(wm, windows[k]) ==> wm.workspaceOf(windows[k]) < |wsIds|
      ensures Valid()
      ensures WsIds(workspaces) == wsIds
      ensures forall x :: x in AllIds(workspaces) <==> x in windows && Tracks(wm, x)
      ensures forall j :: 0 <= j < |workspaces| ==>
                workspaces[j] == Workspace(wsIds[j], FKeyTitle(j), Opened(Filter(windows, OnWorkspace(wm, j)), wm))
      ensures activeWindow == ActiveOpened(windows, wm, None)
      ensures stacking == Shown(wm.stacked, wm.skipPager) && !ignoreNextStackingChange
      ensures numSearchMatches == 0 && pointerNeedsRecentering == recentering
      ensures activeWorkspaceId == if wm.activeWorkspace >= 0 then wm.activeWorkspace else -1
      ensures activeWorkspace == if 0 <= wm.activeWorkspace < |wsIds| then Some(wsIds[wm.activeWorkspace]) else None
      ensures dnd.Idle() && xinerama == xin
    {
      workspaces := [];
      activeWindow := None;
      activeWorkspace := None;
      activeWorkspaceId := -1;
      stacking := [];
      ignoreNextStackingChange := false;
      numSearchMatches := 0;
      pointerNeedsRecentering := recentering;
      dnd := new DragAndDrop();
      xinerama := xin;
      new;
      UpdateStacking(wm);
      AddExistingWorkspaces(wsIds);
      UpdateWorkspaceTitles();
      AddExistingWindows(windows, wm);
      OnActiveWorkspaceChanged(wm);
    }

    /** The first loop of ss_screen_new: one empty workspace per window
        manager workspace, in order (add_workspace_to_screen). */
    method AddExistingWorkspaces(wsIds: seq<WsId>)
      requires Valid() && workspaces == [] && NoDup(wsIds)
      modifies this
      ensures Valid() && WsIds(workspaces) == wsIds && AllIds(workspaces) == []
      ensures |workspaces| == |wsIds| && forall j :: 0 <= j < |workspaces| ==> workspaces[j] == Workspace(wsIds[j], "", [])
      ensures PointersOf() == old(PointersOf()) && CachesOf() == old(CachesOf())
    {
      var i := 0;
      while i < |wsIds|
        invariant 0 <= i <= |wsIds|
        invariant Valid() && FreshWorkspaces(workspaces, wsIds[..i])
        invariant PointersOf() == old(PointersOf()) && CachesOf() == old(CachesOf())
      {
        var w := Workspace(wsIds[i], "", []);
        FreshWorkspacesIds(workspaces, wsIds[..i]);
        NoDupFresh(wsIds, i);
        AppendWorkspace(workspaces, w);
        FreshWorkspacesAppend(workspaces, wsIds[..i], wsIds[i]);
        assert wsIds[..i + 1] == wsIds[..i] + [wsIds[i]];
        workspaces := workspaces + [w];
        i := i + 1;
      }
      assert wsIds[..i] == wsIds;
      FreshWorkspacesIds(workspaces, wsIds);
    }

    /** The second loop of ss_screen_new: each existing window goes through
        add_window_to_screen. */
    method AddExistingWindows(windows: seq<WinId>, wm: Wm)
      requires Valid() && AllIds(workspaces) == [] && NoDup(windows)
      requires forall k :: 0 <= k < |windows| && Tracks(wm, windows[k]) ==> wm.workspaceOf(windows[k]) < |workspaces|
      modifies this
      ensures Valid() && WsIds(workspaces) == WsIds(old(workspaces))
      ensures forall x :: x in AllIds(workspaces) <==> x in windows && Tracks(wm, x)
      ensures |workspaces| == |old(workspaces)|
      ensures forall j :: 0 <= j < |workspaces| ==>
                workspaces[j] == old(workspaces)[j].(windows := old(workspaces)[j].windows + Opened(Filter(windows, OnWorkspace(wm, j)), wm))
      ensures activeWindow == ActiveOpened(windows, wm, old(activeWindow))
      ensures activeWorkspace == old(activeWorkspace) && activeWorkspaceId == old(activeWorkspaceId)
      ensures CachesOf() == old(CachesOf())
    {
      var m := 0;
      while m < |windows|
        invariant 0 <= m <= |windows|
        invariant Valid() && WsIds(workspaces) == WsIds(old(workspaces))
        invariant forall x :: x in AllIds(workspaces) <==> x in windows[..m] && Tracks(wm, x)
        invariant OpenedUpTo(old(workspaces), workspaces, windows, m, wm)
        invariant activeWindow == ActiveOpened(windows[..m], wm, old(activeWindow))
        invariant activeWorkspace == old(activeWorkspace) && activeWorkspaceId == old(activeWorkspaceId)
        invariant CachesOf() == old(CachesOf())
      {
        OpenedFresh(AllIds(workspaces), windows, m, wm);
        ghost var lists, active := workspaces, activeWindow;
        OnWindowOpened(windows[m], wm);
        OpenedAll(old(workspaces), lists, workspaces, windows, m, wm);
        OpenedIds(AllIds(lists), AllIds(workspaces), windows, m, wm, old(activeWindow), active, activeWindow);
        m := m + 1;
      }
      assert windows[..m] == windows;
    }

    // -------------------------------------------------------------------
    // Workspace list operations (workspace.c)

    /** ss_workspace_add_window on workspace k: nothing for NULL; otherwise
        append, then honour the window's pending index. */
    method AddWindow(k: nat, w: Option<Window>)
      requires Valid() && k < |workspaces|
      requires w.Some? ==> w.value.id !in AllIds(workspaces)
      modifies this
      ensures Valid()
      ensures w.None? ==> workspaces == old(workspaces)
      ensures w.Some? ==>
                workspaces == old(workspaces)[k := old(workspaces)[k].(windows := WithWindowAdded(old(workspaces)[k].windows, w.value))]
      ensures w.Some? ==> multiset(AllIds(workspaces)) == multiset(AllIds(old(workspaces))) + multiset{w.value.id}
      ensures PointersOf() == old(PointersOf()) && CachesOf() == old(CachesOf())
    {
      if w.None? {
        return;
      }
      var ws' := WithWindowAdded(workspaces[k].windows, w.value);
      AdditionKeepsMirror(workspaces, k, w.value);
      workspaces := workspaces[k := workspaces[k].(windows := ws')];
    }

    /** ss_workspace_remove_window on workspace k: nothing for NULL;
        otherwise the first window with the id leaves the list. */
    method RemoveWindow(k: nat, id: Option<WinId>)
      requires Valid() && k < |workspaces|
      modifies this
      ensures Valid()
      ensures id.None? ==> workspaces == old(workspaces)
      ensures id.Some? ==>
                workspaces == old(workspaces)[k := old(workspaces)[k].(windows := Removed(old(workspaces)[k].windows, id.value))]
      ensures id.Some? ==> !Holds(workspaces[k].windows, id.value)
      ensures PointersOf() == old(PointersOf()) && CachesOf() == old(CachesOf())
    {
      if id.None? {
        return;
      }
      var ws' := Removed(workspaces[k].windows, id.value);
      RemovalKeepsMirror(workspaces, k, id.value);
      workspaces := workspaces[k := workspaces[k].(windows := ws')];
    }

    /** ss_workspace_reorder_window on workspace k: nothing for NULL;
        otherwise the window moves to its clamped new index. */
    method ReorderWindow(k: nat, id: Option<WinId>, newIndex: int)
      requires Valid() && k < |workspaces|
      requires id.Some? ==> Holds(workspaces[k].windows, id.value)
      modifies this
      ensures Valid()
      ensures id.None? ==> workspaces == old(workspaces)
      ensures id.Some? ==>
                var ws := old(workspaces)[k].windows;
                workspaces == old(workspaces)[k := old(workspaces)[k].(windows := Reordered(ws, ws[IndexOf(ws, id.value)], newIndex))]
      ensures id.Some? ==> multiset(workspaces[k].windows) == multiset(old(workspaces)[k].windows)
      ensures PointersOf() == old(PointersOf()) && CachesOf() == old(CachesOf())
    {
      if id.None? {
        return;
      }
      var ws := workspaces[k].windows;
      IndexOfHolds(ws, id.value);
      var w := ws[IndexOf(ws, id.value)];
      var ws' := Reordered(ws, w, newIndex);
      ReorderedPermutes(ws, w, newIndex);
      IdsMultiset(ws', ws);
      ReplaceWindows(workspaces, k, ws', multiset{});
      workspaces := workspaces[k := workspaces[k].(windows := ws')];
    }

    /** window->new_window_index = index, for the window with this id on
        workspace k. */
    method SetPendingIndex(k: nat, id: WinId, index: int)
      requires Valid() && k < |workspaces|
      modifies this
      ensures Valid()
      ensures workspaces == old(workspaces)[k := old(workspaces)[k].(windows := WithPending(old(workspaces)[k].windows, id, index))]
      ensures multiset(AllIds(workspaces)) == multiset(AllIds(old(workspaces)))
      ensures PointersOf() == old(PointersOf()) && CachesOf() == old(CachesOf())
    {
      var ws' := WithPending(workspaces[k].windows, id, index);
      ReplaceWindows(workspaces, k, ws', multiset{});
      AllIdsUpdate(workspaces, k, workspaces[k].(windows := ws'));
      ghost var before, mi := multiset(AllIds(workspaces)), multiset(Ids(ws'));
      workspaces := workspaces[k := workspaces[k].(windows := ws')];
      forall o ensures multiset(AllIds(workspaces))[o] == before[o] {
        assert (multiset(AllIds(workspaces)) + mi)[o] == (before + mi)[o];
      }
    }

    // -------------------------------------------------------------------
    // Search

    /** ss_screen_update_search: every window's flag is overwritten with
        whether its title matches the query, and the matches are counted. */
    method UpdateSearch(query: string)
      requires Valid()
      modifies this
      ensures Valid()
      ensures workspaces == ApplySearch(old(workspaces), query)
      ensures numSearchMatches == CountSensitiveAll(workspaces)
      ensures PointersOf() == old(PointersOf())
      ensures stacking == old(stacking) && ignoreNextStackingChange == old(ignoreNextStackingChange)
      ensures pointerNeedsRecentering == old(pointerNeedsRecentering)
    {
      SearchKeepsMirror(workspaces, query);
      workspaces, numSearchMatches := SearchAll(workspaces, query);
    }

    // -------------------------------------------------------------------
    // Workspace switching

    /** ss_screen_change_active_workspace_to. */
    method ChangeActiveWorkspaceTo(target: WsId, bring: bool, all: bool, time: Time)
      returns (cmds: seq<Command>)
      requires bring && all && activeWorkspace.Some? ==> WorkspaceIndex(workspaces, activeWorkspace.value) >= 0
      ensures cmds == SwitchCommands(Carried(workspaces, activeWorkspace, activeWindow, bring, all), target, time)
    {
      ghost var carried := Carried(workspaces, activeWorkspace, activeWindow, bring, all);
      cmds := [];
      if bring {
        if all {
          if activeWorkspace.Some? {
            var windows := workspaces[WorkspaceIndex(workspaces, activeWorkspace.value)].windows;
            var i := 0;
            while i < |windows|
              invariant 0 <= i <= |windows| && |cmds| == i
              invariant forall k :: 0 <= k < i ==> cmds[k] == MoveToWorkspace(windows[k].id, target)
            {
              cmds := cmds + [MoveToWorkspace(windows[i].id, target)];
              i := i + 1;
            }
          }
        } else {
          if activeWindow.Some? {
            cmds := cmds + [MoveToWorkspace(activeWindow.value, target)];
          }
        }
      }
      cmds := cmds + [ActivateWorkspace(target, time)];
      assert |cmds| == |carried| + 1;
    }

    /** ss_screen_change_active_workspace_by_delta: step from the active
        workspace's number (0 when there is none), wrapping around. A
        screen without workspaces would loop forever. */
    method ChangeActiveWorkspaceByDelta(delta: int, bring: bool, all: bool, time: Time)
      returns (cmds: seq<Command>)
      requires |workspaces| > 0
      requires bring && all && activeWorkspace.Some? ==> WorkspaceIndex(workspaces, activeWorkspace.value) >= 0
      ensures var w := RelativeWorkspace(activeWorkspaceId, delta, |workspaces|);
              cmds == SwitchCommands(Carried(workspaces, activeWorkspace, activeWindow, bring, all),
                                     workspaces[w].id, time)
    {
      var base := if activeWorkspaceId == -1 then 0 else activeWorkspaceId;
      var w := WrapIntoRange(base + delta, |workspaces|);
      cmds := ChangeActiveWorkspaceTo(workspaces[w].id, bring, all, time);
    }

    /** ss_screen_change_active_workspace: numbers outside the workspace
        list are ignored. */
    method ChangeActiveWorkspace(n: int, bring: bool, all: bool, time: Time)
      returns (cmds: seq<Command>)
      requires 0 <= n < |workspaces| && bring && all && activeWorkspace.Some? ==> WorkspaceIndex(workspaces, activeWorkspace.value) >= 0
      ensures !(0 <= n < |workspaces|) ==> cmds == []
      ensures 0 <= n < |workspaces| ==>
                cmds == SwitchCommands(Carried(workspaces, activeWorkspace, activeWindow, bring, all),
                                       workspaces[n].id, time)
    {
      cmds := [];
      if 0 <= n < |workspaces| {
        cmds := ChangeActiveWorkspaceTo(workspaces[n].id, bring, all, time);
      }
    }

    // -------------------------------------------------------------------
    // Cycling through windows

    /** ss_screen_activate_next_window: one pass over every workspace's
        windows, remembering the first and the latest sensitive window and
        flagging when the active window (or, with none, the active
        workspace) has been passed. */
    method ActivateNextWindow(backwards: bool, time: Time, geometry: WinId -> Rect) returns (cmds: seq<Command>)
      requires Valid()
      ensures cmds == LogicalCommands(workspaces, activeWindow, activeWorkspace, backwards, time, geometry,
                                      pointerNeedsRecentering)
    {
      var wss, aw, aws, recentering := workspaces, activeWindow, activeWorkspace, pointerNeedsRecentering;
      ghost var k := if aw.Some? then IndexOf(Flatten(wss), aw.value) else -1;
      ghost var a := if aw.None? && aws.Some? then WorkspaceIndex(wss, aws.value) else -1;
      ghost var s: nat := if k >= 0 then (if backwards then k else k + 1)
                         else if a >= 0 then Offset(wss, a) else 0;
      LogicalCommandsFromStart(wss, aw, aws, backwards, k, a, s, time, geometry, recentering);
      var hit, st, started := ScanWorkspaces(wss, aw, aws, backwards, s, k, a);
      if hit.Some? {
        cmds := Activation(hit, geometry, time, recentering);
        return;
      }
      ScanEnd(wss, backwards, s, started, st);
      if st.nextFlag {
        cmds := Activation(st.first, geometry, time, recentering);
      } else if st.lastFlag {
        cmds := Activation(st.prev, geometry, time, recentering);
      } else {
        cmds := [];
      }
    }

    /** ss_screen_activate_next_window_in_stacking_order: nothing when the
        active workspace has no windows; otherwise mark the next stacking
        change as caused by this screen and activate the window that the
        bottom-to-top walk picks, found in the mirror by its id. */
    method ActivateNextWindowInStackingOrder(backwards: bool, time: Time, wm: Wm) returns (cmds: seq<Command>)
      requires Valid() && ActiveIndex(workspaces, activeWorkspace).Some?
      modifies this
      ensures workspaces == old(workspaces) && PointersOf() == old(PointersOf())
      ensures stacking == old(stacking) && numSearchMatches == old(numSearchMatches)
      ensures pointerNeedsRecentering == old(pointerNeedsRecentering)
      ensures workspaces[ActiveIndex(workspaces, activeWorkspace).value].windows == [] ==>
                cmds == [] && ignoreNextStackingChange == old(ignoreNextStackingChange)
      ensures workspaces[ActiveIndex(workspaces, activeWorkspace).value].windows != [] ==>
                ignoreNextStackingChange &&
                cmds == StackingCommands(workspaces, stacking, activeWindow, wm, backwards, time, pointerNeedsRecentering)
    {
      var a := FindWorkspace(activeWorkspace.value);
      if |workspaces[a].windows| == 0 {
        return [];
      }
      ignoreNextStackingChange := true;
      var t := ScanStacking(stacking, activeWindow, wm, backwards);
      if t.None? {
        return [];
      }
      var w := FindWindow(t.value);
      cmds := WindowActivation(w, wm.geometry(t.value), time, true, pointerNeedsRecentering);
    }

    // -------------------------------------------------------------------
    // Titles, active pointers, stacking cache

    /** update_workspace_titles: workspace j is titled by the j-th F key,
        or left blank beyond the twelfth. */
    method UpdateWorkspaceTitles()
      requires Valid()
      modifies this
      ensures Valid()
      ensures |workspaces| == |old(workspaces)|
      ensures forall j :: 0 <= j < |workspaces| ==> workspaces[j] == old(workspaces)[j].(title := FKeyTitle(j))
      ensures AllIds(workspaces) == AllIds(old(workspaces)) && WsIds(workspaces) == WsIds(old(workspaces))
      ensures PointersOf() == old(PointersOf()) && CachesOf() == old(CachesOf())
    {
      ghost var original := workspaces;
      var j := 0;
      while j < |workspaces|
        invariant 0 <= j <= |workspaces| == |original|
        invariant forall q :: 0 <= q < j ==> workspaces[q] == original[q].(title := FKeyTitle(q))
        invariant forall q :: j <= q < |workspaces| ==> workspaces[q] == original[q]
        invariant PointersOf() == old(PointersOf()) && CachesOf() == old(CachesOf())
      {
        var title := if j < NUMBER_OF_F_KEYS then F_KEYS[j] else "";
        workspaces := workspaces[j := workspaces[j].(title := title)];
        j := j + 1;
      }
      SameShape(original, workspaces);
      SameWindowsSameFlatten(original, workspaces);
      assert WsIds(workspaces) == WsIds(original);
    }

    /** update_for_active_window: the WM's active window if it is tracked,
        else none. */
    method OnActiveWindowChanged(wm: Wm)
      modifies this
      ensures activeWindow == if wm.activeWindow.Some? then Lookup(workspaces, wm.activeWindow.value) else None
      ensures workspaces == old(workspaces) && CachesOf() == old(CachesOf())
      ensures activeWorkspace == old(activeWorkspace) && activeWorkspaceId == old(activeWorkspaceId)
    {
      var found := None;
      if wm.activeWindow.Some? {
        found := FindWindow(wm.activeWindow.value);
      }
      activeWindow := found;
    }

    /** get_ss_window_from_wnck_window: walk every workspace's windows
        for the id. */
    method FindWindow(id: WinId) returns (r: Option<WinId>)
      ensures r == Lookup(workspaces, id)
    {
      ghost var f := Flatten(workspaces);
      ghost var P := 0;
      var i := 0;
      while i < |workspaces|
        invariant 0 <= i <= |workspaces| && P == Offset(workspaces, i) <= |f|
        invariant id !in Ids(f[..P])
      {
        var windows := workspaces[i].windows;
        var j := 0;
        while j < |windows|
          invariant 0 <= j <= |windows| && P == Offset(workspaces, i) + j <= |f|
          invariant id !in Ids(f[..P])
        {
          FlattenIndex(workspaces, i, j);
          if windows[j].id == id {
            IndexOfHolds(f, id);
            return Some(id);
          }
          assert Ids(f[..P + 1]) == Ids(f[..P]) + [windows[j].id];
          j := j + 1;
          P := P + 1;
        }
        OffsetStep(workspaces, i);
        OffsetBound(workspaces, i + 1);
        i := i + 1;
      }
      FlattenLength(workspaces);
      assert f[..P] == f;
      IndexOfHolds(f, id);
      r := None;
    }

    /** get_ss_workspace_from_wnck_workspace: the position of the
        workspace, or -1. */
    method FindWorkspace(id: WsId) returns (r: int)
      ensures r == WorkspaceIndex(workspaces, id)
    {
      var i := 0;
      while i < |workspaces|
        invariant 0 <= i <= |workspaces|
        invariant forall q :: 0 <= q < i ==> workspaces[q].id != id
      {
        if workspaces[i].id == id {
          return i;
        }
        i := i + 1;
      }
      r := -1;
    }

    /** update_for_active_workspace: the WM's active workspace number, and
        the workspace at that position (none past the end). */
    method OnActiveWorkspaceChanged(wm: Wm)
      modifies this
      ensures activeWorkspaceId == if wm.activeWorkspace >= 0 then wm.activeWorkspace else -1
      ensures activeWorkspace == if 0 <= wm.activeWorkspace < |workspaces|
                                 then Some(workspaces[wm.activeWorkspace].id) else None
      ensures workspaces == old(workspaces) && CachesOf() == old(CachesOf())
      ensures activeWindow == old(activeWindow)
    {
      if wm.activeWorkspace >= 0 {
        activeWorkspaceId := wm.activeWorkspace;
        activeWorkspace := if wm.activeWorkspace < |workspaces| then Some(workspaces[wm.activeWorkspace].id) else None;
      } else {
        activeWorkspaceId := -1;
        activeWorkspace := None;
      }
    }

    /** ss_screen_update_wnck_windows_in_stacking_order: the cache is
        rebuilt from the WM's bottom-to-top list, skipping windows hidden
        from pagers. */
    method UpdateStacking(wm: Wm)
      requires NoDup(wm.stacked)
      modifies this
      ensures stacking == Shown(wm.stacked, wm.skipPager) && NoDup(stacking)
      ensures workspaces == old(workspaces) && PointersOf() == old(PointersOf())
      ensures ignoreNextStackingChange == old(ignoreNextStackingChange)
      ensures numSearchMatches == old(numSearchMatches) && pointerNeedsRecentering == old(pointerNeedsRecentering)
    {
      stacking := [];
      var i := 0;
      while i < |wm.stacked|
        invariant 0 <= i <= |wm.stacked|
        invariant stacking == Shown(wm.stacked[..i], wm.skipPager)
        invariant workspaces == old(workspaces) && PointersOf() == old(PointersOf())
        invariant ignoreNextStackingChange == old(ignoreNextStackingChange)
        invariant numSearchMatches == old(numSearchMatches) && pointerNeedsRecentering == old(pointerNeedsRecentering)
      {
        var x := wm.stacked[i];
        assert wm.stacked[..i + 1][..i] == wm.stacked[..i];
        if !wm.skipPager(x) {
          stacking := stacking + [x];
        }
        i := i + 1;
      }
      assert wm.stacked[..i] == wm.stacked;
      FilterNoDup(wm.stacked, Unskipped(wm.skipPager));
    }

    /** on_window_stacking_changed: a set suppression flag swallows exactly
        one notification; otherwise the cache is rebuilt. */
    method OnWindowStackingChanged(wm: Wm)
      requires Valid() && NoDup(wm.stacked)
      modifies this
      ensures Valid()
      ensures old(ignoreNextStackingChange) ==> !ignoreNextStackingChange && stacking == old(stacking)
      ensures !old(ignoreNextStackingChange) ==>
                !ignoreNextStackingChange && stacking == Shown(wm.stacked, wm.skipPager)
      ensures workspaces == old(workspaces) && PointersOf() == old(PointersOf())
      ensures numSearchMatches == old(numSearchMatches) && pointerNeedsRecentering == old(pointerNeedsRecentering)
    {
      if ignoreNextStackingChange {
        ignoreNextStackingChange := false;
        return;
      }
      UpdateStacking(wm);
    }

    /** on_focus_mode_change: the pointer is recentred after focus changes
        exactly when the focus mode is "sloppy" or "mouse", in any case. */
    method OnFocusModeChange(mode: string)
      modifies this
      ensures pointerNeedsRecentering == (LowerStr(mode) == "sloppy" || LowerStr(mode) == "mouse")
      ensures workspaces == old(workspaces) && PointersOf() == old(PointersOf())
      ensures stacking == old(stacking) && ignoreNextStackingChange == old(ignoreNextStackingChange)
      ensures numSearchMatches == old(numSearchMatches)
    {
      pointerNeedsRecentering := LowerStr(mode) == "sloppy" || LowerStr(mode) == "mouse";
    }

    // -------------------------------------------------------------------
    // Windows and workspaces coming and going

    /** on_window_opened (add_window_to_screen): windows hidden from pagers
        or on no workspace are not tracked; otherwise a fresh window joins
        the end of its workspace and, if the WM says it is active, becomes
        the active window. */
    method OnWindowOpened(id: WinId, wm: Wm)
      requires Valid()
      requires id !in AllIds(workspaces)
      requires Tracks(wm, id) ==> wm.workspaceOf(id) < |workspaces|
      modifies this
      ensures Valid()
      ensures !Tracks(wm, id) ==> workspaces == old(workspaces) && activeWindow == old(activeWindow)
      ensures Tracks(wm, id) ==>
                var n := wm.workspaceOf(id);
                workspaces == old(workspaces)[n := old(workspaces)[n].(windows := old(workspaces)[n].windows + [NewWindow(id, wm.name(id))])]
      ensures Tracks(wm, id) ==> multiset(AllIds(workspaces)) == multiset(AllIds(old(workspaces))) + multiset{id}
      ensures Tracks(wm, id) ==> activeWindow == if wm.activeWindow == Some(id) then Some(id) else old(activeWindow)
      ensures WsIds(workspaces) == WsIds(old(workspaces))
      ensures forall j :: 0 <= j < |workspaces| ==> workspaces[j].title == old(workspaces)[j].title
      ensures activeWorkspace == old(activeWorkspace) && activeWorkspaceId == old(activeWorkspaceId)
      ensures CachesOf() == old(CachesOf())
    {
      if wm.skipPager(id) || wm.workspaceOf(id) < 0 {
        return;
      }
      var n := wm.workspaceOf(id);
      var w := NewWindow(id, wm.name(id));
      if wm.activeWindow == Some(id) {
        activeWindow := Some(id);
      }
      AddWindow(n, Some(w));
    }

    /** on_window_closed: an untracked window is ignored; otherwise it is
        removed from the workspace the WM reports it on, and it stops being
        the active window. */
    method OnWindowClosed(id: WinId, wm: Wm)
      requires Valid()
      requires id in AllIds(workspaces) && wm.workspaceOf(id) >= 0 ==> wm.workspaceOf(id) < |workspaces|
      modifies this
      ensures Valid()
      ensures id !in AllIds(old(workspaces)) ==> workspaces == old(workspaces) && activeWindow == old(activeWindow)
      ensures id in AllIds(old(workspaces)) && wm.workspaceOf(id) < 0 ==> workspaces == old(workspaces)
      ensures id in AllIds(old(workspaces)) && wm.workspaceOf(id) >= 0 ==>
                var n := wm.workspaceOf(id);
                workspaces == old(workspaces)[n := old(workspaces)[n].(windows := Removed(old(workspaces)[n].windows, id))]
      ensures id in AllIds(old(workspaces)) ==>
                activeWindow == if old(activeWindow) == Some(id) then None else old(activeWindow)
      ensures activeWorkspace == old(activeWorkspace) && activeWorkspaceId == old(activeWorkspaceId)
      ensures CachesOf() == old(CachesOf())
    {
      var window := FindWindow(id);
      if window.None? {
        return;
      }
      if wm.workspaceOf(id) >= 0 {
        RemoveWindow(wm.workspaceOf(id), Some(id));
      }
      if activeWindow == Some(id) {
        activeWindow := None;
      }
    }

    /** on_workspace_created: the new workspace is appended and every
        workspace is retitled. */
    method OnWorkspaceCreated(id: WsId)
      requires Valid() && id !in WsIds(workspaces)
      modifies this
      ensures Valid()
      ensures |workspaces| == |old(workspaces)| + 1
      ensures WsIds(workspaces) == WsIds(old(workspaces)) + [id]
      ensures forall j :: 0 <= j < |old(workspaces)| ==> workspaces[j].windows == old(workspaces)[j].windows
      ensures workspaces[|old(workspaces)|].windows == []
      ensures forall j :: 0 <= j < |workspaces| ==> workspaces[j].title == FKeyTitle(j)
      ensures PointersOf() == old(PointersOf()) && CachesOf() == old(CachesOf())
    {
      var w := Workspace(id, "", []);
      AppendWorkspace(workspaces, w);
      workspaces := workspaces + [w];
      UpdateWorkspaceTitles();
    }

    /** on_workspace_destroyed: the workspace and its windows leave the
        mirror and the rest are retitled. */
    method OnWorkspaceDestroyed(id: WsId)
      requires Valid() && id in WsIds(workspaces)
      modifies this
      ensures Valid()
      ensures var i := WorkspaceIndex(old(workspaces), id);
              |workspaces| == |old(workspaces)| - 1 &&
              (forall j :: 0 <= j < i ==> workspaces[j].id == old(workspaces)[j].id &&
                                           workspaces[j].windows == old(workspaces)[j].windows) &&
              (forall j :: i <= j < |workspaces| ==> workspaces[j].id == old(workspaces)[j + 1].id &&
                                                     workspaces[j].windows == old(workspaces)[j + 1].windows)
      ensures id !in WsIds(workspaces)
      ensures forall j :: 0 <= j < |workspaces| ==> workspaces[j].title == FKeyTitle(j)
      ensures PointersOf() == old(PointersOf()) && CachesOf() == old(CachesOf())
    {
      var i := FindWorkspace(id);
      ghost var ids := WsIds(workspaces);
      assert ids[i] == id;
      DropWorkspace(workspaces, i);
      workspaces := workspaces[..i] + workspaces[i + 1..];
      assert WsIds(workspaces) == ids[..i] + ids[i + 1..];
      NoDupDropped(ids, i);
      UpdateWorkspaceTitles();
    }
  }

  /** A window id held by workspace k is tracked. */
  lemma NotHeldWhenUntracked(wss: seq<Workspace>, k: nat, id: WinId)
    requires k < |wss| && id !in AllIds(wss)
    ensures !Holds(wss[k].windows, id)
  {
    forall j | 0 <= j < |wss[k].windows| ensures wss[k].windows[j].id != id {
      FlattenIndex(wss, k, j);
    }
  }

  /** The loop of ss_screen_update_search over the workspaces: each list
      is filtered in turn and its matches added to the total. */
  method SearchAll(wss: seq<Workspace>, query: string) returns (r: seq<Workspace>, n: nat)
    ensures r == ApplySearch(wss, query)
    ensures n == CountSensitiveAll(r)
  {
    var terms := Terms(LowerStr(query));
    ghost var target := ApplySearch(wss, query);
    r := wss;
    n := 0;
    var i := 0;
    while i < |r|
      invariant 0 <= i <= |r| == |wss| == |target|
      invariant forall q :: 0 <= q < i ==> r[q] == target[q]
      invariant forall q :: i <= q < |r| ==> r[q] == wss[q]
      invariant n == CountSensitiveAll(r[..i])
    {
      var windows, count := SearchWindowList(r[i].windows, query, terms);
      n := n + count;
      var before := r;
      r := r[i := r[i].(windows := windows)];
      assert r[..i] == before[..i];
      assert r[..i + 1][..i] == r[..i];
      i := i + 1;
    }
    assert r == target;
    assert r[..i] == r;
  }

  /** A search changes only flags, so the mirror stays well formed. */
  lemma SearchKeepsMirror(wss: seq<Workspace>, q: string)
    requires WellFormed(wss)
    ensures WellFormed(ApplySearch(wss, q))
  {
    SearchKeepsIds(wss, q);
    assert WsIds(ApplySearch(wss, q)) == WsIds(wss);
  }

  /** Adding an untracked window to one workspace keeps the mirror well
      formed and adds exactly its id. */
  lemma AdditionKeepsMirror(wss: seq<Workspace>, k: nat, win: Window)
    requires WellFormed(wss) && k < |wss| && win.id !in AllIds(wss)
    ensures var wss' := wss[k := wss[k].(windows := WithWindowAdded(wss[k].windows, win))];
            WellFormed(wss') && multiset(AllIds(wss')) == multiset(AllIds(wss)) + multiset{win.id}
  {
    var ws := wss[k].windows;
    NotHeldWhenUntracked(wss, k, win.id);
    WithWindowAddedSpec(ws, win);
    var ws' := WithWindowAdded(ws, win);
    IdsMultisetAdd(ws', ws, win);
    NoDupMultiset(AllIds(wss));
    ReplaceWindows(wss, k, ws', multiset{win.id});
    var wss' := wss[k := wss[k].(windows := ws')];
    AllIdsUpdate(wss, k, wss[k].(windows := ws'));
    var before := multiset(AllIds(wss));
    var mi := multiset(Ids(ws));
    var after := multiset(AllIds(wss'));
    assert after + mi == before + mi + multiset{win.id};
    forall o ensures after[o] == (before + multiset{win.id})[o] {
      assert (after + mi)[o] == (before + mi + multiset{win.id})[o];
    }
  }

  /** Removing a window from one workspace keeps the mirror well formed
      and leaves no window with that id there. */
  lemma RemovalKeepsMirror(wss: seq<Workspace>, k: nat, id: WinId)
    requires WellFormed(wss) && k < |wss|
    ensures WellFormed(wss[k := wss[k].(windows := Removed(wss[k].windows, id))])
    ensures !Holds(Removed(wss[k].windows, id), id)
  {
    var ws := wss[k].windows;
    var ws' := Removed(ws, id);
    UniqueInWorkspace(wss, k);
    RemovedIsWithout(ws, id);
    RemovedMultiset(ws, id);
    if IndexOf(ws, id) >= 0 {
      IdsMultisetAdd(ws, ws', ws[IndexOf(ws, id)]);
    }
    ReplaceWindows(wss, k, ws', multiset{});
  }

  /** In a well-formed mirror each workspace's ids are distinct. */
  lemma UniqueInWorkspace(wss: seq<Workspace>, k: nat)
    requires k < |wss| && NoDup(AllIds(wss))
    ensures UniqueIds(wss[k].windows)
  {
    forall a, b | 0 <= a < b < |wss[k].windows| ensures wss[k].windows[a].id != wss[k].windows[b].id {
      FlattenIndex(wss, k, a);
      FlattenIndex(wss, k, b);
    }
  }

  /** Dropping one element of a duplicate-free list removes it entirely. */
  lemma NoDupDropped(s: seq<WsId>, i: nat)
    requires NoDup(s) && i < |s|
    ensures s[i] !in s[..i] + s[i + 1..]
  {
  }

  /** With distinct workspace identities, a workspace's identity finds the
      workspace itself. */
  lemma WorkspaceIndexUnique(wss: seq<Workspace>, i: nat)
    requires NoDup(WsIds(wss)) && i < |wss|
    ensures WorkspaceIndex(wss, wss[i].id) == i
  {
    var r := WorkspaceIndex(wss, wss[i].id);
    assert WsIds(wss)[r] == WsIds(wss)[i];
  }

  /** The two loops of ss_screen_change_active_workspace_by_delta: add n
      while below zero, subtract it while at n or above. The result is x
      modulo n. */
  method WrapIntoRange(x: int, n: nat) returns (w: nat)
    requires n > 0
    ensures w < n && w == x % n
  {
    var v := x;
    ghost var q := 0;
    while v < 0
      invariant v == x + q * n
      decreases -v
    {
      v := v + n;
      q := q + 1;
    }
    while v >= n
      invariant v >= 0 && v == x + q * n
      decreases v
    {
      v := v - n;
      q := q - 1;
    }
    WrapUnique(x, n, v, -q);
    w := v;
  }

  /** The wrapped value of x modulo n is unique. */
  lemma WrapUnique(x: int, n: nat, w: int, q: int)
    requires n > 0 && 0 <= w < n && x == w + q * n
    ensures x % n == w
  {
    var d, r := x / n, x % n;
    assert (d - q) * n == w - r;
    MulBounds(d - q, n);
  }

  /** A non-zero multiple of n is at least n away from zero. */
  lemma MulBounds(a: int, n: int)
    requires n > 0
    ensures a >= 1 ==> a * n >= n
    ensures a <= -1 ==> a * n <= -n
  {
  }
}
