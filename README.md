# superswitcher core, modelled in Dafny

superswitcher is a workspace and window switcher for GNOME. It keeps a mirror of the window manager's state: a list of workspaces, each holding an ordered list of windows. Beside the list it keeps:

- the active window and active workspace;
- a cached bottom-to-top stacking list, with a one-shot flag that suppresses the next rebuild;
- a search sensitivity flag per window;
- a pending insertion index per window, used by drag and drop.

A popup shows the mirror and turns keys, clicks, drags and scrolls into requests to the window manager. These include switching workspace, cycling windows, moving windows between workspaces, maximizing, closing, adding and deleting workspaces, and moving a window to the next physical screen.

This project models that core:

- the mirror and its bookkeeping (`src/screen.c`, `src/workspace.c`, `src/window.c`);
- the drag-and-drop session (`src/draganddrop.c`);
- multi-monitor placement (`src/xinerama.c`);
- the popup's actions and key dispatch (`src/popup.c`).

The window manager is an environment:

- its answers to queries come in as a `Wm` snapshot;
- its notifications are calls to handler methods;
- every request the code makes of it (`wnck_*`, `XMoveWindow`, `XWarpPointer`) is returned as a `Command` in a `seq<Command>`.

Modules, one per concern:

- `Common`:
  - windows and workspaces as value records;
  - commands, the `Wm` snapshot, 32-bit timestamps;
  - flattening the mirror in workspace-major order.
- `WindowLists`: the list operations of `src/workspace.c` (append, remove, reorder with clamping) and the index adjustment on a drop.
- `Mirror`: the mirror invariant (no window tracked twice, no workspace listed twice) and the edits that keep it.
- `Search`: lowercasing, splitting the query on single spaces, substring matching, the match count.
- `Navigation`: which window the logical-order cycler and the stacking-order cycler pick, and relative workspace switching.
- `WindowActions`: a new window's fields, the sensitivity setter, and window activation with the optional pointer warp.
- `Layout`: predicting the workspace column and window row under the pointer.
- `Monitors`: the screen list, best-overlap screen selection, and moving a window to the next screen.
- `DragDrop`: the drag session as a class with the fields of `SSDragAndDrop`.
- `Screens`: the `Screen` class with the mirror, its pointers and caches, the cyclers as loops, and the WM notification handlers.
- `WindowEvents`, `WorkspaceEvents`: the press, release, scroll and workspace-changed handlers of window rows and workspace headers.
- `DeletePlans`: the plans of "delete empty workspace(s)", the loops that build them, and the code as written.
- `Popups`:
  - window cycling in the active workspace, toggles and closing;
  - the search buffer and its match label;
  - the one-shot completion of "new workspace";
  - the key map.

## Model

| member | source | states |
|---|---|---|
| Common.NextTime | src/window.c:76-85 | the window's activation time is one more than the workspace's, wrapping at 2^32 like a guint32 |
| Common.CHalf | src/window.c:100-101 | C's division by two, truncating toward zero for negative values |
| WindowLists.IndexOf | src/popup.c:52 | g_list_index: the first position holding the id, or -1 exactly when no window has it |
| WindowLists.IndexOfHolds | src/workspace.c:72-79 | a window is found by position exactly when some window has its id |
| WindowLists.RemovedMultiset | src/workspace.c:72-79 | removal takes away exactly one window with the id when there is one, and nothing when there is none |
| WindowLists.RemovedIsWithout | src/workspace.c:72-79 | with distinct ids, removal keeps every other window in order and leaves the window absent |
| WindowLists.ReorderedPermutes | src/workspace.c:84-101 | reordering neither adds nor loses a window |
| WindowLists.ReorderedPosition | src/workspace.c:84-101 | the window ends at min(clamp(index, 0, n), n - 1), with n the length before removal |
| WindowLists.ReorderedKeepsOthers | src/workspace.c:84-101 | the other windows keep their relative order |
| WindowLists.ReorderedToOwnIndex | src/workspace.c:97-98 | reordering a window to the index it already has changes nothing |
| WindowLists.WithWindowAddedSpec | src/workspace.c:54-67 | adding appends the window, or with a pending index p puts it at clamp(p, 0, n); the others keep their order |
| WindowLists.WithPending | src/window.c:142-143 | setting a window's pending index changes only that window's index |
| WindowLists.IndexOfSameIds | src/popup.c:52 | positions depend only on the ids |
| WindowLists.DropIndex | src/window.c:153-165 | the drop correction: a predicted slot after the window's own position shifts down by one |
| WindowLists.DropBesideItself | src/window.c:146-152 | dropping a window directly before or directly after itself leaves the list unchanged |
| WindowLists.DropLandsBefore | src/window.c:153-165 | any other drop puts the window directly before the window that held the predicted slot, or last for the end slot |
| Mirror.ReplaceWindows | src/workspace.c:54-101 | editing one workspace keeps ids distinct when the new list adds only untracked, distinct ids |
| Mirror.DropWorkspace | src/screen.c:753-769 | dropping a workspace with its windows keeps the mirror well formed |
| Mirror.AppendWorkspace | src/screen.c:506-514 | appending an empty workspace with a new identity keeps the mirror well formed |
| Mirror.RemovedFromMirror | src/screen.c:623-647 | removing a held window takes exactly its id out of the mirror |
| Mirror.SameShape | src/screen.c:452-462 | retitling keeps the mirror well formed |
| Search.LowerStr | src/screen.c:168 | g_ascii_strdown keeps the length and lowers each character on its own; only 'A'..'Z' change |
| Search.SplitOn | src/screen.c:169 | g_strsplit on single spaces: no piece contains a space |
| Search.JoinSplit | src/screen.c:169 | gluing the pieces back with single spaces gives the query back |
| Search.SplitJoin | src/screen.c:169 | splitting space-free pieces glued with spaces gives the pieces back |
| Search.SplitAppend | src/popup.c:873-882 | typing a space opens a new empty term; any other character extends the last term |
| Search.Occurs | src/screen.c:141-142 | g_strrstr is non-NULL: a term occurs exactly when some position of the title starts with it |
| Search.MatchesTerms | src/screen.c:123-154 | a title matches exactly when it contains every non-empty term; empty terms are skipped |
| Search.TypingNarrows | src/popup.c:857-883 | typing a character can only make matching windows insensitive, never the reverse |
| Search.BlankQueryMatches | src/popup.c:664 | a query of spaces only (the empty query in particular) matches every title |
| Search.SearchKeepsIds | src/screen.c:159-183 | the search keeps every window id in its place |
| Search.SearchIdempotent | src/screen.c:170-179 | running the same query twice is running it once, since every flag is overwritten |
| Search.BlankQueryCountsAll | src/screen.c:170-179 | after the blank query the match count is the number of windows |
| Search.TypingNeverAddsMatches | src/popup.c:857-883 | typing a character never increases the match count |
| Search.CountMonotone | src/screen.c:170-179 | when every window sensitive in one mirror is sensitive in another of the same shape, the first counts no more matches |
| Navigation.FirstSensitiveFrom | src/screen.c:295-311 | the first sensitive window at or after a position, or none when there is none |
| Navigation.LastSensitiveBefore | src/screen.c:285-293 | the last sensitive window before a position, or none when there is none |
| Navigation.WorkspaceIndex | src/screen.c:219-236 | the first workspace with this identity, or -1 exactly when none has it |
| Navigation.Locate | src/window.c:76-85 | the workspace holding a position of the flattened list |
| Navigation.LocateOffset | src/window.c:76-85 | window j of workspace i is located in workspace i |
| Navigation.LogicalTarget | src/screen.c:241-326 | the logical cycler's pick is always a sensitive window of the flattened list |
| Navigation.LogicalTargetAt | src/screen.c:241-326 | from an active window at flattened position k the cycler scans forward from k + 1 or backward from k, wrapping once |
| Navigation.LogicalTargetSensitive | src/screen.c:241-326 | the cycler lands on a sensitive window, and finds one whenever a window is sensitive and the scan has a start |
| Navigation.BackwardUndoesForward | src/screen.c:241-326 | from a sensitive active window, forward then backward comes back to it |
| Navigation.ForwardUndoesBackward | src/screen.c:241-326 | from a sensitive active window, backward then forward comes back to it |
| Navigation.Filter | src/screen.c:382-389 | the windows kept are exactly the listed ones that pass the eligibility test |
| Navigation.FilterNoDup | src/screen.c:382-389 | filtering keeps a duplicate-free list duplicate-free |
| Navigation.FilterIdempotent | src/screen.c:382-389 | filtering twice with the same test is filtering once |
| Navigation.StackingTarget | src/screen.c:331-447 | the pick is an eligible window; there is none exactly when no window is eligible or the active window is not eligible |
| Navigation.StackingRoundTrip | src/screen.c:331-447 | stacking-order cycling forward then backward, or backward then forward, returns to the start |
| Navigation.StackingForwardHit | src/screen.c:398-408 | going forward, the eligible window just below the active one is the target |
| Navigation.StackingBackwardHit | src/screen.c:410-425 | going backward, the eligible window just above the active one is the target |
| Navigation.RelativeWorkspace | src/screen.c:83-103 | the relative target is (active number, or 0 for none) + delta, brought into [0, n) |
| Navigation.RelativeRoundTrip | src/screen.c:83-103 | a step forward and a step back return to the starting workspace |
| WindowActions.NewWindow | src/window.c:329-330 | a new window is sensitive and has pending index -1 |
| WindowActions.SetSensitive | src/window.c:66-71 | only the sensitivity flag changes |
| WindowActions.Centre | src/window.c:100-101 | the warp point lies inside the window's rectangle |
| WindowActions.WindowActivation | src/window.c:90-108 | nothing for NULL; otherwise the activation, then a warp to the centre exactly when warping is asked for and the screen recentres |
| WindowActions.WorkspaceAndWindowActivation | src/window.c:76-85 | nothing for NULL; otherwise the workspace at time t, then the window activation at t + 1 |
| Layout.FindWorkspaceNearPoint | src/screen.c:715-729 | none exactly when there are no workspaces; else the first column ending beyond x plus the spacing, or the last column |
| Layout.FindIndexNearPoint | src/workspace.c:306-327 | -1 exactly for an empty workspace; else the first row whose midpoint lies below y, or n, so the result is in [0, n] |
| Layout.NearPointIgnoresLaterColumns | src/screen.c:715-729 | the pick never depends on the columns after it |
| Layout.IndexMonotone | src/workspace.c:306-327 | moving the pointer down never moves the predicted index up |
| Monitors.NewXinerama | src/xinerama.c:19-72 | the queried screens are copied in order, or one screen at the origin with the display's size; the minimum width is the least screen width |
| Monitors.Overlap | src/xinerama.c:108-121 | the intersection area is never negative |
| Monitors.BestScreen | src/xinerama.c:89-130 | a screen index with maximal overlap, and no earlier screen has the same overlap |
| Monitors.BestScreenUnique | src/xinerama.c:89-130 | the lowest-index screen with maximal overlap is the only answer |
| Monitors.MoveToNextScreen | src/xinerama.c:134-184 | nothing for one screen or no window; otherwise the window moves to screen (best + 1) mod n at the same offset from the origin, unmaximized before and maximized after when it was maximized |
| DragDrop.DragAndDrop.constructor | src/draganddrop.c:32-39 | a new session is idle |
| DragDrop.DragAndDrop.Reset | src/draganddrop.c:15-27 | not dragging, every coordinate and the index -1, no start window, workspace, widget or target |
| DragDrop.DragAndDrop.Start | src/draganddrop.c:101-122 | records the origin; the start widget is the window's, else the workspace's, else none with coordinates -1; dragging is untouched |
| DragDrop.DragAndDrop.OnMotion | src/draganddrop.c:55-83 | nothing without a start widget; dragging starts past the threshold and is never cleared; while dragging the target and index are the ones under the pointer |
| DragDrop.DragAndDrop.OnRelease | src/draganddrop.c:88-96 | whatever the state, the session ends idle |
| WindowEvents.OnButtonPress | src/window.c:113-121 | the session starts on this window's row and its workspace |
| WindowEvents.OnButtonRelease | src/window.c:126-176 | a drop onto another workspace sets the pending index and moves; a drop at home reorders with the correction; a click activates the workspace and the window; the session always ends |
| WindowEvents.DropOnOtherWorkspace | src/window.c:142-144 | the window keeps the predicted index for when the WM reports it on the target |
| WindowEvents.DropInOwnWorkspace | src/window.c:145-165 | the pending index is cleared and the window is reordered to the corrected slot |
| WindowEvents.OnWorkspaceChanged | src/window.c:247-264 | the window leaves its old workspace, joins the new one at its pending index, and its pending index is cleared; the mirror's ids are unchanged |
| WorkspaceEvents.ScrollDelta | src/workspace.c:116-131 | up and left step -1, down and right step +1 |
| WorkspaceEvents.ScrollBack | src/workspace.c:116-131 | scrolling one way and then the other returns to the starting workspace |
| WorkspaceEvents.OnScroll | src/workspace.c:106-133 | a relative switch by the direction's step, with shift and control as the bring-along flags |
| WorkspaceEvents.OnButtonPress | src/workspace.c:138-144 | the session starts on this header, with no window |
| WorkspaceEvents.OnButtonRelease | src/workspace.c:149-189 | a drop onto another header moves every source window there and activates it; a click switches to the workspace; the session always ends |
| Screens.FKeyTitle | src/screen.c:452-462 | workspaces 0..11 are titled by their F key, later ones are blank |
| Screens.FKeyTitleNumbers | src/screen.c:452-462 | workspace j's title is "F" followed by j + 1 |
| Screens.Shown | src/screen.c:669-694 | the cache holds exactly the WM's windows not hidden from pagers |
| Screens.SearchWindowList | src/screen.c:123-154 | the per-window loop sets each flag to whether the title matches, and counts the matches |
| Screens.SwitchCommands | src/screen.c:52-78 | one move to the target per carried window, in order, then the target's activation |
| Screens.MovesTo | src/workspace.c:172-178 | one move to the target per window, in list order |
| Screens.MoveAll | src/workspace.c:172-178 | the loop issues exactly those moves |
| Screens.CarriedWindows | src/screen.c:58-77 | all mode carries every window of the active workspace; otherwise only the active window, if any |
| Screens.Lookup | src/screen.c:188-214 | a window is found exactly when the mirror tracks its id |
| Screens.ActiveIndex | src/screen.c:489-501 | the active workspace's position, or none when it is unset or not listed |
| Screens.Activation | src/screen.c:289-299 | the workspace activation followed by the window activation one tick later, or nothing |
| Screens.LogicalCommands | src/screen.c:241-326 | nothing exactly when the cycler finds no target; else the target's workspace and then the sensitive target window are activated |
| Screens.ScanWorkspaces | src/screen.c:263-313 | the outer loop's hit is the cycler's answer, and without a hit the flags summarise the scan |
| Screens.ScanWorkspace | src/screen.c:263-313 | one round of the outer loop: a hit is the cycler's answer; otherwise the scan invariant moves to the next workspace |
| Screens.ScanWorkspaceStart | src/screen.c:265-276 | with no active window, the active workspace either answers with the latest sensitive window (backward) or marks the scan's start |
| Screens.ScanWindows | src/screen.c:278-312 | the inner loop: a hit is the cycler's answer for the scan's start; without one the scan invariant moves from the workspace's first position to the position after its last window |
| Screens.ScanWindowStep | src/screen.c:279-311 | one window's check is WindowHit and, without a hit, its update is WindowPass |
| Screens.WindowStep | src/screen.c:279-311 | one window of the inner loop: a hit is the cycler's answer, and otherwise the scan invariant moves on by one position |
| Screens.PassStep | src/screen.c:294-311 | passing one window that is not a hit moves the scan invariant one position on |
| Screens.HitStep | src/screen.c:285-298 | a window that is a hit is the first sensitive window after the active one (forward) or the last before it (backward) |
| Screens.ScanEnd | src/screen.c:315-325 | after the loops, the flag set says which remembered window is the answer, and no flag means no start |
| Screens.LogicalCommandsFromStart | src/screen.c:241-326 | the cycler's requests are the activation of the answer from the scan's start, or nothing when there is no start |
| Screens.ScanStacking | src/screen.c:382-446 | the stacking loop picks StackingTarget of the eligible windows |
| Screens.WalkStacking | src/screen.c:382-426 | the walk either settles the target early or has seen every eligible window with the cycler's state |
| Screens.VisitStacked | src/screen.c:383-425 | windows of other workspaces are skipped; an eligible one is visited |
| Screens.VisitEligible | src/screen.c:391-425 | an eligible window either settles StackingTarget or joins the windows seen |
| Screens.StackingChoice | src/screen.c:428-446 | after the walk, the flags pick StackingTarget |
| Screens.StackingCommands | src/screen.c:331-447 | nothing exactly when there is no target or it is not tracked; else the target, on the active workspace, is activated |
| Screens.Screen.constructor | src/screen.c:903-987 | the workspaces in the WM's order, titled by F key; workspace j holds the tracked windows the WM reports on j, in the WM's order, as fresh records; the active window is the WM's when it is tracked; the cache rebuilt; the active workspace taken from the WM |
| Screens.Screen.AddExistingWorkspaces | src/screen.c:949-954 | one empty workspace per WM workspace, in order |
| Screens.Screen.AddExistingWindows | src/screen.c:956-959 | each window goes through add_window_to_screen (src/screen.c:519-547): workspace j gains, at its end and in the WM's order, exactly the tracked windows the WM reports on j; the active window becomes the WM's when it is tracked; nothing else changes |
| Screens.OpenedOnReportedWorkspace | src/screen.c:519-547 | after ss_screen_new a window is on workspace j exactly when it is listed by the WM, tracked and reported on j; each list is duplicate-free and in the WM's order |
| Screens.OpenedAll | src/screen.c:956-959 | one add_window_to_screen step appends the window to the workspace the WM reports and keeps every other list |
| Screens.OpenedIds | src/screen.c:519-547 | one step tracks the window exactly when it is not hidden from pagers and is on a workspace, and makes it active when the WM reports it active |
| Screens.OpenedStep | src/screen.c:548 | the window lands at the end of its own workspace's list |
| Screens.FreshWorkspacesIds | src/screen.c:949-954 | the freshly added workspaces carry the WM's ids in order and no window |
| Screens.Screen.AddWindow | src/workspace.c:54-67 | nothing for NULL; otherwise the window joins at the end or at its pending index, and the mirror gains exactly its id |
| Screens.Screen.RemoveWindow | src/workspace.c:72-79 | nothing for NULL; otherwise the window is no longer held |
| Screens.Screen.ReorderWindow | src/workspace.c:84-101 | nothing for NULL; otherwise the window moves to its clamped index and the workspace holds the same windows |
| Screens.Screen.SetPendingIndex | src/window.c:142-143 | only this window's pending index changes |
| Screens.SearchAll | src/screen.c:159-183 | the filtered workspaces are ApplySearch of the old ones and the count is the number of sensitive windows |
| Screens.Screen.UpdateSearch | src/screen.c:159-183 | every flag is whether the title matches, and the match count is the number of sensitive windows |
| Screens.Screen.ChangeActiveWorkspaceTo | src/screen.c:52-78 | the carried windows move to the target, which is then activated |
| Screens.WrapIntoRange | src/screen.c:93-98 | the two loops bring the number into [0, n) and leave it equal to it modulo n |
| Screens.Screen.ChangeActiveWorkspaceByDelta | src/screen.c:83-103 | the switch goes to the workspace RelativeWorkspace picks |
| Screens.Screen.ChangeActiveWorkspace | src/screen.c:108-118 | numbers outside the list do nothing; others switch to that workspace |
| Screens.Screen.ActivateNextWindow | src/screen.c:241-326 | the loop's requests are LogicalCommands |
| Screens.Screen.ActivateNextWindowInStackingOrder | src/screen.c:331-447 | nothing when the active workspace is empty; otherwise the suppression flag is set and the requests are StackingCommands |
| Screens.Screen.UpdateWorkspaceTitles | src/screen.c:452-462 | every workspace is retitled by its position and nothing else changes |
| Screens.Screen.OnActiveWindowChanged | src/screen.c:467-484 | the active window is the WM's, if the mirror tracks it, else none |
| Screens.Screen.FindWindow | src/screen.c:188-214 | the walk finds the tracked window with the id, if any |
| Screens.Screen.FindWorkspace | src/screen.c:219-236 | the walk finds the workspace's position, or -1 |
| Screens.Screen.OnActiveWorkspaceChanged | src/screen.c:489-501 | the active number is the WM's, and the workspace at that position is active, none past the end |
| Screens.Screen.UpdateStacking | src/screen.c:669-694 | the cache is the WM's bottom-to-top list without the windows hidden from pagers |
| Screens.Screen.OnWindowStackingChanged | src/screen.c:699-710 | a set flag swallows exactly one notification; otherwise the cache is rebuilt |
| Screens.Screen.OnFocusModeChange | src/screen.c:775-789 | the pointer is recentred exactly when the focus mode is "sloppy" or "mouse", ignoring case |
| Screens.Screen.OnWindowOpened | src/screen.c:652-664 | untracked windows are ignored; otherwise the window joins its workspace, the mirror gains its id, and it becomes active if the WM says so |
| Screens.Screen.OnWindowClosed | src/screen.c:623-647 | untracked windows are ignored; otherwise the window is removed from the workspace the WM reports it on (if any) and stops being the active window |
| Screens.Screen.OnWorkspaceCreated | src/screen.c:734-748 | an empty workspace is appended and every workspace is retitled |
| Screens.Screen.OnWorkspaceDestroyed | src/screen.c:753-769 | the workspace and its windows leave the mirror and the rest are retitled |
| Screens.UniqueInWorkspace | src/screen.c:519-550 | in a well-formed mirror each workspace's window ids are distinct |
| Screens.WorkspaceIndexUnique | src/screen.c:219-236 | a workspace's identity finds that very workspace |
| DeletePlans.NonEmptyBefore | src/popup.c:189-210 | the number of non-empty workspaces before a position is at most that position |
| DeletePlans.CompactAll | src/popup.c:183-210 | the corrected all-mode loop: the moves of CompactMoves, the re-activation target, and the count of empty workspaces |
| DeletePlans.ShiftLeft | src/popup.c:216-237 | the single-mode loop: every window after the active workspace moves one workspace left |
| DeletePlans.WalkAsWritten | src/popup.c:186-210 | the all-mode loop as written fails when its pointer runs past the last workspace |
| DeletePlans.AsWrittenCrashExample | src/popup.c:205-206 | one workspace with one window makes the loop as written read past the end |
| DeletePlans.AsWrittenCrashesIffNoneEmpty | src/popup.c:183-259 | the code as written fails exactly when no workspace is empty, and otherwise agrees with DeletionCommands |
| DeletePlans.CompactLength | src/popup.c:196-203 | all mode issues one move per window |
| DeletePlans.CompactMoveAt | src/popup.c:196-206 | the windows of the c-th non-empty workspace all go to workspace c |
| DeletePlans.CompactTargetsSurvive | src/popup.c:257-259 | every target lies below the new count max(1, n - empties); a count is set exactly when some workspace is empty |
| DeletePlans.ActiveFollowsItsWindows | src/popup.c:192-193 | the re-activated workspace is the one the active workspace's windows move to, and it survives the count change |
| DeletePlans.ShiftLength | src/popup.c:219-236 | single mode issues one move per window after the active workspace |
| DeletePlans.ShiftMoveAt | src/popup.c:225-235 | each window after the active workspace moves to the workspace just before its own |
| DeletePlans.SingleModeTargets | src/popup.c:214-259 | single mode moves each later window one workspace left, ends with count max(1, n - 1), and every target survives |
| Popups.DeltaTarget | src/popup.c:31-48 | the cycling target is a valid position: first or last without an active window, none for one window or fewer |
| Popups.DeltaRoundTrip | src/popup.c:63-91 | with two or more windows a step never stays put, and a step forward then back, or back then forward, returns to the window |
| Popups.BringPlacesWindow | src/popup.c:50-61 | bring-along puts the active window one step along, wrapping at both ends; the others keep their order; the opposite step restores the position |
| Popups.CycleWindows | src/popup.c:63-91 | the loop with a previous window and a flag activates the DeltaTarget window |
| Popups.ToggleChoice | src/popup.c:299-396 | every window leaves the state exactly when all were in it, and every window enters it exactly when some was not |
| Popups.AllWindowsInState | src/popup.c:313-322 | the first loop answers whether every window is in the state |
| Popups.ToggleList | src/popup.c:299-345 | the toggle-all loops issue ToggleCommands |
| Popups.CloseList | src/popup.c:279-284 | one close per window, in list order |
| Popups.Typed | src/popup.c:874-880 | the buffer gains the typed text, starting empty when there was none |
| Popups.Erased | src/popup.c:860-865 | the buffer loses its last character, and stays empty when empty |
| Popups.EraseUndoesTyping | src/popup.c:857-883 | backspace undoes typing one character |
| Popups.DecimalInjective | src/popup.c:648-650 | "%d" gives different numbers different digits |
| Popups.MatchLabelNamesCount | src/popup.c:646-650 | different match counts give different labels |
| Popups.FKeySwitchesToTitledWorkspace | src/popup.c:818-853 | F(j+1) switches to workspace j, whose title is "F" followed by j + 1 |
| Popups.OppositeKeysUndo | src/popup.c:783-815 | Left after Right, Up after Down, and Shift-Tab after Tab each return to where they started |
| Popups.Popup.constructor | src/popup.c:660-680 | the search is reset to the empty query; no search text; no pending new workspace, time -1 |
| Popups.Popup.ChangeActiveWindowByDelta | src/popup.c:20-92 | bring-along reorders the active window one step along and requests nothing; otherwise the DeltaTarget window is activated |
| Popups.Popup.OnScroll | src/popup.c:488-511 | up and left cycle one window back, down and right forward, shift brings the window along, no warp |
| Popups.Popup.ToggleState | src/popup.c:299-396 | all mode toggles every window of the active workspace; single mode the active window; nothing without either |
| Popups.Popup.CloseActiveWindow | src/popup.c:269-294 | all mode closes every window of the active workspace, each once; single mode the active window; nothing without either |
| Popups.Popup.NewWorkspace | src/popup.c:123-135 | one more workspace is requested and the completion is left pending with its flag and time |
| Popups.Popup.OnWorkspaceCreated | src/popup.c:456-475 | a pending completion brings the WM's active window along if asked, activates the new workspace, and is cleared; otherwise nothing |
| Popups.Popup.DeleteWorkspaceIfEmpty | src/popup.c:140-264 | the requests are DeletionCommands, built by the corrected loops |
| Popups.Popup.RefreshSearch | src/popup.c:638-655 | the mirror is filtered by the query and the label names the match count |
| Popups.Popup.EraseLast | src/popup.c:857-867 | with a buffer, the last character goes and the search reruns; without one, nothing |
| Popups.Popup.Type | src/popup.c:868-883 | the buffer is created if needed, the text appended, and the search rerun |
| Popups.Popup.ChangeXinerama | src/popup.c:409-412 | the active window moves to the next physical screen at the same offset; a maximized one is unmaximized before the move and maximized after it |
| Popups.Popup.Ask | src/popup.c:97-118 | each action that only makes requests makes the key map's requests; the next-screen action makes the move, wrapped in unmaximize and maximize for a maximized window |
| Popups.Popup.OnKeyPress | src/popup.c:761-884 | the key's action runs: requests match the key map, the bring-along reorder, the stacking cycle (nothing is sent and the flag is kept on an empty active workspace), and the buffer edits |

## Left out

- Drawing: the expose handlers, thumbnails, label widths and bold or italic styling. They are floating point and GTK or Pango calls.
- Process start-up, key grabs, D-Bus, GObject type registration and signal wiring. Handlers are called directly.
- gconf: the focus mode is a parameter of `Screens.Screen.OnFocusModeChange` and the constructor.
- The window manager's reaction to requests. Requests are returned, not performed.
- Records are values, not pointers. Windows and workspaces are values inside `Screen.workspaces`, and a window's back-reference to its workspace is the position of the workspace holding it. Aliasing between records is therefore not modelled.
- The drag session names workspaces by their position in the list.
- `num_workspaces` is not a separate field; the length of the workspace list stands for it.
- Integers are unbounded. Only timestamps wrap, as guint32.
- Key decoding (XLookupString, XKeycodeToKeysym) is an input. Keypad keys are folded into their main-keyboard twins.
- The search buffer holds characters, not bytes, so backspace drops one character where the code drops one byte.
- The header prototypes that disagree with the `.c` definitions are ignored; the model follows the `.c` files.
- The window titles are those given when the window opens; a later rename is not modelled.
- The Xinerama screen list is a value given to the screen at creation.
- Screens.Screen.ChangeActiveWorkspaceByDelta: requires at least one workspace, because with none the normalising loops never end. With bring-along in all mode it also requires the active workspace, when set, to be listed, because src/screen.c:60-61 reads the active workspace's windows without a check, and after on_workspace_destroyed (src/screen.c:753-769) that pointer is left dangling, so the read is a use after free, which the model does not represent.
- Screens.Screen.ChangeActiveWorkspaceTo: with bring-along in all mode requires the active workspace, when set, to be listed, because src/screen.c:60-61 reads the active workspace's windows without a check, and after on_workspace_destroyed (src/screen.c:753-769) that pointer is left dangling, so the read is a use after free, which the model does not represent.
- Screens.Screen.ChangeActiveWorkspace: for an in-range number with bring-along in all mode requires the active workspace, when set, to be listed, because src/screen.c:60-61 reads the active workspace's windows without a check, and after on_workspace_destroyed (src/screen.c:753-769) that pointer is left dangling, so the read is a use after free, which the model does not represent. Out-of-range numbers return before that read (src/screen.c:113-117) and need nothing.
- WorkspaceEvents.OnScroll: requires at least one workspace (the relative switch would loop forever) and, with shift and control, a listed active workspace, for the same dangling-pointer read in src/screen.c:60-61.
- WorkspaceEvents.OnButtonRelease: with shift and control requires the active workspace, when set, to be listed, for the same dangling-pointer read in src/screen.c:60-61.
- Popups.Popup.ToggleState: in all mode requires the active workspace, when set, to be listed, because src/popup.c:313-322 reads its windows without a check; a workspace destroyed while active leaves that pointer dangling (use after free).
- Popups.Popup.CloseActiveWindow: in all mode requires the active workspace, when set, to be listed, because src/popup.c:279-284 reads its windows without a check; a workspace destroyed while active leaves that pointer dangling (use after free).
- Screens.Screen.constructor: requires every tracked window's reported workspace number to be in the list. For a number past the end ss_screen_get_nth_workspace returns NULL and ss_window_new dereferences it (src/window.c:304), a crash the model does not represent.
- Screens.Screen.AddExistingWindows: requires every tracked window's reported workspace number to be in the list, for the same NULL dereference in ss_window_new (src/window.c:304).
- Screens.Screen.OnWindowOpened: requires a tracked window's reported workspace number to be in the list, for the same NULL dereference in ss_window_new (src/window.c:304).
- Screens.Screen.OnWindowClosed: requires a tracked window's reported workspace number, when there is one, to be in the list; past the end ss_workspace_remove_window receives NULL and dereferences it (src/workspace.c:77). A window closed while the WM reports it on another workspace, or on none, stays listed in the model; the code removes nothing and then frees the window in place (src/screen.c:646), leaving a dangling list entry that the model does not represent.
- Monitors.MoveToNextScreen: requires at least one physical screen; with Xinerama active and zero screens src/xinerama.c:173 takes a remainder by zero.
- Popups.Popup.ChangeXinerama: requires at least one physical screen, for the same remainder by zero in src/xinerama.c:173.
- Screens.Screen.OnWorkspaceDestroyed: requires the workspace to be tracked.
- Screens.Screen.ActivateNextWindowInStackingOrder: requires the active workspace to be listed, because the code reads its windows.
- Screens.StackingCommands: an active window that is present but not eligible makes the code pick nothing. The model follows the code, not "treat it as no active window".
- Navigation.LogicalTarget: going forward when the active window is the only sensitive one activates it again, as the code does.
- WindowEvents.OnButtonRelease: requires the press to have started on the same row, which is how GTK delivers the release.
- WindowEvents.OnWorkspaceChanged: requires the new workspace number to be in the list.
- Popups.Popup.ChangeActiveWindowByDelta: requires a listed active workspace, a step of +1 or -1, and for bring-along an active window held in that workspace. Otherwise the code would dereference NULL, assert, or insert a duplicate.
- Popups.Popup.OnKeyPress: requires each action's own precondition, collected in `Ready`. For the next-screen key its contract states only when nothing happens; `Popups.Popup.Ask` states the move.
- Popups.Popup.DeleteWorkspaceIfEmpty: builds the requests directly instead of two parallel lists of windows and target workspaces. In single mode it requires the active workspace to be listed: src/popup.c:214 reads the active workspace's windows without a check, so a missing one is a NULL dereference and one left stale after a destroy is a use after free, neither of which the model represents.
- The drag motion threshold (gtk_drag_check_threshold) is an input.

## Findings

| source | as written | input that shows it | evidently intended | confidence | as-written member | corrected member |
|---|---|---|---|---|---|---|
| src/popup.c:205-206 | in all mode, each non-empty workspace advances the target pointer and reads the workspace it lands on, even after the last one | all mode with every workspace non-empty, e.g. one workspace holding one window: the pointer moves past the end and line 206 dereferences NULL | stop advancing at the last workspace; the reading is never used when no workspace is empty | not executed | DeletePlans.AsWrittenCrashExample | DeletePlans.CompactAll |
