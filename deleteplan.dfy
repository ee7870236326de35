/** The plan behind "delete empty workspace(s)". The window manager can only
    change the number of workspaces, which drops workspaces from the end, so
    deleting a workspace in the middle is imitated by first moving windows
    leftwards and then lowering the count. All mode closes every gap left by
    an empty workspace; single mode deletes the active workspace when it is
    empty. Workspaces are named by their position in the screen's list. */
module DeletePlans {
  import opened Common
  import opened Navigation
  import opened Screens

  function Max(a: int, b: int): int { if a >= b then a else b }

  /** How many of the first i workspaces hold at least one window. */
  function NonEmptyBefore(wss: seq<Workspace>, i: nat): (c: nat)
    requires i <= |wss|
    ensures c <= i
  {
    if i == 0 then 0
    else NonEmptyBefore(wss, i - 1) + (if wss[i - 1].windows != [] then 1 else 0)
  }

  /** The number of empty workspaces. */
  function Empties(wss: seq<Workspace>): nat {
    |wss| - NonEmptyBefore(wss, |wss|)
  }

  // ---------------------------------------------------------------------
  // What the plan is meant to be

  /** All mode, workspaces [0, i): the windows of each workspace go to the
      workspace whose position is the number of non-empty workspaces before
      it. */
  function CompactMoves(wss: seq<Workspace>, i: nat): seq<Command>
    requires i <= |wss|
  {
    if i == 0 then []
    else CompactMoves(wss, i - 1) + MovesTo(wss[i - 1].windows, wss[NonEmptyBefore(wss, i - 1)].id)
  }

  /** Single mode, workspaces [0, i): the windows of each workspace after
      the deleted one at position a go to the workspace just before their
      own. */
  function ShiftMoves(wss: seq<Workspace>, a: nat, i: nat): seq<Command>
    requires a < |wss| && i <= |wss|
  {
    if i == 0 then []
    else ShiftMoves(wss, a, i - 1) + (if i - 1 > a then MovesTo(wss[i - 1].windows, wss[i - 2].id) else [])
  }

  /** Every request of action_delete_workspace_if_empty, in order: the
      moves, then (all mode) the re-activation of the workspace that the
      active one's windows end up on, then the new count, never below one.
      `active` is the active workspace's position, if it is listed. */
  function DeletionCommands(wss: seq<Workspace>, active: Option<nat>, all: bool, time: Time): seq<Command>
    requires active.Some? ==> active.value < |wss|
    requires !all ==> active.Some?
  {
    if all then
      CompactMoves(wss, |wss|) +
      (if active.Some? then [ActivateWorkspace(wss[NonEmptyBefore(wss, active.value)].id, time)] else []) +
      (if Empties(wss) > 0 then [SetWorkspaceCount(Max(1, |wss| - Empties(wss)))] else [])
    else if wss[active.value].windows == [] then
      ShiftMoves(wss, active.value, |wss|) + [SetWorkspaceCount(Max(1, |wss| - 1))]
    else []
  }

  // ---------------------------------------------------------------------
  // The two loops of the first stage

  /** The all-mode loop: one pass over the workspaces with a pointer to the
      workspace that receives the next non-empty workspace's windows. The
      pointer only advances while there is a next workspace. */
  method CompactAll(wss: seq<Workspace>, active: Option<nat>)
    returns (moves: seq<Command>, activate: Option<WsId>, deleted: nat)
    ensures moves == CompactMoves(wss, |wss|)
    ensures activate == if active.Some? && active.value < |wss|
                        then Some(wss[NonEmptyBefore(wss, active.value)].id) else None
    ensures deleted == Empties(wss)
  {
    moves, activate, deleted := [], None, 0;
    var to := 0;
    var i := 0;
    while i < |wss|
      invariant 0 <= i <= |wss|
      invariant i < |wss| ==> to == NonEmptyBefore(wss, i)
      invariant moves == CompactMoves(wss, i)
      invariant activate == if active.Some? && active.value < i
                            then Some(wss[NonEmptyBefore(wss, active.value)].id) else None
      invariant deleted == i - NonEmptyBefore(wss, i)
    {
      if active == Some(i) {
        activate := Some(wss[to].id);
      }
      if wss[i].windows != [] {
        var m := MoveAll(wss[i].windows, wss[to].id);
        moves := moves + m;
        if to + 1 < |wss| {
          to := to + 1;
        }
      } else {
        deleted := deleted + 1;
      }
      i := i + 1;
    }
  }

  /** The single-mode loop: after the active workspace has been passed,
      each workspace's windows go to the workspace visited just before it. */
  method ShiftLeft(wss: seq<Workspace>, a: nat) returns (moves: seq<Command>)
    requires a < |wss|
    ensures moves == ShiftMoves(wss, a, |wss|)
  {
    moves := [];
    var seen := false;
    var to: Option<WsId> := None;
    var i := 0;
    while i < |wss|
      invariant 0 <= i <= |wss|
      invariant seen <==> a < i
      invariant to == if i == 0 then None else Some(wss[i - 1].id)
      invariant moves == ShiftMoves(wss, a, i)
    {
      if i == a {
        seen := true;
      } else if seen {
        var m := MoveAll(wss[i].windows, to.value);
        moves := moves + m;
      }
      to := Some(wss[i].id);
      i := i + 1;
    }
  }

  // ---------------------------------------------------------------------
  // The all-mode walk as written

  /** The state of the all-mode walk: the position the pointer is at, the
      moves so far, the workspace to re-activate and the deletions. */
  datatype Walk = Walk(to: nat, moves: seq<Command>, activate: Option<WsId>, deleted: nat)

  /** The all-mode walk over workspaces [0, i) as written: the pointer
      starts on the first workspace and, after each non-empty workspace,
      moves to the next one and is read at once. None stands for reading
      past either end of the list. */
  function WalkAsWritten(wss: seq<Workspace>, active: Option<nat>, i: nat): (r: Option<Walk>)
    requires i <= |wss|
    ensures r.Some? ==> r.value.to < |wss|
  {
    if |wss| == 0 then None
    else if i == 0 then Some(Walk(0, [], None, 0))
    else match WalkAsWritten(wss, active, i - 1)
      case None => None
      case Some(w) =>
        var j := i - 1;
        var activate := if active == Some(j) then Some(wss[w.to].id) else w.activate;
        if wss[j].windows != [] then
          if w.to + 1 < |wss|
          then Some(Walk(w.to + 1, w.moves + MovesTo(wss[j].windows, wss[w.to].id), activate, w.deleted))
          else None
        else Some(Walk(w.to, w.moves, activate, w.deleted + 1))
  }

  /** The all-mode requests as written; None when the walk crashes. */
  function DeleteAllAsWritten(wss: seq<Workspace>, active: Option<nat>, time: Time): Option<seq<Command>> {
    match WalkAsWritten(wss, active, |wss|)
    case None => None
    case Some(w) =>
      Some(w.moves +
           (if w.activate.Some? then [ActivateWorkspace(w.activate.value, time)] else []) +
           (if w.deleted > 0 then [SetWorkspaceCount(Max(1, |wss| - w.deleted))] else []))
  }

  /** One workspace holding one window is enough to make the walk read
      past the end of the list. */
  lemma AsWrittenCrashExample()
    ensures DeleteAllAsWritten([Workspace(1, "", [Window(7, "", true, -1)])], Some(0), 0).None?
  {
    var wss := [Workspace(1, "", [Window(7, "", true, -1)])];
    assert WalkAsWritten(wss, Some(0), 0) == Some(Walk(0, [], None, 0));
  }

  /** The walk as written agrees with the intended plan up to the point
      where every workspace seen so far was non-empty and the list is used
      up. */
  lemma {:induction false} WalkAgrees(wss: seq<Workspace>, active: Option<nat>, i: nat)
    requires 0 < |wss| && i <= |wss|
    ensures WalkAsWritten(wss, active, i).None? <==> NonEmptyBefore(wss, i) == |wss|
    ensures WalkAsWritten(wss, active, i).Some? ==>
              WalkAsWritten(wss, active, i).value ==
                Walk(NonEmptyBefore(wss, i), CompactMoves(wss, i),
                     if active.Some? && active.value < i then Some(wss[NonEmptyBefore(wss, active.value)].id) else None,
                     i - NonEmptyBefore(wss, i))
  {
    if i > 0 {
      WalkAgrees(wss, active, i - 1);
      if NonEmptyBefore(wss, i - 1) == |wss| {
        assert false;
      }
    }
  }

  /** The Finding, both ways: the walk as written crashes exactly when no
      workspace is empty (including when there is none at all), and
      otherwise it issues the intended requests. */
  lemma AsWrittenCrashesIffNoneEmpty(wss: seq<Workspace>, active: Option<nat>, time: Time)
    requires active.Some? ==> active.value < |wss|
    ensures DeleteAllAsWritten(wss, active, time).None? <==> forall j :: 0 <= j < |wss| ==> wss[j].windows != []
    ensures DeleteAllAsWritten(wss, active, time).Some? ==>
              DeleteAllAsWritten(wss, active, time).value == DeletionCommands(wss, active, true, time)
  {
    if |wss| > 0 {
      WalkAgrees(wss, active, |wss|);
    }
    AllNonEmptyCount(wss, |wss|);
  }

  /** The count reaches i exactly when none of the first i workspaces is
      empty. */
  lemma {:induction false} AllNonEmptyCount(wss: seq<Workspace>, i: nat)
    requires i <= |wss|
    ensures NonEmptyBefore(wss, i) == i <==> forall j :: 0 <= j < i ==> wss[j].windows != []
  {
    if i > 0 {
      AllNonEmptyCount(wss, i - 1);
    }
  }

  // ---------------------------------------------------------------------
  // What the intended plan achieves

  lemma {:induction false} NonEmptyMonotone(wss: seq<Workspace>, i: nat, j: nat)
    requires i <= j <= |wss|
    ensures NonEmptyBefore(wss, i) <= NonEmptyBefore(wss, j)
    ensures wss[i..j] != [] && wss[i].windows != [] ==> NonEmptyBefore(wss, i) < NonEmptyBefore(wss, j)
    decreases j
  {
    if i < j {
      NonEmptyMonotone(wss, i, j - 1);
      if i == j - 1 {
        assert wss[i..j] != [];
      }
    }
  }

  lemma {:induction false} CompactLength(wss: seq<Workspace>, i: nat)
    requires i <= |wss|
    ensures |CompactMoves(wss, i)| == Offset(wss, i)
  {
    if i > 0 {
      CompactLength(wss, i - 1);
      OffsetStep(wss, i - 1);
    }
  }

  /** Window k of workspace j is moved to the workspace at position
      NonEmptyBefore(wss, j): the windows of the c-th non-empty workspace
      all go to workspace c, in list order (by induction on the number i of
      workspaces planned). */
  lemma {:induction false} CompactMoveAt(wss: seq<Workspace>, i: nat, j: nat, k: nat)
    requires j < i <= |wss| && k < |wss[j].windows|
    ensures Offset(wss, j) + k < Offset(wss, i) == |CompactMoves(wss, i)|
    ensures CompactMoves(wss, i)[Offset(wss, j) + k] == MoveToWorkspace(wss[j].windows[k].id, wss[NonEmptyBefore(wss, j)].id)
  {
    CompactLength(wss, i);
    CompactLength(wss, i - 1);
    OffsetStep(wss, i - 1);
    var prev := CompactMoves(wss, i - 1);
    var last := MovesTo(wss[i - 1].windows, wss[NonEmptyBefore(wss, i - 1)].id);
    assert CompactMoves(wss, i) == prev + last;
    if j < i - 1 {
      CompactMoveAt(wss, i - 1, j, k);
    }
    ConcatAt(prev, last, Offset(wss, j) + k);
  }

  lemma ConcatAt<T>(a: seq<T>, b: seq<T>, n: nat)
    requires n < |a| + |b|
    ensures (a + b)[n] == if n < |a| then a[n] else b[n - |a|]
  {
  }

  /** No window is sent to a workspace that the new count removes, and the
      count drops exactly when some workspace is empty; when none is, every
      window is "moved" to the workspace it is on. */
  lemma CompactTargetsSurvive(wss: seq<Workspace>, j: nat)
    requires j < |wss| && wss[j].windows != []
    ensures NonEmptyBefore(wss, j) < |wss| - Empties(wss) <= Max(1, |wss| - Empties(wss))
    ensures Empties(wss) > 0 <==> exists q :: 0 <= q < |wss| && wss[q].windows == []
    ensures Empties(wss) == 0 ==> NonEmptyBefore(wss, j) == j
  {
    NonEmptyMonotone(wss, j, |wss|);
    assert wss[j..|wss|] != [] by { assert wss[j..|wss|][0] == wss[j]; }
    AllNonEmptyCount(wss, |wss|);
    if Empties(wss) == 0 {
      AllNonEmptyCount(wss, j);
    }
  }

  /** In all mode the re-activated workspace is the one the active
      workspace's windows are moved to, and it survives the new count. */
  lemma ActiveFollowsItsWindows(wss: seq<Workspace>, a: nat, time: Time, k: nat)
    requires a < |wss| && k < |wss[a].windows|
    ensures var cmds := DeletionCommands(wss, Some(a), true, time);
            var moves := CompactMoves(wss, |wss|);
            var target := wss[NonEmptyBefore(wss, a)].id;
            |cmds| > |moves| && cmds[|moves|] == ActivateWorkspace(target, time) &&
            NonEmptyBefore(wss, a) < Max(1, |wss| - Empties(wss)) &&
            Offset(wss, a) + k < |moves| && moves[Offset(wss, a) + k] == MoveToWorkspace(wss[a].windows[k].id, target)
  {
    var moves := CompactMoves(wss, |wss|);
    var target := wss[NonEmptyBefore(wss, a)].id;
    var rest := if Empties(wss) > 0 then [SetWorkspaceCount(Max(1, |wss| - Empties(wss)))] else [];
    assert DeletionCommands(wss, Some(a), true, time) == moves + [ActivateWorkspace(target, time)] + rest;
    CompactTargetsSurvive(wss, a);
    CompactMoveAt(wss, |wss|, a, k);
  }

  lemma {:induction false} ShiftLength(wss: seq<Workspace>, a: nat, i: nat)
    requires a < |wss| && i <= |wss|
    ensures i <= a + 1 ==> ShiftMoves(wss, a, i) == []
    ensures i > a ==> |ShiftMoves(wss, a, i)| == Offset(wss, i) - Offset(wss, a + 1)
  {
    if i == 0 {
      return;
    }
    ShiftLength(wss, a, i - 1);
    var prev := ShiftMoves(wss, a, i - 1);
    if i <= a + 1 {
      assert ShiftMoves(wss, a, i) == prev + [];
    } else {
      var last := MovesTo(wss[i - 1].windows, wss[i - 2].id);
      assert ShiftMoves(wss, a, i) == prev + last;
      OffsetStep(wss, i - 1);
    }
  }

  /** One window's move in the single-mode plan, by induction on the
      number of workspaces planned. */
  lemma {:induction false} ShiftMoveAt(wss: seq<Workspace>, a: nat, i: nat, j: nat, k: nat)
    requires a < j < i <= |wss| && k < |wss[j].windows|
    ensures Offset(wss, a + 1) <= Offset(wss, j)
    ensures Offset(wss, j) + k < Offset(wss, i)
    ensures |ShiftMoves(wss, a, i)| == Offset(wss, i) - Offset(wss, a + 1)
    ensures ShiftMoves(wss, a, i)[Offset(wss, j) - Offset(wss, a + 1) + k] == MoveToWorkspace(wss[j].windows[k].id, wss[j - 1].id)
  {
    var prev := ShiftMoves(wss, a, i - 1);
    var last := MovesTo(wss[i - 1].windows, wss[i - 2].id);
    assert ShiftMoves(wss, a, i) == prev + last;
    OffsetStep(wss, i - 1);
    var at := Offset(wss, j) - Offset(wss, a + 1) + k;
    if j == i - 1 {
      ShiftLength(wss, a, i - 1);
      OffsetMonotone(wss, a + 1, j);
      assert at == |prev| + k;
      ConcatAt(prev, last, at);
    } else {
      ShiftMoveAt(wss, a, i - 1, j, k);
      assert at < |prev|;
      ConcatAt(prev, last, at);
    }
  }

  /** Single mode keeps every window: the windows before the deleted
      workspace stay, each later one moves one workspace left, so after the
      count drops by one no window sits on a removed workspace. */
  lemma SingleModeTargets(wss: seq<Workspace>, a: nat, time: Time, j: nat, k: nat)
    requires a < j < |wss| && wss[a].windows == [] && k < |wss[j].windows|
    ensures var cmds := DeletionCommands(wss, Some(a), false, time);
            var at := Offset(wss, j) - Offset(wss, a + 1) + k;
            |cmds| == Offset(wss, |wss|) - Offset(wss, a + 1) + 1 &&
            cmds[|cmds| - 1] == SetWorkspaceCount(Max(1, |wss| - 1)) &&
            0 <= at < |cmds| - 1 &&
            cmds[at] == MoveToWorkspace(wss[j].windows[k].id, wss[j - 1].id) &&
            j - 1 < Max(1, |wss| - 1)
  {
    ShiftMoveAt(wss, a, |wss|, j, k);
    var moves := ShiftMoves(wss, a, |wss|);
    var cmds := DeletionCommands(wss, Some(a), false, time);
    assert cmds == moves + [SetWorkspaceCount(Max(1, |wss| - 1))];
    assert cmds[Offset(wss, j) - Offset(wss, a + 1) + k] == moves[Offset(wss, j) - Offset(wss, a + 1) + k];
  }
}
