/** Shared vocabulary of the switcher model: the mirrored windows and
    workspaces, the commands the switcher sends to the window manager, the
    snapshot of window-manager queries a handler may consult, and small
    facts about sequences that the rest of the model uses. */
module Common {

  datatype Option<T> = None | Some(value: T)

  /** X server timestamps are guint32 values; `time + 1` wraps. */
  const TIME_MODULUS: int := 0x1_0000_0000
  type Time = t: int | 0 <= t < 0x1_0000_0000

  function NextTime(t: Time): (r: Time)
    ensures t < TIME_MODULUS - 1 ==> r == t + 1
    ensures t == TIME_MODULUS - 1 ==> r == 0
  {
    (t + 1) % TIME_MODULUS
  }

  /** C integer division by two, which truncates toward zero. */
  function CHalf(a: int): (r: int)
    ensures a >= 0 ==> r == a / 2
    ensures a < 0 ==> r == -((-a) / 2)
  {
    if a >= 0 then a / 2 else -((-a) / 2)
  }

  /** Window identity: the X id of the window. */
  type WinId = nat
  /** Workspace identity: the window manager's workspace object. */
  type WsId = nat

  datatype Rect = Rect(x: int, y: int, width: int, height: int)

  /** One tracked window (SSWindow): its id, the title the window manager
      reports, whether it matches the current search, and the pending
      insertion index used by drag-and-drop (-1 when none). */
  datatype Window = Window(id: WinId, title: string, sensitive: bool, newWindowIndex: int)

  /** One workspace (SSWorkspace): its identity, its display title and its
      windows in display order. */
  datatype Workspace = Workspace(id: WsId, title: string, windows: seq<Window>)

  /** What the switcher asks the window manager (and the X server) to do. */
  datatype Command =
    | ActivateWorkspace(ws: WsId, time: Time)
    | ActivateWindow(win: WinId, time: Time)
    | MoveToWorkspace(win: WinId, target: WsId)
    | SetWorkspaceCount(count: int)
    | WarpPointer(x: int, y: int)
    | Maximize(win: WinId)
    | Unmaximize(win: WinId)
    | Minimize(win: WinId)
    | Unminimize(win: WinId, time: Time)
    | CloseWindow(win: WinId, time: Time)
    | MoveWindow(win: WinId, x: int, y: int)

  /** The window manager's answers to the queries the handlers make.
      `frame` is the geometry of a window's frame (its X parent window). */
  datatype Wm = Wm(
    name: WinId -> string,
    workspaceOf: WinId -> int,
    skipPager: WinId -> bool,
    isMaximized: WinId -> bool,
    isMinimized: WinId -> bool,
    geometry: WinId -> Rect,
    frame: WinId -> Rect,
    activeWindow: Option<WinId>,
    activeWorkspace: int,
    stacked: seq<WinId>)

  // ---------------------------------------------------------------------
  // Sequences

  predicate NoDup<T(==)>(s: seq<T>) {
    forall i, j :: 0 <= i < j < |s| ==> s[i] != s[j]
  }

  function Ids(ws: seq<Window>): (r: seq<WinId>)
    ensures |r| == |ws|
    ensures forall k :: 0 <= k < |ws| ==> r[k] == ws[k].id
  {
    seq(|ws|, k requires 0 <= k < |ws| => ws[k].id)
  }

  function WsIds(wss: seq<Workspace>): (r: seq<WsId>)
    ensures |r| == |wss|
    ensures forall k :: 0 <= k < |wss| ==> r[k] == wss[k].id
  {
    seq(|wss|, k requires 0 <= k < |wss| => wss[k].id)
  }

  /** All windows of all workspaces in workspace-major order. */
  function Flatten(wss: seq<Workspace>): (r: seq<Window>)
  {
    if wss == [] then [] else wss[0].windows + Flatten(wss[1..])
  }

  function AllIds(wss: seq<Workspace>): seq<WinId> {
    Ids(Flatten(wss))
  }

  /** Index of the first window of workspace i in Flatten(wss). */
  function Offset(wss: seq<Workspace>, i: nat): (r: nat)
    requires i <= |wss|
  {
    if i == 0 then 0 else |wss[0].windows| + Offset(wss[1..], i - 1)
  }

  lemma IdsConcat(a: seq<Window>, b: seq<Window>)
    ensures Ids(a + b) == Ids(a) + Ids(b)
  {
  }

  lemma {:induction false} FlattenConcat(a: seq<Workspace>, b: seq<Workspace>)
    ensures Flatten(a + b) == Flatten(a) + Flatten(b)
  {
    if a == [] {
      assert a + b == b;
    } else {
      assert (a + b)[1..] == a[1..] + b;
      FlattenConcat(a[1..], b);
    }
  }

  lemma {:induction false} FlattenLength(wss: seq<Workspace>)
    ensures |Flatten(wss)| == Offset(wss, |wss|)
  {
    if wss != [] {
      FlattenLength(wss[1..]);
    }
  }

  /** Offsets grow by the size of each workspace. */
  lemma {:induction false} OffsetStep(wss: seq<Workspace>, i: nat)
    requires i < |wss|
    ensures Offset(wss, i + 1) == Offset(wss, i) + |wss[i].windows|
  {
    if i > 0 {
      OffsetStep(wss[1..], i - 1);
    }
  }

  /** Window j of workspace i sits at Offset(wss, i) + j of the flattening. */
  lemma {:induction false} FlattenIndex(wss: seq<Workspace>, i: nat, j: nat)
    requires i < |wss| && j < |wss[i].windows|
    ensures Offset(wss, i) + j < |Flatten(wss)|
    ensures Flatten(wss)[Offset(wss, i) + j] == wss[i].windows[j]
  {
    if i > 0 {
      FlattenIndex(wss[1..], i - 1, j);
    }
  }

  /** The flattening splits around workspace i. */
  lemma FlattenSplit(wss: seq<Workspace>, i: nat)
    requires i < |wss|
    ensures Flatten(wss) == Flatten(wss[..i]) + wss[i].windows + Flatten(wss[i + 1..])
  {
    var rest := wss[i..];
    assert wss == wss[..i] + rest;
    FlattenConcat(wss[..i], rest);
    assert rest[1..] == wss[i + 1..];
    FlattenCons(rest);
  }

  lemma FlattenCons(wss: seq<Workspace>)
    requires wss != []
    ensures Flatten(wss) == wss[0].windows + Flatten(wss[1..])
  {
  }

  /** Replacing workspace i replaces exactly its windows in the id multiset. */
  lemma AllIdsUpdate(wss: seq<Workspace>, i: nat, w: Workspace)
    requires i < |wss|
    ensures multiset(AllIds(wss[i := w])) + multiset(Ids(wss[i].windows))
         == multiset(AllIds(wss)) + multiset(Ids(w.windows))
  {
    var wss' := wss[i := w];
    FlattenSplit(wss, i);
    FlattenSplit(wss', i);
    assert wss'[..i] == wss[..i];
    assert wss'[i + 1..] == wss[i + 1..];
    var pre, post := Flatten(wss[..i]), Flatten(wss[i + 1..]);
    IdsConcat(pre + wss[i].windows, post);
    IdsConcat(pre, wss[i].windows);
    IdsConcat(pre + w.windows, post);
    IdsConcat(pre, w.windows);
  }

  /** A sequence has no duplicates iff every element occurs at most once. */
  lemma {:induction false} NoDupMultiset<T>(s: seq<T>)
    ensures NoDup(s) <==> forall x :: multiset(s)[x] <= 1
  {
    if NoDup(s) {
      forall x ensures multiset(s)[x] <= 1 {
        NoDupCount(s, x);
      }
    }
    if !NoDup(s) {
      var i, j :| 0 <= i < j < |s| && s[i] == s[j];
      assert s == s[..j] + s[j..];
      assert s[i] in multiset(s[..j]);
      assert s[j] in multiset(s[j..]);
      assert multiset(s)[s[i]] == multiset(s[..j])[s[i]] + multiset(s[j..])[s[i]];
    }
  }

  lemma {:induction false} NoDupCount<T>(s: seq<T>, x: T)
    requires NoDup(s)
    ensures multiset(s)[x] <= 1
  {
    if s != [] {
      assert s == [s[0]] + s[1..];
      NoDupCount(s[1..], x);
      if x == s[0] {
        assert x !in s[1..];
      }
    }
  }

  lemma NoDupSubMultiset<T>(a: seq<T>, b: seq<T>)
    requires NoDup(b)
    requires multiset(a) <= multiset(b)
    ensures NoDup(a)
  {
    NoDupMultiset(a);
    NoDupMultiset(b);
  }

  lemma NoDupAppendFresh<T>(a: seq<T>, x: T)
    requires NoDup(a) && x !in a
    ensures NoDup(a + [x])
  {
  }

  /** In a duplicate-free list no element occurs before its own position. */
  lemma NoDupFresh<T>(s: seq<T>, m: nat)
    requires NoDup(s) && m < |s|
    ensures s[m] !in s[..m]
  {
    assert forall i :: 0 <= i < m ==> s[..m][i] == s[i];
  }
}
