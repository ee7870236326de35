/** What the two window cyclers and relative workspace switching are meant
    to pick, stated over whole lists. The screen's loops are proved to pick
    exactly these. */
module Navigation {
  import opened Common
  import opened WindowLists

  function Or(a: Option<nat>, b: Option<nat>): Option<nat> {
    if a.Some? then a else b
  }

  /** The first sensitive window at index lo or later. */
  function FirstSensitiveFrom(f: seq<Window>, lo: nat): (r: Option<nat>)
    ensures r.Some? ==> lo <= r.value < |f| && f[r.value].sensitive
    ensures r.Some? ==> forall k :: lo <= k < r.value ==> !f[k].sensitive
    ensures r.None? ==> forall k :: lo <= k < |f| ==> !f[k].sensitive
    decreases |f| - lo
  {
    if lo >= |f| then None
    else if f[lo].sensitive then Some(lo)
    else FirstSensitiveFrom(f, lo + 1)
  }

  /** The last sensitive window before index hi. */
  function LastSensitiveBefore(f: seq<Window>, hi: nat): (r: Option<nat>)
    requires hi <= |f|
    ensures r.Some? ==> r.value < hi && f[r.value].sensitive
    ensures r.Some? ==> forall k :: r.value < k < hi ==> !f[k].sensitive
    ensures r.None? ==> forall k :: 0 <= k < hi ==> !f[k].sensitive
  {
    if hi == 0 then None
    else if f[hi - 1].sensitive then Some(hi - 1)
    else LastSensitiveBefore(f, hi - 1)
  }

  lemma {:induction false} OffsetBound(wss: seq<Workspace>, i: nat)
    requires i <= |wss|
    ensures Offset(wss, i) <= |Flatten(wss)|
    ensures i < |wss| ==> Offset(wss, i) + |wss[i].windows| <= |Flatten(wss)|
  {
    FlattenLength(wss);
    OffsetMonotone(wss, i, |wss|);
    if i < |wss| {
      OffsetStep(wss, i);
      OffsetMonotone(wss, i + 1, |wss|);
    }
  }

  lemma {:induction false} OffsetMonotone(wss: seq<Workspace>, i: nat, j: nat)
    requires i <= j <= |wss|
    ensures Offset(wss, i) <= Offset(wss, j)
    decreases j - i
  {
    if i < j {
      OffsetStep(wss, i);
      OffsetMonotone(wss, i + 1, j);
    }
  }

  /** get_ss_workspace_from_wnck_workspace: position of the first
      workspace with this identity, or -1. */
  function WorkspaceIndex(wss: seq<Workspace>, id: WsId): (r: int)
    ensures -1 <= r < |wss|
    ensures r >= 0 ==> wss[r].id == id && forall q :: 0 <= q < r ==> wss[q].id != id
    ensures r == -1 ==> forall q :: 0 <= q < |wss| ==> wss[q].id != id
  {
    if wss == [] then -1
    else if wss[0].id == id then 0
    else
      var r := WorkspaceIndex(wss[1..], id);
      if r == -1 then -1 else r + 1
  }

  /** The workspace holding position t of the flattening (a window's
      back-reference to its workspace). */
  function Locate(wss: seq<Workspace>, t: nat): (i: nat)
    requires t < |Flatten(wss)|
    ensures i < |wss|
    ensures Offset(wss, i) <= t < Offset(wss, i) + |wss[i].windows|
  {
    if t < |wss[0].windows| then 0
    else 1 + Locate(wss[1..], t - |wss[0].windows|)
  }

  /** Window j of workspace i is located in workspace i. */
  lemma LocateOffset(wss: seq<Workspace>, i: nat, j: nat)
    requires i < |wss| && j < |wss[i].windows|
    ensures Offset(wss, i) + j < |Flatten(wss)|
    ensures Locate(wss, Offset(wss, i) + j) == i
  {
    FlattenIndex(wss, i, j);
    var t := Offset(wss, i) + j;
    var r := Locate(wss, t);
    OffsetStep(wss, i);
    OffsetStep(wss, r);
    if r < i {
      OffsetMonotone(wss, r + 1, i);
    } else if r > i {
      OffsetMonotone(wss, i + 1, r);
    }
  }

  /** ss_screen_activate_next_window: the flattened index of the window the
      logical cycler activates. The scan starts after the active window, or
      at the start of the active workspace when no window is active; it
      wraps around once. */
  function LogicalTarget(wss: seq<Workspace>, activeWindow: Option<WinId>, activeWorkspace: Option<nat>,
                         backwards: bool): (r: Option<nat>)
    ensures r.Some? ==> r.value < |Flatten(wss)| && Flatten(wss)[r.value].sensitive
  {
    var f := Flatten(wss);
    if activeWindow.Some? then
      var k := IndexOf(f, activeWindow.value);
      if k < 0 then None
      else if backwards then Or(LastSensitiveBefore(f, k), LastSensitiveBefore(f, |f|))
      else Or(FirstSensitiveFrom(f, k + 1), FirstSensitiveFrom(f, 0))
    else if activeWorkspace.Some? && activeWorkspace.value < |wss| then
      OffsetBound(wss, activeWorkspace.value);
      var b := Offset(wss, activeWorkspace.value);
      if backwards then Or(LastSensitiveBefore(f, b), LastSensitiveBefore(f, |f|))
      else Or(FirstSensitiveFrom(f, b), FirstSensitiveFrom(f, 0))
    else None
  }

  /** The cycler only ever lands on a sensitive window, and it finds one
      whenever any window is sensitive and the scan has somewhere to start. */
  lemma LogicalTargetSensitive(wss: seq<Workspace>, aw: Option<WinId>, aws: Option<nat>, backwards: bool)
    ensures var r := LogicalTarget(wss, aw, aws, backwards);
            var f := Flatten(wss);
            r.Some? ==> r.value < |f| && f[r.value].sensitive
    ensures var r := LogicalTarget(wss, aw, aws, backwards);
            var f := Flatten(wss);
            var starts := if aw.Some? then IndexOf(f, aw.value) >= 0
                          else aws.Some? && aws.value < |wss|;
            r.None? <==> !starts || forall k :: 0 <= k < |f| ==> !f[k].sensitive
  {
    var f := Flatten(wss);
    if aw.None? && aws.Some? && aws.value < |wss| {
      OffsetBound(wss, aws.value);
    }
  }

  /** Going forward from a sensitive active window and then backward from
      where that landed comes back to the active window. */
  lemma BackwardUndoesForward(wss: seq<Workspace>, id: WinId, aws: Option<nat>)
    requires UniqueIds(Flatten(wss))
    requires IndexOf(Flatten(wss), id) >= 0 && Flatten(wss)[IndexOf(Flatten(wss), id)].sensitive
    ensures var f := Flatten(wss);
            var t := LogicalTarget(wss, Some(id), aws, false);
            t.Some? && LogicalTarget(wss, Some(f[t.value].id), aws, true) == Some(IndexOf(f, id))
  {
    var f := Flatten(wss);
    var k := IndexOf(f, id);
    LogicalTargetAt(wss, id, aws, false, k);
    var t := Or(FirstSensitiveFrom(f, k + 1), FirstSensitiveFrom(f, 0));
    NextThenPrevious(f, k);
    UniqueIndex(f, t.value);
    LogicalTargetAt(wss, f[t.value].id, aws, true, t.value);
  }

  /** The cycler's target from an active window at flattened position k. */
  lemma LogicalTargetAt(wss: seq<Workspace>, id: WinId, aws: Option<nat>, backwards: bool, k: nat)
    requires k == IndexOf(Flatten(wss), id)
    ensures var f := Flatten(wss);
            LogicalTarget(wss, Some(id), aws, backwards) ==
            if backwards then Or(LastSensitiveBefore(f, k), LastSensitiveBefore(f, |f|))
            else Or(FirstSensitiveFrom(f, k + 1), FirstSensitiveFrom(f, 0))
  {
  }

  lemma NextThenPrevious(f: seq<Window>, k: nat)
    requires k < |f| && f[k].sensitive
    ensures var t := Or(FirstSensitiveFrom(f, k + 1), FirstSensitiveFrom(f, 0));
            t.Some? && t.value < |f| &&
            Or(LastSensitiveBefore(f, t.value), LastSensitiveBefore(f, |f|)) == Some(k)
  {
    var after := FirstSensitiveFrom(f, k + 1);
    if after.Some? {
      LastIs(f, after.value, k);
    } else {
      LastIs(f, |f|, k);
    }
  }

  /** The last sensitive window before hi is k when k is sensitive and
      nothing between k and hi is. */
  lemma {:induction false} LastIs(f: seq<Window>, hi: nat, k: nat)
    requires k < hi <= |f| && f[k].sensitive
    requires forall m :: k < m < hi ==> !f[m].sensitive
    ensures LastSensitiveBefore(f, hi) == Some(k)
  {
    if hi - 1 != k {
      LastIs(f, hi - 1, k);
    }
  }

  lemma PreviousThenNext(f: seq<Window>, k: nat)
    requires k < |f| && f[k].sensitive
    ensures var t := Or(LastSensitiveBefore(f, k), LastSensitiveBefore(f, |f|));
            t.Some? && t.value < |f| &&
            Or(FirstSensitiveFrom(f, t.value + 1), FirstSensitiveFrom(f, 0)) == Some(k)
  {
    var before := LastSensitiveBefore(f, k);
    if before.Some? {
      FirstIs(f, before.value + 1, k);
    } else {
      FirstIs(f, 0, k);
    }
  }

  /** The first sensitive window from lo on is k when k is sensitive and
      nothing from lo up to k is. */
  lemma {:induction false} FirstIs(f: seq<Window>, lo: nat, k: nat)
    requires lo <= k < |f| && f[k].sensitive
    requires forall m :: lo <= m < k ==> !f[m].sensitive
    ensures FirstSensitiveFrom(f, lo) == Some(k)
    decreases k - lo
  {
    if lo != k {
      FirstIs(f, lo + 1, k);
    }
  }

  /** Going backward from a sensitive active window and then forward comes
      back to it. */
  lemma ForwardUndoesBackward(wss: seq<Workspace>, id: WinId, aws: Option<nat>)
    requires UniqueIds(Flatten(wss))
    requires IndexOf(Flatten(wss), id) >= 0 && Flatten(wss)[IndexOf(Flatten(wss), id)].sensitive
    ensures var f := Flatten(wss);
            var t := LogicalTarget(wss, Some(id), aws, true);
            t.Some? && LogicalTarget(wss, Some(f[t.value].id), aws, false) == Some(IndexOf(f, id))
  {
    var f := Flatten(wss);
    var k := IndexOf(f, id);
    LogicalTargetAt(wss, id, aws, true, k);
    var t := Or(LastSensitiveBefore(f, k), LastSensitiveBefore(f, |f|));
    PreviousThenNext(f, k);
    assert LogicalTarget(wss, Some(id), aws, true) == t && t.Some? && t.value < |f|;
    UniqueIndex(f, t.value);
    LogicalTargetAt(wss, f[t.value].id, aws, false, t.value);
    assert LogicalTarget(wss, Some(f[t.value].id), aws, false) == Some(k);
  }

  /** With unique ids a window's id finds the window itself. */
  lemma UniqueIndex(f: seq<Window>, t: nat)
    requires UniqueIds(f) && t < |f|
    ensures IndexOf(f, f[t].id) == t
  {
  }

  // ---------------------------------------------------------------------
  // Stacking order

  /** Position of an id in a list of ids, or -1. */
  function PosOf(s: seq<WinId>, x: WinId): (r: int)
    ensures -1 <= r < |s|
    ensures r >= 0 ==> s[r] == x && forall k :: 0 <= k < r ==> s[k] != x
    ensures r == -1 ==> x !in s
  {
    if s == [] then -1
    else if s[0] == x then 0
    else
      var r := PosOf(s[1..], x);
      if r == -1 then -1 else r + 1
  }

  /** The windows of a bottom-to-top list that `keep` accepts, in order. */
  function Filter(s: seq<WinId>, keep: WinId -> bool): (r: seq<WinId>)
    ensures |r| <= |s|
    ensures forall x :: x in r <==> x in s && keep(x)
  {
    if s == [] then []
    else
      var init := s[..|s| - 1];
      var last := s[|s| - 1];
      assert s == init + [last];
      Filter(init, keep) + (if keep(last) then [last] else [])
  }

  /** Filtering distributes over concatenation. */
  lemma {:induction false} FilterConcat(a: seq<WinId>, b: seq<WinId>, keep: WinId -> bool)
    ensures Filter(a + b, keep) == Filter(a, keep) + Filter(b, keep)
    decreases |b|
  {
    if b != [] {
      var init := b[..|b| - 1];
      assert (a + b)[..|a + b| - 1] == a + init;
      assert b == init + [b[|b| - 1]];
      FilterConcat(a, init, keep);
    } else {
      assert a + b == a;
    }
  }

  /** Filtering keeps a duplicate-free list duplicate-free. */
  lemma {:induction false} FilterNoDup(s: seq<WinId>, keep: WinId -> bool)
    requires NoDup(s)
    ensures NoDup(Filter(s, keep))
  {
    if s != [] {
      var init := s[..|s| - 1];
      assert NoDup(init);
      FilterNoDup(init, keep);
      assert s == init + [s[|s| - 1]];
    }
  }

  /** Extending the scanned prefix by one element extends its filtering by
      that element when it passes the test. */
  lemma FilterStep(s: seq<WinId>, m: nat, keep: WinId -> bool)
    requires m < |s|
    ensures keep(s[m]) ==> Filter(s[..m + 1], keep) == Filter(s[..m], keep) + [s[m]]
    ensures !keep(s[m]) ==> Filter(s[..m + 1], keep) == Filter(s[..m], keep)
  {
    assert s[..m + 1][..m] == s[..m];
    assert Filter(s[..m], keep) + [] == Filter(s[..m], keep);
  }

  /** An element that passes the test splits the filtering of the whole
      list at that element. */
  lemma FilterSplit(s: seq<WinId>, m: nat, keep: WinId -> bool)
    requires m < |s| && keep(s[m])
    ensures Filter(s, keep) == Filter(s[..m], keep) + [s[m]] + Filter(s[m + 1..], keep)
  {
    FilterStep(s, m, keep);
    assert s == s[..m + 1] + s[m + 1..];
    FilterConcat(s[..m + 1], s[m + 1..], keep);
  }

  /** Filtering twice with the same test is filtering once. */
  lemma {:induction false} FilterIdempotent(s: seq<WinId>, keep: WinId -> bool)
    ensures Filter(Filter(s, keep), keep) == Filter(s, keep)
  {
    if s != [] {
      var init := s[..|s| - 1];
      var last := s[|s| - 1];
      FilterIdempotent(init, keep);
      var r := Filter(init, keep);
      if keep(last) {
        assert (r + [last])[..|r + [last]| - 1] == r;
      } else {
        assert r + [] == r;
      }
    }
  }

  /** The workspace number the stacking cycler compares, -1 for none. */
  function WsNumber(wm: Wm, x: WinId): int {
    if wm.workspaceOf(x) >= 0 then wm.workspaceOf(x) else -1
  }

  function ActiveNumber(wm: Wm): int {
    if wm.activeWorkspace >= 0 then wm.activeWorkspace else -1
  }

  /** Eligibility for stacking-order cycling: on the window manager's
      active workspace (or, with none active, on no workspace);
      sensitivity plays no part. */
  function Eligible(wm: Wm): WinId -> bool {
    (x: WinId) => WsNumber(wm, x) == ActiveNumber(wm)
  }

  /** ss_screen_activate_next_window_in_stacking_order: forward picks the
      eligible window just below the active one (wrapping to the topmost),
      backward the one just above (wrapping to the bottommost); with no
      active window forward picks the topmost and backward the bottommost;
      an active window that is not eligible picks nothing. */
  function StackingTarget(e: seq<WinId>, active: Option<WinId>, backwards: bool): (r: Option<WinId>)
    ensures r.Some? ==> r.value in e
    ensures r.None? <==> e == [] || (active.Some? && active.value !in e)
  {
    if active.None? then
      if e == [] then None else if backwards then Some(e[0]) else Some(e[|e| - 1])
    else
      var k := PosOf(e, active.value);
      if k < 0 then None
      else if backwards then Some(if k + 1 < |e| then e[k + 1] else e[0])
      else Some(if k > 0 then e[k - 1] else e[|e| - 1])
  }

  /** Stacking-order cycling forward then backward returns to the start,
      and backward then forward too. */
  lemma {:induction false} StackingRoundTrip(e: seq<WinId>, a: WinId, backwards: bool)
    requires NoDup(e) && a in e
    ensures StackingTarget(e, Some(StackingTarget(e, Some(a), backwards).value), !backwards) == Some(a)
  {
    var k := PosOf(e, a);
    var t := StackingTarget(e, Some(a), backwards).value;
    var j := if backwards then (if k + 1 < |e| then k + 1 else 0) else (if k > 0 then k - 1 else |e| - 1);
    assert e[j] == t;
    NoDupPos(e, j);
  }

  /** Going forward, the active window's predecessor in the eligible list
      is the target. */
  lemma StackingForwardHit(pre: seq<WinId>, x: WinId, post: seq<WinId>)
    requires NoDup(pre + [x] + post) && pre != []
    ensures StackingTarget(pre + [x] + post, Some(x), false) == Some(pre[|pre| - 1])
  {
    NoDupPos(pre + [x] + post, |pre|);
  }

  /** Going backward, the window after the active one is the target. */
  lemma StackingBackwardHit(pre: seq<WinId>, x: WinId, post: seq<WinId>)
    requires NoDup(pre + [x] + post) && pre != []
    ensures StackingTarget(pre + [x] + post, Some(pre[|pre| - 1]), true) == Some(x)
  {
    NoDupPos(pre + [x] + post, |pre| - 1);
  }

  lemma NoDupPos(e: seq<WinId>, j: nat)
    requires NoDup(e) && j < |e|
    ensures PosOf(e, e[j]) == j
  {
  }

  // ---------------------------------------------------------------------
  // Relative workspace switching

  /** The workspace `delta` steps from `current` (0 when there is no
      active workspace), wrapped into [0, n). */
  function RelativeWorkspace(current: int, delta: int, n: nat): (w: nat)
    requires n > 0
    ensures w < n
    ensures exists q :: (if current == -1 then 0 else current) + delta == q * n + w
  {
    var base := if current == -1 then 0 else current;
    var w := (base + delta) % n;
    assert base + delta == ((base + delta) / n) * n + w;
    w
  }

  /** One step forward and one step back returns to the starting workspace. */
  lemma RelativeRoundTrip(current: nat, n: nat)
    requires current < n
    ensures RelativeWorkspace(RelativeWorkspace(current, 1, n), -1, n) == current
    ensures RelativeWorkspace(RelativeWorkspace(current, -1, n), 1, n) == current
  {
    WrapStep(current + 1, n);
    WrapStep(current as int - 1, n);
    var up := RelativeWorkspace(current, 1, n);
    var down := RelativeWorkspace(current, -1, n);
    WrapStep(up as int - 1, n);
    WrapStep(down + 1, n);
  }

  /** A single step out of [0, n) wraps to the other end. */
  lemma WrapStep(x: int, n: nat)
    requires n > 0 && -1 <= x <= n
    ensures x % n == if x == -1 then n - 1 else if x == n then 0 else x
  {
    if x == -1 {
      assert x == -1 * n + (n - 1);
    } else if x == n {
      assert x == 1 * n + 0;
    } else {
      assert x == 0 * n + x;
    }
  }
}
