/** Multi-monitor support: the list of physical screens, the screen a
    window mostly lies on, and moving a window to the next screen while
    keeping its offset from the screen origin. */
module Monitors {
  import opened Common

  /** The screens in X's order and the smallest screen width. */
  datatype Xinerama = Xinerama(screens: seq<Rect>, minimumWidth: int)

  function Min(a: int, b: int): int { if a <= b then a else b }
  function Max(a: int, b: int): int { if a >= b then a else b }

  /** ss_xinerama_new. With Xinerama active the queried screens are copied
      in a loop while the minimum width is accumulated; without it there is
      one screen at the origin with the display's size. */
  method NewXinerama(active: bool, queried: seq<Rect>, displayWidth: int, displayHeight: int)
    returns (x: Xinerama)
    ensures active ==> x.screens == queried
    ensures !active ==> x.screens == [Rect(0, 0, displayWidth, displayHeight)]
    ensures |x.screens| > 0 ==> forall i :: 0 <= i < |x.screens| ==> x.minimumWidth <= x.screens[i].width
    ensures |x.screens| > 0 ==> exists i :: 0 <= i < |x.screens| && x.minimumWidth == x.screens[i].width
    ensures |x.screens| == 0 ==> x.minimumWidth == 0
  {
    var minimumWidth := 0;
    if active {
      var screens := new Rect[|queried|];
      var i := 0;
      while i < |queried|
        invariant 0 <= i <= |queried|
        invariant screens[..i] == queried[..i]
        invariant i > 0 ==> forall k :: 0 <= k < i ==> minimumWidth <= queried[k].width
        invariant i > 0 ==> exists k :: 0 <= k < i && minimumWidth == queried[k].width
        invariant i == 0 ==> minimumWidth == 0
      {
        screens[i] := queried[i];
        if i == 0 {
          minimumWidth := screens[0].width;
        } else {
          minimumWidth := Min(minimumWidth, screens[i].width);
        }
        i := i + 1;
      }
      assert queried[..i] == queried;
      assert screens[..] == screens[..i];
      x := Xinerama(screens[..], minimumWidth);
      if i > 0 {
        var k :| 0 <= k < i && minimumWidth == queried[k].width;
        assert x.minimumWidth == x.screens[k].width;
      }
    } else {
      var only := Rect(0, 0, displayWidth, displayHeight);
      minimumWidth := only.width;
      x := Xinerama([only], minimumWidth);
      assert x.minimumWidth == x.screens[0].width;
    }
  }

  /** Area of the intersection of a screen and a window rectangle; 0 when
      they do not overlap in either direction. */
  function Overlap(s: Rect, r: Rect): (a: int)
    ensures a >= 0
  {
    var dx := Min(s.x + s.width, r.x + r.width) - Max(s.x, r.x);
    var dy := Min(s.y + s.height, r.y + r.height) - Max(s.y, r.y);
    if dx < 0 || dy < 0 then 0 else dx * dy
  }

  /** get_best_screen: the running maximum, seeded by screen 0 and replaced
      only by a strictly larger overlap. */
  function BestScreen(screens: seq<Rect>, r: Rect): (best: nat)
    ensures |screens| > 0 ==> best < |screens|
    ensures |screens| > 0 ==> forall k :: 0 <= k < |screens| ==> Overlap(screens[k], r) <= Overlap(screens[best], r)
    ensures |screens| > 0 ==> forall k :: 0 <= k < best ==> Overlap(screens[k], r) < Overlap(screens[best], r)
    ensures |screens| == 0 ==> best == 0
  {
    ScanBest(screens, r, 0, 0)
  }

  function ScanBest(screens: seq<Rect>, r: Rect, i: nat, best: nat): (res: nat)
    requires i <= |screens|
    requires i > 0 ==> best < i
    requires i > 0 ==> forall k :: 0 <= k < i ==> Overlap(screens[k], r) <= Overlap(screens[best], r)
    requires i > 0 ==> forall k :: 0 <= k < best ==> Overlap(screens[k], r) < Overlap(screens[best], r)
    requires i == 0 ==> best == 0
    ensures |screens| > 0 ==> res < |screens|
    ensures |screens| > 0 ==> forall k :: 0 <= k < |screens| ==> Overlap(screens[k], r) <= Overlap(screens[res], r)
    ensures |screens| > 0 ==> forall k :: 0 <= k < res ==> Overlap(screens[k], r) < Overlap(screens[res], r)
    ensures |screens| == 0 ==> res == 0
    decreases |screens| - i
  {
    if i == |screens| then best
    else if i == 0 || Overlap(screens[i], r) > Overlap(screens[best], r) then ScanBest(screens, r, i + 1, i)
    else ScanBest(screens, r, i + 1, best)
  }

  /** ss_xinerama_move_to_next_screen. `geometry` is the window's geometry,
      `frame` the origin of its frame (the X parent window). */
  method MoveToNextScreen(x: Xinerama, window: Option<WinId>, isMaximized: bool, geometry: Rect, frame: Rect)
    returns (cmds: seq<Command>)
    requires |x.screens| >= 1
    ensures |x.screens| == 1 || window.None? ==> cmds == []
    ensures |x.screens| > 1 && window.Some? ==> |cmds| == if isMaximized then 3 else 1
    ensures |x.screens| > 1 && window.Some? ==>
              var n := |x.screens|;
              var best := BestScreen(x.screens, geometry);
              var next := x.screens[(best + 1) % n];
              var moved := if isMaximized then cmds[1] else cmds[0];
              moved.MoveWindow? && moved.win == window.value &&
              moved.x - next.x == frame.x - x.screens[best].x &&
              moved.y - next.y == frame.y - x.screens[best].y &&
              (isMaximized ==> cmds[0] == Unmaximize(window.value) && cmds[2] == Maximize(window.value))
  {
    cmds := [];
    if |x.screens| == 1 || window.None? {
      return;
    }
    var id := window.value;
    if isMaximized {
      cmds := cmds + [Unmaximize(id)];
    }
    var best := BestScreen(x.screens, geometry);
    var xs := x.screens[best];
    var dx := frame.x - xs.x;
    var dy := frame.y - xs.y;
    best := (best + 1) % |x.screens|;
    xs := x.screens[best];
    cmds := cmds + [MoveWindow(id, xs.x + dx, xs.y + dy)];
    if isMaximized {
      cmds := cmds + [Maximize(id)];
    }
  }

  /** The running maximum picks the one screen that has maximal overlap
      and no earlier screen with the same overlap. */
  lemma BestScreenUnique(screens: seq<Rect>, r: Rect, b: nat)
    requires b < |screens|
    requires forall k :: 0 <= k < |screens| ==> Overlap(screens[k], r) <= Overlap(screens[b], r)
    requires forall k :: 0 <= k < b ==> Overlap(screens[k], r) < Overlap(screens[b], r)
    ensures BestScreen(screens, r) == b
  {
    var best := BestScreen(screens, r);
    assert Overlap(screens[best], r) == Overlap(screens[b], r);
  }
}
