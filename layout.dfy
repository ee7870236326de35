/** Hit-testing against the popup's layout: which workspace column a
    pointer x falls in, and which window row a pointer y falls before.
    Allocations are the widget rectangles GTK assigned; they are inputs. */
module Layout {
  import opened Common

  const WORKSPACE_COLUMN_SPACING: int := 6
  const WINDOW_ROW_SPACING: int := 6

  /** The allocations of the workspace widgets, in screen order, and of the
      window widgets of each workspace, in list order. */
  datatype Allocations = Allocations(workspaces: seq<Rect>, windows: seq<seq<Rect>>)

  /** Whether x lies left of the right edge of column `a` plus the spacing. */
  predicate LeftOfColumnEnd(a: Rect, x: int) {
    x < a.x + a.width + WORKSPACE_COLUMN_SPACING
  }

  /** ss_screen_find_workspace_near_point: the first column whose right
      edge plus spacing lies beyond x, else the last column, else none. */
  function FindWorkspaceNearPoint(columns: seq<Rect>, x: int): (r: Option<nat>)
    ensures r == None <==> columns == []
    ensures r.Some? ==> r.value < |columns|
    ensures r.Some? ==> forall k :: 0 <= k < r.value ==> !LeftOfColumnEnd(columns[k], x)
    ensures r.Some? ==> LeftOfColumnEnd(columns[r.value], x) || r.value == |columns| - 1
  {
    if columns == [] then None
    else if LeftOfColumnEnd(columns[0], x) then Some(0)
    else if |columns| == 1 then Some(0)
    else
      var r := FindWorkspaceNearPoint(columns[1..], x);
      Some(r.value + 1)
  }

  /** Whether y lies above the midpoint of row `a` (the half uses C's
      truncating division). */
  predicate AboveRowMiddle(a: Rect, y: int) {
    y < a.y + CHalf(a.height + WINDOW_ROW_SPACING)
  }

  /** ss_workspace_find_index_near_point: -1 for an empty workspace, else
      the first row whose midpoint lies below y, else n. */
  function FindIndexNearPoint(rows: seq<Rect>, y: int): (r: int)
    ensures rows == [] <==> r == -1
    ensures rows != [] ==> 0 <= r <= |rows|
    ensures rows != [] ==> forall k :: 0 <= k < r ==> !AboveRowMiddle(rows[k], y)
    ensures rows != [] && r < |rows| ==> AboveRowMiddle(rows[r], y)
  {
    if rows == [] then -1 else FirstAbove(rows, y)
  }

  function FirstAbove(rows: seq<Rect>, y: int): (r: nat)
    ensures r <= |rows|
    ensures forall k :: 0 <= k < r ==> !AboveRowMiddle(rows[k], y)
    ensures r < |rows| ==> AboveRowMiddle(rows[r], y)
  {
    if rows == [] then 0
    else if AboveRowMiddle(rows[0], y) then 0
    else FirstAbove(rows[1..], y) + 1
  }

  /** A pointer at or beyond every column's end picks the last column, and
      the answer never depends on columns after the one picked. */
  lemma {:induction false} NearPointIgnoresLaterColumns(columns: seq<Rect>, more: seq<Rect>, x: int)
    requires FindWorkspaceNearPoint(columns, x).Some?
    requires LeftOfColumnEnd(columns[FindWorkspaceNearPoint(columns, x).value], x)
    ensures FindWorkspaceNearPoint(columns + more, x) == FindWorkspaceNearPoint(columns, x)
  {
    if !LeftOfColumnEnd(columns[0], x) {
      assert (columns + more)[1..] == columns[1..] + more;
      NearPointIgnoresLaterColumns(columns[1..], more, x);
    }
  }

  /** With rows in top-to-bottom order, moving the pointer down never moves
      the predicted index up. */
  lemma {:induction false} IndexMonotone(rows: seq<Rect>, y1: int, y2: int)
    requires y1 <= y2
    ensures FirstAbove(rows, y1) <= FirstAbove(rows, y2)
  {
    if rows != [] && !AboveRowMiddle(rows[0], y1) {
      IndexMonotone(rows[1..], y1, y2);
    }
  }
}
