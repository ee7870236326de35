/** The list operations a workspace performs on its windows: GList removal
    of the first occurrence, GList insertion at a position, the clamped
    reorder and the append-then-reorder used when a window joins. */
module WindowLists {
  import opened Common

  /** Position of the first window with this id, or -1. */
  function IndexOf(ws: seq<Window>, id: WinId): (r: int)
    ensures -1 <= r < |ws|
    ensures r >= 0 ==> ws[r].id == id && forall k :: 0 <= k < r ==> ws[k].id != id
    ensures r == -1 ==> forall k :: 0 <= k < |ws| ==> ws[k].id != id
  {
    if ws == [] then -1
    else if ws[0].id == id then 0
    else
      var r := IndexOf(ws[1..], id);
      if r == -1 then -1 else r + 1
  }

  /** Membership by id. */
  predicate Holds(ws: seq<Window>, id: WinId) {
    exists k :: 0 <= k < |ws| && ws[k].id == id
  }

  lemma IndexOfHolds(ws: seq<Window>, id: WinId)
    ensures IndexOf(ws, id) >= 0 <==> Holds(ws, id)
    ensures Holds(ws, id) <==> id in Ids(ws)
  {
    if IndexOf(ws, id) >= 0 {
      assert Ids(ws)[IndexOf(ws, id)] == id;
    }
  }

  /** g_list_remove: drops the first window with this id, if any. */
  function Removed(ws: seq<Window>, id: WinId): (r: seq<Window>)
  {
    var i := IndexOf(ws, id);
    if i < 0 then ws else ws[..i] + ws[i + 1..]
  }

  /** An independent description of removal: keep every other window. */
  function Without(ws: seq<Window>, id: WinId): seq<Window> {
    if ws == [] then []
    else (if ws[0].id == id then [] else [ws[0]]) + Without(ws[1..], id)
  }

  /** g_list_insert: a negative position or one past the end appends. */
  function Inserted(ws: seq<Window>, w: Window, pos: int): (r: seq<Window>)
  {
    if 0 <= pos <= |ws| then ws[..pos] + [w] + ws[pos..] else ws + [w]
  }

  function Clamp(v: int, lo: int, hi: int): int
    requires lo <= hi
  {
    if v < lo then lo else if v > hi then hi else v
  }

  /** ss_workspace_reorder_window: the index is clamped into [0, n] with n
      the length before removal, then the window is removed and inserted. */
  function Reordered(ws: seq<Window>, w: Window, newIndex: int): seq<Window> {
    Inserted(Removed(ws, w.id), w, Clamp(newIndex, 0, |ws|))
  }

  /** ss_workspace_add_window: append, then honour a pending index. */
  function WithWindowAdded(ws: seq<Window>, w: Window): seq<Window> {
    if w.newWindowIndex != -1 then Reordered(ws + [w], w, w.newWindowIndex) else ws + [w]
  }

  // ---------------------------------------------------------------------
  // Removal

  /** Removal loses exactly the first window with the id, and nothing else. */
  lemma {:induction false} RemovedMultiset(ws: seq<Window>, id: WinId)
    ensures IndexOf(ws, id) == -1 ==> Removed(ws, id) == ws
    ensures IndexOf(ws, id) >= 0 ==>
              multiset(Removed(ws, id)) + multiset{ws[IndexOf(ws, id)]} == multiset(ws)
    ensures |Removed(ws, id)| == if IndexOf(ws, id) >= 0 then |ws| - 1 else |ws|
  {
    var i := IndexOf(ws, id);
    if i >= 0 {
      assert ws == ws[..i] + [ws[i]] + ws[i + 1..];
    }
  }

  /** Window ids are pairwise distinct. */
  predicate UniqueIds(ws: seq<Window>) {
    forall i, j :: 0 <= i < j < |ws| ==> ws[i].id != ws[j].id
  }

  lemma UniqueIdsNoDup(ws: seq<Window>)
    ensures UniqueIds(ws) <==> NoDup(Ids(ws))
  {
  }

  /** With unique ids, removal keeps the others in order and leaves the
      window absent. */
  lemma {:induction false} RemovedIsWithout(ws: seq<Window>, id: WinId)
    requires UniqueIds(ws)
    ensures Removed(ws, id) == Without(ws, id)
    ensures !Holds(Removed(ws, id), id)
  {
    if ws != [] {
      var tail := ws[1..];
      assert UniqueIds(tail) by {
        forall i, j | 0 <= i < j < |tail| ensures tail[i].id != tail[j].id {
          assert tail[i] == ws[i + 1] && tail[j] == ws[j + 1];
        }
      }
      if ws[0].id == id {
        assert !Holds(tail, id) by {
          forall k | 0 <= k < |tail| ensures tail[k].id != id {
            assert tail[k] == ws[k + 1];
          }
        }
        WithoutAbsent(tail, id);
        assert Removed(ws, id) == tail;
      } else {
        RemovedIsWithout(tail, id);
        RemovedCons(ws, id);
        var r := Removed(tail, id);
        assert !Holds([ws[0]] + r, id) by {
          forall k | 0 <= k < |r| + 1 ensures ([ws[0]] + r)[k].id != id {
            if k > 0 { assert ([ws[0]] + r)[k] == r[k - 1]; }
          }
        }
      }
    }
  }

  lemma {:induction false} RemovedCons(ws: seq<Window>, id: WinId)
    requires ws != [] && ws[0].id != id
    ensures Removed(ws, id) == [ws[0]] + Removed(ws[1..], id)
  {
    var tail := ws[1..];
    var r := IndexOf(tail, id);
    assert IndexOf(ws, id) == if r < 0 then -1 else r + 1;
    if r >= 0 {
      DropAfterHead(ws, r);
    } else {
      assert ws == [ws[0]] + tail;
    }
  }

  lemma {:induction false} DropAfterHead(ws: seq<Window>, r: nat)
    requires r + 1 < |ws|
    ensures ws[..r + 1] + ws[r + 2..] == [ws[0]] + (ws[1..][..r] + ws[1..][r + 1..])
  {
    var tail := ws[1..];
    assert ws[..r + 1] == [ws[0]] + tail[..r];
    assert ws[r + 2..] == tail[r + 1..];
  }

  lemma {:induction false} WithoutAbsent(ws: seq<Window>, id: WinId)
    requires !Holds(ws, id)
    ensures Without(ws, id) == ws
  {
    if ws != [] {
      assert !Holds(ws[1..], id) by {
        forall k | 0 <= k < |ws| - 1 ensures ws[1..][k].id != id {
          assert ws[1..][k] == ws[k + 1];
        }
      }
      WithoutAbsent(ws[1..], id);
    }
  }

  // ---------------------------------------------------------------------
  // Reordering

  lemma {:induction false} InsertedMultiset(ws: seq<Window>, w: Window, pos: int)
    ensures |Inserted(ws, w, pos)| == |ws| + 1
    ensures multiset(Inserted(ws, w, pos)) == multiset(ws) + multiset{w}
  {
    if 0 <= pos <= |ws| {
      assert ws == ws[..pos] + ws[pos..];
      assert multiset(ws) == multiset(ws[..pos]) + multiset(ws[pos..]);
    }
  }

  /** Reordering moves the window without adding or losing any window. */
  lemma {:induction false} ReorderedPermutes(ws: seq<Window>, w: Window, newIndex: int)
    requires IndexOf(ws, w.id) >= 0 && ws[IndexOf(ws, w.id)] == w
    ensures |Reordered(ws, w, newIndex)| == |ws|
    ensures multiset(Reordered(ws, w, newIndex)) == multiset(ws)
  {
    RemovedMultiset(ws, w.id);
    InsertedMultiset(Removed(ws, w.id), w, Clamp(newIndex, 0, |ws|));
  }

  /** The window ends at min(clamped index, n - 1). */
  lemma {:induction false} ReorderedPosition(ws: seq<Window>, w: Window, newIndex: int)
    requires IndexOf(ws, w.id) >= 0 && ws[IndexOf(ws, w.id)] == w
    ensures var p := Clamp(newIndex, 0, |ws|);
            var at := if p < |ws| then p else |ws| - 1;
            |Reordered(ws, w, newIndex)| == |ws| && Reordered(ws, w, newIndex)[at] == w
  {
    ReorderedPermutes(ws, w, newIndex);
    RemovedMultiset(ws, w.id);
  }

  /** The other windows keep their relative order. */
  lemma {:induction false} ReorderedKeepsOthers(ws: seq<Window>, w: Window, newIndex: int)
    requires UniqueIds(ws)
    requires IndexOf(ws, w.id) >= 0 && ws[IndexOf(ws, w.id)] == w
    ensures Removed(Reordered(ws, w, newIndex), w.id) == Removed(ws, w.id)
  {
    var rest := Removed(ws, w.id);
    RemovedIsWithout(ws, w.id);
    var p := Clamp(newIndex, 0, |ws|);
    if p <= |rest| {
      AbsentPrefix(rest, p, w.id);
      FirstAfterAbsentPrefix(rest[..p], w, rest[p..]);
      assert rest[..p] + rest[p..] == rest;
    } else {
      FirstAfterAbsentPrefix(rest, w, []);
      assert rest + [w] + [] == rest + [w];
    }
  }

  lemma {:induction false} AbsentPrefix(ws: seq<Window>, p: nat, id: WinId)
    requires p <= |ws| && !Holds(ws, id)
    ensures !Holds(ws[..p], id)
  {
    forall k | 0 <= k < p ensures ws[..p][k].id != id {
      assert ws[..p][k] == ws[k];
    }
  }

  /** Removing the id from `a + [w] + b` with the id absent from `a` gives
      back `a + b`. */
  lemma {:induction false} FirstAfterAbsentPrefix(a: seq<Window>, w: Window, b: seq<Window>)
    requires !Holds(a, w.id)
    ensures Removed(a + [w] + b, w.id) == a + b
  {
    var s := a + [w] + b;
    assert s[|a|] == w;
    forall k | 0 <= k < |a| ensures s[k].id != w.id {
      assert s[k] == a[k];
    }
    var i := IndexOf(s, w.id);
    assert i == |a|;
    assert s[..i] == a;
    assert s[i + 1..] == b;
  }

  /** Reordering a window to the index it already has changes nothing. */
  lemma {:induction false} ReorderedToOwnIndex(ws: seq<Window>, w: Window)
    requires IndexOf(ws, w.id) >= 0 && ws[IndexOf(ws, w.id)] == w
    ensures Reordered(ws, w, IndexOf(ws, w.id)) == ws
  {
    var i := IndexOf(ws, w.id);
    assert ws == ws[..i] + [w] + ws[i + 1..];
    var rest := Removed(ws, w.id);
    assert rest[..i] == ws[..i];
    assert rest[i..] == ws[i + 1..];
  }

  // ---------------------------------------------------------------------
  // Adding

  /** Adding appends the window, or with a pending index p puts it at
      clamp(p, 0, n) of the old length n; the others keep their order. */
  lemma {:induction false} WithWindowAddedSpec(ws: seq<Window>, w: Window)
    requires !Holds(ws, w.id)
    ensures var r := WithWindowAdded(ws, w);
            var at := if w.newWindowIndex == -1 then |ws| else Clamp(w.newWindowIndex, 0, |ws|);
            |r| == |ws| + 1 && r[at] == w && Removed(r, w.id) == ws &&
            multiset(r) == multiset(ws) + multiset{w}
  {
    FirstAfterAbsentPrefix(ws, w, []);
    assert ws + [w] + [] == ws + [w];
    if w.newWindowIndex != -1 {
      AddedAtPending(ws, w);
    }
  }

  /** The pending-index case of adding: the appended window is moved back
      to the clamped index. */
  lemma AddedAtPending(ws: seq<Window>, w: Window)
    requires !Holds(ws, w.id) && w.newWindowIndex != -1
    ensures var r := Reordered(ws + [w], w, w.newWindowIndex);
            |r| == |ws| + 1 && r[Clamp(w.newWindowIndex, 0, |ws|)] == w && Removed(r, w.id) == ws &&
            multiset(r) == multiset(ws) + multiset{w}
  {
    var s := ws + [w];
    FirstAfterAbsentPrefix(ws, w, []);
    assert ws + [w] + [] == s;
    assert IndexOf(s, w.id) == |ws|;
    ReorderedPosition(s, w, w.newWindowIndex);
    ReorderedPermutes(s, w, w.newWindowIndex);
    assert Removed(s, w.id) == ws;
    InsertedBackOut(ws, w, Clamp(w.newWindowIndex, 0, |s|));
  }

  /** Inserting a window that was absent and removing it again gives the
      list back. */
  lemma InsertedBackOut(ws: seq<Window>, w: Window, p: int)
    requires !Holds(ws, w.id) && 0 <= p <= |ws| + 1
    ensures Removed(Inserted(ws, w, p), w.id) == ws
  {
    if p <= |ws| {
      AbsentPrefix(ws, p, w.id);
      FirstAfterAbsentPrefix(ws[..p], w, ws[p..]);
      assert ws[..p] + ws[p..] == ws;
    } else {
      FirstAfterAbsentPrefix(ws, w, []);
      assert ws + [w] + [] == ws + [w];
    }
  }

  // ---------------------------------------------------------------------
  // Pending insertion index and the drop correction

  /** Storing a window's pending insertion index (new_window_index): the
      window with this id gets the index and every other field and window
      stays as it was. */
  function WithPending(ws: seq<Window>, id: WinId, index: int): (r: seq<Window>)
    ensures |r| == |ws| && Ids(r) == Ids(ws)
    ensures forall k :: 0 <= k < |ws| && ws[k].id == id ==> r[k] == ws[k].(newWindowIndex := index)
    ensures forall k :: 0 <= k < |ws| && ws[k].id != id ==> r[k] == ws[k]
  {
    var r := seq(|ws|, k requires 0 <= k < |ws| => if ws[k].id == id then ws[k].(newWindowIndex := index) else ws[k]);
    assert Ids(r) == Ids(ws);
    r
  }

  /** Positions are found by id alone. */
  lemma IndexOfSameIds(a: seq<Window>, b: seq<Window>, id: WinId)
    requires Ids(a) == Ids(b)
    ensures IndexOf(a, id) == IndexOf(b, id)
  {
    var r, s := IndexOf(a, id), IndexOf(b, id);
    assert |a| == |Ids(a)| == |Ids(b)| == |b|;
    if r >= 0 {
      assert Ids(b)[r] == Ids(a)[r];
    }
    if s >= 0 {
      assert Ids(a)[s] == Ids(b)[s];
    }
  }

  /** The drop correction applied when a window is dropped back into its
      own workspace: the window leaves its old place before it is
      reinserted, so a predicted slot after that place shifts down by one. */
  function DropIndex(predicted: int, current: int): (r: int)
    ensures r == predicted || r == predicted - 1
    ensures r < predicted <==> predicted > current
  {
    if predicted > current then predicted - 1 else predicted
  }

  /** Dropping a window directly before or directly after itself leaves the
      list unchanged. */
  lemma DropBesideItself(ws: seq<Window>, w: Window, predicted: int)
    requires IndexOf(ws, w.id) >= 0 && ws[IndexOf(ws, w.id)] == w
    requires predicted == IndexOf(ws, w.id) || predicted == IndexOf(ws, w.id) + 1
    ensures Reordered(ws, w, DropIndex(predicted, IndexOf(ws, w.id))) == ws
  {
    ReorderedToOwnIndex(ws, w);
  }

  /** Dropping a window at any other predicted slot puts it directly before
      the window that was in that slot, or last when the slot is the end. */
  lemma {:induction false} DropLandsBefore(ws: seq<Window>, w: Window, predicted: int)
    requires IndexOf(ws, w.id) >= 0 && ws[IndexOf(ws, w.id)] == w
    requires 0 <= predicted <= |ws| && predicted != IndexOf(ws, w.id)
    ensures var d := DropIndex(predicted, IndexOf(ws, w.id));
            var r := Reordered(ws, w, d);
            |r| == |ws| && 0 <= d < |ws| && r[d] == w &&
            (predicted < |ws| ==> r[d + 1] == ws[predicted])
  {
    var p := IndexOf(ws, w.id);
    var d := DropIndex(predicted, p);
    var rest := Removed(ws, w.id);
    assert rest == ws[..p] + ws[p + 1..];
    assert Clamp(d, 0, |ws|) == d;
    var r := Inserted(rest, w, d);
    assert r == rest[..d] + [w] + rest[d..];
    if predicted < |ws| {
      assert r[d + 1] == rest[d];
    }
  }
}
