/** Facts about the screen's mirror as a whole: the window ids of all
    workspaces stay pairwise distinct when one workspace's list is edited,
    when a workspace is dropped, and when only titles or flags change. */
module Mirror {
  import opened Common
  import opened WindowLists

  /** The invariant the screen keeps: no window is tracked twice and no
      workspace appears twice. */
  predicate WellFormed(wss: seq<Workspace>) {
    NoDup(AllIds(wss)) && NoDup(WsIds(wss))
  }

  /** Lists with the same windows have the same ids. */
  lemma {:induction false} IdsMultiset(a: seq<Window>, b: seq<Window>)
    requires multiset(a) == multiset(b)
    ensures multiset(Ids(a)) == multiset(Ids(b))
    decreases |a|
  {
    if a == [] {
      assert |multiset(b)| == |b|;
    } else {
      var x := a[0];
      var j := Position(b, x);
      var b' := b[..j] + b[j + 1..];
      assert multiset(a[1..]) == multiset(b') by {
        MultisetRemoveAt(b, j);
        MultisetCons(a);
        MultisetCancel(multiset(a[1..]), multiset(b'), x);
      }
      calc {
        multiset(Ids(a));
        == { IdsCons(a); }
        multiset(Ids(a[1..])) + multiset{x.id};
        == { IdsMultiset(a[1..], b'); }
        multiset(Ids(b')) + multiset{x.id};
        == { IdsRemoveAt(b, j); }
        multiset(Ids(b));
      }
    }
  }

  lemma MultisetCons(a: seq<Window>)
    requires a != []
    ensures multiset(a) == multiset(a[1..]) + multiset{a[0]}
  {
    assert a == [a[0]] + a[1..];
  }

  lemma IdsCons(a: seq<Window>)
    requires a != []
    ensures multiset(Ids(a)) == multiset(Ids(a[1..])) + multiset{a[0].id}
  {
    assert Ids(a) == [a[0].id] + Ids(a[1..]);
  }

  lemma Position(b: seq<Window>, x: Window) returns (j: nat)
    requires x in multiset(b)
    ensures j < |b| && b[j] == x
  {
    assert x in b;
    j :| 0 <= j < |b| && b[j] == x;
  }

  lemma MultisetCancel(m: multiset<Window>, n: multiset<Window>, x: Window)
    requires m + multiset{x} == n + multiset{x}
    ensures m == n
  {
    forall o ensures m[o] == n[o] {
      assert (m + multiset{x})[o] == (n + multiset{x})[o];
    }
  }

  lemma MultisetRemoveAt(b: seq<Window>, j: nat)
    requires j < |b|
    ensures multiset(b) == multiset(b[..j] + b[j + 1..]) + multiset{b[j]}
  {
    assert b == b[..j] + [b[j]] + b[j + 1..];
  }

  lemma IdsRemoveAt(b: seq<Window>, j: nat)
    requires j < |b|
    ensures multiset(Ids(b)) == multiset(Ids(b[..j] + b[j + 1..])) + multiset{b[j].id}
  {
    assert b == b[..j] + [b[j]] + b[j + 1..];
    IdsConcat(b[..j] + [b[j]], b[j + 1..]);
    IdsConcat(b[..j], [b[j]]);
    IdsConcat(b[..j], b[j + 1..]);
  }

  /** Ids are read off element by element, so one extra window adds its id. */
  lemma IdsMultisetAdd(a: seq<Window>, b: seq<Window>, w: Window)
    requires multiset(a) == multiset(b) + multiset{w}
    ensures multiset(Ids(a)) == multiset(Ids(b)) + multiset{w.id}
  {
    IdsMultiset(a, b + [w]);
    IdsConcat(b, [w]);
  }

  /** Editing workspace i keeps ids distinct when the new list's ids are
      the old ones plus at most the ids in `added`, which are untracked and
      distinct. */
  lemma ReplaceWindows(wss: seq<Workspace>, i: nat, ws: seq<Window>, added: multiset<WinId>)
    requires i < |wss| && WellFormed(wss)
    requires multiset(Ids(ws)) <= multiset(Ids(wss[i].windows)) + added
    requires forall x :: x in added ==> added[x] == 1 && x !in multiset(AllIds(wss))
    ensures WellFormed(wss[i := wss[i].(windows := ws)])
  {
    var w := wss[i].(windows := ws);
    var wss' := wss[i := w];
    AllIdsUpdate(wss, i, w);
    NoDupMultiset(AllIds(wss));
    assert w.windows == ws;
    var m', mi, m, mw := multiset(AllIds(wss')), multiset(Ids(wss[i].windows)), multiset(AllIds(wss)), multiset(Ids(ws));
    assert m' + mi == m + mw;
    forall x ensures m'[x] <= 1 {
      assert (m' + mi)[x] == (m + mw)[x];
      assert mw[x] <= (mi + added)[x];
      if x in added {
        assert m[x] == 0;
      }
    }
    NoDupMultiset(AllIds(wss'));
    assert WsIds(wss') == WsIds(wss);
  }

  /** Workspaces holding the same windows flatten alike. */
  lemma {:induction false} SameWindowsSameFlatten(a: seq<Workspace>, b: seq<Workspace>)
    requires |a| == |b|
    requires forall i :: 0 <= i < |a| ==> a[i].windows == b[i].windows
    ensures Flatten(a) == Flatten(b)
  {
    if a != [] {
      SameWindowsSameFlatten(a[1..], b[1..]);
    }
  }

  /** Retitling keeps the mirror well formed. */
  lemma SameShape(a: seq<Workspace>, b: seq<Workspace>)
    requires WellFormed(a) && |a| == |b|
    requires forall i :: 0 <= i < |a| ==> a[i].windows == b[i].windows && a[i].id == b[i].id
    ensures WellFormed(b)
  {
    SameWindowsSameFlatten(a, b);
    assert WsIds(a) == WsIds(b);
  }

  /** Dropping the middle of a duplicate-free sequence leaves it
      duplicate-free. */
  lemma NoDupDropMiddle<T>(a: seq<T>, b: seq<T>, c: seq<T>)
    requires NoDup(a + b + c)
    ensures NoDup(a + c)
  {
    assert multiset(a + c) <= multiset(a + b + c);
    NoDupSubMultiset(a + c, a + b + c);
  }

  /** Dropping workspace i (with its windows) keeps the mirror well formed. */
  lemma DropWorkspace(wss: seq<Workspace>, i: nat)
    requires i < |wss| && WellFormed(wss)
    ensures WellFormed(wss[..i] + wss[i + 1..])
  {
    DropWorkspaceWindows(wss, i);
    var rest := wss[..i] + wss[i + 1..];
    var ids := WsIds(wss);
    assert WsIds(rest) == ids[..i] + ids[i + 1..];
    assert ids == ids[..i] + [ids[i]] + ids[i + 1..];
    NoDupDropMiddle(ids[..i], [ids[i]], ids[i + 1..]);
  }

  lemma DropWorkspaceWindows(wss: seq<Workspace>, i: nat)
    requires i < |wss| && NoDup(AllIds(wss))
    ensures NoDup(AllIds(wss[..i] + wss[i + 1..]))
  {
    FlattenSplit(wss, i);
    FlattenConcat(wss[..i], wss[i + 1..]);
    var pre, mid, post := Flatten(wss[..i]), wss[i].windows, Flatten(wss[i + 1..]);
    IdsConcat(pre + mid, post);
    IdsConcat(pre, mid);
    IdsConcat(pre, post);
    NoDupDropMiddle(Ids(pre), Ids(mid), Ids(post));
  }

  /** Appending an empty workspace with a new identity keeps the mirror
      well formed. */
  lemma AppendWorkspace(wss: seq<Workspace>, w: Workspace)
    requires WellFormed(wss) && w.windows == [] && w.id !in WsIds(wss)
    ensures WellFormed(wss + [w])
  {
    FlattenConcat(wss, [w]);
    assert Flatten([w]) == [] + Flatten([]);
    assert Flatten(wss + [w]) == Flatten(wss);
    assert WsIds(wss + [w]) == WsIds(wss) + [w.id];
    NoDupAppendFresh(WsIds(wss), w.id);
  }

  /** Removing a window from the workspace that holds it takes exactly its
      id out of the mirror. */
  lemma RemovedFromMirror(wss: seq<Workspace>, k: nat, id: WinId)
    requires WellFormed(wss) && k < |wss| && Holds(wss[k].windows, id)
    ensures var wss' := wss[k := wss[k].(windows := Removed(wss[k].windows, id))];
            multiset(AllIds(wss')) + multiset{id} == multiset(AllIds(wss)) && id !in AllIds(wss')
  {
    var ws := wss[k].windows;
    var r := Removed(ws, id);
    var wss' := wss[k := wss[k].(windows := r)];
    IndexOfHolds(ws, id);
    var w := ws[IndexOf(ws, id)];
    RemovedMultiset(ws, id);
    IdsMultisetAdd(ws, r, w);
    AllIdsUpdate(wss, k, wss[k].(windows := r));
    var m', m, mr := multiset(AllIds(wss')), multiset(AllIds(wss)), multiset(Ids(r));
    forall o ensures (m' + multiset{id})[o] == m[o] {
      assert (m' + mr + multiset{id})[o] == (m + mr)[o];
    }
    assert m' + multiset{id} == m;
    NoDupCount(AllIds(wss), id);
  }
}
