/** The incremental search filter: the query is ASCII-lowercased, split on
    single spaces, and a window matches when its lowercased title contains
    every non-empty piece. */
module Search {
  import opened Common

  /** g_ascii_tolower: only 'A'..'Z' change. */
  function Lower(c: char): char {
    if 'A' <= c <= 'Z' then (c as int + 32) as char else c
  }

  /** g_ascii_strdown. */
  function LowerStr(s: string): (r: string)
    ensures |r| == |s|
    ensures forall i :: 0 <= i < |s| ==> r[i] == Lower(s[i])
  {
    seq(|s|, i requires 0 <= i < |s| => Lower(s[i]))
  }

  lemma LowerStrAppend(s: string, c: char)
    ensures LowerStr(s + [c]) == LowerStr(s) + [Lower(c)]
  {
  }

  lemma LowerSpace(c: char)
    ensures Lower(c) == ' ' <==> c == ' '
  {
  }

  // ---------------------------------------------------------------------
  // Splitting on single spaces (g_strsplit with separator " ")

  function FirstSpace(s: string): (k: nat)
    requires ' ' in s
    ensures k < |s| && s[k] == ' ' && ' ' !in s[..k]
    ensures forall i :: 0 <= i < k ==> s[i] != ' '
  {
    if s[0] == ' ' then 0 else
      assert s == [s[0]] + s[1..];
      var k := FirstSpace(s[1..]);
      assert s[..k + 1] == [s[0]] + s[1..][..k];
      k + 1
  }

  /** The pieces between single spaces; consecutive spaces give empty pieces. */
  function SplitOn(s: string): (r: seq<string>)
    ensures |r| >= 1
    ensures forall k :: 0 <= k < |r| ==> ' ' !in r[k]
    decreases |s|
  {
    if ' ' !in s then [s]
    else
      var k := FirstSpace(s);
      [s[..k]] + SplitOn(s[k + 1..])
  }

  /** g_strsplit(q, " ", 0): the empty string splits into no pieces at all. */
  function Terms(q: string): seq<string> {
    if q == "" then [] else SplitOn(q)
  }

  /** The inverse of SplitOn: the pieces glued back with single spaces. */
  function Join(parts: seq<string>): string
    requires |parts| >= 1
  {
    if |parts| == 1 then parts[0] else parts[0] + " " + Join(parts[1..])
  }

  lemma {:induction false} JoinSplit(s: string)
    ensures Join(SplitOn(s)) == s
    decreases |s|
  {
    if ' ' in s {
      var k := FirstSpace(s);
      var rest := SplitOn(s[k + 1..]);
      var p := SplitOn(s);
      assert p == [s[..k]] + rest;
      assert p[0] == s[..k] && p[1..] == rest;
      assert Join(p) == s[..k] + " " + Join(rest);
      JoinSplit(s[k + 1..]);
      Around(s, k);
    }
  }

  lemma Around(s: string, k: nat)
    requires k < |s| && s[k] == ' '
    ensures s == s[..k] + " " + s[k + 1..]
  {
  }

  lemma {:induction false} SplitJoin(parts: seq<string>)
    requires |parts| >= 1
    requires forall k :: 0 <= k < |parts| ==> ' ' !in parts[k]
    ensures SplitOn(Join(parts)) == parts
  {
    if |parts| > 1 {
      var s := Join(parts);
      var rest := Join(parts[1..]);
      assert s == parts[0] + " " + rest;
      assert s[|parts[0]|] == ' ';
      assert s[..|parts[0]|] == parts[0];
      forall i | 0 <= i < |parts[0]| ensures s[i] != ' ' {
        assert s[i] == parts[0][i];
      }
      FirstSpaceIs(s, |parts[0]|);
      var k := FirstSpace(s);
      assert s[k + 1..] == rest;
      SplitJoin(parts[1..]);
    }
  }

  /** Typing one more character either extends the last piece or, for a
      space, opens a new empty piece. */
  lemma SplitAppend(q: string, c: char)
    ensures c == ' ' ==> SplitOn(q + [c]) == SplitOn(q) + [""]
    ensures c != ' ' ==> |SplitOn(q + [c])| == |SplitOn(q)|
    ensures c != ' ' ==> forall k :: 0 <= k < |SplitOn(q)| - 1 ==> SplitOn(q + [c])[k] == SplitOn(q)[k]
    ensures c != ' ' ==> SplitOn(q + [c])[|SplitOn(q)| - 1] == SplitOn(q)[|SplitOn(q)| - 1] + [c]
  {
    if c == ' ' {
      TypeSpace(q);
    } else {
      TypeLetter(q, c);
    }
  }

  lemma {:induction false} TypeSpace(q: string)
    ensures SplitOn(q + " ") == SplitOn(q) + [""]
    decreases |q|
  {
    if ' ' !in q {
      SplitAppendSpace(q);
    } else {
      var k := FirstSpace(q);
      var rest := q[k + 1..];
      TypeSpace(rest);
      SplitAppendStep(q, ' ');
      assert rest + [' '] == rest + " ";
    }
  }

  lemma {:induction false} TypeLetter(q: string, c: char)
    requires c != ' '
    ensures |SplitOn(q + [c])| == |SplitOn(q)|
    ensures forall k :: 0 <= k < |SplitOn(q)| - 1 ==> SplitOn(q + [c])[k] == SplitOn(q)[k]
    ensures SplitOn(q + [c])[|SplitOn(q)| - 1] == SplitOn(q)[|SplitOn(q)| - 1] + [c]
    decreases |q|
  {
    if ' ' !in q {
      SplitAppendLetter(q, c);
    } else {
      var k := FirstSpace(q);
      var rest := q[k + 1..];
      TypeLetter(rest, c);
      SplitAppendStep(q, c);
      ConsPointwise(q[..k], SplitOn(rest), SplitOn(rest + [c]), c);
    }
  }

  lemma ConsPointwise(a: string, r: seq<string>, r': seq<string>, c: char)
    requires |r| >= 1 && |r'| == |r|
    requires forall k :: 0 <= k < |r| - 1 ==> r'[k] == r[k]
    requires r'[|r| - 1] == r[|r| - 1] + [c]
    ensures forall k :: 0 <= k < |r| ==> ([a] + r')[k] == ([a] + r)[k]
    ensures ([a] + r')[|r|] == ([a] + r)[|r|] + [c]
  {
  }

  lemma SplitAppendSpace(q: string)
    requires ' ' !in q
    ensures SplitOn(q + " ") == [q, ""]
  {
    var s := q + " ";
    forall i | 0 <= i < |q| ensures s[i] != ' ' {
      assert s[i] == q[i];
    }
    FirstSpaceIs(s, |q|);
    assert s[..|q|] == q;
    assert s[|q| + 1..] == "";
  }

  lemma SplitAppendLetter(q: string, c: char)
    requires ' ' !in q && c != ' '
    ensures SplitOn(q + [c]) == [q + [c]]
  {
    var s := q + [c];
    assert ' ' !in s by {
      forall i | 0 <= i < |s| ensures s[i] != ' ' {
        if i < |q| { assert s[i] == q[i]; }
      }
    }
  }

  /** The first piece is unaffected by appending after the first space. */
  lemma SplitAppendStep(q: string, c: char)
    requires ' ' in q
    ensures SplitOn(q + [c]) == [q[..FirstSpace(q)]] + SplitOn(q[FirstSpace(q) + 1..] + [c])
    ensures SplitOn(q) == [q[..FirstSpace(q)]] + SplitOn(q[FirstSpace(q) + 1..])
    ensures |SplitOn(q)| == 1 + |SplitOn(q[FirstSpace(q) + 1..])|
  {
    var s := q + [c];
    var k := FirstSpace(q);
    assert s[k] == ' ';
    FirstSpaceIs(s, k);
    assert s[..k] == q[..k];
    assert s[k + 1..] == q[k + 1..] + [c];
  }

  // ---------------------------------------------------------------------
  // Substring test (g_strrstr returns non-NULL iff the needle occurs)

  ghost predicate OccursAt(t: string, s: string, i: int) {
    0 <= i && i + |t| <= |s| && s[i..i + |t|] == t
  }

  function Occurs(t: string, s: string): (r: bool)
    ensures r <==> exists i :: OccursAt(t, s, i)
    decreases |s|
  {
    if |t| > |s| then
      assert forall i :: !OccursAt(t, s, i);
      false
    else if s[..|t|] == t then
      assert OccursAt(t, s, 0);
      true
    else
      OccursShift(t, s);
      Occurs(t, s[1..])
  }

  lemma OccursShift(t: string, s: string)
    requires |t| <= |s| && s[..|t|] != t
    ensures (exists i :: OccursAt(t, s, i)) <==> (exists i :: OccursAt(t, s[1..], i))
  {
    if exists i :: OccursAt(t, s, i) {
      var i :| OccursAt(t, s, i);
      assert i != 0;
      assert s[1..][i - 1..i - 1 + |t|] == s[i..i + |t|];
      assert OccursAt(t, s[1..], i - 1);
    }
    if exists i :: OccursAt(t, s[1..], i) {
      var i :| OccursAt(t, s[1..], i);
      assert s[1..][i..i + |t|] == s[i + 1..i + 1 + |t|];
      assert OccursAt(t, s, i + 1);
    }
  }

  lemma OccursPrefix(t: string, u: string, s: string)
    requires Occurs(t + u, s)
    ensures Occurs(t, s)
  {
    var i :| OccursAt(t + u, s, i);
    assert s[i..i + |t|] == (t + u)[..|t|];
    assert OccursAt(t, s, i);
  }

  // ---------------------------------------------------------------------
  // Matching a window title against the terms

  /** update_search's per-window loop: empty terms are skipped, the first
      missing term makes the window insensitive. */
  function MatchesTerms(title: string, terms: seq<string>): (r: bool)
    ensures r <==> forall k :: 0 <= k < |terms| && terms[k] != "" ==> Occurs(terms[k], title)
  {
    if terms == [] then true
    else if terms[0] != "" && !Occurs(terms[0], title) then false
    else MatchesTerms(title, terms[1..])
  }

  /** Whether a window titled `title` is sensitive for `query`. */
  function Sensitive(title: string, query: string): bool {
    MatchesTerms(LowerStr(title), Terms(LowerStr(query)))
  }

  /** Typing a character can only shrink the set of matching windows (and
      so backspace can only grow it). */
  lemma TypingNarrows(title: string, q: string, c: char)
    ensures Sensitive(title, q + [c]) ==> Sensitive(title, q)
  {
    var lt, lq, lc := LowerStr(title), LowerStr(q), Lower(c);
    LowerStrAppend(q, c);
    LowerSpace(c);
    if lq != [] && Sensitive(title, q + [c]) {
      var old_ := SplitOn(lq);
      var new_ := SplitOn(lq + [lc]);
      SplitAppend(lq, lc);
      assert Terms(lq + [lc]) == new_;
      forall k | 0 <= k < |old_| && old_[k] != "" ensures Occurs(old_[k], lt) {
        if lc == ' ' || k < |old_| - 1 {
          assert new_[k] == old_[k] by {
            if lc == ' ' { assert new_ == old_ + [""]; }
          }
        } else {
          assert new_[k] == old_[k] + [lc];
          OccursPrefix(old_[k], [lc], lt);
        }
      }
    }
  }

  /** A query made only of spaces (in particular the empty query) has no
      non-empty term, so it matches every title. */
  lemma BlankQueryMatches(title: string, q: string)
    requires forall i :: 0 <= i < |q| ==> q[i] == ' '
    ensures Sensitive(title, q)
  {
    var lq := LowerStr(q);
    if lq != [] {
      var ts := SplitOn(lq);
      JoinSplit(lq);
      forall k | 0 <= k < |ts| ensures ts[k] == "" {
        JoinContains(ts, k);
      }
    }
  }

  lemma {:induction false} JoinContains(parts: seq<string>, k: nat)
    requires |parts| >= 1 && k < |parts|
    ensures parts[k] != "" ==> parts[k][0] in Join(parts)
  {
    if k > 0 {
      JoinContains(parts[1..], k - 1);
      assert Join(parts) == parts[0] + " " + Join(parts[1..]);
    } else if |parts| > 1 {
      assert Join(parts) == parts[0] + " " + Join(parts[1..]);
    }
  }

  /** A space preceded by no other space is the first one. */
  lemma {:induction false} FirstSpaceIs(s: string, k: nat)
    requires k < |s| && s[k] == ' '
    requires forall i :: 0 <= i < k ==> s[i] != ' '
    ensures FirstSpace(s) == k
  {
    if k > 0 {
      FirstSpaceIs(s[1..], k - 1);
    }
  }

  // ---------------------------------------------------------------------
  // The filter applied to the whole mirror

  function SearchWindows(ws: seq<Window>, q: string): (r: seq<Window>)
    ensures |r| == |ws|
    ensures forall k :: 0 <= k < |ws| ==> r[k] == ws[k].(sensitive := Sensitive(ws[k].title, q))
  {
    seq(|ws|, k requires 0 <= k < |ws| => ws[k].(sensitive := Sensitive(ws[k].title, q)))
  }

  function ApplySearch(wss: seq<Workspace>, q: string): (r: seq<Workspace>)
    ensures |r| == |wss|
    ensures forall i :: 0 <= i < |wss| ==> r[i] == wss[i].(windows := SearchWindows(wss[i].windows, q))
  {
    seq(|wss|, i requires 0 <= i < |wss| => wss[i].(windows := SearchWindows(wss[i].windows, q)))
  }

  function CountSensitive(ws: seq<Window>): nat {
    if ws == [] then 0
    else CountSensitive(ws[..|ws| - 1]) + (if ws[|ws| - 1].sensitive then 1 else 0)
  }

  function CountSensitiveAll(wss: seq<Workspace>): nat {
    if wss == [] then 0
    else CountSensitiveAll(wss[..|wss| - 1]) + CountSensitive(wss[|wss| - 1].windows)
  }

  /** Filtering keeps every window, its id and its title in place. */
  lemma SearchKeepsIds(wss: seq<Workspace>, q: string)
    ensures AllIds(ApplySearch(wss, q)) == AllIds(wss)
  {
    var r := ApplySearch(wss, q);
    forall i | 0 <= i < |wss| ensures Ids(r[i].windows) == Ids(wss[i].windows) { }
    SameIdsSameAll(r, wss);
  }

  lemma {:induction false} SameIdsSameAll(a: seq<Workspace>, b: seq<Workspace>)
    requires |a| == |b|
    requires forall i :: 0 <= i < |a| ==> Ids(a[i].windows) == Ids(b[i].windows)
    ensures AllIds(a) == AllIds(b)
  {
    if a != [] {
      SameIdsSameAll(a[1..], b[1..]);
      IdsConcat(a[0].windows, Flatten(a[1..]));
      IdsConcat(b[0].windows, Flatten(b[1..]));
    }
  }

  /** Re-running the same query changes nothing. */
  lemma SearchIdempotent(wss: seq<Workspace>, q: string)
    ensures ApplySearch(ApplySearch(wss, q), q) == ApplySearch(wss, q)
  {
    var once := ApplySearch(wss, q);
    forall i | 0 <= i < |wss|
      ensures SearchWindows(once[i].windows, q) == once[i].windows
    {
    }
  }

  /** The blank query makes every window sensitive, so the match count is
      the number of windows. */
  lemma BlankQueryCountsAll(wss: seq<Workspace>, q: string)
    requires forall i :: 0 <= i < |q| ==> q[i] == ' '
    ensures CountSensitiveAll(ApplySearch(wss, q)) == |Flatten(wss)|
  {
    forall t ensures Sensitive(t, q) {
      BlankQueryMatches(t, q);
    }
    AllSensitiveCount(ApplySearch(wss, q));
    FlattenLength(wss);
    FlattenLength(ApplySearch(wss, q));
    SameSizes(ApplySearch(wss, q), wss);
  }

  lemma {:induction false} SameSizes(a: seq<Workspace>, b: seq<Workspace>)
    requires |a| == |b|
    requires forall i :: 0 <= i < |a| ==> |a[i].windows| == |b[i].windows|
    ensures Offset(a, |a|) == Offset(b, |b|)
  {
    if a != [] {
      SameSizes(a[1..], b[1..]);
    }
  }

  lemma {:induction false} AllSensitiveCount(wss: seq<Workspace>)
    requires forall i, k :: 0 <= i < |wss| && 0 <= k < |wss[i].windows| ==> wss[i].windows[k].sensitive
    ensures CountSensitiveAll(wss) == Offset(wss, |wss|)
  {
    if wss != [] {
      var n := |wss| - 1;
      AllSensitiveCount(wss[..n]);
      AllSensitiveWindows(wss[n].windows);
      OffsetPrefix(wss, n);
    }
  }

  lemma {:induction false} AllSensitiveWindows(ws: seq<Window>)
    requires forall k :: 0 <= k < |ws| ==> ws[k].sensitive
    ensures CountSensitive(ws) == |ws|
  {
    if ws != [] {
      AllSensitiveWindows(ws[..|ws| - 1]);
    }
  }

  /** Offsets of a prefix agree with offsets of the whole. */
  lemma {:induction false} OffsetPrefix(wss: seq<Workspace>, n: nat)
    requires n < |wss|
    ensures Offset(wss, n + 1) == Offset(wss[..n], n) + |wss[n].windows|
  {
    OffsetStep(wss, n);
    OffsetOfPrefix(wss, n, n);
  }

  lemma {:induction false} OffsetOfPrefix(wss: seq<Workspace>, m: nat, i: nat)
    requires i <= m <= |wss|
    ensures Offset(wss[..m], i) == Offset(wss, i)
  {
    if i > 0 {
      assert wss[..m][1..] == wss[1..][..m - 1];
      OffsetOfPrefix(wss[1..], m - 1, i - 1);
    }
  }

  /** Typing a character never increases the number of matches. */
  lemma TypingNeverAddsMatches(wss: seq<Workspace>, q: string, c: char)
    ensures CountSensitiveAll(ApplySearch(wss, q + [c])) <= CountSensitiveAll(ApplySearch(wss, q))
  {
    forall t ensures Sensitive(t, q + [c]) ==> Sensitive(t, q) {
      TypingNarrows(t, q, c);
    }
    CountMonotone(ApplySearch(wss, q + [c]), ApplySearch(wss, q));
  }

  lemma {:induction false} CountMonotone(a: seq<Workspace>, b: seq<Workspace>)
    requires |a| == |b|
    requires forall i :: 0 <= i < |a| ==> |a[i].windows| == |b[i].windows|
    requires forall i, k ::
               0 <= i < |a| && 0 <= k < |a[i].windows| && a[i].windows[k].sensitive ==> b[i].windows[k].sensitive
    ensures CountSensitiveAll(a) <= CountSensitiveAll(b)
  {
    if a != [] {
      var n := |a| - 1;
      CountMonotone(a[..n], b[..n]);
      CountMonotoneWindows(a[n].windows, b[n].windows);
    }
  }

  lemma {:induction false} CountMonotoneWindows(a: seq<Window>, b: seq<Window>)
    requires |a| == |b|
    requires forall k :: 0 <= k < |a| && a[k].sensitive ==> b[k].sensitive
    ensures CountSensitive(a) <= CountSensitive(b)
  {
    if a != [] {
      CountMonotoneWindows(a[..|a| - 1], b[..|b| - 1]);
    }
  }
}
