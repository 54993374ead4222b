/** What the grouping and the rendering of a snapshot guarantee. */
module SnapshotProperties {
  import opened Wrappers
  import opened Windows
  import Titles
  import opened Snapshots

  /** A non-empty list is its front followed by its last window. */
  lemma FrontAndLast(ws: seq<Window>)
    requires ws != []
    ensures ws == ws[..|ws| - 1] + [ws[|ws| - 1]]
  {
  }

  /** A window is in the visible group exactly when it is one of the
      snapshot's windows, is not the active one and has a visible
      identifier. */
  lemma {:induction false} VisibleMembership(ws: seq<Window>, active: int64, ids: seq<int64>, w: Window)
    ensures w in Visibles(ws, active, ids) <==> w in ws && IsVisibleWindow(w, active, ids)
    decreases |ws|
  {
    if ws != [] {
      var front := ws[..|ws| - 1];
      VisibleMembership(front, active, ids, w);
      FrontAndLast(ws);
    }
  }

  /** A window is in the other group exactly when it is one of the
      snapshot's windows, is not the active one and has no visible
      identifier. */
  lemma {:induction false} OtherMembership(ws: seq<Window>, active: int64, ids: seq<int64>, w: Window)
    ensures w in Others(ws, active, ids) <==> w in ws && IsOtherWindow(w, active, ids)
    decreases |ws|
  {
    if ws != [] {
      var front := ws[..|ws| - 1];
      OtherMembership(front, active, ids, w);
      FrontAndLast(ws);
    }
  }

  /** Every window that does not carry the active identifier is in exactly
      one of the two groups; one that carries it is in neither, even when
      a later window with the same identifier is the one shown as active. */
  lemma ExactlyOneGroup(ws: seq<Window>, active: int64, ids: seq<int64>, w: Window)
    requires w in ws
    ensures w.id == active ==> w !in Visibles(ws, active, ids) && w !in Others(ws, active, ids)
    ensures w.id != active ==> (w in Visibles(ws, active, ids) <==> w !in Others(ws, active, ids))
  {
    VisibleMembership(ws, active, ids, w);
    OtherMembership(ws, active, ids, w);
  }

  /** The two groups and the windows carrying the active identifier are a
      rearrangement of the snapshot's windows: nothing is lost or
      duplicated. */
  lemma {:induction false} GroupsPartitionWindows(ws: seq<Window>, active: int64, ids: seq<int64>)
    ensures multiset(Visibles(ws, active, ids)) + multiset(Others(ws, active, ids))
            + multiset(Carrying(ws, active)) == multiset(ws)
    decreases |ws|
  {
    if ws != [] {
      var front, w := ws[..|ws| - 1], ws[|ws| - 1];
      GroupsPartitionWindows(front, active, ids);
      FrontAndLast(ws);
      assert multiset(ws) == multiset(front) + multiset{w};
    }
  }

  /** Hence the groups and the windows carrying the active identifier
      together have as many windows as the snapshot. */
  lemma GroupSizes(ws: seq<Window>, active: int64, ids: seq<int64>)
    ensures |Visibles(ws, active, ids)| + |Others(ws, active, ids)| + |Carrying(ws, active)| == |ws|
  {
    GroupsPartitionWindows(ws, active, ids);
    assert |multiset(ws)| == |ws|;
  }

  /** The groups keep input order: grouping distributes over
      concatenation of the window list. */
  lemma {:induction false} GroupsKeepOrder(a: seq<Window>, b: seq<Window>, active: int64, ids: seq<int64>)
    ensures Visibles(a + b, active, ids) == Visibles(a, active, ids) + Visibles(b, active, ids)
    ensures Others(a + b, active, ids) == Others(a, active, ids) + Others(b, active, ids)
    ensures Carrying(a + b, active) == Carrying(a, active) + Carrying(b, active)
    decreases |b|
  {
    if b != [] {
      var front, w := b[..|b| - 1], b[|b| - 1];
      GroupsKeepOrder(a, front, active, ids);
      assert (a + b)[..|a + b| - 1] == a + front;
      assert (a + b)[|a + b| - 1] == w;
      var v := if IsVisibleWindow(w, active, ids) then [w] else [];
      var o := if IsOtherWindow(w, active, ids) then [w] else [];
      var c := if w.id == active then [w] else [];
      AppendAssociative(Visibles(a, active, ids), Visibles(front, active, ids), v);
      AppendAssociative(Others(a, active, ids), Others(front, active, ids), o);
      AppendAssociative(Carrying(a, active), Carrying(front, active), c);
    } else {
      assert a + b == a;
    }
  }

  /** The active window is the last window carrying the active identifier,
      or none when no window carries it. */
  lemma {:induction false} LastActiveIsLastCarrying(ws: seq<Window>, active: int64)
    ensures var c := Carrying(ws, active);
            LastActive(ws, active) == if c == [] then None else Some(c[|c| - 1])
    decreases |ws|
  {
    if ws != [] {
      LastActiveIsLastCarrying(ws[..|ws| - 1], active);
    }
  }

  /** There is no active window exactly when no window carries the
      active identifier. */
  lemma {:induction false} LastActiveAbsent(ws: seq<Window>, active: int64)
    ensures LastActive(ws, active) == None <==> forall k :: 0 <= k < |ws| ==> ws[k].id != active
    decreases |ws|
  {
    if ws != [] {
      var front := ws[..|ws| - 1];
      LastActiveAbsent(front, active);
      assert forall k :: 0 <= k < |front| ==> ws[k] == front[k];
    }
  }

  /** The active window carries the active identifier, and no window after
      it does. */
  lemma {:induction false} LastActivePosition(ws: seq<Window>, active: int64)
    requires LastActive(ws, active) != None
    ensures exists k :: 0 <= k < |ws| && ws[k] == LastActive(ws, active).value && ws[k].id == active
                        && forall j :: k < j < |ws| ==> ws[j].id != active
    decreases |ws|
  {
    var n := |ws|;
    if ws[n - 1].id == active {
      assert ws[n - 1] == LastActive(ws, active).value;
    } else {
      var front := ws[..n - 1];
      assert LastActive(ws, active) == LastActive(front, active);
      LastActivePosition(front, active);
      var k :| 0 <= k < |front| && front[k] == LastActive(front, active).value && front[k].id == active
               && forall j :: k < j < |front| ==> front[j].id != active;
      assert ws[k] == front[k];
      assert forall j :: k < j < n - 1 ==> ws[j] == front[j];
    }
  }

  /** The metadata of two lists of windows is that of each in turn. */
  lemma {:induction false} InfosAppend(a: seq<Window>, b: seq<Window>)
    ensures Infos(a + b) == Infos(a) + Infos(b)
    decreases |b|
  {
    if b == [] {
      assert a + b == a;
    } else {
      var front, last := b[..|b| - 1], b[|b| - 1];
      assert (a + b)[..|a + b| - 1] == a + front;
      assert (a + b)[|a + b| - 1] == last;
      var i := [Titles.Info(last)];
      calc {
        Infos(a + b);
        Infos(a + front) + i;
        { InfosAppend(a, front); }
        Infos(a) + Infos(front) + i;
        { AppendAssociative(Infos(a), Infos(front), i); }
        Infos(a) + (Infos(front) + i);
        Infos(a) + Infos(b);
      }
    }
  }

  /** The entries of two lists are the entries of each in turn. */
  lemma {:induction false} EntriesAppend(a: seq<Titles.Winfo>, b: seq<Titles.Winfo>)
    ensures Entries(a + b) == Entries(a) + Entries(b)
    decreases |b|
  {
    if b == [] {
      assert a + b == a;
    } else {
      var front, last := b[..|b| - 1], b[|b| - 1];
      assert (a + b)[..|a + b| - 1] == a + front;
      assert (a + b)[|a + b| - 1] == last;
      calc {
        Entries(a + b);
        Entries(a + front) + Entry(last);
        { EntriesAppend(a, front); }
        Entries(a) + Entries(front) + Entry(last);
        { AppendAssociative(Entries(a), Entries(front), Entry(last)); }
        Entries(a) + (Entries(front) + Entry(last));
        Entries(a) + Entries(b);
      }
    }
  }

  /** Every entry is the bracketed `Winfo` followed by ", ". */
  lemma EntriesOfOne(i: Titles.Winfo, rest: seq<Titles.Winfo>)
    ensures Entries([i] + rest) == Entry(i) + Entries(rest)
  {
    EntriesAppend([i], rest);
    assert [i][..0] == [];
  }

  /** The active line is printed exactly when some window carries the
      active identifier. */
  lemma ActiveLineIffActiveWindow(ws: seq<Window>, active: int64)
    ensures ActiveLine(LastActive(ws, active)) != "" <==> exists k :: 0 <= k < |ws| && ws[k].id == active
  {
    LastActiveAbsent(ws, active);
  }

  /** The visible line is printed exactly when some window is visible. */
  lemma VisibleLineIffVisibleWindow(ws: seq<Window>, active: int64, ids: seq<int64>)
    ensures Section("Visible", Infos(Visibles(ws, active, ids))) != "" <==>
            exists w :: w in ws && IsVisibleWindow(w, active, ids)
  {
    var v := Visibles(ws, active, ids);
    if v != [] {
      VisibleMembership(ws, active, ids, v[0]);
    }
    forall w | w in ws && IsVisibleWindow(w, active, ids) ensures v != [] {
      VisibleMembership(ws, active, ids, w);
    }
  }

  /** The other line is printed exactly when some window is in neither the
      active nor the visible group. */
  lemma OtherLineIffOtherWindow(ws: seq<Window>, active: int64, ids: seq<int64>)
    ensures Section("Other", Infos(Others(ws, active, ids))) != "" <==>
            exists w :: w in ws && IsOtherWindow(w, active, ids)
  {
    var o := Others(ws, active, ids);
    if o != [] {
      OtherMembership(ws, active, ids, o[0]);
    }
    forall w | w in ws && IsOtherWindow(w, active, ids) ensures o != [] {
      OtherMembership(ws, active, ids, w);
    }
  }

  /** Three windows: the first active, the second visible, the third
      neither.  Each group holds its one window. */
  lemma ThreeWindowGroups(s: Snapshot, first: Window, second: Window, third: Window)
    requires s.windows == [first, second, third] && s.active == first.id
    requires s.visible == [second.id]
    requires second.id != first.id && third.id != first.id && third.id != second.id
    ensures LastActive(s.windows, s.active) == Some(first)
    ensures Visibles(s.windows, s.active, s.visible) == [second]
    ensures Others(s.windows, s.active, s.visible) == [third]
  {
    var ws, a, ids := s.windows, s.active, s.visible;
    assert ws[..2] == [first, second] && ws[..2][..1] == [first] && ws[..1] == [first];
    assert ws[..1][..0] == [];
    assert LastActive(ws[..2], a) == Some(first);
    assert Visibles(ws[..1][..0], a, ids) == [] && Others(ws[..1][..0], a, ids) == [];
    assert Visibles(ws[..1], a, ids) == [];
    assert Others(ws[..1], a, ids) == [];
    assert Visibles(ws[..2], a, ids) == [second];
    assert Others(ws[..2], a, ids) == [];
    assert third.id !in ids;
  }

  /** The same three windows rendered: one line per group, each showing
      its window's bracketed `Winfo`, the list lines with a trailing ", ". */
  lemma ThreeWindowRendering(s: Snapshot, stamp: string, first: Window, second: Window, third: Window)
    requires s.windows == [first, second, third] && s.active == first.id
    requires s.visible == [second.id]
    requires second.id != first.id && third.id != first.id && third.id != second.id
    ensures Render(stamp, LastActive(s.windows, s.active), Visibles(s.windows, s.active, s.visible),
                   Others(s.windows, s.active, s.visible))
            == stamp + "\n"
               + ("\tActive: " + Titles.Print(Titles.Info(first)) + "\n")
               + ("\tVisible: " + (Titles.Print(Titles.Info(second)) + ", ") + "\n")
               + ("\tOther: " + (Titles.Print(Titles.Info(third)) + ", ") + "\n")
  {
    ThreeWindowGroups(s, first, second, third);
    GroupHeadings();
    SectionOfOne("Visible", second);
    SectionOfOne("Other", third);
  }

  /** The two group headings as they open their lines.  These literal
      facts are kept in a lemma of their own so that the rendering proof
      does not evaluate the literals next to the unfolded heuristic. */
  lemma GroupHeadings()
    ensures "\t" + "Visible" + ": " == "\tVisible: "
    ensures "\t" + "Other" + ": " == "\tOther: "
  {
  }

  /** The line of a group of one window. */
  lemma SectionOfOne(heading: string, w: Window)
    ensures Section(heading, Infos([w])) == "\t" + heading + ": " + (Titles.Print(Titles.Info(w)) + ", ") + "\n"
  {
    assert [w][..0] == [];
    var i := Titles.Info(w);
    assert Infos([w]) == [i];
    assert [i][..0] == [];
    assert Entries([i]) == "" + Entry(i);
    assert "" + Entry(i) == Entry(i);
  }
}
