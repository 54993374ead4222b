/** The state of all in-use windows at one moment, and its rendering
    (data.go, `Snapshot.Print`): the windows are sorted into the active
    window, the visible ones and the others, and each non-empty group is
    printed as one line of bracketed `Winfo` entries. */
module Snapshots {
  import opened Wrappers
  import opened Windows
  import Titles

  /** A snapshot without its capture time: the windows in the order the
      windowing system reported them, the active window's identifier and
      the identifiers of the visible windows. */
  datatype Snapshot = Snapshot(windows: seq<Window>, active: int64, visible: seq<int64>)
  {
    /** The rendering of the snapshot, after a first line holding the
        already formatted capture time `stamp`. */
    method Print(stamp: string) returns (out: string)
      ensures out == Render(stamp, LastActive(windows, active),
                            Visibles(windows, active, visible), Others(windows, active, visible))
    {
      var activeWindow, visibleWindows, otherWindows := Partition(this);
      var b := stamp + "\n";
      if activeWindow.Some? {
        b := b + ("\tActive: " + Titles.Print(Titles.Info(activeWindow.value)) + "\n");
      }
      assert b == stamp + "\n" + ActiveLine(activeWindow);
      ghost var withActive := b;
      if |visibleWindows| > 0 {
        b := AppendSection(b, "Visible", visibleWindows);
      }
      assert b == withActive + Section("Visible", Infos(visibleWindows));
      ghost var withVisible := b;
      if |otherWindows| > 0 {
        b := AppendSection(b, "Other", otherWindows);
      }
      assert b == withVisible + Section("Other", Infos(otherWindows));
      out := b;
    }
  }

  /** The window belongs to the visible group: it is not the active one and
      its identifier is among the visible ones. */
  predicate IsVisibleWindow(w: Window, active: int64, ids: seq<int64>)
  {
    w.id != active && w.id in ids
  }

  /** The window belongs to the other group. */
  predicate IsOtherWindow(w: Window, active: int64, ids: seq<int64>)
  {
    w.id != active && w.id !in ids
  }

  /** The last window carrying the active identifier, if any. */
  function LastActive(ws: seq<Window>, active: int64): Option<Window>
  {
    if ws == [] then None
    else if ws[|ws| - 1].id == active then Some(ws[|ws| - 1])
    else LastActive(ws[..|ws| - 1], active)
  }

  /** The visible windows, in input order. */
  function Visibles(ws: seq<Window>, active: int64, ids: seq<int64>): seq<Window>
  {
    if ws == [] then []
    else
      var w := ws[|ws| - 1];
      Visibles(ws[..|ws| - 1], active, ids) + (if IsVisibleWindow(w, active, ids) then [w] else [])
  }

  /** The remaining windows, in input order. */
  function Others(ws: seq<Window>, active: int64, ids: seq<int64>): seq<Window>
  {
    if ws == [] then []
    else
      var w := ws[|ws| - 1];
      Others(ws[..|ws| - 1], active, ids) + (if IsOtherWindow(w, active, ids) then [w] else [])
  }

  /** The windows carrying the active identifier, in input order. */
  function Carrying(ws: seq<Window>, active: int64): seq<Window>
  {
    if ws == [] then []
    else
      var w := ws[|ws| - 1];
      Carrying(ws[..|ws| - 1], active) + (if w.id == active then [w] else [])
  }

  /** The metadata of each window, in order. */
  function Infos(ws: seq<Window>): (infos: seq<Titles.Winfo>)
    ensures |infos| == |ws|
  {
    if ws == [] then [] else Infos(ws[..|ws| - 1]) + [Titles.Info(ws[|ws| - 1])]
  }

  /** One entry of a group's line: the bracketed `Winfo` and ", ". */
  function Entry(i: Titles.Winfo): string
  {
    Titles.Print(i) + ", "
  }

  /** The entries of a group's line, in order. */
  function Entries(infos: seq<Titles.Winfo>): string
  {
    if infos == [] then "" else Entries(infos[..|infos| - 1]) + Entry(infos[|infos| - 1])
  }

  /** The line of the active window, absent without one. */
  function ActiveLine(a: Option<Window>): string
  {
    match a
    case None => ""
    case Some(w) => "\tActive: " + Titles.Print(Titles.Info(w)) + "\n"
  }

  /** The line of a group, absent when the group is empty. */
  function Section(heading: string, infos: seq<Titles.Winfo>): string
  {
    if infos == [] then "" else "\t" + heading + ": " + Entries(infos) + "\n"
  }

  /** The whole rendering: the time line, then the three group lines. */
  function Render(stamp: string, a: Option<Window>, visible: seq<Window>, other: seq<Window>): string
  {
    stamp + "\n" + ActiveLine(a) + Section("Visible", Infos(visible)) + Section("Other", Infos(other))
  }

  /** The labelled loop of `Snapshot.Print`: each window is compared with
      the active identifier, then with each visible identifier, and goes to
      the first group it matches; a later window with the active identifier
      replaces an earlier one. */
  method Partition(s: Snapshot) returns (active: Option<Window>, visible: seq<Window>, other: seq<Window>)
    ensures active == LastActive(s.windows, s.active)
    ensures visible == Visibles(s.windows, s.active, s.visible)
    ensures other == Others(s.windows, s.active, s.visible)
  {
    active := None;
    visible := [];
    other := [];
    label Windows:
    for i := 0 to |s.windows|
      invariant active == LastActive(s.windows[..i], s.active)
      invariant visible == Visibles(s.windows[..i], s.active, s.visible)
      invariant other == Others(s.windows[..i], s.active, s.visible)
    {
      var w := s.windows[i];
      assert s.windows[..i + 1][..i] == s.windows[..i];
      if w.id == s.active {
        active := Some(w);
        continue Windows;
      }
      for j := 0 to |s.visible|
        invariant forall k :: 0 <= k < j ==> s.visible[k] != w.id
      {
        if w.id == s.visible[j] {
          visible := visible + [w];
          continue Windows;
        }
      }
      other := other + [w];
    }
    assert s.windows[..|s.windows|] == s.windows;
  }

  /** Appends a group's line to the buffer, one entry at a time. */
  method AppendSection(b: string, heading: string, ws: seq<Window>) returns (out: string)
    requires ws != []
    ensures out == b + Section(heading, Infos(ws))
  {
    var head := "\t" + heading + ": ";
    var start := b + head;
    out := start;
    for k := 0 to |ws|
      invariant out == start + Entries(Infos(ws[..k]))
    {
      var info := Titles.Info(ws[k]);
      assert ws[..k + 1][..k] == ws[..k];
      assert Infos(ws[..k + 1]) == Infos(ws[..k]) + [info];
      assert (Infos(ws[..k]) + [info])[..k] == Infos(ws[..k]);
      assert Entries(Infos(ws[..k + 1])) == Entries(Infos(ws[..k])) + Entry(info);
      AppendAssociative(start, Entries(Infos(ws[..k])), Entry(info));
      out := out + Entry(info);
    }
    assert ws[..|ws|] == ws;
    ghost var entries := Entries(Infos(ws));
    assert out == start + entries;
    out := out + "\n";
    assert Section(heading, Infos(ws)) == head + entries + "\n";
    AppendAssociative(b, head, entries);
    AppendAssociative(b, head + entries, "\n");
  }

  /** Appending regroups freely. */
  lemma AppendAssociative<T>(a: seq<T>, b: seq<T>, c: seq<T>)
    ensures a + b + c == a + (b + c)
  {
  }
}
