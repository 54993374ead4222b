/** What each rule of the title heuristic produces.  The Chrome rule is
    stated in terms of the `" - "` fields of the name; the other rules in
    terms of the positions of the separators in the name rather than in
    terms of the search functions the heuristic calls. */
module TitleRules {
  import opened Wrappers
  import opened Strings
  import opened Windows
  import opened Titles

  /** Two leftmost occurrences are the same occurrence. */
  lemma FirstOccurrenceUnique(s: string, p: string, i: int, j: int)
    requires IsFirstOccurrence(s, p, i) && IsFirstOccurrence(s, p, j)
    ensures i == j
  {
  }

  /** Two rightmost occurrences are the same occurrence. */
  lemma LastOccurrenceUnique(s: string, p: string, i: int, j: int)
    requires IsLastOccurrence(s, p, i) && IsLastOccurrence(s, p, j)
    ensures i == j
  {
  }

  /** Nothing after the rightmost occurrence of a pattern contains it. */
  lemma NothingAfterLast(s: string, p: string, i: int)
    requires p != [] && IsLastOccurrence(s, p, i)
    ensures !Contains(s[i + |p|..], p)
  {
    var tail := s[i + |p|..];
    forall j | 0 <= j <= |tail| && OccursAt(tail, p, j) ensures false {
      OccursInSuffix(s, p, i + |p|, j);
    }
  }

  /** Chrome rule.  When the last " - " field is "Google Chrome", that is
      the app, the second-to-last field (trimmed) is the sub-app, and the
      title is the earlier fields joined back, untrimmed, or empty when
      there are only two fields.  The name is then exactly the title, the
      sub-app field and the app field with the separators between them.
      No other rule is consulted, whatever else the name contains. */
  lemma {:induction false} ChromeRule(w: Window)
    requires IsChromeTab(w.name)
    ensures var fields := Split(w.name, DefaultSeparator);
            var n := |fields|;
            var i := Info(w);
            && n >= 2
            && i.app == ChromeName
            && i.subApp == TrimSpace(fields[n - 2])
            && i.title == Join(fields[..n - 2], DefaultSeparator)
            && (n == 2 ==> i.title == "")
            && w.name == (if n == 2 then "" else i.title + DefaultSeparator)
                         + fields[n - 2] + DefaultSeparator + fields[n - 1]
            && !Contains(fields[n - 2], DefaultSeparator)
            && !Contains(fields[n - 1], DefaultSeparator)
  {
    var fields := Split(w.name, DefaultSeparator);
    var n := |fields|;
    JoinSplit(w.name, DefaultSeparator);
    SplitFieldsHaveNoSeparator(w.name, DefaultSeparator);
    JoinLastTwo(fields, DefaultSeparator);
  }

  /** Edge rule.  When the Chrome rule does not apply and the Edge
      separator occurs, the name is cut at its rightmost occurrence `b`:
      the trimmed text after it is the app, the trimmed text before it the
      title, and there is no sub-app.  The app contains no Edge separator. */
  lemma EdgeRule(w: Window, b: int)
    requires !IsChromeTab(w.name)
    requires IsLastOccurrence(w.name, EdgeSeparator, b)
    ensures Info(w) == Winfo(TrimSpace(w.name[b + |EdgeSeparator|..]), "", TrimSpace(w.name[..b]))
    ensures !Contains(w.name[b + |EdgeSeparator|..], EdgeSeparator)
  {
    assert Contains(w.name, EdgeSeparator);
    LastOccurrenceUnique(w.name, EdgeSeparator, LastIndex(w.name, EdgeSeparator), b);
    NothingAfterLast(w.name, EdgeSeparator, b);
  }

  /** Slack rule.  When neither browser rule applies and the untrimmed
      text before the leftmost " - " (at `f`) is exactly "Slack", that is
      the app and everything after that one separator, trimmed, is the
      title, later separators included. */
  lemma SlackRule(w: Window, f: int)
    requires !IsChromeTab(w.name) && !Contains(w.name, EdgeSeparator)
    requires IsFirstOccurrence(w.name, DefaultSeparator, f)
    requires w.name[..f] == SlackName
    ensures Info(w) == Winfo(SlackName, "", TrimSpace(w.name[f + |DefaultSeparator|..]))
  {
    FirstOccurrenceUnique(w.name, DefaultSeparator, Index(w.name, DefaultSeparator), f);
    TrimSpaceOfTrimmed(SlackName);
    assert TrimSpace(w.name[..f]) == SlackName;
    assert Info(w) == Winfo(TrimSpace(w.name[..f]), "", TrimSpace(w.name[f + |DefaultSeparator|..]));
  }

  /** Default rule.  Otherwise, when " - " occurs, the name is cut at its
      rightmost occurrence `l`: the trimmed text after it is the app and
      contains no further separator, the trimmed text before it is the
      title, and there is no sub-app. */
  lemma DefaultRule(w: Window, f: int, l: int)
    requires !IsChromeTab(w.name) && !Contains(w.name, EdgeSeparator)
    requires IsFirstOccurrence(w.name, DefaultSeparator, f) && w.name[..f] != SlackName
    requires IsLastOccurrence(w.name, DefaultSeparator, l)
    ensures Info(w) == Winfo(TrimSpace(w.name[l + |DefaultSeparator|..]), "", TrimSpace(w.name[..l]))
    ensures !Contains(w.name[l + |DefaultSeparator|..], DefaultSeparator)
  {
    var name, sep := w.name, DefaultSeparator;
    assert Index(name, sep) == f && LastIndex(name, sep) == l by {
      FirstOccurrenceUnique(name, sep, Index(name, sep), f);
      LastOccurrenceUnique(name, sep, LastIndex(name, sep), l);
    }
    assert !Contains(name[l + |sep|..], sep) by {
      NothingAfterLast(name, sep, l);
    }
  }

  /** Fallback.  A name with neither separator is kept whole as the title. */
  lemma FallbackRule(w: Window)
    requires !Contains(w.name, DefaultSeparator) && !Contains(w.name, EdgeSeparator)
    ensures Info(w) == Winfo("", "", w.name)
  {
  }

  /** The title is the whole name exactly when the name has no separator;
      any separator makes the title strictly shorter than the name. */
  lemma TitleIsNameIff(w: Window)
    ensures Info(w).title == w.name <==>
            !Contains(w.name, DefaultSeparator) && !Contains(w.name, EdgeSeparator)
  {
    var name := w.name;
    if IsChromeTab(name) {
      ChromeRule(w);
      assert |Info(w).title| < |name|;
    } else if Contains(name, EdgeSeparator) {
      var b := LastIndex(name, EdgeSeparator);
      TrimSpaceShorter(name[..b]);
    } else if Index(name, DefaultSeparator) > -1 {
      var f := Index(name, DefaultSeparator);
      if name[..f] == SlackName {
        TrimSpaceShorter(name[f + |DefaultSeparator|..]);
      } else {
        TrimSpaceShorter(name[..LastIndex(name, DefaultSeparator)]);
      }
    }
  }

  /** Only the Chrome rule fills in a sub-app. */
  lemma SubAppOnlyFromChrome(w: Window)
    ensures Info(w).subApp != "" ==> IsChromeTab(w.name) && Info(w).app == ChromeName
  {
  }

  /** Re-parsing an extracted title that holds no separator gives it back
      unchanged, with no app and no sub-app. */
  lemma ReparseTitle(w: Window)
    requires !Contains(Info(w).title, DefaultSeparator) && !Contains(Info(w).title, EdgeSeparator)
    ensures Info(Window(w.id, w.desktop, Info(w).title)) == Winfo("", "", Info(w).title)
  {
  }

  /** Print loses nothing when neither the app nor the sub-app contains a
      bar: reading the entry back gives the same metadata. */
  lemma {:induction false} PrintParses(i: Winfo)
    requires '|' !in i.app && '|' !in i.subApp
    ensures ParseEntry(Print(i)) == Some(i)
  {
    var rest := i.subApp + "|" + i.title;
    var inner := i.app + "|" + rest;
    assert Print(i)[1..|Print(i)| - 1] == inner && Print(i)[0] == '[' && Print(i)[|Print(i)| - 1] == ']' by {
      PrintShape(i);
    }
    assert Index(inner, "|") == |i.app| && inner[..|i.app|] == i.app && inner[|i.app| + 1..] == rest by {
      FirstOccurrenceAfter(i.app, "|", rest);
    }
    assert Index(rest, "|") == |i.subApp| && rest[..|i.subApp|] == i.subApp && rest[|i.subApp| + 1..] == i.title by {
      FirstOccurrenceAfter(i.subApp, "|", i.title);
    }
  }

  /** A rendered entry is the three fields with bars between, in brackets. */
  lemma PrintShape(i: Winfo)
    ensures Print(i) == "[" + (i.app + "|" + (i.subApp + "|" + i.title)) + "]"
  {
  }

  /** A bar inside the app makes two different metadata values print the
      same, so Print cannot be inverted in general. */
  lemma PrintAmbiguousWithBars()
    ensures Print(Winfo("a|b", "c", "d")) == Print(Winfo("a", "b|c", "d"))
    ensures Winfo("a|b", "c", "d") != Winfo("a", "b|c", "d")
  {
  }
}

