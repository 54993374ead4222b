/** The heuristic applied to names built from the conventions it knows,
    with the parts it extracts given as parameters. */
module TitleForms {
  import opened Strings
  import opened Windows
  import opened Titles
  import opened TitleRules

  const LeftToRightMark: char := '\U{200E}'

  /** Neither separator occurs in "- " followed by a text without hyphens. */
  lemma NoSeparatorAfterHyphen(app: string)
    requires '-' !in app
    ensures !Contains("- " + app, DefaultSeparator) && !Contains("- " + app, EdgeSeparator)
  {
    MissingCharacter(app, DefaultSeparator, 1);
    MissingCharacter(app, EdgeSeparator, 1);
    ConsWithoutOccurrence(' ', app, EdgeSeparator);
    assert " " + app == [' '] + app;
    MissingCharacter(" " + app, DefaultSeparator, 1);
    ConsWithoutOccurrence('-', " " + app, DefaultSeparator);
    ConsWithoutOccurrence('-', " " + app, EdgeSeparator);
    assert "- " + app == ['-'] + (" " + app);
  }

  /** No " - " in an Edge-style name whose parts have no hyphen. */
  lemma NoDefaultSeparatorInEdgeName(title: string, app: string)
    requires '-' !in title && '-' !in app
    ensures !Contains(title + EdgeSeparator + app, DefaultSeparator)
  {
    var t := EdgeSeparator + app;
    NoSeparatorAfterHyphen(app);
    assert t == [LeftToRightMark] + ("- " + app);
    ConsWithoutOccurrence(LeftToRightMark, "- " + app, DefaultSeparator);
    NoOccurrenceAcross(title, t, DefaultSeparator);
    assert title + EdgeSeparator + app == title + t;
  }

  /** No Edge separator in a default-style name whose parts have no hyphen. */
  lemma NoEdgeSeparatorInDefaultName(title: string, app: string)
    requires '-' !in title && '-' !in app
    ensures !Contains(title + DefaultSeparator + app, EdgeSeparator)
  {
    var t := DefaultSeparator + app;
    NoSeparatorAfterHyphen(app);
    assert t == [' '] + ("- " + app);
    ConsWithoutOccurrence(' ', "- " + app, EdgeSeparator);
    NoOccurrenceAcross(title, t, EdgeSeparator);
    assert title + DefaultSeparator + app == title + t;
  }

  /** Chrome's name contains no separator and is its own trimming. */
  lemma ChromeNameHasNoSeparator()
    ensures !Contains(ChromeName, DefaultSeparator) && TrimSpace(ChromeName) == ChromeName
  {
    MissingCharacter(ChromeName, DefaultSeparator, 1);
    TrimSpaceOfTrimmed(ChromeName);
  }

  /** Two hyphen-free fields joined by " - " split back into the two. */
  lemma TwoFields(x: string, y: string)
    requires '-' !in x && '-' !in y
    ensures Split(x + DefaultSeparator + y, DefaultSeparator) == [x, y]
  {
    SplitAfterFirst(x, DefaultSeparator, y);
    MissingCharacter(y, DefaultSeparator, 1);
  }

  /** Three hyphen-free fields joined by " - " split back into the three. */
  lemma ThreeFields(x: string, y: string, z: string)
    requires '-' !in x && '-' !in y && '-' !in z
    ensures Split(x + DefaultSeparator + y + DefaultSeparator + z, DefaultSeparator) == [x, y, z]
  {
    var sep := DefaultSeparator;
    var rest := y + sep + z;
    assert x + sep + y + sep + z == x + sep + rest;
    TwoFields(y, z);
    SplitAfterFirst(x, sep, rest);
  }

  /** A name of three fields, the last Chrome's name, is a Chrome tab
      titled by its first field. */
  lemma ChromeOfThreeFields(w: Window, title: string, sub: string)
    requires Split(w.name, DefaultSeparator) == [title, sub, ChromeName]
    ensures Info(w) == Winfo(ChromeName, TrimSpace(sub), title)
  {
    ChromeNameHasNoSeparator();
    assert [title, sub, ChromeName][..1] == [title];
  }

  /** "<title> - <sub-app> - Google Chrome": the title is kept untrimmed,
      the sub-app is trimmed. */
  lemma ChromeForm(w: Window, title: string, sub: string)
    requires w.name == title + DefaultSeparator + sub + DefaultSeparator + ChromeName
    requires '-' !in title && '-' !in sub
    ensures Info(w) == Winfo(ChromeName, TrimSpace(sub), title)
  {
    assert '-' !in ChromeName;
    ThreeFields(title, sub, ChromeName);
    ChromeOfThreeFields(w, title, sub);
  }

  /** "<title>‎- <app>": Microsoft Edge's convention. */
  lemma EdgeForm(w: Window, title: string, app: string)
    requires w.name == title + EdgeSeparator + app
    requires '-' !in title && '-' !in app
    ensures Info(w) == Winfo(TrimSpace(app), "", TrimSpace(title))
  {
    NoDefaultSeparatorInEdgeName(title, app);
    NoSeparatorAfterHyphen(app);
    assert EdgeSeparator[1..] == "- ";
    LastOccurrenceBefore(title, EdgeSeparator, app);
    assert IsLastOccurrence(w.name, EdgeSeparator, |title|);
    EdgeRule(w, |title|);
  }

  /** The characters of the two separators and of "Slack".  These literal
      facts are kept in a lemma of their own so that the proofs using them
      do not evaluate the literals next to the unfolded heuristic. */
  lemma SeparatorCharacters()
    ensures EdgeSeparator == [LeftToRightMark, '-', ' '] && DefaultSeparator == [' ', '-', ' ']
    ensures '-' !in SlackName
  {
  }

  /** "Slack - " followed by a text without the Edge separator has none:
      every hyphen of the prefix follows a space, not a left-to-right mark. */
  lemma NoEdgeSeparatorAfterSlack(rest: string)
    requires !Contains(rest, EdgeSeparator)
    ensures !Contains(SlackName + DefaultSeparator + rest, EdgeSeparator)
  {
    SeparatorCharacters();
    var e := EdgeSeparator;
    ConsWithoutOccurrence(' ', rest, e);
    ConsWithoutOccurrence('-', [' '] + rest, e);
    ConsWithoutOccurrence(' ', ['-'] + ([' '] + rest), e);
    var t := [' '] + (['-'] + ([' '] + rest));
    assert t == DefaultSeparator + rest;
    NoOccurrenceAcross(SlackName, t, e);
    assert SlackName + DefaultSeparator + rest == SlackName + t;
  }

  /** "Slack - <rest>": everything after the first separator is the title,
      whatever " - " separators it contains, unless the Chrome rule or the
      Edge rule claims the name first. */
  lemma SlackForm(w: Window, rest: string)
    requires w.name == SlackName + DefaultSeparator + rest
    requires !Contains(rest, EdgeSeparator) && !IsChromeTab(w.name)
    ensures Info(w) == Winfo(SlackName, "", TrimSpace(rest))
  {
    var sep, n := DefaultSeparator, |SlackName|;
    assert IsFirstOccurrence(w.name, sep, n) && w.name[..n] == SlackName && w.name[n + |sep|..] == rest by {
      FirstOccurrenceAfter(SlackName, sep, rest);
    }
    assert !Contains(w.name, EdgeSeparator) by {
      NoEdgeSeparatorAfterSlack(rest);
    }
    SlackRule(w, n);
  }

  /** Three hyphen-free fields whose last is not Chrome's name do not
      make a Chrome tab. */
  lemma ThreeFieldsNotChrome(x: string, y: string, z: string)
    requires '-' !in x && '-' !in y && '-' !in z
    requires TrimSpace(z) != ChromeName
    ensures !IsChromeTab(x + DefaultSeparator + y + DefaultSeparator + z)
  {
    ThreeFields(x, y, z);
  }

  /** "Slack - <channel> - <workspace>": the second separator is kept in
      the title, where the default rule would have cut at it. */
  lemma SlackKeepsLaterSeparator(w: Window, channel: string, workspace: string)
    requires w.name == SlackName + DefaultSeparator + channel + DefaultSeparator + workspace
    requires '-' !in channel && '-' !in workspace
    requires TrimSpace(workspace) != ChromeName
    ensures Info(w) == Winfo(SlackName, "", TrimSpace(channel + DefaultSeparator + workspace))
  {
    var sep := DefaultSeparator;
    var rest := channel + sep + workspace;
    assert w.name == SlackName + sep + rest;
    assert !IsChromeTab(w.name) by {
      SeparatorCharacters();
      ThreeFieldsNotChrome(SlackName, channel, workspace);
    }
    assert !Contains(rest, EdgeSeparator) by {
      NoEdgeSeparatorInDefaultName(channel, workspace);
    }
    SlackForm(w, rest);
  }

  /** "<title> - <app>" with one separator: the app name last. */
  lemma AppLastForm(w: Window, title: string, app: string)
    requires w.name == title + DefaultSeparator + app
    requires '-' !in title && '-' !in app
    requires title != SlackName && TrimSpace(app) != ChromeName
    ensures Info(w) == Winfo(TrimSpace(app), "", TrimSpace(title))
  {
    var sep := DefaultSeparator;
    TwoFields(title, app);
    assert !IsChromeTab(w.name);
    NoEdgeSeparatorInDefaultName(title, app);
    FirstOccurrenceAfter(title, sep, app);
    assert IsFirstOccurrence(w.name, sep, |title|);
    NoSeparatorAfterHyphen(app);
    assert sep[1..] == "- ";
    LastOccurrenceBefore(title, sep, app);
    assert IsLastOccurrence(w.name, sep, |title|);
    DefaultRule(w, |title|, |title|);
  }

  /** A name without a hyphen has no separator and is all title. */
  lemma NoHyphenForm(w: Window)
    requires '-' !in w.name
    ensures Info(w) == Winfo("", "", w.name)
  {
    MissingCharacter(w.name, DefaultSeparator, 1);
    MissingCharacter(w.name, EdgeSeparator, 1);
    FallbackRule(w);
  }
}
