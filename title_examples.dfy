/** Window names seen in practice and the metadata the heuristic gives
    them, each derived from the general form it instantiates. */
module TitleExamples {
  import opened Strings
  import opened Windows
  import opened Titles
  import opened TitleForms

  /** A Chrome tab: the second-to-last field is the sub-app and the text
      before it is the title. */
  lemma ChromeExample(w: Window)
    requires w.name == "Sourcegraph" + DefaultSeparator + "Search" + DefaultSeparator + ChromeName
    ensures Info(w) == Winfo("Google Chrome", "Search", "Sourcegraph")
  {
    var t, s := "Sourcegraph", "Search";
    assert '-' !in t && '-' !in s;
    TrimSpaceOfTrimmed(s);
    ChromeForm(w, t, s);
  }

  /** The Chrome title keeps white space that every other rule trims. */
  lemma ChromeUntrimmedTitleExample(w: Window)
    requires w.name == "notes\t" + DefaultSeparator + "Docs" + DefaultSeparator + ChromeName
    ensures Info(w) == Winfo("Google Chrome", "Docs", "notes\t")
  {
    var t, s := "notes\t", "Docs";
    assert '-' !in t && '-' !in s;
    TrimSpaceOfTrimmed(s);
    ChromeForm(w, t, s);
  }

  /** An Edge window: both parts are trimmed around the mark. */
  lemma EdgeExample(w: Window)
    requires w.name == "My Page " + EdgeSeparator + "Microsoft Edge"
    ensures Info(w) == Winfo("Microsoft Edge", "", "My Page")
  {
    var t, a := "My Page ", "Microsoft Edge";
    assert '-' !in t && '-' !in a;
    TrimSpaceOfTrimmed(a);
    assert TrimSpace(t) == "My Page";
    EdgeForm(w, t, a);
  }

  /** A Slack window: the later separator stays in the title. */
  lemma SlackExample(w: Window)
    requires w.name == SlackName + DefaultSeparator + "general" + DefaultSeparator + "My Workspace"
    ensures Info(w) == Winfo("Slack", "", "general" + DefaultSeparator + "My Workspace")
  {
    var g, a := "general", "My Workspace";
    assert '-' !in g && '-' !in a;
    TrimSpaceOfTrimmed(a);
    var rest := g + DefaultSeparator + a;
    assert rest[0] == 'g' && rest[|rest| - 1] == 'e';
    TrimSpaceOfTrimmed(rest);
    SlackKeepsLaterSeparator(w, g, a);
  }

  /** The usual convention: the app name after the last separator. */
  lemma NotepadExample(w: Window)
    requires w.name == "report.txt" + DefaultSeparator + "Notepad"
    ensures Info(w) == Winfo("Notepad", "", "report.txt")
  {
    var t, a := "report.txt", "Notepad";
    assert '-' !in t && '-' !in a;
    assert t != SlackName;
    TrimSpaceOfTrimmed(t);
    TrimSpaceOfTrimmed(a);
    assert a != ChromeName;
    AppLastForm(w, t, a);
  }

  /** The Slack test is on the untrimmed text: with a leading space the
      default rule applies and "Slack" becomes the title. */
  lemma PaddedSlackExample(w: Window)
    requires w.name == " Slack" + DefaultSeparator + "general"
    ensures Info(w) == Winfo("general", "", "Slack")
  {
    var t, a := " Slack", "general";
    assert '-' !in t && '-' !in a;
    assert t != SlackName;
    assert TrimSpace(t) == "Slack";
    TrimSpaceOfTrimmed(a);
    assert a != ChromeName;
    AppLastForm(w, t, a);
  }

  /** No separator: the name is the title, untouched. */
  lemma DesktopExample(w: Window)
    requires w.name == "Desktop"
    ensures Info(w) == Winfo("", "", "Desktop")
  {
    assert '-' !in w.name;
    NoHyphenForm(w);
  }
}
