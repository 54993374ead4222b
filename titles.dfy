/** The title heuristic of data.go (`Window.Info`): a first-match-wins
    cascade of separator conventions that splits a raw window name into
    the application, the sub-application and the remaining title, and the
    bracketed rendering of the result (`Winfo.Print`). */
module Titles {
  import opened Wrappers
  import opened Strings
  import opened Windows

  /** The separator most applications put between title and app name. */
  const DefaultSeparator: string := " - "

  /** Microsoft Edge's separator: a left-to-right mark, then "- ". */
  const EdgeSeparator: string := "\U{200E}- "

  const ChromeName: string := "Google Chrome"

  /** The one application known to put its name first. */
  const SlackName: string := "Slack"

  /** Structured metadata about a window. */
  datatype Winfo = Winfo(app: string, subApp: string, title: string)

  /** Chrome convention: the last " - " field, trimmed, is "Google Chrome". */
  predicate IsChromeTab(name: string)
  {
    var fields := Split(name, DefaultSeparator);
    |fields| > 1 && TrimSpace(fields[|fields| - 1]) == ChromeName
  }

  /** The metadata the heuristic extracts from a window's name.  The rules
      are tried in order and the first that applies decides:
      Chrome tab, Edge separator, Slack first, app name last, no separator.
      The Slack test compares the untrimmed text before the first " - ";
      the Chrome title is the only extracted segment that is not trimmed. */
  function Info(w: Window): Winfo
  {
    var name := w.name;
    if IsChromeTab(name) then
      var fields := Split(name, DefaultSeparator);
      Winfo(ChromeName, TrimSpace(fields[|fields| - 2]), Join(fields[..|fields| - 2], DefaultSeparator))
    else if Contains(name, EdgeSeparator) then
      var beforeSep := LastIndex(name, EdgeSeparator);
      var afterSep := beforeSep + |EdgeSeparator|;
      Winfo(TrimSpace(name[afterSep..]), "", TrimSpace(name[..beforeSep]))
    else if Index(name, DefaultSeparator) > -1 then
      var first := Index(name, DefaultSeparator);
      if name[..first] == SlackName then
        Winfo(TrimSpace(name[..first]), "", TrimSpace(name[first + |DefaultSeparator|..]))
      else
        var last := LastIndex(name, DefaultSeparator);
        Winfo(TrimSpace(name[last + |DefaultSeparator|..]), "", TrimSpace(name[..last]))
    else
      Winfo("", "", name)
  }

  /** `Winfo.Print`: the three fields in brackets, separated by bars. */
  function Print(i: Winfo): string
  {
    "[" + i.app + "|" + i.subApp + "|" + i.title + "]"
  }

  /** Reads a rendered entry back, taking the first two bars as the field
      boundaries; the reference against which Print is shown lossless. */
  function ParseEntry(r: string): Option<Winfo>
  {
    if |r| < 2 || r[0] != '[' || r[|r| - 1] != ']' then None
    else
      var inner := r[1..|r| - 1];
      var a := Index(inner, "|");
      if a < 0 then None
      else
        var rest := inner[a + 1..];
        var b := Index(rest, "|");
        if b < 0 then None
        else Some(Winfo(inner[..a], rest[..b], rest[b + 1..]))
  }
}
