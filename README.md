# Window metadata and snapshot rendering of a window tracker

This project models the core of `data.go` and proves properties of it. The file comes from a tool that records which application windows are open, active and visible. The model covers three parts.

- **Windows** (`windows.dfy`). A window is a value with an identifier, a desktop and a name. Three predicates classify a window: system window (its name is one of six fixed names), sticky window (desktop -1), and presence on a desktop.
- **The title heuristic** (`titles.dfy`). `Window.Info` splits a raw window name into an application, a sub-application and a title. It tries five rules in order, and the first that applies decides:
  1. a Chrome tab: the name has at least one `" - "`, and its last `" - "` field, trimmed, is `"Google Chrome"`;
  2. Microsoft Edge's separator, a left-to-right mark followed by `"- "`;
  3. `"Slack"` before the first `" - "`;
  4. the application name after the last `" - "`;
  5. no separator at all.

  `Winfo.Print` renders the result as `[app|subApp|title]`. The Go string functions these rules rely on are written out in `strings.dfy`:
  - `strings.Index`, `LastIndex`, `Contains`, `Split`, `Join`;
  - `TrimSpace` with the white space set of `unicode.IsSpace`.
- **The snapshot** (`snapshots.dfy`). `Snapshot.Print` sorts the windows into the active window, the visible windows and the others, in one labelled loop. It then prints one line per non-empty group.
  - The model keeps the loop as a method. It uses a labelled `for` loop, `continue Windows` and the inner search over the visible identifiers.
  - The output is built by appending to a buffer, as in the source.

**How the rules are stated.** Each method is proved against specification functions. For example, `Partition` is proved against `LastActive`, `Visibles` and `Others`, and `Snapshot.Print` against `Render`. The properties are then lemmas about those functions.

- **`title_rules.dfy`** states each rule of the heuristic exactly. The Chrome rule is stated in terms of the `" - "` fields of the name; the other rules in terms of separator positions.
- **`title_forms.dfy`** instantiates each rule for names built from the conventions, with the extracted parts as parameters.
- **`title_examples.dfy`** gives window names as they occur in practice.

**Where the code decides.**
- The documentation comment on `Winfo.SubApp` (data.go:176-179) uses "Sourcegraph" as the sub-app of a Chrome tab. The code (data.go:129) takes the second-to-last `" - "` field instead, so for `"Sourcegraph - Search - Google Chrome"` the sub-app is `"Search"` and the title is `"Sourcegraph"`.
- The Slack test (data.go:148) compares the untrimmed text before the first separator.
- The Chrome title (data.go:130) is the only extracted part that is not trimmed.

The model follows the code in all three places (`ChromeExample`, `PaddedSlackExample`, `ChromeUntrimmedTitleExample`).

## Model

| member | source | states |
|---|---|---|
| Strings.Index | data.go:146 | -1 exactly when the pattern does not occur, otherwise the leftmost occurrence |
| Strings.LastIndex | data.go:157 | -1 exactly when the pattern does not occur, otherwise the rightmost occurrence |
| Strings.Contains | data.go:135 | the pattern occurs at some position; Strings.Index is -1 exactly when it does not |
| Strings.Split | data.go:123 | at least one field, and exactly one when the separator does not occur |
| Strings.SplitCutsAtFirstOccurrences | data.go:123 | every field but the last is followed by the leftmost separator of the text that remains; with JoinSplit and SplitFieldsHaveNoSeparator this makes the fields those of the leftmost non-overlapping occurrences |
| Strings.Join | data.go:130 | the fields with the separator between neighbours; JoinSplit states that it undoes Split |
| Strings.JoinSplit | data.go:123-130 | joining the fields of a split with the same separator gives back the string |
| Strings.SplitFieldsHaveNoSeparator | data.go:123 | no field of a split contains the separator |
| Strings.IsSpace | data.go:125 | exactly the white space of Go's `unicode.IsSpace`: tab, newline, vertical tab, form feed, carriage return, space, U+0085, U+00A0, U+1680, U+2000 to U+200A, U+2028, U+2029, U+202F, U+205F and U+3000 |
| Strings.TrimSpace | data.go:125 | drops the leading and trailing white space; TrimSpaceSpec states what it keeps |
| Strings.TrimSpaceSpec | data.go:125 | the trimmed string is a contiguous part of the input, only white space is dropped on either side, and neither of its ends is white space |
| Strings.TrimSpaceOfTrimmed | data.go:125 | a string with no white space at either end is its own trimming |
| Strings.TrimSpaceIdempotent | data.go:125 | trimming twice is trimming once |
| Strings.FirstOccurrenceAfter | data.go:146 | in `x + p + y`, the leftmost `p` is the one after `x` when the first character of `p` is not in `x`, or its second character is not in `x` and differs from its first |
| Strings.LastOccurrenceBefore | data.go:157 | in `x + p + y`, the rightmost `p` is the one after `x` when `p` does not occur in what follows its first character |
| Windows.IsSystem | data.go:78-95 | membership of the name in the six system names; SystemNamesExact states the set exactly |
| Windows.IsSticky | data.go:99-101 | the desktop is -1; stated with IsOnDesktop by DesktopMembership |
| Windows.IsOnDesktop | data.go:105-107 | sticky, or on that desktop; stated by DesktopMembership |
| Windows.SystemNamesExact | data.go:78-95 | a window is a system window exactly when its name is one of the six names; case and white space variants are not |
| Windows.SystemNamesHaveNoPadding | data.go:78-95 | a name with white space at either end is never a system name |
| Windows.DesktopMembership | data.go:97-107 | sticky exactly when the desktop is -1; on a desktop exactly when sticky or that desktop; so always on its own desktop, on every desktop when sticky, and on no other |
| Titles.Info | data.go:121-169 | the heuristic; each of its five rules is stated by one of the five rule lemmas below, from ChromeRule to FallbackRule |
| Titles.Print | data.go:188-190 | the bracketed, bar-separated fields; PrintParses and PrintAmbiguousWithBars state when it can be read back |
| TitleRules.ChromeRule | data.go:123-133 | when the trimmed last field is "Google Chrome": app is that name, sub-app is the trimmed second-to-last field, title is the earlier fields joined back untrimmed, empty with two fields, and the name is title, sub-app field and app field with separators between; no later rule is consulted |
| TitleRules.EdgeRule | data.go:135-143 | otherwise, with the Edge separator at its rightmost position `b`: app and title are the trimmed text after and before `b`, the sub-app is empty, and the app holds no Edge separator |
| TitleRules.SlackRule | data.go:146-154 | otherwise, when the untrimmed text before the first " - " is "Slack": app "Slack", title the trimmed rest after that one separator, no sub-app |
| TitleRules.DefaultRule | data.go:156-162 | otherwise, with " - " present: app is the trimmed text after the last separator (which holds no separator), title the trimmed text before it, no sub-app |
| TitleRules.FallbackRule | data.go:165-168 | a name with neither separator is the title, unchanged, with empty app and sub-app |
| TitleRules.TitleIsNameIff | data.go:121-169 | the title is the whole name exactly when the name holds neither separator |
| TitleRules.SubAppOnlyFromChrome | data.go:121-169 | a non-empty sub-app only comes from the Chrome rule |
| TitleRules.ReparseTitle | data.go:165-168 | re-parsing a title without separators returns it unchanged as the title |
| TitleRules.PrintParses | data.go:188-190 | a rendered entry reads back to the same metadata when app and sub-app hold no bar |
| TitleRules.PrintAmbiguousWithBars | data.go:188-190 | with a bar in a field, two different metadata values print the same |
| TitleForms.ChromeOfThreeFields | data.go:123-133 | a name whose fields are a title, a sub-app field and "Google Chrome" gives app Chrome, the trimmed sub-app field and the title, untrimmed |
| TitleForms.ChromeForm | data.go:123-133 | "t - s - Google Chrome" with hyphen-free parts gives app Chrome, sub-app trimmed `s`, title `t` untrimmed |
| TitleForms.EdgeForm | data.go:135-143 | "t‎- a" with hyphen-free parts gives app trimmed `a` and title trimmed `t` |
| TitleForms.SlackForm | data.go:146-154 | "Slack - r" that is not a Chrome tab and whose `r` holds no Edge separator gives app Slack and title trimmed `r`, whatever " - " separators `r` contains |
| TitleForms.SlackKeepsLaterSeparator | data.go:146-154 | "Slack - c - w" with hyphen-free `c` and `w`, and `w` not trimming to "Google Chrome", keeps the second separator in the title: app Slack, title trimmed "c - w" |
| TitleForms.ThreeFieldsNotChrome | data.go:123-126 | three hyphen-free fields whose last does not trim to "Google Chrome" are not a Chrome tab |
| TitleForms.AppLastForm | data.go:156-162 | "t - a" with hyphen-free parts, `t` not "Slack" and `a` not trimming to "Google Chrome" gives app trimmed `a` and title trimmed `t` |
| TitleForms.NoHyphenForm | data.go:165-168 | a name without a hyphen is all title |
| TitleExamples.ChromeExample | data.go:123-133 | "Sourcegraph - Search - Google Chrome" gives app "Google Chrome", sub-app "Search", title "Sourcegraph" |
| TitleExamples.ChromeUntrimmedTitleExample | data.go:130 | the Chrome title keeps a trailing tab |
| TitleExamples.EdgeExample | data.go:135-143 | "My Page ‎- Microsoft Edge" gives app "Microsoft Edge", title "My Page" |
| TitleExamples.SlackExample | data.go:146-154 | "Slack - general - My Workspace" gives app "Slack", title "general - My Workspace" |
| TitleExamples.NotepadExample | data.go:156-162 | "report.txt - Notepad" gives app "Notepad", title "report.txt" |
| TitleExamples.PaddedSlackExample | data.go:148 | " Slack - general" fails the Slack test and gives app "general", title "Slack" |
| TitleExamples.DesktopExample | data.go:165-168 | "Desktop" gives the title "Desktop" and nothing else |
| Snapshots.LastActive | data.go:28-31 | the last window carrying the active identifier; stated by LastActiveIsLastCarrying, LastActiveAbsent and LastActivePosition |
| Snapshots.Visibles | data.go:32-36 | the visible group in input order; stated by VisibleMembership and GroupsKeepOrder |
| Snapshots.Others | data.go:32-38 | the other group in input order; stated by OtherMembership and GroupsKeepOrder |
| Snapshots.Render | data.go:41-58 | the time line and the three group lines; the Iff lemmas state when each line appears |
| Snapshots.Partition | data.go:23-39 | the active window, the visible group and the other group are the specification functions of the snapshot's windows |
| Snapshots.AppendSection | data.go:45-58 | appends the group's line: heading, each entry followed by ", ", newline |
| Snapshots.Snapshot.Print | data.go:20-60 | the output is the time line followed by the active, visible and other lines of the partition, each line present only for a non-empty group |
| SnapshotProperties.VisibleMembership | data.go:32-36 | a window is in the visible group exactly when it is in the snapshot, not active and has a visible identifier |
| SnapshotProperties.OtherMembership | data.go:32-38 | a window is in the other group exactly when it is in the snapshot, not active and has no visible identifier |
| SnapshotProperties.ExactlyOneGroup | data.go:26-39 | a window without the active identifier is in exactly one group; one with it is in neither |
| SnapshotProperties.GroupsPartitionWindows | data.go:26-39 | the two groups plus the windows carrying the active identifier are a permutation of the windows |
| SnapshotProperties.GroupSizes | data.go:26-39 | their sizes add up to the number of windows |
| SnapshotProperties.GroupsKeepOrder | data.go:26-39 | grouping distributes over concatenation, so each group keeps input order |
| SnapshotProperties.LastActiveIsLastCarrying | data.go:28-31 | the active window is the last window carrying the active identifier, or none |
| SnapshotProperties.LastActiveAbsent | data.go:28-31 | there is no active window exactly when no window carries the active identifier |
| SnapshotProperties.LastActivePosition | data.go:28-31 | the active window carries the identifier and no later window does |
| SnapshotProperties.InfosAppend | data.go:47-49 | the metadata of concatenated window lists is concatenated |
| SnapshotProperties.EntriesAppend | data.go:47-49 | the entries of concatenated lists are the entries of each in turn |
| SnapshotProperties.EntriesOfOne | data.go:48 | each entry is the bracketed metadata followed by ", " |
| SnapshotProperties.ActiveLineIffActiveWindow | data.go:42-44 | the active line is printed exactly when a window carries the active identifier |
| SnapshotProperties.VisibleLineIffVisibleWindow | data.go:45-51 | the visible line is printed exactly when some window is visible |
| SnapshotProperties.OtherLineIffOtherWindow | data.go:52-58 | the other line is printed exactly when some window is in the other group |
| SnapshotProperties.ThreeWindowGroups | data.go:26-39 | with windows 1 (active), 2 (visible) and 3, each group holds its one window |
| SnapshotProperties.ThreeWindowRendering | data.go:41-58 | the same snapshot renders as the time line, "\tActive: [..]", "\tVisible: [..], " and "\tOther: [..], " lines |
| SnapshotProperties.SectionOfOne | data.go:45-58 | a group of one window is the heading, its entry with ", " and a newline |

## Left out

- The time line (data.go:41): Go's `time.Time.Format` with a layout string and a time zone belongs to the standard library. `Snapshot.Print` takes the formatted time as the string `stamp`.
- `bytes.Buffer` and `fmt.Fprintf`/`fmt.Sprintf` are modelled as string concatenation.
- Go pointers (`*Window`, `*Winfo`) are modelled as values, and the possibly-nil active window as an `Option`. A nil entry in `Snapshot.Windows` would make the Go code panic; the model has no nil windows.
- Strings are modelled as sequences of Unicode code points, not as UTF-8 bytes.
  - Every cut the heuristic makes is at a separator boundary, so positions in characters give the same pieces as Go's byte offsets.
  - Invalid UTF-8 in a name is not modelled.
- `strings.Split` with an empty separator is not modelled. The code never splits on one.
- `int64` identifiers are only compared, never computed with, so they have no overflow to model.
- TitleForms.ChromeForm, TitleForms.EdgeForm, TitleForms.AppLastForm, TitleForms.SlackKeepsLaterSeparator: stated only for parts without hyphens, and TitleForms.SlackForm only for a remainder without the Edge separator. They describe the common shapes of names. The rule lemmas in `title_rules.dfy` state every rule for all names.
- Snapshots.Snapshot.Print: the capture of the windows from the windowing system, and persistence, are outside this file and not part of this model.
