/** One application window as the windowing system reports it, and the
    classification queries asked of it (data.go, `Window`). */
module Windows {
  import opened Strings

  /** Go's `int64`, the type of window and desktop identifiers. */
  newtype int64 = x: int | -0x8000_0000_0000_0000 <= x < 0x8000_0000_0000_0000

  /** The desktop identifier that marks a sticky window. */
  const StickyDesktop: int64 := -1

  datatype Window = Window(id: int64, desktop: int64, name: string)

  /** Names used by system windows that the user never sees. */
  const SystemNames: set<string> :=
    {"XdndCollectionWindowImp", "unity-launcher", "unity-panel", "unity-dash", "Hud", "Desktop"}

  /** The window belongs to the desktop environment itself. */
  predicate IsSystem(w: Window)
  {
    w.name in SystemNames
  }

  /** The window is present on every desktop. */
  predicate IsSticky(w: Window)
  {
    w.desktop == StickyDesktop
  }

  /** The window is present on the given desktop. */
  predicate IsOnDesktop(w: Window, desktop: int64)
  {
    IsSticky(w) || w.desktop == desktop
  }

  /** System names are matched exactly: the six names and nothing else,
      with no folding of case or white space. */
  lemma {:induction false} SystemNamesExact(w: Window)
    ensures IsSystem(w) <==>
      w.name == "XdndCollectionWindowImp" || w.name == "unity-launcher" || w.name == "unity-panel"
      || w.name == "unity-dash" || w.name == "Hud" || w.name == "Desktop"
    ensures (w.name == "desktop" || w.name == " Hud" || w.name == "Hud " || w.name == "HUD"
             || w.name == "Unity-Panel") ==> !IsSystem(w)
  {
  }

  /** Every system name is its own trimming, so a name with white space at
      either end is never a system name. */
  lemma SystemNamesHaveNoPadding(w: Window)
    requires w.name != [] && (IsSpace(w.name[0]) || IsSpace(w.name[|w.name| - 1]))
    ensures !IsSystem(w)
  {
  }

  /** A sticky window is on every desktop, every window is on its own
      desktop, and a window that is not sticky is on no other desktop. */
  lemma DesktopMembership(w: Window, d: int64)
    ensures IsSticky(w) <==> w.desktop == -1
    ensures IsOnDesktop(w, d) <==> w.desktop == -1 || w.desktop == d
    ensures IsOnDesktop(w, w.desktop)
    ensures IsSticky(w) ==> IsOnDesktop(w, d)
    ensures !IsSticky(w) && d != w.desktop ==> !IsOnDesktop(w, d)
  {
  }
}
