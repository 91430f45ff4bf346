/** The light/dark theme switch of the theme provider. */
module Theme {

  /** The next theme: "light" becomes "dark", anything else becomes "light". */
  function ToggleTheme(prev: string): (next: string)
    ensures next == "light" || next == "dark"
    ensures next == "dark" <==> prev == "light"
  {
    if prev == "light" then "dark" else "light"
  }

  /** Starting from either known theme, two toggles come back to it. */
  lemma ToggleThemeTwice(t: string)
    requires t == "light" || t == "dark"
    ensures ToggleTheme(ToggleTheme(t)) == t
  {
  }
}
