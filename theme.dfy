/** The light/dark theme rule of the to-do component: how the flag starts from
    the value stored under 'todoapp-theme' and the host's colour-scheme
    preference, and which string is stored back. */
module Theme {
  import opened Js

  /** The initial dark-mode flag.  A stored 'dark' selects dark; any other
      non-empty stored value selects light; with nothing stored (or an empty
      string) the host's preference decides. */
  function InitialDark(stored: Option<string>, prefersDark: bool): (dark: bool)
    ensures stored == Some("dark") ==> dark
    ensures Truthy(stored) && stored != Some("dark") ==> !dark
    ensures !Truthy(stored) ==> dark == prefersDark
  {
    stored == Some("dark") || (prefersDark && !Truthy(stored))
  }

  /** The string stored under 'todoapp-theme' for a flag. */
  function ThemeName(dark: bool): (name: string)
    ensures name == "dark" || name == "light"
    ensures name == "dark" <==> dark
  {
    if dark then "dark" else "light"
  }

  /** What is stored is what the next start-up reads back, whatever the host
      prefers. */
  lemma StoredThemeRestored(dark: bool, prefersDark: bool)
    ensures InitialDark(Some(ThemeName(dark)), prefersDark) == dark
  {
  }
}
