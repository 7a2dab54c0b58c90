/**
 The site's colour theme: ThemeManager keeps the current theme, mirrors it in
 the document's data-theme attribute and persists it under the key "theme" in
 the browser's preference store, modelled as a map from keys to values.
 */
module Theme {

  const ThemeKey: string := "theme"
  const DefaultTheme: string := "dark"

  /**
   The theme the manager starts with: the stored value, unless it is missing
   or empty (both falsy), in which case the default.
   */
  function InitialTheme(store: map<string, string>): (t: string)
    ensures t != ""
    ensures ThemeKey in store && store[ThemeKey] != "" ==> t == store[ThemeKey]
    ensures ThemeKey !in store || store[ThemeKey] == "" ==> t == DefaultTheme
  {
    if ThemeKey in store && store[ThemeKey] != "" then store[ThemeKey] else DefaultTheme
  }

  /** The theme toggleTheme switches to: "dark" from "light", "light" from anything else. */
  function Toggled(t: string): (r: string)
    ensures r == "light" || r == "dark"
    ensures r != t
    ensures r == "dark" <==> t == "light"
  {
    if t == "light" then "dark" else "light"
  }

  /** Toggling twice restores "light" and "dark", and turns any other theme into "dark". */
  lemma ToggleTwice(t: string)
    ensures t == "light" || t == "dark" ==> Toggled(Toggled(t)) == t
    ensures t != "light" ==> Toggled(Toggled(t)) == "dark"
  {
  }

  /** After the manager has stored its initial theme, a new manager reading the same store starts with that theme. */
  lemma InitialThemePersists(store: map<string, string>)
    ensures InitialTheme(store[ThemeKey := InitialTheme(store)]) == InitialTheme(store)
  {
  }

  /** After a theme t is stored, a new manager starts with it, unless t is empty. */
  lemma StoredThemeRestored(store: map<string, string>, t: string)
    ensures InitialTheme(store[ThemeKey := t]) == (if t == "" then DefaultTheme else t)
  {
  }

  class ThemeManager {
    var currentTheme: string
    /** The document element's data-theme attribute. */
    var dataTheme: string
    /** The preference store. */
    var store: map<string, string>

    /** The attribute and the stored preference both show the current theme. */
    ghost predicate Valid()
      reads this
    {
      dataTheme == currentTheme && ThemeKey in store && store[ThemeKey] == currentTheme
    }

    /** The constructor reads the initial theme from the store and applies it with setTheme. */
    constructor(store0: map<string, string>, dataTheme0: string)
      ensures currentTheme == InitialTheme(store0)
      ensures store == store0[ThemeKey := currentTheme]
      ensures Valid()
    {
      currentTheme := InitialTheme(store0);
      dataTheme := dataTheme0;
      store := store0;
      new;
      SetTheme(currentTheme);
    }

    method SetTheme(theme: string)
      modifies this
      ensures currentTheme == theme && dataTheme == theme
      ensures store == old(store)[ThemeKey := theme]
      ensures Valid()
    {
      dataTheme := theme;
      currentTheme := theme;
      store := store[ThemeKey := theme];
    }

    method ToggleTheme()
      modifies this
      ensures currentTheme == Toggled(old(currentTheme)) && dataTheme == currentTheme
      ensures store == old(store)[ThemeKey := currentTheme]
      ensures Valid()
    {
      SetTheme(Toggled(currentTheme));
    }
  }

  /** Toggling a manager twice brings back the light or dark theme it had and the store it had. */
  method ToggleTwiceRestores(m: ThemeManager)
    requires m.Valid()
    requires m.currentTheme == "light" || m.currentTheme == "dark"
    modifies m
    ensures m.currentTheme == old(m.currentTheme) && m.Valid()
    ensures m.store == old(m.store)
  {
    m.ToggleTheme();
    m.ToggleTheme();
  }
}
