/** The light/dark theme (src/context/ThemeContext.jsx): chosen once on
    mount from the stored preference or the system setting, flipped on
    request, remembered in local storage and reflected by a `dark` class
    on the document root. */
module Theme {
  import opened Common

  const ThemeKey: string := "flashcards-theme"
  const Light: string := "light"
  const Dark: string := "dark"

  predicate IsTheme(t: string) {
    t == Light || t == Dark
  }

  /** The mount effect's choice: a stored "light" or "dark" wins; anything
      else (nothing stored included) defers to the system preference.
      `prefersDark` is `window.matchMedia` being there and the dark
      color-scheme query matching. */
  function InitialTheme(stored: Option<string>, prefersDark: bool): (t: string)
    ensures IsTheme(t)
    ensures stored.Some? && IsTheme(stored.value) ==> t == stored.value
    ensures !(stored.Some? && IsTheme(stored.value)) ==> (t == Dark <==> prefersDark)
  {
    if stored.Some? && IsTheme(stored.value) then stored.value
    else if prefersDark then Dark
    else Light
  }

  /** `prev === 'dark' ? 'light' : 'dark'`. */
  function Toggled(t: string): (r: string)
    ensures IsTheme(r)
    ensures r == Light <==> t == Dark
  {
    if t == Dark then Light else Dark
  }

  /** Toggling twice from a valid theme gives it back; from anything else
      it gives "light". */
  lemma ToggledTwice(t: string)
    ensures IsTheme(t) ==> Toggled(Toggled(t)) == t
    ensures !IsTheme(t) ==> Toggled(Toggled(t)) == Light
  {
  }

  /** A theme that toggling stored is the one the next mount picks,
      whatever the system prefers. */
  lemma StoredThemeRestored(t: string, prefersDark: bool)
    requires IsTheme(t)
    ensures InitialTheme(Some(t), prefersDark) == t
  {
  }

  /** The provider's state together with the two pieces of the browser it
      writes: `storage` stands for `window.localStorage` and `classes` for
      the class list of `document.documentElement` (`hasRoot` false when
      there is no such element). */
  class ThemeProvider {
    var theme: string
    var storage: map<string, string>
    var classes: set<string>
    const hasRoot: bool

    ghost predicate Valid()
      reads this
    {
      IsTheme(theme)
    }

    /** The root carries the `dark` class exactly when the theme is dark. */
    predicate ClassMatches()
      reads this
    {
      hasRoot ==> ("dark" in classes <==> theme == Dark)
    }

    constructor (storage0: map<string, string>, classes0: set<string>, hasRoot0: bool)
      ensures Valid()
      ensures theme == Light && storage == storage0 && classes == classes0 && hasRoot == hasRoot0
    {
      theme := Light;
      storage := storage0;
      classes := classes0;
      hasRoot := hasRoot0;
    }

    /** `applyThemeClass`: adds or removes `dark`, leaving the root's
        other classes alone; nothing happens without a root. */
    method ApplyThemeClass(t: string)
      modifies this
      ensures hasRoot ==> ("dark" in classes <==> t == Dark)
      ensures hasRoot ==> classes - {"dark"} == old(classes) - {"dark"}
      ensures !hasRoot ==> classes == old(classes)
      ensures theme == old(theme) && storage == old(storage)
    {
      if !hasRoot {
        return;
      }
      if t == Dark {
        classes := classes + {"dark"};
      } else {
        classes := classes - {"dark"};
      }
    }

    /** The mount effect. `readable` is false when reading local storage
        throws: the theme then stays as it is and the class is set for
        "light". */
    method Mount(readable: bool, prefersDark: bool)
      requires Valid()
      modifies this
      ensures Valid() && storage == old(storage)
      ensures readable ==>
        theme == InitialTheme(if ThemeKey in storage then Some(storage[ThemeKey]) else None, prefersDark)
      ensures readable ==> ClassMatches()
      ensures !readable ==> theme == old(theme)
      ensures !readable && hasRoot ==> "dark" !in classes
      ensures hasRoot ==> classes - {"dark"} == old(classes) - {"dark"}
      ensures !hasRoot ==> classes == old(classes)
    {
      if !readable {
        ApplyThemeClass(Light);
        return;
      }
      var stored := if ThemeKey in storage then Some(storage[ThemeKey]) else None;
      var initial := InitialTheme(stored, prefersDark);
      theme := initial;
      ApplyThemeClass(initial);
    }

    /** `toggleTheme`. `writable` is false when writing local storage
        throws; the theme changes regardless. */
    method Toggle(writable: bool)
      requires Valid()
      modifies this
      ensures Valid() && ClassMatches()
      ensures theme == Toggled(old(theme))
      ensures writable ==> storage == old(storage)[ThemeKey := theme]
      ensures !writable ==> storage == old(storage)
      ensures hasRoot ==> classes - {"dark"} == old(classes) - {"dark"}
      ensures !hasRoot ==> classes == old(classes)
    {
      var next := Toggled(theme);
      if writable {
        storage := storage[ThemeKey := next];
      }
      ApplyThemeClass(next);
      theme := next;
    }
  }
}
