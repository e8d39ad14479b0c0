/**
 * The theme hook: the theme comes from storage when a valid one is stored, else from the
 * system colour-scheme preference; every theme change is applied to the document and written
 * to storage; a toggle flips it; and a change of the system preference is followed only
 * when no valid theme is stored. Storage is a map from key to string. Server rendering
 * (no `window`) is left out.
 */
module Theme {
  import opened Wrappers

  datatype ThemeMode = Light | Dark

  const THEME_STORAGE_KEY: string := "theme"

  function Name(t: ThemeMode): string {
    match t
    case Light => "light"
    case Dark => "dark"
  }

  function Flip(t: ThemeMode): ThemeMode {
    if t == Dark then Light else Dark
  }

  /** `getStoredTheme`: only the exact strings "dark" and "light" are accepted. */
  function StoredTheme(storage: map<string, string>): (r: Option<ThemeMode>)
    ensures r.Some? <==> THEME_STORAGE_KEY in storage && (storage[THEME_STORAGE_KEY] == "dark" || storage[THEME_STORAGE_KEY] == "light")
    ensures r.Some? ==> Name(r.value) == storage[THEME_STORAGE_KEY]
  {
    if THEME_STORAGE_KEY !in storage then None
    else if storage[THEME_STORAGE_KEY] == "dark" then Some(Dark)
    else if storage[THEME_STORAGE_KEY] == "light" then Some(Light)
    else None
  }

  /** `getPreferredTheme`. */
  function Preferred(prefersDark: bool): ThemeMode {
    if prefersDark then Dark else Light
  }

  /** The initial state: the stored theme, else the system preference. */
  function InitialTheme(storage: map<string, string>, prefersDark: bool): (r: ThemeMode)
    ensures StoredTheme(storage).Some? ==> r == StoredTheme(storage).value
    ensures StoredTheme(storage).None? ==> r == Preferred(prefersDark)
  {
    StoredTheme(storage).GetOr(Preferred(prefersDark))
  }

  /** The hook's state together with what it drives: storage and the document's dark class. */
  datatype Env = Env(theme: ThemeMode, storage: map<string, string>, documentDark: bool)

  /** Storage and the document agree with the theme. */
  predicate Consistent(env: Env) {
    && THEME_STORAGE_KEY in env.storage
    && env.storage[THEME_STORAGE_KEY] == Name(env.theme)
    && env.documentDark == (env.theme == Dark)
  }

  /** The persist effect, run after the first render and after each theme change. */
  function Persist(theme: ThemeMode, storage: map<string, string>): (r: Env)
    ensures Consistent(r) && r.theme == theme
    ensures forall k :: k in storage && k != THEME_STORAGE_KEY ==> k in r.storage && r.storage[k] == storage[k]
  {
    Env(theme, storage[THEME_STORAGE_KEY := Name(theme)], theme == Dark)
  }

  /** `setTheme`: React skips the effect when the theme does not change. */
  function SetTheme(env: Env, theme: ThemeMode): (r: Env)
    ensures r.theme == theme
    ensures theme != env.theme ==> Consistent(r)
  {
    if theme == env.theme then env else Persist(theme, env.storage)
  }

  /** The first render followed by the persist effect. */
  function Mount(storage: map<string, string>, prefersDark: bool): (r: Env)
    ensures Consistent(r)
    ensures r.theme == InitialTheme(storage, prefersDark)
  {
    Persist(InitialTheme(storage, prefersDark), storage)
  }

  /** `toggleTheme`. */
  function Toggle(env: Env): (r: Env)
    ensures r.theme != env.theme
    ensures Consistent(r)
  {
    SetTheme(env, Flip(env.theme))
  }

  /** The media-change handler: with a valid stored theme only the document is updated;
      otherwise the state follows the new preference. */
  function MediaChange(env: Env, matches: bool): (r: Env)
    ensures StoredTheme(env.storage).Some? ==> r.theme == env.theme && r.storage == env.storage
    ensures StoredTheme(env.storage).None? ==> r.theme == Preferred(matches)
  {
    match StoredTheme(env.storage)
    case Some(stored) => env.(documentDark := stored == Dark)
    case None => SetTheme(env, Preferred(matches))
  }

  /** Toggling twice gives back the same state, storage and document. */
  lemma ToggleTwice(env: Env)
    requires Consistent(env)
    ensures Toggle(Toggle(env)) == env
  {
    assert env.storage[THEME_STORAGE_KEY := Name(env.theme)] == env.storage;
  }

  /** Toggling, and a change of the system preference, keep storage and the document in
      step with the theme. */
  lemma StepsStayConsistent(env: Env, matches: bool)
    requires Consistent(env)
    ensures Consistent(Toggle(env))
    ensures Consistent(MediaChange(env, matches))
  {
  }

  /** As written: once mounted, the state never follows the system preference, since the
      persist effect has already stored a valid theme. */
  lemma MediaChangeIgnoredAfterMount(storage: map<string, string>, prefersDark: bool, matches: bool)
    ensures MediaChange(Mount(storage, prefersDark), matches) == Mount(storage, prefersDark)
  {
  }

  /** The case that shows it: nothing stored, the system was light at load and turns dark,
      and the theme stays light. */
  lemma SystemSwitchIgnored()
    ensures Mount(map[], false).theme == Light
    ensures MediaChange(Mount(map[], false), true).theme == Light
  {
    MediaChangeIgnoredAfterMount(map[], false, true);
  }

  /** Corrected: the first render applies the theme to the document without storing it, and
      only an explicit toggle stores a choice. */
  function MountFollowingSystem(storage: map<string, string>, prefersDark: bool): (r: Env)
    ensures r.theme == InitialTheme(storage, prefersDark)
    ensures r.storage == storage
    ensures r.documentDark == (r.theme == Dark)
  {
    var theme := InitialTheme(storage, prefersDark);
    Env(theme, storage, theme == Dark)
  }

  /** Corrected media handling: a preference change is followed, and applied to the document,
      without storing anything. */
  function MediaChangeFollowingSystem(env: Env, matches: bool): (r: Env)
    ensures StoredTheme(env.storage).Some? ==> r.theme == env.theme
    ensures StoredTheme(env.storage).None? ==> r.theme == Preferred(matches) && r.documentDark == (r.theme == Dark)
    ensures r.storage == env.storage
  {
    match StoredTheme(env.storage)
    case Some(stored) => env.(documentDark := stored == Dark)
    case None => Env(Preferred(matches), env.storage, matches)
  }

  /** With nothing stored, the corrected hook follows every preference change until the user
      toggles; after a toggle the choice is stored and preference changes no longer move it. */
  lemma CorrectedFollowsSystemUntilToggle(storage: map<string, string>, prefersDark: bool, matches: bool, later: bool)
    requires StoredTheme(storage).None?
    ensures var env := MediaChangeFollowingSystem(MountFollowingSystem(storage, prefersDark), matches);
            && env.theme == Preferred(matches)
            && StoredTheme(env.storage).None?
            && MediaChangeFollowingSystem(Toggle(env), later).theme == Flip(Preferred(matches))
  {
  }
}
