/** The website's `ThemeManager`: the current light/dark theme, the operating
    system's colour-scheme preference, the `data-theme` attribute of the
    document and the preference kept in browser storage. Every operation is a
    pure step from one manager state to the next, together with the
    `themechange` event it dispatches, if any.
 */
module Theme {
  import opened Wrappers

  const Light: string := "light"
  const Dark: string := "dark"

  /** `Object.values(THEMES).includes(theme)`; a value that is not a string is None. */
  predicate IsTheme(theme: Option<string>) {
    theme == Some(Light) || theme == Some(Dark)
  }

  /** Browser storage under the key `forge-theme`. When storage is unavailable
      every access throws, reads are caught and answer null, writes are caught
      and lost. */
  datatype Storage = Unavailable | Available(item: Option<string>)

  /** What `getStoredTheme` answers. */
  function StoredTheme(storage: Storage): Option<string> {
    if storage.Available? then storage.item else None
  }

  /** The JavaScript truthiness of the stored value: null and "" are falsy. */
  predicate HasStoredChoice(storage: Storage) {
    var stored := StoredTheme(storage);
    stored.Some? && stored.value != ""
  }

  /** `storeTheme`: a failed write leaves the storage as it was. */
  function Store(storage: Storage, theme: string): (r: Storage)
    ensures r.Available? <==> storage.Available?
    ensures r.Available? ==> StoredTheme(r) == Some(theme)
  {
    if storage.Available? then Available(Some(theme)) else Unavailable
  }

  datatype Manager = Manager(
    current: Option<string>,           // `currentTheme`
    systemPreference: Option<string>,  // `systemPreference`
    attribute: Option<string>,         // `data-theme` on the document element
    storage: Storage)

  /** The detail of a `themechange` event. */
  datatype ThemeChange = ThemeChange(theme: string, previous: Option<string>)

  /** The state after an operation and the event it dispatched, if any. */
  datatype Step = Step(manager: Manager, event: Option<ThemeChange>)

  /** A manager after construction: a valid theme is shown, the attribute
      agrees with it and the system preference has been detected. */
  predicate Valid(m: Manager) {
    && IsTheme(m.current)
    && m.attribute == m.current
    && IsTheme(m.systemPreference)
  }

  /** The theme `setTheme` applies: the requested one if valid, else light. */
  function Validate(theme: Option<string>): (r: string)
    ensures IsTheme(Some(r))
    ensures IsTheme(theme) <==> Some(r) == theme
    ensures !IsTheme(theme) ==> r == Light
  {
    if IsTheme(theme) then theme.value else Light
  }

  // ---------------------------------------------------------------------------
  // setTheme

  /** `setTheme` as written: the event is built after `currentTheme` has been
      assigned, so its `previous` field holds the new theme. */
  function SetThemeAsWritten(m: Manager, theme: Option<string>, store: bool): (r: Step)
    ensures r.event.Some? && r.event.value.previous == Some(r.event.value.theme)
  {
    var applied := Validate(theme);
    var m1 := m.(current := Some(applied), attribute := Some(applied));
    var m2 := if store then m1.(storage := Store(m1.storage, applied)) else m1;
    Step(m2, Some(ThemeChange(applied, m2.current)))
  }

  /** Switching from light to dark announces light-to-dark as dark-to-dark. */
  lemma AsWrittenLosesPrevious()
    ensures var m := Manager(Some(Light), Some(Light), Some(Light), Available(None));
      var r := SetThemeAsWritten(m, Some(Dark), true);
      r.event.value.previous != m.current
  {
  }

  /** `setTheme(theme, store)` with the event reporting the theme that was
      shown before the call. The rest of the model uses this definition. */
  function SetTheme(m: Manager, theme: Option<string>, store: bool): (r: Step)
    ensures r.manager.current == Some(Validate(theme))
    ensures r.manager.attribute == r.manager.current
    ensures r.manager.systemPreference == m.systemPreference
    ensures store ==> r.manager.storage == Store(m.storage, Validate(theme))
    ensures !store ==> r.manager.storage == m.storage
    ensures r.event == Some(ThemeChange(Validate(theme), m.current))
    ensures IsTheme(m.systemPreference) ==> Valid(r.manager)
  {
    var applied := Validate(theme);
    var m1 := m.(current := Some(applied), attribute := Some(applied));
    var m2 := if store then m1.(storage := Store(m1.storage, applied)) else m1;
    Step(m2, Some(ThemeChange(applied, m.current)))
  }

  /** The corrected event differs from the one as written only in `previous`. */
  lemma SetThemeCorrectsOnlyPrevious(m: Manager, theme: Option<string>, store: bool)
    ensures SetTheme(m, theme, store).manager == SetThemeAsWritten(m, theme, store).manager
    ensures SetTheme(m, theme, store).event.value.theme == SetThemeAsWritten(m, theme, store).event.value.theme
    ensures SetTheme(m, theme, store).event.value.previous == m.current
  {
  }

  // ---------------------------------------------------------------------------
  // The public operations

  /** `toggleTheme`: dark after light, light after anything else; the choice is stored. */
  function Toggle(m: Manager): (r: Step)
    ensures m.current == Some(Light) ==> r.manager.current == Some(Dark)
    ensures m.current != Some(Light) ==> r.manager.current == Some(Light)
    ensures m.storage.Available? ==> StoredTheme(r.manager.storage) == r.manager.current
    ensures IsTheme(m.current) ==> (IsDarkMode(r.manager) <==> !IsDarkMode(m))
  {
    var next := if m.current == Some(Light) then Dark else Light;
    SetTheme(m, Some(next), true)
  }

  /** `window.ForgeTheme.setTheme`: an explicit choice, always stored. */
  function Choose(m: Manager, theme: Option<string>): (r: Step)
    ensures IsTheme(theme) ==> r.manager.current == theme
    ensures !IsTheme(theme) ==> r.manager.current == Some(Light)
    ensures m.storage.Available? ==> StoredTheme(r.manager.storage) == r.manager.current
  {
    SetTheme(m, theme, true)
  }

  /** `isDarkMode`. */
  predicate IsDarkMode(m: Manager) {
    m.current == Some(Dark)
  }

  /** The `aria-label` and `title` of the toggle button. */
  function ToggleLabel(current: Option<string>): (r: string)
    ensures r == "Switch to dark mode" || r == "Switch to light mode"
  {
    if current == Some(Light) then "Switch to dark mode" else "Switch to light mode"
  }

  /** On a valid manager the button offers the theme that is not shown. */
  lemma LabelOffersOtherTheme(m: Manager)
    requires Valid(m)
    ensures ToggleLabel(m.current) == "Switch to light mode" <==> IsDarkMode(m)
    ensures ToggleLabel(m.current) == "Switch to dark mode" <==> !IsDarkMode(m)
  {
  }

  // ---------------------------------------------------------------------------
  // Start-up and the system preference

  /** The preference a `(prefers-color-scheme: dark)` query reports;
      `matchMedia` is None where the browser has no `matchMedia`. */
  function Preference(matchMedia: Option<bool>): (r: string)
    ensures IsTheme(Some(r))
    ensures r == Dark <==> matchMedia == Some(true)
  {
    if matchMedia == Some(true) then Dark else Light
  }

  /** `detectSystemPreference`. */
  function DetectSystemPreference(m: Manager, matchMedia: Option<bool>): (r: Manager)
    ensures r.systemPreference == Some(Preference(matchMedia))
    ensures r.current == m.current && r.attribute == m.attribute && r.storage == m.storage
  {
    m.(systemPreference := Some(Preference(matchMedia)))
  }

  /** `setInitialTheme`: the stored choice if there is one, else the system
      preference; nothing is written to storage. */
  function SetInitialTheme(m: Manager): (r: Step)
    ensures HasStoredChoice(m.storage) ==> r.manager.current == Some(Validate(StoredTheme(m.storage)))
    ensures !HasStoredChoice(m.storage) ==> r.manager.current == Some(Validate(m.systemPreference))
    ensures r.manager.storage == m.storage
  {
    var initial := if HasStoredChoice(m.storage) then StoredTheme(m.storage) else m.systemPreference;
    SetTheme(m, initial, false)
  }

  /** The constructor: fields start null, then the system preference is
      detected and the initial theme is set. */
  function Start(storage: Storage, matchMedia: Option<bool>): (r: Step)
    ensures Valid(r.manager)
    ensures r.manager.storage == storage
    ensures r.manager.systemPreference == Some(Preference(matchMedia))
    ensures r.event == Some(ThemeChange(r.manager.current.value, None))
  {
    var m := DetectSystemPreference(Manager(None, None, None, storage), matchMedia);
    SetInitialTheme(m)
  }

  /** The `change` listener of the colour-scheme query: the preference is
      always updated; the theme follows it only when no choice is stored, and
      storage is never written. */
  function SystemPreferenceChanged(m: Manager, matches: bool): (r: Step)
    ensures r.manager.systemPreference == Some(Preference(Some(matches)))
    ensures r.manager.storage == m.storage
    ensures HasStoredChoice(m.storage) ==> r == Step(m.(systemPreference := r.manager.systemPreference), None)
    ensures !HasStoredChoice(m.storage) ==> r.manager.current == r.manager.systemPreference && r.event.Some?
  {
    var m1 := m.(systemPreference := Some(Preference(Some(matches))));
    if HasStoredChoice(m1.storage) then Step(m1, None)
    else SetTheme(m1, m1.systemPreference, false)
  }

  /** The constructor as written reaches the same state as `Start`, but
      announces the initial theme as its own `previous`. */
  lemma StartAsWrittenRepeatsTheme(storage: Storage, matchMedia: Option<bool>)
    ensures var m := DetectSystemPreference(Manager(None, None, None, storage), matchMedia);
      var initial := if HasStoredChoice(storage) then StoredTheme(storage) else m.systemPreference;
      var r := Start(storage, matchMedia);
      SetThemeAsWritten(m, initial, false) == Step(r.manager, Some(ThemeChange(r.manager.current.value, r.manager.current)))
  {
  }

  // ---------------------------------------------------------------------------
  // Lemmas relating the operations

  /** Every operation keeps a started manager valid. */
  lemma OperationsPreserveValid(m: Manager, theme: Option<string>, matches: bool)
    requires Valid(m)
    ensures Valid(Toggle(m).manager)
    ensures Valid(Choose(m, theme).manager)
    ensures Valid(SetInitialTheme(m).manager)
    ensures Valid(SystemPreferenceChanged(m, matches).manager)
  {
  }

  /** Toggling twice shows the theme that was shown before. */
  lemma ToggleTwiceRestores(m: Manager)
    requires IsTheme(m.current)
    ensures Toggle(Toggle(m).manager).manager.current == m.current
  {
  }

  /** After the user toggles or chooses a theme, changes of the system
      preference no longer alter the theme shown. */
  lemma ChoiceOutlastsSystemChange(m: Manager, theme: Option<string>, matches: bool)
    requires m.storage.Available?
    ensures var t := Toggle(m).manager;
      SystemPreferenceChanged(t, matches).manager.current == t.current
    ensures var c := Choose(m, theme).manager;
      SystemPreferenceChanged(c, matches).manager.current == c.current
  {
  }

  /** Without a stored choice the theme follows the system preference. */
  lemma FollowsSystemWithoutChoice(m: Manager, matches: bool)
    requires !HasStoredChoice(m.storage)
    ensures SystemPreferenceChanged(m, matches).manager.current == Some(Preference(Some(matches)))
    ensures IsDarkMode(SystemPreferenceChanged(m, matches).manager) <==> matches
  {
  }

  /** A later page load shows the theme the user last toggled to or chose,
      whatever the system preference is then. */
  lemma ChoiceSurvivesReload(m: Manager, theme: Option<string>, matchMedia: Option<bool>)
    requires m.storage.Available?
    ensures var t := Toggle(m).manager;
      Start(t.storage, matchMedia).manager.current == t.current
    ensures var c := Choose(m, theme).manager;
      Start(c.storage, matchMedia).manager.current == c.current
  {
  }

  /** With storage unavailable no choice is remembered: a page load shows the
      system preference. */
  lemma NoStorageFollowsSystem(matchMedia: Option<bool>)
    ensures Start(Unavailable, matchMedia).manager.current == Some(Preference(matchMedia))
  {
  }
}
