# FORGE installer and theme manager in Dafny

This project models the decision logic of the FORGE framework's local
installer (`install.js`) and of the website's light/dark `ThemeManager`
(`website/assets/js/theme.js`), and proves properties of both. The model
is written as pure functions over immutable data. File-system and browser
state appear as values, and the clock and user input are parameters.

Modules:

- `Wrappers` holds the `Option` and `Result` types.
- `Text` holds substring search (`String.prototype.includes`) and ASCII lower-casing (`toLowerCase`).
- `Settings` models `setupClaudeSettings`. It takes the parse outcome of
  `.claude/settings.local.json` as a `Json` value and returns the document
  written back and the `added` flag. The JavaScript semantics the merge
  relies on are spelled out:
  - truthiness;
  - strict-mode `TypeError` when assigning to a primitive;
  - substring `includes` on strings;
  - `JSON.stringify` dropping non-index properties of arrays.
- `TreeCopy` models `copyDirectory`:
  - the template is a tree of files and directories;
  - the target file system is a map from paths to nodes;
  - `copyFileSync` stamps the current time, a parameter `now`;
  - `mkdirSync` with `recursive` creates missing ancestors.
- `Installer` models the gating in `run`:
  - the update prompt;
  - which steps run on a fresh install and which on an update;
  - the one-time `initializeForge`, which writes `forge.yaml` and appends the history block to `.gitignore`.
- `Theme` models the `ThemeManager` as a state machine:
  - the current theme, the system preference, the `data-theme` attribute and browser storage;
  - every operation returns the next state and the `themechange` event it dispatches, with the event's `previous` corrected to the theme shown before (see Findings).

Behaviour worth knowing:

- **Duplicates in `allow`.** Duplicates already in `allow` remain; the
  merge only keeps the two required patterns from being added twice.
  `Settings.MergeKeepsAllowPrefix` proves that every old value keeps its
  number of occurrences.
- **No global or CI mode.** `install.js` installs locally only and asks for
  confirmation whenever `.forge` exists.
- **Settings that parse but are not objects.** Only text that does not
  parse is replaced by the default document. A file that parses to `null`,
  a number, a string or a boolean makes the merge throw. A file that parses
  to an array is written back unchanged, and so is one whose `permissions`
  is an array; such documents report added permissions on every run.
- **Re-running the copy.** A second copy changes nothing when every
  template file is older than the first run (`TreeCopy.CopyTwiceChangesNothing`).
  A target file whose time equals its template's is overwritten, because
  the skip test is a strict `>`.

## Model

| member | source | states |
|---|---|---|
| Settings.AppendMissing | install.js:285-290 | the appends only extend the list: the old list is a prefix of the result |
| Settings.MergePermissions | install.js:273-290 | a missing or falsy `permissions` is replaced by a new object and an addition is reported; an array `permissions` is left in place while an addition is reported; the merge throws only for a truthy value that is not an array |
| Settings.AppendMissingIsMissing | install.js:285-290 | with distinct required patterns, the appends leave the old list as it is, followed by exactly the patterns it lacked, in their given order |
| Settings.AppendMissingContainsAll | install.js:285-290 | after the appends every required pattern is in the list |
| Settings.AppendMissingIdempotent | install.js:285-290 | appending a second time adds nothing |
| Settings.AppendMissingCounts | install.js:285-290 | a required pattern the old list lacked occurs exactly once in the result; every other value occurs as often as in the old list |
| Settings.MergeAllow | install.js:277-290 | when `permissions` is an object and the merge assigns it, the new object has the old keys plus `allow`, and every other key keeps its value |
| Settings.MergeInto | install.js:273-293 | a successful merge keeps every top-level key and value other than `permissions` and adds `permissions` if it was absent |
| Settings.MergeSettings | install.js:254-293 | a missing or unparseable file yields a fresh document with only `permissions` and reports an addition; an object is merged; `null` and primitives fail |
| Settings.MergeConforming | install.js:273-290 | a document whose `permissions` and `allow` are absent, falsy or of the expected kinds merges without error; its `allow` becomes the old list plus the missing patterns; `added` holds exactly when a pattern was missing; the rest of `permissions`, `deny` included, is kept |
| Settings.MergeKeepsAllowPrefix | install.js:277-290 | the old `allow` list is a prefix of the new one, both patterns are present, and no old entry gains or loses occurrences |
| Settings.MergedShape | install.js:273-293 | the merged document again has the expected shape, and its `allow` list is the one the appends produced |
| Settings.MergeFixedPoint | install.js:281-293 | a document that already lists both patterns is written back unchanged, with `added` false |
| Settings.MergeIdempotent | install.js:251-300 | for a document of the expected shape, merging the output of a merge gives the identical document and reports nothing added |
| Settings.MergeStable | install.js:273-293 | for every document the merge accepts, merging its output again gives the same document; the second merge reports an addition exactly when `permissions` is an array |
| Settings.MergeFromNothing | install.js:256-293 | without a usable file the written document is exactly `{permissions: {allow: [both patterns], deny: []}}`, and an addition is reported |
| Settings.ArraysAreWrittenUnchanged | install.js:273-293 | an array document, or an array `permissions`, is written back unchanged while every run reports an addition |
| Settings.StringAllowIsSearched | install.js:277-290 | a non-empty string `allow` succeeds, changing nothing, exactly when both patterns occur in it as substrings; otherwise the merge throws |
| Settings.PrimitivesThrow | install.js:273-290 | a truthy primitive `permissions`, or a truthy `allow` that is neither an array nor a string, makes the merge throw |
| TreeCopy.MakeDirs | install.js:160-162 | a successful recursive `mkdir` leaves the path a directory, keeps every existing node, and adds only directories on the path's ancestry |
| TreeCopy.CopyFile | install.js:176 | a file copy succeeds exactly when the parent is a directory and the target is not one; the target then holds the bytes with the current time, and nothing else changes |
| TreeCopy.CopyDirectory | install.js:148-149 | a missing source changes nothing |
| TreeCopy.CopyNodeSpec | install.js:153-178 | copying one entry, recursively, meets the path-by-path description: files copied or kept, directories present, nothing outside the copied paths altered |
| TreeCopy.CopyEntriesSpec | install.js:153-178 | copying a directory listing entry by entry meets the same description for the whole listing |
| TreeCopy.CopyDirectoryMeetsSpec | install.js:148-179 | after a successful copy every template directory exists at its target path, every template file is copied or kept, and every other path is as it was |
| TreeCopy.CopyRespectsLocalChanges | install.js:164-176 | a target file strictly newer than its template file keeps its contents and time; any other is overwritten with the template bytes and the current time |
| TreeCopy.CopyDirectorySucceeds | install.js:148-179 | copying into an existing directory whose contents agree in kind with the template does not fail |
| TreeCopy.CopyTwiceChangesNothing | install.js:148-179 | once a copy has succeeded later than every template file's time, copying again at any time changes nothing |
| Installer.ConfirmedAnswers | install.js:46-47 | an update proceeds exactly on the answers `y` and `Y` |
| Installer.IgnoreHistory | install.js:225-236 | the result contains `.forge/history` and extends the old text (empty if missing); it is the old text if the marker was there, and the old text plus the history block otherwise |
| Installer.IgnoreHistoryIdempotent | install.js:231-236 | appending the history block twice gives the same text as once |
| Installer.ConfigText | install.js:210-221 | the default configuration declares `installation: local` |
| Installer.Initialize | install.js:207-237 | the configuration written declares `installation: local`; `.gitignore` extends the old text and ignores the history directory; `.forge` and the settings are untouched |
| Installer.Run | install.js:37-89 | the run is cancelled exactly when `.forge` exists and the answer does not confirm; an existing `forge.yaml` is never changed; on a fresh install without `forge.yaml`, and only then, `forge.yaml` gets the default configuration and `.gitignore` the history block; otherwise neither changes; a run that is not cancelled fails exactly when the settings merge throws, and otherwise writes the merged settings document, on fresh installs and updates alike |
| Installer.FreshInstall | install.js:70-73 | a fresh install from a missing settings file or a document of the expected shape writes the configuration, ignores the history directory and lists both permissions |
| Installer.RerunChangesNothing | install.js:41-73 | after any successful install, a confirmed second run leaves configuration, `.gitignore` and settings identical, whatever shape of settings document the first run accepted |
| Theme.Store | website/assets/js/theme.js:119-125 | writing to available storage records the theme; unavailable storage stays unavailable |
| Theme.Validate | website/assets/js/theme.js:133-137 | the applied theme is light or dark; it equals the requested one exactly when that one is valid, and is light otherwise |
| Theme.SetThemeAsWritten | website/assets/js/theme.js:132-158 | as written, the event's `previous` always equals the new theme |
| Theme.AsWrittenLosesPrevious | website/assets/js/theme.js:291-294 | switching from light to dark announces a `previous` different from the theme shown before |
| Theme.SetTheme | website/assets/js/theme.js:132-158 | corrected `setTheme` (see Findings): the validated theme becomes current and the `data-theme` attribute; storage is written only when asked; the system preference is kept; the event carries the new theme and, unlike line 293, the theme shown before the call |
| Theme.SetThemeCorrectsOnlyPrevious | website/assets/js/theme.js:291-294 | the corrected `setTheme` differs from the one as written only in the event's `previous` field |
| Theme.Toggle | website/assets/js/theme.js:163-166 | light becomes dark, anything else becomes light, the choice is stored, and on a valid theme dark mode flips |
| Theme.Choose | website/assets/js/theme.js:322 | an explicit valid choice is shown, an invalid one shows light, and the shown theme is stored |
| Theme.ToggleLabel | website/assets/js/theme.js:255-257 | the button label is one of the two switch texts |
| Theme.LabelOffersOtherTheme | website/assets/js/theme.js:252-261 | on a started manager the button offers light exactly in dark mode, and dark otherwise |
| Theme.Preference | website/assets/js/theme.js:54-60 | the detected preference is dark exactly when `matchMedia` exists and the dark query matches |
| Theme.DetectSystemPreference | website/assets/js/theme.js:54-61 | detection sets only the system preference |
| Theme.SetInitialTheme | website/assets/js/theme.js:95-100 | a non-empty stored value decides the initial theme, else the system preference; storage is not written |
| Theme.Start | website/assets/js/theme.js:22-38 | construction yields a manager with a valid theme, matching attribute and detected preference; storage is untouched; with the corrected event, `previous` is null (the page as written sends the initial theme, see Theme.StartAsWrittenRepeatsTheme) |
| Theme.StartAsWrittenRepeatsTheme | website/assets/js/theme.js:22-38 | the constructor as written reaches the same state as Theme.Start and dispatches the initial theme as both `theme` and `previous` |
| Theme.SystemPreferenceChanged | website/assets/js/theme.js:72-86 | a preference change always updates the recorded preference and never writes storage; with a stored choice nothing else changes and no event fires, otherwise the theme follows the preference |
| Theme.OperationsPreserveValid | website/assets/js/theme.js:132-166 | toggling, choosing, re-initialising and preference changes keep the theme valid and the attribute equal to it |
| Theme.ToggleTwiceRestores | website/assets/js/theme.js:163-166 | toggling twice restores a valid theme |
| Theme.ChoiceOutlastsSystemChange | website/assets/js/theme.js:72-78 | after a toggle or explicit choice with storage available, system preference changes leave the theme alone |
| Theme.FollowsSystemWithoutChoice | website/assets/js/theme.js:72-78 | without a stored choice the theme becomes dark exactly when the system turns dark |
| Theme.ChoiceSurvivesReload | website/assets/js/theme.js:95-100 | a later page load shows the theme last toggled to or chosen, whatever the system preference then |
| Theme.NoStorageFollowsSystem | website/assets/js/theme.js:106-113 | without storage a page load shows the system preference |

## Findings

| source | as written | input that shows it | evidently intended | confidence | as-written member | corrected member |
|---|---|---|---|---|---|---|
| website/assets/js/theme.js:291-294 | the event's `previous` reads `currentTheme` after `setTheme` has already assigned the new theme (line 140) | `setTheme('dark')` while light is shown dispatches `{theme: 'dark', previous: 'dark'}` | `previous` is the theme shown before the call | high; not executed | Theme.AsWrittenLosesPrevious | Theme.SetThemeCorrectsOnlyPrevious |

## Left out

- The other steps of `run` are not modelled, and `Installer.Run` does not include the tree copies:
  - reading and writing real files;
  - console logging;
  - `createDirectories`;
  - `createForgeScript` (copy, `chmod`, regular-expression rewrite);
  - `copyMCPRegistry`;
  - `process.exit`.

  The copies are modelled separately by `TreeCopy.CopyDirectory`.
- Partial effects of a failed run are not modelled. A run that throws is `Failed`, with no resulting state.
- `getVersion` reads `package.json`. The version is a parameter of `Installer.ConfigText`.
- The project name comes from `path.basename`. It is a parameter.
- The prompt's readline I/O is not modelled. The answer typed is a parameter.
- JSON text (parsing, `JSON.stringify` layout) and the key order of objects are not modelled. `Settings.Json` objects are maps, and the merge starts from the parse outcome.
- Numbers in JSON are reals. Only their truthiness is used.
- Text.ToLower: only ASCII letters are lower-cased. `toLowerCase` maps no character other than `Y` and `y` to `y`, so the update gating is unaffected.
- Directory modification times are recorded when a directory is created but not refreshed when entries are added. A directory's time is read only where the directory stands at a template file's target path; the copy never adds entries below such a path, so the times that are not refreshed change no result.
- TreeCopy.CopyFile: the target gets the current time, as `copyFileSync` does on Linux. A platform whose file copy may also carry over the source's times (macOS, through `copyfile`) is not modelled.
- Symbolic links, permissions and `statSync` details other than the file/directory distinction and the modification time are not modelled.
- The DOM side of the theme manager is not modelled:
  - creating and placing the toggle button;
  - its click and key handlers (they call `toggleTheme`, which is modelled);
  - the screen-reader announcement and its timer;
  - `DOMContentLoaded`.
- Registering the preference listener (`watchSystemPreference`) is not modelled. Its handler is `Theme.SystemPreferenceChanged`. On a browser without `matchMedia` the handler is never registered; callers simply do not invoke it.
- Console warnings from `setTheme` and the storage accessors are not modelled.
- `getCurrentTheme` and `isDarkMode` are plain reads. `isDarkMode` is the predicate `Theme.IsDarkMode`, used in the contracts of `Theme.Toggle`, `Theme.LabelOffersOtherTheme` and `Theme.FollowsSystemWithoutChoice`.
- A value passed to `setTheme` that is not a string is modelled as `None`. It is invalid either way.
- Theme.SetTheme: its event reports the theme shown before the call, as the field's name promises. The code sends the new theme instead; Theme.SetThemeAsWritten models that, and Theme.SetThemeCorrectsOnlyPrevious proves the two agree on everything else.
- Theme.Toggle: built on the corrected Theme.SetTheme, so its event's `previous` is the theme shown before; as written the event repeats the new theme as `previous`. The state is the same either way.
- Theme.Choose: built on the corrected Theme.SetTheme, so its event's `previous` is the theme shown before; as written the event repeats the new theme as `previous`. The state is the same either way.
- Theme.SetInitialTheme: built on the corrected Theme.SetTheme, so its event's `previous` is the theme shown before; as written the event repeats the new theme as `previous`. The state is the same either way.
- Theme.SystemPreferenceChanged: built on the corrected Theme.SetTheme, so its event's `previous` is the theme shown before; as written the event repeats the new theme as `previous`. The state is the same either way.
- Theme.Start: its event has `previous` null, the corrected value. As written, the constructor sends the initial theme; Theme.StartAsWrittenRepeatsTheme states this.
