/** The decisions of the installer's `run`: whether an existing installation is
    updated, which steps run, and the one-time initialisation that writes
    `forge.yaml` and appends the history block to `.gitignore`. The project's
    files are abstracted to what those decisions read and write; the tree
    copies are modelled separately (module TreeCopy).
 */
module Installer {
  import opened Wrappers
  import Text
  import Settings

  // ---------------------------------------------------------------------------
  // The update prompt

  /** `response.toLowerCase() === 'y'`: the answer that lets an update proceed. */
  predicate Confirmed(answer: string) {
    Text.ToLower(answer) == "y"
  }

  /** Exactly the answers `y` and `Y` confirm an update. */
  lemma ConfirmedAnswers(answer: string)
    ensures Confirmed(answer) <==> answer == "y" || answer == "Y"
  {
    if |answer| == 1 {
      assert Text.ToLower(answer) == [Text.LowerChar(answer[0])];
      if Text.LowerChar(answer[0]) == 'y' {
        assert answer[0] == 'y' || answer[0] == 'Y';
        assert answer == [answer[0]];
      }
    } else {
      assert |Text.ToLower(answer)| != 1;
    }
  }

  // ---------------------------------------------------------------------------
  // The .gitignore block

  /** The text whose presence means history is already ignored. */
  const HistoryMarker: string := ".forge/history"

  /** The block appended when the marker is absent. */
  const HistoryBlock: string := "\n# FORGE history\n.forge/history/\n"

  /** The `.gitignore` part of `initializeForge`: a missing file is first
      created empty, then the block is appended unless the marker occurs. */
  function IgnoreHistory(gitignore: Option<string>): (r: string)
    ensures Text.Contains(r, HistoryMarker)
    ensures gitignore.GetOr("") <= r
    ensures Text.Contains(gitignore.GetOr(""), HistoryMarker) ==> r == gitignore.GetOr("")
    ensures !Text.Contains(gitignore.GetOr(""), HistoryMarker) ==> r == gitignore.GetOr("") + HistoryBlock
  {
    var text := gitignore.GetOr("");
    if Text.Contains(text, HistoryMarker) then text
    else
      assert HistoryBlock[17..17 + |HistoryMarker|] == HistoryMarker;
      Text.ContainsAt(text, HistoryBlock, 17, HistoryMarker);
      text + HistoryBlock
  }

  /** Applying the append twice gives the same text as applying it once. */
  lemma IgnoreHistoryIdempotent(gitignore: Option<string>)
    ensures IgnoreHistory(Some(IgnoreHistory(gitignore))) == IgnoreHistory(gitignore)
  {
  }

  // ---------------------------------------------------------------------------
  // forge.yaml

  /** The default `forge.yaml`; the version comes from the installer's
      `package.json`, which is not part of this model. */
  function ConfigText(projectName: string, version: string): (r: string)
    ensures Text.Contains(r, "installation: local")
  {
    var head := "# FORGE Framework Configuration\nproject: " + projectName
      + "\nmode: conversational\nai:\n  primary: claude\n  model: sonnet\n\n# Local installation\n";
    var tail := "installation: local\nversion: " + version + "\n";
    assert tail[..19] == "installation: local";
    Text.ContainsAt(head, tail, 0, "installation: local");
    head + tail
  }

  // ---------------------------------------------------------------------------
  // The run

  /** What `run` reads and writes in the target directory. */
  datatype Project = Project(
    forgeDir: bool,                      // `.forge` exists
    config: Option<string>,              // `forge.yaml`
    gitignore: Option<string>,           // `.gitignore`
    settings: Option<Settings.Json>)     // `.claude/settings.local.json` as parsed; None if missing or unparseable

  datatype Outcome =
    | Cancelled               // the update was declined; nothing changed
    | Failed                  // an error was thrown; the process exits with status 1
    | Installed(project: Project)

  /** `initializeForge`: writes the default configuration and makes sure the
      history directory is ignored by git. */
  function Initialize(p: Project, projectName: string, version: string): (r: Project)
    ensures r.config.Some? && Text.Contains(r.config.value, "installation: local")
    ensures r.gitignore.Some? && Text.Contains(r.gitignore.value, HistoryMarker)
    ensures p.gitignore.GetOr("") <= r.gitignore.value
    ensures r.forgeDir == p.forgeDir && r.settings == p.settings
  {
    var config := ConfigText(projectName, version);
    var gitignore := IgnoreHistory(p.gitignore);
    Project(p.forgeDir, Some(config), Some(gitignore), p.settings)
  }

  /** `run` for a target directory in state `p`. `answer` is the line typed at
      the update prompt (asked only when `.forge` exists). */
  function Run(p: Project, answer: string, projectName: string, version: string): (r: Outcome)
    ensures r.Cancelled? <==> p.forgeDir && !Confirmed(answer)
    ensures r.Installed? ==> r.project.forgeDir && r.project.settings.Some?
    ensures r.Failed? ==>
      && p.settings.Some? && !p.settings.value.Arr?
      && (p.settings.value.Obj? ==> Settings.MergeInto(p.settings.value.fields).Err?)
    ensures r.Installed? && p.config.Some? ==> r.project.config == p.config
    ensures r.Installed? ==> (r.project.config != p.config <==> !p.forgeDir && p.config.None?)
    ensures r.Installed? && (p.forgeDir || p.config.Some?) ==> r.project.gitignore == p.gitignore
    ensures !r.Cancelled? ==> (r.Failed? <==> Settings.MergeSettings(p.settings).Err?)
    ensures r.Installed? ==> r.project.settings == Some(Settings.MergeSettings(p.settings).value.document)
    ensures r.Installed? && !p.forgeDir && p.config.None? ==>
      && r.project.config == Some(ConfigText(projectName, version))
      && r.project.gitignore == Some(IgnoreHistory(p.gitignore))
  {
    var isUpdate := p.forgeDir;
    if isUpdate && !Confirmed(answer) then Cancelled
    else
      var merged := Settings.MergeSettings(p.settings);
      if merged.Err? then Failed
      else
        var p1 := p.(forgeDir := true, settings := Some(merged.value.document));
        if !isUpdate && p.config.None? then
          Installed(Initialize(p1, projectName, version))
        else
          Installed(p1)
  }

  /** The settings file is missing or unparseable, or an object of the shape
      the merge expects. */
  predicate ConformingSettings(p: Project) {
    p.settings.None? || (p.settings.value.Obj? && Settings.Conforming(p.settings.value.fields))
  }

  /** A fresh installation writes the configuration and the `.gitignore` block
      and guarantees both permissions. */
  lemma FreshInstall(p: Project, projectName: string, version: string)
    requires !p.forgeDir && p.config.None? && ConformingSettings(p)
    ensures var r := Run(p, "", projectName, version);
      && r.Installed?
      && r.project.config == Some(ConfigText(projectName, version))
      && Text.Contains(r.project.gitignore.value, HistoryMarker)
      && r.project.settings.Some? && r.project.settings.value.Obj?
      && var allow := r.project.settings.value.fields["permissions"].fields["allow"].items;
      && forall perm :: perm in Settings.ForgePermissions ==> Settings.Str(perm) in allow
  {
    var fields := if p.settings.Some? then p.settings.value.fields else Settings.DefaultSettings;
    assert Settings.Conforming(fields);
    assert Settings.MergeSettings(p.settings) == Settings.MergeSettings(Some(Settings.Obj(fields)));
    Settings.MergeKeepsAllowPrefix(fields);
    var merged := Settings.MergeInto(fields).value;
    var p1 := p.(forgeDir := true, settings := Some(Settings.Obj(merged.settings)));
    assert Run(p, "", projectName, version) == Installed(Initialize(p1, projectName, version));
  }

  /** Running the installer again on the result of an installation, and
      confirming the update, changes nothing: the configuration, the
      `.gitignore` and the settings stay as they are. */
  lemma RerunChangesNothing(p: Project, answer: string, projectName: string, version: string)
    requires Run(p, answer, projectName, version).Installed?
    ensures var p1 := Run(p, answer, projectName, version).project;
      Run(p1, "y", projectName, version) == Installed(p1)
  {
    var p1 := Run(p, answer, projectName, version).project;
    assert Text.ToLower("y") == "y";
    if p.settings.Some? && p.settings.value.Arr? {
      Settings.ArraysAreWrittenUnchanged(map[], p.settings.value.items);
    } else if ConformingSettings(p) {
      var fields := if p.settings.Some? then p.settings.value.fields else Settings.DefaultSettings;
      assert Settings.MergeSettings(p.settings) == Settings.MergeSettings(Some(Settings.Obj(fields)));
      Settings.MergeIdempotent(fields);
      assert p1.settings == Some(Settings.Obj(Settings.MergeInto(fields).value.settings));
    } else {
      // an object the merge accepts without the expected shape: its
      // `permissions` is an array, or its `allow` a string holding both patterns
      var fields := p.settings.value.fields;
      var perms := fields["permissions"];
      if perms.Arr? {
        Settings.ArraysAreWrittenUnchanged(fields, []);
      } else {
        Settings.StringAllowIsSearched(fields, perms.fields["allow"].s);
      }
    }
  }
}
