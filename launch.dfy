/** What main() does after the loop: the launch guard and the shell command
    for the chosen entry, and the program as a whole from the three
    directory listings and the keys typed to the status it exits with and
    the command it hands to `system()`. */
module Launch {
  import opened CStrings
  import opened Catalog
  import opened Matcher
  import opened Filter
  import opened Session

  /** The app_id buffer (char[512]) and the command buffer (char[1024]). */
  const APP_ID_SIZE := 512
  const COMMAND_SIZE := 1024
  const FLATPAK_RUN := "flatpak run "
  const GTK_LAUNCH := "gtk-launch "
  /** Output discarded, process detached. */
  const DETACH := " >/dev/null 2>&1 &"

  /** main.c:249-261: `flatpak run` with the file name, copied into app_id
      and cut at its first ".desktop", for a flatpak entry; `gtk-launch`
      with the whole file name otherwise; `snprintf` keeps at most 1023
      characters. */
  function LaunchCommand(app: App): (r: string)
    ensures |r| < COMMAND_SIZE
    ensures app.isFlatpak ==> FLATPAK_RUN <= r
    ensures !app.isFlatpak ==> GTK_LAUNCH <= r
  {
    var command :=
      if app.isFlatpak then FLATPAK_RUN + CleanName(Take(app.fileName, APP_ID_SIZE - 1)) + DETACH
      else GTK_LAUNCH + app.fileName + DETACH;
    Take(command, COMMAND_SIZE - 1)
  }

  /** For an entry loaded from a directory listing nothing is truncated: a
      flatpak entry runs under its display name, a native one is launched by
      its file name. */
  lemma CommandOfLoadedEntry(app: App)
    requires DirEntryName(app.fileName) && app.displayName == CleanName(app.fileName)
    ensures app.isFlatpak ==> LaunchCommand(app) == FLATPAK_RUN + app.displayName + DETACH
    ensures !app.isFlatpak ==> LaunchCommand(app) == GTK_LAUNCH + app.fileName + DETACH
  {
    assert Take(app.fileName, APP_ID_SIZE - 1) == app.fileName;
    assert |CleanName(app.fileName)| <= NAME_MAX;
  }

  /** main.c:247-248: launch only when Enter chose a position of the
      filtered list; the entry is the catalog index stored there. */
  function LaunchTarget(apps: seq<App>, st: SessionState, outcome: Outcome): (r: Option<int>)
    requires Consistent(apps, st)
    requires outcome.Committed? ==> 0 <= outcome.choice
    ensures r.Some? <==> outcome.Committed? && outcome.choice < |st.filtered|
    ensures r.Some? ==> 0 <= r.value < |apps| && MatchesSearch(apps[r.value].displayName, st.query)
    ensures r.Some? ==> r.value == st.filtered[outcome.choice]
  {
    FilteredCorrect(apps, st.query);
    if outcome.Committed? && outcome.choice < |st.filtered| then
      assert st.filtered[outcome.choice] in st.filtered;
      Some(st.filtered[outcome.choice])
    else None
  }

  /** The command for the state and outcome the loop ends with, if any. */
  function CommandFor(apps: seq<App>, st: SessionState, outcome: Outcome): (r: Option<string>)
    requires Consistent(apps, st)
    requires outcome.Committed? ==> 0 <= outcome.choice
    ensures r.Some? <==> outcome.Committed? && outcome.choice < |st.filtered|
    ensures r.Some? ==> r == Some(LaunchCommand(apps[st.filtered[outcome.choice]]))
  {
    match LaunchTarget(apps, st, outcome)
    case Some(i) => Some(LaunchCommand(apps[i]))
    case None => None
  }

  /** The command a session over `apps` ends with for the keys `keys`, if any. */
  function SessionCommand(apps: seq<App>, maxVisible: int, keys: seq<int>): (r: Option<string>)
    requires 1 <= maxVisible
    ensures ENTER !in keys ==> r == None
  {
    var d := Drive(apps, maxVisible, InitialState(apps), keys);
    NoEnterNoCommit(apps, maxVisible, InitialState(apps), keys);
    CommandFor(apps, d.1, d.0)
  }

  /** A command launches the entry of the row highlighted when Enter was
      pressed, and that entry matches the final query. */
  lemma SessionCommandChosen(apps: seq<App>, maxVisible: int, keys: seq<int>)
    requires 1 <= maxVisible
    ensures var d := Drive(apps, maxVisible, InitialState(apps), keys);
      SessionCommand(apps, maxVisible, keys).Some? ==>
        && 0 <= d.1.highlight < |d.1.filtered|
        && 0 <= d.1.filtered[d.1.highlight] < |apps|
        && SessionCommand(apps, maxVisible, keys) == Some(LaunchCommand(apps[d.1.filtered[d.1.highlight]]))
        && MatchesSearch(apps[d.1.filtered[d.1.highlight]].displayName, d.1.query)
  {
    var d := Drive(apps, maxVisible, InitialState(apps), keys);
    FilteredCorrect(apps, d.1.query);
    if SessionCommand(apps, maxVisible, keys).Some? {
      assert d.1.filtered[d.1.highlight] in d.1.filtered;
    }
  }

  /** The launch guard and command of main.c:247-261 on the session's
      final state. */
  method ChosenCommand(session: Session, outcome: Outcome) returns (command: Option<string>)
    requires session.Valid()
    requires outcome.Committed? ==> 0 <= outcome.choice
    ensures command == CommandFor(session.apps, session.State(), outcome)
  {
    command := None;
    if outcome.Committed? && outcome.choice < session.filteredCount {
      var appIndex := session.filteredIndices[outcome.choice];
      FilteredCorrect(session.apps, session.State().query);
      assert appIndex == session.State().filtered[outcome.choice];
      command := Some(LaunchCommand(session.apps[appIndex]));
    }
  }

  /** main(): build the catalog, exit with status 1 when it is empty;
      otherwise run the session over `keys` in a window of `maxVisible`
      rows and return the command for `system()`, if one is launched. */
  method RunLauncher(system: seq<string>, userFlatpak: seq<string>, systemFlatpak: seq<string>,
                     maxVisible: int, keys: seq<int>)
    returns (status: int, command: Option<string>)
    requires 1 <= maxVisible
    ensures status == 1 <==> BuildCatalog(system, userFlatpak, systemFlatpak).None?
    ensures status == 1 || status == 0
    ensures status == 1 ==> command == None
    ensures status == 0 ==> command == SessionCommand(BuildCatalog(system, userFlatpak, systemFlatpak).value, maxVisible, keys)
  {
    var catalog := BuildCatalog(system, userFlatpak, systemFlatpak);
    if catalog.None? {
      return 1, None;
    }
    var apps := catalog.value;
    var session := new Session(apps, maxVisible);
    var outcome := session.Run(keys);
    command := ChosenCommand(session, outcome);
    status := 0;
  }
}
