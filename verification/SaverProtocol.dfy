/**
 The saving protocol of dconfig.c as a state machine.

 Two threads share the session, two key files in memory and two flags.  The saving
 thread holds the mutex during a pass, and its pass is modelled statement by statement.
 The main thread changes the session, then raises its flag (which takes the mutex, so only
 between passes), changes settings of the panel together with their flag (which takes it
 as well) and switches stores (which does not take it).
 */
module SaverProtocol {
  import opened Common
  import opened BreakModel
  import BreakStore
  import opened DebugConfig

  datatype DebugStore = PluginStore | ProjectStore

  /** A key file, in memory or on disk. */
  datatype Keys = Keys(groups: map<string, Group>)

  predicate HasGroup(keys: Keys) {
    DEBUGGER_GROUP in keys.groups
  }

  type Session = SessionValue

  /** A session apart from the places of its breakpoints in the tree view, which are not saved. */
  function Normal(v: Session): Session {
    v.(breaks := seq(|v.breaks|, i requires 0 <= i < |v.breaks| => v.breaks[i].(iter := Iter(0, 0))))
  }

  /** What loading a key file gives; a missing group reads like the defaults. */
  function Parse(keys: Keys): Session {
    Loaded(if HasGroup(keys) then keys.groups[DEBUGGER_GROUP] else map[])
  }

  /** save_to_keyfile */
  ghost function Snapshot(keys: Keys, session: Session): Keys {
    Keys(keys.groups[DEBUGGER_GROUP := Encode(Saved(session))])
  }

  /** config_set_debug_defaults, if the group is missing. */
  ghost function WithDefaults(keys: Keys): Keys {
    if HasGroup(keys) then keys else Snapshot(keys, NO_SESSION)
  }

  lemma ParseSnapshot(keys: Keys, session: Session)
    ensures Parse(Snapshot(keys, session)) == Normal(session)
  {
    hide Encode, Saved, Loaded;
    SavedIsLoaded(session);
    var v := Loaded(Encode(Saved(session)));
    assert v.breaks == Normal(session).breaks;
  }

  lemma ParseIsNormal(keys: Keys)
    ensures Normal(Parse(keys)) == Parse(keys)
  {
    hide GetString, GetInteger, GetBoolean, LoadedEnv, LoadedWatch;
    assert Normal(Parse(keys)).breaks == Parse(keys).breaks;
  }

  lemma ParseNothing()
    ensures Parse(Keys(map[])) == NO_SESSION == Normal(NO_SESSION)
  {
  }

  lemma ParseDefaults(keys: Keys)
    ensures Parse(WithDefaults(keys)) == Parse(keys)
  {
    hide Encode, Saved, Loaded, Normal;
    if !HasGroup(keys) {
      ParseSnapshot(keys, NO_SESSION);
      ParseNothing();
    }
  }

  /**
   Where the main thread is in config_set_debug_store.  Before clearing, the session is still
   the one of the store that was set before, if there was any.
   */
  datatype MainPc = Ready | Clearing(from: Option<DebugStore>) | Loading

  /** Where the saving thread is in a pass; it holds the mutex unless it is waiting. */
  datatype SaverPc =
    | Waiting
    | PluginBranch | PluginClear | PluginData | PluginWrite(data: Keys) | PanelClear
    | ProjectTest
    | ProjectBranch | ProjectData | ProjectWrite(data: Keys) | ProjectClear

  datatype State = State(
    dstore: DebugStore, session: Session,
    pluginKeys: Keys, projectKeys: Keys, pluginFile: Keys, projectFile: Keys,
    debugChanged: bool, panelChanged: bool,
    /** The session was changed and the flag is yet to be raised for it. */
    awaiting: bool,
    main: MainPc, saver: SaverPc)

  datatype Action =
    | Change(session: Session)
    | Raise
    | ChangePanel(keys: Keys)
    | Switch(store: DebugStore)
    | Clear
    | Load
    | Save

  ghost predicate SameDebugGroup(a: Keys, b: Keys) {
    && (HasGroup(a) <==> HasGroup(b))
    && (HasGroup(a) ==> a.groups[DEBUGGER_GROUP] == b.groups[DEBUGGER_GROUP])
  }

  ghost predicate Enabled(s: State, a: Action) {
    match a
    case Change(_) => s.main.Ready?
    case Raise => s.saver.Waiting?
    case ChangePanel(keys) => s.saver.Waiting? && SameDebugGroup(s.pluginKeys, keys)
    case Switch(_) => s.main.Ready?
    case Clear => s.main.Clearing?
    case Load => s.main.Loading?
    case Save => true
  }

  /** The next statement of saving_thread_func. */
  ghost function SaverStep(s: State): State {
    match s.saver
    case Waiting =>
      s.(saver := if s.panelChanged || (s.debugChanged && s.dstore == PluginStore) then PluginBranch else ProjectTest)
    case PluginBranch =>
      if s.debugChanged then s.(pluginKeys := Snapshot(s.pluginKeys, s.session), saver := PluginClear)
      else s.(saver := PluginData)
    case PluginClear => s.(debugChanged := false, saver := PluginData)
    case PluginData => s.(saver := PluginWrite(s.pluginKeys))
    case PluginWrite(data) => s.(pluginFile := data, saver := PanelClear)
    case PanelClear => s.(panelChanged := false, saver := ProjectTest)
    case ProjectTest =>
      s.(saver := if s.debugChanged && s.dstore == ProjectStore then ProjectBranch else Waiting)
    case ProjectBranch => s.(projectKeys := Snapshot(s.projectKeys, s.session), saver := ProjectData)
    case ProjectData => s.(saver := ProjectWrite(s.projectKeys))
    case ProjectWrite(data) => s.(projectFile := data, saver := ProjectClear)
    case ProjectClear => s.(debugChanged := false, saver := Waiting)
  }

  /** The end of config_set_debug_store: defaults for a missing group, then loading. */
  ghost function LoadStep(s: State): State {
    match s.dstore
    case PluginStore =>
      var keys := WithDefaults(s.pluginKeys);
      s.(pluginKeys := keys, pluginFile := if HasGroup(s.pluginKeys) then s.pluginFile else keys,
         session := Parse(keys), main := Ready)
    case ProjectStore =>
      var keys := WithDefaults(s.projectKeys);
      s.(projectKeys := keys, projectFile := if HasGroup(s.projectKeys) then s.projectFile else keys,
         session := Parse(keys), main := Ready)
  }

  ghost function Step(s: State, a: Action): State {
    match a
    case Change(session) => s.(session := session, awaiting := true)
    case Raise => s.(debugChanged := true, awaiting := false)
    case ChangePanel(keys) => s.(pluginKeys := keys, panelChanged := true)
    case Switch(store) => s.(dstore := store, main := Clearing(Some(s.dstore)))
    case Clear => s.(session := NO_SESSION, main := Loading)
    case Load => LoadStep(s)
    case Save => SaverStep(s)
  }

  // ----- Runs

  /** config_init: the key files are read from disk, and a store is about to be set. */
  ghost predicate Init(s: State) {
    && s.pluginKeys == s.pluginFile && s.projectKeys == s.projectFile
    && !s.debugChanged && !s.panelChanged && s.main == Clearing(None) && s.saver.Waiting?
  }

  ghost predicate Runs(s: State, actions: seq<Action>, s': State)
    decreases |actions|
  {
    if actions == [] then s == s'
    else Enabled(s, actions[0]) && Runs(Step(s, actions[0]), actions[1..], s')
  }

  /** Nothing is pending anywhere. */
  ghost predicate Quiet(s: State) {
    s.main.Ready? && s.saver.Waiting? && !s.debugChanged && !s.awaiting
  }

  /** A pass begins with both flags raised, the session of the project being loaded. */
  ghost predicate LosingPass(s: State, a: Action) {
    a.Save? && s.saver.Waiting? && s.main.Ready? && s.dstore == ProjectStore && s.debugChanged && s.panelChanged && !s.awaiting
  }

  ghost predicate NoLosingPass(s: State, actions: seq<Action>)
    decreases |actions|
  {
    actions != [] ==> !LosingPass(s, actions[0]) && NoLosingPass(Step(s, actions[0]), actions[1..])
  }

  // ----- Invariants

  ghost predicate InPluginSave(pc: SaverPc) {
    pc.PluginClear? || pc.PluginData? || pc.PluginWrite?
  }

  ghost predicate InProjectSave(pc: SaverPc) {
    pc.ProjectData? || pc.ProjectWrite?
  }

  /** Disk and memory agree, except between a snapshot and its writing. */
  ghost predicate FilesAgree(s: State) {
    && (!InPluginSave(s.saver) ==> Parse(s.pluginFile) == Parse(s.pluginKeys))
    && (s.saver.PluginWrite? ==> Parse(s.saver.data) == Parse(s.pluginKeys))
    && (!InProjectSave(s.saver) ==> Parse(s.projectFile) == Parse(s.projectKeys))
    && (s.saver.ProjectWrite? ==> Parse(s.saver.data) == Parse(s.projectKeys))
  }

  /** In the plugin store, a change is in the key file unless a flag says otherwise; some flags are about to be cleared. */
  ghost predicate PluginKept(s: State) {
    var clearing := s.saver.PluginClear? || s.saver.ProjectBranch? || InProjectSave(s.saver) || s.saver.ProjectClear?;
    s.main.Ready? && s.dstore == PluginStore && !s.awaiting && (!s.debugChanged || clearing) ==> Normal(s.session) == Parse(s.pluginKeys)
  }

  ghost predicate ProjectKept(s: State) {
    var clearing := s.saver.PluginBranch? || s.saver.PluginClear? || InProjectSave(s.saver) || s.saver.ProjectClear?;
    s.main.Ready? && s.dstore == ProjectStore && !s.awaiting && (!s.debugChanged || clearing) ==> Normal(s.session) == Parse(s.projectKeys)
  }

  ghost predicate Inv(s: State) {
    FilesAgree(s) && PluginKept(s)
  }

  lemma SaveKeepsFiles(s: State)
    requires FilesAgree(s)
    ensures FilesAgree(SaverStep(s))
  {
    hide Parse, Snapshot;
  }

  lemma SaveKeepsPlugin(s: State)
    requires PluginKept(s)
    ensures PluginKept(SaverStep(s))
  {
    hide Parse, Snapshot, Normal;
    ParseSnapshot(s.pluginKeys, s.session);
  }

  lemma SaveKeepsProject(s: State)
    requires ProjectKept(s) && !LosingPass(s, Save)
    ensures ProjectKept(SaverStep(s))
  {
    hide Parse, Snapshot, Normal;
    ParseSnapshot(s.projectKeys, s.session);
  }

  lemma LoadInv(s: State)
    requires FilesAgree(s)
    ensures FilesAgree(LoadStep(s)) && PluginKept(LoadStep(s)) && ProjectKept(LoadStep(s))
  {
    hide WithDefaults, Parse, Normal, HasGroup;
    ParseDefaults(s.pluginKeys);
    ParseDefaults(s.projectKeys);
    ParseIsNormal(WithDefaults(s.pluginKeys));
    ParseIsNormal(WithDefaults(s.projectKeys));
  }

  lemma MainInv(s: State, a: Action)
    requires Inv(s) && Enabled(s, a) && !a.Save?
    ensures Inv(Step(s, a))
    ensures ProjectKept(s) ==> ProjectKept(Step(s, a))
  {
    hide LoadStep, Normal, Loaded, Parse;
    if a.Load? {
      LoadInv(s);
    } else if a.ChangePanel? {
      assert Parse(a.keys) == Parse(s.pluginKeys) by { SameParse(s.pluginKeys, a.keys); }
    }
  }

  lemma SameParse(a: Keys, b: Keys)
    requires SameDebugGroup(a, b)
    ensures Parse(a) == Parse(b)
  {
  }

  lemma SaveInv(s: State)
    requires Inv(s)
    ensures Inv(SaverStep(s))
    ensures ProjectKept(s) && !LosingPass(s, Save) ==> ProjectKept(SaverStep(s))
  {
    hide SaverStep, FilesAgree, PluginKept, ProjectKept, LosingPass;
    SaveKeepsFiles(s);
    SaveKeepsPlugin(s);
    if ProjectKept(s) && !LosingPass(s, Save) { SaveKeepsProject(s); }
  }

  lemma {:induction false} RunInv(s: State, actions: seq<Action>, s': State)
    requires Inv(s) && Runs(s, actions, s')
    ensures Inv(s')
    ensures ProjectKept(s) && NoLosingPass(s, actions) ==> ProjectKept(s')
    decreases |actions|
  {
    hide Inv, ProjectKept, Enabled, LosingPass;
    if actions != [] {
      if actions[0].Save? {
        SaveInv(s);
      } else {
        MainInv(s, actions[0]);
      }
      RunInv(Step(s, actions[0]), actions[1..], s');
    }
  }

  /** In every interleaving: with nothing pending, the plugin's file holds the session. */
  lemma PluginSafety(s: State, actions: seq<Action>, s': State)
    requires Init(s) && Runs(s, actions, s')
    ensures Quiet(s') && s'.dstore == PluginStore ==> Parse(s'.pluginFile) == Normal(s'.session)
  {
    RunInv(s, actions, s');
  }

  /** The same for the project's file, if no pass begins with both flags raised. */
  lemma ProjectSafety(s: State, actions: seq<Action>, s': State)
    requires Init(s) && Runs(s, actions, s') && NoLosingPass(s, actions)
    ensures Quiet(s') && s'.dstore == ProjectStore ==> Parse(s'.projectFile) == Normal(s'.session)
  {
    RunInv(s, actions, s');
  }

  // ----- One undisturbed pass

  ghost function Left(pc: SaverPc): nat {
    match pc
    case Waiting => 0
    case PluginBranch => 10
    case PluginClear => 9
    case PluginData => 8
    case PluginWrite(_) => 7
    case PanelClear => 6
    case ProjectTest => 5
    case ProjectBranch => 4
    case ProjectData => 3
    case ProjectWrite(_) => 2
    case ProjectClear => 1
  }

  ghost function Finish(s: State): State
    decreases Left(s.saver)
  {
    if s.saver.Waiting? then s else Finish(SaverStep(s))
  }

  ghost function Pass(s: State): State
    requires s.saver.Waiting?
  {
    Finish(SaverStep(s))
  }

  ghost function FinishPlugin(s: State): State
    requires s.saver.PluginBranch?
  {
    var keys := if s.debugChanged then Snapshot(s.pluginKeys, s.session) else s.pluginKeys;
    s.(pluginKeys := keys, pluginFile := keys, debugChanged := false, panelChanged := false, saver := ProjectTest)
  }

  lemma FinishStep(s: State)
    requires !s.saver.Waiting?
    ensures Finish(s) == Finish(SaverStep(s))
  {
  }

  lemma PluginPass(s: State)
    requires s.saver.PluginBranch?
    ensures Finish(s) == Finish(FinishPlugin(s))
  {
    hide Finish, Snapshot;
    FinishStep(s);
    var t := SaverStep(s);
    if t.saver.PluginClear? {
      FinishStep(t);
      t := SaverStep(t);
    }
    FinishStep(t);
    var u := SaverStep(t);
    FinishStep(u);
    var w := SaverStep(u);
    FinishStep(w);
  }

  ghost function FinishProject(s: State): State
    requires s.saver.ProjectTest?
  {
    if s.debugChanged && s.dstore == ProjectStore then
      var keys := Snapshot(s.projectKeys, s.session);
      s.(projectKeys := keys, projectFile := keys, debugChanged := false, saver := Waiting)
    else s.(saver := Waiting)
  }

  lemma ProjectPass(s: State)
    requires s.saver.ProjectTest?
    ensures Finish(s) == FinishProject(s)
  {
    hide Finish, Snapshot;
    FinishStep(s);
    var t := SaverStep(s);
    if t.saver.ProjectBranch? {
      FinishStep(t);
      var u := SaverStep(t);
      FinishStep(u);
      var w := SaverStep(u);
      FinishStep(w);
      var x := SaverStep(w);
      FinishStep(x);
      FinishWaiting(SaverStep(x));
    } else {
      FinishWaiting(t);
    }
  }

  lemma FinishWaiting(s: State)
    requires s.saver.Waiting?
    ensures Finish(s) == s
  {
  }

  /** The effect of a whole undisturbed pass. */
  lemma WholePass(s: State)
    requires s.saver.Waiting?
    ensures Pass(s) == FinishProject(
      if s.panelChanged || (s.debugChanged && s.dstore == PluginStore) then FinishPlugin(s.(saver := PluginBranch))
      else s.(saver := ProjectTest))
  {
    hide Finish, Snapshot;
    var t := SaverStep(s);
    if t.saver.PluginBranch? {
      PluginPass(t);
      ProjectPass(FinishPlugin(t));
    } else {
      ProjectPass(t);
    }
  }

  /** After a pass nothing is pending, and in the plugin store everything is on disk. */
  lemma PassSavesPlugin(s: State)
    requires Inv(s) && s.saver.Waiting? && s.main.Ready? && !s.awaiting && s.dstore == PluginStore
    ensures Quiet(Pass(s)) && Parse(Pass(s).pluginFile) == Normal(s.session) && Pass(s).session == s.session
  {
    hide Parse, Snapshot, Normal;
    WholePass(s);
    ParseSnapshot(s.pluginKeys, s.session);
  }

  /** Unsaved changes of a project's session survive a pass exactly when the panel flag is clear. */
  lemma PassSavesProject(s: State)
    requires Inv(s) && ProjectKept(s) && s.saver.Waiting? && s.main.Ready? && !s.awaiting && s.dstore == ProjectStore
    requires Parse(s.projectFile) != Normal(s.session)
    ensures Quiet(Pass(s)) && Pass(s).session == s.session
    ensures Parse(Pass(s).projectFile) == Normal(s.session) <==> !s.panelChanged
  {
    hide Parse, Snapshot, Normal;
    WholePass(s);
    ParseSnapshot(s.projectKeys, s.session);
  }

  /**
   A pass that begins in a project leaves the plugin's file alone exactly when one of the flags
   is clear, or when the file has that very session already.
   */
  lemma PassKeepsPlugin(s: State)
    requires FilesAgree(s) && s.saver.Waiting? && s.dstore == ProjectStore
    ensures Parse(Pass(s).pluginFile) == Parse(s.pluginFile) <==>
      !(s.debugChanged && s.panelChanged) || Normal(s.session) == Parse(s.pluginFile)
  {
    hide Parse, Snapshot, Normal;
    WholePass(s);
    ParseSnapshot(s.pluginKeys, s.session);
  }

  /** A pass that begins in the plugin store leaves the project's file alone. */
  lemma PassKeepsProject(s: State)
    requires s.saver.Waiting? && s.dstore == PluginStore
    ensures Pass(s).projectFile == s.projectFile && Pass(s).projectKeys == s.projectKeys
  {
    hide Parse, Snapshot, Normal;
    WholePass(s);
  }

  /** A change of the panel's settings is written with everything else in the key file. */
  lemma PassWritesPanel(s: State)
    requires s.saver.Waiting?
    ensures s.panelChanged ==> Pass(s).pluginFile == Pass(s).pluginKeys && !Pass(s).panelChanged
    ensures !s.panelChanged && !(s.debugChanged && s.dstore == PluginStore) ==> Pass(s).pluginFile == s.pluginFile
  {
    hide Snapshot;
    WholePass(s);
  }

  /** A pass changes no group of a key file but the debugger's. */
  lemma PassKeepsGroups(s: State)
    requires s.saver.Waiting?
    ensures Pass(s).pluginKeys.groups - {DEBUGGER_GROUP} == s.pluginKeys.groups - {DEBUGGER_GROUP}
    ensures Pass(s).projectKeys.groups - {DEBUGGER_GROUP} == s.projectKeys.groups - {DEBUGGER_GROUP}
  {
    WholePass(s);
    SnapshotKeepsGroups(s.pluginKeys, s.session);
    SnapshotKeepsGroups(s.projectKeys, s.session);
  }

  lemma SnapshotKeepsGroups(keys: Keys, session: Session)
    ensures Snapshot(keys, session).groups - {DEBUGGER_GROUP} == keys.groups - {DEBUGGER_GROUP}
  {
  }

  // ----- Whole key files on disk

  /** What was collected for the file is what is in memory; once written, so is the file. */
  ghost predicate PluginWhole(s: State) {
    && (s.saver.PluginWrite? ==> s.saver.data == s.pluginKeys)
    && (!InPluginSave(s.saver) && (!s.panelChanged || s.saver.PanelClear?) ==> s.pluginFile == s.pluginKeys)
  }

  ghost predicate ProjectWhole(s: State) {
    && (InProjectSave(s.saver) ==> HasGroup(s.projectKeys))
    && (s.saver.ProjectWrite? ==> s.saver.data == s.projectKeys)
    && (!InProjectSave(s.saver) ==> s.projectFile == s.projectKeys)
  }

  /** Loading adds the missing defaults to the key file while the file's old contents are being written. */
  ghost predicate LateDefaults(s: State, a: Action) {
    a.Load? && s.dstore == PluginStore && !HasGroup(s.pluginKeys) && s.saver.PluginWrite?
  }

  ghost predicate NoLateDefaults(s: State, actions: seq<Action>)
    decreases |actions|
  {
    actions != [] ==> !LateDefaults(s, actions[0]) && NoLateDefaults(Step(s, actions[0]), actions[1..])
  }

  lemma WholeStep(s: State, a: Action)
    requires Enabled(s, a)
    ensures PluginWhole(s) && !LateDefaults(s, a) ==> PluginWhole(Step(s, a))
    ensures ProjectWhole(s) ==> ProjectWhole(Step(s, a))
  {
    hide PluginWhole, ProjectWhole, SaverStep, LoadStep;
    if a.Save? {
      SavePluginWhole(s);
      SaveProjectWhole(s);
    } else {
      MainWhole(s, a);
    }
  }

  lemma SavePluginWhole(s: State)
    ensures PluginWhole(s) ==> PluginWhole(SaverStep(s))
  {
    hide Snapshot, HasGroup;
  }

  lemma SaveProjectWhole(s: State)
    ensures ProjectWhole(s) ==> ProjectWhole(SaverStep(s))
  {
    hide Snapshot, HasGroup;
    SnapshotHasGroup(s.projectKeys, s.session);
  }

  lemma SnapshotHasGroup(keys: Keys, session: Session)
    ensures HasGroup(Snapshot(keys, session)) && HasGroup(WithDefaults(keys))
  {
  }

  lemma MainWhole(s: State, a: Action)
    requires Enabled(s, a) && !a.Save?
    ensures PluginWhole(s) && !LateDefaults(s, a) ==> PluginWhole(Step(s, a))
    ensures ProjectWhole(s) ==> ProjectWhole(Step(s, a))
  {
    hide Snapshot, HasGroup, Parse, SameDebugGroup;
  }

  lemma {:induction false} RunWhole(s: State, actions: seq<Action>, s': State)
    requires Runs(s, actions, s')
    ensures PluginWhole(s) && NoLateDefaults(s, actions) ==> PluginWhole(s')
    ensures ProjectWhole(s) ==> ProjectWhole(s')
    decreases |actions|
  {
    hide PluginWhole, ProjectWhole, Enabled, Step, LateDefaults;
    if actions != [] {
      WholeStep(s, actions[0]);
      RunWhole(Step(s, actions[0]), actions[1..], s');
    }
  }

  /**
   In every run in which no defaults come too late: with no panel change pending, the plugin's
   file is the whole key file in memory.
   */
  lemma PanelSafety(s: State, actions: seq<Action>, s': State)
    requires Init(s) && Runs(s, actions, s') && NoLateDefaults(s, actions)
    ensures s'.saver.Waiting? && !s'.panelChanged ==> s'.pluginFile == s'.pluginKeys
  {
    RunWhole(s, actions, s');
  }

  /** The project's file is the whole key file in memory between any two passes. */
  lemma ProjectFileSafety(s: State, actions: seq<Action>, s': State)
    requires Init(s) && Runs(s, actions, s')
    ensures s'.saver.Waiting? ==> s'.projectFile == s'.projectKeys
  {
    RunWhole(s, actions, s');
  }

  /** Defaults that come too late are in memory, but not in the file. */
  lemma LateDefaultsMissing(s: State)
    requires LateDefaults(s, Load) && PluginWhole(s)
    ensures var s' := Finish(Step(s, Load));
      HasGroup(s'.pluginKeys) && !HasGroup(s'.pluginFile) && s'.saver.Waiting? && !s'.panelChanged
  {
    hide Encode, Saved, Parse, Finish;
    var t := Step(s, Load);
    FinishStep(t);
    var u := SaverStep(t);
    FinishStep(u);
    ProjectPass(SaverStep(u));
  }

  // ----- Whose session is in a file

  function FileOf(s: State, store: DebugStore): Keys {
    if store == PluginStore then s.pluginFile else s.projectFile
  }

  function KeysOf(s: State, store: DebugStore): Keys {
    if store == PluginStore then s.pluginKeys else s.projectKeys
  }

  /** The session in memory is the one of `store`. */
  ghost predicate Owns(s: State, store: DebugStore) {
    (s.main.Ready? && s.dstore == store) || s.main == Clearing(Some(store))
  }

  /** The next statement of the pass takes a snapshot for `store`. */
  ghost predicate Snapshots(s: State, store: DebugStore) {
    if store == PluginStore then s.saver.PluginBranch? && s.debugChanged else s.saver.ProjectBranch?
  }

  /** A snapshot is taken for a store whose session is not in memory. */
  ghost predicate ForeignSave(s: State, a: Action, store: DebugStore) {
    a.Save? && Snapshots(s, store) && !Owns(s, store)
  }

  ghost predicate NoForeignSave(s: State, actions: seq<Action>, store: DebugStore)
    decreases |actions|
  {
    actions != [] ==> !ForeignSave(s, actions[0], store) && NoForeignSave(Step(s, actions[0]), actions[1..], store)
  }

  ghost function Own(s: State, store: DebugStore): set<Session> {
    if Owns(s, store) then {Normal(s.session)} else {}
  }

  /** The sessions that are ever in memory for `store` during a run. */
  ghost function OwnSessions(s: State, actions: seq<Action>, store: DebugStore): set<Session>
    decreases |actions|
  {
    Own(s, store) + if actions == [] then {} else OwnSessions(Step(s, actions[0]), actions[1..], store)
  }

  /** What `store` has in memory, on disk and on the way to it are sessions of `own`. */
  ghost predicate Holds(s: State, store: DebugStore, own: set<Session>) {
    && Parse(KeysOf(s, store)) in own && Parse(FileOf(s, store)) in own
    && (s.saver.PluginWrite? && store == PluginStore ==> Parse(s.saver.data) in own)
    && (s.saver.ProjectWrite? && store == ProjectStore ==> Parse(s.saver.data) in own)
  }

  lemma SaveHolds(s: State, store: DebugStore, own: set<Session>)
    requires Holds(s, store, own) && !ForeignSave(s, Save, store)
    ensures Holds(SaverStep(s), store, own + Own(s, store))
  {
    hide Parse, Snapshot, Normal;
    ParseSnapshot(KeysOf(s, store), s.session);
  }

  lemma MainHolds(s: State, a: Action, store: DebugStore, own: set<Session>)
    requires Holds(s, store, own) && Enabled(s, a) && !a.Save?
    ensures Holds(Step(s, a), store, own + Own(s, store))
  {
    hide Parse, WithDefaults, Normal, HasGroup, SameDebugGroup;
    ParseDefaults(KeysOf(s, store));
    if a.ChangePanel? { SameParse(s.pluginKeys, a.keys); }
  }

  lemma {:induction false} RunHolds(s: State, actions: seq<Action>, s': State, store: DebugStore, own: set<Session>)
    requires Runs(s, actions, s') && NoForeignSave(s, actions, store) && Holds(s, store, own)
    ensures Holds(s', store, own + OwnSessions(s, actions, store))
    decreases |actions|
  {
    hide Enabled, Step, ForeignSave, Own;
    if actions == [] {
      MoreHolds(s, store, own, own + OwnSessions(s, actions, store));
    } else {
      hide Holds;
      StepHolds(s, actions[0], store, own);
      var next := Step(s, actions[0]);
      RunHolds(next, actions[1..], s', store, own + Own(s, store));
      assert own + Own(s, store) + OwnSessions(next, actions[1..], store) == own + OwnSessions(s, actions, store);
    }
  }

  lemma StepHolds(s: State, a: Action, store: DebugStore, own: set<Session>)
    requires Holds(s, store, own) && Enabled(s, a) && !ForeignSave(s, a, store)
    ensures Holds(Step(s, a), store, own + Own(s, store))
  {
    hide Holds, ForeignSave, SaverStep;
    if a.Save? {
      SaveHolds(s, store, own);
    } else {
      MainHolds(s, a, store, own);
    }
  }

  lemma MoreHolds(s: State, store: DebugStore, own: set<Session>, more: set<Session>)
    requires Holds(s, store, own) && own <= more
    ensures Holds(s, store, more)
  {
    hide Parse;
  }

  /**
   In every run in which no snapshot is taken for a store whose session is not in memory,
   the store's file has what it had at the start or a session that was in memory for it.
   */
  lemma KeepsOwn(s: State, actions: seq<Action>, s': State, store: DebugStore)
    requires Init(s) && Runs(s, actions, s') && NoForeignSave(s, actions, store)
    ensures Parse(FileOf(s', store)) in {Parse(FileOf(s, store))} + OwnSessions(s, actions, store)
  {
    hide Parse, Runs, NoForeignSave, OwnSessions;
    RunHolds(s, actions, s', store, {Parse(FileOf(s, store))});
  }

  /** Such a snapshot does write the other session: finishing the pass leaves the file alone only if it had that session. */
  lemma ForeignSaveWrites(s: State, store: DebugStore)
    requires FilesAgree(s) && ForeignSave(s, Save, store)
    ensures Parse(KeysOf(Step(s, Save), store)) == Normal(s.session) == Parse(FileOf(Finish(s), store))
    ensures Parse(FileOf(Finish(s), store)) == Parse(FileOf(s, store)) <==> Normal(s.session) == Parse(FileOf(s, store))
  {
    hide Finish, Snapshot, Parse, Normal;
    ParseSnapshot(KeysOf(s, store), s.session);
    if store == PluginStore {
      PluginPass(s);
      ProjectPass(FinishPlugin(s));
    } else {
      BranchPass(s);
    }
  }

  lemma BranchPass(s: State)
    requires s.saver.ProjectBranch?
    ensures Finish(s).projectFile == Snapshot(s.projectKeys, s.session)
  {
    hide Finish, Snapshot;
    FinishStep(s);
    var u := SaverStep(s);
    FinishStep(u);
    var w := SaverStep(u);
    FinishStep(w);
    var x := SaverStep(w);
    FinishStep(x);
    FinishWaiting(SaverStep(x));
  }

  // ----- Runs that go wrong

  lemma {:induction false} SaveRun(s: State) returns (actions: seq<Action>)
    ensures Runs(s, actions, Finish(s))
    decreases Left(s.saver)
  {
    if s.saver.Waiting? {
      actions := [];
    } else {
      hide SaverStep;
      actions := SaveRun(SaverStep(s));
      RunsCons(s, Save, actions, Finish(s));
      actions := [Save] + actions;
    }
  }

  lemma RunsCons(s: State, a: Action, actions: seq<Action>, s': State)
    requires Enabled(s, a) && Runs(Step(s, a), actions, s')
    ensures Runs(s, [a] + actions, s')
  {
    hide Enabled, Step;
    assert ([a] + actions)[1..] == actions;
  }

  /** From any start in a project, any new session can be lost: both flags are raised when the pass begins. */
  lemma LosingRun(s: State, v: Session) returns (actions: seq<Action>, s': State)
    requires Init(s) && s.dstore == ProjectStore && Normal(v) != Parse(s.projectFile)
    ensures Runs(s, actions, s') && Quiet(s') && s'.dstore == ProjectStore
    ensures s'.session == v && Parse(s'.projectFile) != Normal(s'.session) && Parse(s'.pluginFile) == Normal(v)
  {
    hide Parse, Snapshot, Normal, WithDefaults, Runs, Pass, Finish, SaverStep;
    ParseDefaults(s.projectKeys);
    var s1 := Step(s, Clear);
    var s2 := Step(s1, Load);
    var s3 := Step(s2, Change(v));
    var s4 := Step(s3, Raise);
    var panel := ChangePanel(s4.pluginKeys);
    var s5 := Step(s4, panel);
    s' := LosePass(s5);
    var saves := SaveRun(SaverStep(s5));
    RunsCons(s5, Save, saves, s');
    RunsCons(s4, panel, [Save] + saves, s');
    RunsCons(s3, Raise, [panel] + ([Save] + saves), s');
    RunsCons(s2, Change(v), [Raise] + ([panel] + ([Save] + saves)), s');
    RunsCons(s1, Load, [Change(v)] + ([Raise] + ([panel] + ([Save] + saves))), s');
    RunsCons(s, Clear, [Load] + ([Change(v)] + ([Raise] + ([panel] + ([Save] + saves)))), s');
    actions := [Clear] + ([Load] + ([Change(v)] + ([Raise] + ([panel] + ([Save] + saves)))));
  }

  lemma LosePass(s: State) returns (s': State)
    requires s.saver.Waiting? && s.main.Ready? && s.dstore == ProjectStore && s.debugChanged && s.panelChanged && !s.awaiting
    ensures s' == Pass(s) == Finish(SaverStep(s)) && Quiet(s')
    ensures s'.session == s.session && s'.projectFile == s.projectFile && s'.dstore == s.dstore
    ensures Parse(s'.pluginFile) == Normal(s.session)
  {
    hide Finish, Snapshot, Parse, Normal;
    WholePass(s);
    ParseSnapshot(s.pluginKeys, s.session);
    s' := Pass(s);
  }

  /** The session of a project that is not marked as changed. */
  ghost predicate Unmarked(s: State) {
    && s.dstore == ProjectStore && s.main.Ready? && !s.debugChanged
    && !s.saver.ProjectBranch? && !InProjectSave(s.saver) && !s.saver.ProjectClear?
  }

  /** Neither more passes nor panel changes bring a lost session to disk; it takes another change of the session. */
  lemma {:induction false} LossStays(s: State, actions: seq<Action>, s': State)
    requires Unmarked(s) && Runs(s, actions, s')
    requires forall a | a in actions :: a.Save? || a.ChangePanel?
    ensures Unmarked(s') && s'.session == s.session && s'.projectFile == s.projectFile
    decreases |actions|
  {
    hide Snapshot, SameDebugGroup;
    if actions != [] {
      assert actions[0] in actions;
      UnmarkedStep(s, actions[0]);
      hide Step, Unmarked;
      LossStays(Step(s, actions[0]), actions[1..], s');
    }
  }

  lemma UnmarkedStep(s: State, a: Action)
    requires Unmarked(s) && Enabled(s, a) && (a.Save? || a.ChangePanel?)
    ensures var s' := Step(s, a); Unmarked(s') && s'.session == s.session && s'.projectFile == s.projectFile
  {
    hide Snapshot, SameDebugGroup;
  }

  /**
   Switching stores does not take the mutex: a switch after a pass has begun makes it write
   the project's session into the plugin's file, and the unsaved session is gone.
   */
  lemma MixingRun(s: State) returns (actions: seq<Action>, s': State)
    requires s.saver.Waiting? && s.main.Ready? && s.dstore == PluginStore && s.debugChanged && !s.awaiting
    ensures Runs(s, actions, s') && Quiet(s')
    ensures Parse(s'.pluginFile) == Parse(s.projectKeys)
  {
    hide Parse, Snapshot, Normal, WithDefaults, Runs, Finish, FinishPlugin, FinishProject;
    ParseDefaults(s.projectKeys);
    var s1 := Step(s, Save);
    var s2 := Step(s1, Switch(ProjectStore));
    var s3 := Step(s2, Clear);
    var s4 := Step(s3, Load);
    s' := MixPass(s4);
    var saves := SaveRun(s4);
    RunsCons(s3, Load, saves, s');
    RunsCons(s2, Clear, [Load] + saves, s');
    RunsCons(s1, Switch(ProjectStore), [Clear] + ([Load] + saves), s');
    RunsCons(s, Save, [Switch(ProjectStore)] + ([Clear] + ([Load] + saves)), s');
    actions := [Save] + ([Switch(ProjectStore)] + ([Clear] + ([Load] + saves)));
    ParseIsNormal(WithDefaults(s.projectKeys));
  }

  lemma MixPass(s: State) returns (s': State)
    requires s.saver.PluginBranch? && s.main.Ready? && s.debugChanged && !s.awaiting
    ensures s' == Finish(s) && Quiet(s') && Parse(s'.pluginFile) == Normal(s.session)
  {
    hide Finish, Snapshot, Parse, Normal;
    PluginPass(s);
    ProjectPass(FinishPlugin(s));
    ParseSnapshot(s.pluginKeys, s.session);
    s' := Finish(s);
  }

  // ----- The pass as a program

  class Config {
    const session: DebugSession
    const pluginKeys: KeyFile
    const projectKeys: KeyFile
    var pluginFile: map<string, Group>
    var projectFile: map<string, Group>
    var dstore: DebugStore
    var debugChanged: bool
    var panelChanged: bool

    constructor (session: DebugSession, pluginKeys: KeyFile, projectKeys: KeyFile, store: DebugStore)
      ensures this.session == session && this.pluginKeys == pluginKeys && this.projectKeys == projectKeys
      ensures pluginFile == pluginKeys.groups && projectFile == projectKeys.groups && dstore == store
      ensures !debugChanged && !panelChanged
    {
      this.session, this.pluginKeys, this.projectKeys := session, pluginKeys, projectKeys;
      pluginFile, projectFile, dstore := pluginKeys.groups, projectKeys.groups, store;
      debugChanged, panelChanged := false, false;
    }

    /** The state between two passes, when the session is `v`. */
    ghost function Value(v: Session): State
      reads this, pluginKeys, projectKeys
    {
      State(dstore, v, Keys(pluginKeys.groups), Keys(projectKeys.groups), Keys(pluginFile), Keys(projectFile),
            debugChanged, panelChanged, false, Ready, Waiting)
    }

    /** One round of the loop of saving_thread_func. */
    method SavingPass() returns (ghost v: Session)
      requires session.breaks.store.Valid() && pluginKeys != projectKeys
      modifies this, pluginKeys, projectKeys
      ensures old(debugChanged) ==> session.Is(v)
      ensures Value(v) == Pass(old(Value(v)))
      ensures old(panelChanged) ==> pluginFile == pluginKeys.groups && !panelChanged
      ensures pluginKeys.groups - {DEBUGGER_GROUP} == old(pluginKeys.groups) - {DEBUGGER_GROUP}
    {
      hide Parse, Normal, Pass, Encode, Saved, BreakStore.BreakStore.Valid, DebugSession.Is;
      v := NO_SESSION;
      if panelChanged || (debugChanged && dstore == PluginStore) {
        if debugChanged {
          v := session.SaveToKeyfile(pluginKeys);
          debugChanged := false;
        }
        pluginFile := pluginKeys.groups;
        panelChanged := false;
      }
      if debugChanged && dstore == ProjectStore {
        v := session.SaveToKeyfile(projectKeys);
        projectFile := projectKeys.groups;
        debugChanged := false;
      }
      WholePass(old(Value(v)));
      PassKeepsGroups(old(Value(v)));
    }
  }
}
