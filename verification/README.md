# Verified models of six Geany plugins

This project models the parts of the Geany plugins collection whose state is kept in more
than one place or moves under its own feet, and proves that it stays consistent.

* **Debugger, breakpoints.** One set of breakpoints lives in a store (file name to line to
  breakpoint), in the rows of a tree view, in GDB's own table and in a key file.
  `BreakModel` has the values and what agreement means, `BreakAgreement` and `BreakChecks`
  what each change does to it and to the checkboxes, `BreakStore`, `BreakTree` and
  `BreakOperations` the classes with the operations, `BreakLists` a store as a list,
  `LineShift` and `Callbacks` the shifting of breakpoints on every edit, `BreakRuns` whole
  runs.
* **Debugger, GDB.** `GdbText` has the escaping of locations and how they are read back,
  `GdbMachine` a GDB that parses command lines, numbers what is inserted and may refuse
  anything, `GdbInferior` what it reads about program, arguments, environment and terminal,
  `GdbAgreement` and `DbmGdb` the updates of its table, `GdbStartup` the command queue with
  which a debuggee is started, `BreakStart` how that brings store and table together.
* **Debugger, configuration.** `DebugConfig` saves a session to a key file and loads it,
  `SaverProtocol` is the two-thread saving protocol as a state machine.
* **Auto-close.** `Scintilla` is the part of the editor widget that the plugin uses,
  `Brackets` how it finds matching brackets, `AutocloseBlock`, `AutocloseBackspace`, `AutocloseSelections` and `AutocloseJump` are
  enclosing, Shift+BackSpace, multiple selections and the jump target.
* **Commander, bookmark list, blank lines, script timer.** `Commander`, `BookmarkList`,
  `BlankLines` and `ScriptTimer`.

`Common` and `Decimal` are shared vocabulary. `dafny verify dfyconfig.toml` checks
everything.

## What came out

* An edit that removes lines always shifts breakpoints exactly. An edit that adds `d` lines
  does so if and only if no two breakpoints from the edit on are `d` lines apart, because
  the breakpoints are visited in ascending order and a move replaces what is on the target
  line. Visiting them in descending order would need no condition.
* The test `SC_MOD_DELETETEXT && nt->modificationType` in callbacks.c holds for every
  modification type but 0; the model follows the code.
* Adding a breakpoint in the idle state keeps store and view in agreement exactly when the
  line had none; loading a key file does so exactly when it lists no place twice. With the
  debuggee stopped, a hit count that GDB refuses stays in the store only, and a refused
  insertion leaves a breakpoint without a row.
* A location is recovered from what GDB lists if and only if the file has a name, when the
  listing keeps the quotes, and if and only if the name does not itself begin with a quote
  (and have more than two characters), when it does not. Exactly if all stored breakpoints
  are of that kind, a start-up that GDB carries out leaves its table in agreement with the
  store.
* A start-up that GDB carries out completely leaves it with exactly the given program,
  arguments, terminal and environment: an assignment counts up to its first equals sign as
  the name, and the last one for a name wins, the locale's coming first.
* Every operation keeps the file checkboxes right but one: adding a disabled breakpoint to a
  file whose checkbox is set leaves it set.
* In the plugin store, everything is on disk once nothing is pending, in every
  interleaving, even of the unlocked steps of a store switch. For a project this fails: a
  pass that begins while both change flags are raised writes the session to the plugin's key
  file only and clears the flag. A pass saves unsaved project changes exactly when the panel
  flag is clear, and exactly then leaves the session in the plugin's file alone, unless it
  is the same one already.
* Between two passes a project's file is the whole key file in memory. So is the plugin's
  file when no panel change is pending, in every run but those in which the defaults for a
  missing group are added while the old contents are being written: these defaults are in
  memory, but not in the file.
* A switch during a pass can put one store's session into the other's file. That takes a
  snapshot for a store whose session is not in memory: in every run without one, each file
  has what it had at the start or a session of its own store, and each such snapshot writes
  the foreign session.
* The block around a selection of several lines reaches to the line of the selection's end
  exactly if that end is at least two characters into its line. Otherwise it stops one line
  short, or two if the end is at the beginning of its line and the line above is empty and
  not the first one.
* Shift+BackSpace on the bracket of a block undoes enclosing line by line, for each of the
  block ends that the stale end position can give. An empty line is left exactly when the
  closing bracket was on the last line.
* While the caret is left of it, the jump counter stays on its target under every key but
  one: a closing character that is meant to be swallowed but is not (in comments, or a
  semicolon inside a line) counts down although nothing was deleted.
* Commander's ranking puts all rows of the requested type first if and only if
  3 * n + 1 < 0xf000, where n counts the characters of the key that are no separators.
* Removing all bookmarks at once leaves the bookmark list as it was: Scintilla reports that
  with line -1, and the list looks for a row with number 0.
* After dialogs have used up the budget of a script, the user is asked as soon as any time
  has passed, not before.

## Model

| member | source | states |
|---|---|---|
| BreakTree.BreakTree.AddBreakpoint | debugger/src/bptree.c:800-852 | the file row and hash entry are made if missing, the new row goes before the first row with a greater line, the breakpoint points to it |
| BreakTree.BreakTree.RemoveBreakpoint | debugger/src/bptree.c:879-895 | the row goes; with the last row of a file its file row and hash entry go too, otherwise the file checkbox is brought up to date |
| BreakTree.BreakTree.UpdateBreakpoint | debugger/src/bptree.c:859-872 | all cells of the row that the breakpoint points to are overwritten, nothing else |
| BreakTree.BreakTree.UpdateFileNode | debugger/src/bptree.c:124-149 | the checkbox of a file row is set iff no child is disabled |
| BreakTree.BreakTree.UpdateFileNodes | debugger/src/bptree.c:901-912 | afterwards every file checkbox is right and no child row has changed |
| BreakTree.BreakTree.SetEnabled | debugger/src/bptree.c:735-743 | one cell of one row, and its file's checkbox |
| BreakTree.BreakTree.SetHitscount | debugger/src/bptree.c:750-753 | one cell of one row |
| BreakTree.BreakTree.SetCondition | debugger/src/bptree.c:760-763 | one cell of one row |
| BreakAgreement.AddAgrees | debugger/src/bptree.c:800-852 | a new row for a breakpoint on an unset line keeps store and view in agreement: one row per breakpoint with equal fields, rows strictly sorted, one file row and hash entry per file with breakpoints |
| BreakAgreement.AddTwiceDisagrees | debugger/src/breakpoints.c:362-398 | adding to a line that is taken always loses the agreement |
| BreakAgreement.AddKeepsOverfull | debugger/src/bptree.c:800-852 | once a file has a row too many, no further additions make up for it |
| BreakAgreement.OverfullDisagrees | debugger/src/bptree.c:800-852 | then store and view disagree: linked rows are as many as breakpoints |
| BreakAgreement.RemoveAgrees | debugger/src/breakpoints.c:96-107 | removing a breakpoint and its row keeps the agreement |
| BreakAgreement.SwitchAgrees | debugger/src/breakpoints.c:121-129 | toggling a breakpoint and its cell keeps the agreement |
| BreakAgreement.CellAgrees | debugger/src/breakpoints.c:108-120 | so do changing a hit count or a condition together with its cell |
| BreakAgreement.NoRowDisagrees | debugger/src/breakpoints.c:182-193 | a stored breakpoint that got no row breaks the agreement, whatever was on its line before |
| BreakAgreement.StaleHitsDisagree | debugger/src/breakpoints.c:206-216 | a row with an old hit count breaks the agreement |
| BreakChecks.AddChecked | debugger/src/bptree.c:800-852 | adding a row does not bring the checkbox of its file up to date: checkboxes that were right are right afterwards iff the breakpoint is enabled or its file has a row that is not checked |
| BreakChecks.RemoveChecked | debugger/src/bptree.c:879-895 | removing a row keeps all checkboxes right |
| BreakChecks.SwitchChecked | debugger/src/bptree.c:735-743 | so does switching one |
| BreakChecks.MoveChecked | debugger/src/bptree.c:859-872 | so does overwriting the row of a breakpoint that has moved |
| BreakChecks.BoxIs | debugger/src/bptree.c:124-149 | with store and view in agreement, a right checkbox tells whether all stored breakpoints of the file are enabled |
| BreakStore.BreakStore.Lookup | debugger/src/breakpoints.c:686-694 | the live breakpoint of a place, or none iff the store has none |
| BreakStore.BreakStore.GetState | debugger/src/breakpoints.c:646-662 | unset, enabled or disabled, as stored |
| BreakStore.BreakStore.GetForDocument | debugger/src/breakpoints.c:669-678 | all breakpoints of a file by strictly ascending line |
| BreakStore.BreakStore.GetAll | debugger/src/breakpoints.c:700-705 | every stored breakpoint exactly once |
| BreakStore.BreakStore.Insert | debugger/src/breakpoints.c:362-398 | the breakpoint is on its line; one that was there is freed; nothing else changes |
| BreakStore.BreakStore.MoveToLine | debugger/src/breakpoints.c:620-638 | the breakpoint is on the target line and no longer on its own; one that was on the target is freed |
| Breakpoints.Breakpoints.Add | debugger/src/breakpoints.c:362-398 | idle: the store has the new breakpoint, everything stays in step iff the line was unset, and the checkboxes stay right iff the breakpoint is enabled or its file's checkbox was not set; stopped: store and view agree iff GDB took the insertion and the condition on an unset line; if the commands fit GDB's command buffer, everything stays in step iff moreover the new entry is found again and has all settings, for which it is enough that GDB refuses nothing |
| Breakpoints.Breakpoints.AddDebug | debugger/src/breakpoints.c:182-193 | a row appears only when GDB has the breakpoint; store and view agree afterwards iff it has and the line was unset, and so does the table, if the commands fit, iff the new entry is found again with all settings |
| Breakpoints.Breakpoints.Remove | debugger/src/breakpoints.c:406-431 | everything stays in step, right checkboxes stay right; idle: exactly that breakpoint goes; stopped: it goes from all three places, or from none if GDB refused something |
| Breakpoints.Breakpoints.RemoveList | debugger/src/breakpoints.c:438-459 | everything stays in step; only listed breakpoints go, and all of them if idle or if GDB refuses nothing |
| Breakpoints.Breakpoints.TryRemove | debugger/src/breakpoints.c:194-205 | row and store entry go exactly when GDB's entry went |
| Breakpoints.Breakpoints.Switch | debugger/src/breakpoints.c:509-537 | everything stays in step, right checkboxes stay right; idle: the state is toggled; stopped: toggled everywhere, or nowhere if GDB refused something |
| Breakpoints.Breakpoints.SwitchDebug | debugger/src/breakpoints.c:235-248 | a refused switch is rolled back to the old store |
| Breakpoints.Breakpoints.SetEnabledForFile | debugger/src/breakpoints.c:477-501 | everything stays in step, right checkboxes stay right; each breakpoint of the file has the wanted state, or its old one if GDB refused; no other breakpoint changes |
| Breakpoints.Breakpoints.SetEnabledList | debugger/src/breakpoints.c:249-294 | the same for a list, whatever subset of the calls fails |
| Breakpoints.Breakpoints.SetHitsCount | debugger/src/breakpoints.c:546-574 | in step afterwards iff GDB took the count or nothing changed; GDB takes it unless it refuses something, and in the idle state all is in step |
| Breakpoints.Breakpoints.SetCondition | debugger/src/breakpoints.c:583-611 | store and view agree afterwards, with the condition new in both, or old in both if GDB refused something; so does GDB's table unless the command for it does not fit the command buffer |
| Breakpoints.Breakpoints.SetConditionDebug | debugger/src/breakpoints.c:217-234 | a refused condition is taken back from the row; GDB's table agrees unless the command does not fit |
| BreakRuns.RunIdle | debugger/src/breakpoints.c:362-638 | after every run of adds on unset lines, removals, switches, hit counts, conditions, file switches and collision-free edits, places and settings of the breakpoints are those that the operations give one after another, store and view agree, and the checkboxes are right unless a disabled breakpoint was added to a file without disabled ones |
| BreakRuns.RunStopped | debugger/src/breakpoints.c:194-309 | after every run of removals, switches, condition edits and list operations, store, view and GDB's table agree, and step by step each place is as the operation leaves it or, where GDB refuses, as it was; if GDB refuses nothing, the breakpoints are those that the operations give one after another |
| LineShift.AscendingStep | debugger/src/callbacks.c:268-289 | in ascending order a step hits another breakpoint iff lines are added and one is exactly that far below; otherwise it puts its breakpoint where it belongs |
| LineShift.DescendingIsExact | debugger/src/callbacks.c:268-289 | moved in descending order, breakpoints are always shifted exactly |
| LineShift.ShiftKeepsSize | debugger/src/callbacks.c:268-289 | an exact shift by added lines loses and duplicates nothing |
| LineShift.ShiftAscending | debugger/src/bptree.c:859-872 | rows in their old order that show an exact shift are sorted, so updating rows in place suffices |
| Callbacks.ShiftItem | debugger/src/callbacks.c:270-286 | one iteration leaves, moves or removes the breakpoint and its row, or loses another breakpoint exactly on a clash |
| Callbacks.ShiftList | debugger/src/callbacks.c:267-288 | the whole loop is exact, or has lost a breakpoint because two were the added number of lines apart |
| Callbacks.OnModified | debugger/src/callbacks.c:260-299 | breakpoints above the edit stay, those on removed lines go, the others move, and all stays in step, if and only if lines were removed or no two breakpoints from the edit on are that far apart; right checkboxes then stay right |
| Callbacks.OnMarginClick | debugger/src/callbacks.c:190-214 | an unset line gets an enabled breakpoint, an enabled one is removed, a disabled one is enabled, all in step; while the debuggee is stopped a refused removal or switch changes nothing, and a click on an unset line is in step iff GDB took the breakpoint; a file name that is too long for the name buffer is never found, so that clicks only add, in step iff the line is unset for the cut name |
| GdbText.EscapeString | debugger/src/dbm_gdb.c:694-713 | the buffer of 2n + 1 characters is never overrun and holds the escaped string, terminated |
| GdbText.ReadEscaped | debugger/src/dbm_gdb.c:694-713 | reading an escaped string as a c-string of GDB/MI gives the string back |
| GdbText.LocationRecovered | debugger/src/dbm_gdb.c:951-996 | a quoted location with a nonempty file name matches exactly its own file and line, whatever colons, quotes and backslashes the name has |
| GdbText.PlainLocationRecovered | debugger/src/dbm_gdb.c:951-996 | an unquoted one matches its own file and line unless the name has more than two characters and begins with a quote |
| GdbText.ShownIsFound | debugger/src/dbm_gdb.c:951-996 | a location that stands for its place, quoted or not, matches exactly that file and line |
| GdbText.ShowsPlaceExactly | debugger/src/dbm_gdb.c:951-996 | listed with quotes, a location stands for its place iff the file name is not empty; without, iff the name does not look quoted |
| GdbMachine.ParsesInsert | debugger/src/dbm_gdb.c:1014-1020 | GDB reads the location, and whether the insertion is forced, as printed |
| GdbMachine.ParsesAfter | debugger/src/dbm_gdb.c:1034-1039 | GDB reads number and count as printed |
| GdbMachine.ParsesCondition | debugger/src/dbm_gdb.c:1040-1046 | GDB reads number and condition as printed |
| GdbMachine.ParsesEnable | debugger/src/dbm_gdb.c:1047-1064 | GDB reads number and state as printed |
| GdbMachine.ParsesDelete | debugger/src/dbm_gdb.c:1079-1094 | GDB reads the number as printed |
| GdbMachine.ExecuteWellNumbered | debugger/src/dbm_gdb.c:1001-1094 | numbers in GDB's table stay distinct and ascending |
| GdbAgreement.ChangeAgrees | debugger/src/dbm_gdb.c:1056-1071 | changing a stored breakpoint and its entry alike keeps store and table in agreement |
| GdbAgreement.InsertAgrees | debugger/src/dbm_gdb.c:1004-1055 | so does inserting an entry with the settings of a new breakpoint |
| GdbAgreement.DeleteAgrees | debugger/src/dbm_gdb.c:1079-1094 | so does deleting both |
| GdbAgreement.BadEntryDisagrees | debugger/src/dbm_gdb.c:1034-1055 | an entry that misses a setting, or that is not found again, breaks the agreement |
| DbmGdb.Gdb.GetBreakNumber | debugger/src/dbm_gdb.c:951-996 | a number other than -1 is that of the first entry whose location matches; -1 means that there is none or that the table could not be listed |
| DbmGdb.Gdb.NewBreak | debugger/src/dbm_gdb.c:1004-1055 | on success the table has one new last entry for the place, whose settings are those of the breakpoint or lack refused ones; without a new entry GDB has refused exactly the plain and then the forced insertion; a refused condition is a failure, other refused settings are not; if GDB refuses nothing, the entry has all settings |
| DbmGdb.Gdb.UpdateBreak | debugger/src/dbm_gdb.c:1056-1071 | on success exactly the matching entry has the edited setting, on failure the table is unchanged; with an entry that matches, it fails only when GDB refuses something |
| DbmGdb.Gdb.RemoveBreak | debugger/src/dbm_gdb.c:1079-1094 | on success exactly the matching entry is gone, on failure the table is unchanged; with an entry that matches, it fails only when GDB refuses something |
| GdbStartup.Startup.Run | debugger/src/dbm_gdb.c:718-887 | the queue that run() collects, in order, with the commands of the k-th breakpoint addressed to number k; GdbStartup.StartupSetsUp and GdbStartup.StartupExecutes say what the lines do |
| GdbStartup.Startup.OnReadAsyncOutput | debugger/src/dbm_gdb.c:309-405 | "done" sends the next command or, after the last, asks for the source files and starts the debuggee; an error stops once and drops the queue |
| GdbStartup.BreaksExecute | debugger/src/dbm_gdb.c:825-865 | carried out on an empty table, the breakpoint commands leave exactly the k-th breakpoint, with all settings, at number k |
| GdbStartup.StartupExecutes | debugger/src/dbm_gdb.c:718-887 | the same for the whole queue: setup, environment and terminal commands do not touch the table |
| GdbStartup.StartupSetsUp | debugger/src/dbm_gdb.c:718-887 | read by GDB one after another, the lines of the queue leave the given program, arguments and terminal, the environment of LANG and then the given assignments, the last one for each name, and the fixed settings; nothing else |
| GdbStartup.ReadsEnvironment | debugger/src/dbm_gdb.c:818-820 | an environment line is read as its name and value; a name with an equals sign is cut there |
| GdbInferior.AssignmentRead | debugger/src/dbm_gdb.c:818-820 | a name without equals sign and any value are read back from the assignment |
| GdbInferior.CStringRead | debugger/src/dbm_gdb.c:777-786 | a quoted and escaped argument is read back as the text it was made from |
| GdbStartup.NeverRuns | debugger/src/dbm_gdb.c:718-887 | no queued command is the one that starts the debuggee or ends GDB |
| GdbStartup.StartDebuggee | debugger/src/dbm_gdb.c:309-405 | in every run either all commands were answered "done", the debuggee was started exactly once and, if all lines reached GDB whole, it has exactly the breakpoints, program, arguments, environment and terminal, or nothing was sent after the first error and GDB was stopped once |
| BreakStart.StartAgrees | debugger/src/dbm_gdb.c:825-865 | the table with the k-th of the stored breakpoints at number k agrees with the store iff all its locations are found again |
| BreakStart.DebugRun | debugger/src/debug.c:1192-1232 | from an idle state in step, a start-up either fails and leaves everything in step, or ends stopped with the table of the stored breakpoints and the given debuggee, in step iff all locations are found again |
| ConfigKeys.KeysDistinct | debugger/src/dconfig.c:180-265 | the keys of environment, watches, breakpoints and counts are pairwise distinct for all indices |
| DebugConfig.DebugSession.SaveToKeyfile | debugger/src/dconfig.c:180-265 | the old group is gone and the group holds the session, the other groups are untouched |
| DebugConfig.DebugSession.LoadFromKeyfile | debugger/src/dconfig.c:99-175 | target, debugger, arguments, environment, watches and breakpoints are those of the group, in order, the last one for each place; checkboxes are right, the change flag is untouched; store and view agree iff the group lists no place twice |
| DebugConfig.LoadStep | debugger/src/dconfig.c:145-171 | one iteration of the loading loop keeps the list stored, and the agreement exactly until a place is listed twice |
| DebugConfig.DebugSession.SetDefaults | debugger/src/dconfig.c:403-412 | the defaults are what saving an empty session writes |
| DebugConfig.DebugSession.SetDebugStore | debugger/src/dconfig.c:528-553 | the session becomes the one of the key file, or an empty one that is written if there was none |
| DebugConfig.SavedIsLoaded | debugger/src/dconfig.c:99-265 | loading a saved session gives the session back, everything in order |
| DebugConfig.SaveThenLoad | debugger/src/dconfig.c:99-265 | the loaded breakpoint map is the saved one, apart from places in the tree view |
| DebugConfig.DebugSession.SaveAndReload | debugger/src/dconfig.c:99-265 | saving and switching to the same key file restores the whole session |
| SaverProtocol.SaveInv | debugger/src/dconfig.c:270-317 | every statement of a saving pass keeps the invariant of the plugin store, and that of the project store unless a losing pass begins |
| SaverProtocol.MainInv | debugger/src/dconfig.c:322-398 | so does every step of the main thread, including the unlocked steps of a store switch; a panel change is one step, as it holds the mutex |
| SaverProtocol.LoadInv | debugger/src/dconfig.c:528-553 | loading, with or without defaults, establishes both invariants |
| SaverProtocol.PluginSafety | debugger/src/dconfig.c:270-317 | over every interleaving from the start: with nothing pending, the plugin's file parses to the session |
| SaverProtocol.ProjectSafety | debugger/src/dconfig.c:270-317 | the same for the project's file over every run in which no pass begins with both flags raised for it |
| SaverProtocol.PassSavesPlugin | debugger/src/dconfig.c:270-317 | an undisturbed pass puts the session of the plugin store on disk |
| SaverProtocol.PassSavesProject | debugger/src/dconfig.c:276-310 | unsaved changes of a project survive an undisturbed pass iff the panel flag is clear |
| SaverProtocol.PassKeepsPlugin | debugger/src/dconfig.c:270-317 | an undisturbed pass in a project leaves the plugin's file alone iff one of the flags is clear, or the file has that session already |
| SaverProtocol.PassKeepsProject | debugger/src/dconfig.c:270-317 | an undisturbed pass in the plugin store never touches the project's file |
| SaverProtocol.PassWritesPanel | debugger/src/dconfig.c:276-297 | a pass with the panel flag raised writes the plugin's whole key file and clears the flag; one with neither reason to write leaves the file alone |
| SaverProtocol.PassKeepsGroups | debugger/src/dconfig.c:284-304 | in both key files a pass changes no group but the debugger's |
| SaverProtocol.PanelSafety | debugger/src/dconfig.c:270-398 | over every run in which no defaults are added while old contents are being written: between passes, with no panel change pending, the plugin's file is the whole key file in memory |
| SaverProtocol.ProjectFileSafety | debugger/src/dconfig.c:270-317 | over every run: between passes the project's file is the whole key file in memory |
| SaverProtocol.LateDefaultsMissing | debugger/src/dconfig.c:528-553 | defaults that are added during the write are missing in the file when the pass is over, and nothing is pending |
| SaverProtocol.LosingRun | debugger/src/dconfig.c:284-288 | from every start in a project there is a run that loses any given new session, and writes it to the plugin's file instead |
| SaverProtocol.LossStays | debugger/src/dconfig.c:270-317 | no number of later passes and panel changes saves it; it takes another change of the session |
| SaverProtocol.MixingRun | debugger/src/dconfig.c:528-553 | from every state with unsaved plugin changes there is a run that overwrites the plugin's file with the project's session |
| SaverProtocol.KeepsOwn | debugger/src/dconfig.c:270-317 | for either store: in every run without a snapshot for a store whose session is not in memory, the store's file has its first contents or a session that was in memory for it |
| SaverProtocol.ForeignSaveWrites | debugger/src/dconfig.c:284-310 | such a snapshot takes the foreign session, and the rest of the pass writes it to the store's file |
| SaverProtocol.Config.SavingPass | debugger/src/dconfig.c:270-317 | the loop body on real key files does what the state machine's pass does; a panel change puts the plugin's whole key file on disk, and no group but the debugger's changes |
| Commander.GetScore | commander/src/commander-plugin.c:127-153 | the recursion ends on every pair, and the score lies between 0 and 2 * length + 1 |
| Commander.ScoreIsUpperBound | commander/src/commander-plugin.c:127-153 | no alignment of the needle has more points than the score; separators of the needle go on from where a word ends or begins, without points |
| Commander.ScoreIsReached | commander/src/commander-plugin.c:127-153 | some alignment has as many |
| Commander.ScoreIsMaximum | commander/src/commander-plugin.c:127-153 | the score is the maximum over all alignments: one point per character that is no separator, per word end and for a used-up needle |
| Commander.LettersBound | commander/src/commander-plugin.c:127-153 | separators score nothing: at most two points per other character, and one |
| Commander.BasenameIsShortest | commander/src/commander-plugin.c:155-168 | the base name is cut at the last slash or arrow, or nowhere if there is none |
| Commander.KeyScore | commander/src/commander-plugin.c:170-184 | the combined score lies between 0 and 3 * length + 1 |
| Commander.KeyScoreIsBest | commander/src/commander-plugin.c:170-184 | the best alignment in the text counts fully and the best one in its base name half |
| Commander.KeyOf | commander/src/commander-plugin.c:186-204 | the prefixes f: and c: are cut off and ask for files and menu items; anything else asks for both |
| Commander.CompareIsTotalPreorder | commander/src/commander-plugin.c:429-461 | rows are compared by a total preorder |
| Commander.ShortKeysRank | commander/src/commander-plugin.c:429-461 | below that bound every row of the requested type goes before every other row |
| Commander.SpacedScores | commander/src/commander-plugin.c:170-184 | every key reaches the bound against its own letters, spaced |
| Commander.RightTypeFirstExactly | commander/src/commander-plugin.c:429-461 | for every key with a type, the ranking by type holds iff 3 * n + 1 < 0xf000, n being the number of characters that are no separators |
| BookmarkList.AoBookmarkList.AddLine | addons/src/ao_bookmarklist.c:183-216 | the row of a line is replaced, or inserted at its sorted place |
| BookmarkList.LabelIs | addons/src/ao_bookmarklist.c:188-190 | the text of a row is that of the line without the white space at both ends, and a fixed text iff the line has nothing else |
| BookmarkList.AoBookmarkList.DeleteLine | addons/src/ao_bookmarklist.c:168-180 | the row of a line is removed if there is one |
| BookmarkList.WithRowAscends | addons/src/ao_bookmarklist.c:183-216 | adding keeps rows sorted and without duplicates and leaves every other row alone |
| BookmarkList.WithoutRowAscends | addons/src/ao_bookmarklist.c:168-180 | so does deleting |
| BookmarkList.RescanShows | addons/src/ao_bookmarklist.c:428-452 | the rescan shows exactly the bookmarks |
| BookmarkList.ShownAsRescanned | addons/src/ao_bookmarklist.c:428-496 | rows that show the bookmarks have the lines of a rescan, in its order, however they came about |
| BookmarkList.AoBookmarkList.UpdateDelayed | addons/src/ao_bookmarklist.c:428-452 | after a refresh the rows are those of the rescan, or untouched if the list is disabled |
| BookmarkList.AoBookmarkList.UpdateMarker | addons/src/ao_bookmarklist.c:473-496 | what each notification does to the rows and to the queued refresh |
| BookmarkList.AoBookmarkList.SetEnabled | addons/src/ao_bookmarklist.c:96-118 | enabling starts from an empty store with a refresh queued |
| BookmarkList.AoBookmarkList.ToggleMark | addons/src/ao_bookmarklist.c:481-489 | setting or removing one bookmark keeps the rows right |
| BookmarkList.AoBookmarkList.Edit | addons/src/ao_bookmarklist.c:490-494 | so does any edit: one that changes the number of lines queues a refresh |
| BookmarkList.AoBookmarkList.DeleteAllMarks | addons/src/ao_bookmarklist.c:481-489 | removing all bookmarks at once keeps the rows right iff there were none, a refresh is queued or the list is disabled |
| BookmarkList.AoBookmarkList.Run | addons/src/ao_bookmarklist.c:428-496 | over every run of bookmark changes, edits, switching the list on and off and idle callbacks: document, bookmarks, rows and state are those that the events give one after another, and with the list enabled and no refresh queued, the rows are exactly the bookmarked lines, without duplicates |
| BlankLines.Editor.StripTrailingNewlines | addons/src/ao_blanklines.c:29-81 | the loops strip exactly the trailing white space, or with the setting everything after the last line that is not blank, keeping its blanks and its line end |
| BlankLines.LineShape | addons/src/ao_blanklines.c:43-46 | a line has no end characters inside and ends in "\n", "\r" or "\r\n" |
| BlankLines.Stripped | addons/src/ao_blanklines.c:29-81 | the result is a prefix and what was removed is only spaces, tabs and line ends |
| BlankLines.AllWhiteStripped | addons/src/ao_blanklines.c:67-80 | a document of nothing but white space becomes empty |
| BlankLines.StrippedEnd | addons/src/ao_blanklines.c:67-80 | without the setting no white space is left at the end |
| BlankLines.StrippedEndsInOneLine | addons/src/ao_blanklines.c:67-80 | with it the text ends with its last line that is not blank, blanks included, and with that line's own end, uncut, unless nothing was removed |
| BlankLines.FinalNewLineKept | addons/src/ao_blanklines.c:67-80 | the setting keeps a line end: the result ends in one unless it is empty or the text was left alone |
| BlankLines.StrippedTwice | addons/src/ao_blanklines.c:29-81 | stripping is idempotent |
| ScriptTimer.StateInfo.DebugHook | geanylua/glspi_run.c:185-217 | when the user is asked, and what either answer and the counter do |
| ScriptTimer.StateInfo.PauseTimer | geanylua/glspi_run.c:228-240 | a pause charges the elapsed time and a tenth of a second, down to 0; resuming restarts the timer |
| ScriptTimer.StateInfo.SetTimeout | geanylua/glspi_run.c:152-165 | a limit is granted anew unless it is negative; the timer keeps running |
| ScriptTimer.AsksExactly | geanylua/glspi_run.c:195-210 | the hook asks iff time has passed in the segment and everything charged exceeds a positive limit |
| ScriptTimer.BudgetIsConserved | geanylua/glspi_run.c:152-240 | over every run of lines, dialogs and limits: what remains is the limit less all charges since the last grant, not below 0, and the hook asks exactly when they exceed it |
| ScriptTimer.RemainingAfterRounds | geanylua/glspi_run.c:228-240 | after any segments and dialogs since a grant, max(0, limit - sum of segments and fees) remains, and the dialogs themselves are free |
| ScriptTimer.CountIs | geanylua/glspi_run.c:211-215 | over every run the counter is the number of lines reached before the script was optimized, modulo 100002 |
| Scintilla.SetIndentationIs | autoclose/src/autoclose.c:112-117 | a line gets the wanted indentation, in tabs and blanks, and keeps its text |
| Scintilla.TabsThenSpaces | autoclose/src/autoclose.c:112-117 | with tabs an indentation is as many tabs as fit and then spaces |
| Scintilla.SplitText | autoclose/src/autoclose.c:146-150 | in the text of the document, inserting lines at a position inserts just those characters there |
| Scintilla.CutText | autoclose/src/autoclose.c:444-449 | deleting a character takes exactly that one out of the text |
| Scintilla.WithoutText | autoclose/src/autoclose.c:119-125 | deleting a line takes out its characters and its line end, if it has one |
| AutocloseBlock.Block.EncloseBlock | autoclose/src/autoclose.c:530-559 | the lines of the block are moved right by one width, both brackets are on lines of their own with the first line's indentation, every other line is untouched; which lines these are, in terms of the document before |
| AutocloseBlock.BlockEndIs | autoclose/src/autoclose.c:533-553 | a selection in one line encloses that line; otherwise the line of its end belongs to the block iff the end is at least two characters into it, and the line above iff it is the first one or the end is at least two characters past its beginning |
| AutocloseBlock.EnclosingAddsBrackets | autoclose/src/autoclose.c:530-559 | the text without blanks gains the two brackets around that of the block, and both are indented like the first line |
| AutocloseBlock.StaleEnd | autoclose/src/autoclose.c:533-537 | the end line that is looked up after the first insertion is off by at most one |
| AutocloseBlock.Block.ImproveIndent | autoclose/src/autoclose.c:322-368 | nothing happens unless the caret is behind an opening bracket and, when brackets are completed, in front of a closing one; otherwise the line is split, with an empty line one width further in and the closing bracket below the line's beginning, and the caret on the empty line |
| AutocloseBlock.SplittingKeepsText | autoclose/src/autoclose.c:322-368 | the text without blanks gains at most the closing bracket, at the caret |
| AutocloseBackspace.Backspace.HandleBackspace | autoclose/src/autoclose.c:407-494 | which pair is removed in which configuration, and when nothing happens |
| AutocloseBackspace.Backspace.DeletePair | autoclose/src/autoclose.c:444-449 | exactly the two characters go, whichever comes first |
| AutocloseBackspace.Backspace.Collapse | autoclose/src/autoclose.c:451-476 | each bracket line goes iff it became blank (the last line is only emptied), exactly the lines strictly between lose one width, every other line is kept |
| AutocloseBackspace.RemovingKeepsText | autoclose/src/autoclose.c:444-480 | apart from the two brackets no character is lost but blanks |
| AutocloseBackspace.CollapsedAround | autoclose/src/autoclose.c:451-471 | a bracket's line stays as it is iff it has other text, and so do all lines around the block |
| AutocloseBackspace.CollapsedInside | autoclose/src/autoclose.c:472-476 | each line strictly between is unindented, at the place that follows from which bracket lines are left |
| Brackets.FindMatchingIs | autoclose/src/autoclose.c:433-436 | from either bracket the other is found iff there are only pairs of brackets between them |
| Brackets.FindMatchingBack | autoclose/src/autoclose.c:433-436 | from the bracket that was found the first one is found again |
| AutocloseBackspace.FindPreviousIs | autoclose/src/autoclose.c:387-403 | the quote that was found is the last one before the caret's |
| AutocloseBackspace.FindPreviousNone | autoclose/src/autoclose.c:387-403 | none is found iff there is none |
| AutocloseBackspace.CharAtIs | autoclose/src/autoclose.c:93-97 | the character at a position is that of the document's text, or nothing outside it |
| AutocloseBackspace.UnindentedIs | autoclose/src/autoclose.c:112-117 | one width less, but not below 0, and the text is kept |
| AutocloseBackspace.SecondCut | autoclose/src/autoclose.c:446-449 | the second bracket is found where the first deletion has moved it |
| AutocloseBackspace.BlockMatches | autoclose/src/autoclose.c:428-437 | the bracket that closes a balanced block is the one that enclosing inserted |
| AutocloseBackspace.RemovingUndoesEnclosing | autoclose/src/autoclose.c:428-480 | removing the pair gives indentation and text of every line back, with an empty line left over iff the closing bracket was on the last line |
| AutocloseBackspace.EncloseAndRemove | autoclose/src/autoclose.c:428-559 | the same for the two key presses on the buffer |
| AutocloseSelections.Editor.EncloseSelections | autoclose/src/autoclose.c:562-609 | the text has every segment enclosed, and selections that are kept are the segments at their new places, for selections made in either direction |
| AutocloseSelections.Editor.EncloseSelection | autoclose/src/autoclose.c:610-623 | a single selection is enclosed and either stays selected or leaves the caret in front of the inserted bracket, which the jump counter counts |
| AutocloseSelections.SegmentsKept | autoclose/src/autoclose.c:593-606 | at its new place each segment is the original one, directly between its brackets |
| AutocloseSelections.GapsKept | autoclose/src/autoclose.c:593-606 | so is the text before, between and after them |
| AutocloseJump.Editor.KeyPress | autoclose/src/autoclose.c:735-813 | a key closes, replaces the same character or is typed alone, exactly when the settings, the text around the caret and its style say so, and what the counter is then; it still leads to the target iff it is 0, or the caret was left of the target and the character was not one that failed to be swallowed |
| AutocloseJump.DecideExactly | autoclose/src/autoclose.c:735-813 | a closing character is added iff the key is the first one of an enabled pair, no escaped quote, not in front of itself as a quote, and code or comments are meant; when it is swallowed, and when it is doubled |
| AutocloseJump.EndPosIs | autoclose/src/autoclose.c:238-252 | the end of a line's text is where only blanks and closing curly brackets follow and neither stands before |
| AutocloseJump.TypingBothGivesOnePair | autoclose/src/autoclose.c:772-811 | typing an opening and then its closing character gives the pair once: the first closes, the second is swallowed |
| AutocloseJump.Editor.PressBackSpace | autoclose/src/autoclose.c:483-493 | an empty pair goes as a whole and resets the counter; otherwise the counter still leads to the target |
| AutocloseJump.BackSpaceUndoesClosing | autoclose/src/autoclose.c:483-493 | BackSpace after a key that closed a pair restores text and caret, but for a semicolon |
| AutocloseJump.Editor.PressTab | autoclose/src/autoclose.c:724-732 | the caret lands on the target and the counter is reset |
| AutocloseJump.Editor.MoveCaret | autoclose/src/autoclose.c:824-849 | on the same line the counter follows the caret, on another line it is reset |
| AutocloseJump.SameLine | autoclose/src/autoclose.c:824-849 | two positions are on one line iff there is no line end between them |
| AutocloseJump.Editor.Run | autoclose/src/autoclose.c:684-849 | over every run, text, caret and counter are those that the events give one after another, and the counter leads to the target whenever it is not 0, up to the first character that failed to be swallowed or move past the target on its line |

## Left out

- Breakpoints.Breakpoints.Add: when a command is longer than GDB's command buffer or has a line end, GDB may do anything, and nothing is stated about its table; the same holds for Breakpoints.Breakpoints.SetCondition and GdbStartup.StartDebuggee.
- BreakRuns.RunStopped: additions and hit counts, whose refusal breaks the agreement, and conditions that do not fit the command buffer are not among the operations.
- BreakStart.DebugRun: starting is followed up to the first stop of the debuggee; nothing happens to the breakpoints before that.
- Breakpoints.Breakpoints.SetHitsCount: counts are C integers.
- Callbacks.OnModified: a breakpoint that another one was moved onto is freed while the loop still has it; the model lets freed memory hold anything and states nothing about the view after that.
- DebugConfig.DebugSession.LoadFromKeyfile: a missing file name is read as an empty one.
- DebugConfig.DebugSession.Clear: clearing is modelled by its effect, since removing from a GTree while traversing it is undefined; the empty trees stay in the hash table.
- BookmarkList.AoBookmarkList.Run: removing all bookmarks at once is not among the events; AoBookmarkList.DeleteAllMarks states what it does.
- BookmarkList.AoBookmarkList.Edit: Scintilla may move and merge bookmarks in any way when the number of lines changes.
- AutocloseBlock.Block.EncloseBlock: the caret is only stated for the option that moves it to the block's beginning.
- AutocloseBackspace.Backspace.HandleBackspace: the caret after the deletions is not stated; that the jump counter is reset is part of AutocloseJump.Editor.PressBackSpace.
- AutocloseSelections.Editor.EncloseSelections: for disjoint selections in order whose carets are on one side of their anchors, the first two carets being apart; where Scintilla moves selections that are not set anew is not stated.
- ScriptTimer.MayCome: pausing and resuming alternate; nested dialogs are not modelled.
- The running state of the debugger, in which operations are queued as interrupts, and everything asynchronous in it.
- GTK widgets, markers, dialogs, messages, selections and icons; of the tree view only rows, cells and the file hash.
- Names of environment variables with blanks, and what GDB does with a locale that is not set; lines are read as the text that follows their command.
- GDB's replies: a command is answered with success or failure; listings of the table are read as records, with locations quoted or not as GDB keeps them.
- Processes, channels, files and the escaping inside key files; a file is what was last written.
- Opening another project, and the project-save handler, during a saving pass; both replace the project's key file without the mutex.
- The target page, watch list and environment tree are plain sequences, since tpage.c, envtree.c and wtree.c only hold what they are given.
- 32-bit overflow of lines and positions; reading a printed number assumes that it fits.
- Case folding in Commander: both strings are taken as already folded.
- Autoclose works on documents whose lines end in "\n"; which lexers have braces, what is a comment and when a semicolon belongs after a function are inputs.
- The names in the rows of the bookmark list become stale when a line's text changes; only their line numbers are compared.
- Undo actions, and the repainting of the window when the script hook's counter starts anew.
