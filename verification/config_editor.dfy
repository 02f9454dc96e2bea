/** The raw `smb.conf` editor of `modules/config.js`: the editor state (`isEditing`,
    `originalContent`, the textarea and its buttons) as a state machine, and the save
    sequence `doSaveConfig` / `reloadSambaConfig` over a path-to-text file system, with
    every command result and clock reading given as a parameter. */
module ConfigEditor {
  import opened Strings
  import opened Wrappers
  import opened ShareWriter
  import opened SambaErrors

  // ------------------------------------------------------------ editor state

  /** The module's two variables and the parts of the dialog they drive. */
  datatype Editor = Editor(
    isEditing: bool,
    originalContent: string,
    text: string,
    readOnly: bool,
    editShown: bool,
    saveShown: bool,
    cancelShown: bool)

  /** The dialog's flags agree: editable text and Save/Cancel exactly while editing. */
  predicate Coherent(e: Editor) {
    && e.readOnly == !e.isEditing
    && e.editShown == !e.isEditing
    && e.saveShown == e.isEditing
    && e.cancelShown == e.isEditing
  }

  /** The state when the dialog is built: empty, read-only, only Edit visible. */
  const Initial := Editor(false, "", "", true, true, false, false)

  /** What `cat smb.conf` gives: the file's text or an error. */
  datatype CatResult = Read(data: string) | Unreadable(error: string)

  const LoadFailure := "Failed to load configuration file: "

  /** `loadConfig`: a successful read becomes both the saved and the shown text; a failed
      one only replaces the shown text with the error. */
  function LoadConfig(e: Editor, result: CatResult): (r: Editor)
    ensures result.Read? ==> r.originalContent == result.data && r.text == result.data
    ensures result.Unreadable? ==> r.originalContent == e.originalContent && r.text == LoadFailure + result.error
    ensures r.isEditing == e.isEditing && r.readOnly == e.readOnly
    ensures Coherent(e) ==> Coherent(r)
  {
    match result
    case Read(data) => e.(originalContent := data, text := data)
    case Unreadable(error) => e.(text := LoadFailure + error)
  }

  /** `enableEdit`: nothing happens unless the warning is confirmed; then the text
      becomes editable and Save/Cancel replace Edit. */
  function EnableEdit(e: Editor, confirmed: bool): (r: Editor)
    ensures !confirmed ==> r == e
    ensures confirmed ==> r.isEditing && !r.readOnly && Coherent(r)
    ensures r.text == e.text && r.originalContent == e.originalContent
  {
    if !confirmed then e
    else e.(isEditing := true, readOnly := false, editShown := false, saveShown := true, cancelShown := true)
  }

  /** `cancelEdit`: back to read-only, showing the last saved or loaded text. */
  function CancelEdit(e: Editor): (r: Editor)
    ensures !r.isEditing && r.readOnly && Coherent(r)
    ensures r.text == r.originalContent && r.originalContent == e.originalContent
  {
    Editor(false, e.originalContent, e.originalContent, true, true, false, false)
  }

  /** Confirming and then cancelling gives back the text as it was before editing began. */
  lemma EditThenCancel(e: Editor, typed: string)
    requires Coherent(e) && !e.isEditing && e.text == e.originalContent
    ensures CancelEdit(EnableEdit(e, true).(text := typed)) == e
  {
  }

  // ------------------------------------------------------------ doSaveConfig

  /** `/tmp/smb.conf.temp.${Date.now()}`. */
  function TempPath(stamp: nat): string {
    "/tmp/smb.conf.temp." + NatToString(stamp)
  }

  /** The temporary file is neither the live configuration nor a backup of it. */
  lemma TempIsElsewhere(stamp: nat, backupStamp: nat)
    ensures TempPath(stamp) != ConfigPath && TempPath(stamp) != BackupPath(backupStamp)
  {
    assert TempPath(stamp)[1] == 't';
    assert ConfigPath[1] == 'e' && BackupPath(backupStamp)[1] == 'e';
  }

  /** Everything the save sequence learns from outside: the two clock readings and the
      result of each command it runs. */
  datatype SaveOracle = SaveOracle(
    backupStamp: nat,
    tempStamp: nat,
    backupCopied: bool,
    writeError: Option<string>,
    testparm: Outcome,
    installed: bool,
    tempRemoved: bool,
    smbdReloaded: bool,
    allReloaded: bool,
    uiLoaded: bool)

  /** What `reloadSambaConfig` resolves to: `{ success: true }`, or the `undefined`
      returned by the fallback `ui.reloadSambaService`, which returns nothing on every path. */
  datatype ReloadValue = Reloaded | NoValue

  /** `reloadSambaConfig` as written: `smbcontrol smbd`, then `smbcontrol all`; when both
      fail and the ui module is loaded, its fallback's result is passed on. */
  function ReloadSambaConfig(smbdReloaded: bool, allReloaded: bool, uiLoaded: bool): (r: ReloadValue)
    ensures r == Reloaded <==> smbdReloaded || allReloaded || !uiLoaded
  {
    if !smbdReloaded && !allReloaded && uiLoaded then NoValue else Reloaded
  }

  /** The commands `reloadSambaConfig` itself runs: the second only after the first fails. */
  function ReloadCommands(smbdReloaded: bool): (r: seq<seq<string>>)
    ensures |r| >= 1 && r[0] == ["smbcontrol", "smbd", "reload-config"]
    ensures |r| == 2 <==> !smbdReloaded
    ensures |r| <= 2
    ensures |r| == 2 ==> r[1] == ["smbcontrol", "all", "reload-config"]
  {
    [["smbcontrol", "smbd", "reload-config"]] + (if smbdReloaded then [] else [["smbcontrol", "all", "reload-config"]])
  }

  /** How the `doSaveConfig` promise settles. */
  datatype Settlement = Resolved(value: ReloadValue) | Rejected(error: ErrorValue)

  datatype SaveEffect = SaveEffect(fs: FileSystem, settled: Settlement)

  /** Every path outside `keep` is as it was. */
  ghost predicate SameElsewhere(fs: FileSystem, fs2: FileSystem, keep: set<string>) {
    forall p :: p !in keep ==> (p in fs2 <==> p in fs) && (p in fs ==> fs2[p] == fs[p])
  }

  const ValidationFailed := "Configuration validation failed: "

  /** `rm -f` of the temporary file, when the command succeeds. */
  function RemoveTemp(fs: FileSystem, temp: string, removed: bool): FileSystem {
    if removed then fs - {temp} else fs
  }

  /** `doSaveConfig`: back up (unchecked), write the temporary file, validate it with
      `testparm`, and only then copy it over the live file (unchecked), remove it
      (unchecked) and reload. */
  function DoSaveConfig(fs: FileSystem, content: string, o: SaveOracle): (r: SaveEffect)
    ensures r.settled.Resolved? <==> o.writeError.None? && o.testparm.Success?
    ensures r.settled.Resolved? ==> r.settled.value == ReloadSambaConfig(o.smbdReloaded, o.allReloaded, o.uiLoaded)
    ensures o.writeError.Some? ==> r.settled == Rejected(ErrorObject(o.writeError.value))
    ensures o.writeError.None? && o.testparm.Failure? ==>
              r.settled == Rejected(ErrorObject(ValidationFailed + o.testparm.error))
    ensures (o.writeError.Some? || o.testparm.Failure? || !o.installed) ==>
              (ConfigPath in r.fs <==> ConfigPath in fs) && (ConfigPath in fs ==> r.fs[ConfigPath] == fs[ConfigPath])
    ensures o.writeError.None? && o.testparm.Success? && o.installed ==>
              ConfigPath in r.fs && r.fs[ConfigPath] == content
    ensures o.writeError.None? && o.tempRemoved ==> TempPath(o.tempStamp) !in r.fs
    ensures o.writeError.None? && !o.tempRemoved ==> TempPath(o.tempStamp) in r.fs && r.fs[TempPath(o.tempStamp)] == content
    ensures o.backupCopied && ConfigPath in fs ==> BackupPath(o.backupStamp) in r.fs && r.fs[BackupPath(o.backupStamp)] == fs[ConfigPath]
    ensures SameElsewhere(fs, r.fs, {ConfigPath, BackupPath(o.backupStamp), TempPath(o.tempStamp)})
  {
    TempIsElsewhere(o.tempStamp, o.backupStamp);
    BackupIsNotConfig(o.backupStamp);
    var temp := TempPath(o.tempStamp);
    var fs1 := Backup(fs, o.backupStamp, o.backupCopied);
    if o.writeError.Some? then
      SaveEffect(fs1, Rejected(ErrorObject(o.writeError.value)))
    else
      var fs2 := fs1[temp := content];
      if o.testparm.Failure? then
        SaveEffect(RemoveTemp(fs2, temp, o.tempRemoved), Rejected(ErrorObject(ValidationFailed + o.testparm.error)))
      else
        var fs3 := if o.installed then fs2[ConfigPath := content] else fs2;
        SaveEffect(RemoveTemp(fs3, temp, o.tempRemoved), Resolved(ReloadSambaConfig(o.smbdReloaded, o.allReloaded, o.uiLoaded)))
  }

  /** The backup's result is never looked at: a failed copy changes neither how the save
      settles nor what the live file ends up holding. */
  lemma BackupNotChecked(fs: FileSystem, content: string, o: SaveOracle)
    ensures DoSaveConfig(fs, content, o).settled == DoSaveConfig(fs, content, o.(backupCopied := false)).settled
    ensures (ConfigPath in DoSaveConfig(fs, content, o).fs) == (ConfigPath in DoSaveConfig(fs, content, o.(backupCopied := false)).fs)
    ensures ConfigPath in DoSaveConfig(fs, content, o).fs ==>
              DoSaveConfig(fs, content, o).fs[ConfigPath] == DoSaveConfig(fs, content, o.(backupCopied := false)).fs[ConfigPath]
  {
    var r1 := DoSaveConfig(fs, content, o);
    var r2 := DoSaveConfig(fs, content, o.(backupCopied := false));
    if o.writeError.None? && o.testparm.Success? && o.installed {
    } else {
      assert ConfigPath in r1.fs <==> ConfigPath in r2.fs;
    }
  }

  /** A save that validated and installed the text is what the next successful `cat`
      shows. */
  lemma SaveThenLoad(e: Editor, fs: FileSystem, content: string, o: SaveOracle, cat: CatResult)
    requires o.writeError.None? && o.testparm.Success? && o.installed
    requires cat == Read(DoSaveConfig(fs, content, o).fs[ConfigPath])
    ensures LoadConfig(e, cat).originalContent == content
    ensures LoadConfig(e, cat).text == content
  {
  }

  // ------------------------------------------------------------ saveConfig

  /** A notification banner, if any. */
  datatype Notice = NoNotice | Info(message: string) | Alert(message: string)

  const Saved := "Configuration saved and reloaded successfully"
  const SaveContext := "config-save"

  lemma SaveContextIsGeneric()
    ensures !Contains(SaveContext, "samba")
  {
    assert SaveContext[..|SaveContext| - 5 + 1] == "config-";
    MissingFirstChar(SaveContext, "samba");
  }

  /** `errorHandler.parse(error, 'config-save')`: never the samba branch, so always a message. */
  function SaveError(error: ErrorValue): (r: string)
    ensures HandlerParse(error, SaveContext) == Some(r)
    ensures r != ""
  {
    SaveContextIsGeneric();
    HandlerParse(error, SaveContext).value
  }

  /** An error object with a message is reported by that message. */
  lemma SaveErrorMessage(message: string)
    requires message != ""
    ensures SaveError(ErrorObject(message)) == message
  {
    SaveContextIsGeneric();
  }

  datatype Session = Session(editor: Editor, fs: FileSystem, notice: Notice)

  /** `saveConfig` as written. After a confirmed save, `handleAsync` reads `success` on
      what `doSaveConfig` resolved to; the fallback's `undefined` makes that read throw,
      and the TypeError (whose engine text is `typeError`) is reported like a rejection. */
  function SaveConfig(e: Editor, fs: FileSystem, confirmed: bool, o: SaveOracle, typeError: string): (r: Session)
    ensures !confirmed ==> r == Session(e, fs, NoNotice)
    ensures confirmed ==> r.fs == DoSaveConfig(fs, e.text, o).fs
    ensures r.notice == Info(Saved) <==>
              confirmed && DoSaveConfig(fs, e.text, o).settled == Resolved(Reloaded)
    ensures r.notice == Info(Saved) ==>
              r.editor == CancelEdit(e.(originalContent := e.text)) && r.editor.originalContent == e.text
    ensures r.notice != Info(Saved) ==> r.editor == e
  {
    if !confirmed then Session(e, fs, NoNotice)
    else
      var newContent := e.text;
      var effect := DoSaveConfig(fs, newContent, o);
      match effect.settled
      case Resolved(Reloaded) =>
        Session(CancelEdit(e.(originalContent := newContent)), effect.fs, Info(Saved))
      case Resolved(NoValue) =>
        Session(e, effect.fs, Alert(SaveError(ErrorObject(typeError))))
      case Rejected(error) =>
        Session(e, effect.fs, Alert(SaveError(error)))
  }

  /** A failed validation leaves the live file alone and the editor in editing, still
      holding the rejected text. */
  lemma RejectedSaveKeepsEditing(e: Editor, fs: FileSystem, o: SaveOracle, typeError: string)
    requires Coherent(e) && e.isEditing
    requires o.writeError.None? && o.testparm.Failure?
    ensures var r := SaveConfig(e, fs, true, o, typeError);
            && r.editor == e && r.editor.isEditing
            && (ConfigPath in r.fs <==> ConfigPath in fs)
            && (ConfigPath in fs ==> r.fs[ConfigPath] == fs[ConfigPath])
            && r.notice == Alert(ValidationFailed + o.testparm.error)
  {
    var message := ValidationFailed + o.testparm.error;
    assert DoSaveConfig(fs, e.text, o).settled == Rejected(ErrorObject(message));
    SaveErrorMessage(message);
  }

  /** As written, a save whose new text was validated and installed is reported as a
      failure when both `smbcontrol` reloads fail and the ui fallback runs: the editor
      stays in editing although the live file already holds the new text. */
  lemma FallbackReportsFailure(e: Editor, fs: FileSystem, o: SaveOracle, typeError: string)
    requires o.writeError.None? && o.testparm.Success? && o.installed
    requires !o.smbdReloaded && !o.allReloaded && o.uiLoaded
    ensures var r := SaveConfig(e, fs, true, o, typeError);
            && ConfigPath in r.fs && r.fs[ConfigPath] == e.text
            && r.notice.Alert? && r.editor == e
  {
  }

  /** `saveConfig` as evidently intended: the fallback reload counts as done, as it does
      when either `smbcontrol` succeeds, so every resolved save completes. */
  function SaveConfigFixed(e: Editor, fs: FileSystem, confirmed: bool, o: SaveOracle): (r: Session)
    ensures !confirmed ==> r == Session(e, fs, NoNotice)
    ensures confirmed ==> r.fs == DoSaveConfig(fs, e.text, o).fs
    ensures r.notice == Info(Saved) <==> confirmed && DoSaveConfig(fs, e.text, o).settled.Resolved?
    ensures r.notice != Info(Saved) ==> r.editor == e
  {
    if !confirmed then Session(e, fs, NoNotice)
    else
      var newContent := e.text;
      var effect := DoSaveConfig(fs, newContent, o);
      match effect.settled
      case Resolved(_) =>
        Session(CancelEdit(e.(originalContent := newContent)), effect.fs, Info(Saved))
      case Rejected(error) =>
        Session(e, effect.fs, Alert(SaveError(error)))
  }

  /** With the corrected reload, every validated save ends read-only, showing the new
      text as the saved one, and the live file holds that text once it was copied. */
  lemma FixedSaveCompletes(e: Editor, fs: FileSystem, o: SaveOracle)
    requires o.writeError.None? && o.testparm.Success?
    ensures var r := SaveConfigFixed(e, fs, true, o);
            && r.notice == Info(Saved)
            && !r.editor.isEditing && r.editor.readOnly && Coherent(r.editor)
            && r.editor.originalContent == e.text && r.editor.text == e.text
            && (o.installed ==> ConfigPath in r.fs && r.fs[ConfigPath] == e.text)
  {
  }

  /** The two agree on every save that does not reach the fallback. */
  lemma FixedAgreesOffFallback(e: Editor, fs: FileSystem, confirmed: bool, o: SaveOracle, typeError: string)
    requires o.smbdReloaded || o.allReloaded || !o.uiLoaded
    ensures SaveConfigFixed(e, fs, confirmed, o) == SaveConfig(e, fs, confirmed, o, typeError)
  {
  }

  // ------------------------------------------------------------ the dialog as a whole

  /** What the user can do in the dialog. A button's handler only runs while the button
      is shown, and typing only reaches an editable textarea. Each click is one run of its
      handler (see README for the handlers that pile up on every open). */
  datatype Event =
    | Opened(cat: CatResult)
    | EditClicked(confirmed: bool)
    | Typed(text: string)
    | CancelClicked
    | SaveClicked(confirmed: bool, oracle: SaveOracle, typeError: string)

  function Step(s: Session, ev: Event): Session {
    var e := s.editor;
    match ev
    case Opened(cat) => s.(editor := LoadConfig(e, cat), notice := NoNotice)
    case EditClicked(confirmed) => if e.editShown then s.(editor := EnableEdit(e, confirmed)) else s
    case Typed(text) => if !e.readOnly then s.(editor := e.(text := text)) else s
    case CancelClicked => if e.cancelShown then s.(editor := CancelEdit(e)) else s
    case SaveClicked(confirmed, o, typeError) =>
      if e.saveShown then SaveConfig(e, s.fs, confirmed, o, typeError) else s
  }

  function Run(s: Session, events: seq<Event>): Session
    decreases |events|
  {
    if |events| == 0 then s else Run(Step(s, events[0]), events[1..])
  }

  /** Outside editing the textarea shows the saved text, or a load error. */
  predicate Calm(e: Editor) {
    !e.isEditing ==> e.text == e.originalContent || StartsWith(e.text, LoadFailure)
  }

  lemma StepKeeps(s: Session, ev: Event)
    requires Coherent(s.editor) && Calm(s.editor)
    ensures Coherent(Step(s, ev).editor) && Calm(Step(s, ev).editor)
  {
    match ev
    case Opened(cat) =>
      if cat.Unreadable? {
        assert Step(s, ev).editor.text == LoadFailure + cat.error;
        assert (LoadFailure + cat.error)[..|LoadFailure|] == LoadFailure;
      }
    case EditClicked(_) =>
    case Typed(_) =>
    case CancelClicked =>
    case SaveClicked(confirmed, o, typeError) =>
  }

  /** The corrected save keeps the same invariant. */
  lemma FixedKeeps(e: Editor, fs: FileSystem, confirmed: bool, o: SaveOracle)
    requires Coherent(e) && Calm(e)
    ensures Coherent(SaveConfigFixed(e, fs, confirmed, o).editor)
    ensures Calm(SaveConfigFixed(e, fs, confirmed, o).editor)
  {
  }

  /** Whatever the user does, the flags stay coherent and, outside editing, the textarea
      holds the saved text or a load error. */
  lemma {:induction false} RunKeeps(s: Session, events: seq<Event>)
    requires Coherent(s.editor) && Calm(s.editor)
    ensures Coherent(Run(s, events).editor) && Calm(Run(s, events).editor)
    decreases |events|
  {
    if |events| > 0 {
      StepKeeps(s, events[0]);
      RunKeeps(Step(s, events[0]), events[1..]);
    }
  }

  lemma InitialIsCalm()
    ensures Coherent(Initial) && Calm(Initial)
  {
  }
}
