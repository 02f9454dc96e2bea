# Samba file-sharing plugin: a Dafny model of its core

This project models the data-handling core of a Cockpit plugin that manages Samba
file shares, Samba users and the raw `smb.conf` file. It proves properties of that model.

The modules follow the plugin's files:

- `ShareConfig` and `ShareConfigProperties` (`modules/shares.js`). The share record and
  the `key = value` property parser. The single-pass section scanner, with its list mode
  and its single-share lookup mode. The fixed-order fragment serialiser, and the round
  trip between serialiser and parser.
- `ShareWriter` (`modules/shares.js`). The create, update and delete flows over a file
  system given as a map from path to text. The `sed` range-delete that removes a section.
  The substring existence checks. The unchecked backup.
- `Validators` (`modules/utils.js`). The share-name, path and users-and-groups form
  validators.
- `SambaErrors` (`modules/utils.js`). The `parseSambaError` pattern table with its
  capture groups, the line-based fallback, and `errorHandler.parse`.
- `Users` (`modules/users.js`). `parseInt`, parsing of `getent passwd` output, the Samba
  user listing from `pdbedit` or an `smbpasswd` file, the enabled flags, and the
  password-dialog validators.
- `Table` (`modules/table.js`). The initial sort state, the sort-header toggle, the
  dotted-key lookup, the search filter, the comparator and the stable sort.
- `ConfigEditor` (`modules/config.js`). The raw-config editor as a state machine, and the
  save sequence `doSaveConfig` / `reloadSambaConfig`.
- `Strings` and `Wrappers`. The JavaScript string primitives these rely on: `trim` with
  the full JavaScript white-space set, `split`, `indexOf`, `includes`, `toLowerCase` and
  `String(n)`. `Wrappers` holds `Option`.

Commands, files and the clock are not called. Each command's outcome that the code acts
on is a parameter of the function that uses it: every `cat`, `cp`, `sed`, append, `rm -f`,
`testparm` and `smbcontrol`, and the temporary-file write. So are the file contents and
each `Date.now()` reading. A `cat` of the configuration can fail even when the file
exists; it can never succeed on a missing file.

## Model

| member | source | states |
|---|---|---|
| ShareConfig.ApplyProperty | modules/shares.js:31-53 | only the field a recognised key names can change; name and access never change; an unknown key leaves the record as it was |
| ShareConfigProperties.SplitsAtFirstEquals | modules/shares.js:27-29 | a key line splits at its first '=': the key is trimmed and lower-cased, and the value is trimmed, so later '=' characters stay in the value |
| ShareConfigProperties.DirectiveRules | modules/shares.js:31-53 | the directive table: `path`, `comment` and `valid users` copy the value; the synonyms `read only`/`readonly`, `guest ok`/`public` and `browseable`/`browsable` set the same flag |
| ShareConfigProperties.BooleanRules | modules/shares.js:38-49 | `readonly` and `guest` are true exactly on yes/true, in any case; `browseable` is false exactly on no/false |
| ShareConfigProperties.KeyValueLine | modules/shares.js:27-29 | a generated `    key = value` line is read back as that key and that value |
| ShareConfigProperties.HeaderLine | modules/shares.js:65-75 | a bracketed name is a header of that section, whatever the name holds |
| ShareConfigProperties.BareHeader | modules/shares.js:13-24 | a header with no key lines gives the default record: empty path, comment and user list, writable, no guests, browseable, with access `readwrite` |
| ShareConfigProperties.BrowseableNo | modules/shares.js:46-48 | `browseable = no` hides a share |
| ShareConfigProperties.GuestYesUpperCase | modules/shares.js:42-44 | `guest ok = YES` allows guests, because values are compared case-insensitively |
| ShareConfigProperties.KelvinKey | modules/shares.js:28 | the key `guest o` followed by the Kelvin sign U+212A trims and lower-cases to `guest ok`, so its line sets the guest flag like any `guest ok` line |
| ShareConfigProperties.ReadOnlyOneIsFalse | modules/shares.js:38-40 | `read only = 1` leaves a share writable: only yes and true count |
| ShareConfig.SectionName | modules/shares.js:75 | the section name is exactly the text between the brackets |
| ShareConfig.Scan | modules/shares.js:56-96 | the scan loop returns a list exactly when there is no target; every listed share is well formed; a found share has the target's name |
| ShareConfig.ParseShareConfig | modules/shares.js:56-96 | `parseShareConfig` returns a list exactly when no target is given; no listed share is named `global`; access is `readonly` exactly when readonly; a found share carries the target's name |
| ShareConfig.FirstNamedIndex | modules/shares.js:69-70 | the first share of a name: it has that name, no earlier share does, and -1 means none has it |
| ShareConfigProperties.OrphanLinesIgnored | modules/shares.js:81-83 | key lines before any header change nothing |
| ShareConfigProperties.SkippedLine | modules/shares.js:62-63 | a line is skipped exactly when, trimmed, it is blank or starts with '#' or ';' |
| ShareConfigProperties.SkippedLineIgnored | modules/shares.js:61-83 | taking a skipped line, or a line with neither a header nor an '=', out of a file leaves its share list as it was |
| ShareConfigProperties.GlobalSectionIgnored | modules/shares.js:76-80 | a `[global]` section and its keys add nothing to the list, wherever the section sits |
| ShareConfigProperties.FoldShares | modules/shares.js:61-84 | shares already finished stay a prefix of the list, because the scan only appends |
| ShareConfigProperties.HeaderResets | modules/shares.js:65-80 | a header closes whatever was open, so what follows it does not depend on what came before |
| ShareConfigProperties.ParseLinesAppend | modules/shares.js:58-96 | lines cut just before a header parse to the two halves' lists, concatenated |
| ShareConfigProperties.ParseAllAppend | modules/shares.js:58 | appending a newline and a text that opens with a header appends that text's shares |
| ShareConfigProperties.NamesFollowHeaders | modules/shares.js:65-93 | the list has one share per non-global header, in file order, and duplicates are not merged |
| ShareConfigProperties.ListMode | modules/shares.js:95 | without a target the result is the whole share list, and no share in it is called `global` |
| ShareConfigProperties.LookupMode | modules/shares.js:69-95 | with a target the result is the first share of that name in file order, or not-found |
| ShareConfigProperties.ClosingTarget | modules/shares.js:66-71 | the early return: a header that closes the wanted share ends the search with that share |
| ShareConfigProperties.FoldFragment | modules/shares.js:98-107 | scanning a generated fragment yields exactly one finished share |
| ShareConfigProperties.RoundTrip | modules/shares.js:98-107 | re-parsing a generated fragment gives back the record it was generated from, with `users` read back as `validUsers` |
| ShareWriter.SedFrom | modules/shares.js:471-472 | the sed range-delete never adds lines |
| ShareWriter.StartIsEnd | modules/shares.js:471 | a `[name]` line also matches the end address, so a second one inside the range closes it |
| ShareWriter.SedLeavesNoStart | modules/shares.js:471 | no line the sed keeps begins with `[name]` |
| ShareWriter.SedKeepsOrder | modules/shares.js:471 | the sed only deletes: its output is a subsequence of its input |
| ShareWriter.SedOutside | modules/shares.js:471 | lines before the range pass through unchanged |
| ShareWriter.SedBody | modules/shares.js:471 | inside the range every line that is not a header is deleted |
| ShareWriter.SedUntouched | modules/shares.js:471 | a file without any `[name]` line is left exactly as it was |
| ShareWriter.SedSection | modules/shares.js:471 | the `[name]` header and the lines up to the next header are deleted; that header and everything after it stay |
| ShareWriter.SedToEnd | modules/shares.js:471 | without a following header the range runs to the end of the file |
| ShareWriter.SedParse | modules/shares.js:471 | scanning the sed's output and scanning its input agree, outside the range and inside it |
| ShareWriter.SedRemovesShare | modules/shares.js:555-556 | when every header is aligned and `[name]` starts at most one line, the sed output parses to the old list without the shares named `name` |
| ShareWriter.CreateShare | modules/shares.js:403-425 | the duplicate error exactly when the `cat` succeeded and the file mentions `[name]`; otherwise a failed append gives its prefixed error; success exactly when there is no duplicate error and the append succeeds; a failed create leaves every file alone, and only the configuration can change |
| ShareWriter.Backup | modules/shares.js:466-468 | the backup copy never changes the live configuration |
| ShareWriter.UpdateShare | modules/shares.js:462-486 | only the append decides success; its error is prefixed `Failed to update share: `; no file other than the configuration and the backup changes |
| ShareWriter.DeleteShare | modules/shares.js:540-569 | not-found exactly when the first `cat` failed or the file does not mention `[name]`; a sed failure gives its prefixed error; still-exists exactly when the verification `cat` succeeded and finds `[name]` in the sed output; success exactly when none of these happened, and then the file holds the sed output; when the verification read succeeded, a success leaves no `[name]`; only the configuration and the backup can change |
| ShareWriter.AppendFragment | modules/shares.js:413-418 | a generated fragment echoed after any text adds exactly its own share to the list |
| ShareWriter.CreateAddsShare | modules/shares.js:403-425 | a successful create keeps the old shares and adds the new one last |
| ShareWriter.UpdateReplacesShare | modules/shares.js:462-486 | a successful update parses as the range-deleted file plus the new share at the end |
| ShareWriter.UpdateWithoutSed | modules/shares.js:470-478 | the sed's result is not checked, so an update whose sed did not run still appends, next to the old section |
| ShareWriter.ParsedShareMentioned | modules/shares.js:544-566 | a text that parses to a share named `name` contains `[name]` |
| ShareWriter.DeleteRemovesShare | modules/shares.js:563-566 | because of the final check, a delete that reports success after a successful verification read leaves no share of that name |
| ShareWriter.DeleteKeepsOthers | modules/shares.js:540-569 | a successful delete of an aligned file removes exactly the shares named `name` and keeps the others in order |
| Validators.ShareName | modules/utils.js:196-202 | "required" exactly for an empty value; the character error exactly when some character is outside `[a-zA-Z0-9_-]`; accepted otherwise |
| Validators.PathCheck | modules/utils.js:204-208 | "required" exactly for an empty value; the absolute-path error exactly when the first character is not '/'; accepted otherwise |
| Validators.FirstBad | modules/utils.js:213-218 | the first rejected item: every earlier item is acceptable; -1 exactly when every item is |
| Validators.UsersAndGroups | modules/utils.js:210-220 | accepted exactly when the value is empty or every trimmed item is empty or a token; otherwise the message names the 1-based position of the first bad item |
| Validators.ShareNameIsToken | modules/utils.js:198-215 | every accepted share name is also a valid user token |
| Validators.JoinedTokensAccepted | modules/utils.js:210-220 | a comma-joined list of tokens passes the check |
| Validators.BlankItemsAccepted | modules/utils.js:215 | blank items, such as white space around the commas or nothing between two commas, are tolerated |
| SambaErrors.FindSpec | modules/utils.js:409 | `match` finds the leftmost occurrence of a capture, and there the longest group (`.+` is greedy and stops at line terminators) |
| SambaErrors.FirstMatch | modules/utils.js:405-407 | the first row that matches: no earlier row matches; -1 exactly when no row does |
| SambaErrors.ParseWith | modules/utils.js:374-431 | empty input gives 'Unknown error'; otherwise the first matching row decides; the fallback runs only when no row matches |
| SambaErrors.ExtractionMissing | modules/utils.js:408-414 | a row whose capture occurs nowhere adds the whole error to its message |
| SambaErrors.ExtractionLeftmostLongest | modules/utils.js:408-412 | a row whose capture occurs adds the leftmost, longest group to its message |
| SambaErrors.KeepRelevantSpec | modules/utils.js:419-421 | kept lines are exactly the non-blank lines without 'spawn' or 'cockpit', in order |
| SambaErrors.FallbackSpec | modules/utils.js:419-430 | the first kept line that mentions error, failed or cannot (in any case); else the first kept line; else the first raw line |
| SambaErrors.HandlerParse | modules/utils.js:291-303 | a context containing 'samba' sends a string to `parseSambaError`; an `Error` object there throws exactly when no row matches its string form or the matching row extracts, and otherwise gets that row's message; in any other context an object with a message gives the message, one without gives `String(error)`, a non-empty string gives itself and an empty one 'Unknown error' |
| Users.UserOf | modules/users.js:161-184 | a line is listed exactly when it has at least 7 fields, a regular uid (1000 to 65533) and is not a system account; the full name falls back to the user name; Samba starts disabled |
| Users.PasswdRoundTrip | modules/users.js:156-189 | a printed `getent passwd` entry reads back with its name and full name exactly when its uid is regular and it is no system account |
| Users.ParseIntRoundTrip | modules/users.js:164 | `parseInt` reads back the decimal text of any natural number |
| Users.UsersAppend | modules/users.js:160-186 | users come out in the order of their lines |
| Users.UsersFromLines | modules/users.js:160-186 | every listed user comes from a line of the output, and every qualifying line's user is listed |
| Users.ParsedUsersDisabled | modules/users.js:182 | nobody is enabled for Samba before the Samba listing is consulted |
| Users.ListedNamesSpec | modules/users.js:200-216 | a name is listed exactly when some kept line has it as its first field (non-blank lines; for smbpasswd, not comments) |
| Users.FirstReadable | modules/users.js:205-219 | the content of the first smbpasswd path that can be read; none exactly when none can |
| Users.MarkSamba | modules/users.js:222-224 | each user keeps name and full name; Samba is enabled exactly when the name is listed |
| Users.SambaNames | modules/users.js:191-220 | the `pdbedit` listing when that command succeeds; otherwise the listing of the first readable smbpasswd path, in the order given; no names when none is readable |
| Users.LoadUsers | modules/users.js:137-154 | a failed `getent` gives no users; otherwise user i has the name and full name of parsed entry i, and is Samba-enabled exactly when its name is a Samba name |
| Users.PasswordCheck | modules/users.js:83-87 | "required" exactly for an empty value; accepted exactly when the UTF-16 length is at least 6; a shorter non-empty value gets "at least 6 characters" |
| Users.ConfirmCheck | modules/users.js:88-93 | "required" exactly for an empty value; accepted exactly when the value is non-empty and equals the password; a non-empty mismatch gets "do not match" |
| Table.WalkNest | modules/table.js:144-145 | walking the keys an object was nested under gives back what was put there |
| Table.NestedLookup | modules/table.js:142-146 | a non-empty dotted path finds the value nested under its pieces |
| Table.WalkStuck | modules/table.js:145 | once the walk reaches something that is not an object, every further key gives `undefined` |
| Table.PathConcat | modules/table.js:144 | looking up `p.q` is looking up `q` in the result of looking up `p` |
| Table.InitialState | modules/table.js:33-39 | the sort column comes from `defaultSort`, else 0; the order comes from `defaultSort`, else ascending; the search term is empty |
| Table.HandleSort | modules/table.js:214-234 | a click on the current column flips the direction; a click on another column selects it ascending; the cached result is dropped |
| Table.ClickTwice | modules/table.js:219-224 | two clicks on the current column restore its order |
| Table.SetSearchTerm | modules/table.js:201-206 | a changed term replaces the old one; the same term changes nothing |
| Table.Filter | modules/table.js:94-100 | the filter keeps exactly the items where some search column's truthy value, as lower-cased text, contains the lower-cased term, each as often as in the input |
| Table.FilterAppend | modules/table.js:94 | the filter keeps the input order |
| Table.FilterAllHits | modules/table.js:94-100 | items that all match pass through unchanged |
| Table.Search | modules/table.js:92-101 | an empty term returns the data as it was; otherwise exactly the hits are kept, each as often as in the data |
| Table.StrLessTrichotomy | modules/table.js:167 | string `>` is a strict total order: exactly one of equal, less or greater holds |
| Table.StrLessTransitive | modules/table.js:167 | string `<` is transitive |
| Table.Compare | modules/table.js:153-169 | the comparator returns -1, 0 or 1, and returns 0 exactly when the keys are equal after the transform or the lower-casing |
| Table.CompareAntisymmetric | modules/table.js:166-168 | swapping the arguments negates the comparator |
| Table.CompareTransitive | modules/table.js:166-168 | "sorts no later than" is transitive, so the comparator is consistent |
| Table.DescendingReverses | modules/table.js:168 | the descending comparator is the ascending one negated |
| Table.InsertSorted | modules/table.js:153 | inserting into a sorted sequence keeps it sorted |
| Table.Sort | modules/table.js:153-169 | the sort returns a permutation of its input whose neighbours are in comparator order |
| Table.SortData | modules/table.js:149-171 | `sortData` permutes its input; for a column that exists, the result is sorted; for a missing column the input comes back as it was |
| Table.SortedPairs | modules/table.js:153-169 | in a sorted result every earlier item sorts no later than every later item |
| Table.Processed | modules/table.js:88-109 | the rows shown are the rows of the data that match the search, each as often as in the data; on a sortable table with an existing sort column they are in comparator order; otherwise they are the search result as it was |
| Table.Render | modules/table.js:66-109 | a render stores the new rows; there is no cached result exactly when there are none |
| ConfigEditor.LoadConfig | modules/config.js:135-145 | a successful read becomes both the saved text and the shown text; a failed read replaces only the shown text with the error |
| ConfigEditor.EnableEdit | modules/config.js:147-162 | nothing happens unless the warning is confirmed; after confirming, the text is editable and Save/Cancel replace Edit |
| ConfigEditor.CancelEdit | modules/config.js:164-173 | always ends read-only, not editing, showing the saved text |
| ConfigEditor.EditThenCancel | modules/config.js:147-173 | confirming, typing and cancelling gives back the editor as it was |
| ConfigEditor.ReloadSambaConfig | modules/config.js:238-255 | reports `{ success: true }` exactly when either `smbcontrol` succeeds or the ui fallback is unavailable |
| ConfigEditor.ReloadCommands | modules/config.js:240-246 | `smbcontrol smbd` runs first; `smbcontrol all` runs second, and only when the first fails |
| ConfigEditor.DoSaveConfig | modules/config.js:202-236 | settles as resolved exactly when the temporary file was written and `testparm` passed; a failed validation never touches the live file; the temporary file is gone exactly when its `rm -f` succeeded; a validated, copied text is the live file afterwards; the backup holds the old text; no other file changes |
| ConfigEditor.BackupNotChecked | modules/config.js:204-205 | a failed backup changes neither how the save settles nor what the live file holds |
| ConfigEditor.SaveThenLoad | modules/config.js:202-236 | a validated, installed save is what the next successful read of the file shows |
| ConfigEditor.SaveError | modules/utils.js:291-303 | a save error never reaches the samba parser, so it always yields a message |
| ConfigEditor.SaveConfig | modules/config.js:175-200 | a success notice exactly when the save was confirmed and resolved with `{ success: true }`; then the saved text becomes the new text and the view goes read-only; otherwise the editor is unchanged |
| ConfigEditor.RejectedSaveKeepsEditing | modules/config.js:215-220 | a failed validation leaves the live file alone and keeps the editor in editing, with the validation error shown |
| ConfigEditor.StepKeeps | modules/config.js:147-200 | each dialog event keeps the flags coherent, and outside editing the textarea shows the saved text or a load error |
| ConfigEditor.FixedKeeps | modules/config.js:175-200 | the corrected save also keeps the flags coherent and, outside editing, the saved text shown |
| ConfigEditor.RunKeeps | modules/config.js:135-200 | the same holds after any sequence of dialog events |

## Findings

| source | as written | input that shows it | evidently intended | confidence | as-written member | corrected member |
|---|---|---|---|---|---|---|
| modules/config.js:248-251 | when both `smbcontrol` reloads fail, `reloadSambaConfig` returns the result of `ui.reloadSambaService()`, which is `undefined` on every path; `handleAsync` then reads `.success` on `undefined` and reports the TypeError | a save that `testparm` accepts, with `smbcontrol smbd` and `smbcontrol all` both failing and the ui module loaded | the fallback counts as a completed reload, so the save is reported and the editor returns to read-only (`ConfigEditor.FixedSaveCompletes`) | medium, not executed | ConfigEditor.FallbackReportsFailure | ConfigEditor.SaveConfigFixed |

In the as-written path the new text is already the live `smb.conf`, but the user is shown
an error and the editor stays in editing. `ConfigEditor.FixedAgreesOffFallback` proves
that the corrected save agrees with the as-written one whenever the fallback is not
reached. The dialog state machine (`ConfigEditor.Step`) uses the as-written save. Its invariant
holds for both saves: `ConfigEditor.StepKeeps` for the as-written one and
`ConfigEditor.FixedKeeps` for the corrected one.

## Left out

- I/O: `cockpit.spawn`, `cockpit.file`, `FileReader`, Blob downloads, `confirm` dialogs and notifications. Their results are parameters: command outcomes, file contents, `Date.now()` readings and the user's confirmation.
- Shell quoting in the `bash -c echo "…" >> smb.conf` append (modules/shares.js:416, 477). The append is modelled as plain concatenation of the fragment and a newline.
- The sed program is modelled as a line-range rule. The share name is matched literally, with no regular-expression metacharacters in it. The newline at the end of the file is lost when the range reaches the end of the file, because the model joins the lines again.
- ShareWriter.SedRemovesShare requires every line to be "aligned": sed's end address `^\[.*\]` and the parser must agree on which lines are headers, and only `[name]` lines may begin with the text `[name]`. It also requires at most one `[name]` line. This leaves out files where the two disagree, in either direction:
  - An indented header such as `  [other]` after the deleted section is a header to the parser but not an end address for sed, so the range runs on into that section.
  - A column-0 line such as `[a] ; note` or `[a]x` is an end address for sed but not a header to the parser, whose trimmed line must end with ']'. In `[b]`, `path = /b`, `[name]`, `path = /a`, `[a] ; note`, `comment = x`, sed closes the range at the note line, so `comment = x` survives and the parser gives it to share `b`.
- ShareWriter.DeleteKeepsOthers carries the same aligned and single-`[name]` requirements as ShareWriter.SedRemovesShare, for the same two kinds of line.
- `toLowerCase` is modelled for ASCII letters and the Kelvin sign U+212A, which becomes 'k'. Other non-ASCII characters are kept as they are, and U+0130 stays one character although JavaScript turns it into 'i' followed by U+0307. This is exact for the share-property keys and values, and for the error/failed/cannot test: nothing else lower-cases into ASCII, and no key or value that matters can be formed through U+0130. It is not exact for the table search and the sort keys when they hold other non-ASCII capitals. The case-insensitive error patterns use an ASCII-only fold, which is exactly the `/i` flag without `u`.
- Strings are sequences of Unicode scalar values. String comparison in the sort therefore orders characters outside the Basic Multilingual Plane by code point, whereas JavaScript orders them by UTF-16 code unit. `Users.Utf16Length` counts UTF-16 units where the password length needs them.
- `parseInt` works on unbounded integers. Double precision above 2^53 is not modelled.
- JavaScript values in tables: arrays, functions, `NaN` and non-integer numbers are not modelled. Prototype properties such as `toString` are never found by the dotted-key lookup.
- Table.Processed, Table.Render, Table.Sort, Table.SortData, Table.Compare, Table.CompareAntisymmetric, Table.CompareTransitive, Table.DescendingReverses, Table.InsertSorted and Table.SortedPairs require the sort keys of a column to be all strings or all numbers. For mixed keys the source comparator is not consistent, and JavaScript's `sort` does not define its result. For Table.Processed and Table.Render this leaves out a sortable table with mixed keys, where the source still shows exactly the search hits, in an order the engine chooses.
- Table.Sort: stability is not stated, although the model inserts stably. The contract states permutation and sortedness only.
- Table.ValidSearchColumns: a search column index without a column makes the source throw. The model requires valid indices instead.
- `renderTable` batching through `requestAnimationFrame`, the 300 ms search debounce, row HTML rendering, `escapeHtml` and sort indicators are not modelled, nor are the missing-table and missing-`tbody` early returns.
- The asynchronous `getent` lookups in `validateUsersAndGroups` (modules/shares.js:329-366) and `batchOperations` promise chaining (modules/utils.js:307-371) are left out as process I/O.
- ConfigEditor.Step runs one handler per click. In the source, every opening of the settings dialog calls `setupSettingsEventHandlers` again (modules/config.js:92-95, 102-123). That adds another set of click listeners, and the dialog is never removed. After k openings, one click runs `enableEdit`, `cancelEdit` or `saveConfig` k times: k confirmations, and k runs of `doSaveConfig`. The model has no listener count. ConfigEditor.RunKeeps still covers repeated runs, since they are just repeated events.
- ConfigEditor: the reload and refresh that run after a successful save (`loadShares`, `loadServiceStatus`) are not modelled. Neither are the `restorecon` and `chmod` calls, which do not change the file's text. Edits typed while a save is in flight are not modelled.
- `handleRestore` and `downloadConfig` (modules/config.js:257-305) are not modelled. Restore reuses `doSaveConfig` without reading its result.
- `app.js`, `modules/ui.js` and `modules/modals.js` are outside this model. The only exception is `ui.reloadSambaService`, which is used through the fact that it returns nothing.
