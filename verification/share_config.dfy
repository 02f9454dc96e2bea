/**
 * The smb.conf text engine of the shares module: the share record, the
 * per-line property parser, the single-pass section scanner (list mode and
 * single-share lookup mode) and the fixed-order fragment serialiser.
 */
module ShareConfig {
  import opened Wrappers
  import opened Strings

  /** One share as the shares table shows it; `access` is the derived sort key. */
  datatype Share = Share(
    name: string,
    path: string,
    comment: string,
    readonly: bool,
    guest: bool,
    browseable: bool,
    validUsers: string,
    access: string)

  /** What the share form hands to the serialiser; the user list is called `users` here. */
  datatype ShareData = ShareData(
    name: string,
    path: string,
    comment: string,
    readonly: bool,
    guest: bool,
    browseable: bool,
    users: string)

  /** A record for a freshly seen `[name]` header, before any key line. */
  function CreateDefaultShare(name: string): Share {
    Share(name, "", "", false, false, true, "", "")
  }

  // ------------------------------------------------------------ key lines

  /** The key of a `key = value` line: text before the first '=', trimmed and lower-cased.
      Without '=' the key is empty, as `substring(0, -1)` is. */
  function AssignmentKey(line: string): string {
    var i := IndexOf(line, '=');
    Lower(Trim(if i < 0 then "" else line[..i]))
  }

  /** The value: text after the first '=', trimmed, so later '=' characters stay in it. */
  function AssignmentValue(line: string): string {
    var i := IndexOf(line, '=');
    Trim(line[i + 1..])
  }

  /** Truthiness of `read only` and `guest ok`: only yes/true, in any case. */
  predicate IsYes(v: string) {
    Lower(v) == "yes" || Lower(v) == "true"
  }

  /** Falsiness of `browseable`: only no/false, in any case. */
  predicate IsNo(v: string) {
    Lower(v) == "no" || Lower(v) == "false"
  }

  const ReadOnlyKeys: set<string> := {"read only", "readonly"}
  const GuestKeys: set<string> := {"guest ok", "public"}
  const BrowseableKeys: set<string> := {"browseable", "browsable"}

  /** The directives the parser understands; every other key is ignored. */
  const RecognisedKeys: set<string> :=
    {"path", "comment", "valid users"} + ReadOnlyKeys + GuestKeys + BrowseableKeys

  /** Applies one directive, already split into its lower-cased key and trimmed value.
      Only the field the key names can change; name and access never do; an unknown key
      changes nothing. */
  function ApplyProperty(s: Share, key: string, value: string): (r: Share)
    ensures r.name == s.name && r.access == s.access
    ensures key !in RecognisedKeys ==> r == s
    ensures r.path != s.path ==> key == "path"
    ensures r.comment != s.comment ==> key == "comment"
    ensures r.validUsers != s.validUsers ==> key == "valid users"
    ensures r.readonly != s.readonly ==> key in ReadOnlyKeys
    ensures r.guest != s.guest ==> key in GuestKeys
    ensures r.browseable != s.browseable ==> key in BrowseableKeys
  {
    if key == "path" then s.(path := value)
    else if key == "comment" then s.(comment := value)
    else if key == "read only" || key == "readonly" then s.(readonly := IsYes(value))
    else if key == "guest ok" || key == "public" then s.(guest := IsYes(value))
    else if key == "browseable" || key == "browsable" then s.(browseable := !IsNo(value))
    else if key == "valid users" then s.(validUsers := value)
    else s
  }

  /** `parseShareProperty`: one `key = value` line applied to a share. */
  function ParseShareProperty(s: Share, line: string): Share {
    ApplyProperty(s, AssignmentKey(line), AssignmentValue(line))
  }

  // ------------------------------------------------------------ scanner

  /** A trimmed line the scanner skips: blank, or a `#` / `;` comment. */
  predicate IsComment(t: string) {
    t == "" || t[0] == '#' || t[0] == ';'
  }

  /** A trimmed line that opens a section: it starts with '[' and ends with ']'. */
  predicate IsHeader(t: string) {
    StartsWith(t, "[") && EndsWith(t, "]")
  }

  /** The text between the brackets of a header (`slice(1, -1)`). */
  function SectionName(t: string): (name: string)
    requires IsHeader(t)
    ensures t == "[" + name + "]"
  {
    assert t[..1] == "[" && t[|t| - 1..] == "]";
    assert t[0] == '[' && t[|t| - 1] == ']';
    t[1..|t| - 1]
  }

  /** How the scan loop sees one line, once trimmed: skipped (blank or comment), a
      section header, a line holding '=', or anything else. */
  datatype LineKind =
    | Skipped
    | Section(name: string)
    | Assignment(key: string, value: string)
    | Plain

  function Classify(line: string): LineKind {
    var t := Trim(line);
    if IsComment(t) then Skipped
    else if IsHeader(t) then Section(SectionName(t))
    else if '=' in t then Assignment(AssignmentKey(t), AssignmentValue(t))
    else Plain
  }

  /** Every line of a text, classified, in order. */
  function Classified(lines: seq<string>): (ks: seq<LineKind>)
    ensures |ks| == |lines|
    decreases |lines|
  {
    if |lines| == 0 then [] else [Classify(lines[0])] + Classified(lines[1..])
  }

  /** The access label a share gets when it is finished. */
  function AccessOf(readonly: bool): string {
    if readonly then "readonly" else "readwrite"
  }

  function Finalize(s: Share): Share {
    s.(access := AccessOf(s.readonly))
  }

  /** The record a header opens: none for `[global]`. */
  function Open(name: string): Option<Share> {
    if name != "global" then Some(CreateDefaultShare(name)) else None
  }

  /** Whether the open record is emitted when its section ends. */
  predicate Emits(current: Option<Share>) {
    current.Some? && current.value.name != "global"
  }

  /** The scanner's state between lines: the open record (null in the source) and the records finished so far. */
  datatype ScanState = ScanState(current: Option<Share>, shares: seq<Share>)

  const Start := ScanState(None, [])

  /** Ends the open section: the finished list plus the open record, if it is emitted. */
  function Close(st: ScanState): seq<Share> {
    if Emits(st.current) then st.shares + [Finalize(st.current.value)] else st.shares
  }

  /** One line of the list-mode scan: a header closes the open section and opens the
      next; a line with '=' is a property of the open share, if any; the rest is skipped. */
  function Step(st: ScanState, k: LineKind): ScanState {
    match k
    case Section(name) => ScanState(Open(name), Close(st))
    case Assignment(key, value) =>
      if st.current.Some? then ScanState(Some(ApplyProperty(st.current.value, key, value)), st.shares)
      else st
    case _ => st
  }

  /** The list-mode scan over a sequence of lines, left to right. */
  function Fold(ks: seq<LineKind>, st: ScanState): ScanState
    decreases |ks|
  {
    if |ks| == 0 then st else Fold(ks[1..], Step(st, ks[0]))
  }

  /** Every share of a list, in order: what list mode returns for these lines. */
  function ParseLines(lines: seq<string>): seq<Share> {
    Close(Fold(Classified(lines), Start))
  }

  function Lines(text: string): seq<string> {
    Split(text, '\n')
  }

  /** The share list of a whole configuration text. */
  function ParseAll(text: string): seq<Share> {
    ParseLines(Lines(text))
  }

  /** What `parseShareConfig` returns: the share array, the matching share, or null. */
  datatype ParseResult = Shares(list: seq<Share>) | Found(share: Share) | NotFound

  /** A record the parser can emit: never named `global`, access derived from readonly. */
  predicate WellFormed(s: Share) {
    s.name != "global" && s.access == AccessOf(s.readonly)
  }

  predicate GoodState(st: ScanState) {
    && (st.current.Some? ==> st.current.value.name != "global")
    && (forall s :: s in st.shares ==> WellFormed(s))
  }

  /** Whether a line ends the open section and that section is the one asked for. */
  predicate ClosesTarget(st: ScanState, k: LineKind, target: string) {
    k.Section? && Emits(st.current) && target != "" && st.current.value.name == target
  }

  /** The scan loop with the early return of lookup mode; `target == ""` is list mode
      (an empty target is falsy in the source, like a missing one). */
  function Scan(ks: seq<LineKind>, st: ScanState, target: string): (r: ParseResult)
    requires GoodState(st)
    ensures target == "" <==> r.Shares?
    ensures r.Shares? ==> forall s :: s in r.list ==> WellFormed(s)
    ensures r.Found? ==> r.share.name == target && WellFormed(r.share)
    decreases |ks|
  {
    if |ks| == 0 then
      if Emits(st.current) && target != "" && st.current.value.name == target then
        Found(Finalize(st.current.value))
      else if target != "" then NotFound
      else Shares(Close(st))
    else if ClosesTarget(st, ks[0], target) then
      Found(Finalize(st.current.value))
    else
      Scan(ks[1..], Step(st, ks[0]), target)
  }

  /** `parseShareConfig(configContent, targetShare)`. */
  function ParseShareConfig(content: string, target: string): (r: ParseResult)
    ensures target == "" <==> r.Shares?
    ensures r.Shares? ==> forall s :: s in r.list ==> WellFormed(s)
    ensures r.Found? ==> r.share.name == target && WellFormed(r.share)
  {
    Scan(Classified(Lines(content)), Start, target)
  }

  // ------------------------------------------------------------ serialiser

  function YesNo(b: bool): string {
    if b then "yes" else "no"
  }

  /** One generated `    key = value` line. */
  function KeyLine(key: string, value: string): string {
    "    " + key + " = " + value
  }

  /** The opening of a fragment: a blank line, the header and the path line. */
  function HeadLines(d: ShareData): seq<string> {
    ["", "[" + d.name + "]", KeyLine("path", d.path)]
  }

  /** A line written only when its value is non-empty (a falsy value is skipped). */
  function OptionalLine(key: string, value: string): seq<string> {
    if value != "" then [KeyLine(key, value)] else []
  }

  function FlagLines(d: ShareData): seq<string> {
    [KeyLine("read only", YesNo(d.readonly)),
     KeyLine("guest ok", YesNo(d.guest)),
     KeyLine("browseable", YesNo(d.browseable))]
  }

  /** The lines of a generated fragment, in the fixed order path, [comment],
      read only, guest ok, browseable, [valid users]. */
  function FragmentLines(d: ShareData): seq<string> {
    HeadLines(d) + OptionalLine("comment", d.comment) + FlagLines(d) + OptionalLine("valid users", d.users)
  }

  /** Every line followed by a newline. */
  function Terminated(lines: seq<string>): string
    decreases |lines|
  {
    if |lines| == 0 then "" else lines[0] + "\n" + Terminated(lines[1..])
  }

  /** `generateShareConfig`: a leading newline, then one newline-terminated line per entry. */
  function GenerateShareConfig(d: ShareData): string {
    Terminated(FragmentLines(d))
  }

  /** The record re-parsing a fragment should give back. */
  function Expected(d: ShareData): Share {
    Share(d.name, d.path, d.comment, d.readonly, d.guest, d.browseable, d.users, AccessOf(d.readonly))
  }

  /** The field values the round trip needs: a name that is not `global`, values
      already trimmed, and no newline anywhere. */
  predicate Serialisable(d: ShareData) {
    && d.name != "global"
    && '\n' !in d.name && '\n' !in d.path && '\n' !in d.comment && '\n' !in d.users
    && IsTrimmed(d.path) && IsTrimmed(d.comment) && IsTrimmed(d.users)
  }

  /** The position of the first share in `list` named `name`, or -1. */
  function FirstNamedIndex(list: seq<Share>, name: string): (i: int)
    ensures -1 <= i < |list|
    ensures i >= 0 ==> list[i].name == name && forall j :: 0 <= j < i ==> list[j].name != name
    ensures i == -1 <==> forall s :: s in list ==> s.name != name
    decreases |list|
  {
    if |list| == 0 then -1
    else if list[0].name == name then 0
    else
      var k := FirstNamedIndex(list[1..], name);
      if k < 0 then -1 else k + 1
  }

  /** What lookup mode should answer for a finished list: the first share named `name`, or not-found. */
  function Lookup(list: seq<Share>, name: string): ParseResult {
    var i := FirstNamedIndex(list, name);
    if i < 0 then NotFound else Found(list[i])
  }

  /** The non-global section names among classified lines, in file order, duplicates kept. */
  function HeaderNames(ks: seq<LineKind>): seq<string>
    decreases |ks|
  {
    if |ks| == 0 then []
    else
      var here := if ks[0].Section? && ks[0].name != "global" then [ks[0].name] else [];
      here + HeaderNames(ks[1..])
  }

  function Names(list: seq<Share>): seq<string>
    decreases |list|
  {
    if |list| == 0 then [] else [list[0].name] + Names(list[1..])
  }
}
