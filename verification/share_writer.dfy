/** The text-level share mutations of `modules/shares.js`: the sed range-delete that
    removes a share's section, and the create / update / delete flows. The file system
    is a map from path to text; the outcome of every privileged command is an input. */
module ShareWriter {
  import opened Strings
  import opened ShareConfig
  import opened ShareConfigProperties

  // ------------------------------------------------------------ sed range-delete

  /** The bracketed name, as the existence checks and the sed address spell it. */
  function HeaderText(name: string): string {
    "[" + name + "]"
  }

  /** The range's start address `^\[name\]`: the line begins, in column 0, with the
      bracketed name (the name is matched literally). */
  predicate SedStart(line: string, name: string) {
    StartsWith(line, HeaderText(name))
  }

  /** The range's end address `^\[.*\]`: the line begins with '[' and has a ']' after it. */
  predicate SedEnd(line: string) {
    |line| > 0 && line[0] == '[' && ']' in line[1..]
  }

  /** The sed program `/^\[name\]/,/^\[.*\]/{/^\[name\]/d; /^\[.*\]/!d;}` run over
      `lines`. Outside the range a `[name]` line opens it (and is deleted); inside it,
      lines that are not headers are deleted, and the first header closes it: that
      header is kept unless it is itself a `[name]` line. The range may open again. */
  function SedFrom(lines: seq<string>, name: string, inRange: bool): (r: seq<string>)
    ensures |r| <= |lines|
    decreases |lines|
  {
    if |lines| == 0 then []
    else
      var l := lines[0];
      if !inRange then
        if SedStart(l, name) then SedFrom(lines[1..], name, true)
        else [l] + SedFrom(lines[1..], name, false)
      else if SedEnd(l) then
        (if SedStart(l, name) then [] else [l]) + SedFrom(lines[1..], name, false)
      else SedFrom(lines[1..], name, true)
  }

  /** `sed -i` on a whole file: the text's lines, range-deleted, joined again. */
  function SedDeleteText(text: string, name: string): string {
    Join(SedFrom(Lines(text), name, false), '\n')
  }

  /** `xs` is `ys` with some entries dropped, the rest in their original order. */
  predicate IsSubsequence(xs: seq<string>, ys: seq<string>)
    decreases |ys|
  {
    if |xs| == 0 then true
    else if |ys| == 0 then false
    else (xs[0] == ys[0] && IsSubsequence(xs[1..], ys[1..])) || IsSubsequence(xs, ys[1..])
  }

  /** A start line is also an end line, so a `[name]` line inside the range closes it. */
  lemma StartIsEnd(line: string, name: string)
    requires SedStart(line, name)
    ensures SedEnd(line)
  {
    var h := HeaderText(name);
    assert line[..|h|] == h;
    assert line[0] == h[0] == '[';
    assert line[1..][|h| - 2] == h[|h| - 1] == ']';
  }

  /** No line left by the sed begins with `[name]`. */
  lemma {:induction false} SedLeavesNoStart(lines: seq<string>, name: string, inRange: bool)
    ensures forall i :: 0 <= i < |SedFrom(lines, name, inRange)| ==> !SedStart(SedFrom(lines, name, inRange)[i], name)
    decreases |lines|
  {
    if |lines| > 0 {
      SedLeavesNoStart(lines[1..], name, (!inRange && SedStart(lines[0], name)) || (inRange && !SedEnd(lines[0])));
    }
  }

  /** The sed only deletes lines: its output is a subsequence of its input. */
  lemma {:induction false} SedKeepsOrder(lines: seq<string>, name: string, inRange: bool)
    ensures IsSubsequence(SedFrom(lines, name, inRange), lines)
    decreases |lines|
  {
    if |lines| > 0 {
      var next := (!inRange && SedStart(lines[0], name)) || (inRange && !SedEnd(lines[0]));
      var rest := SedFrom(lines[1..], name, next);
      SedKeepsOrder(lines[1..], name, next);
      var r := SedFrom(lines, name, inRange);
      if r != rest {
        assert r == [lines[0]] + rest;
        assert r[1..] == rest;
      } else if |r| > 0 {
        assert IsSubsequence(r, lines[1..]);
      }
    }
  }

  /** Lines before the range pass through unchanged. */
  lemma {:induction false} SedOutside(p: seq<string>, rest: seq<string>, name: string)
    requires forall i :: 0 <= i < |p| ==> !SedStart(p[i], name)
    ensures SedFrom(p + rest, name, false) == p + SedFrom(rest, name, false)
    decreases |p|
  {
    if |p| > 0 {
      assert (p + rest)[0] == p[0];
      assert (p + rest)[1..] == p[1..] + rest;
      SedOutside(p[1..], rest, name);
      assert p + SedFrom(rest, name, false) == [p[0]] + (p[1..] + SedFrom(rest, name, false));
    } else {
      assert p + rest == rest;
    }
  }

  /** Inside the range, every line that is not a header is deleted. */
  lemma {:induction false} SedBody(b: seq<string>, rest: seq<string>, name: string)
    requires forall i :: 0 <= i < |b| ==> !SedEnd(b[i])
    ensures SedFrom(b + rest, name, true) == SedFrom(rest, name, true)
    decreases |b|
  {
    if |b| > 0 {
      assert (b + rest)[0] == b[0];
      assert (b + rest)[1..] == b[1..] + rest;
      SedBody(b[1..], rest, name);
    } else {
      assert b + rest == rest;
    }
  }

  /** A file without any `[name]` line is left exactly as it was. */
  lemma SedUntouched(lines: seq<string>, name: string)
    requires forall i :: 0 <= i < |lines| ==> !SedStart(lines[i], name)
    ensures SedFrom(lines, name, false) == lines
  {
    SedOutside(lines, [], name);
    assert lines + [] == lines;
  }

  /** A `[name]` line outside the range is deleted and opens it. */
  lemma SedOpens(h: string, rest: seq<string>, name: string)
    requires SedStart(h, name)
    ensures SedFrom([h] + rest, name, false) == SedFrom(rest, name, true)
  {
    assert ([h] + rest)[1..] == rest;
  }

  /** A header inside the range that is not a `[name]` line closes it and is kept. */
  lemma SedCloses(e: string, rest: seq<string>, name: string)
    requires SedEnd(e) && !SedStart(e, name)
    ensures SedFrom([e] + rest, name, true) == [e] + SedFrom(rest, name, false)
  {
    assert ([e] + rest)[1..] == rest;
  }

  /** The section rule: the `[name]` header and the lines up to the next header go, that
      header stays, and everything before it and the rest of the file are processed as usual. */
  lemma SedSection(p: seq<string>, h: string, b: seq<string>, e: string, s: seq<string>, name: string)
    requires forall i :: 0 <= i < |p| ==> !SedStart(p[i], name)
    requires SedStart(h, name)
    requires forall i :: 0 <= i < |b| ==> !SedEnd(b[i])
    requires SedEnd(e) && !SedStart(e, name)
    ensures SedFrom(p + ([h] + (b + ([e] + s))), name, false) == p + ([e] + SedFrom(s, name, false))
  {
    var tail := [e] + s;
    var t := [h] + (b + tail);
    SedOutside(p, t, name);
    SedOpens(h, b + tail, name);
    SedBody(b, tail, name);
    SedCloses(e, s, name);
  }

  /** Without a following header the range runs to the end of the file. */
  lemma SedToEnd(p: seq<string>, h: string, b: seq<string>, name: string)
    requires forall i :: 0 <= i < |p| ==> !SedStart(p[i], name)
    requires SedStart(h, name)
    requires forall i :: 0 <= i < |b| ==> !SedEnd(b[i])
    ensures SedFrom(p + ([h] + b), name, false) == p
  {
    SedOutside(p, [h] + b, name);
    SedOpens(h, b, name);
    SedBody(b, [], name);
    assert b + [] == b;
    assert p + [] == p;
  }

  // ------------------------------------------------------------ deletion, as the parser sees it

  /** `list` without the shares named `name`, order kept. */
  function Without(list: seq<Share>, name: string): (r: seq<Share>)
    ensures |r| <= |list|
    decreases |list|
  {
    if |list| == 0 then []
    else (if list[0].name == name then [] else [list[0]]) + Without(list[1..], name)
  }

  lemma {:induction false} WithoutAppend(a: seq<Share>, b: seq<Share>, name: string)
    ensures Without(a + b, name) == Without(a, name) + Without(b, name)
    decreases |a|
  {
    if |a| > 0 {
      assert (a + b)[0] == a[0];
      assert (a + b)[1..] == a[1..] + b;
      WithoutAppend(a[1..], b, name);
      assert Without(a, name) + Without(b, name)
          == (if a[0].name == name then [] else [a[0]]) + (Without(a[1..], name) + Without(b, name));
    } else {
      assert a + b == b;
    }
  }

  lemma WithoutOne(a: seq<Share>, s: Share, name: string)
    ensures Without(a + [s], name) == Without(a, name) + (if s.name == name then [] else [s])
  {
    WithoutAppend(a, [s], name);
    assert [s][1..] == [];
  }

  /** Headers sed and the parser agree on: a line is a header to the parser exactly when it
      is a column-0 bracket line, and begins with `[name]` exactly when it is the header of
      `name`. */
  predicate Aligned(l: string, name: string) {
    && (Classify(l).Section? <==> SedEnd(l))
    && (SedStart(l, name) <==> Classify(l) == Section(name))
  }

  /** The parser's state before a line outside the range, against the state of the parser
      reading the sed's output: the same open record, which is not `name`, and the same
      finished list once the `name` shares are dropped. */
  predicate Outside(st: ScanState, st2: ScanState, name: string) {
    && st.current == st2.current
    && (st.current.None? || st.current.value.name != name)
    && Without(st.shares, name) == st2.shares
  }

  /** Inside the range: the open record, if any, is the one being deleted. */
  predicate Inside(st: ScanState, st2: ScanState, name: string) {
    && (st.current.None? || st.current.value.name == name)
    && Without(st.shares, name) == Close(st2)
  }

  lemma CloseOutside(st: ScanState, st2: ScanState, name: string)
    requires Outside(st, st2, name)
    ensures Without(Close(st), name) == Close(st2)
  {
    if Emits(st.current) {
      WithoutOne(st.shares, Finalize(st.current.value), name);
    }
  }

  lemma CloseInside(st: ScanState, st2: ScanState, name: string)
    requires Inside(st, st2, name)
    ensures Without(Close(st), name) == Close(st2)
  {
    if Emits(st.current) {
      WithoutOne(st.shares, Finalize(st.current.value), name);
    }
  }

  /** A line that is not a header keeps the open record's name and the finished list. */
  lemma StepBody(st: ScanState, k: LineKind)
    requires !k.Section?
    ensures Step(st, k).shares == st.shares
    ensures Step(st, k).current.None? <==> st.current.None?
    ensures st.current.Some? ==> Step(st, k).current.value.name == st.current.value.name
  {
  }

  /** Fold over the lines before one from each side; the invariant carried is `Outside` or
      `Inside` as the sed is outside or inside the range. */
  lemma {:induction false} SedParse(lines: seq<string>, name: string, inRange: bool, st: ScanState, st2: ScanState)
    requires forall i :: 0 <= i < |lines| ==> Aligned(lines[i], name)
    requires forall i, j :: 0 <= i < j < |lines| && SedStart(lines[i], name) ==> !SedStart(lines[j], name)
    requires inRange ==> forall i :: 0 <= i < |lines| ==> !SedStart(lines[i], name)
    requires if inRange then Inside(st, st2, name) else Outside(st, st2, name)
    ensures Without(Close(Fold(Classified(lines), st)), name)
         == Close(Fold(Classified(SedFrom(lines, name, inRange)), st2))
    decreases |lines|
  {
    if |lines| == 0 {
      if inRange { CloseInside(st, st2, name); } else { CloseOutside(st, st2, name); }
    } else {
      var l, rest := lines[0], lines[1..];
      var k := Classify(l);
      assert Aligned(l, name);
      assert Classified(lines) == [k] + Classified(rest);
      assert Fold(Classified(lines), st) == Fold(Classified(rest), Step(st, k));
      assert forall i :: 0 <= i < |rest| ==> rest[i] == lines[i + 1];
      if !inRange && SedStart(l, name) {
        assert forall i :: 0 <= i < |rest| ==> !SedStart(rest[i], name);
        CloseOutside(st, st2, name);
        SedParse(rest, name, true, Step(st, k), st2);
      } else if inRange && !SedEnd(l) {
        StepBody(st, k);
        SedParse(rest, name, true, Step(st, k), st2);
      } else if inRange {
        var n := k.name;
        ClassifiedOne(l);
        assert SedFrom(lines, name, inRange) == [l] + SedFrom(rest, name, false);
        assert Classified([l] + SedFrom(rest, name, false)) == [k] + Classified(SedFrom(rest, name, false));
        CloseInside(st, st2, name);
        SedParse(rest, name, false, Step(st, k), Step(st2, k));
      } else {
        assert SedFrom(lines, name, inRange) == [l] + SedFrom(rest, name, false);
        assert Classified([l] + SedFrom(rest, name, false)) == [k] + Classified(SedFrom(rest, name, false));
        if k.Section? {
          CloseOutside(st, st2, name);
        }
        SedParse(rest, name, false, Step(st, k), Step(st2, k));
      }
    }
  }

  /** When every header is aligned and `[name]` heads at most one line, the sed removes
      exactly the share named `name`: the other shares are parsed as before, in order. */
  lemma SedRemovesShare(lines: seq<string>, name: string)
    requires forall i :: 0 <= i < |lines| ==> Aligned(lines[i], name)
    requires forall i, j :: 0 <= i < j < |lines| && SedStart(lines[i], name) ==> !SedStart(lines[j], name)
    ensures ParseLines(SedFrom(lines, name, false)) == Without(ParseLines(lines), name)
  {
    SedParse(lines, name, false, Start, Start);
  }

  // ------------------------------------------------------------ the file system and the flows

  type FileSystem = map<string, string>

  const ConfigPath := "/etc/samba/smb.conf"

  /** `/etc/samba/smb.conf.backup.${Date.now()}`, with the clock reading as a parameter. */
  function BackupPath(stamp: nat): string {
    "/etc/samba/smb.conf.backup." + NatToString(stamp)
  }

  /** What `cat` of the configuration yields; a missing file reads as nothing. */
  function ConfigText(fs: FileSystem): string {
    if ConfigPath in fs then fs[ConfigPath] else ""
  }

  /** A command's outcome: success, or failure with its error text. */
  datatype Outcome = Success | Failure(error: string)

  /** A flow's effect: the file system afterwards and what the flow reports. */
  datatype Effect = Effect(fs: FileSystem, outcome: Outcome)

  /** `echo "$fragment" >> smb.conf`: the fragment and echo's newline appended. */
  function Appended(fs: FileSystem, fragment: string): FileSystem {
    fs[ConfigPath := ConfigText(fs) + fragment + "\n"]
  }

  /** The configuration holds `[name]` somewhere. */
  predicate Mentions(fs: FileSystem, name: string) {
    ConfigPath in fs && Contains(fs[ConfigPath], HeaderText(name))
  }

  /** The duplicate / existence check: the unprivileged `cat` of the configuration succeeded
      (`readable`; it cannot succeed on a missing file) and its text holds `[name]`. */
  predicate Seen(fs: FileSystem, name: string, readable: bool) {
    readable && Mentions(fs, name)
  }

  function Duplicate(name: string): string {
    "Share \"" + name + "\" already exists"
  }

  /** `createShareConfig`. `readable` is whether the `cat` of the duplicate check succeeded;
      `append` is the outcome of the privileged append. */
  function CreateShare(fs: FileSystem, d: ShareData, readable: bool, append: Outcome): (r: Effect)
    ensures r.outcome == Failure(Duplicate(d.name)) <==> Seen(fs, d.name, readable)
    ensures append.Failure? && !Seen(fs, d.name, readable) ==> r.outcome == Failure("Failed to create share: " + append.error)
    ensures r.outcome.Success? <==> !Seen(fs, d.name, readable) && append.Success?
    ensures r.outcome.Failure? ==> r.fs == fs
    ensures forall p :: p != ConfigPath ==> (p in r.fs <==> p in fs) && (p in fs ==> r.fs[p] == fs[p])
  {
    if Seen(fs, d.name, readable) then Effect(fs, Failure(Duplicate(d.name)))
    else if append.Failure? then
      assert "Failed to create share: " + append.error != Duplicate(d.name) by {
        assert ("Failed to create share: " + append.error)[0] == 'F';
        assert Duplicate(d.name)[0] == 'S';
      }
      Effect(fs, Failure("Failed to create share: " + append.error))
    else Effect(Appended(fs, GenerateShareConfig(d)), Success)
  }

  lemma BackupIsNotConfig(stamp: nat)
    ensures BackupPath(stamp) != ConfigPath
  {
    assert |BackupPath(stamp)| > |ConfigPath|;
  }

  /** `cp smb.conf smb.conf.backup.<stamp>`, when the copy succeeds. */
  function Backup(fs: FileSystem, stamp: nat, copied: bool): (r: FileSystem)
    ensures ConfigPath in r <==> ConfigPath in fs
    ensures ConfigPath in fs ==> r[ConfigPath] == fs[ConfigPath]
  {
    BackupIsNotConfig(stamp);
    if copied && ConfigPath in fs then fs[BackupPath(stamp) := fs[ConfigPath]] else fs
  }

  /** `updateShareConfig`: back up, range-delete the old section, append the new fragment.
      Neither the backup's nor the sed's result is looked at; only the append can fail. */
  function UpdateShare(fs: FileSystem, originalName: string, d: ShareData, stamp: nat,
                       copied: bool, sedRan: bool, append: Outcome): (r: Effect)
    ensures r.outcome.Success? <==> append.Success?
    ensures r.outcome.Failure? ==> r.outcome.error == "Failed to update share: " + append.error
    ensures forall p :: p != ConfigPath && p != BackupPath(stamp) ==>
              (p in r.fs <==> p in fs) && (p in fs ==> r.fs[p] == fs[p])
  {
    var fs1 := Backup(fs, stamp, copied);
    var fs2 := if sedRan && ConfigPath in fs1 then fs1[ConfigPath := SedDeleteText(fs1[ConfigPath], originalName)] else fs1;
    if append.Failure? then Effect(fs2, Failure("Failed to update share: " + append.error))
    else Effect(Appended(fs2, GenerateShareConfig(d)), Success)
  }

  function NotFound(name: string): string {
    "Share \"" + name + "\" not found in configuration"
  }

  function StillExists(name: string): string {
    "Share [" + name + "] still exists after deletion attempt"
  }

  /** The verification `cat` after the sed found `[name]` still in the file. */
  predicate Survives(fs: FileSystem, name: string, reread: bool)
    requires ConfigPath in fs
  {
    reread && Contains(SedDeleteText(fs[ConfigPath], name), HeaderText(name))
  }

  /** `deleteShareConfig`: the existence check (whose `cat` succeeded when `readable`), the
      backup, the sed (whose failure is reported) and the verification `cat` (which
      succeeded when `reread`; a failed one checks nothing). */
  function DeleteShare(fs: FileSystem, name: string, readable: bool, stamp: nat, copied: bool,
                       sed: Outcome, reread: bool): (r: Effect)
    ensures r.outcome == Failure(NotFound(name)) <==> !Seen(fs, name, readable)
    ensures !Seen(fs, name, readable) ==> r.fs == fs
    ensures Seen(fs, name, readable) && sed.Failure? ==> r.outcome == Failure("Failed to delete share: " + sed.error)
    ensures r.outcome == Failure(StillExists(name)) <==> Seen(fs, name, readable) && sed.Success? && Survives(fs, name, reread)
    ensures r.outcome.Success? <==> Seen(fs, name, readable) && sed.Success? && !Survives(fs, name, reread)
    ensures r.outcome.Success? ==> ConfigPath in r.fs && r.fs[ConfigPath] == SedDeleteText(fs[ConfigPath], name)
    ensures r.outcome.Success? && reread ==> !Mentions(r.fs, name)
    ensures forall p :: p != ConfigPath && p != BackupPath(stamp) ==>
              (p in r.fs <==> p in fs) && (p in fs ==> r.fs[p] == fs[p])
  {
    if !Seen(fs, name, readable) then Effect(fs, Failure(NotFound(name)))
    else
      var fs1 := Backup(fs, stamp, copied);
      assert NotFound(name)[0] == 'S' && NotFound(name)[6] == '"';
      if sed.Failure? then
        assert ("Failed to delete share: " + sed.error)[0] == 'F';
        Effect(fs1, Failure("Failed to delete share: " + sed.error))
      else
        var after := SedDeleteText(fs[ConfigPath], name);
        var fs2 := fs1[ConfigPath := after];
        assert StillExists(name)[6] == '[';
        if Survives(fs, name, reread) then Effect(fs2, Failure(StillExists(name)))
        else Effect(fs2, Success)
  }

  // ------------------------------------------------------------ what the flows do to the share list

  /** Echo's extra newline is one more blank line, which the parser skips. */
  lemma TrailingBlank(x: string)
    ensures ParseAll(x + "\n") == ParseAll(x)
  {
    assert x + "\n" == x + ['\n'] + "";
    SplitAppend(x, "", '\n');
    assert Split("", '\n') == [""];
    ClassifiedAppend(Lines(x), [""]);
    ClassifiedOne("");
    BlankLine();
    FoldAppend(Classified(Lines(x)), [Skipped], Start);
  }

  lemma EmptyText()
    ensures ParseAll("") == []
  {
    assert Split("", '\n') == [""];
    ClassifiedOne("");
    BlankLine();
  }

  /** A text whose first line is the header of `name` opens a section. */
  lemma OpensWithHeader(name: string, tail: string)
    requires '\n' !in name
    ensures StartsSection(Lines(HeaderText(name) + "\n" + tail))
  {
    assert '\n' !in HeaderText(name);
    SplitAfter(HeaderText(name), '\n', tail);
    HeaderLine(name);
  }

  /** A generated fragment is a newline, the header line, and the rest. */
  lemma GeneratedShape(d: ShareData) returns (body: string)
    ensures GenerateShareConfig(d) == "\n" + (HeaderText(d.name) + "\n" + body)
  {
    var lines := FragmentLines(d);
    var rest := lines[1..];
    body := Terminated(rest[1..]);
    assert lines[0] == "" && rest[0] == HeaderText(d.name);
    assert Terminated(lines) == "" + "\n" + Terminated(rest);
    assert Terminated(rest) == HeaderText(d.name) + "\n" + body;
  }

  /** Without its leading newline, the fragment still parses to its one share. */
  lemma GeneratedBodyParses(d: ShareData, body: string)
    requires Serialisable(d)
    requires GenerateShareConfig(d) == "\n" + (HeaderText(d.name) + "\n" + body)
    ensures ParseAll(HeaderText(d.name) + "\n" + body) == [Expected(d)]
  {
    var y := HeaderText(d.name) + "\n" + body;
    RoundTrip(d);
    OpensWithHeader(d.name, body);
    assert "" + "\n" + y == "\n" + y;
    ParseAllAppend("", y);
    EmptyText();
  }

  /** Echoing a text that opens with a header after any text appends that text's shares. */
  lemma EchoAppends(before: string, g: string, name: string, body: string)
    requires '\n' !in name
    requires g == "\n" + (HeaderText(name) + "\n" + body)
    ensures ParseAll(before + g + "\n") == ParseAll(before) + ParseAll(HeaderText(name) + "\n" + body)
  {
    var y := HeaderText(name) + "\n" + body;
    EchoText(before, HeaderText(name), body);
    TrailingBlank(y);
    OpensWithHeader(name, body + "\n");
    ParseAllAppend(before, y + "\n");
  }

  lemma EchoText(before: string, h: string, body: string)
    ensures h + "\n" + body + "\n" == h + "\n" + (body + "\n")
    ensures before + ("\n" + (h + "\n" + body)) + "\n" == before + "\n" + (h + "\n" + body + "\n")
  {
  }

  /** A generated fragment, echoed after any text, adds exactly its own share to the list. */
  lemma AppendFragment(before: string, d: ShareData)
    requires Serialisable(d)
    ensures ParseAll(before + GenerateShareConfig(d) + "\n") == ParseAll(before) + [Expected(d)]
  {
    var body := GeneratedShape(d);
    GeneratedBodyParses(d, body);
    EchoAppends(before, GenerateShareConfig(d), d.name, body);
  }

  /** A successful create leaves the old shares as they were and adds the new one last. */
  lemma CreateAddsShare(fs: FileSystem, d: ShareData, readable: bool, append: Outcome)
    requires Serialisable(d) && CreateShare(fs, d, readable, append).outcome.Success?
    ensures ParseAll(CreateShare(fs, d, readable, append).fs[ConfigPath]) == ParseAll(ConfigText(fs)) + [Expected(d)]
  {
    AppendFragment(ConfigText(fs), d);
  }

  /** A successful update parses as the range-deleted file plus the new share at the end. */
  lemma UpdateReplacesShare(fs: FileSystem, originalName: string, d: ShareData, stamp: nat, copied: bool, append: Outcome)
    requires Serialisable(d) && ConfigPath in fs
    requires UpdateShare(fs, originalName, d, stamp, copied, true, append).outcome.Success?
    ensures ParseAll(UpdateShare(fs, originalName, d, stamp, copied, true, append).fs[ConfigPath])
         == ParseAll(SedDeleteText(fs[ConfigPath], originalName)) + [Expected(d)]
  {
    AppendFragment(SedDeleteText(fs[ConfigPath], originalName), d);
  }

  /** Since the sed's result is not checked, an update whose sed did not run still appends:
      the old section stays and the new one is added after it. */
  lemma UpdateWithoutSed(fs: FileSystem, originalName: string, d: ShareData, stamp: nat, copied: bool, append: Outcome)
    requires Serialisable(d)
    requires UpdateShare(fs, originalName, d, stamp, copied, false, append).outcome.Success?
    ensures ParseAll(UpdateShare(fs, originalName, d, stamp, copied, false, append).fs[ConfigPath])
         == ParseAll(ConfigText(fs)) + [Expected(d)]
  {
    AppendFragment(ConfigText(fs), d);
  }

  /** A line the parser reads as the header of `name` holds `[name]`. */
  lemma SectionLineMentions(l: string, name: string)
    requires Classify(l) == Section(name)
    ensures Contains(l, HeaderText(name))
  {
    var pre, post := TrimSpec(l);
    assert Trim(l) == HeaderText(name);
    assert l[|pre|..|pre| + |Trim(l)|] == Trim(l);
    ContainsAt(l, HeaderText(name), |pre|);
  }

  lemma {:induction false} HeaderNamesWitness(ks: seq<LineKind>, name: string) returns (i: nat)
    requires name in HeaderNames(ks)
    ensures i < |ks| && ks[i] == Section(name)
    decreases |ks|
  {
    if ks[0].Section? && ks[0].name != "global" && ks[0].name == name {
      i := 0;
    } else {
      assert HeaderNames(ks) == (if ks[0].Section? && ks[0].name != "global" then [ks[0].name] else []) + HeaderNames(ks[1..]);
      var j := HeaderNamesWitness(ks[1..], name);
      i := j + 1;
    }
  }

  lemma {:induction false} NameInNames(list: seq<Share>, s: Share)
    requires s in list
    ensures s.name in Names(list)
    decreases |list|
  {
    if list[0] != s {
      NameInNames(list[1..], s);
    }
  }

  /** A text that parses to a share named `name` mentions `[name]`. */
  lemma ParsedShareMentioned(text: string, s: Share)
    requires s in ParseAll(text)
    ensures Contains(text, HeaderText(s.name))
  {
    var lines := Lines(text);
    NameInNames(ParseAll(text), s);
    NamesFollowHeaders(text);
    var i := HeaderNamesWitness(Classified(lines), s.name);
    ClassifiedIndex(lines, i);
    SectionLineMentions(lines[i], s.name);
    ContainsJoin(lines, '\n', i, HeaderText(s.name));
    SplitInverse(text, '\n');
  }

  /** Because of the final check, a delete that reports success after a successful
      verification read leaves no share of that name. */
  lemma DeleteRemovesShare(fs: FileSystem, name: string, readable: bool, stamp: nat, copied: bool, sed: Outcome)
    requires DeleteShare(fs, name, readable, stamp, copied, sed, true).outcome.Success?
    ensures forall s :: s in ParseAll(DeleteShare(fs, name, readable, stamp, copied, sed, true).fs[ConfigPath]) ==> s.name != name
  {
    var text := DeleteShare(fs, name, readable, stamp, copied, sed, true).fs[ConfigPath];
    forall s | s in ParseAll(text) ensures s.name != name {
      ParsedShareMentioned(text, s);
    }
  }

  /** Pieces of a text hold no newline, so joining the sed's output and splitting it again
      gives back the same lines. */
  lemma SedLinesRoundTrip(text: string, name: string)
    ensures ParseAll(SedDeleteText(text, name)) == ParseLines(SedFrom(Lines(text), name, false))
  {
    var kept := SedFrom(Lines(text), name, false);
    SplitInverse(text, '\n');
    SedKeepsOrder(Lines(text), name, false);
    SubsequenceMembers(kept, Lines(text));
    if |kept| == 0 {
      EmptyText();
      assert Classified(kept) == [];
    } else {
      SplitJoin(kept, '\n');
    }
  }

  lemma {:induction false} SubsequenceMembers(xs: seq<string>, ys: seq<string>)
    requires IsSubsequence(xs, ys)
    ensures forall x :: x in xs ==> x in ys
    decreases |ys|
  {
    if |xs| > 0 {
      if xs[0] == ys[0] && IsSubsequence(xs[1..], ys[1..]) {
        SubsequenceMembers(xs[1..], ys[1..]);
        assert xs == [xs[0]] + xs[1..];
      } else {
        SubsequenceMembers(xs, ys[1..]);
      }
    }
  }

  /** A successful delete of an aligned file drops exactly the share named `name`. */
  lemma DeleteKeepsOthers(fs: FileSystem, name: string, readable: bool, stamp: nat, copied: bool,
                           sed: Outcome, reread: bool)
    requires DeleteShare(fs, name, readable, stamp, copied, sed, reread).outcome.Success?
    requires forall i :: 0 <= i < |Lines(fs[ConfigPath])| ==> Aligned(Lines(fs[ConfigPath])[i], name)
    requires forall i, j :: 0 <= i < j < |Lines(fs[ConfigPath])| && SedStart(Lines(fs[ConfigPath])[i], name)
               ==> !SedStart(Lines(fs[ConfigPath])[j], name)
    ensures ParseAll(DeleteShare(fs, name, readable, stamp, copied, sed, reread).fs[ConfigPath]) == Without(ParseAll(fs[ConfigPath]), name)
  {
    SedLinesRoundTrip(fs[ConfigPath], name);
    SedRemovesShare(Lines(fs[ConfigPath]), name);
  }
}
