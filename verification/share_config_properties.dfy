/**
 * What the smb.conf parser and serialiser promise: how a line is read, how list
 * mode and lookup mode relate, how a text splits at a section header, the fixed
 * truthiness rules, the exclusion of `[global]`, and the serialise/parse round trip.
 */
module ShareConfigProperties {
  import opened Wrappers
  import opened Strings
  import opened ShareConfig

  // ------------------------------------------------------------ key lines

  /** A key line splits at its first '=': the key is trimmed and lower-cased, the value
      trimmed, and every later '=' stays in the value. */
  lemma SplitsAtFirstEquals(k: string, v: string)
    requires '=' !in k
    ensures AssignmentKey(k + "=" + v) == Lower(Trim(k))
    ensures AssignmentValue(k + "=" + v) == Trim(v)
  {
    var line := k + "=" + v;
    IndexOfAfter(k, '=', v);
    assert line[..|k|] == k;
    assert line[|k| + 1..] == v;
  }

  /** The directive table on an already split key and value. */
  lemma DirectiveRules(s: Share, key: string, value: string)
    ensures key == "path" ==> ApplyProperty(s, key, value) == s.(path := value)
    ensures key == "comment" ==> ApplyProperty(s, key, value) == s.(comment := value)
    ensures key == "valid users" ==> ApplyProperty(s, key, value) == s.(validUsers := value)
    ensures key in ReadOnlyKeys ==> ApplyProperty(s, key, value) == s.(readonly := Lower(value) in {"yes", "true"})
    ensures key in GuestKeys ==> ApplyProperty(s, key, value) == s.(guest := Lower(value) in {"yes", "true"})
    ensures key in BrowseableKeys ==> ApplyProperty(s, key, value) == s.(browseable := Lower(value) !in {"no", "false"})
  {
  }

  /** `read only`/`readonly` and `guest ok`/`public` are true exactly on yes/true;
      `browseable`/`browsable` is false exactly on no/false; letter case is ignored everywhere. */
  lemma BooleanRules(s: Share, k: string, v: string)
    requires '=' !in k
    ensures Lower(Trim(k)) in ReadOnlyKeys ==>
      (ParseShareProperty(s, k + "=" + v).readonly <==> Lower(Trim(v)) in {"yes", "true"})
    ensures Lower(Trim(k)) in GuestKeys ==>
      (ParseShareProperty(s, k + "=" + v).guest <==> Lower(Trim(v)) in {"yes", "true"})
    ensures Lower(Trim(k)) in BrowseableKeys ==>
      (!ParseShareProperty(s, k + "=" + v).browseable <==> Lower(Trim(v)) in {"no", "false"})
  {
    SplitsAtFirstEquals(k, v);
    DirectiveRules(s, Lower(Trim(k)), Trim(v));
  }

  /** Every character is its own lower case: `toLowerCase` leaves the text alone. */
  predicate LowerCaseAlready(s: string) {
    forall i :: 0 <= i < |s| ==> LowerChar(s[i]) == s[i]
  }

  lemma {:induction false} LowerFixed(s: string)
    requires LowerCaseAlready(s)
    ensures Lower(s) == s
    decreases |s|
  {
    if |s| > 0 {
      assert LowerCaseAlready(s[1..]) by {
        forall i | 0 <= i < |s| - 1 ensures LowerChar(s[1..][i]) == s[1..][i] {
          assert s[1..][i] == s[i + 1];
        }
      }
      LowerFixed(s[1..]);
      assert s == [s[0]] + s[1..];
    }
  }

  /** A key the generator writes: trimmed, without '=', already lower-case, and not
      starting like a comment or a header. */
  predicate GeneratedKey(k: string) {
    && k != "" && IsTrimmed(k) && '=' !in k && LowerCaseAlready(k)
    && k[0] != '#' && k[0] != ';' && k[0] != '['
  }

  lemma KeyTrim(k: string)
    requires GeneratedKey(k)
    ensures Trim(k + " ") == k
  {
    TrimPadded("", k, " ");
    assert "" + k + " " == k + " ";
  }

  lemma ValueTrim(v: string)
    requires IsTrimmed(v)
    ensures Trim(" " + v) == v
  {
    TrimPadded(" ", v, "");
    assert " " + v + "" == " " + v;
  }

  /** The trimmed text of a generated `    key = value` line. */
  function GeneratedText(k: string, v: string): string {
    if v == "" then k + " =" else k + " = " + v
  }

  lemma GeneratedLineTrim(k: string, v: string)
    requires GeneratedKey(k) && IsTrimmed(v)
    ensures Trim("    " + k + " = " + v) == GeneratedText(k, v)
  {
    var t := GeneratedText(k, v);
    assert IsTrimmed(t);
    if v == "" {
      assert "    " + k + " = " + v == "    " + t + " ";
      TrimPadded("    ", t, " ");
    } else {
      assert "    " + k + " = " + v == "    " + t + "";
      TrimPadded("    ", t, "");
    }
  }

  lemma GeneratedTextParts(k: string, v: string)
    requires GeneratedKey(k) && IsTrimmed(v)
    ensures AssignmentKey(GeneratedText(k, v)) == k
    ensures AssignmentValue(GeneratedText(k, v)) == v
  {
    var rest := if v == "" then "" else " " + v;
    assert GeneratedText(k, v) == (k + " ") + "=" + rest;
    SplitsAtFirstEquals(k + " ", rest);
    KeyTrim(k);
    LowerFixed(k);
    if v == "" {
      assert Trim("") == "";
    } else {
      ValueTrim(v);
    }
  }

  /** A generated key line reads back as its key and value. */
  lemma KeyValueLine(k: string, v: string)
    requires GeneratedKey(k) && IsTrimmed(v)
    ensures Classify("    " + k + " = " + v) == Assignment(k, v)
  {
    var t := GeneratedText(k, v);
    GeneratedLineTrim(k, v);
    GeneratedTextParts(k, v);
    assert t[0] == k[0];
    assert t[|k| + 1] == '=';
  }

  /** A bracketed name is a header for that section, whatever the name holds. */
  lemma HeaderLine(name: string)
    ensures Classify("[" + name + "]") == Section(name)
  {
    var t := "[" + name + "]";
    TrimIdempotent(t);
    assert t[..1] == "[" && t[|t| - 1..] == "]";
    assert t[1..|t| - 1] == name;
  }

  lemma BlankLine()
    ensures Classify("") == Skipped
  {
    assert TrimStart("") == "";
  }

  /** The scanner skips a line exactly when, trimmed, it is blank or starts with '#' or ';'. */
  lemma SkippedLine(l: string)
    ensures Classify(l) == Skipped <==>
              Trim(l) == "" || StartsWith(Trim(l), "#") || StartsWith(Trim(l), ";")
  {
    var t := Trim(l);
    if t != "" {
      assert StartsWith(t, "#") <==> t[0] == '#';
      assert StartsWith(t, ";") <==> t[0] == ';';
    }
  }

  // ------------------------------------------------------------ examples

  /** `browseable = no` hides a share. */
  lemma BrowseableNo(s: Share)
    ensures ParseShareProperty(s, "browseable = no") == s.(browseable := false)
  {
    assert GeneratedKey("browseable");
    GeneratedTextParts("browseable", "no");
    assert GeneratedText("browseable", "no") == "browseable = no";
    assert Lower("no") == "no";
    DirectiveRules(s, "browseable", "no");
  }

  /** `guest ok = YES` allows guests: the value is compared case-insensitively. */
  lemma GuestYesUpperCase(s: Share)
    ensures ParseShareProperty(s, "guest ok = YES") == s.(guest := true)
  {
    assert GeneratedKey("guest ok");
    GeneratedTextParts("guest ok", "YES");
    assert GeneratedText("guest ok", "YES") == "guest ok = YES";
    assert Lower("YES") == "yes";
    DirectiveRules(s, "guest ok", "YES");
  }

  /** `read only = 1` leaves a share writable: only yes/true count as true. */
  lemma ReadOnlyOneIsFalse(s: Share)
    ensures ParseShareProperty(s, "read only = 1") == s.(readonly := false)
  {
    assert GeneratedKey("read only");
    GeneratedTextParts("read only", "1");
    assert GeneratedText("read only", "1") == "read only = 1";
    assert !IsYes("1");
    DirectiveRules(s, "read only", "1");
  }

  /** Trimming drops the space after the key. */
  lemma KelvinTrim()
    ensures Trim("guest o\U{212A} ") == "guest o\U{212A}"
  {
    var key := "guest o\U{212A}";
    assert IsTrimmed(key);
    TrimPadded("", key, " ");
    assert "" + key + " " == "guest o\U{212A} ";
  }

  /** The Kelvin sign lower-cases to 'k'. */
  lemma KelvinLower()
    ensures Lower("guest o\U{212A}") == "guest ok"
  {
    var key := "guest o\U{212A}";
    LowerSpec(key);
    forall i | 0 <= i < |key| ensures Lower(key)[i] == "guest ok"[i] {
      assert Lower(key)[i] == LowerChar(key[i]);
    }
  }

  /** A key spelled with the Kelvin sign, `guest o\U{212A}`, is the `guest ok` key, so
      BooleanRules reads its line as the guest flag. */
  lemma KelvinKey()
    ensures Lower(Trim("guest o\U{212A} ")) == "guest ok"
    ensures Lower(Trim("guest o\U{212A} ")) in GuestKeys
  {
    KelvinTrim();
    KelvinLower();
  }

  // ------------------------------------------------------------ scanning

  lemma {:induction false} ClassifiedAppend(a: seq<string>, b: seq<string>)
    ensures Classified(a + b) == Classified(a) + Classified(b)
    decreases |a|
  {
    if |a| > 0 {
      assert (a + b)[0] == a[0];
      assert (a + b)[1..] == a[1..] + b;
      ClassifiedAppend(a[1..], b);
    } else {
      assert a + b == b;
    }
  }

  lemma {:induction false} ClassifiedIndex(lines: seq<string>, i: nat)
    requires i < |lines|
    ensures Classified(lines)[i] == Classify(lines[i])
    decreases i
  {
    if i > 0 {
      ClassifiedIndex(lines[1..], i - 1);
    }
  }

  lemma {:induction false} FoldAppend(a: seq<LineKind>, b: seq<LineKind>, st: ScanState)
    ensures Fold(a + b, st) == Fold(b, Fold(a, st))
    decreases |a|
  {
    if |a| > 0 {
      assert (a + b)[0] == a[0];
      assert (a + b)[1..] == a[1..] + b;
      FoldAppend(a[1..], b, Step(st, a[0]));
    } else {
      assert a + b == b;
    }
  }

  /** A skipped line (blank or comment), or one with neither a header nor an '=', can be
      taken out of a file without changing its share list. */
  lemma SkippedLineIgnored(a: seq<string>, l: string, b: seq<string>)
    requires Classify(l).Skipped? || Classify(l).Plain?
    ensures ParseLines(a + ([l] + b)) == ParseLines(a + b)
  {
    var ka := Classified(a);
    var kb := Classified(b);
    var k := Classify(l);
    ClassifiedAppend(a, [l] + b);
    ClassifiedAppend([l], b);
    ClassifiedOne(l);
    ClassifiedAppend(a, b);
    FoldAppend(ka, [k] + kb, Start);
    FoldAppend(ka, kb, Start);
    assert ([k] + kb)[0] == k && ([k] + kb)[1..] == kb;
    assert Fold([k] + kb, Fold(ka, Start)) == Fold(kb, Fold(ka, Start));
  }

  lemma StepShares(cur: Option<Share>, acc: seq<Share>, k: LineKind)
    ensures Step(ScanState(cur, acc), k).current == Step(ScanState(cur, []), k).current
    ensures Step(ScanState(cur, acc), k).shares == acc + Step(ScanState(cur, []), k).shares
  {
  }

  /** Records already finished stay a prefix: the scan only ever appends. */
  lemma {:induction false} FoldShares(ks: seq<LineKind>, cur: Option<Share>, acc: seq<Share>)
    ensures Fold(ks, ScanState(cur, acc)).current == Fold(ks, ScanState(cur, [])).current
    ensures Fold(ks, ScanState(cur, acc)).shares == acc + Fold(ks, ScanState(cur, [])).shares
    decreases |ks|
  {
    if |ks| > 0 {
      StepShares(cur, acc, ks[0]);
      var s2 := Step(ScanState(cur, []), ks[0]);
      FoldShares(ks[1..], s2.current, acc + s2.shares);
      FoldShares(ks[1..], s2.current, s2.shares);
    }
  }

  lemma CloseShares(ks: seq<LineKind>, cur: Option<Share>, acc: seq<Share>)
    ensures Close(Fold(ks, ScanState(cur, acc))) == acc + Close(Fold(ks, ScanState(cur, [])))
  {
    FoldShares(ks, cur, acc);
  }

  /** A header finishes whatever was open, so what follows it does not depend on what came before. */
  lemma HeaderResets(ks: seq<LineKind>, st: ScanState)
    requires |ks| > 0 && ks[0].Section?
    ensures Fold(ks, st) == Fold(ks, ScanState(None, Close(st)))
  {
    assert Step(st, ks[0]) == Step(ScanState(None, Close(st)), ks[0]);
  }

  lemma FoldKindsAppend(a: seq<LineKind>, b: seq<LineKind>)
    requires |b| > 0 && b[0].Section?
    ensures Close(Fold(a + b, Start)) == Close(Fold(a, Start)) + Close(Fold(b, Start))
  {
    FoldAppend(a, b, Start);
    HeaderResets(b, Fold(a, Start));
    CloseShares(b, None, Close(Fold(a, Start)));
    HeaderResets(b, Start);
    assert Close(Start) == [];
  }

  /** Whether a block of lines opens with a section header. */
  predicate StartsSection(lines: seq<string>) {
    |lines| > 0 && Classify(lines[0]).Section?
  }

  /** Lines split at a section header parse to the two halves' lists, concatenated. */
  lemma ParseLinesAppend(a: seq<string>, b: seq<string>)
    requires StartsSection(b)
    ensures ParseLines(a + b) == ParseLines(a) + ParseLines(b)
  {
    ClassifiedAppend(a, b);
    ClassifiedIndex(b, 0);
    FoldKindsAppend(Classified(a), Classified(b));
  }

  /** The text-level form: appending a newline and a text that opens with a header appends its shares. */
  lemma ParseAllAppend(x: string, y: string)
    requires StartsSection(Lines(y))
    ensures ParseAll(x + "\n" + y) == ParseAll(x) + ParseAll(y)
  {
    SplitAppend(x, y, '\n');
    ParseLinesAppend(Lines(x), Lines(y));
  }

  /** Lines outside any share (before the first header, or under `[global]`) affect no record. */
  lemma {:induction false} OrphanLinesIgnored(ks: seq<LineKind>, acc: seq<Share>)
    requires forall i :: 0 <= i < |ks| ==> !ks[i].Section?
    ensures Fold(ks, ScanState(None, acc)) == ScanState(None, acc)
    decreases |ks|
  {
    if |ks| > 0 {
      assert !ks[0].Section?;
      OrphanLinesIgnored(ks[1..], acc);
    }
  }

  lemma GlobalSectionEmpty(body: seq<string>)
    requires forall l :: l in body ==> !Classify(l).Section?
    ensures ParseLines(["[global]"] + body) == []
  {
    HeaderLine("global");
    assert "[" + "global" + "]" == "[global]";
    ClassifiedAppend(["[global]"], body);
    assert Classified(["[global]"]) == [Section("global")];
    var kb := Classified(body);
    forall i | 0 <= i < |kb| ensures !kb[i].Section? {
      ClassifiedIndex(body, i);
      assert body[i] in body;
    }
    OrphanLinesIgnored(kb, []);
    FoldAppend([Section("global")], kb, Start);
  }

  lemma GlobalStarts(body: seq<string>)
    ensures StartsSection(["[global]"] + body)
  {
    HeaderLine("global");
    assert "[" + "global" + "]" == "[global]" == (["[global]"] + body)[0];
  }

  lemma GlobalDropped(before: seq<string>, body: seq<string>)
    requires forall l :: l in body ==> !Classify(l).Section?
    ensures ParseLines(before + (["[global]"] + body)) == ParseLines(before)
  {
    GlobalSectionEmpty(body);
    GlobalStarts(body);
    ParseLinesAppend(before, ["[global]"] + body);
  }

  /** A `[global]` section and its keys add nothing to the list, wherever it sits. */
  lemma GlobalSectionIgnored(before: seq<string>, body: seq<string>, after: seq<string>)
    requires forall l :: l in body ==> !Classify(l).Section?
    requires |after| == 0 || StartsSection(after)
    ensures ParseLines(before + (["[global]"] + body) + after) == ParseLines(before) + ParseLines(after)
  {
    var front := before + (["[global]"] + body);
    GlobalDropped(before, body);
    if |after| > 0 {
      ParseLinesAppend(front, after);
    } else {
      assert front + after == front;
      assert Classified(after) == [];
    }
  }

  // ------------------------------------------------------------ list order

  lemma {:induction false} NamesAppend(a: seq<Share>, b: seq<Share>)
    ensures Names(a + b) == Names(a) + Names(b)
    decreases |a|
  {
    if |a| > 0 {
      assert (a + b)[1..] == a[1..] + b;
      NamesAppend(a[1..], b);
    } else {
      assert a + b == b;
    }
  }

  /** One step adds to the names exactly the non-global header it reads. */
  lemma NamesStep(st: ScanState, k: LineKind)
    ensures Names(Close(Step(st, k))) == Names(Close(st)) + HeaderNames([k])
  {
    assert HeaderNames([k]) == (if k.Section? && k.name != "global" then [k.name] else []) + HeaderNames([]);
    match k
    case Section(name) =>
      NamesAppend(Close(st), Close(ScanState(Open(name), [])));
      assert Close(Step(st, k)) == Close(st) + Close(ScanState(Open(name), []));
    case Assignment(key, value) =>
      if Emits(st.current) {
        NamesAppend(st.shares, [Finalize(st.current.value)]);
        NamesAppend(st.shares, [Finalize(Step(st, k).current.value)]);
      }
    case _ =>
  }

  lemma {:induction false} NamesFold(ks: seq<LineKind>, st: ScanState)
    ensures Names(Close(Fold(ks, st))) == Names(Close(st)) + HeaderNames(ks)
    decreases |ks|
  {
    if |ks| > 0 {
      NamesStep(st, ks[0]);
      NamesFold(ks[1..], Step(st, ks[0]));
      assert HeaderNames(ks) == HeaderNames([ks[0]]) + HeaderNames(ks[1..]);
    }
  }

  /** The list holds one share per non-global header, in file order; duplicates are not merged. */
  lemma NamesFollowHeaders(text: string)
    ensures Names(ParseAll(text)) == HeaderNames(Classified(Lines(text)))
  {
    NamesFold(Classified(Lines(text)), Start);
  }

  // ------------------------------------------------------------ the two modes

  lemma {:induction false} ScanListMode(ks: seq<LineKind>, st: ScanState)
    requires GoodState(st)
    ensures Scan(ks, st, "") == Shares(Close(Fold(ks, st)))
    decreases |ks|
  {
    if |ks| > 0 {
      ScanListMode(ks[1..], Step(st, ks[0]));
    }
  }

  /** Without a target the result is the share list, and no share is called `global`. */
  lemma ListMode(text: string)
    ensures ParseShareConfig(text, "") == Shares(ParseAll(text))
    ensures forall s :: s in ParseAll(text) ==> s.name != "global" && s.access == AccessOf(s.readonly)
  {
    ScanListMode(Classified(Lines(text)), Start);
  }

  lemma {:induction false} FirstNamedIndexSkip(acc: seq<Share>, rest: seq<Share>, name: string)
    requires forall s :: s in acc ==> s.name != name
    ensures var j := FirstNamedIndex(rest, name);
      FirstNamedIndex(acc + rest, name) == if j < 0 then -1 else j + |acc|
    decreases |acc|
  {
    if |acc| > 0 {
      assert acc[0] in acc;
      assert (acc + rest)[0] == acc[0];
      assert (acc + rest)[1..] == acc[1..] + rest;
      FirstNamedIndexSkip(acc[1..], rest, name);
    } else {
      assert acc + rest == rest;
    }
  }

  lemma LookupSkip(acc: seq<Share>, rest: seq<Share>, name: string)
    requires forall s :: s in acc ==> s.name != name
    ensures Lookup(acc + rest, name) == Lookup(rest, name)
  {
    FirstNamedIndexSkip(acc, rest, name);
    var j := FirstNamedIndex(rest, name);
    if j >= 0 {
      assert (acc + rest)[j + |acc|] == rest[j];
    }
  }

  /** The early return: a header closing the wanted share ends the search with that share. */
  lemma ClosingTarget(ks: seq<LineKind>, st: ScanState, target: string)
    requires GoodState(st) && |ks| > 0 && ClosesTarget(st, ks[0], target)
    requires forall s :: s in st.shares ==> s.name != target
    ensures Scan(ks, st, target) == Lookup(Close(Fold(ks, st)), target)
  {
    var f := Finalize(st.current.value);
    var st' := Step(st, ks[0]);
    assert st'.shares == st.shares + [f];
    CloseShares(ks[1..], st'.current, st'.shares);
    var tail := Close(Fold(ks[1..], ScanState(st'.current, [])));
    assert Close(Fold(ks, st)) == st.shares + ([f] + tail);
    LookupSkip(st.shares, [f] + tail, target);
  }

  lemma {:induction false} ScanLookupMode(ks: seq<LineKind>, st: ScanState, target: string)
    requires GoodState(st) && target != ""
    requires forall s :: s in st.shares ==> s.name != target
    ensures Scan(ks, st, target) == Lookup(Close(Fold(ks, st)), target)
    decreases |ks|
  {
    if |ks| == 0 {
      if Emits(st.current) {
        LookupSkip(st.shares, [Finalize(st.current.value)], target);
      } else {
        LookupSkip(st.shares, [], target);
        assert st.shares + [] == st.shares;
      }
    } else if ClosesTarget(st, ks[0], target) {
      ClosingTarget(ks, st, target);
    } else {
      ScanLookupMode(ks[1..], Step(st, ks[0]), target);
    }
  }

  /** With a target, the result is the first share of that name in file order, or not-found. */
  lemma LookupMode(text: string, target: string)
    requires target != ""
    ensures ParseShareConfig(text, target) == Lookup(ParseAll(text), target)
  {
    ScanLookupMode(Classified(Lines(text)), Start, target);
  }

  // ------------------------------------------------------------ round trip

  lemma {:induction false} SplitTerminated(lines: seq<string>)
    requires forall l :: l in lines ==> '\n' !in l
    ensures Lines(Terminated(lines)) == lines + [""]
    decreases |lines|
  {
    if |lines| == 0 {
      SplitNoSep("", '\n');
    } else {
      var head, rest := lines[0], Terminated(lines[1..]);
      assert Terminated(lines) == head + ['\n'] + rest;
      assert head in lines;
      assert forall l :: l in lines[1..] ==> l in lines;
      SplitTerminated(lines[1..]);
      SplitAfter(head, '\n', rest);
      assert lines == [head] + lines[1..];
    }
  }

  lemma ClassifiedOne(l: string)
    ensures Classified([l]) == [Classify(l)]
  {
    assert [l][1..] == [];
  }

  /** A header with no key lines under it gives a share with every default: no path, no
      comment, writable, no guests, browseable, no user list, and access `readwrite`. */
  lemma BareHeader(name: string)
    requires name != "global" && '\n' !in name
    ensures ParseAll("[" + name + "]") == [Share(name, "", "", false, false, true, "", "readwrite")]
  {
    var t := "[" + name + "]";
    assert '\n' !in t;
    SplitNoSep(t, '\n');
    HeaderLine(name);
    ClassifiedOne(t);
    assert Fold([Section(name)], Start) == Step(Start, Section(name));
  }

  /** What a generated optional line reads as. */
  function OptionalKind(key: string, value: string): seq<LineKind> {
    if value != "" then [Assignment(key, value)] else []
  }

  function FlagKinds(d: ShareData): seq<LineKind> {
    [Assignment("read only", YesNo(d.readonly)),
     Assignment("guest ok", YesNo(d.guest)),
     Assignment("browseable", YesNo(d.browseable))]
  }

  /** How each line of a generated fragment (plus the empty piece after its final newline) is read. */
  function FragmentKinds(d: ShareData): seq<LineKind> {
    [Skipped, Section(d.name), Assignment("path", d.path)]
    + OptionalKind("comment", d.comment) + FlagKinds(d) + OptionalKind("valid users", d.users)
    + [Skipped]
  }

  lemma ClassifiedHead(d: ShareData)
    requires IsTrimmed(d.path)
    ensures Classified(HeadLines(d)) == [Skipped, Section(d.name), Assignment("path", d.path)]
  {
    assert GeneratedKey("path");
    BlankLine();
    HeaderLine(d.name);
    KeyValueLine("path", d.path);
    assert HeadLines(d) == [""] + ["[" + d.name + "]"] + [KeyLine("path", d.path)];
    ClassifiedAppend([""] + ["[" + d.name + "]"], [KeyLine("path", d.path)]);
    ClassifiedAppend([""], ["[" + d.name + "]"]);
    ClassifiedOne("");
    ClassifiedOne("[" + d.name + "]");
    ClassifiedOne(KeyLine("path", d.path));
  }

  lemma ClassifiedOptional(key: string, value: string)
    requires GeneratedKey(key) && IsTrimmed(value)
    ensures Classified(OptionalLine(key, value)) == OptionalKind(key, value)
  {
    if value != "" {
      KeyValueLine(key, value);
      ClassifiedOne(KeyLine(key, value));
    }
  }

  lemma FlagLine(k: string, b: bool)
    requires GeneratedKey(k)
    ensures Classified([KeyLine(k, YesNo(b))]) == [Assignment(k, YesNo(b))]
  {
    assert IsTrimmed(YesNo(b));
    KeyValueLine(k, YesNo(b));
    ClassifiedOne(KeyLine(k, YesNo(b)));
  }

  lemma FlagKeysGenerated()
    ensures GeneratedKey("read only") && GeneratedKey("guest ok") && GeneratedKey("browseable")
  {
  }

  lemma ClassifiedFlags(d: ShareData)
    ensures Classified(FlagLines(d)) == FlagKinds(d)
  {
    var a, b, c := KeyLine("read only", YesNo(d.readonly)), KeyLine("guest ok", YesNo(d.guest)),
      KeyLine("browseable", YesNo(d.browseable));
    FlagKeysGenerated();
    FlagLine("read only", d.readonly);
    FlagLine("guest ok", d.guest);
    FlagLine("browseable", d.browseable);
    assert FlagLines(d) == [a] + [b] + [c];
    ClassifiedAppend([a] + [b], [c]);
    ClassifiedAppend([a], [b]);
  }

  lemma ClassifiedFragment(d: ShareData)
    requires Serialisable(d)
    ensures Classified(FragmentLines(d) + [""]) == FragmentKinds(d)
  {
    assert GeneratedKey("comment") && GeneratedKey("valid users");
    var h, c, f, u := HeadLines(d), OptionalLine("comment", d.comment), FlagLines(d), OptionalLine("valid users", d.users);
    ClassifiedHead(d);
    ClassifiedOptional("comment", d.comment);
    ClassifiedFlags(d);
    ClassifiedOptional("valid users", d.users);
    BlankLine();
    ClassifiedOne("");
    ClassifiedAppend(h + c + f + u, [""]);
    ClassifiedAppend(h + c + f, u);
    ClassifiedAppend(h + c, f);
    ClassifiedAppend(h, c);
  }

  lemma FoldHead(d: ShareData)
    requires d.name != "global"
    ensures Fold([Skipped, Section(d.name), Assignment("path", d.path)], Start)
         == ScanState(Some(CreateDefaultShare(d.name).(path := d.path)), [])
  {
    var ks := [Skipped, Section(d.name), Assignment("path", d.path)];
    var st1 := Step(Start, ks[0]);
    var st2 := Step(st1, ks[1]);
    assert Fold(ks, Start) == Fold(ks[1..], st1);
    assert Fold(ks[1..], st1) == Fold(ks[2..], st2);
    assert Fold(ks[2..], st2) == Fold([], Step(st2, ks[2]));
  }

  lemma FoldOptional(s: Share, key: string, value: string)
    ensures Fold(OptionalKind(key, value), ScanState(Some(s), []))
         == ScanState(Some(if value != "" then ApplyProperty(s, key, value) else s), [])
  {
    if value != "" {
      assert [Assignment(key, value)][1..] == [];
    }
  }

  lemma YesNoLower(b: bool)
    ensures Lower(YesNo(b)) == YesNo(b)
  {
    if b {
      assert Lower("yes") == "yes";
    } else {
      assert Lower("no") == "no";
    }
  }

  /** The three generated flag lines set their flags to the form's values. */
  lemma ApplyFlags(s: Share, d: ShareData)
    ensures ApplyProperty(s, "read only", YesNo(d.readonly)) == s.(readonly := d.readonly)
    ensures ApplyProperty(s, "guest ok", YesNo(d.guest)) == s.(guest := d.guest)
    ensures ApplyProperty(s, "browseable", YesNo(d.browseable)) == s.(browseable := d.browseable)
  {
    YesNoLower(d.readonly);
    YesNoLower(d.guest);
    YesNoLower(d.browseable);
  }

  lemma FoldFlags(s: Share, d: ShareData)
    ensures Fold(FlagKinds(d), ScanState(Some(s), []))
         == ScanState(Some(s.(readonly := d.readonly, guest := d.guest, browseable := d.browseable)), [])
  {
    var ks := FlagKinds(d);
    ApplyFlags(s, d);
    var s3 := s.(readonly := d.readonly);
    ApplyFlags(s3, d);
    var s4 := s3.(guest := d.guest);
    ApplyFlags(s4, d);
    var st1 := ScanState(Some(s3), []);
    var st2 := ScanState(Some(s4), []);
    assert Fold(ks, ScanState(Some(s), [])) == Fold(ks[1..], st1);
    assert Fold(ks[1..], st1) == Fold(ks[2..], st2);
    assert Fold(ks[2..], st2) == Fold([], Step(st2, ks[2]));
  }

  /** Folding the fragment's kinds yields exactly one finished share. */
  lemma FoldFragment(d: ShareData)
    requires d.name != "global"
    ensures Close(Fold(FragmentKinds(d), Start)) == [Expected(d)]
  {
    var h := [Skipped, Section(d.name), Assignment("path", d.path)];
    var c, f, u := OptionalKind("comment", d.comment), FlagKinds(d), OptionalKind("valid users", d.users);
    var s1 := CreateDefaultShare(d.name).(path := d.path);
    var s2 := if d.comment != "" then ApplyProperty(s1, "comment", d.comment) else s1;
    var s5 := s2.(readonly := d.readonly, guest := d.guest, browseable := d.browseable);
    var s6 := if d.users != "" then ApplyProperty(s5, "valid users", d.users) else s5;
    FoldHead(d);
    FoldOptional(s1, "comment", d.comment);
    FoldFlags(s2, d);
    FoldOptional(s5, "valid users", d.users);
    DirectiveRules(s1, "comment", d.comment);
    DirectiveRules(s5, "valid users", d.users);
    assert Fold([Skipped], ScanState(Some(s6), [])) == ScanState(Some(s6), []);
    FoldAppend(h + c + f + u, [Skipped], Start);
    FoldAppend(h + c + f, u, Start);
    FoldAppend(h + c, f, Start);
    FoldAppend(h, c, Start);
    assert Finalize(s6) == Expected(d);
  }

  lemma KeyLineNoNewline(k: string, v: string)
    requires '\n' !in k && '\n' !in v
    ensures '\n' !in KeyLine(k, v)
  {
  }

  lemma FragmentNoNewline(d: ShareData)
    requires Serialisable(d)
    ensures forall l :: l in FragmentLines(d) ==> '\n' !in l
  {
    assert '\n' !in "path" && '\n' !in "comment" && '\n' !in "valid users";
    assert '\n' !in "read only" && '\n' !in "guest ok" && '\n' !in "browseable";
    assert '\n' !in YesNo(d.readonly) && '\n' !in YesNo(d.guest) && '\n' !in YesNo(d.browseable);
    KeyLineNoNewline("path", d.path);
    KeyLineNoNewline("comment", d.comment);
    KeyLineNoNewline("valid users", d.users);
    KeyLineNoNewline("read only", YesNo(d.readonly));
    KeyLineNoNewline("guest ok", YesNo(d.guest));
    KeyLineNoNewline("browseable", YesNo(d.browseable));
    assert '\n' !in "[" + d.name + "]";
  }

  /** Round trip: re-parsing a generated fragment gives back exactly the record it was
      generated from, with `validUsers` taken from the form's `users`. */
  lemma RoundTrip(d: ShareData)
    requires Serialisable(d)
    ensures ParseAll(GenerateShareConfig(d)) == [Expected(d)]
  {
    FragmentNoNewline(d);
    SplitTerminated(FragmentLines(d));
    ClassifiedFragment(d);
    FoldFragment(d);
  }
}
