/** The error-message classifier of `modules/utils.js`: `parseSambaError` tries a fixed
    table of patterns in order, the first that matches decides the message (with a part of
    the error captured for some), and otherwise the most relevant line of the error is
    picked. `errorHandler.parse` chooses between it and the generic rendering. */
module SambaErrors {
  import opened Strings
  import opened Wrappers

  // ------------------------------------------------------------ the pattern language

  /** The characters `.` does not match in a JavaScript regular expression. */
  predicate IsLineTerminator(c: char) {
    c == '\n' || c == '\r' || c == '\U{2028}' || c == '\U{2029}'
  }

  predicate NoTerminator(s: string) {
    forall k :: 0 <= k < |s| ==> !IsLineTerminator(s[k])
  }

  /** What a table row tests for: a fixed text, or `head.*tail` (the two on one line). */
  datatype Test = Literal(text: string) | Spread(head: string, tail: string)

  /** An extraction `prefix(.+)suffix`: the captured group is what lies between. */
  datatype Capture = Capture(prefix: string, suffix: string)

  /** A row of the table. A case-insensitive row (`/i`) is written in lower case and is
      matched, with its capture, against the lower-cased error. */
  datatype Pattern = Pattern(test: Test, ci: bool, extract: Option<Capture>, message: string)

  /** The error as a row sees it. Lower-casing ASCII letters is exactly the `/i` flag here:
      without the `u` flag, no non-ASCII character folds to an ASCII one, not even the
      Kelvin sign that `toLowerCase` turns into 'k'. */
  function View(s: string, ci: bool): (v: string)
    ensures |v| == |s|
  {
    if ci then AsciiLower(s) else s
  }

  /** `head.*tail` occurs with `head` at `i` and `tail` at `j`. */
  predicate SpreadOccurs(v: string, head: string, tail: string, i: nat, j: nat) {
    && i + |head| <= j <= |v|
    && v[i..i + |head|] == head
    && NoTerminator(v[i + |head|..j])
    && StartsWith(v[j..], tail)
  }

  predicate Matches(p: Pattern, s: string) {
    var v := View(s, p.ci);
    match p.test
    case Literal(t) => Contains(v, t)
    case Spread(h, t) => exists i: nat, j: nat | i <= j <= |v| :: SpreadOccurs(v, h, t, i, j)
  }

  // ------------------------------------------------------------ leftmost, greedy capture

  /** How many characters from `j` on `.` can consume: up to the first line terminator. */
  function Run(v: string, j: nat): (n: nat)
    requires j <= |v|
    ensures j + n <= |v|
    decreases |v| - j
  {
    if j == |v| || IsLineTerminator(v[j]) then 0 else 1 + Run(v, j + 1)
  }

  /** The suffix follows a group of length `m` that starts at `j`. */
  predicate FitsAt(v: string, j: nat, m: nat, suffix: string) {
    j + m <= |v| && StartsWith(v[j + m..], suffix)
  }

  /** `(.+)suffix` after `j` with at most `n` characters captured, tried longest first:
      the capture length, or 0 when none fits. */
  function Greedy(v: string, j: nat, n: nat, suffix: string): (k: nat)
    requires j + n <= |v|
    ensures k <= n
    decreases n
  {
    if n == 0 then 0
    else if FitsAt(v, j, n, suffix) then n
    else Greedy(v, j, n - 1, suffix)
  }

  /** The capture `prefix(.+)suffix` has `prefix` at `i` and a group of length `k`. */
  predicate Occurs(v: string, c: Capture, i: nat, k: nat) {
    && i + |c.prefix| + k <= |v|
    && v[i..i + |c.prefix|] == c.prefix
    && k >= 1
    && NoTerminator(v[i + |c.prefix|..i + |c.prefix| + k])
    && FitsAt(v, i + |c.prefix|, k, c.suffix)
  }

  /** The prefix sits at `i`. */
  predicate PrefixAt(v: string, c: Capture, i: nat) {
    i + |c.prefix| <= |v| && v[i..i + |c.prefix|] == c.prefix
  }

  /** The longest group that fits behind the prefix at `i`, or 0. */
  function Longest(v: string, c: Capture, i: nat): nat
    requires PrefixAt(v, c, i)
  {
    Greedy(v, i + |c.prefix|, Run(v, i + |c.prefix|), c.suffix)
  }

  /** Where the search stops: the prefix is here and some group fits behind it. */
  predicate StartsMatch(v: string, c: Capture, i: nat) {
    PrefixAt(v, c, i) && Longest(v, c, i) > 0
  }

  /** A match found from position `i` on: where it starts and how long its group is. */
  datatype Found = Found(start: nat, length: nat)

  /** The backtracking search of `match`: the leftmost start, and there the longest group. */
  function Find(v: string, c: Capture, i: nat): (r: Option<Found>)
    requires i <= |v|
    decreases |v| - i
  {
    if StartsMatch(v, c, i) then Some(Found(i, Longest(v, c, i)))
    else if i == |v| then None
    else Find(v, c, i + 1)
  }

  /** A stretch from `j` is free of line terminators exactly when it is no longer than
      the run there. */
  lemma {:induction false} RunStretch(v: string, j: nat, k: nat)
    requires j + k <= |v|
    ensures NoTerminator(v[j..j + k]) <==> k <= Run(v, j)
    decreases k
  {
    if k > 0 {
      assert v[j..j + k][0] == v[j];
      if !IsLineTerminator(v[j]) {
        var rest := v[j + 1..j + k];
        assert v[j..j + k] == [v[j]] + rest;
        RunStretch(v, j + 1, k - 1);
        assert NoTerminator(rest) ==> NoTerminator([v[j]] + rest) by {
          if NoTerminator(rest) {
            forall t | 0 <= t < |rest| + 1 ensures !IsLineTerminator(([v[j]] + rest)[t]) {
              if t > 0 {
                assert ([v[j]] + rest)[t] == rest[t - 1];
              }
            }
          }
        }
        assert NoTerminator([v[j]] + rest) ==> NoTerminator(rest) by {
          if NoTerminator([v[j]] + rest) {
            forall t | 0 <= t < |rest| ensures !IsLineTerminator(rest[t]) {
              assert rest[t] == ([v[j]] + rest)[t + 1];
            }
          }
        }
      }
    }
  }

  lemma {:induction false} GreedySpec(v: string, j: nat, n: nat, suffix: string)
    requires j + n <= |v|
    ensures Greedy(v, j, n, suffix) > 0 ==> FitsAt(v, j, Greedy(v, j, n, suffix), suffix)
    ensures forall m: nat :: Greedy(v, j, n, suffix) < m <= n ==> !FitsAt(v, j, m, suffix)
    decreases n
  {
    if n > 0 && !FitsAt(v, j, n, suffix) {
      GreedySpec(v, j, n - 1, suffix);
    }
  }

  /** With the prefix in place, a group of length `k` fits exactly when `1 <= k <= Run`
      and the suffix follows. */
  lemma OccursAt(v: string, c: Capture, i: nat, k: nat)
    requires PrefixAt(v, c, i)
    ensures Occurs(v, c, i, k) <==>
      1 <= k <= Run(v, i + |c.prefix|) && FitsAt(v, i + |c.prefix|, k, c.suffix)
  {
    var j := i + |c.prefix|;
    if j + k <= |v| {
      RunStretch(v, j, k);
    }
  }

  /** Where the search stops it takes the longest group; where it moves on, no group fits. */
  lemma StartSpec(v: string, c: Capture, i: nat)
    ensures StartsMatch(v, c, i) ==>
      Occurs(v, c, i, Longest(v, c, i)) && forall k: nat :: Occurs(v, c, i, k) ==> k <= Longest(v, c, i)
    ensures !StartsMatch(v, c, i) ==> forall k: nat :: !Occurs(v, c, i, k)
  {
    if PrefixAt(v, c, i) {
      var j := i + |c.prefix|;
      GreedySpec(v, j, Run(v, j), c.suffix);
      if Longest(v, c, i) > 0 {
        OccursAt(v, c, i, Longest(v, c, i));
      }
      forall k: nat | Occurs(v, c, i, k) ensures k <= Longest(v, c, i) && StartsMatch(v, c, i) {
        OccursAt(v, c, i, k);
      }
    }
  }

  /** The search finds the leftmost-longest match: what it finds is a match whose group
      is the longest at its start, and it finds one no later than any match from `i` on. */
  lemma {:induction false} FindSpec(v: string, c: Capture, i: nat)
    requires i <= |v|
    ensures Find(v, c, i).Some? ==>
      && i <= Find(v, c, i).value.start
      && Occurs(v, c, Find(v, c, i).value.start, Find(v, c, i).value.length)
      && forall k: nat :: Occurs(v, c, Find(v, c, i).value.start, k) ==> k <= Find(v, c, i).value.length
    ensures forall q: nat, k: nat :: i <= q && Occurs(v, c, q, k) ==>
      Find(v, c, i).Some? && Find(v, c, i).value.start <= q
    decreases |v| - i
  {
    StartSpec(v, c, i);
    if !StartsMatch(v, c, i) && i < |v| {
      FindSpec(v, c, i + 1);
    }
  }

  // ------------------------------------------------------------ the table

  /** The patterns, in the order they are tried. */
  const Table: seq<Pattern> := [
    Pattern(Spread("Unit ", " not found"), false, None, "Samba service not installed"),
    Pattern(Spread("Failed to ", " Unit"), false, None, "Systemd service error"),
    Pattern(Literal("smbd: command not found"), false, None, "Samba is not installed"),
    Pattern(Literal("Unknown parameter encountered"), false, Some(Capture("\"", "\"")), "Unknown configuration parameter: "),
    Pattern(Literal("syntax error"), false, None, "Configuration syntax error"),
    Pattern(Literal("Failed to load configuration"), false, None, "Invalid configuration file"),
    Pattern(Literal("permission denied"), true, None, "Permission denied"),
    Pattern(Literal("operation not permitted"), true, None, "Operation not permitted"),
    Pattern(Literal("access denied"), true, None, "Access denied"),
    Pattern(Literal("Failed to add entry for user"), false, Some(Capture("user ", ".")), "Failed to add Samba user: "),
    Pattern(Literal("Failed to find entry for user"), false, Some(Capture("user ", ".")), "User not found: "),
    Pattern(Spread("User ", " does not exist"), false, Some(Capture("User ", " does")), "System user does not exist: "),
    Pattern(Spread("share ", " does not exist"), true, Some(Capture("share ", " does")), "Share not found: "),
    Pattern(Spread("path ", " does not exist"), true, Some(Capture("path ", " does")), "Path does not exist: ")
  ]

  /** `error.match(extract)[1]`, when the match exists (a group is never empty). */
  function Extracted(c: Capture, ci: bool, s: string): (r: Option<string>)
    ensures r.Some? ==> |r.value| >= 1
  {
    var v := View(s, ci);
    FindSpec(v, c, 0);
    match Find(v, c, 0)
    case Some(f) => Some(s[f.start + |c.prefix|..f.start + |c.prefix| + f.length])
    case None => None
  }

  /** What a matching row returns: its message, followed by the captured group, or by the
      whole error when the row has an extraction that does not match. */
  function Outcome(p: Pattern, s: string): string {
    match p.extract
    case None => p.message
    case Some(c) =>
      match Extracted(c, p.ci, s)
      case Some(x) => p.message + x
      case None => p.message + s
  }

  /** The first row of `table` that matches, or -1. */
  function FirstMatch(table: seq<Pattern>, s: string): (i: int)
    ensures -1 <= i < |table|
    ensures i >= 0 ==> Matches(table[i], s) && forall j :: 0 <= j < i ==> !Matches(table[j], s)
    ensures i == -1 <==> forall j :: 0 <= j < |table| ==> !Matches(table[j], s)
    decreases |table|
  {
    if |table| == 0 then -1
    else if Matches(table[0], s) then 0
    else
      var k := FirstMatch(table[1..], s);
      assert forall j :: 1 <= j < |table| ==> table[j] == table[1..][j - 1];
      if k < 0 then -1 else k + 1
  }

  /** Only one row can be the first match: it is the one `FirstMatch` finds. */
  lemma FirstMatchOnly(table: seq<Pattern>, s: string)
    ensures forall i :: 0 <= i < |table| && Matches(table[i], s) && (forall j :: 0 <= j < i ==> !Matches(table[j], s))
              ==> FirstMatch(table, s) == i
  {
  }

  // ------------------------------------------------------------ the fallback

  /** A line worth showing: not blank, and no trace of the spawning machinery. */
  predicate Relevant(line: string) {
    Trim(line) != "" && !Contains(line, "spawn") && !Contains(line, "cockpit")
  }

  /** A line that reads like the error itself. `Lower` is exact here: the one character it
      keeps although `toLowerCase` maps it into ASCII, U+0130, becomes 'i' followed by a
      combining dot, and none of the three words can be formed that way. */
  predicate Indicates(line: string) {
    var l := Lower(line);
    Contains(l, "error") || Contains(l, "failed") || Contains(l, "cannot")
  }

  /** `filter(line => line.trim() && !includes('spawn') && !includes('cockpit'))`. */
  function KeepRelevant(lines: seq<string>): (r: seq<string>)
    ensures |r| <= |lines|
    decreases |lines|
  {
    if |lines| == 0 then []
    else (if Relevant(lines[0]) then [lines[0]] else []) + KeepRelevant(lines[1..])
  }

  /** `find(line => indicates(line))`. */
  function FindIndicating(lines: seq<string>): Option<string>
    decreases |lines|
  {
    if |lines| == 0 then None
    else if Indicates(lines[0]) then Some(lines[0])
    else FindIndicating(lines[1..])
  }

  /** `errorLine || lines[0] || error.split('\n')[0]`. */
  function Fallback(s: string): string {
    var raw := Split(s, '\n');
    var kept := KeepRelevant(raw);
    match FindIndicating(kept)
    case Some(l) => l
    case None => if |kept| > 0 then kept[0] else raw[0]
  }

  /** `parseSambaError` over a pattern table: empty input is unknown, otherwise the first
      matching row decides, and the fallback only runs when no row matches. */
  function ParseWith(table: seq<Pattern>, s: string): (r: string)
    ensures s == "" ==> r == "Unknown error"
    ensures forall i :: 0 <= i < |table| && Matches(table[i], s) && (forall j :: 0 <= j < i ==> !Matches(table[j], s))
              ==> s == "" || r == Outcome(table[i], s)
    ensures s != "" && (forall j :: 0 <= j < |table| ==> !Matches(table[j], s)) ==> r == Fallback(s)
  {
    if s == "" then "Unknown error"
    else
      FirstMatchOnly(table, s);
      var i := FirstMatch(table, s);
      if i >= 0 then Outcome(table[i], s) else Fallback(s)
  }

  /** `parseSambaError` with the source's own table. */
  function ParseSambaError(s: string): string {
    ParseWith(Table, s)
  }

  // ------------------------------------------------------------ properties

  /** A row with an extraction whose capture occurs nowhere adds the whole error. */
  lemma ExtractionMissing(p: Pattern, s: string)
    requires p.extract.Some?
    requires forall q: nat, k: nat :: !Occurs(View(s, p.ci), p.extract.value, q, k)
    ensures Outcome(p, s) == p.message + s
  {
    FindSpec(View(s, p.ci), p.extract.value, 0);
  }

  /** A row with an extraction adds the group of the leftmost occurrence of its capture,
      taken as long as it can be. */
  lemma ExtractionLeftmostLongest(p: Pattern, s: string, q: nat, k: nat)
    requires p.extract.Some?
    requires Occurs(View(s, p.ci), p.extract.value, q, k)
    requires forall q2: nat, k2: nat :: q2 < q ==> !Occurs(View(s, p.ci), p.extract.value, q2, k2)
    requires forall k2: nat :: Occurs(View(s, p.ci), p.extract.value, q, k2) ==> k2 <= k
    ensures Outcome(p, s) == p.message + s[q + |p.extract.value.prefix|..q + |p.extract.value.prefix| + k]
  {
    var c, v := p.extract.value, View(s, p.ci);
    FindSpec(v, c, 0);
    var f := Find(v, c, 0).value;
    assert f.start == q;
  }

  /** The kept lines are the relevant lines, in order. */
  lemma {:induction false} KeepRelevantSpec(lines: seq<string>)
    ensures forall l :: l in KeepRelevant(lines) ==> l in lines && Relevant(l)
    ensures forall l :: l in lines && Relevant(l) ==> l in KeepRelevant(lines)
    decreases |lines|
  {
    if |lines| > 0 {
      KeepRelevantSpec(lines[1..]);
      assert lines == [lines[0]] + lines[1..];
    }
  }

  /** The index of the first line that is relevant and, when `strict`, also reads like an error. */
  function FirstWanted(lines: seq<string>, strict: bool): (i: int)
    ensures -1 <= i < |lines|
    ensures i >= 0 ==> Relevant(lines[i]) && (strict ==> Indicates(lines[i]))
    ensures i >= 0 ==> forall j :: 0 <= j < i ==> !(Relevant(lines[j]) && (strict ==> Indicates(lines[j])))
    ensures i == -1 <==> forall j :: 0 <= j < |lines| ==> !(Relevant(lines[j]) && (strict ==> Indicates(lines[j])))
    decreases |lines|
  {
    if |lines| == 0 then -1
    else if Relevant(lines[0]) && (strict ==> Indicates(lines[0])) then 0
    else
      var k := FirstWanted(lines[1..], strict);
      assert forall j :: 1 <= j < |lines| ==> lines[j] == lines[1..][j - 1];
      if k < 0 then -1 else k + 1
  }

  lemma {:induction false} FindIndicatingKept(lines: seq<string>)
    ensures var a := FirstWanted(lines, true);
      FindIndicating(KeepRelevant(lines)) == (if a >= 0 then Some(lines[a]) else None)
    decreases |lines|
  {
    if |lines| > 0 {
      FindIndicatingKept(lines[1..]);
      var rest := KeepRelevant(lines[1..]);
      if Relevant(lines[0]) {
        assert KeepRelevant(lines) == [lines[0]] + rest;
        assert ([lines[0]] + rest)[1..] == rest;
      } else {
        assert KeepRelevant(lines) == rest;
      }
    }
  }

  lemma {:induction false} FirstKept(lines: seq<string>)
    ensures var b := FirstWanted(lines, false);
      && (|KeepRelevant(lines)| > 0 <==> b >= 0)
      && (b >= 0 ==> KeepRelevant(lines)[0] == lines[b])
    decreases |lines|
  {
    if |lines| > 0 {
      FirstKept(lines[1..]);
    }
  }

  /** The fallback, read line by line: the first relevant line that reads like an error,
      else the first relevant line, else the first line as it stands. */
  lemma FallbackSpec(s: string)
    ensures var raw := Split(s, '\n');
            var a := FirstWanted(raw, true);
            var b := FirstWanted(raw, false);
      Fallback(s) == if a >= 0 then raw[a] else if b >= 0 then raw[b] else raw[0]
  {
    FindIndicatingKept(Split(s, '\n'));
    FirstKept(Split(s, '\n'));
  }

  // ------------------------------------------------------------ errorHandler.parse

  /** What reaches the handler: a message string (a failed command's `error`), or a thrown
      `Error` object. */
  datatype ErrorValue = Text(text: string) | ErrorObject(message: string)

  /** `String(error)`. */
  function Rendered(e: ErrorValue): string {
    match e
    case Text(t) => t
    case ErrorObject(m) => if m == "" then "Error" else "Error: " + m
  }

  /** `errorHandler.parse`. `None` stands for the TypeError the source throws when an
      `Error` object reaches the string methods of `parseSambaError` (`match`, `split`). */
  function HandlerParse(e: ErrorValue, context: string): (r: Option<string>)
    ensures r.None? ==> e.ErrorObject? && Contains(context, "samba")
    ensures !Contains(context, "samba") ==> r.Some? && r.value != ""
    ensures Contains(context, "samba") && e.Text? ==> r == Some(ParseSambaError(e.text))
    ensures Contains(context, "samba") && e.ErrorObject? ==>
              var i := FirstMatch(Table, Rendered(e));
              (r.None? <==> i < 0 || Table[i].extract.Some?)
              && (r.Some? ==> r == Some(ParseSambaError(Rendered(e))))
    ensures !Contains(context, "samba") && e.ErrorObject? && e.message != "" ==> r == Some(e.message)
    ensures !Contains(context, "samba") && e == ErrorObject("") ==> r == Some(Rendered(e))
    ensures !Contains(context, "samba") && e.Text? && e.text != "" ==> r == Some(e.text)
    ensures !Contains(context, "samba") && e == Text("") ==> r == Some("Unknown error")
  {
    if Contains(context, "samba") then
      match e
      case Text(t) => Some(ParseSambaError(t))
      case ErrorObject(_) =>
        var i := FirstMatch(Table, Rendered(e));
        assert Rendered(e) != "" by { assert Rendered(e)[0] == 'E'; }
        if i >= 0 && Table[i].extract.None? then Some(Table[i].message) else None
    else
      match e
      case ErrorObject(m) => Some(if m != "" then m else "Error")
      case Text(t) => Some(if t != "" then t else "Unknown error")
  }
}
