/**
 * The JavaScript string primitives the console plugin relies on, over `string`
 * (a sequence of Unicode scalar values): `trim`, `toLowerCase`, `startsWith`,
 * `endsWith`, `includes`, `indexOf` and `split` with a one-character separator.
 */
module Strings {

  /** The WhiteSpace and LineTerminator code points of ECMAScript: what `trim` removes. */
  predicate IsJsSpace(c: char) {
    || c == '\t' || c == '\n' || c == '\U{000B}' || c == '\U{000C}' || c == '\r'
    || c == ' ' || c == '\U{00A0}' || c == '\U{1680}' || ('\U{2000}' <= c <= '\U{200A}')
    || c == '\U{2028}' || c == '\U{2029}' || c == '\U{202F}' || c == '\U{205F}'
    || c == '\U{3000}' || c == '\U{FEFF}'
  }

  /** A string that `trim` leaves alone: it neither starts nor ends with white space. */
  predicate IsTrimmed(s: string) {
    |s| == 0 || (!IsJsSpace(s[0]) && !IsJsSpace(s[|s| - 1]))
  }

  predicate AllSpace(s: string) {
    forall k :: 0 <= k < |s| ==> IsJsSpace(s[k])
  }

  /** Drops the leading white space (`trimStart`). */
  function TrimStart(s: string): (r: string)
    ensures |r| <= |s|
    decreases |s|
  {
    if |s| > 0 && IsJsSpace(s[0]) then TrimStart(s[1..]) else s
  }

  /** Drops the trailing white space (`trimEnd`). */
  function TrimEnd(s: string): (r: string)
    ensures |r| <= |s|
    decreases |s|
  {
    if |s| > 0 && IsJsSpace(s[|s| - 1]) then TrimEnd(s[..|s| - 1]) else s
  }

  /** `String.prototype.trim`. */
  function Trim(s: string): (r: string)
    ensures |r| <= |s|
  {
    TrimEnd(TrimStart(s))
  }

  /** Lower-casing of the ASCII letters alone. */
  function AsciiLowerChar(c: char): char {
    if 'A' <= c <= 'Z' then (c as int + 32) as char else c
  }

  /** Every character lower-cased on its own, ASCII letters only. */
  function AsciiLower(s: string): (r: string)
    ensures |r| == |s|
    ensures forall i :: 0 <= i < |s| ==> r[i] == AsciiLowerChar(s[i])
    decreases |s|
  {
    if |s| == 0 then "" else [AsciiLowerChar(s[0])] + AsciiLower(s[1..])
  }

  /** `toLowerCase` on one character: the ASCII letters, and the Kelvin sign U+212A, which
      becomes 'k'. Other non-ASCII capitals are kept (see README for this gap). */
  function LowerChar(c: char): char {
    if c == '\U{212A}' then 'k' else AsciiLowerChar(c)
  }

  /** `toLowerCase`, character by character. */
  function Lower(s: string): (r: string)
    ensures |r| == |s|
    decreases |s|
  {
    if |s| == 0 then "" else [LowerChar(s[0])] + Lower(s[1..])
  }

  predicate StartsWith(s: string, prefix: string) {
    |prefix| <= |s| && s[..|prefix|] == prefix
  }

  predicate EndsWith(s: string, suffix: string) {
    |suffix| <= |s| && s[|s| - |suffix|..] == suffix
  }

  /** `includes`: `t` occurs somewhere in `s` (the empty string occurs everywhere). */
  predicate Contains(s: string, t: string)
    decreases |s|
  {
    StartsWith(s, t) || (|s| > 0 && Contains(s[1..], t))
  }

  /** `indexOf` for one character: the first position holding `c`, or -1. */
  function IndexOf(s: string, c: char): (r: int)
    ensures -1 <= r < |s|
    decreases |s|
  {
    if |s| == 0 then -1
    else if s[0] == c then 0
    else
      var k := IndexOf(s[1..], c);
      if k < 0 then -1 else k + 1
  }

  /** Glues `parts` back together with `sep` between neighbours: the inverse of `Split`. */
  function Join(parts: seq<string>, sep: char): string
    decreases |parts|
  {
    if |parts| == 0 then ""
    else if |parts| == 1 then parts[0]
    else parts[0] + [sep] + Join(parts[1..], sep)
  }

  /** `split` with a one-character separator: the pieces between separators, never none. */
  function Split(s: string, sep: char): (parts: seq<string>)
    ensures |parts| >= 1
    decreases |s|
  {
    var i := IndexOf(s, sep);
    if i < 0 then [s] else [s[..i]] + Split(s[i + 1..], sep)
  }

  /** The decimal digits of `n`, as `String(n)` writes them. */
  function NatToString(n: nat): (r: string)
    ensures |r| >= 1
    decreases n
  {
    var digit := ('0' as int + n % 10) as char;
    if n < 10 then [digit] else NatToString(n / 10) + [digit]
  }

  // ---------------------------------------------------------------- lemmas

  /** `indexOf` finds the first occurrence, and answers -1 exactly when there is none. */
  lemma {:induction false} IndexOfSpec(s: string, c: char)
    ensures IndexOf(s, c) == -1 <==> c !in s
    ensures IndexOf(s, c) >= 0 ==> s[IndexOf(s, c)] == c && forall j :: 0 <= j < IndexOf(s, c) ==> s[j] != c
    decreases |s|
  {
    if |s| > 0 && s[0] != c {
      IndexOfSpec(s[1..], c);
      assert s == [s[0]] + s[1..];
    }
  }

  /** Lower-casing maps every character on its own. */
  lemma {:induction false} LowerSpec(s: string)
    ensures forall i :: 0 <= i < |s| ==> Lower(s)[i] == LowerChar(s[i])
    decreases |s|
  {
    if |s| > 0 {
      LowerSpec(s[1..]);
      assert Lower(s) == [LowerChar(s[0])] + Lower(s[1..]);
    }
  }

  /** `trimStart` removes an all-space prefix and stops at the first other character. */
  lemma {:induction false} TrimStartSpec(s: string)
    ensures TrimStart(s) == s[|s| - |TrimStart(s)|..]
    ensures |TrimStart(s)| == 0 || !IsJsSpace(TrimStart(s)[0])
    ensures AllSpace(s[..|s| - |TrimStart(s)|])
    decreases |s|
  {
    if |s| > 0 && IsJsSpace(s[0]) {
      TrimStartSpec(s[1..]);
      var r := TrimStart(s[1..]);
      assert TrimStart(s) == r;
      assert s[|s| - |r|..] == s[1..][|s| - 1 - |r|..];
      forall k | 0 <= k < |s| - |r| ensures IsJsSpace(s[k]) {
        if k > 0 {
          assert s[k] == s[1..][..|s| - 1 - |r|][k - 1];
        }
      }
    }
  }

  /** `trimEnd` removes an all-space suffix and stops at the last other character. */
  lemma {:induction false} TrimEndSpec(s: string)
    ensures TrimEnd(s) == s[..|TrimEnd(s)|]
    ensures |TrimEnd(s)| == 0 || !IsJsSpace(TrimEnd(s)[|TrimEnd(s)| - 1])
    ensures AllSpace(s[|TrimEnd(s)|..])
    decreases |s|
  {
    if |s| > 0 && IsJsSpace(s[|s| - 1]) {
      TrimEndSpec(s[..|s| - 1]);
      var r := TrimEnd(s[..|s| - 1]);
      assert s[..|r|] == s[..|s| - 1][..|r|];
      assert forall k :: |r| <= k < |s| ==> k == |s| - 1 || s[k] == s[..|s| - 1][k];
    }
  }

  /** `trim` is `trimStart` then `trimEnd`: the text splits into white space, a trimmed
      core that is the result, and white space. */
  lemma TrimSpec(s: string) returns (pre: string, post: string)
    ensures s == pre + Trim(s) + post
    ensures AllSpace(pre) && AllSpace(post) && IsTrimmed(Trim(s))
  {
    pre, post := TrimParts(s);
    TrimmedCore(s);
  }

  lemma TrimParts(s: string) returns (pre: string, post: string)
    ensures s == pre + Trim(s) + post
    ensures AllSpace(pre) && AllSpace(post)
  {
    var a := TrimStart(s);
    var r := TrimEnd(a);
    TrimStartSpec(s);
    TrimEndSpec(a);
    pre := s[..|s| - |a|];
    post := a[|r|..];
    Regroup(s, pre, a, r, post);
  }

  lemma Regroup(s: string, pre: string, a: string, r: string, post: string)
    requires s == pre + a && a == r + post
    ensures s == pre + r + post
  {
  }

  lemma TrimmedCore(s: string)
    ensures IsTrimmed(Trim(s))
  {
    var a := TrimStart(s);
    var r := TrimEnd(a);
    TrimStartSpec(s);
    TrimEndSpec(a);
    if |r| > 0 {
      assert r[0] == a[0];
    }
  }

  /** The first occurrence is found: a character absent from `a` is found right after it. */
  lemma {:induction false} IndexOfAfter(a: string, c: char, b: string)
    requires c !in a
    ensures IndexOf(a + [c] + b, c) == |a|
    decreases |a|
  {
    var s := a + [c] + b;
    if |a| > 0 {
      assert s[0] == a[0];
      assert s[1..] == a[1..] + [c] + b;
      IndexOfAfter(a[1..], c, b);
    } else {
      assert s[0] == c;
    }
  }

  lemma Around(s: string, i: nat)
    requires i < |s|
    ensures s == s[..i] + [s[i]] + s[i + 1..]
  {
  }

  lemma SplitCons(s: string, sep: char)
    requires IndexOf(s, sep) >= 0
    ensures Split(s, sep) == [s[..IndexOf(s, sep)]] + Split(s[IndexOf(s, sep) + 1..], sep)
  {
  }

  lemma SplitNoSep(s: string, sep: char)
    requires sep !in s
    ensures Split(s, sep) == [s]
  {
    IndexOfSpec(s, sep);
  }

  lemma JoinCons(head: string, rest: seq<string>, sep: char)
    requires |rest| >= 1
    ensures Join([head] + rest, sep) == head + [sep] + Join(rest, sep)
  {
    assert ([head] + rest)[0] == head && ([head] + rest)[1..] == rest;
  }

  lemma PrefixNoSep(s: string, sep: char)
    requires IndexOf(s, sep) >= 0
    ensures sep !in s[..IndexOf(s, sep)]
  {
    IndexOfSpec(s, sep);
  }

  /** `Split` and `Join` are inverse: no piece holds the separator, and gluing the pieces restores the text. */
  lemma {:induction false} SplitInverse(s: string, sep: char)
    ensures forall p :: p in Split(s, sep) ==> sep !in p
    ensures Join(Split(s, sep), sep) == s
    decreases |s|
  {
    var i := IndexOf(s, sep);
    IndexOfSpec(s, sep);
    if i < 0 {
      SplitNoSep(s, sep);
    } else {
      SplitInverse(s[i + 1..], sep);
      SplitCons(s, sep);
      PrefixNoSep(s, sep);
      JoinCons(s[..i], Split(s[i + 1..], sep), sep);
      Around(s, i);
    }
  }

  lemma {:induction false} JoinAppend(xs: seq<string>, ys: seq<string>, sep: char)
    requires |xs| >= 1 && |ys| >= 1
    ensures Join(xs + ys, sep) == Join(xs, sep) + [sep] + Join(ys, sep)
    decreases |xs|
  {
    if |xs| == 1 {
      assert xs + ys == [xs[0]] + ys;
      JoinCons(xs[0], ys, sep);
    } else {
      assert xs + ys == [xs[0]] + (xs[1..] + ys);
      JoinAppend(xs[1..], ys, sep);
      JoinCons(xs[0], xs[1..] + ys, sep);
      JoinCons(xs[0], xs[1..], sep);
      assert xs == [xs[0]] + xs[1..];
    }
  }

  /** `Split` undoes `Join` whenever no part holds the separator. */
  lemma {:induction false} SplitJoin(parts: seq<string>, sep: char)
    requires |parts| >= 1
    requires forall p :: p in parts ==> sep !in p
    ensures Split(Join(parts, sep), sep) == parts
    decreases |parts|
  {
    if |parts| == 1 {
      SplitNoSep(parts[0], sep);
    } else {
      var tail := Join(parts[1..], sep);
      assert parts == [parts[0]] + parts[1..];
      JoinCons(parts[0], parts[1..], sep);
      assert parts[0] in parts;
      IndexOfAfter(parts[0], sep, tail);
      SplitAfter(parts[0], sep, tail);
      SplitJoin(parts[1..], sep);
    }
  }

  /** Splitting at a first separator. */
  lemma SplitAfter(a: string, sep: char, b: string)
    requires sep !in a
    ensures Split(a + [sep] + b, sep) == [a] + Split(b, sep)
  {
    IndexOfAfter(a, sep, b);
    var s := a + [sep] + b;
    SplitCons(s, sep);
    assert s[..|a|] == a;
    assert s[|a| + 1..] == b;
  }

  /** Splitting at a known separator splits the two sides independently. */
  lemma SplitAppend(a: string, b: string, sep: char)
    ensures Split(a + [sep] + b, sep) == Split(a, sep) + Split(b, sep)
  {
    var xs := Split(a, sep);
    var ys := Split(b, sep);
    SplitInverse(a, sep);
    SplitInverse(b, sep);
    JoinAppend(xs, ys, sep);
    SplitJoin(xs + ys, sep);
  }

  lemma {:induction false} ContainsAt(s: string, t: string, i: nat)
    requires i + |t| <= |s| && s[i..i + |t|] == t
    ensures Contains(s, t)
    decreases i
  {
    if i > 0 {
      assert s[1..][i - 1..i - 1 + |t|] == s[i..i + |t|];
      ContainsAt(s[1..], t, i - 1);
    }
  }

  lemma ContainsAppendRight(a: string, b: string, t: string)
    requires Contains(b, t)
    ensures Contains(a + b, t)
  {
    var i := ContainsWitness(b, t);
    assert (a + b)[|a| + i..|a| + i + |t|] == b[i..i + |t|];
    ContainsAt(a + b, t, |a| + i);
  }

  lemma ContainsAppendLeft(a: string, b: string, t: string)
    requires Contains(a, t)
    ensures Contains(a + b, t)
  {
    var i := ContainsWitness(a, t);
    assert (a + b)[i..i + |t|] == a[i..i + |t|];
    ContainsAt(a + b, t, i);
  }

  /** Whatever occurs in one piece occurs in the joined text. */
  lemma {:induction false} ContainsJoin(parts: seq<string>, sep: char, i: nat, t: string)
    requires i < |parts| && Contains(parts[i], t)
    ensures Contains(Join(parts, sep), t)
    decreases |parts|
  {
    if |parts| > 1 {
      assert Join(parts, sep) == (parts[0] + [sep]) + Join(parts[1..], sep);
      if i == 0 {
        ContainsAppendLeft(parts[0], [sep] + Join(parts[1..], sep), t);
        assert parts[0] + ([sep] + Join(parts[1..], sep)) == Join(parts, sep);
      } else {
        assert parts[1..][i - 1] == parts[i];
        ContainsJoin(parts[1..], sep, i - 1, t);
        ContainsAppendRight(parts[0] + [sep], Join(parts[1..], sep), t);
      }
    }
  }

  lemma {:induction false} ContainsWitness(s: string, t: string) returns (i: nat)
    requires Contains(s, t)
    ensures i + |t| <= |s| && s[i..i + |t|] == t
    decreases |s|
  {
    if StartsWith(s, t) {
      i := 0;
    } else {
      var j := ContainsWitness(s[1..], t);
      i := j + 1;
      assert s[i..i + |t|] == s[1..][j..j + |t|];
    }
  }

  /** An occurrence of `t` starts early enough for all of `t` to fit. */
  lemma ContainsFirstChar(s: string, t: string)
    requires Contains(s, t) && |t| > 0
    ensures |t| <= |s| && t[0] in s[..|s| - |t| + 1]
  {
    var i := ContainsWitness(s, t);
    assert s[i] == s[i..i + |t|][0];
    assert s[..|s| - |t| + 1][i] == s[i];
  }

  /** A text whose first character occurs nowhere it could start is not contained. */
  lemma MissingFirstChar(s: string, t: string)
    requires |t| > 0 && (|t| > |s| || t[0] !in s[..|s| - |t| + 1])
    ensures !Contains(s, t)
  {
    if Contains(s, t) {
      ContainsFirstChar(s, t);
    }
  }

  /** A trimmed core surrounded by white space trims back to the core. */
  lemma TrimPadded(pad: string, core: string, pad2: string)
    requires AllSpace(pad) && AllSpace(pad2) && IsTrimmed(core)
    ensures Trim(pad + core + pad2) == core
  {
    var s := pad + core + pad2;
    TrimStartPadded(pad, core + pad2);
    assert pad + (core + pad2) == s;
    if |core| == 0 {
      TrimEndAllSpace(pad2);
    } else {
      TrimEndPadded(core, pad2);
    }
  }

  lemma {:induction false} TrimStartPadded(pad: string, rest: string)
    requires AllSpace(pad)
    requires |rest| == 0 || !IsJsSpace(rest[0]) || AllSpace(rest)
    ensures TrimStart(pad + rest) == (if AllSpace(rest) then "" else rest)
    decreases |pad|
  {
    if |pad| == 0 {
      assert pad + rest == rest;
      if AllSpace(rest) && |rest| > 0 {
        AllSpaceTrimStart(rest);
      }
    } else {
      assert (pad + rest)[1..] == pad[1..] + rest;
      TrimStartPadded(pad[1..], rest);
    }
  }

  lemma {:induction false} AllSpaceTrimStart(s: string)
    requires AllSpace(s)
    ensures TrimStart(s) == ""
    decreases |s|
  {
    if |s| > 0 {
      AllSpaceTrimStart(s[1..]);
    }
  }

  lemma {:induction false} TrimEndAllSpace(s: string)
    requires AllSpace(s)
    ensures TrimEnd(s) == ""
    decreases |s|
  {
    if |s| > 0 {
      TrimEndAllSpace(s[..|s| - 1]);
    }
  }

  lemma {:induction false} TrimEndPadded(core: string, pad: string)
    requires |core| > 0 && !IsJsSpace(core[|core| - 1]) && AllSpace(pad)
    ensures TrimEnd(core + pad) == core
    decreases |pad|
  {
    if |pad| > 0 {
      var s := core + pad;
      assert s[..|s| - 1] == core + pad[..|pad| - 1];
      TrimEndPadded(core, pad[..|pad| - 1]);
    } else {
      assert core + pad == core;
    }
  }

  lemma TrimIdempotent(s: string)
    requires IsTrimmed(s)
    ensures Trim(s) == s
  {
    assert "" + s + "" == s;
    TrimPadded("", s, "");
  }
}
