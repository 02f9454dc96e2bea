/** The form validators of `modules/utils.js`: share name, absolute path and the
    comma-separated list of users and `@groups`. Each returns `None` for an accepted
    value (`null` in the source) or the error message to show. */
module Validators {
  import opened Strings
  import opened Wrappers

  /** The character class `[a-zA-Z0-9_-]`. */
  predicate IsNameChar(c: char) {
    || ('a' <= c <= 'z') || ('A' <= c <= 'Z') || ('0' <= c <= '9') || c == '_' || c == '-'
  }

  /** `^[a-zA-Z0-9_-]+$`, consumed left to right. */
  predicate NameChars(s: string)
    decreases |s|
  {
    |s| > 0 && IsNameChar(s[0]) && (|s| == 1 || NameChars(s[1..]))
  }

  lemma {:induction false} NameCharsSpec(s: string)
    ensures NameChars(s) <==> |s| > 0 && forall i :: 0 <= i < |s| ==> IsNameChar(s[i])
    decreases |s|
  {
    if |s| > 1 {
      NameCharsSpec(s[1..]);
      assert forall i :: 1 <= i < |s| ==> s[i] == s[1..][i - 1];
    }
  }

  const NameRequired := "Share name is required"
  const NameInvalid := "Share name can only contain letters, numbers, hyphens, and underscores"

  /** `validators.shareName`. */
  function ShareName(value: string): (r: Option<string>)
    ensures r == Some(NameRequired) <==> value == ""
    ensures r == Some(NameInvalid) <==> value != "" && exists i :: 0 <= i < |value| && !IsNameChar(value[i])
    ensures r.None? <==> value != "" && forall i :: 0 <= i < |value| ==> IsNameChar(value[i])
  {
    NameCharsSpec(value);
    if value == "" then Some(NameRequired)
    else if !NameChars(value) then Some(NameInvalid)
    else None
  }

  const PathRequired := "Path is required"
  const PathRelative := "Path must be absolute (start with /)"

  /** `validators.path`: the required check comes before the absolute-path check. */
  function PathCheck(value: string): (r: Option<string>)
    ensures r == Some(PathRequired) <==> |value| == 0
    ensures r == Some(PathRelative) <==> |value| > 0 && value[0] != '/'
    ensures r.None? <==> |value| > 0 && value[0] == '/'
  {
    if value == "" then Some(PathRequired)
    else if !StartsWith(value, "/") then Some(PathRelative)
    else None
  }

  /** `^@?[a-zA-Z0-9_-]+$`: a user name, or a group name behind one '@'. */
  predicate IsToken(t: string) {
    NameChars(t) || (|t| > 0 && t[0] == '@' && NameChars(t[1..]))
  }

  /** An item the list check lets through: empty (as between two commas) or a token. */
  predicate Acceptable(item: string) {
    item == "" || IsToken(item)
  }

  /** `map(item => item.trim())`. */
  function TrimAll(parts: seq<string>): (r: seq<string>)
    ensures |r| == |parts|
    ensures forall i :: 0 <= i < |parts| ==> r[i] == Trim(parts[i])
    decreases |parts|
  {
    if |parts| == 0 then [] else [Trim(parts[0])] + TrimAll(parts[1..])
  }

  /** The list's items: split at every ',' and trimmed. */
  function Items(value: string): seq<string> {
    TrimAll(Split(value, ','))
  }

  /** The position of the first item the check rejects, or -1. */
  function FirstBad(items: seq<string>): (i: int)
    ensures -1 <= i < |items|
    ensures i >= 0 ==> !Acceptable(items[i]) && forall j :: 0 <= j < i ==> Acceptable(items[j])
    ensures i == -1 <==> forall j :: 0 <= j < |items| ==> Acceptable(items[j])
    decreases |items|
  {
    if |items| == 0 then -1
    else if !Acceptable(items[0]) then 0
    else
      var k := FirstBad(items[1..]);
      assert forall j :: 1 <= j < |items| ==> items[j] == items[1..][j - 1];
      if k < 0 then -1 else k + 1
  }

  function PositionError(i: nat): string {
    "Invalid user or group format at position " + NatToString(i + 1)
  }

  /** `validators.usersAndGroups`: an empty value is accepted (the field is optional);
      otherwise the first rejected item is reported by its 1-based position. */
  function UsersAndGroups(value: string): (r: Option<string>)
    ensures r.None? <==> value == "" || forall j :: 0 <= j < |Items(value)| ==> Acceptable(Items(value)[j])
    ensures r.Some? ==> exists i :: 0 <= i < |Items(value)| && r.value == PositionError(i)
                                    && !Acceptable(Items(value)[i])
                                    && forall j :: 0 <= j < i ==> Acceptable(Items(value)[j])
  {
    if value == "" then None
    else
      var i := FirstBad(Items(value));
      if i < 0 then None else Some(PositionError(i))
  }

  // ------------------------------------------------------------ properties

  /** A name the share-name check accepts is also a token for the users list. */
  lemma ShareNameIsToken(value: string)
    requires ShareName(value).None?
    ensures IsToken(value)
  {
    NameCharsSpec(value);
  }

  lemma TokenShape(t: string)
    requires IsToken(t)
    ensures ',' !in t && IsTrimmed(t)
  {
    NameCharsSpec(t);
    if !NameChars(t) {
      NameCharsSpec(t[1..]);
      assert forall i :: 1 <= i < |t| ==> t[i] == t[1..][i - 1];
    }
  }

  /** A comma-joined list of tokens, as the form writes it, passes the check. */
  lemma JoinedTokensAccepted(tokens: seq<string>)
    requires |tokens| >= 1
    requires forall i :: 0 <= i < |tokens| ==> IsToken(tokens[i])
    ensures UsersAndGroups(Join(tokens, ',')) == None
  {
    forall t | t in tokens ensures ',' !in t {
      TokenShape(t);
    }
    SplitJoin(tokens, ',');
    var items := Items(Join(tokens, ','));
    forall j | 0 <= j < |items| ensures Acceptable(items[j]) {
      TokenShape(tokens[j]);
      TrimIdempotent(tokens[j]);
    }
  }

  /** Blank items are tolerated: white space around the commas, or nothing between two. */
  lemma BlankItemsAccepted(value: string)
    requires value != ""
    requires forall p :: p in Split(value, ',') ==> AllSpace(p)
    ensures UsersAndGroups(value) == None
  {
    var parts := Split(value, ',');
    forall j | 0 <= j < |parts| ensures Trim(parts[j]) == "" {
      assert parts[j] in parts;
      AllSpaceTrimStart(parts[j]);
      TrimEndAllSpace("");
    }
  }
}
