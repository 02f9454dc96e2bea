/** The user list of `modules/users.js`: regular accounts read from `getent passwd`,
    marked Samba-enabled when they appear in the `pdbedit -L` listing (or, failing that,
    in the first readable smbpasswd file), and the two password-dialog validators. */
module Users {
  import opened Strings
  import opened Wrappers

  // ------------------------------------------------------------ parseInt

  predicate IsDecimalDigit(c: char) {
    '0' <= c <= '9'
  }

  predicate IsDigitIn(c: char, hex: bool) {
    IsDecimalDigit(c) || (hex && (('a' <= c <= 'f') || ('A' <= c <= 'F')))
  }

  function DigitValue(c: char): nat {
    if '0' <= c <= '9' then c as int - '0' as int
    else if 'a' <= c <= 'f' then c as int - 'a' as int + 10
    else if 'A' <= c <= 'F' then c as int - 'A' as int + 10
    else 0
  }

  /** The longest prefix of `s` made of digits of the radix. */
  function DigitRun(s: string, hex: bool): (d: string)
    ensures |d| <= |s|
    decreases |s|
  {
    if |s| > 0 && IsDigitIn(s[0], hex) then [s[0]] + DigitRun(s[1..], hex) else ""
  }

  /** The number a digit string denotes in `base`, most significant digit first. */
  function ValueOf(d: string, base: nat): nat
    decreases |d|
  {
    if |d| == 0 then 0 else ValueOf(d[..|d| - 1], base) * base + DigitValue(d[|d| - 1])
  }

  /** `parseInt(s)` without a radix: leading white space and one sign are skipped, a `0x`
      prefix switches to hexadecimal, and the longest run of digits is read. `None` is NaN. */
  function ParseInt(s: string): (r: Option<int>)
  {
    var t := TrimStart(s);
    var neg := |t| > 0 && t[0] == '-';
    var u := if |t| > 0 && (t[0] == '-' || t[0] == '+') then t[1..] else t;
    var hex := |u| >= 2 && u[0] == '0' && (u[1] == 'x' || u[1] == 'X');
    var d := DigitRun(if hex then u[2..] else u, hex);
    if d == "" then None
    else
      var n: int := ValueOf(d, if hex then 16 else 10);
      Some(if neg then -n else n)
  }

  // ------------------------------------------------------------ parseSystemUsers

  datatype User = User(username: string, fullName: string, sambaEnabled: bool)

  /** The accounts the list hides: service-style names and accounts without a login shell. */
  predicate IsSystemUser(username: string, shell: string) {
    || Contains(username, "-") || Contains(username, "_") || username == "nobody"
    || StartsWith(username, "cockpit") || StartsWith(username, "systemd") || StartsWith(username, "ssh")
    || shell == "/sbin/nologin" || shell == "/bin/false" || shell == "/usr/sbin/nologin"
  }

  /** The regular uid range: at least 1000 and below 65534 (`nobody`); NaN is never in range. */
  predicate RegularUid(uid: Option<int>) {
    uid.Some? && 1000 <= uid.value < 65534
  }

  /** The GECOS field up to its first ',' (the full name). */
  function GecosName(gecos: string): string {
    Split(gecos, ',')[0]
  }

  /** One line of `getent passwd`: the user it contributes, if any. Lines with fewer than
      seven ':'-separated fields are ignored. */
  function UserOf(line: string): (r: Option<User>)
    ensures r.Some? <==> var parts := Split(line, ':');
      |parts| >= 7 && RegularUid(ParseInt(parts[2])) && !IsSystemUser(parts[0], parts[6])
    ensures r.Some? ==> var parts := Split(line, ':');
      && r.value.username == parts[0]
      && r.value.fullName == (if GecosName(parts[4]) != "" then GecosName(parts[4]) else parts[0])
      && !r.value.sambaEnabled
  {
    var parts := Split(line, ':');
    if |parts| >= 7 then
      var username, uid, fullName, shell := parts[0], ParseInt(parts[2]), GecosName(parts[4]), parts[6];
      if RegularUid(uid) && !IsSystemUser(username, shell) then
        Some(User(username, if fullName != "" then fullName else username, false))
      else None
    else None
  }

  /** What one line adds to the list: its user, or nothing. */
  function Contribution(line: string): seq<User> {
    match UserOf(line)
    case Some(u) => [u]
    case None => []
  }

  /** The users of a sequence of lines, in line order. */
  function UsersOf(lines: seq<string>): (r: seq<User>)
    ensures |r| <= |lines|
    decreases |lines|
  {
    if |lines| == 0 then [] else Contribution(lines[0]) + UsersOf(lines[1..])
  }

  /** `parseSystemUsers`. */
  function ParseSystemUsers(output: string): seq<User> {
    UsersOf(Split(output, '\n'))
  }

  // ------------------------------------------------------------ the Samba list

  /** The name before the first ':' of a listing line. */
  function FirstField(line: string): string {
    Split(line, ':')[0]
  }

  /** The names of a listing: the first field of every non-blank line, skipping lines that
      start with '#' when `skipComments` (the smbpasswd file format). */
  function ListedNames(lines: seq<string>, skipComments: bool): (r: seq<string>)
    ensures |r| <= |lines|
    decreases |lines|
  {
    if |lines| == 0 then []
    else
      var l := lines[0];
      var keep := Trim(l) != "" && !(skipComments && StartsWith(l, "#"));
      (if keep then [FirstField(l)] else []) + ListedNames(lines[1..], skipComments)
  }

  /** Where the smbpasswd file is looked for, in order. */
  const SmbpasswdPaths := ["/var/lib/samba/private/smbpasswd", "/etc/samba/smbpasswd", "/usr/local/samba/private/smbpasswd"]

  /** The content of the first path that `cat` can read, if any; `readable` holds the
      files `cat` succeeds on. */
  function FirstReadable(paths: seq<string>, readable: map<string, string>): (r: Option<string>)
    ensures r.Some? ==> exists i :: 0 <= i < |paths| && paths[i] in readable && r.value == readable[paths[i]]
                          && forall j :: 0 <= j < i ==> paths[j] !in readable
    ensures r.None? <==> forall j :: 0 <= j < |paths| ==> paths[j] !in readable
    decreases |paths|
  {
    if |paths| == 0 then None
    else if paths[0] in readable then Some(readable[paths[0]])
    else
      var r := FirstReadable(paths[1..], readable);
      assert forall j :: 1 <= j < |paths| ==> paths[j] == paths[1..][j - 1];
      assert r.Some? ==> exists i :: 0 <= i < |paths| - 1 && paths[1..][i] in readable && r.value == readable[paths[1..][i]]
                                     && forall j :: 0 <= j < i ==> paths[1..][j] !in readable;
      r
  }

  /** `name` is the first field of a kept line of a listing: a non-blank line that, when
      `skipComments`, does not start with '#'. */
  ghost predicate Listed(lines: seq<string>, skipComments: bool, name: string) {
    exists l :: l in lines && Trim(l) != "" && !(skipComments && StartsWith(l, "#")) && FirstField(l) == name
  }

  /** The Samba user names: the `pdbedit -L` output when the command succeeds (`pdbedit`
      holds it), otherwise the first readable smbpasswd file, otherwise none. */
  function SambaNames(pdbedit: Option<string>, readable: map<string, string>): (r: seq<string>)
    ensures pdbedit.Some? ==> forall n :: n in r <==> Listed(Split(pdbedit.value, '\n'), false, n)
    ensures pdbedit.None? ==>
              forall i :: 0 <= i < |SmbpasswdPaths| && SmbpasswdPaths[i] in readable
                          && (forall j :: 0 <= j < i ==> SmbpasswdPaths[j] !in readable) ==>
                forall n :: n in r <==> Listed(Split(readable[SmbpasswdPaths[i]], '\n'), true, n)
    ensures pdbedit.None? && (forall j :: 0 <= j < |SmbpasswdPaths| ==> SmbpasswdPaths[j] !in readable) ==> r == []
  {
    match pdbedit
    case Some(out) =>
      ListedAll(Split(out, '\n'), false);
      ListedNames(Split(out, '\n'), false)
    case None =>
      FirstReadableOnly(SmbpasswdPaths, readable);
      match FirstReadable(SmbpasswdPaths, readable)
      case Some(text) =>
        ListedAll(Split(text, '\n'), true);
        ListedNames(Split(text, '\n'), true)
      case None => []
  }

  /** `user.sambaEnabled = sambaUsers.includes(user.username)` for every user. */
  function MarkSamba(users: seq<User>, names: seq<string>): (r: seq<User>)
    ensures |r| == |users|
    ensures forall i :: 0 <= i < |users| ==>
      && r[i].username == users[i].username
      && r[i].fullName == users[i].fullName
      && (r[i].sambaEnabled <==> users[i].username in names)
    decreases |users|
  {
    if |users| == 0 then []
    else [users[0].(sambaEnabled := users[0].username in names)] + MarkSamba(users[1..], names)
  }

  /** `loadUsers`: `getent` is the output of `getent passwd` when it succeeds; on failure
      the list is empty and the Samba listing is not consulted. */
  function LoadUsers(getent: Option<string>, pdbedit: Option<string>, readable: map<string, string>): (r: seq<User>)
    ensures getent.None? ==> r == []
    ensures getent.Some? ==>
              var users := ParseSystemUsers(getent.value);
              && |r| == |users|
              && forall i :: 0 <= i < |r| ==>
                   && r[i].username == users[i].username
                   && r[i].fullName == users[i].fullName
                   && (r[i].sambaEnabled <==> r[i].username in SambaNames(pdbedit, readable))
  {
    match getent
    case None => []
    case Some(out) => MarkSamba(ParseSystemUsers(out), SambaNames(pdbedit, readable))
  }

  // ------------------------------------------------------------ the password dialog

  /** `value.length`: UTF-16 code units, so a character outside the Basic Multilingual
      Plane counts twice. */
  function Utf16Length(s: string): (n: nat)
    ensures |s| <= n <= 2 * |s|
    decreases |s|
  {
    if |s| == 0 then 0 else (if s[0] as int >= 0x1_0000 then 2 else 1) + Utf16Length(s[1..])
  }

  const PasswordRequired := "Password is required"
  const PasswordShort := "Password must be at least 6 characters"
  const ConfirmRequired := "Confirm password is required"
  const ConfirmMismatch := "Passwords do not match"

  /** The `samba-password` validator. */
  function PasswordCheck(value: string): (r: Option<string>)
    ensures r == Some(PasswordRequired) <==> value == ""
    ensures r.None? <==> Utf16Length(value) >= 6
    ensures value != "" && Utf16Length(value) < 6 ==> r == Some(PasswordShort)
  {
    if value == "" then Some(PasswordRequired)
    else if Utf16Length(value) < 6 then Some(PasswordShort)
    else None
  }

  /** The `samba-password-confirm` validator, given the password field's value. */
  function ConfirmCheck(value: string, password: string): (r: Option<string>)
    ensures r == Some(ConfirmRequired) <==> value == ""
    ensures r.None? <==> value != "" && value == password
    ensures value != "" && value != password ==> r == Some(ConfirmMismatch)
  {
    if value == "" then Some(ConfirmRequired)
    else if value != password then Some(ConfirmMismatch)
    else None
  }

  // ------------------------------------------------------------ properties

  lemma {:induction false} NatDigits(n: nat)
    ensures forall i :: 0 <= i < |NatToString(n)| ==> IsDecimalDigit(NatToString(n)[i])
    decreases n
  {
    if n >= 10 {
      NatDigits(n / 10);
    }
  }

  lemma {:induction false} DigitRunAll(s: string, hex: bool)
    requires forall i :: 0 <= i < |s| ==> IsDigitIn(s[i], hex)
    ensures DigitRun(s, hex) == s
    decreases |s|
  {
    if |s| > 0 {
      DigitRunAll(s[1..], hex);
    }
  }

  lemma {:induction false} NatValue(n: nat)
    ensures ValueOf(NatToString(n), 10) == n
    decreases n
  {
    var s := NatToString(n);
    if n >= 10 {
      NatValue(n / 10);
      assert s[..|s| - 1] == NatToString(n / 10);
    } else {
      assert s[..|s| - 1] == "";
    }
  }

  /** `parseInt` reads back what `String(n)` writes. */
  lemma ParseIntRoundTrip(n: nat)
    ensures ParseInt(NatToString(n)) == Some(n)
  {
    var s := NatToString(n);
    NatDigits(n);
    DigitRunAll(s, false);
    NatValue(n);
    assert !IsJsSpace(s[0]);
    assert TrimStart(s) == s;
  }

  /** A `getent passwd` entry. */
  datatype PasswdEntry = PasswdEntry(name: string, password: string, uid: nat, gid: nat,
                                     gecos: string, home: string, shell: string)

  /** The line `getent passwd` prints for an entry. */
  function PasswdLine(e: PasswdEntry): string {
    Join([e.name, e.password, NatToString(e.uid), NatToString(e.gid), e.gecos, e.home, e.shell], ':')
  }

  /** Fields that hold no separator. */
  predicate Clean(e: PasswdEntry) {
    ':' !in e.name && ':' !in e.password && ':' !in e.gecos && ':' !in e.home && ':' !in e.shell
  }

  lemma NoColonInNumber(n: nat)
    ensures ':' !in NatToString(n)
  {
    NatDigits(n);
  }

  /** Reading a printed entry back: it is listed exactly when its uid is regular and it is
      not a system account, with the GECOS name (or else the user name) as full name. */
  lemma PasswdRoundTrip(e: PasswdEntry)
    requires Clean(e)
    ensures UserOf(PasswdLine(e)).Some? <==> 1000 <= e.uid < 65534 && !IsSystemUser(e.name, e.shell)
    ensures UserOf(PasswdLine(e)).Some? ==>
      UserOf(PasswdLine(e)).value == User(e.name, if GecosName(e.gecos) != "" then GecosName(e.gecos) else e.name, false)
  {
    var fields := [e.name, e.password, NatToString(e.uid), NatToString(e.gid), e.gecos, e.home, e.shell];
    NoColonInNumber(e.uid);
    NoColonInNumber(e.gid);
    SplitJoin(fields, ':');
    ParseIntRoundTrip(e.uid);
  }

  /** Users come out in the order of their lines: a split output lists the first part's
      users before the second's. */
  lemma {:induction false} UsersAppend(a: seq<string>, b: seq<string>)
    ensures UsersOf(a + b) == UsersOf(a) + UsersOf(b)
    decreases |a|
  {
    if |a| > 0 {
      assert (a + b)[0] == a[0];
      assert (a + b)[1..] == a[1..] + b;
      UsersAppend(a[1..], b);
      var c := Contribution(a[0]);
      calc {
        UsersOf(a + b);
        c + UsersOf(a[1..] + b);
        c + (UsersOf(a[1..]) + UsersOf(b));
        { SeqAssoc(c, UsersOf(a[1..]), UsersOf(b)); }
        (c + UsersOf(a[1..])) + UsersOf(b);
      }
    } else {
      assert a + b == b;
    }
  }

  /** Concatenation is associative. */
  lemma SeqAssoc<T>(x: seq<T>, y: seq<T>, z: seq<T>)
    ensures x + (y + z) == (x + y) + z
  {
  }

  /** Every listed user comes from a line of the output, and every line that qualifies
      contributes its user. */
  lemma {:induction false} UsersFromLines(lines: seq<string>)
    ensures forall u :: u in UsersOf(lines) ==> exists l :: l in lines && UserOf(l) == Some(u)
    ensures forall l :: l in lines && UserOf(l).Some? ==> UserOf(l).value in UsersOf(lines)
    decreases |lines|
  {
    if |lines| > 0 {
      UsersFromLines(lines[1..]);
      assert lines == [lines[0]] + lines[1..];
    }
  }

  /** Nobody listed is enabled for Samba before the listing is consulted. */
  lemma ParsedUsersDisabled(output: string)
    ensures forall u :: u in ParseSystemUsers(output) ==> !u.sambaEnabled
  {
    UsersFromLines(Split(output, '\n'));
  }

  /** A name is listed exactly when some kept line (non-blank, and not a comment where
      comments are skipped) has it as its first field. */
  lemma {:induction false} ListedNamesSpec(lines: seq<string>, skipComments: bool, name: string)
    ensures name in ListedNames(lines, skipComments) <==> Listed(lines, skipComments, name)
    decreases |lines|
  {
    if |lines| > 0 {
      ListedNamesSpec(lines[1..], skipComments, name);
      assert lines == [lines[0]] + lines[1..];
    }
  }

  lemma ListedAll(lines: seq<string>, skipComments: bool)
    ensures forall n :: n in ListedNames(lines, skipComments) <==> Listed(lines, skipComments, n)
  {
    forall n ensures n in ListedNames(lines, skipComments) <==> Listed(lines, skipComments, n) {
      ListedNamesSpec(lines, skipComments, n);
    }
  }

  /** Only one path can be the first readable one: the one `FirstReadable` reads. */
  lemma FirstReadableOnly(paths: seq<string>, readable: map<string, string>)
    ensures forall i :: 0 <= i < |paths| && paths[i] in readable && (forall j :: 0 <= j < i ==> paths[j] !in readable)
              ==> FirstReadable(paths, readable) == Some(readable[paths[i]])
  {
  }
}
