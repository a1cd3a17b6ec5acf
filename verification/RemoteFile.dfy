/** internal/scout/files.go: user[:pass]@host[:port][:/path] */
module RemoteFile {
  import opened Text

  datatype Remote = Remote(username: string, password: string, host: string, port: string, path: string)

  datatype ParseError =
    | EmptyInput | MissingBracket | InvalidFormat | InvalidAddress | InvalidCredentials | InvalidPassword | InvalidPort

  /** `Panic` is a slice whose bounds are out of order. */
  datatype Parsed = Ok(remote: Remote) | Err(error: ParseError) | Panic

  const DEFAULT_PORT := "23"

  // ---------- the parser ----------

  /** The part before the first ":/", and the path from its slash on. */
  function SplitPath(input: string): (string, string) {
    var end := Index(input, ":/");
    if end == -1 then (input, "") else (input[..end], input[end + 1..])
  }

  /** The checks on an IPv6 address; None means that parsing goes on. `isIP` stands
      for net.ParseIP. */
  function CheckBrackets(hostPart: string, isIP: string -> bool): Option<Parsed> {
    var begin := Index(hostPart, "[");
    if begin == -1 then None
    else
      var end := LastIndex(hostPart, "]");
      if end == -1 then Some(Err(MissingBracket))
      else if end != |hostPart| - 1 && hostPart[end + 1] != '@' then Some(Err(InvalidFormat))
      else if end < begin + 1 then Some(Panic)
      else if !isIP(hostPart[begin + 1..end]) then Some(Err(InvalidAddress))
      else None
  }

  function Count(s: string, c: char): nat {
    if s == [] then 0 else (if s[0] == c then 1 else 0) + Count(s[1..], c)
  }

  datatype Login = Login(username: string, password: string) | Rejected(error: ParseError)

  function ParseCredentials(s: string): Login {
    if Count(s, ':') > 1 then Rejected(InvalidCredentials)
    else
      var colon := Index(s, ":");
      if colon == -1 then Login(s, "")
      else if s[colon + 1..] == "" then Rejected(InvalidPassword)
      else Login(s[..colon], s[colon + 1..])
  }

  /** Host and port; None when the port is empty. */
  function ParsePort(host: string): Option<(string, string)> {
    var colon := LastIndex(host, ":");
    var bracket := LastIndex(host, "]");
    if colon != -1 && ((bracket != -1 && bracket < colon) || bracket == -1) then
      if host[colon + 1..] == "" then None else Some((host[..colon], host[colon + 1..]))
    else Some((host, DEFAULT_PORT))
  }

  /** What the part before the last "@" says. */
  function LoginPart(hostPart: string): Login {
    var at := LastIndex(hostPart, "@");
    if at == -1 then Login("", "") else ParseCredentials(hostPart[..at])
  }

  function HostOf(hostPart: string): string {
    var at := LastIndex(hostPart, "@");
    if at == -1 then hostPart else hostPart[at + 1..]
  }

  function ParseHostPart(hostPart: string, path: string): Parsed {
    var login := LoginPart(hostPart);
    if login.Rejected? then Err(login.error)
    else
      match ParsePort(HostOf(hostPart))
      case None => Err(InvalidPort)
      case Some((host, port)) => Ok(Remote(login.username, login.password, host, port, path))
  }

  function ParseRemoteFileName(input: string, isIP: string -> bool): Parsed {
    if input == "" then Err(EmptyInput)
    else
      var (hostPart, path) := SplitPath(input);
      match CheckBrackets(hostPart, isIP)
      case Some(failure) => failure
      case None => ParseHostPart(hostPart, path)
  }

  // ---------- the documented form ----------

  datatype Credentials = Anonymous | User(name: string) | UserPass(name: string, password: string)

  function CredentialsText(c: Credentials): string {
    match c
    case Anonymous => ""
    case User(name) => name + "@"
    case UserPass(name, password) => name + ":" + password + "@"
  }

  function HostText(host: string, port: Option<string>): string {
    match port case None => host case Some(p) => host + ":" + p
  }

  function PathText(path: string): string { if path == "" then "" else ":" + path }

  function Printed(c: Credentials, host: string, port: Option<string>, path: string): string {
    CredentialsText(c) + HostText(host, port) + PathText(path)
  }

  predicate Free(s: string, cs: set<char>) { forall i :: 0 <= i < |s| ==> s[i] !in cs }

  /** A password or port that ":/" cannot cut off. */
  predicate AfterColon(s: string) { s != "" && s[0] != '/' }

  predicate ValidCredentials(c: Credentials) {
    match c
    case Anonymous => true
    case User(name) => Free(name, {':', '['})
    case UserPass(name, password) => Free(name, {':', '['}) && Free(password, {':', '['}) && AfterColon(password)
  }

  predicate ValidPort(port: Option<string>) {
    port.Some? ==> AfterColon(port.value) && Free(port.value, {':', '@', '[', ']'})
  }

  predicate ValidPath(path: string) { path == "" || path[0] == '/' }

  predicate ValidHost(host: string) { host != "" && Free(host, {':', '@', '['}) }

  function UserName(c: Credentials): string { if c.Anonymous? then "" else c.name }

  function Password(c: Credentials): string { if c.UserPass? then c.password else "" }

  // ---------- searching for one character ----------

  lemma OneChar(s: string, c: char, i: int)
    ensures OccursAt(s, [c], i) <==> 0 <= i < |s| && s[i] == c
  {
    if 0 <= i < |s| {
      assert s[i..i + 1] == [s[i]];
    }
  }

  lemma Absent(s: string, c: char)
    requires c !in s
    ensures Index(s, [c]) == -1 && LastIndex(s, [c]) == -1
  {
    forall i ensures !OccursAt(s, [c], i) { OneChar(s, c, i); }
  }

  lemma FirstAt(s: string, c: char, k: nat)
    requires k < |s| && s[k] == c && c !in s[..k]
    ensures Index(s, [c]) == k
  {
    OneChar(s, c, k);
    OneChar(s, c, Index(s, [c]));
    assert forall i :: 0 <= i < k ==> s[i] == s[..k][i];
  }

  lemma LastAt(s: string, c: char, k: nat)
    requires k < |s| && s[k] == c && c !in s[k + 1..]
    ensures LastIndex(s, [c]) == k
  {
    OneChar(s, c, k);
    OneChar(s, c, LastIndex(s, [c]));
    assert forall i :: k < i < |s| ==> s[i] == s[k + 1..][i - k - 1];
  }

  // ---------- the parts ----------

  /** No ":/" starts in `s`, whatever follows a final ":" that is not a slash. */
  predicate NoCut(s: string) { forall i :: 0 <= i < |s| - 1 ==> !(s[i] == ':' && s[i + 1] == '/') }

  /** A cut at `i` would show in the text there. */
  lemma CutAt(s: string, i: int)
    ensures OccursAt(s, ":/", i) <==> 0 <= i < |s| - 1 && s[i] == ':' && s[i + 1] == '/'
  {
    if 0 <= i < |s| - 1 {
      assert s[i..i + 2] == [s[i], s[i + 1]];
    }
  }

  lemma SplitPathText(hostPart: string, path: string)
    requires NoCut(hostPart) && ValidPath(path)
    ensures SplitPath(hostPart + PathText(path)) == (hostPart, path)
  {
    var s := hostPart + PathText(path);
    assert forall j :: 0 <= j < |hostPart| ==> s[j] == hostPart[j];
    forall i | OccursAt(s, ":/", i) ensures i >= |hostPart| && path != "" {
      CutAt(s, i);
    }
    if path != "" {
      CutAt(s, |hostPart|);
      assert s[..|hostPart|] == hostPart && s[|hostPart| + 1..] == path;
    } else {
      assert s == hostPart;
    }
  }

  lemma {:induction false} CountAbsent(s: string, c: char)
    requires c !in s
    ensures Count(s, c) == 0
  {
    if s != [] {
      CountAbsent(s[1..], c);
    }
  }

  lemma {:induction false} CountOne(a: string, b: string, c: char)
    requires c !in a && c !in b
    ensures Count(a + [c] + b, c) == 1
    decreases |a|
  {
    var s := a + [c] + b;
    if a == [] {
      assert s[1..] == b;
      CountAbsent(b, c);
    } else {
      assert s[1..] == a[1..] + [c] + b;
      CountOne(a[1..], b, c);
    }
  }

  lemma CredentialsParsed(c: Credentials)
    requires ValidCredentials(c) && !c.Anonymous?
    ensures var text := CredentialsText(c); ParseCredentials(text[..|text| - 1]) == Login(UserName(c), Password(c))
  {
    var text := CredentialsText(c);
    var s := text[..|text| - 1];
    if c.User? {
      assert s == c.name;
      CountAbsent(s, ':');
      Absent(s, ':');
    } else {
      assert s == c.name + [':'] + c.password;
      CountOne(c.name, c.password, ':');
      assert s[..|c.name|] == c.name;
      FirstAt(s, ':', |c.name|);
      assert s[|c.name| + 1..] == c.password;
    }
  }

  lemma PortParsed(host: string, port: Option<string>)
    requires ValidHost(host) && ValidPort(port)
    ensures ParsePort(HostText(host, port)) == Some((host, if port.Some? then port.value else DEFAULT_PORT))
  {
    var s := HostText(host, port);
    if port.None? {
      Absent(s, ':');
    } else {
      var k := |host|;
      assert s[..k] == host && s[k] == ':' && s[k + 1..] == port.value;
      LastAt(s, ':', k);
      var bracket := LastIndex(s, "]");
      OneChar(s, ']', bracket);
      assert forall i :: k < i < |s| ==> s[i] == port.value[i - k - 1];
    }
  }

  lemma HostPartUncut(c: Credentials, rest: string)
    requires ValidCredentials(c) && NoCut(rest)
    ensures NoCut(CredentialsText(c) + rest)
  {
    var text := CredentialsText(c);
    var s := text + rest;
    forall i | 0 <= i < |s| - 1 ensures !(s[i] == ':' && s[i + 1] == '/') {
      if i >= |text| {
        assert s[i] == rest[i - |text|] && s[i + 1] == rest[i + 1 - |text|];
      } else if i == |text| - 1 {
        assert s[i] == '@';
      }
    }
  }

  lemma LoginSplit(c: Credentials, rest: string)
    requires ValidCredentials(c) && '@' !in rest
    ensures LoginPart(CredentialsText(c) + rest) == Login(UserName(c), Password(c))
    ensures HostOf(CredentialsText(c) + rest) == rest
  {
    var text := CredentialsText(c);
    var hostPart := text + rest;
    if c.Anonymous? {
      assert hostPart == rest;
      Absent(hostPart, '@');
    } else {
      var at := |text| - 1;
      assert hostPart[at] == '@' && hostPart[at + 1..] == rest && hostPart[..at] == text[..at];
      LastAt(hostPart, '@', at);
      CredentialsParsed(c);
    }
  }

  /** What follows the credentials, once the brackets are accepted. */
  lemma LoginParsed(c: Credentials, rest: string, path: string, isIP: string -> bool)
    requires ValidCredentials(c) && '@' !in rest && rest != "" && NoCut(rest) && ValidPath(path)
    requires CheckBrackets(CredentialsText(c) + rest, isIP).None?
    ensures ParseRemoteFileName(CredentialsText(c) + rest + PathText(path), isIP)
         == match ParsePort(rest)
            case None => Err(InvalidPort)
            case Some((host, port)) => Ok(Remote(UserName(c), Password(c), host, port, path))
  {
    HostPartUncut(c, rest);
    SplitPathText(CredentialsText(c) + rest, path);
    LoginSplit(c, rest);
  }

  // ---------- main results ----------

  /** Parsing inverts printing: credentials may contain "@", and the path anything,
      ":/" and "@" included. */
  lemma RoundTrip(c: Credentials, host: string, port: Option<string>, path: string, isIP: string -> bool)
    requires ValidCredentials(c) && ValidHost(host) && ValidPort(port) && ValidPath(path)
    ensures ParseRemoteFileName(Printed(c, host, port, path), isIP)
         == Ok(Remote(UserName(c), Password(c), host, if port.Some? then port.value else "23", path))
  {
    var rest := HostText(host, port);
    Absent(CredentialsText(c) + rest, '[');
    LoginParsed(c, rest, path, isIP);
    PortParsed(host, port);
  }

  predicate ValidAddress(address: string) { Free(address, {'[', ']', '@', '/'}) }

  /** The bracket checks on credentials followed by a bracketed address. */
  lemma BracketsChecked(text: string, address: string, after: string, isIP: string -> bool)
    requires '[' !in text && Free(address, {'[', ']'}) && isIP(address) && ']' !in after
    ensures CheckBrackets(text + ("[" + address + "]" + after), isIP)
         == if after != "" && after[0] != '@' then Some(Err(InvalidFormat)) else None
  {
    var s := text + ("[" + address + "]" + after);
    var begin, end := |text|, |text| + |address| + 1;
    assert s[..begin] == text && s[begin] == '[';
    FirstAt(s, '[', begin);
    assert s[end] == ']' && s[end + 1..] == after;
    LastAt(s, ']', end);
    assert s[begin + 1..end] == address;
  }

  lemma BracketedPort(address: string)
    ensures ParsePort("[" + address + "]") == Some(("[" + address + "]", DEFAULT_PORT))
  {
    var host := "[" + address + "]";
    LastAt(host, ']', |address| + 1);
    OneChar(host, ':', LastIndex(host, ":"));
  }

  /** A bracketed IPv6 host is understood if and only if no port is given, although
      the documented form allows one. */
  lemma BracketedHost(c: Credentials, address: string, port: Option<string>, path: string, isIP: string -> bool)
    requires ValidCredentials(c) && ValidAddress(address) && isIP(address) && ValidPort(port) && ValidPath(path)
    ensures ParseRemoteFileName(Printed(c, "[" + address + "]", port, path), isIP)
         == if port.None? then Ok(Remote(UserName(c), Password(c), "[" + address + "]", DEFAULT_PORT, path))
            else Err(InvalidFormat)
  {
    var host := "[" + address + "]";
    var after := if port.None? then "" else ":" + port.value;
    var rest, text := HostText(host, port), CredentialsText(c);
    assert rest == host + after;
    BracketsChecked(text, address, after, isIP);
    BracketedUncut(host, after);
    if port.None? {
      LoginParsed(c, rest, path, isIP);
      BracketedPort(address);
    } else {
      HostPartUncut(c, rest);
      SplitPathText(text + rest, path);
    }
  }

  lemma BracketedUncut(host: string, after: string)
    requires '/' !in host && (after == "" || (after[0] == ':' && AfterColon(after[1..]) && ':' !in after[1..]))
    ensures NoCut(host + after)
  {
    var s := host + after;
    forall i | 0 <= i < |s| - 1 ensures !(s[i] == ':' && s[i + 1] == '/') {
      if i >= |host| {
        assert s[i] == after[i - |host|] && s[i + 1] == after[i + 1 - |host|];
        assert i > |host| ==> s[i] == after[1..][i - |host| - 1];
      } else if i == |host| - 1 {
        assert after != "" && s[i + 1] == after[0];
      }
    }
  }

  /** The brackets are the wrong way round, the last closing one followed by "@". */
  predicate Crossed(s: string) {
    exists k :: 0 <= k < |s| - 1 && s[k] == ']' && s[k + 1] == '@'
      && ']' !in s[k + 1..] && '[' !in s[..k] && '[' in s[k..]
  }

  lemma CrossedPanics(s: string, isIP: string -> bool)
    requires Crossed(s)
    ensures CheckBrackets(s, isIP) == Some(Panic)
  {
    var k :| 0 <= k < |s| - 1 && s[k] == ']' && s[k + 1] == '@' && ']' !in s[k + 1..] && '[' !in s[..k] && '[' in s[k..];
    LastAt(s, ']', k);
    var j :| 0 <= j < |s[k..]| && s[k..][j] == '[';
    OneChar(s, '[', k + j);
    OneChar(s, '[', Index(s, "["));
    assert forall i :: 0 <= i < k ==> s[i] == s[..k][i];
  }

  lemma PanicCrossed(s: string, isIP: string -> bool)
    requires CheckBrackets(s, isIP) == Some(Panic)
    ensures Crossed(s)
  {
    var begin, end := Index(s, "["), LastIndex(s, "]");
    OneChar(s, '[', begin);
    OneChar(s, ']', end);
    forall i | 0 <= i < |s| ensures (s[i] == '[' ==> begin <= i) && (s[i] == ']' ==> i <= end) {
      OneChar(s, '[', i);
      OneChar(s, ']', i);
    }
    assert s[end..][begin - end] == '[';
  }

  /** Parsing breaks down exactly for host parts with crossed brackets. */
  lemma PanicsIff(input: string, isIP: string -> bool)
    ensures ParseRemoteFileName(input, isIP).Panic? <==> Crossed(SplitPath(input).0)
  {
    var s := SplitPath(input).0;
    if Crossed(s) {
      CrossedPanics(s, isIP);
    }
    if CheckBrackets(s, isIP) == Some(Panic) {
      PanicCrossed(s, isIP);
    }
  }

  lemma PanicExample(isIP: string -> bool)
    ensures ParseRemoteFileName("]@[", isIP).Panic?
  {
    var s := "]@[";
    SplitPathText(s, "");
    assert s + PathText("") == s;
    assert s[0] == ']' && s[1] == '@' && s[0..][2] == '[';
    assert Crossed(s);
    CrossedPanics(s, isIP);
  }

  // ---------- what is accepted ----------

  /** `h` is credentials, if any, and then `host`, which holds no "@". */
  ghost predicate Splits(h: string, c: Credentials, host: string) {
    h == CredentialsText(c) + host && '@' !in host
  }

  /** A user with no colon in the name, and a password, if given, that is not empty and
      has none either. */
  predicate GoodCredentials(c: Credentials) {
    match c
    case Anonymous => true
    case User(name) => ':' !in name
    case UserPass(name, password) => ':' !in name && ':' !in password && password != ""
  }

  /** The brackets from `b` to `e`: the first "[", the last "]" behind it, and an address
      in between; nothing but "@" may follow. */
  predicate BracketsAt(h: string, b: nat, e: nat, isIP: string -> bool) {
    && b < e < |h| && h[b] == '[' && '[' !in h[..b] && h[e] == ']' && ']' !in h[e + 1..]
    && (e + 1 < |h| ==> h[e + 1] == '@') && isIP(h[b + 1..e])
  }

  ghost predicate GoodBrackets(h: string, isIP: string -> bool) {
    '[' in h ==> exists b, e :: 0 <= b < e && BracketsAt(h, b, e, isIP)
  }

  predicate EmptyPort(host: string) { host != "" && host[|host| - 1] == ':' }

  /** The input is a host part and a path; the host part has good brackets and
      credentials, and does not end in an empty port. */
  ghost predicate Acceptable(h: string, isIP: string -> bool) {
    && GoodBrackets(h, isIP)
    && exists c, host :: Splits(h, c, host) && GoodCredentials(c) && !EmptyPort(host)
  }

  lemma BracketsIff(h: string, isIP: string -> bool)
    ensures CheckBrackets(h, isIP).None? <==> GoodBrackets(h, isIP)
  {
    if '[' !in h {
      Absent(h, '[');
    } else {
      if CheckBrackets(h, isIP).None? {
        BracketsPassed(h, isIP);
      }
      if b, e :| 0 <= b < e && BracketsAt(h, b, e, isIP) {
        BracketsPass(h, b, e, isIP);
      }
    }
  }

  lemma BracketsPassed(h: string, isIP: string -> bool)
    requires '[' in h && CheckBrackets(h, isIP).None?
    ensures exists b, e :: 0 <= b < e && BracketsAt(h, b, e, isIP)
  {
    var begin, end := Index(h, "["), LastIndex(h, "]");
    CutOut(h, '[');
    LastIs(h, ']', end);
    assert BracketsAt(h, begin, end, isIP);
  }

  lemma BracketsPass(h: string, b: nat, e: nat, isIP: string -> bool)
    requires BracketsAt(h, b, e, isIP)
    ensures CheckBrackets(h, isIP).None?
  {
    FirstAt(h, '[', b);
    LastAt(h, ']', e);
  }

  lemma MissingBracketIff(h: string, isIP: string -> bool)
    ensures CheckBrackets(h, isIP) == Some(Err(MissingBracket)) <==> '[' in h && ']' !in h
  {
    if '[' !in h {
      Absent(h, '[');
    } else {
      CutOut(h, '[');
      if ']' !in h {
        Absent(h, ']');
      } else {
        var j: nat :| j < |h| && h[j] == ']';
        OneChar(h, ']', j);
      }
    }
  }

  lemma FirstIs(s: string, c: char, k: nat)
    requires Index(s, [c]) == k
    ensures k < |s| && s[k] == c && c !in s[..k]
  {
    OneChar(s, c, k);
    forall i | 0 <= i < k ensures s[..k][i] != c {
      OneChar(s, c, i);
    }
  }

  lemma LastIs(s: string, c: char, k: nat)
    requires LastIndex(s, [c]) == k
    ensures k < |s| && s[k] == c && c !in s[k + 1..]
  {
    OneChar(s, c, k);
    forall i | k < i < |s| ensures s[i] != c {
      OneChar(s, c, i);
    }
  }

  lemma {:induction false} CountPresent(a: string, b: string, c: char)
    requires c !in a
    ensures Count(a + [c] + b, c) == 1 + Count(b, c)
    decreases |a|
  {
    var s := a + [c] + b;
    if a == [] {
      assert s[1..] == b;
    } else {
      assert s[1..] == a[1..] + [c] + b;
      CountPresent(a[1..], b, c);
    }
  }

  lemma CountZeroIff(s: string, c: char)
    ensures Count(s, c) == 0 <==> c !in s
  {
    if c !in s {
      CountAbsent(s, c);
    } else {
      var k := Index(s, [c]);
      CutOut(s, c);
      CountPresent(s[..k], s[k + 1..], c);
    }
  }

  lemma CutOut(s: string, c: char)
    requires c in s
    ensures var k := Index(s, [c]); 0 <= k < |s| && c !in s[..k] && s == s[..k] + [c] + s[k + 1..]
  {
    var j: nat :| j < |s| && s[j] == c;
    OneChar(s, c, j);
    FirstIs(s, c, Index(s, [c]));
  }

  /** The credentials that a text before "@" stands for. */
  function CredentialsOf(s: string): Credentials {
    var k := Index(s, ":");
    if 0 <= k < |s| then UserPass(s[..k], s[k + 1..]) else User(s)
  }

  /** Credentials are accepted if and only if they are good, and then read back. */
  lemma CredentialsIff(s: string)
    ensures CredentialsText(CredentialsOf(s)) == s + "@"
    ensures ParseCredentials(s)
         == (if Count(s, ':') > 1 then Rejected(InvalidCredentials)
             else if !GoodCredentials(CredentialsOf(s)) then Rejected(InvalidPassword)
             else Login(UserName(CredentialsOf(s)), Password(CredentialsOf(s))))
    ensures ParseCredentials(s).Login? <==> GoodCredentials(CredentialsOf(s))
  {
    CountZeroIff(s, ':');
    if ':' in s {
      var k := Index(s, ":");
      CutOut(s, ':');
      CountPresent(s[..k], s[k + 1..], ':');
      CountZeroIff(s[k + 1..], ':');
    } else {
      Absent(s, ':');
    }
  }

  lemma CredentialsUnique(s: string, c: Credentials)
    requires CredentialsText(c) == s + "@" && GoodCredentials(c)
    ensures c == CredentialsOf(s)
  {
    if c.UserPass? {
      assert s == c.name + ":" + c.password by {
        assert CredentialsText(c)[..|s|] == s;
      }
      assert s[..|c.name|] == c.name;
      FirstAt(s, ':', |c.name|);
      assert s[|c.name| + 1..] == c.password;
    } else if c.User? {
      assert CredentialsText(c)[..|s|] == s && s == c.name;
      Absent(s, ':');
    }
  }

  lemma PortIff(host: string)
    ensures ParsePort(host).None? <==> EmptyPort(host)
    ensures ParsePort(host).Some? ==>
      var (name, port) := ParsePort(host).value;
      || (host == name && port == DEFAULT_PORT)
      || (host == name + ":" + port && port != "" && ':' !in port)
  {
    var colon, bracket := LastIndex(host, ":"), LastIndex(host, "]");
    OneChar(host, ':', colon);
    OneChar(host, ']', bracket);
    if host != "" && host[|host| - 1] == ':' {
      LastAt(host, ':', |host| - 1);
      assert host[|host|..] == "";
    }
    if 0 <= colon {
      LastIs(host, ':', colon);
      assert host == host[..colon] + ":" + host[colon + 1..];
    }
  }

  /** `c` and `host` are what `h` consists of, as far as the parser is concerned. */
  function CredentialsIn(h: string): Credentials {
    var at := LastIndex(h, "@");
    if 0 <= at < |h| then CredentialsOf(h[..at]) else Anonymous
  }

  lemma AtSplits(h: string)
    ensures Splits(h, CredentialsIn(h), HostOf(h))
    ensures GoodCredentials(CredentialsIn(h)) ==>
      LoginPart(h) == Login(UserName(CredentialsIn(h)), Password(CredentialsIn(h)))
    ensures !GoodCredentials(CredentialsIn(h)) ==> LoginPart(h).Rejected?
  {
    if '@' in h {
      LastSplits(h);
      CredentialsIff(h[..LastIndex(h, "@")]);
    } else {
      Absent(h, '@');
    }
  }

  lemma LastSplits(h: string)
    requires '@' in h
    ensures 0 <= LastIndex(h, "@") < |h|
    ensures '@' !in HostOf(h) && h == h[..LastIndex(h, "@")] + "@" + HostOf(h)
  {
    var j: nat :| j < |h| && h[j] == '@';
    OneChar(h, '@', j);
    LastIs(h, '@', LastIndex(h, "@"));
  }

  lemma SplitsOnce(h: string, c: Credentials, host: string)
    requires Splits(h, c, host) && GoodCredentials(c)
    ensures host == HostOf(h) && c == CredentialsIn(h)
  {
    if c.Anonymous? {
      assert h == host;
      Absent(h, '@');
    } else {
      var text := CredentialsText(c);
      var at := |text| - 1;
      assert h[at] == '@' && h[at + 1..] == host && h[..at] + "@" == text;
      LastAt(h, '@', at);
      CredentialsUnique(h[..at], c);
    }
  }

  /** The path is split off at the first ":/" and nothing is lost. */
  lemma SplitPathBack(input: string)
    ensures var (h, path) := SplitPath(input); NoCut(h) && ValidPath(path) && input == h + PathText(path)
  {
    var k := Index(input, ":/");
    if k == -1 {
      UncutBefore(input, |input|);
      assert input[..|input|] == input;
    } else {
      CutAt(input, k);
      UncutBefore(input, k);
      assert input == input[..k] + ":" + input[k + 1..];
    }
  }

  lemma UncutBefore(s: string, n: nat)
    requires n <= |s| && forall i :: OccursAt(s, ":/", i) ==> n <= i
    ensures NoCut(s[..n])
  {
    forall i | 0 <= i < n - 1 ensures !(s[..n][i] == ':' && s[..n][i + 1] == '/') {
      CutAt(s, i);
    }
  }

  /** The credentials and the port decide about a host part with good brackets. */
  lemma HostPartIff(h: string, path: string)
    ensures ParseHostPart(h, path).Ok? <==>
      exists c, host :: Splits(h, c, host) && GoodCredentials(c) && !EmptyPort(host)
  {
    AtSplits(h);
    PortIff(HostOf(h));
    forall c, host | Splits(h, c, host) && GoodCredentials(c) ensures c == CredentialsIn(h) && host == HostOf(h) {
      SplitsOnce(h, c, host);
    }
  }

  /** The parser accepts exactly the acceptable inputs. */
  lemma AcceptedIff(input: string, isIP: string -> bool)
    ensures ParseRemoteFileName(input, isIP).Ok? <==> input != "" && Acceptable(SplitPath(input).0, isIP)
  {
    var (h, path) := SplitPath(input);
    BracketsIff(h, isIP);
    HostPartIff(h, path);
  }

  /** `r` holds these credentials and this port. */
  ghost predicate IsRead(r: Remote, c: Credentials, port: Option<string>) {
    && GoodCredentials(c)
    && r.username == UserName(c) && r.password == Password(c)
    && r.port == (if port.Some? then port.value else "23")
  }

  ghost predicate HostPartSays(h: string, r: Remote) {
    exists c, port :: h == CredentialsText(c) + HostText(r.host, port) && IsRead(r, c, port)
  }

  lemma HostPartBack(h: string, path: string)
    requires ParseHostPart(h, path).Ok?
    ensures HostPartSays(h, ParseHostPart(h, path).remote) && ParseHostPart(h, path).remote.path == path
  {
    var r := ParseHostPart(h, path).remote;
    AtSplits(h);
    PortIff(HostOf(h));
    var c := CredentialsIn(h);
    var port := if HostOf(h) == r.host then None else Some(r.port);
    assert h == CredentialsText(c) + HostText(r.host, port) && IsRead(r, c, port);
  }

  /** `input` is `r` written in the documented form. */
  ghost predicate InputSays(input: string, r: Remote) {
    exists c, port :: input == Printed(c, r.host, port, r.path) && IsRead(r, c, port)
  }

  lemma PathBehind(h: string, r: Remote)
    requires HostPartSays(h, r)
    ensures InputSays(h + PathText(r.path), r)
  {
    var c, port :| h == CredentialsText(c) + HostText(r.host, port) && IsRead(r, c, port);
    assert h + PathText(r.path) == Printed(c, r.host, port, r.path);
  }

  lemma HostPartDecides(input: string, isIP: string -> bool)
    requires ParseRemoteFileName(input, isIP).Ok?
    ensures var (h, path) := SplitPath(input); ParseRemoteFileName(input, isIP) == ParseHostPart(h, path)
  {
  }

  lemma InputBack(input: string, h: string, path: string)
    requires ParseHostPart(h, path).Ok? && input == h + PathText(path)
    ensures InputSays(input, ParseHostPart(h, path).remote)
  {
    HostPartBack(h, path);
    PathBehind(h, ParseHostPart(h, path).remote);
  }

  /** Printing inverts parsing, for every input that is accepted. */
  lemma PrintedBack(input: string, isIP: string -> bool)
    requires ParseRemoteFileName(input, isIP).Ok?
    ensures InputSays(input, ParseRemoteFileName(input, isIP).remote)
  {
    SplitPathBack(input);
    HostPartDecides(input, isIP);
    InputBack(input, SplitPath(input).0, SplitPath(input).1);
  }
}
