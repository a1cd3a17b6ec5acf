/** internal/xfer/loader.go: placing the helper program on the device, starting it,
    and who removes its directory. */
module Loader {
  import opened Text
  import opened Shell
  import opened Devices
  import opened Upload

  datatype LoaderError =
    | InvalidPath | UnknownMode | NoNonce | NoDirectory      // before the directory is known to exist
    | UploadFailed | NotExecutable | NoListener | NotStarted

  /** A bound TCP socket. */
  class NetListener {
    var open: bool

    constructor ()
      ensures open
    {
      open := true;
    }

    method Close()
      modifies this
      ensures !open
    {
      open := false;
    }
  }

  function ScratchDir(nonce: string): string { "/tmp/bs-loader-" + nonce }

  /** A file lies under the directory of one nonce only. */
  lemma OneNonce(a: string, b: string, p: string)
    requires |a| == |b| && Under(p, ScratchDir(a)) && Under(p, ScratchDir(b))
    ensures a == b
  {
    var n := |"/tmp/bs-loader-"|;
    assert p[n..n + |a|] == (ScratchDir(a) + "/")[n..n + |a|] == a;
    assert p[n..n + |b|] == (ScratchDir(b) + "/")[n..n + |b|] == b;
  }

  function LoaderPath(dir: string): string { dir + "/fileloader" }

  // ---------- what a trace says about the directory ----------

  /** The number of removals of `dir` that were sent. */
  function Removals(sent: seq<Sent>, dir: string): nat {
    if sent == [] then 0
    else Removals(sent[..|sent| - 1], dir) + (if sent[|sent| - 1].command == ForceRemoveCommand(dir) then 1 else 0)
  }

  ghost predicate Confirmed(sent: seq<Sent>, dir: string) {
    Sent(PrivateDirCommand(dir), true) in sent
  }

  lemma RemovalsAppend(sent: seq<Sent>, s: Sent, dir: string)
    ensures Removals(sent + [s], dir) == Removals(sent, dir) + (if s.command == ForceRemoveCommand(dir) then 1 else 0)
  {
    assert (sent + [s])[..|sent|] == sent;
  }

  /** Commands that do not start like a removal or a creation leave both facts alone. */
  lemma {:induction false} OtherCommands(sent: seq<Sent>, more: seq<Sent>, dir: string)
    requires forall i :: 0 <= i < |more| ==> more[i].command != [] && more[i].command[0] !in {'r', 'u'}
    ensures Removals(sent + more, dir) == Removals(sent, dir)
    ensures Confirmed(sent + more, dir) <==> Confirmed(sent, dir)
    decreases |more|
  {
    if more == [] {
      assert sent + more == sent;
    } else {
      var n := |more| - 1;
      OtherCommands(sent, more[..n], dir);
      assert sent + more == sent + more[..n] + [more[n]];
      RemovalsAppend(sent + more[..n], more[n], dir);
      assert ForceRemoveCommand(dir)[0] == 'r' && PrivateDirCommand(dir)[0] == 'u';
    }
  }

  /** A creation followed by harmless commands. */
  lemma CreationTrace(made: bool, more: seq<Sent>, dir: string)
    requires forall i :: 0 <= i < |more| ==> more[i].command != [] && more[i].command[0] !in {'r', 'u'}
    ensures var sent := [Sent(PrivateDirCommand(dir), made)] + more;
      Removals(sent, dir) == 0 && (Confirmed(sent, dir) <==> made)
  {
    var create := Sent(PrivateDirCommand(dir), made);
    assert ForceRemoveCommand(dir)[0] == 'r' && PrivateDirCommand(dir)[0] == 'u';
    RemovalsAppend([], create, dir);
    assert [] + [create] == [create];
    OtherCommands([create], more, dir);
  }

  lemma RemovalTrace(sent: seq<Sent>, ok: bool, dir: string)
    ensures var after := sent + [Sent(ForceRemoveCommand(dir), ok)];
      Removals(after, dir) == Removals(sent, dir) + 1 && (Confirmed(after, dir) <==> Confirmed(sent, dir))
  {
    assert ForceRemoveCommand(dir)[0] == 'r' && PrivateDirCommand(dir)[0] == 'u';
    RemovalsAppend(sent, Sent(ForceRemoveCommand(dir), ok), dir);
  }

  // ---------- the single steps ----------

  ghost predicate OutsideUnchanged(before: Fs, after: Fs, dir: string) {
    forall p :: !Under(p, dir) ==> SameFile(before, after, p)
  }

  method MakeDirectory(tc: Device, dir: string) returns (ok: bool)
    modifies tc
    ensures ok ==> dir in tc.fs.dirs && dir !in old(tc.fs).dirs && dir !in old(tc.fs).files
    ensures OutsideUnchanged(old(tc.fs), tc.fs, dir)
    ensures tc.log == old(tc.log) + [Sent(PrivateDirCommand(dir), ok)]
    ensures tc.errors == old(tc.errors) + (if ok then 0 else 1) && (ok ==> !HasControl(dir))
  {
    if HasControl(dir) {
      ControlInQuote("umask 077; mkdir ", dir);
    }
    var reply := tc.ExecuteChecked(PrivateDirCommand(dir));
    PrivateDirCommandMeaning(dir);
    return reply.Output?;
  }

  method Cleanup(tc: Device, dir: string)
    modifies tc
    ensures OutsideUnchanged(old(tc.fs), tc.fs, dir) && tc.errors >= old(tc.errors)
    ensures exists ok ::
      && tc.log == old(tc.log) + [Sent(ForceRemoveCommand(dir), ok)]
      && (ok ==> dir !in tc.fs.dirs && forall p :: p in tc.fs.files ==> !Under(p, dir))
  {
    var reply := tc.ExecuteChecked(ForceRemoveCommand(dir));
    ForceRemoveCommandMeaning(dir);
  }

  method MakeExecutable(tc: Device, file: string) returns (ok: bool)
    modifies tc
    ensures OnlyFile(old(tc.fs), tc.fs, file) && tc.fs.files == old(tc.fs).files
    ensures ok ==> file in tc.fs.runnable
    ensures tc.log == old(tc.log) + [Sent(ExecutableCommand(file), ok)]
    ensures tc.errors == old(tc.errors) + (if ok then 0 else 1)
  {
    var reply := tc.ExecuteChecked(ExecutableCommand(file));
    ExecutableCommandMeaning(file);
    return reply.Output?;
  }

  function StartOperands(loaderPath: string, mode: string, ip: string, port: nat, remotePath: string): seq<string> {
    [loaderPath, mode, ip, Itoa(port), remotePath]
  }

  function StartCommand(loaderPath: string, mode: string, ip: string, port: nat, remotePath: string): string {
    ShellQuote(loaderPath) + " " + ShellQuote(mode) + " " + ShellQuote(ip) + " " + ShellQuote(Itoa(port)) + " "
    + ShellQuote(remotePath)
  }

  /** Whatever the path and the mode contain, the shell starts the loader with exactly
      the intended arguments. */
  lemma StartCommandOperands(loaderPath: string, mode: string, ip: string, port: nat, remotePath: string)
    ensures var command := StartCommand(loaderPath, mode, ip, port, remotePath);
      var operands := StartOperands(loaderPath, mode, ip, port, remotePath);
      && Lex(command).Some?
      && Args(Lex(command).value) == seq(5, i requires 0 <= i < 5 => Txt(operands[i]))
      && Meaning(command) == NoEffect
  {
    var operands := StartOperands(loaderPath, mode, ip, port, remotePath);
    var items := QuotedItems(operands);
    FiveQuoted(operands);
    assert Line(items) == StartCommand(loaderPath, mode, ip, port, remotePath);
    LineArgs(items);
    assert ItemArgs(items) == seq(5, i requires 0 <= i < 5 => Txt(operands[i]));
    LineMeaning(items);
  }

  lemma FiveQuoted(v: seq<string>)
    requires |v| == 5
    ensures Line(QuotedItems(v))
         == ShellQuote(v[0]) + " " + ShellQuote(v[1]) + " " + ShellQuote(v[2]) + " " + ShellQuote(v[3]) + " "
            + ShellQuote(v[4])
  {
    var items := QuotedItems(v);
    var rest := items[1..];
    Line4(rest[0], rest[1], rest[2], rest[3]);
    assert rest == [rest[0], rest[1], rest[2], rest[3]];
    FiveSpaced(ShellQuote(v[0]), ShellQuote(v[1]), ShellQuote(v[2]), ShellQuote(v[3]), ShellQuote(v[4]));
  }

  lemma FiveSpaced(a: string, b: string, c: string, d: string, e: string)
    ensures a + " " + (b + " " + c + " " + d + " " + e) == a + " " + b + " " + c + " " + d + " " + e
  {
  }

  method Start(tc: Device, loaderPath: string, mode: string, ip: string, port: nat, remotePath: string) returns (ok: bool)
    modifies tc
    ensures tc.fs == old(tc.fs)
    ensures tc.log == old(tc.log) + [Sent(StartCommand(loaderPath, mode, ip, port, remotePath), ok)]
    ensures tc.errors == old(tc.errors) + (if ok then 0 else 1)
  {
    var command := StartCommand(loaderPath, mode, ip, port, remotePath);
    var reply := tc.ExecuteChecked(command);
    StartCommandOperands(loaderPath, mode, ip, port, remotePath);
    return reply.Output?;
  }

  // ---------- ownership ----------

  /** ownedLoaderListener: closing it also removes the directory, once. */
  class OwnedLoaderListener {
    const inner: NetListener
    const tc: Device
    const dir: string
    var once: bool

    constructor (inner: NetListener, tc: Device, dir: string)
      ensures this.inner == inner && this.tc == tc && this.dir == dir && !once
    {
      this.inner, this.tc, this.dir, once := inner, tc, dir, false;
    }

    method Close()
      modifies this, inner, tc
      ensures once && !inner.open
      ensures OutsideUnchanged(old(tc.fs), tc.fs, dir)
      ensures old(once) ==> tc.log == old(tc.log)
      ensures tc.errors >= old(tc.errors)
      ensures !old(once) ==> exists ok :: tc.log == old(tc.log) + [Sent(ForceRemoveCommand(dir), ok)]
    {
      inner.Close();
      if !once {
        once := true;
        Cleanup(tc, dir);
      }
    }
  }

  ghost predicate Harmless(log: seq<Sent>, n: nat) {
    forall i :: n <= i < |log| ==> log[i].command != [] && log[i].command[0] !in {'r', 'u'}
  }

  /** The helper on the device is exactly `loader`, it may be executed, and it was started
      with these arguments after that. */
  ghost predicate Serving(fs: Fs, sent: seq<Sent>, dir: string, loader: seq<Byte>, mode: string, ip: string, port: nat,
                          remotePath: string) {
    && LoaderPath(dir) in fs.files && fs.files[LoaderPath(dir)] == loader && LoaderPath(dir) in fs.runnable
    && |sent| >= 2
    && sent[|sent| - 2] == Sent(ExecutableCommand(LoaderPath(dir)), true)
    && sent[|sent| - 1] == Sent(StartCommand(LoaderPath(dir), mode, ip, port, remotePath), true)
  }

  /** The last command tells which step failed. */
  ghost predicate FailedAt(error: LoaderError, log: seq<Sent>, dir: string, mode: string, ip: string, port: nat,
                           remotePath: string, binds: bool) {
    match error
    case NotExecutable => log != [] && log[|log| - 1] == Sent(ExecutableCommand(LoaderPath(dir)), false)
    case NoListener => !binds && log != [] && log[|log| - 1] == Sent(ExecutableCommand(LoaderPath(dir)), true)
    case NotStarted =>
      binds && log != [] && log[|log| - 1] == Sent(StartCommand(LoaderPath(dir), mode, ip, port, remotePath), false)
    case _ => true
  }

  lemma OutsideTransitive(a: Fs, b: Fs, c: Fs, dir: string)
    requires OutsideUnchanged(a, b, dir) && OutsideUnchanged(b, c, dir)
    ensures OutsideUnchanged(a, c, dir)
  {
    forall p | !Under(p, dir) ensures SameFile(a, c, p) {
      assert SameFile(a, b, p) && SameFile(b, c, p);
    }
  }

  /** Upload, permission, socket and start, in a directory that is ours. The socket
      is null until it is bound. */
  method Launch(tc: Device, loader: seq<Byte>, mode: string, remotePath: string, dir: string, ip: string, port: nat,
                binds: bool)
    returns (error: Option<LoaderError>, socket: NetListener?)
    modifies tc
    ensures error.None? <==> socket != null && socket.open
    ensures socket != null ==> fresh(socket)
    ensures error.Some? ==> error.value in {UploadFailed, NotExecutable, NoListener, NotStarted}
    ensures OutsideUnchanged(old(tc.fs), tc.fs, dir)
    ensures old(tc.log) <= tc.log
    ensures Harmless(tc.log, |old(tc.log)|)
    ensures tc.errors >= old(tc.errors)
    ensures error.Some? && binds && !HasControl(dir) ==> tc.errors > old(tc.errors)
    ensures error.None? ==> binds && Serving(tc.fs, tc.log[|old(tc.log)|..], dir, loader, mode, ip, port, remotePath)
    ensures error.Some? ==> FailedAt(error.value, tc.log, dir, mode, ip, port, remotePath, binds)
  {
    var path := LoaderPath(dir);
    PathInDirectory(dir);
    socket := null;
    var ok := UploadData(tc, loader, path);
    ghost var uploaded := tc.log;
    assert forall i :: |old(tc.log)| <= i < |tc.log| ==> tc.log[i] == tc.log[|old(tc.log)|..][i - |old(tc.log)|];
    if !ok {
      return Some(UploadFailed), null;
    }
    label uploaded:
    ok := MakeExecutable(tc, path);
    OnlyFileTransitive(old(tc.fs), old@uploaded(tc.fs), tc.fs, path);
    if !ok {
      return Some(NotExecutable), null;
    }
    if !binds {
      return Some(NoListener), null;
    }
    socket := new NetListener();
    ok := Start(tc, path, mode, ip, port, remotePath);
    if !ok {
      socket.Close();
      return Some(NotStarted), socket;
    }
    LastTwo(old(tc.log), uploaded, Sent(ExecutableCommand(path), true),
            Sent(StartCommand(path, mode, ip, port, remotePath), true));
    return None, socket;
  }

  lemma PathInDirectory(dir: string)
    ensures Under(LoaderPath(dir), dir) && (HasControl(LoaderPath(dir)) ==> HasControl(dir))
  {
    assert LoaderPath(dir) == dir + "/" + "fileloader";
    if !HasControl(dir) {
      NoControlConcat(dir, "/fileloader");
    }
  }

  lemma LastTwo(before: seq<Sent>, log: seq<Sent>, a: Sent, b: Sent)
    requires before <= log
    ensures var sent := (log + [a] + [b])[|before|..]; |sent| >= 2 && sent[|sent| - 2] == a && sent[|sent| - 1] == b
  {
  }

  /** The commands of one run in `dir`: a removal for a confirmed creation that the run
      did not hand over, and no removal for an unconfirmed one. */
  ghost predicate Owned(sent: seq<Sent>, dir: string, error: Option<LoaderError>) {
    && (Confirmed(sent, dir) <==> error.None? || error.value in {UploadFailed, NotExecutable, NoListener, NotStarted})
    && Removals(sent, dir) == (if Confirmed(sent, dir) && error.Some? then 1 else 0)
  }

  method RunIn(tc: Device, loader: seq<Byte>, mode: string, remotePath: string, dir: string, ip: string, port: nat,
               binds: bool)
    returns (error: Option<LoaderError>, socket: NetListener?)
    modifies tc
    ensures socket != null ==> fresh(socket)
    ensures error.None? <==> socket != null && socket.open
    ensures error.Some? ==> error.value !in {InvalidPath, UnknownMode, NoNonce}
    ensures OutsideUnchanged(old(tc.fs), tc.fs, dir)
    ensures old(tc.log) <= tc.log && Owned(tc.log[|old(tc.log)|..], dir, error)
    ensures tc.errors >= old(tc.errors) && (error.Some? && binds ==> tc.errors > old(tc.errors))
    ensures error.None? ==> binds && Serving(tc.fs, tc.log[|old(tc.log)|..], dir, loader, mode, ip, port, remotePath)
  {
    ghost var n := |tc.log|;
    var ok := MakeDirectory(tc, dir);
    label made:
    ghost var create := Sent(PrivateDirCommand(dir), ok);
    if !ok {
      CreationTrace(false, [], dir);
      assert tc.log[n..] == [create] + [];
      return Some(NoDirectory), null;
    }
    error, socket := Launch(tc, loader, mode, remotePath, dir, ip, port, binds);
    OutsideTransitive(old(tc.fs), old@made(tc.fs), tc.fs, dir);
    if error.None? {
      HandedOver(old(tc.log), create, tc.log, dir);
      ServingSince(tc.fs, tc.log, n, dir, loader, mode, ip, port, remotePath);
      return;
    }
    label launched:
    Cleanup(tc, dir);
    OutsideTransitive(old(tc.fs), old@launched(tc.fs), tc.fs, dir);
    ghost var done :| tc.log == old@launched(tc.log) + [Sent(ForceRemoveCommand(dir), done)];
    CleanedUp(old(tc.log), create, old@launched(tc.log), done, dir);
  }

  lemma ServingSince(fs: Fs, log: seq<Sent>, n: nat, dir: string, loader: seq<Byte>, mode: string, ip: string, port: nat,
                     remotePath: string)
    requires n < |log| && Serving(fs, log[n + 1..], dir, loader, mode, ip, port, remotePath)
    ensures Serving(fs, log[n..], dir, loader, mode, ip, port, remotePath)
  {
    assert log[n..] == [log[n]] + log[n + 1..];
  }

  lemma HandedOver(before: seq<Sent>, create: Sent, log: seq<Sent>, dir: string)
    requires create == Sent(PrivateDirCommand(dir), true) && before + [create] <= log && Harmless(log, |before| + 1)
    ensures Removals(log[|before|..], dir) == 0 && Confirmed(log[|before|..], dir)
  {
    CreationTrace(true, log[|before| + 1..], dir);
    assert log[|before|..] == [create] + log[|before| + 1..];
  }

  lemma CleanedUp(before: seq<Sent>, create: Sent, log: seq<Sent>, done: bool, dir: string)
    requires create == Sent(PrivateDirCommand(dir), true) && before + [create] <= log && Harmless(log, |before| + 1)
    ensures var after := log + [Sent(ForceRemoveCommand(dir), done)];
      Removals(after[|before|..], dir) == 1 && Confirmed(after[|before|..], dir)
  {
    HandedOver(before, create, log, dir);
    RemovalTrace(log[|before|..], done, dir);
    var removal := Sent(ForceRemoveCommand(dir), done);
    assert (log + [removal])[|before|..] == log[|before|..] + [removal];
  }

  /** runLoader. If the creation of the directory was confirmed, it is removed exactly
      once when runLoader fails and left to the listener when it succeeds; a directory
      whose creation was not confirmed is never touched. A socket opened before a
      failure is closed. */
  method RunLoader(tc: Device, loader: seq<Byte>, mode: string, remotePath: string, nonce: Option<string>, ip: string,
                   port: nat, binds: bool)
    returns (error: Option<LoaderError>, ln: OwnedLoaderListener?, socket: NetListener?)
    modifies tc
    ensures error.None? <==> ln != null
    ensures ln != null ==>
      fresh(ln) && !ln.once && ln.inner == socket && ln.tc == tc && nonce.Some? && ln.dir == ScratchDir(nonce.value)
    ensures socket != null ==> fresh(socket) && (socket.open <==> error.None?)
    ensures old(tc.log) <= tc.log
    ensures nonce.Some? ==>
      && OutsideUnchanged(old(tc.fs), tc.fs, ScratchDir(nonce.value))
      && Owned(tc.log[|old(tc.log)|..], ScratchDir(nonce.value), error)
    ensures error.None? ==>
      && nonce.Some? && binds
      && Serving(tc.fs, tc.log[|old(tc.log)|..], ScratchDir(nonce.value), loader, mode, ip, port, remotePath)
    ensures tc.errors >= old(tc.errors)
    ensures error.Some? && nonce.Some? && binds && !HasControl(remotePath) && mode in {"push", "pull"} ==>
      tc.errors > old(tc.errors)
    ensures nonce.None? || HasControl(remotePath) || mode !in {"push", "pull"} ==>
      tc.log == old(tc.log) && tc.fs == old(tc.fs)
    ensures error == Some(InvalidPath) <==> HasControl(remotePath)
    ensures error == Some(UnknownMode) <==> !HasControl(remotePath) && mode !in {"push", "pull"}
    ensures error == Some(NoNonce) <==> !HasControl(remotePath) && mode in {"push", "pull"} && nonce.None?
  {
    ln, socket := null, null;
    if HasControl(remotePath) {
      return Some(InvalidPath), null, null;
    }
    if mode !in {"push", "pull"} {
      return Some(UnknownMode), null, null;
    }
    if nonce.None? {
      return Some(NoNonce), null, null;
    }
    var dir := ScratchDir(nonce.value);
    error, socket := RunIn(tc, loader, mode, remotePath, dir, ip, port, binds);
    if error.None? {
      ln := new OwnedLoaderListener(socket, tc, dir);
    }
  }

  /** Nothing is left to remove, and nothing was removed twice. */
  ghost predicate Settled(sent: seq<Sent>, dir: string) {
    Removals(sent, dir) == (if Confirmed(sent, dir) then 1 else 0)
  }

  lemma NothingSent(log: seq<Sent>, dir: string)
    ensures Settled(log[|log|..], dir)
  {
    assert log[|log|..] == [];
  }

  lemma ClosedOnce(before: seq<Sent>, open: seq<Sent>, after: seq<Sent>, dir: string)
    requires before <= open && Confirmed(open[|before|..], dir) && Removals(open[|before|..], dir) == 0
    requires exists ok :: after == open + [Sent(ForceRemoveCommand(dir), ok)]
    ensures before <= after && Settled(after[|before|..], dir)
    ensures forall s :: s in open[|before|..] ==> s in after[|before|..]
  {
    var ok :| after == open + [Sent(ForceRemoveCommand(dir), ok)];
    RemovalTrace(open[|before|..], ok, dir);
    assert after[|before|..] == open[|before|..] + [Sent(ForceRemoveCommand(dir), ok)];
  }

  /** A whole life of the directory: one run of the loader and any number of Close
      calls. It is removed exactly once if its creation was confirmed and the run
      failed or was closed, and never otherwise; nothing outside it changes. */
  method Lifetime(tc: Device, loader: seq<Byte>, mode: string, remotePath: string, nonce: string, ip: string, port: nat,
                  binds: bool, closes: nat)
    returns (error: Option<LoaderError>)
    modifies tc
    ensures old(tc.log) <= tc.log
    ensures OutsideUnchanged(old(tc.fs), tc.fs, ScratchDir(nonce))
    ensures var dir, sent := ScratchDir(nonce), tc.log[|old(tc.log)|..];
      Removals(sent, dir) == (if Confirmed(sent, dir) && (error.Some? || closes > 0) then 1 else 0)
  {
    var ln, socket;
    error, ln, socket := RunLoader(tc, loader, mode, remotePath, Some(nonce), ip, port, binds);
    if error.Some? {
      return;
    }
    ghost var n, dir, sent := |old(tc.log)|, ScratchDir(nonce), tc.log[|old(tc.log)|..];
    var i := 0;
    while i < closes
      invariant 0 <= i <= closes
      invariant ln.once <==> i > 0
      invariant OutsideUnchanged(old(tc.fs), tc.fs, dir)
      invariant old(tc.log) <= tc.log
      invariant Confirmed(tc.log[n..], dir)
      invariant Removals(tc.log[n..], dir) == (if i > 0 then 1 else 0)
    {
      label closing:
      ln.Close();
      OutsideTransitive(old(tc.fs), old@closing(tc.fs), tc.fs, dir);
      if i == 0 {
        ghost var before := old@closing(tc.log)[n..];
        ghost var done :| tc.log[n..] == before + [Sent(ForceRemoveCommand(dir), done)];
        RemovalTrace(before, done, dir);
      }
      i := i + 1;
    }
  }
}
