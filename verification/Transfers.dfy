/** internal/xfer/push.go and pull.go, and the fast transfers of internal/scout/scout.go:
    which of their failures are SetupErrors, and what they leave behind. */
module Transfers {
  import opened Text
  import opened Devices
  import opened Upload
  import opened Wire
  import Fileloader
  import Listener
  import Loader
  import PushConnection
  import PushPrintf

  // ---------- errors ----------

  /** A Go error and the errors it wraps. */
  datatype Error =
    | Plain(text: string)
    | Shell(outcomes: PushPrintf.Outcomes)   // what errors.Join puts together
    | Setup(cause: Error)
    | Decorated(context: string, cause: Error)

  /** errors.As for *xfer.SetupError. */
  predicate AsSetup(e: Error) {
    match e
    case Plain(_) | Shell(_) => false
    case Setup(_) => true
    case Decorated(_, cause) => AsSetup(cause)
  }

  predicate IsSetup(error: Option<Error>) { error.Some? && AsSetup(error.value) }

  // ---------- the fast push ----------

  /** What the environment decides in a fast transfer; `nonce` names the loader's
      directory, `accepted` tells whether the loader connected back in time, and `quiet`
      that in a pull neither the connection nor the remote file fails. */
  datatype FastEnv = FastEnv(
    detected: bool, connected: bool, helper: Option<seq<Byte>>, nonce: Option<string>, ip: string, port: nat, binds: bool,
    accepted: bool, quiet: bool)
  {
    predicate Serves() { helper.Some? && nonce.Some? && binds && accepted }

    predicate Fine() { detected && connected && Serves() }

    /** What makes a fast transfer impossible before it starts. A connection that cannot be
        opened is not among it. */
    predicate Refuses() { !detected || (connected && !Serves()) }
  }

  /** How far a fast transfer got. */
  datatype Stage = Detecting | Connecting | Starting | Accepting | Reading | Transferring | Done

  predicate BeforeTransfer(stage: Stage) { stage in {Detecting, Starting, Accepting} }

  /** The loader was confirmed to run, so it is waiting for the host. */
  predicate WasStarted(stage: Stage) { stage !in {Detecting, Connecting, Starting} }

  ghost predicate LoaderStarted(sent: seq<Sent>, env: FastEnv, mode: string, path: string)
    requires env.nonce.Some?
  {
    var helper := Loader.LoaderPath(Loader.ScratchDir(env.nonce.value));
    && Sent(ExecutableCommand(helper), true) in sent
    && Sent(Loader.StartCommand(helper, mode, env.ip, env.port, path), true) in sent
  }

  ghost predicate OnlyTargetAndLoader(before: Fs, after: Fs, nonce: Option<string>, target: string) {
    forall p :: p != target && (nonce.Some? ==> !Under(p, Loader.ScratchDir(nonce.value))) ==> SameFile(before, after, p)
  }

  function ContentOf(fs: Fs, path: string): seq<Byte> {
    if path in fs.files then fs.files[path] else []
  }

  function Store(fs: Fs, path: string, bytes: seq<Byte>): Fs {
    if bytes == ContentOf(fs, path) then fs else WithFile(fs, path, bytes)
  }

  /** A loader that was started but is never served runs do_push on a connection that
      delivers nothing; whatever it does, the destination is as before. */
  method UnservedLoader(tc: Device, target: string)
    modifies tc`fs
    ensures tc.fs == old(tc.fs)
  {
    var interrupts: nat, cause: seq<Byte> := *, *;
    var sock := new Channel([], interrupts, true);
    var file := new Channel([], interrupts, true);
    file.out := ContentOf(tc.fs, target);
    var opens: bool, closes: bool := *, *;
    var rc := Fileloader.DoPush(sock, file, opens, closes, cause);
    tc.fs := Store(tc.fs, target, file.out);
  }

  /** The destination holds what it held, or a beginning of the data; the rest is unchanged. */
  ghost predicate PrefixStored(before: Fs, after: Fs, target: string, data: seq<Byte>) {
    exists bytes ::
      && (bytes == ContentOf(before, target) || bytes <= data)
      && after == WithFile(before, target, bytes)
  }

  predicate Possible(source: Option<seq<Byte>>, target: string) { source.Some? && !HasControl(target) }

  /** `schedule` is a run of the transfer over a file that held `before`, and `ok` tells
      whether it returned nil. */
  ghost predicate Transferred(name: seq<Byte>, data: seq<Byte>, before: seq<Byte>, schedule: seq<PushConnection.Event>,
                              ok: bool) {
    var p := PushConnection.Push(name, data, before);
    var main := PushConnection.Run(p, PushConnection.Init(p), schedule).main;
    main.Returned? && (ok <==> main.error.None?)
  }

  /** `schedule` is that of the transfer proper, if there was one. */
  ghost predicate ScheduleOf(name: seq<Byte>, source: Option<seq<Byte>>, before: seq<Byte>,
                             schedule: seq<PushConnection.Event>, ok: bool, stage: Stage) {
    if stage in {Transferring, Done} then source.Some? && Transferred(name, source.value, before, schedule, ok)
    else schedule == []
  }

  /** The transfer proper, over an accepted connection. */
  method PushPayload(tc: Device, name: seq<Byte>, data: seq<Byte>, target: string)
    returns (error: Option<PushConnection.PushError>, sent: nat, ghost schedule: seq<PushConnection.Event>)
    requires |name| < 0x1_0000_0000 && |data| <= MAX_UINT64
    modifies tc`fs
    ensures Transferred(name, data, ContentOf(old(tc.fs), target), schedule, error.None?)
    ensures PushConnection.Undisturbed(schedule) ==> error.None?
    ensures error.None? ==> tc.fs == WithFile(old(tc.fs), target, data) && sent == |PushFrame(name, data)|
    ensures tc.fs == old(tc.fs) || PrefixStored(old(tc.fs), tc.fs, target, data)
    ensures sent < |PushHeader(name, |data|)| ==> error.Some? && tc.fs == old(tc.fs)
  {
    var p := PushConnection.Push(name, data, ContentOf(tc.fs, target));
    var s;
    error, s, schedule := PushConnection.PushData(p);
    sent := s.sent;
    if s.created {
      tc.fs := WithFile(tc.fs, target, s.dest);
    }
  }

  /** startLoader: every failure is a SetupError, and settles the loader's directory;
      only a start that was not confirmed may leave a loader running. */
  method StartLoader(tc: Device, env: FastEnv, mode: string, path: string)
    returns (error: Option<Error>, ln: Loader.OwnedLoaderListener?, running: bool)
    modifies tc
    ensures error.None? <==> ln != null
    ensures error.Some? ==> IsSetup(error)
    ensures ln != null ==>
      && fresh(ln) && fresh(ln.inner) && !ln.once && ln.tc == tc
      && env.nonce.Some? && ln.dir == Loader.ScratchDir(env.nonce.value)
    ensures old(tc.log) <= tc.log
    ensures env.nonce.Some? ==> var dir, sent := Loader.ScratchDir(env.nonce.value), tc.log[|old(tc.log)|..];
      && Loader.OutsideUnchanged(old(tc.fs), tc.fs, dir)
      && (error.Some? ==> Loader.Settled(sent, dir))
      && (error.None? ==>
            Loader.Confirmed(sent, dir) && Loader.Removals(sent, dir) == 0 && LoaderStarted(sent, env, mode, path))
    ensures tc.errors >= old(tc.errors)
    ensures error.None? ==> env.helper.Some? && env.binds
    ensures error.Some? && env.Serves() && !HasControl(path) && mode in {"push", "pull"} ==> tc.errors > old(tc.errors)
    ensures env.nonce.None? ==> tc.fs == old(tc.fs)
    ensures running ==> error.Some?
  {
    if env.nonce.Some? {
      Loader.NothingSent(tc.log, Loader.ScratchDir(env.nonce.value));
    }
    if env.helper.None? {
      return Some(Setup(Decorated("unsupported architecture", Plain("no helper")))), null, false;
    }
    var failed, socket;
    failed, ln, socket := Loader.RunLoader(tc, env.helper.value, mode, path, env.nonce, env.ip, env.port, env.binds);
    if failed.Some? {
      return Some(Setup(Plain("loader"))), null, failed.value == Loader.NotStarted;
    }
    return None, ln, false;
  }

  ghost predicate Accepted(before: Fs, after: Fs, name: seq<Byte>, source: Option<seq<Byte>>, target: string,
                           error: Option<Error>, stage: Stage, sent: nat) {
    && (stage in {Transferring, Done} ==> source.Some?)
    && (error.None? <==> stage == Done) && (error.Some? ==> !error.value.Shell?)
    && (IsSetup(error) <==> stage == Accepting)
    && (stage == Accepting || stage == Reading ==> sent == 0 && after == before)
    && (stage == Transferring && sent < |PushHeader(name, |source.value|)| ==> after == before)
    && (stage == Transferring ==> after == before || PrefixStored(before, after, target, source.value))
    && (stage == Done ==> after == WithFile(before, target, source.value))
  }

  /** AcceptAndPush: only a loader that does not connect in time is a SetupError. */
  method AcceptAndPush(tc: Device, accepted: bool, name: seq<Byte>, source: Option<seq<Byte>>, target: string)
    returns (error: Option<Error>, stage: Stage, sent: nat, ghost schedule: seq<PushConnection.Event>)
    requires |name| < 0x1_0000_0000 && (source.Some? ==> |source.value| <= MAX_INT64)
    modifies tc`fs
    ensures stage
         == if !accepted then Accepting else if source.None? then Reading else if error.Some? then Transferring else Done
    ensures Accepted(old(tc.fs), tc.fs, name, source, target, error, stage, sent)
    ensures OnlyFile(old(tc.fs), tc.fs, target)
    ensures ScheduleOf(name, source, ContentOf(old(tc.fs), target), schedule, error.None?, stage)
    ensures accepted && source.Some? && PushConnection.Undisturbed(schedule) ==> error.None?
  {
    schedule := [];
    if !accepted {
      UnservedLoader(tc, target);
      return Some(Setup(Plain("fileloader did not connect back"))), Accepting, 0, [];
    }
    if source.None? {
      UnservedLoader(tc, target);
      return Some(Plain("read file")), Reading, 0, [];
    }
    var e;
    e, sent, schedule := PushPayload(tc, name, source.value, target);
    if e.Some? {
      return Some(Plain("transfer")), Transferring, sent, schedule;
    }
    return None, Done, sent, schedule;
  }

  /** The loader's directory before and after the transfer, the destination in between. */
  lemma OnlyTargetChanged(a: Fs, b: Fs, c: Fs, d: Fs, dir: string, target: string)
    requires Loader.OutsideUnchanged(a, b, dir) && OnlyFile(b, c, target) && Loader.OutsideUnchanged(c, d, dir)
    requires !Under(target, dir)
    ensures SameFile(a, b, target) && SameFile(c, d, target)
    ensures forall p :: p != target && !Under(p, dir) ==> SameFile(a, d, p)
  {
    forall p | p != target && !Under(p, dir) ensures SameFile(a, d, p) {
      assert SameFile(a, b, p) && SameFile(b, c, p) && SameFile(c, d, p);
    }
  }

  /** What a fast push says about the destination. A SetupError is reported exactly when
      the transfer stopped before anything was sent to the loader for one of the three
      reasons the code wraps; then, and whenever nothing was transferred, the
      destination is untouched. */
  ghost predicate Pushed(before: Fs, after: Fs, name: seq<Byte>, source: Option<seq<Byte>>, target: string,
                         error: Option<Error>, stage: Stage, sent: nat) {
    && (error.None? <==> stage == Done) && (error.Some? ==> !error.value.Shell?)
    && (error.None? ==> source.Some? && target in after.files && after.files[target] == source.value)
    && (IsSetup(error) <==> BeforeTransfer(stage))
    && (stage != Transferring && stage != Done ==> sent == 0 && SameFile(before, after, target))
    && (stage == Transferring ==>
          && source.Some?
          && (sent < |PushHeader(name, |source.value|)| ==> SameFile(before, after, target))
          && (ContentOf(after, target) == ContentOf(before, target) || ContentOf(after, target) <= source.value))
  }

  lemma AcceptedIsPushed(a: Fs, b: Fs, c: Fs, d: Fs, name: seq<Byte>, source: Option<seq<Byte>>, target: string,
                         error: Option<Error>, stage: Stage, sent: nat)
    requires SameFile(a, b, target) && SameFile(c, d, target)
    requires Accepted(b, c, name, source, target, error, stage, sent) && stage in {Accepting, Reading, Transferring, Done}
    ensures ContentOf(b, target) == ContentOf(a, target)
    ensures Pushed(a, d, name, source, target, error, stage, sent)
    ensures error.Some? ==>
      Pushed(a, d, name, source, target, Some(Decorated("fast push failed", error.value)), stage, sent)
  {
  }

  /** xfer.Push: whatever happens, the loader's directory is settled at the end, and only
      a loader that was confirmed to run with the right arguments is waited for. */
  method PushOverLoader(tc: Device, env: FastEnv, name: seq<Byte>, source: Option<seq<Byte>>, target: string)
    returns (error: Option<Error>, stage: Stage, sent: nat, ghost schedule: seq<PushConnection.Event>)
    requires |name| < 0x1_0000_0000 && (source.Some? ==> |source.value| <= MAX_INT64)
    requires env.nonce.Some? ==> !Under(target, Loader.ScratchDir(env.nonce.value))
    modifies tc
    ensures Pushed(old(tc.fs), tc.fs, name, source, target, error, stage, sent)
    ensures OnlyTargetAndLoader(old(tc.fs), tc.fs, env.nonce, target)
    ensures stage !in {Detecting, Connecting}
    ensures old(tc.log) <= tc.log
    ensures env.nonce.Some? ==> Loader.Settled(tc.log[|old(tc.log)|..], Loader.ScratchDir(env.nonce.value))
    ensures WasStarted(stage) ==> env.nonce.Some? && LoaderStarted(tc.log[|old(tc.log)|..], env, "push", target)
    ensures ScheduleOf(name, source, ContentOf(old(tc.fs), target), schedule, error.None?, stage)
    ensures tc.errors >= old(tc.errors)
    ensures env.Serves() && Possible(source, target) && tc.errors == old(tc.errors) ==>
      PushConnection.Undisturbed(schedule) ==> error.None?
    ensures !env.Serves() ==> IsSetup(error)
    ensures env.Serves() && !HasControl(target) && tc.errors == old(tc.errors) ==> !IsSetup(error)
  {
    schedule := [];
    var ln, running;
    error, ln, running := StartLoader(tc, env, "push", target);
    label started:
    if error.Some? {
      if running {
        UnservedLoader(tc, target);
      }
      return error, Starting, 0, [];
    }
    error, stage, sent, schedule := AcceptAndPush(tc, env.accepted, name, source, target);
    label transferred:
    ln.Close();
    Loader.ClosedOnce(old(tc.log), old@transferred(tc.log), tc.log, ln.dir);
    OnlyTargetChanged(old(tc.fs), old@started(tc.fs), old@transferred(tc.fs), tc.fs, ln.dir, target);
    AcceptedIsPushed(old(tc.fs), old@started(tc.fs), old@transferred(tc.fs), tc.fs, name, source, target, error, stage, sent);
    if error.Some? {
      error := Some(Decorated("fast push failed", error.value));
    }
  }

  /** pushFast: detection and a connection come first. A connection that fails is not a
      SetupError, although nothing has been done. With every command confirmed and an
      undisturbed transfer the result is nil. */
  method PushFast(tc: Device, env: FastEnv, name: seq<Byte>, source: Option<seq<Byte>>, target: string)
    returns (error: Option<Error>, stage: Stage, sent: nat, ghost schedule: seq<PushConnection.Event>)
    requires |name| < 0x1_0000_0000 && (source.Some? ==> |source.value| <= MAX_INT64)
    requires env.nonce.Some? ==> !Under(target, Loader.ScratchDir(env.nonce.value))
    modifies tc
    ensures Pushed(old(tc.fs), tc.fs, name, source, target, error, stage, sent)
    ensures OnlyTargetAndLoader(old(tc.fs), tc.fs, env.nonce, target)
    ensures stage == Detecting <==> !env.detected
    ensures stage == Connecting <==> env.detected && !env.connected
    ensures stage in {Detecting, Connecting} ==> tc.fs == old(tc.fs) && tc.log == old(tc.log)
    ensures ScheduleOf(name, source, ContentOf(old(tc.fs), target), schedule, error.None?, stage)
    ensures tc.errors >= old(tc.errors)
    ensures env.Fine() && Possible(source, target) && tc.errors == old(tc.errors) && PushConnection.Undisturbed(schedule) ==>
      error.None?
    ensures env.Refuses() ==> IsSetup(error)
    ensures !env.Refuses() && !HasControl(target) && tc.errors == old(tc.errors) ==> !IsSetup(error)
  {
    if !env.detected {
      return Some(Setup(Plain("detection"))), Detecting, 0, [];
    }
    if !env.connected {
      return Some(Plain("connect")), Connecting, 0, [];
    }
    error, stage, sent, schedule := PushOverLoader(tc, env, name, source, target);
  }

  // ---------- the fast pull ----------

  /** xfer.Pull: the loader reads `content` from a file whose size it was told to be
      `size`, sends it over a connection that delivers any part of it, and the host
      writes the local file. A nil result means that the local file is the first `size`
      bytes, even if the file has grown in between; after any other error than a failed
      write, and after every SetupError, it is untouched. */
  method PullOverLoader(tc: Device, env: FastEnv, remotePath: string, name: seq<Byte>, content: seq<Byte>, size: int,
                        local: Option<seq<Byte>>, writable: bool)
    returns (error: Option<Error>, stage: Stage, file: Option<seq<Byte>>)
    requires size <= MAX_INT64
    modifies tc
    ensures Pulled(content, size, local, writable, error, stage, file)
    ensures stage !in {Detecting, Connecting}
    ensures old(tc.log) <= tc.log
    ensures env.nonce.Some? ==>
      && Loader.OutsideUnchanged(old(tc.fs), tc.fs, Loader.ScratchDir(env.nonce.value))
      && Loader.Settled(tc.log[|old(tc.log)|..], Loader.ScratchDir(env.nonce.value))
    ensures WasStarted(stage) ==> env.nonce.Some? && LoaderStarted(tc.log[|old(tc.log)|..], env, "pull", remotePath)
    ensures tc.errors >= old(tc.errors)
    ensures env.Serves() && env.quiet && Pullable(content, size, remotePath, writable) && tc.errors == old(tc.errors) ==>
      error.None?
    ensures !env.Serves() ==> IsSetup(error)
    ensures env.Serves() && !HasControl(remotePath) && tc.errors == old(tc.errors) ==> !IsSetup(error)
  {
    var ln, running;
    error, ln, running := StartLoader(tc, env, "pull", remotePath);
    if error.Some? {
      return error, Starting, local;
    }
    label started:
    var e;
    e, file := PullPayload(env.accepted, env.quiet, name, content, size, local, writable);
    ln.Close();
    Loader.ClosedOnce(old(tc.log), old@started(tc.log), tc.log, ln.dir);
    Loader.OutsideTransitive(old(tc.fs), old@started(tc.fs), tc.fs, ln.dir);
    PayloadPulled(content, size, local, writable, env.accepted, e, file);
    return PullError(e), PullStage(e), file;
  }

  lemma PayloadPulled(content: seq<Byte>, size: int, local: Option<seq<Byte>>, writable: bool, accepted: bool,
                      e: Option<Listener.PullError>, file: Option<seq<Byte>>)
    requires e.None? ==> accepted && writable && 0 <= size <= |content| && file == Some(content[..size])
    requires e.Some? && e.value != Listener.NotWritten ==> file == local
    requires e == Some(Listener.NotWritten) ==> !writable
    ensures Pulled(content, size, local, writable, PullError(e), PullStage(e), file)
  {
  }

  function PullStage(e: Option<Listener.PullError>): Stage {
    match e
    case None => Done
    case Some(NotConnected) => Accepting
    case Some(NotWritten) => Reading
    case _ => Transferring
  }

  function PullError(e: Option<Listener.PullError>): (r: Option<Error>)
    ensures r.None? <==> PullStage(e) == Done
    ensures IsSetup(r) <==> BeforeTransfer(PullStage(e))
  {
    match e
    case None => None
    case Some(NotConnected) => Some(Decorated("fast pull failed", Setup(Plain("fileloader did not connect back"))))
    case Some(NotWritten) => Some(Decorated("fast pull failed", Plain("write local file")))
    case _ => Some(Decorated("fast pull failed", Plain("receive")))
  }

  /** The loader read the remote file, and it did not change meanwhile. */
  predicate IsFile(fs: Fs, path: string, content: seq<Byte>, size: int) {
    path in fs.files && content == fs.files[path] && size == |content|
  }

  predicate Pullable(content: seq<Byte>, size: int, remotePath: string, writable: bool) {
    0 <= size <= |content| && !HasControl(remotePath) && writable
  }

  ghost predicate Pulled(content: seq<Byte>, size: int, local: Option<seq<Byte>>, writable: bool, error: Option<Error>,
                         stage: Stage, file: Option<seq<Byte>>) {
    && (error.None? <==> stage == Done)
    && (error.None? ==> writable && 0 <= size <= |content| && file == Some(content[..size]))
    && (IsSetup(error) <==> BeforeTransfer(stage))
    && (stage in {Detecting, Connecting, Starting, Accepting, Transferring} ==> file == local)
    && (stage == Reading ==> !writable)
  }

  /** pullFast */
  method PullFast(tc: Device, env: FastEnv, remotePath: string, name: seq<Byte>, content: seq<Byte>, size: int,
                  local: Option<seq<Byte>>, writable: bool)
    returns (error: Option<Error>, stage: Stage, file: Option<seq<Byte>>)
    requires size <= MAX_INT64
    modifies tc
    ensures Pulled(content, size, local, writable, error, stage, file)
    ensures stage == Detecting <==> !env.detected
    ensures stage == Connecting <==> env.detected && !env.connected
    ensures stage in {Detecting, Connecting} ==> tc.fs == old(tc.fs) && tc.log == old(tc.log)
    ensures error.None? && IsFile(old(tc.fs), remotePath, content, size) ==> file == Some(old(tc.fs).files[remotePath])
    ensures tc.errors >= old(tc.errors)
    ensures env.Fine() && env.quiet && Pullable(content, size, remotePath, writable) && tc.errors == old(tc.errors) ==>
      error.None?
    ensures env.Refuses() ==> IsSetup(error)
    ensures !env.Refuses() && !HasControl(remotePath) && tc.errors == old(tc.errors) ==> !IsSetup(error)
  {
    if !env.detected {
      return Some(Setup(Plain("detection"))), Detecting, local;
    }
    if !env.connected {
      return Some(Plain("connect")), Connecting, local;
    }
    assert content[..|content|] == content;
    error, stage, file := PullOverLoader(tc, env, remotePath, name, content, size, local, writable);
  }

  /** do_pull at one end of a connection and AcceptAndPull at the other. */
  method PullPayload(accepted: bool, quiet: bool, name: seq<Byte>, content: seq<Byte>, size: int,
                     local: Option<seq<Byte>>, writable: bool)
    returns (error: Option<Listener.PullError>, file: Option<seq<Byte>>)
    requires size <= MAX_INT64
    ensures error.None? ==> accepted && writable && 0 <= size <= |content| && file == Some(content[..size])
    ensures error.Some? && error.value != Listener.NotWritten ==> file == local
    ensures error == Some(Listener.NotConnected) <==> !accepted
    ensures error == Some(Listener.NotWritten) ==> !writable
    ensures accepted && quiet && writable && 0 <= size <= |content| ==> error.None?
  {
    var interrupts: nat, inputInterrupts: nat, sockFails: bool, fileFails: bool, opens: bool := *, *, *, *, *;
    var cause: seq<Byte> := *;
    if quiet {
      inputInterrupts, sockFails, fileFails, opens := 0, false, false, true;
    }
    var sock := new Channel([], interrupts, sockFails);
    var input := new Channel(content, inputInterrupts, fileFails);
    var rc := Fileloader.DoPull(sock, input, opens, name, size, cause);
    var reply := sock.out;
    assert reply == reply[0..];
    var k: nat :| k <= |reply| && (quiet ==> k == |reply|);
    assert reply[..|reply|] == reply;
    var conn := new Channel(reply[..k], interrupts, sockFails);
    error, file := Listener.AcceptAndPull(accepted, conn, local, writable);
    if size >= 0 {
      Listener.PullAgrees(name, size, content, reply, k);
    } else {
      Listener.NothingPulled(reply, k);
    }
  }
}
