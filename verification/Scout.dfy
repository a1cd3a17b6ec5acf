/** internal/scout/mode.go and the two commands of internal/scout/scout.go: which transfer
    runs, when the other one may follow, and what a whole push or pull leaves. */
module Scout {
  import opened Text
  import opened Devices
  import opened Upload
  import opened Transfers
  import Fragments
  import Loader
  import PullPrintf
  import PushPrintf
  import PushConnection
  import Telnet
  import WorkerPool

  // ---------- mode.go ----------

  datatype Mode = Auto | Fast | PrintfOnly

  /** What a run of runTransfer leaves: the state, the result and the notices given. */
  datatype Outcome<S> = Outcome(state: S, error: Option<Error>, notices: seq<Error>)

  const REFUSED := Plain("fast mode requires the device to be on the same subnet")

  /** runTransfer. A transfer is what it may do to the state and answer, since two runs of
      the same closure may differ. */
  ghost predicate RunTransfer<S(!new)>(mode: Mode, sameSubnet: bool, fast: (S, S, Option<Error>) -> bool,
                                       printf: (S, S, Option<Error>) -> bool, s: S, r: Outcome<S>) {
    match mode
    case PrintfOnly => printf(s, r.state, r.error) && r.notices == []
    case Fast =>
      if !sameSubnet then r == Outcome(s, Some(REFUSED), [])
      else fast(s, r.state, r.error) && r.notices == []
    case Auto =>
      if !sameSubnet then printf(s, r.state, r.error) && r.notices == []
      else
        || (fast(s, r.state, r.error) && !IsSetup(r.error) && r.notices == [])
        || (exists middle, cause ::
              fast(s, middle, Some(cause)) && AsSetup(cause) && r.notices == [cause] && printf(middle, r.state, r.error))
  }

  /** Whether the printf transfer runs: alone, or after a notice. */
  predicate PrintfRuns(mode: Mode, sameSubnet: bool, notices: seq<Error>) {
    mode.PrintfOnly? || (mode.Auto? && (!sameSubnet || notices != []))
  }

  predicate FastRuns(mode: Mode, sameSubnet: bool) { !mode.PrintfOnly? && sameSubnet }

  lemma RanPrintf<S(!new)>(mode: Mode, sameSubnet: bool, fast: (S, S, Option<Error>) -> bool,
                           printf: (S, S, Option<Error>) -> bool, s: S, t: S, e: Option<Error>)
    requires PrintfRuns(mode, sameSubnet, []) && printf(s, t, e)
    ensures RunTransfer(mode, sameSubnet, fast, printf, s, Outcome(t, e, []))
  {
  }

  lemma RanFast<S(!new)>(mode: Mode, sameSubnet: bool, fast: (S, S, Option<Error>) -> bool,
                         printf: (S, S, Option<Error>) -> bool, s: S, t: S, e: Option<Error>)
    requires FastRuns(mode, sameSubnet) && (mode.Fast? || !IsSetup(e)) && fast(s, t, e)
    ensures RunTransfer(mode, sameSubnet, fast, printf, s, Outcome(t, e, []))
  {
  }

  lemma FellBack<S(!new)>(mode: Mode, sameSubnet: bool, fast: (S, S, Option<Error>) -> bool,
                          printf: (S, S, Option<Error>) -> bool, s: S, middle: S, cause: Error, t: S, e: Option<Error>)
    requires mode.Auto? && sameSubnet && fast(s, middle, Some(cause)) && AsSetup(cause) && printf(middle, t, e)
    ensures RunTransfer(mode, sameSubnet, fast, printf, s, Outcome(t, e, [cause]))
  {
  }

  /** Fallback is safe. Let a SetupError of the fast transfer leave everything that the
      printf transfer relies on (`kept`), and let both keep a promise, the printf transfer
      for the original state even if it starts from a kept one. Then every run keeps the
      promise, and the printf transfer follows the fast one only after a SetupError, of
      which notice is given, and from a kept state. */
  lemma FallbackSafety<S(!new)>(mode: Mode, sameSubnet: bool, fast: (S, S, Option<Error>) -> bool,
                                printf: (S, S, Option<Error>) -> bool, s: S, r: Outcome<S>, kept: (S, S) -> bool,
                                promise: (S, S, Option<Error>) -> bool)
    requires RunTransfer(mode, sameSubnet, fast, printf, s, r)
    requires kept(s, s) && promise(s, s, Some(REFUSED))
    requires forall t, e :: fast(s, t, e) ==> promise(s, t, e) && (IsSetup(e) ==> kept(s, t))
    requires forall m, t, e :: kept(s, m) && printf(m, t, e) ==> promise(s, t, e)
    ensures promise(s, r.state, r.error)
    ensures r.notices != [] ==>
      && mode.Auto? && sameSubnet && |r.notices| == 1 && AsSetup(r.notices[0])
      && exists m :: fast(s, m, Some(r.notices[0])) && kept(s, m) && printf(m, r.state, r.error)
  {
    if r.notices != [] {
      var m, cause :| fast(s, m, Some(cause)) && AsSetup(cause) && r.notices == [cause] && printf(m, r.state, r.error);
      assert kept(s, m);
    }
  }

  // ---------- push ----------

  /** The device, the commands sent to it and what became of them, and the number of bytes
      that were sent to a loader. */
  datatype World = World(fs: Fs, log: seq<Sent>, outcomes: seq<Devices.Outcome>, sent: nat)

  function Now(tc: Device, sent: nat): World reads tc { World(tc.fs, tc.log, tc.outcomes, sent) }

  /** What one push is about. */
  datatype PushJob = PushJob(
    name: seq<Byte>, source: Option<seq<Byte>>, target: string, nonce: Option<string>, nonces: seq<Option<string>>)
  {
    /** Nothing outside the device stands in the way of the printf transfer. */
    predicate Printable(connected: bool) { PushPrintf.Possible(source, connected, nonces, target) }

    /** The same for the fast transfer, and its run is undisturbed. */
    predicate Loadable(env: FastEnv, schedule: seq<PushConnection.Event>) {
      env.Fine() && Possible(source, target) && PushConnection.Undisturbed(schedule)
    }

    /** Lengths fit, and the random names are fresh. */
    ghost predicate Valid(fs: Fs) {
      && |name| < 0x1_0000_0000 && (source.Some? ==> |source.value| <= MAX_INT64)
      && (nonce.Some? ==> !Under(target, Loader.ScratchDir(nonce.value)))
      && |nonces| == WorkerPool.RETRIES && PushPrintf.FreshNonces(fs, nonces, target)
    }
  }

  /** pushFast as a closure. */
  ghost predicate FastPush(j: PushJob, before: World, after: World, error: Option<Error>) {
    exists schedule :: FastRun(j, before, after, error, schedule)
  }

  /** The same, with the schedule of the transfer proper. */
  ghost predicate FastRun(j: PushJob, before: World, after: World, error: Option<Error>,
                          schedule: seq<PushConnection.Event>) {
    && OnlyTargetAndLoader(before.fs, after.fs, j.nonce, j.target)
    && exists stage, sent: nat ::
      && Pushed(before.fs, after.fs, j.name, j.source, j.target, error, stage, sent)
      && ScheduleOf(j.name, j.source, ContentOf(before.fs, j.target), schedule, error.None?, stage)
      && after.sent == before.sent + sent
  }

  /** pushPrintf as a closure. */
  ghost predicate PrintfPush(j: PushJob, before: World, after: World, error: Option<Error>) {
    && after.sent == before.sent
    && (forall p :: p != j.target && !PushPrintf.InScratch(j.nonces, p) ==> SameFile(before.fs, after.fs, p))
    && (match error
        case None => j.source.Some? && after.fs.files == before.fs.files[j.target := j.source.value]
        case Some(e) =>
          && e.Shell? && PrintfFailed(j, before.fs, after, e.outcomes)
          && (e.outcomes.cleanupFailed || forall p :: PushPrintf.InScratch(j.nonces, p) ==> p !in after.fs.files))
  }

  /** What a failed printf transfer leaves in the destination. If the last command but the
      cleanup is the one that was not confirmed, what became of it decides. */
  ghost predicate PrintfFailed(j: PushJob, before: Fs, after: World, o: PushPrintf.Outcomes) {
    match j.source
    case None => SameFile(before, after.fs, j.target)
    case Some(data) =>
      if o.transfer.None? then WorkerPool.FileIs(after.fs, j.target, data)
      else
        var failure, outcome := o.transfer.value, PushPrintf.OutcomeBack(after.outcomes, 1);
        && PushPrintf.TargetAfter(before, after.fs, j.target, data, failure, outcome)
        && (failure.Refused() ==> |after.outcomes| >= 2)
        && (failure.BatchFailed? ==>
              exists scratch ::
                PushPrintf.BatchSent(after.log, 1, Fragments.Transfer(data, scratch), failure.batch, j.target))
  }

  ghost function FastPushes(j: PushJob): (World, World, Option<Error>) -> bool {
    (s, t, e) => FastPush(j, s, t, e)
  }

  ghost function PrintfPushes(j: PushJob): (World, World, Option<Error>) -> bool {
    (s, t, e) => PrintfPush(j, s, t, e)
  }

  /** A SetupError leaves the destination as it was, has sent nothing to the loader, and
      has touched nothing but the loader's directory. */
  ghost predicate Untouched(j: PushJob, before: World, after: World) {
    && after.sent == before.sent && SameFile(before.fs, after.fs, j.target)
    && OnlyTargetAndLoader(before.fs, after.fs, j.nonce, j.target)
  }

  /** What every push promises, whichever transfers run: nil means exactly the data in the
      destination; an error of the printf transfer means what its kind says, any other
      that the destination holds what it held or a beginning of the data; and no other
      file changes outside the scratch directories. */
  ghost predicate PushPromise(j: PushJob, before: World, after: World, error: Option<Error>) {
    && OthersKept(j, before.fs, after.fs)
    && (match error
        case None => j.source.Some? && WorkerPool.FileIs(after.fs, j.target, j.source.value)
        case Some(Shell(o)) => PrintfFailed(j, before.fs, after, o)
        case Some(_) =>
          || SameFile(before.fs, after.fs, j.target)
          || ContentOf(after.fs, j.target) == ContentOf(before.fs, j.target)
          || (j.source.Some? && ContentOf(after.fs, j.target) <= j.source.value))
  }

  ghost predicate OthersKept(j: PushJob, before: Fs, after: Fs) {
    forall p ::
      p != j.target && (j.nonce.Some? ==> !Under(p, Loader.ScratchDir(j.nonce.value))) && !PushPrintf.InScratch(j.nonces, p)
      ==> SameFile(before, after, p)
  }

  /** Scratch directories of the two transfers never overlap. */
  lemma ScratchDisjoint(p: string, a: string, b: string)
    requires Under(p, Loader.ScratchDir(a))
    ensures !Under(p, PushPrintf.ScratchDir(b))
  {
    var l, u := "/tmp/bs-loader-", "/tmp/bs-upload-";
    assert (l + a + "/")[8] == l[8] == 'l';
    assert ("/tmp" + "/bs-upload-" + b + "/")[8] == 'u';
    assert p[8] == 'l';
  }

  /** So the names of the printf transfer are still fresh after the fast one. */
  lemma StillFresh(j: PushJob, before: Fs, middle: Fs)
    requires j.Valid(before) && OnlyTargetAndLoader(before, middle, j.nonce, j.target)
    ensures j.Valid(middle)
  {
    forall i, p | 0 <= i < |j.nonces| && j.nonces[i].Some? && p in middle.files
      ensures !Under(p, PushPrintf.ScratchDir(j.nonces[i].value))
    {
      if p != j.target {
        if j.nonce.Some? && Under(p, Loader.ScratchDir(j.nonce.value)) {
          ScratchDisjoint(p, j.nonce.value, j.nonces[i].value);
        } else {
          assert SameFile(before, middle, p);
        }
      }
    }
  }

  lemma FastRan(j: PushJob, before: World, after: World, error: Option<Error>, stage: Stage,
                schedule: seq<PushConnection.Event>)
    requires before.sent == 0 && Pushed(before.fs, after.fs, j.name, j.source, j.target, error, stage, after.sent)
    requires ScheduleOf(j.name, j.source, ContentOf(before.fs, j.target), schedule, error.None?, stage)
    requires OnlyTargetAndLoader(before.fs, after.fs, j.nonce, j.target)
    ensures FastRun(j, before, after, error, schedule) && FastPush(j, before, after, error)
  {
    assert after.sent == before.sent + after.sent;
    assert FastRun(j, before, after, error, schedule);
  }

  lemma FastKeepsPromise(j: PushJob, s: World, t: World, e: Option<Error>)
    requires FastPush(j, s, t, e)
    ensures PushPromise(j, s, t, e) && (IsSetup(e) ==> Untouched(j, s, t))
  {
  }

  lemma PrintfKeepsPromise(j: PushJob, s: World, m: World, t: World, e: Option<Error>)
    requires Untouched(j, s, m) && PrintfPush(j, m, t, e)
    ensures PushPromise(j, s, t, e)
  {
    forall p | p != j.target && (j.nonce.Some? ==> !Under(p, Loader.ScratchDir(j.nonce.value)))
               && !PushPrintf.InScratch(j.nonces, p)
      ensures SameFile(s.fs, t.fs, p)
    {
      assert SameFile(s.fs, m.fs, p) && SameFile(m.fs, t.fs, p);
    }
  }

  method PushByPrintf(tc: Device, connected: bool, j: PushJob) returns (error: Option<Error>)
    requires j.Valid(tc.fs)
    modifies tc
    ensures PrintfPush(j, old(Now(tc, 0)), Now(tc, 0), error)
    ensures tc.errors >= old(tc.errors)
    ensures tc.errors == old(tc.errors) && j.Printable(connected) ==> error.None?
  {
    var r, scratch := PushPrintf.PushPrintf(tc, j.source, connected, j.nonces, j.target);
    return if r.Nil() then None else Some(Shell(r));
  }

  /** Scout.Push: runTransfer over the two transfers. In every mode, on every network and
      with every failure it keeps the promise; the printf transfer runs after the fast
      one only from an untouched state, and then notice of the SetupError was given. With
      every command confirmed the result is nil, if the last transfer that runs is possible
      and, in the fast one, undisturbed. */
  method Push(tc: Device, mode: Mode, sameSubnet: bool, env: FastEnv, connected: bool, j: PushJob)
    returns (error: Option<Error>, notices: seq<Error>, sent: nat, ghost schedule: seq<PushConnection.Event>)
    requires j.Valid(tc.fs) && j.nonce == env.nonce
    modifies tc
    ensures RunTransfer(mode, sameSubnet, FastPushes(j), PrintfPushes(j), old(Now(tc, 0)),
                        Outcome(Now(tc, sent), error, notices))
    ensures PushPromise(j, old(Now(tc, 0)), Now(tc, sent), error)
    ensures notices != [] ==>
      && mode.Auto? && sameSubnet && |notices| == 1 && AsSetup(notices[0]) && sent == 0
      && exists m ::
        && FastPush(j, old(Now(tc, 0)), m, Some(notices[0])) && Untouched(j, old(Now(tc, 0)), m)
        && PrintfPush(j, m, Now(tc, sent), error)
    ensures mode.Fast? && !sameSubnet ==> tc.fs == old(tc.fs) && tc.log == old(tc.log)
    ensures FastRuns(mode, sameSubnet) && notices == [] ==> FastRun(j, old(Now(tc, 0)), Now(tc, sent), error, schedule)
    ensures tc.errors == old(tc.errors) && PrintfRuns(mode, sameSubnet, notices) && j.Printable(connected) ==> error.None?
    ensures tc.errors == old(tc.errors) && FastRuns(mode, sameSubnet) && j.Loadable(env, schedule) ==> error.None?
    ensures mode.Auto? ==> !IsSetup(error)
    ensures FastRuns(mode, sameSubnet) && env.Refuses() ==> if mode.Auto? then |notices| == 1 else IsSetup(error)
    ensures tc.errors == old(tc.errors) && !env.Refuses() && !HasControl(j.target) ==> notices == []
  {
    ghost var start := Now(tc, 0);
    error, notices, sent, schedule := RunPush(tc, mode, sameSubnet, env, connected, j);
    ghost var fast, printf := FastPushes(j), PrintfPushes(j);
    ghost var kept := (s, t) => Untouched(j, s, t);
    ghost var promise := (s, t, e) => PushPromise(j, s, t, e);
    forall t, e | fast(start, t, e) ensures promise(start, t, e) && (IsSetup(e) ==> kept(start, t)) {
      FastKeepsPromise(j, start, t, e);
    }
    forall m, t, e | kept(start, m) && printf(m, t, e) ensures promise(start, t, e) {
      PrintfKeepsPromise(j, start, m, t, e);
    }
    FallbackSafety(mode, sameSubnet, fast, printf, start, Outcome(Now(tc, sent), error, notices), kept, promise);
  }

  /** The tail of runTransfer: auto mode on the device's own subnet. */
  method PushFallingBack(tc: Device, env: FastEnv, connected: bool, j: PushJob)
    returns (error: Option<Error>, notices: seq<Error>, sent: nat, ghost schedule: seq<PushConnection.Event>)
    requires j.Valid(tc.fs) && j.nonce == env.nonce
    modifies tc
    ensures RunTransfer(Auto, true, FastPushes(j), PrintfPushes(j), old(Now(tc, 0)), Outcome(Now(tc, sent), error, notices))
    ensures notices != [] ==> sent == 0
    ensures notices == [] ==> FastRun(j, old(Now(tc, 0)), Now(tc, sent), error, schedule)
    ensures tc.errors == old(tc.errors) && notices != [] && j.Printable(connected) ==> error.None?
    ensures tc.errors == old(tc.errors) && j.Loadable(env, schedule) ==> error.None?
    ensures !IsSetup(error)
    ensures env.Refuses() ==> |notices| == 1
    ensures tc.errors == old(tc.errors) && !env.Refuses() && !HasControl(j.target) ==> notices == []
  {
    ghost var start := Now(tc, 0);
    var stage: Stage;
    error, stage, sent, schedule := PushFast(tc, env, j.name, j.source, j.target);
    ghost var middle := Now(tc, sent);
    FastRan(j, start, middle, error, stage, schedule);
    if !IsSetup(error) {
      RanFast(Auto, true, FastPushes(j), PrintfPushes(j), start, middle, error);
      return error, [], sent, schedule;
    }
    notices := [error.value];
    StillFresh(j, start.fs, tc.fs);
    error := PushByPrintf(tc, connected, j);
    FellBack(Auto, true, FastPushes(j), PrintfPushes(j), start, middle, notices[0], Now(tc, sent), error);
  }

  /** The switch of runTransfer, with the two transfers in place of its closures. */
  method RunPush(tc: Device, mode: Mode, sameSubnet: bool, env: FastEnv, connected: bool, j: PushJob)
    returns (error: Option<Error>, notices: seq<Error>, sent: nat, ghost schedule: seq<PushConnection.Event>)
    requires j.Valid(tc.fs) && j.nonce == env.nonce
    modifies tc
    ensures RunTransfer(mode, sameSubnet, FastPushes(j), PrintfPushes(j), old(Now(tc, 0)),
                        Outcome(Now(tc, sent), error, notices))
    ensures notices != [] ==> sent == 0
    ensures mode.Fast? && !sameSubnet ==> tc.fs == old(tc.fs) && tc.log == old(tc.log)
    ensures FastRuns(mode, sameSubnet) && notices == [] ==> FastRun(j, old(Now(tc, 0)), Now(tc, sent), error, schedule)
    ensures tc.errors == old(tc.errors) && PrintfRuns(mode, sameSubnet, notices) && j.Printable(connected) ==> error.None?
    ensures tc.errors == old(tc.errors) && FastRuns(mode, sameSubnet) && j.Loadable(env, schedule) ==> error.None?
    ensures mode.Auto? ==> !IsSetup(error)
    ensures FastRuns(mode, sameSubnet) && env.Refuses() ==> if mode.Auto? then |notices| == 1 else IsSetup(error)
    ensures tc.errors == old(tc.errors) && !env.Refuses() && !HasControl(j.target) ==> notices == []
  {
    ghost var start := Now(tc, 0);
    var stage: Stage;
    schedule := [];
    match mode
    case PrintfOnly =>
      error := PushByPrintf(tc, connected, j);
      RanPrintf(mode, sameSubnet, FastPushes(j), PrintfPushes(j), start, Now(tc, 0), error);
      return error, [], 0, [];
    case Fast =>
      if !sameSubnet {
        return Some(REFUSED), [], 0, [];
      }
      error, stage, sent, schedule := PushFast(tc, env, j.name, j.source, j.target);
      FastRan(j, start, Now(tc, sent), error, stage, schedule);
      RanFast(mode, sameSubnet, FastPushes(j), PrintfPushes(j), start, Now(tc, sent), error);
      notices := [];
    case Auto =>
      if !sameSubnet {
        error := PushByPrintf(tc, connected, j);
        RanPrintf(mode, sameSubnet, FastPushes(j), PrintfPushes(j), start, Now(tc, 0), error);
        return error, [], 0, [];
      }
      error, notices, sent, schedule := PushFallingBack(tc, env, connected, j);
  }

  // ---------- pull ----------

  /** What one pull is about: the loader can read `content` from a file whose size it was
      told to be `size`; `writable` tells whether the local file can be written, and
      `session` is what the shell's connection will deliver once it is asked. */
  datatype PullJob = PullJob(
    remotePath: string, name: seq<Byte>, content: seq<Byte>, size: int, writable: bool, session: Telnet.Unread)
  {
    /** Nothing stands in the way of the fast transfer, and it is not disturbed. */
    predicate Loadable(env: FastEnv) { env.Fine() && env.quiet && Pullable(content, size, remotePath, writable) }
  }

  /** pullFast as a closure; the state is the local file. */
  ghost predicate FastPull(j: PullJob, before: Option<seq<Byte>>, after: Option<seq<Byte>>, error: Option<Error>) {
    exists stage :: Pulled(j.content, j.size, before, j.writable, error, stage, after)
  }

  /** `data` is what one of the encoders gave on the session. */
  ghost predicate PrintedBy(j: PullJob, tries: seq<PullPrintf.Try>, data: Option<seq<Byte>>) {
    && tries != [] && PullPrintf.Attempts(tries, j.session, j.remotePath)
    && data.Some? && tries[|tries| - 1].data == data
  }

  /** pullPrintf as a closure. */
  ghost predicate PrintfPull(j: PullJob, before: Option<seq<Byte>>, after: Option<seq<Byte>>, error: Option<Error>) {
    && (error.None? ==> j.writable && exists tries :: PrintedBy(j, tries, after))
    && (error.Some? && j.writable ==> after == before)
    && !IsSetup(error)
  }

  ghost function FastPulls(j: PullJob): (Option<seq<Byte>>, Option<seq<Byte>>, Option<Error>) -> bool {
    (s, t, e) => FastPull(j, s, t, e)
  }

  ghost function PrintfPulls(j: PullJob): (Option<seq<Byte>>, Option<seq<Byte>>, Option<Error>) -> bool {
    (s, t, e) => PrintfPull(j, s, t, e)
  }

  /** What every pull promises: nil means that the local file is the beginning of the
      remote one that its size announced, or what an encoder printed of it on the session;
      an error that the local file is untouched, unless it was the writing that failed. */
  ghost predicate PullPromise(j: PullJob, before: Option<seq<Byte>>, after: Option<seq<Byte>>, error: Option<Error>) {
    && (error.None? ==>
          && j.writable
          && (|| (0 <= j.size <= |j.content| && after == Some(j.content[..j.size]))
              || exists tries :: PrintedBy(j, tries, after)))
    && (error.Some? && j.writable ==> after == before)
  }

  /** The attempts that were made tell how the printf transfer ended. */
  ghost predicate TriesTell(j: PullJob, tries: seq<PullPrintf.Try>, file: Option<seq<Byte>>, error: Option<Error>) {
    tries != [] ==>
      && PullPrintf.Attempts(tries, j.session, j.remotePath)
      && (error.None? ==> file.Some? && file == tries[|tries| - 1].data)
      && (error.Some? && j.writable ==> |tries| == PullPrintf.ENCODERS && tries[|tries| - 1].data.None?)
  }

  /** If the device answers the session in turn, nil means that the local file is the
      remote one; and the result is nil if one encoder prints it on ended lines. */
  lemma PulledInTurn(j: PullJob, tries: seq<PullPrintf.Try>, file: Option<seq<Byte>>, error: Option<Error>,
                     answers: seq<PullPrintf.Answer>, escs: seq<Telnet.Esc>, content: seq<Byte>)
    requires tries != [] && TriesTell(j, tries, file, error)
    requires PullPrintf.AllSent(tries) && PullPrintf.InTurn(tries, answers)
    requires PullPrintf.Conversation(j.session, answers, escs, j.remotePath, content)
    ensures error.None? ==> file == Some(content)
    ensures forall i :: 0 <= i < |answers| && j.writable && PullPrintf.Gives(i, answers[i], content) ==> error.None?
  {
    PullPrintf.ConversationPulls(tries, j.session, answers, escs, j.remotePath, content);
  }

  lemma PulledFile(j: PullJob, file: Option<seq<Byte>>, tries: seq<PullPrintf.Try>)
    requires if tries == [] then j.size == |j.content| && file == Some(j.content[..j.size]) else PrintedBy(j, tries, file)
    requires PullPrintf.AllPrint(tries, j.remotePath, j.content)
    ensures file == Some(j.content)
  {
    if tries == [] {
      assert j.content[..|j.content|] == j.content;
    } else {
      PullPrintf.AllPrintOne(tries, j.remotePath, j.content, j.session);
    }
  }

  lemma PullSafety(mode: Mode, sameSubnet: bool, j: PullJob, local: Option<seq<Byte>>, r: Outcome<Option<seq<Byte>>>)
    requires RunTransfer(mode, sameSubnet, FastPulls(j), PrintfPulls(j), local, r)
    ensures PullPromise(j, local, r.state, r.error)
    ensures r.notices != [] ==>
      && mode.Auto? && sameSubnet && |r.notices| == 1 && AsSetup(r.notices[0])
      && FastPull(j, local, local, Some(r.notices[0])) && PrintfPull(j, local, r.state, r.error)
  {
    var kept := (s: Option<seq<Byte>>, t: Option<seq<Byte>>) => s == t;
    var promise := (s, t, e) => PullPromise(j, s, t, e);
    FallbackSafety(mode, sameSubnet, FastPulls(j), PrintfPulls(j), local, r, kept, promise);
  }

  method PullByPrintf(tc: Telnet.TelnetClient, connected: bool, j: PullJob, local: Option<seq<Byte>>)
    returns (error: Option<Error>, file: Option<seq<Byte>>, ghost tries: seq<PullPrintf.Try>)
    requires tc.Valid() && j.session == tc.Coming()
    modifies tc
    ensures tc.Valid() && !IsSetup(error) && TriesTell(j, tries, file, error)
    ensures error.None? ==> j.writable && PrintedBy(j, tries, file)
    ensures error.Some? && j.writable ==> file == local
    ensures connected <==> tries != []
    ensures if connected then PullPrintf.SentSoFar(tries, old(tc.sent), tc.sent, j.remotePath)
            else error.Some? && tc.sent == old(tc.sent)
  {
    if !connected {
      return Some(Plain("connect")), local, [];
    }
    var e;
    e, file, tries := PullPrintf.PullViaPrintf(tc, j.remotePath, local, j.writable);
    match e
    case None =>
      error := None;
    case Some(NoEncoder) =>
      error := Some(Decorated("no suitable encoder found on device", Plain("pull")));
    case Some(NotWritten) =>
      error := Some(Plain("write local file"));
  }

  lemma FastPulled(j: PullJob, local: Option<seq<Byte>>, file: Option<seq<Byte>>, error: Option<Error>, stage: Stage)
    requires Pulled(j.content, j.size, local, j.writable, error, stage, file)
    ensures FastPull(j, local, file, error)
  {
  }

  lemma PrintfPulled(j: PullJob, local: Option<seq<Byte>>, file: Option<seq<Byte>>, error: Option<Error>,
                     tries: seq<PullPrintf.Try>)
    requires error.None? ==> j.writable && PrintedBy(j, tries, file)
    requires (error.Some? && j.writable ==> file == local) && !IsSetup(error)
    ensures PrintfPull(j, local, file, error)
  {
  }

  /** Scout.Pull: runTransfer over the two transfers. `tries` are the attempts of the
      printf transfer, if it ran. If the remote file does not change, and every attempt
      finds it or a message that is none, then nil means that the local file is it. */
  method Pull(tc: Device, shell: Telnet.TelnetClient, mode: Mode, sameSubnet: bool, env: FastEnv, connected: bool,
              j: PullJob, local: Option<seq<Byte>>)
    returns (error: Option<Error>, notices: seq<Error>, file: Option<seq<Byte>>, ghost tries: seq<PullPrintf.Try>)
    requires shell.Valid() && j.session == shell.Coming() && j.size <= MAX_INT64
    modifies tc, shell
    ensures RunTransfer(mode, sameSubnet, FastPulls(j), PrintfPulls(j), local, Outcome(file, error, notices))
    ensures PullPromise(j, local, file, error)
    ensures error.None? && tries == [] ==> 0 <= j.size <= |j.content| && file == Some(j.content[..j.size])
    ensures error.None? && tries != [] ==> PrintedBy(j, tries, file)
    ensures TriesTell(j, tries, file, error)
    ensures tries != [] <==> PrintfRuns(mode, sameSubnet, notices) && connected
    ensures tries != [] ==> PullPrintf.SentSoFar(tries, old(shell.sent), shell.sent, j.remotePath)
    ensures error.None? && j.size == |j.content| && PullPrintf.AllPrint(tries, j.remotePath, j.content) ==>
      file == Some(j.content)
    ensures notices != [] ==>
      && mode.Auto? && sameSubnet && |notices| == 1 && AsSetup(notices[0])
      && FastPull(j, local, local, Some(notices[0])) && PrintfPull(j, local, file, error)
    ensures tc.errors == old(tc.errors) && FastRuns(mode, sameSubnet) && j.Loadable(env) ==> error.None?
    ensures mode.Auto? ==> !IsSetup(error)
    ensures FastRuns(mode, sameSubnet) && env.Refuses() ==> if mode.Auto? then |notices| == 1 else IsSetup(error)
    ensures tc.errors == old(tc.errors) && !env.Refuses() && !HasControl(j.remotePath) ==> notices == []
  {
    error, notices, file, tries := RunPull(tc, shell, mode, sameSubnet, env, connected, j, local);
    PullSafety(mode, sameSubnet, j, local, Outcome(file, error, notices));
    if error.None? && j.size == |j.content| && PullPrintf.AllPrint(tries, j.remotePath, j.content) {
      PulledFile(j, file, tries);
    }
  }

  /** The tail of runTransfer: auto mode on the device's own subnet. */
  method PullFallingBack(tc: Device, shell: Telnet.TelnetClient, env: FastEnv, connected: bool, j: PullJob,
                         local: Option<seq<Byte>>)
    returns (error: Option<Error>, notices: seq<Error>, file: Option<seq<Byte>>, ghost tries: seq<PullPrintf.Try>)
    requires shell.Valid() && j.session == shell.Coming() && j.size <= MAX_INT64
    modifies tc, shell
    ensures RunTransfer(Auto, true, FastPulls(j), PrintfPulls(j), local, Outcome(file, error, notices))
    ensures error.None? && tries == [] ==> 0 <= j.size <= |j.content| && file == Some(j.content[..j.size])
    ensures TriesTell(j, tries, file, error)
    ensures tries != [] <==> notices != [] && connected
    ensures tries != [] ==> PullPrintf.SentSoFar(tries, old(shell.sent), shell.sent, j.remotePath)
    ensures tc.errors == old(tc.errors) && j.Loadable(env) ==> error.None?
    ensures !IsSetup(error)
    ensures env.Refuses() ==> |notices| == 1
    ensures tc.errors == old(tc.errors) && !env.Refuses() && !HasControl(j.remotePath) ==> notices == []
  {
    var stage: Stage;
    notices, tries := [], [];
    error, stage, file := PullFast(tc, env, j.remotePath, j.name, j.content, j.size, local, j.writable);
    FastPulled(j, local, file, error, stage);
    if !IsSetup(error) {
      RanFast(Auto, true, FastPulls(j), PrintfPulls(j), local, file, error);
      return;
    }
    ghost var middle := file;
    notices := [error.value];
    error, file, tries := PullByPrintf(shell, connected, j, file);
    PrintfPulled(j, middle, file, error, tries);
    FellBack(Auto, true, FastPulls(j), PrintfPulls(j), local, middle, notices[0], file, error);
  }

  method RunPull(tc: Device, shell: Telnet.TelnetClient, mode: Mode, sameSubnet: bool, env: FastEnv, connected: bool,
                 j: PullJob, local: Option<seq<Byte>>)
    returns (error: Option<Error>, notices: seq<Error>, file: Option<seq<Byte>>, ghost tries: seq<PullPrintf.Try>)
    requires shell.Valid() && j.session == shell.Coming() && j.size <= MAX_INT64
    modifies tc, shell
    ensures RunTransfer(mode, sameSubnet, FastPulls(j), PrintfPulls(j), local, Outcome(file, error, notices))
    ensures error.None? && tries == [] ==> 0 <= j.size <= |j.content| && file == Some(j.content[..j.size])
    ensures TriesTell(j, tries, file, error)
    ensures tries != [] <==> PrintfRuns(mode, sameSubnet, notices) && connected
    ensures tries != [] ==> PullPrintf.SentSoFar(tries, old(shell.sent), shell.sent, j.remotePath)
    ensures tc.errors == old(tc.errors) && FastRuns(mode, sameSubnet) && j.Loadable(env) ==> error.None?
    ensures mode.Auto? ==> !IsSetup(error)
    ensures FastRuns(mode, sameSubnet) && env.Refuses() ==> if mode.Auto? then |notices| == 1 else IsSetup(error)
    ensures tc.errors == old(tc.errors) && !env.Refuses() && !HasControl(j.remotePath) ==> notices == []
  {
    var stage: Stage;
    tries := [];
    match mode
    case PrintfOnly =>
      error, file, tries := PullByPrintf(shell, connected, j, local);
      PrintfPulled(j, local, file, error, tries);
      RanPrintf(mode, sameSubnet, FastPulls(j), PrintfPulls(j), local, file, error);
      notices := [];
    case Fast =>
      if !sameSubnet {
        return Some(REFUSED), [], local, [];
      }
      error, stage, file := PullFast(tc, env, j.remotePath, j.name, j.content, j.size, local, j.writable);
      FastPulled(j, local, file, error, stage);
      RanFast(mode, sameSubnet, FastPulls(j), PrintfPulls(j), local, file, error);
      notices := [];
    case Auto =>
      if !sameSubnet {
        error, file, tries := PullByPrintf(shell, connected, j, local);
        PrintfPulled(j, local, file, error, tries);
        RanPrintf(mode, sameSubnet, FastPulls(j), PrintfPulls(j), local, file, error);
        return error, [], file, tries;
      }
      error, notices, file, tries := PullFallingBack(tc, shell, env, connected, j, local);
  }
}
