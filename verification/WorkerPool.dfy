/** internal/scout/push_printf.go:53-115: up to ten workers draining a closed job
    channel, as an interleaving of their atomic steps. Sending is one step for each
    remote command, so commands of different workers interleave freely. */
module WorkerPool {
  import opened Text
  import opened Devices
  import opened Upload
  import opened Fragments

  const THREADS: nat := 10
  const RETRIES: nat := 5

  /** Where a worker stands. `job` is the index of the fragment it holds. */
  datatype Pc =
    | Ranging                                        // receiving from `jobs`
    | Fetched(job: nat)                              // first look at `stopped`
    | Attempting(job: nat, attempt: nat)             // head of the attempt loop
    | Sending(job: nat, attempt: nat, offset: nat)   // next line of UploadData
    | Checking(job: nat, attempt: nat)               // checkFileSize
    | Reporting(job: nat)                            // sending to `results`
    | Stopping                                       // closing `stopped`
    | Finished

  /** An error in `results`: who sent it, and for which fragment. */
  datatype Report = Report(worker: nat, job: nat)

  /** `jobs` is a closed first-in-first-out channel filled in order, so what it
      still holds is the fragments from `next` on. `attempts` holds every fragment as
      often as an attempt at it was started, `log` is the commands that were sent, and
      `failures` counts those that were not confirmed. */
  datatype State = State(
    next: nat, stopped: bool, results: seq<Report>, workers: seq<Pc>, fs: Fs, attempts: multiset<nat>, log: seq<Sent>,
    failures: nat)

  predicate HoldsJob(pc: Pc, j: nat) {
    !pc.Ranging? && !pc.Stopping? && !pc.Finished? && pc.job == j
  }

  function Min(a: nat, b: nat): nat { if a < b then a else b }

  function Init(t: Transfer, fs: Fs): State {
    State(0, false, [], seq(Min(THREADS, t.Total()), i => Ranging), fs, multiset{}, [], 0)
  }

  /** A worker can move unless it has returned or `results` has no room left. */
  predicate Enabled(s: State, w: nat) {
    w < |s.workers| && !s.workers[w].Finished? && (s.workers[w].Reporting? ==> |s.results| < THREADS)
  }

  predicate AllFinished(s: State) {
    forall w :: 0 <= w < |s.workers| ==> s.workers[w].Finished?
  }

  /** After a failed attempt: the next one, or the error report. */
  function Retry(j: nat, a: nat): Pc {
    if a + 1 < RETRIES then Attempting(j, a + 1) else Reporting(j)
  }

  /** The command that a worker sends next, if it does. */
  function Command(t: Transfer, pc: Pc): Option<string>
    requires InRange(t, pc)
  {
    match pc
    case Sending(j, _, i) => Some(LineCommand(t.Chunk(j), i, t.Name(j)))
    case Checking(j, _) => Some(SizeCommand(t.Name(j)))
    case _ => None
  }

  /** What the device makes of it. */
  function Performed(t: Transfer, s: State, w: nat, o: Outcome): (Fs, Reply)
    requires Enabled(s, w) && InRange(t, s.workers[w])
  {
    match Command(t, s.workers[w])
    case Some(command) => Exec(s.fs, command, o)
    case None => (s.fs, Output(""))
  }

  function Logged(t: Transfer, s: State, w: nat, reply: Reply): seq<Sent>
    requires Enabled(s, w) && InRange(t, s.workers[w])
  {
    match Command(t, s.workers[w])
    case Some(command) => s.log + [Sent(command, reply.Output?)]
    case None => s.log
  }

  function Failure(reply: Reply): nat { if reply.Error? then 1 else 0 }

  /** Worker `w` goes on after its command, if any, left `fs` and was answered by `reply`. */
  function Advance(t: Transfer, s: State, w: nat, fs: Fs, reply: Reply): State
    requires Enabled(s, w) && InRange(t, s.workers[w])
  {
    match s.workers[w]
    case Ranging =>
      if s.next < t.Total() then s.(next := s.next + 1, workers := s.workers[w := Fetched(s.next)])
      else s.(workers := s.workers[w := Finished])
    case Fetched(j) =>
      s.(workers := s.workers[w := if s.stopped then Finished else Attempting(j, 0)])
    case Attempting(j, a) =>
      if s.stopped then s.(workers := s.workers[w := Finished])
      else s.(workers := s.workers[w := Sending(j, a, 0)], attempts := s.attempts[j := s.attempts[j] + 1])
    case Sending(j, a, i) =>
      var end := LineEnd(t.Chunk(j), i);
      var pc :=
        if reply.Error? then Retry(j, a)
        else if end < |t.Chunk(j)| then Sending(j, a, end)
        else Checking(j, a);
      s.(fs := fs, workers := s.workers[w := pc], log := Logged(t, s, w, reply), failures := s.failures + Failure(reply))
    case Checking(j, a) =>
      var pc :=
        if reply.Output? && SizeMatches(reply.text, |t.Chunk(j)|) then Ranging
        else Retry(j, a);
      s.(fs := fs, workers := s.workers[w := pc], log := Logged(t, s, w, reply), failures := s.failures + Failure(reply))
    case Reporting(j) =>
      s.(results := s.results + [Report(w, j)], workers := s.workers[w := Stopping])
    case Stopping =>
      s.(stopped := true, workers := s.workers[w := Finished])
    case Finished => s
  }

  /** One step of worker `w`; `o` is how the environment treats its command. */
  function Step(t: Transfer, s: State, w: nat, o: Outcome): State
    requires Enabled(s, w) && InRange(t, s.workers[w])
  {
    var (fs, reply) := Performed(t, s, w, o);
    Advance(t, s, w, fs, reply)
  }

  predicate InRange(t: Transfer, pc: Pc) {
    match pc
    case Ranging | Stopping | Finished => true
    case Fetched(j) => j < t.Total()
    case Attempting(j, a) => j < t.Total() && a < RETRIES
    case Sending(j, a, i) => j < t.Total() && a < RETRIES && i < |t.Chunk(j)|
    case Checking(j, a) => j < t.Total() && a < RETRIES
    case Reporting(j) => j < t.Total()
  }

  // ---------- invariants ----------

  predicate FileIs(fs: Fs, name: string, bytes: seq<Byte>) {
    name in fs.files && fs.files[name] == bytes
  }

  predicate FragmentReady(t: Transfer, fs: Fs, j: nat)
    requires j < t.Total()
  {
    FileIs(fs, t.Name(j), t.Chunk(j))
  }

  /** What a worker knows about the fragment it holds. */
  predicate Progress(t: Transfer, fs: Fs, pc: Pc)
    requires InRange(t, pc)
  {
    match pc
    case Sending(j, _, i) => i > 0 ==> FileIs(fs, t.Name(j), t.Chunk(j)[..i])
    case Checking(j, _) => FragmentReady(t, fs, j)
    case _ => true
  }

  ghost predicate IsFragment(t: Transfer, name: string) {
    exists j :: 0 <= j < t.Total() && name == t.Name(j)
  }

  /** Only fragment files differ from `before`. */
  ghost predicate OnlyFragments(t: Transfer, before: Fs, after: Fs) {
    && after.dirs == before.dirs
    && forall p :: !IsFragment(t, p) ==> SameFile(before, after, p)
  }

  /** The fragment is complete, and its size was checked. */
  ghost predicate Delivered(t: Transfer, s: State, j: nat)
    requires j < t.Total()
  {
    FragmentReady(t, s.fs, j) && Sent(SizeCommand(t.Name(j)), true) in s.log
  }

  ghost predicate Held(s: State, j: nat) {
    exists w :: 0 <= w < |s.workers| && HoldsJob(s.workers[w], j)
  }

  ghost predicate WorkersInv(t: Transfer, s: State) {
    && |s.workers| == Min(THREADS, t.Total())
    && s.next <= t.Total()
    && (forall w :: 0 <= w < |s.workers| ==> InRange(t, s.workers[w]) && Progress(t, s.fs, s.workers[w]))
    && (forall w, j: nat :: 0 <= w < |s.workers| && HoldsJob(s.workers[w], j) ==> j < s.next)
    && (forall v, w, j: nat ::
          0 <= v < |s.workers| && 0 <= w < |s.workers| && HoldsJob(s.workers[v], j) && HoldsJob(s.workers[w], j)
          ==> v == w)
  }

  /** The channel of errors: one entry a worker, which goes on to close `stopped`; and
      never empty once it is closed. */
  ghost predicate ResultsInv(s: State) {
    && (forall i :: 0 <= i < |s.results| ==>
          && s.results[i].worker < |s.workers|
          && (s.workers[s.results[i].worker].Stopping? || (s.workers[s.results[i].worker].Finished? && s.stopped)))
    && (forall i, k :: 0 <= i < k < |s.results| ==> s.results[i].worker != s.results[k].worker)
    && (forall w :: 0 <= w < |s.workers| && s.workers[w].Stopping? ==> s.results != [])
    && (s.stopped ==> s.results != [])
  }

  /** As long as no error is reported, no fragment is lost: it is waiting, held,
      or delivered; and workers only return when nothing is waiting. */
  ghost predicate NoneLost(t: Transfer, s: State)
    requires s.next <= t.Total()
  {
    s.results == [] ==>
      && (forall j :: 0 <= j < s.next ==> Held(s, j) || Delivered(t, s, j))
      && (forall w :: 0 <= w < |s.workers| && s.workers[w].Finished? ==> s.next == t.Total())
  }

  ghost predicate Inv(t: Transfer, before: Fs, s: State) {
    && WorkersInv(t, s)
    && ResultsInv(s)
    && NoneLost(t, s)
    && OnlyFragments(t, before, s.fs)
    && AttemptsInv(t, s)
    && (s.failures == 0 ==> Healthy(s))
  }

  /** Attempts made for the fragment that a worker holds. */
  function Spent(pc: Pc): nat {
    match pc
    case Attempting(_, a) => a
    case Sending(_, a, _) => a + 1
    case Checking(_, a) => a + 1
    case Reporting(_) => RETRIES
    case _ => 0
  }

  /** Each fragment is attempted at most five times, exactly as often as its holder has
      counted, and an error is reported only for one that was attempted five times. */
  ghost predicate AttemptsInv(t: Transfer, s: State) {
    && (forall j :: s.attempts[j] <= RETRIES)
    && (forall j :: j >= s.next ==> s.attempts[j] == 0)
    && (forall w, j: nat :: 0 <= w < |s.workers| && HoldsJob(s.workers[w], j) ==> s.attempts[j] == Spent(s.workers[w]))
    && (forall i :: 0 <= i < |s.results| ==> s.results[i].job < t.Total() && s.attempts[s.results[i].job] == RETRIES)
  }

  /** Nobody has an error to report. */
  predicate Healthy(s: State) {
    && s.results == [] && !s.stopped
    && forall w :: 0 <= w < |s.workers| ==> !s.workers[w].Reporting? && !s.workers[w].Stopping?
  }

  lemma InitInv(t: Transfer, fs: Fs)
    ensures Inv(t, fs, Init(t, fs))
  {
  }

  // ---------- sums over the workers ----------

  /** Bound on the steps left once attempt `a` is over. */
  function After(a: nat): nat
    decreases RETRIES - a
  {
    if a + 1 >= RETRIES then 3 else CHUNK_SIZE + 4 + After(a + 1)
  }

  /** Bound on the steps a worker may still take with the fragment it holds. */
  function Steps(pc: Pc): nat {
    match pc
    case Ranging => 1
    case Fetched(_) => After(0) + CHUNK_SIZE + 3
    case Attempting(_, a) => After(a) + CHUNK_SIZE + 2
    case Sending(_, a, i) => After(a) + 1 + (if i <= CHUNK_SIZE then CHUNK_SIZE - i else 0)
    case Checking(_, a) => After(a)
    case Reporting(_) => 2
    case Stopping => 1
    case Finished => 0
  }

  /** Bound on the steps for `n` fragments still in the channel. */
  function QueueSteps(n: nat): nat {
    if n == 0 then 0 else Steps(Fetched(0)) + QueueSteps(n - 1)
  }

  function Sum(workers: seq<Pc>, weight: Pc -> nat): nat {
    if workers == [] then 0 else weight(workers[0]) + Sum(workers[1..], weight)
  }

  lemma {:induction false} SumUpdate(workers: seq<Pc>, weight: Pc -> nat, w: nat, pc: Pc)
    requires w < |workers|
    ensures Sum(workers[w := pc], weight) + weight(workers[w]) == Sum(workers, weight) + weight(pc)
    decreases |workers|
  {
    if w == 0 {
      assert workers[w := pc][1..] == workers[1..];
    } else {
      SumUpdate(workers[1..], weight, w - 1, pc);
      assert workers[w := pc][1..] == workers[1..][w - 1 := pc];
    }
  }

  /** Fragments still in the channel. */
  function Waiting(t: Transfer, s: State): nat {
    if s.next < t.Total() then t.Total() - s.next else 0
  }

  /** Queued and in-flight work. */
  function Measure(t: Transfer, s: State): nat {
    QueueSteps(Waiting(t, s)) + Sum(s.workers, Steps)
  }

  // ---------- what one step does ----------

  /** The file a step may change: the fragment being sent, and no other. */
  predicate Writes(t: Transfer, pc: Pc, name: string) {
    pc.Sending? && name == t.Name(pc.job)
  }

  /** What the pool needs to know about the device's answer: a line that is confirmed
      extends the fragment, any line touches only that file, and the size of a complete
      fragment, once answered, is accepted. */
  ghost predicate Answered(t: Transfer, s: State, w: nat, fs: Fs, reply: Reply)
    requires Enabled(s, w) && InRange(t, s.workers[w])
  {
    match s.workers[w]
    case Sending(j, _, i) =>
      && OnlyFile(s.fs, fs, t.Name(j))
      && (reply.Output? ==> fs == WithFile(s.fs, t.Name(j), t.Chunk(j)[..LineEnd(t.Chunk(j), i)]))
    case Checking(j, _) =>
      fs == s.fs && (reply.Output? && FragmentReady(t, s.fs, j) ==> SizeMatches(reply.text, |t.Chunk(j)|))
    case _ => fs == s.fs
  }

  lemma SizeAnswered(fs: Fs, name: string, expected: nat, o: Outcome)
    requires expected <= MAX_UINT64
    ensures var (after, reply) := Exec(fs, SizeCommand(name), o);
      && after == fs
      && (reply.Output? && name in fs.files && |fs.files[name]| == expected ==> SizeMatches(reply.text, expected))
  {
    SizeCommandMeaning(name);
    if o.Succeeds? && name in fs.files {
      SizeReplyMatches(o.padding, |fs.files[name]|, expected);
    }
  }

  lemma StepAnswered(t: Transfer, s: State, w: nat, o: Outcome)
    requires Enabled(s, w) && InRange(t, s.workers[w])
    requires Progress(t, s.fs, s.workers[w])
    ensures Answered(t, s, w, Performed(t, s, w, o).0, Performed(t, s, w, o).1)
  {
    match s.workers[w]
    case Sending(j, a, i) => LineEffect(s.fs, t.Chunk(j), i, t.Name(j), o);
    case Checking(j, a) => SizeAnswered(s.fs, t.Name(j), |t.Chunk(j)|, o);
    case _ =>
  }

  lemma StepFrame(t: Transfer, s: State, w: nat, fs: Fs, reply: Reply)
    requires Enabled(s, w) && InRange(t, s.workers[w]) && Answered(t, s, w, fs, reply)
    ensures var r := Advance(t, s, w, fs, reply);
      && |r.workers| == |s.workers| && r.workers == s.workers[w := r.workers[w]] && r.fs.dirs == s.fs.dirs
      && s.log <= r.log && (s.stopped ==> r.stopped)
    ensures forall p :: !Writes(t, s.workers[w], p) ==> SameFile(s.fs, Advance(t, s, w, fs, reply).fs, p)
  {
  }

  lemma StepProgress(t: Transfer, s: State, w: nat, fs: Fs, reply: Reply)
    requires Enabled(s, w) && InRange(t, s.workers[w]) && Answered(t, s, w, fs, reply)
    requires Progress(t, s.fs, s.workers[w])
    ensures var r := Advance(t, s, w, fs, reply);
      |r.workers| == |s.workers| && InRange(t, r.workers[w]) && Progress(t, r.fs, r.workers[w])
  {
    match s.workers[w]
    case Sending(j, a, i) => assert t.Chunk(j)[..|t.Chunk(j)|] == t.Chunk(j);
    case _ =>
  }

  lemma StepJob(t: Transfer, s: State, w: nat, fs: Fs, reply: Reply)
    requires Enabled(s, w) && InRange(t, s.workers[w]) && s.next <= t.Total()
    ensures var r := Advance(t, s, w, fs, reply);
      && |r.workers| == |s.workers|
      && s.next <= r.next <= t.Total()
      && forall j: nat :: HoldsJob(r.workers[w], j) ==> HoldsJob(s.workers[w], j) || (j == s.next && s.next < r.next)
    ensures var r := Advance(t, s, w, fs, reply);
      && (r.next > s.next ==> r.next == s.next + 1 && HoldsJob(r.workers[w], s.next))
      && (r.workers[w].Finished? ==> r.next == t.Total() || s.stopped || s.workers[w].Stopping?)
  {
  }

  /** A worker lets go of a fragment only when it is complete, when its failure
      is reported, or when another failure has stopped the pool. */
  lemma StepLetsGo(t: Transfer, s: State, w: nat, fs: Fs, reply: Reply)
    requires Enabled(s, w) && InRange(t, s.workers[w]) && s.next <= t.Total()
    requires Progress(t, s.fs, s.workers[w]) && Answered(t, s, w, fs, reply)
    ensures var r := Advance(t, s, w, fs, reply);
      && |r.workers| == |s.workers|
      && forall j: nat :: HoldsJob(s.workers[w], j) && !HoldsJob(r.workers[w], j) ==>
           s.stopped || r.results != [] || (j < t.Total() && Delivered(t, r, j) && s.workers[w].Checking?)
    ensures var r := Advance(t, s, w, fs, reply);
      || r.results == s.results
      || (s.workers[w].Reporting? && r.workers[w].Stopping? && r.results == s.results + [Report(w, s.workers[w].job)])
  {
  }

  /** All that the invariants need to know about a step from `s` to `r`. */
  ghost predicate Effect(t: Transfer, s: State, w: nat, r: State)
    requires w < |s.workers| && WorkersInv(t, s)
  {
    && |r.workers| == |s.workers| && r.workers == s.workers[w := r.workers[w]]
    && r.fs.dirs == s.fs.dirs
    && (forall p :: !Writes(t, s.workers[w], p) ==> SameFile(s.fs, r.fs, p))
    && InRange(t, r.workers[w]) && Progress(t, r.fs, r.workers[w])
    && s.next <= r.next <= t.Total()
    && (r.next > s.next ==> r.next == s.next + 1 && HoldsJob(r.workers[w], s.next))
    && (forall j: nat :: HoldsJob(r.workers[w], j) ==> HoldsJob(s.workers[w], j) || (j == s.next && s.next < r.next))
    && (forall j: nat :: HoldsJob(s.workers[w], j) && !HoldsJob(r.workers[w], j) ==>
          s.stopped || r.results != [] || (j < t.Total() && Delivered(t, r, j) && s.workers[w].Checking?))
    && s.log <= r.log && (s.stopped ==> r.stopped)
    && (|| r.results == s.results
        || (s.workers[w].Reporting? && r.workers[w].Stopping? && r.results == s.results + [Report(w, s.workers[w].job)]))
    && (r.workers[w].Finished? ==> r.next == t.Total() || s.stopped || s.workers[w].Stopping?)
  }

  lemma StepEffect(t: Transfer, s: State, w: nat, o: Outcome)
    requires WorkersInv(t, s) && Enabled(s, w)
    ensures Effect(t, s, w, Step(t, s, w, o))
  {
    var (fs, reply) := Performed(t, s, w, o);
    StepAnswered(t, s, w, o);
    StepFrame(t, s, w, fs, reply);
    StepProgress(t, s, w, fs, reply);
    StepJob(t, s, w, fs, reply);
    StepLetsGo(t, s, w, fs, reply);
  }

  lemma EffectWorkersInv(t: Transfer, s: State, w: nat, r: State)
    requires w < |s.workers| && WorkersInv(t, s) && Effect(t, s, w, r)
    ensures WorkersInv(t, r)
  {
    forall v | 0 <= v < |r.workers|
      ensures InRange(t, r.workers[v]) && Progress(t, r.fs, r.workers[v])
    {
      if v != w {
        OthersKeepProgress(t, s, w, r, v);
      }
    }
  }

  lemma OthersKeepProgress(t: Transfer, s: State, w: nat, r: State, v: nat)
    requires w < |s.workers| && WorkersInv(t, s) && Effect(t, s, w, r)
    requires v < |s.workers| && v != w
    ensures Progress(t, r.fs, s.workers[v])
  {
    var pc := s.workers[v];
    if pc.Sending? || pc.Checking? {
      if s.workers[w].Sending? {
        assert HoldsJob(s.workers[w], s.workers[w].job) && HoldsJob(pc, pc.job);
        NamesDiffer(t, pc.job, s.workers[w].job);
      }
      assert SameFile(s.fs, r.fs, t.Name(pc.job));
    }
  }

  lemma StepStops(t: Transfer, s: State, w: nat, fs: Fs, reply: Reply)
    requires Enabled(s, w) && InRange(t, s.workers[w])
    ensures var r := Advance(t, s, w, fs, reply);
      && |r.workers| == |s.workers|
      && (r.workers[w].Stopping? ==> s.workers[w].Reporting? && r.results != [])
      && (r.stopped ==> s.stopped || s.workers[w].Stopping?)
      && (s.workers[w].Stopping? ==> r.workers[w].Finished? && r.stopped)
  {
  }

  lemma StepResultsInv(t: Transfer, s: State, w: nat, fs: Fs, reply: Reply)
    requires WorkersInv(t, s) && ResultsInv(s) && Enabled(s, w)
    requires Effect(t, s, w, Advance(t, s, w, fs, reply))
    ensures ResultsInv(Advance(t, s, w, fs, reply))
  {
    StepStops(t, s, w, fs, reply);
    EffectResultsInv(t, s, w, Advance(t, s, w, fs, reply));
  }

  lemma EffectResultsInv(t: Transfer, s: State, w: nat, r: State)
    requires w < |s.workers| && WorkersInv(t, s) && ResultsInv(s) && Effect(t, s, w, r) && !s.workers[w].Finished?
    requires r.workers[w].Stopping? ==> s.workers[w].Reporting? && r.results != []
    requires r.stopped ==> s.stopped || s.workers[w].Stopping?
    requires s.workers[w].Stopping? ==> r.workers[w].Finished? && r.stopped
    ensures ResultsInv(r)
  {
  }

  /** A fragment that is delivered and held by nobody stays so; the one a worker lets go
      is delivered, or its failure has been reported. */
  lemma EffectNoneLost(t: Transfer, s: State, w: nat, r: State)
    requires w < |s.workers| && WorkersInv(t, s) && ResultsInv(s) && NoneLost(t, s) && Effect(t, s, w, r)
    ensures NoneLost(t, r)
  {
    if r.results == [] {
      assert s.results == [];
      forall j | 0 <= j < r.next ensures Held(r, j) || Delivered(t, r, j) {
        JobNotLost(t, s, w, r, j);
      }
    }
  }

  lemma JobNotLost(t: Transfer, s: State, w: nat, r: State, j: nat)
    requires w < |s.workers| && WorkersInv(t, s) && ResultsInv(s) && NoneLost(t, s) && Effect(t, s, w, r)
    requires r.results == [] && j < r.next
    ensures Held(r, j) || Delivered(t, r, j)
  {
    if HoldsJob(r.workers[w], j) {
    } else if HoldsJob(s.workers[w], j) {
      assert SameFile(s.fs, r.fs, t.Name(j));
    } else if Held(s, j) {
      var v :| 0 <= v < |s.workers| && HoldsJob(s.workers[v], j);
      assert HoldsJob(r.workers[v], j);
    } else {
      if s.workers[w].Sending? {
        NamesDiffer(t, s.workers[w].job, j);
      }
      assert SameFile(s.fs, r.fs, t.Name(j));
    }
  }

  lemma EffectOnlyFragments(t: Transfer, before: Fs, s: State, w: nat, r: State)
    requires w < |s.workers| && WorkersInv(t, s) && OnlyFragments(t, before, s.fs) && Effect(t, s, w, r)
    ensures OnlyFragments(t, before, r.fs)
  {
    forall p | !IsFragment(t, p) ensures SameFile(before, r.fs, p) {
      assert !Writes(t, s.workers[w], p);
      assert SameFile(before, s.fs, p) && SameFile(s.fs, r.fs, p);
    }
  }

  /** The weights of the worker that moved, before and after. */
  lemma StepWeights(t: Transfer, s: State, w: nat, fs: Fs, reply: Reply)
    requires Enabled(s, w) && InRange(t, s.workers[w]) && s.next <= t.Total()
    ensures var r := Advance(t, s, w, fs, reply);
      && |r.workers| == |s.workers| && r.workers == s.workers[w := r.workers[w]]
      && QueueSteps(Waiting(t, r)) + Steps(r.workers[w]) < QueueSteps(Waiting(t, s)) + Steps(s.workers[w])
  {
    match s.workers[w]
    case Sending(j, a, i) => RetryWeights(j, a);
    case Checking(j, a) => RetryWeights(j, a);
    case _ =>
  }

  lemma RetryWeights(j: nat, a: nat)
    requires a < RETRIES
    ensures Steps(Retry(j, a)) < After(a)
  {
  }

  /** A step counts an attempt at most at the fragment its worker holds. */
  lemma StepSpends(t: Transfer, s: State, w: nat, fs: Fs, reply: Reply)
    requires Enabled(s, w) && InRange(t, s.workers[w]) && s.attempts[s.next] == 0
    requires forall j: nat :: HoldsJob(s.workers[w], j) ==> s.attempts[j] == Spent(s.workers[w])
    ensures var r := Advance(t, s, w, fs, reply);
      && |r.workers| == |s.workers|
      && (forall j: nat :: HoldsJob(r.workers[w], j) ==> r.attempts[j] == Spent(r.workers[w]))
      && (forall j :: !HoldsJob(s.workers[w], j) ==> r.attempts[j] == s.attempts[j])
      && (forall j :: s.attempts[j] <= RETRIES ==> s.attempts[j] <= r.attempts[j] <= RETRIES)
  {
  }

  lemma StepAttempts(t: Transfer, s: State, w: nat, fs: Fs, reply: Reply)
    requires WorkersInv(t, s) && AttemptsInv(t, s) && Enabled(s, w)
    requires Effect(t, s, w, Advance(t, s, w, fs, reply))
    ensures AttemptsInv(t, Advance(t, s, w, fs, reply))
  {
    StepSpends(t, s, w, fs, reply);
    EffectAttempts(t, s, w, Advance(t, s, w, fs, reply));
  }

  lemma EffectAttempts(t: Transfer, s: State, w: nat, r: State)
    requires w < |s.workers| && WorkersInv(t, s) && AttemptsInv(t, s) && Effect(t, s, w, r)
    requires forall j: nat :: HoldsJob(r.workers[w], j) ==> r.attempts[j] == Spent(r.workers[w])
    requires forall j :: !HoldsJob(s.workers[w], j) ==> r.attempts[j] == s.attempts[j]
    requires forall j :: s.attempts[j] <= RETRIES ==> s.attempts[j] <= r.attempts[j] <= RETRIES
    ensures AttemptsInv(t, r)
  {
    forall j | j >= r.next ensures r.attempts[j] == 0 {
      assert !HoldsJob(s.workers[w], j);
    }
  }

  /** Nobody comes to report an error without a failure: a confirmed upload is a complete
      fragment, and its size is confirmed as well. */
  lemma StepGivesUp(t: Transfer, s: State, w: nat, fs: Fs, reply: Reply)
    requires Enabled(s, w) && InRange(t, s.workers[w]) && Progress(t, s.fs, s.workers[w]) && Answered(t, s, w, fs, reply)
    ensures var r := Advance(t, s, w, fs, reply);
      && |r.workers| == |s.workers| && s.failures <= r.failures
      && (r.workers[w].Reporting? ==> s.failures < r.failures)
  {
  }

  lemma StepHealthy(t: Transfer, s: State, w: nat, fs: Fs, reply: Reply)
    requires WorkersInv(t, s) && Enabled(s, w) && Answered(t, s, w, fs, reply)
    requires Effect(t, s, w, Advance(t, s, w, fs, reply))
    requires s.failures == 0 ==> Healthy(s)
    ensures var r := Advance(t, s, w, fs, reply); r.failures == 0 ==> Healthy(r)
  {
    StepGivesUp(t, s, w, fs, reply);
    StepStops(t, s, w, fs, reply);
    EffectHealthy(t, s, w, Advance(t, s, w, fs, reply));
  }

  lemma EffectHealthy(t: Transfer, s: State, w: nat, r: State)
    requires w < |s.workers| && WorkersInv(t, s) && Effect(t, s, w, r) && s.failures <= r.failures
    requires s.failures == 0 ==> Healthy(s)
    requires r.workers[w].Reporting? ==> s.failures < r.failures
    requires r.workers[w].Stopping? ==> s.workers[w].Reporting? && r.results != []
    requires r.stopped ==> s.stopped || s.workers[w].Stopping?
    ensures r.failures == 0 ==> Healthy(r)
  {
  }

  // ---------- the theorems about the pool ----------

  lemma StepInv(t: Transfer, before: Fs, s: State, w: nat, o: Outcome)
    requires Inv(t, before, s) && Enabled(s, w)
    ensures Inv(t, before, Step(t, s, w, o))
  {
    var r := Step(t, s, w, o);
    StepEffect(t, s, w, o);
    EffectWorkersInv(t, s, w, r);
    var (fs, reply) := Performed(t, s, w, o);
    StepAnswered(t, s, w, o);
    StepResultsInv(t, s, w, fs, reply);
    StepAttempts(t, s, w, fs, reply);
    StepHealthy(t, s, w, fs, reply);
    EffectNoneLost(t, s, w, r);
    EffectOnlyFragments(t, before, s, w, r);
  }

  /** Queued and in-flight work strictly decreases, so every schedule is finite. */
  lemma StepDecreases(t: Transfer, s: State, w: nat, o: Outcome)
    requires WorkersInv(t, s) && Enabled(s, w)
    ensures Measure(t, Step(t, s, w, o)) < Measure(t, s)
  {
    StepWeights(t, s, w, Performed(t, s, w, o).0, Performed(t, s, w, o).1);
    SumUpdate(s.workers, Steps, w, Step(t, s, w, o).workers[w]);
  }

  /** No worker ever blocks: `results` always has room for its error. */
  lemma NeverBlocks(t: Transfer, before: Fs, s: State, w: nat)
    requires Inv(t, before, s) && w < |s.workers| && !s.workers[w].Finished?
    ensures Enabled(s, w)
  {
    if s.workers[w].Reporting? {
      DistinctBelow(Senders(s.results) + [w], |s.workers|);
    }
  }

  function Senders(results: seq<Report>): seq<nat> {
    seq(|results|, i requires 0 <= i < |results| => results[i].worker)
  }

  /** Distinct numbers below a bound are at most that many. */
  lemma {:induction false} DistinctBelow(xs: seq<nat>, bound: nat)
    requires forall i :: 0 <= i < |xs| ==> xs[i] < bound
    requires forall i, k :: 0 <= i < k < |xs| ==> xs[i] != xs[k]
    ensures |xs| <= bound
    decreases bound
  {
    if k: nat :| 0 <= k < |xs| && xs[k] == bound - 1 {
      DistinctBelow(xs[..k] + xs[k + 1..], bound - 1);
    } else if xs != [] {
      assert xs[0] < bound - 1;
      DistinctBelow(xs, bound - 1);
    }
  }

  /** When the workers are joined and no error was collected, every fragment file
      holds exactly its part of the data, and its size was confirmed. */
  lemma JoinedMeansReady(t: Transfer, before: Fs, s: State)
    requires Inv(t, before, s) && AllFinished(s) && s.results == []
    ensures forall j :: 0 <= j < t.Total() ==> FragmentReady(t, s.fs, j) && Sent(SizeCommand(t.Name(j)), true) in s.log
  {
    forall j | 0 <= j < t.Total()
      ensures FragmentReady(t, s.fs, j) && Sent(SizeCommand(t.Name(j)), true) in s.log
    {
      assert s.workers[0].Finished?;
      assert s.next == t.Total();
      assert !Held(s, j);
    }
  }

  /** A run: any sequence of worker and environment choices. */
  function Run(t: Transfer, s: State, schedule: seq<(nat, Outcome)>): State
    decreases |schedule|
  {
    if schedule == [] then s
    else
      var (w, o) := schedule[0];
      if Enabled(s, w) && InRange(t, s.workers[w]) then Run(t, Step(t, s, w, o), schedule[1..])
      else Run(t, s, schedule[1..])
  }

  lemma {:induction false} RunInv(t: Transfer, before: Fs, s: State, schedule: seq<(nat, Outcome)>)
    requires Inv(t, before, s)
    ensures Inv(t, before, Run(t, s, schedule))
    decreases |schedule|
  {
    if schedule != [] {
      var (w, o) := schedule[0];
      if Enabled(s, w) && InRange(t, s.workers[w]) {
        StepInv(t, before, s, w, o);
        RunInv(t, before, Step(t, s, w, o), schedule[1..]);
      } else {
        RunInv(t, before, s, schedule[1..]);
      }
    }
  }

  /** In every interleaving of the workers and every pattern of failures: at most five
      attempts at any fragment; an error only for a fragment that was attempted five
      times, and only if some command was not confirmed; one in `results` once `stopped`
      is closed; and if all workers have returned, either an error was reported and
      `stopped` is closed, or every fragment is complete and the device has confirmed the
      size of each. Files that are not fragments are never touched. */
  lemma PoolCorrect(t: Transfer, fs: Fs, schedule: seq<(nat, Outcome)>)
    ensures var s := Run(t, Init(t, fs), schedule);
      && (forall j :: s.attempts[j] <= 5)
      && (forall r :: r in s.results ==> r.job < t.Total() && s.attempts[r.job] == 5)
      && (s.results != [] ==> s.failures > 0)
      && |s.results| <= THREADS
      && (s.stopped ==> s.results != [])
      && OnlyFragments(t, fs, s.fs)
      && (AllFinished(s) && s.results == [] ==>
            forall j :: 0 <= j < t.Total() ==> FragmentReady(t, s.fs, j) && Sent(SizeCommand(t.Name(j)), true) in s.log)
      && (AllFinished(s) && s.results != [] ==> s.stopped)
  {
    InitInv(t, fs);
    RunInv(t, fs, Init(t, fs), schedule);
    var s := Run(t, Init(t, fs), schedule);
    DistinctBelow(Senders(s.results), |s.workers|);
    if AllFinished(s) {
      if s.results == [] {
        JoinedMeansReady(t, fs, s);
      } else {
        assert s.workers[s.results[0].worker].Finished?;
      }
    }
  }

  /** Once `stopped` is closed, nobody starts another attempt. */
  lemma {:induction false} StoppedRun(t: Transfer, s: State, schedule: seq<(nat, Outcome)>)
    requires s.stopped
    ensures Run(t, s, schedule).stopped && Run(t, s, schedule).attempts == s.attempts
    decreases |schedule|
  {
    if schedule != [] {
      var (w, o) := schedule[0];
      if Enabled(s, w) && InRange(t, s.workers[w]) {
        StoppedRun(t, Step(t, s, w, o), schedule[1..]);
      } else {
        StoppedRun(t, s, schedule[1..]);
      }
    }
  }

  /** A worker does not go by the exit status alone: a fragment of which the device
      reports another size is sent again, or given up. */
  lemma WrongSizeIsRetried(t: Transfer, s: State, w: nat, fs: Fs, padding: nat, size: nat)
    requires Enabled(s, w) && InRange(t, s.workers[w]) && s.workers[w].Checking?
    requires |t.Chunk(s.workers[w].job)| <= MAX_UINT64 && size != |t.Chunk(s.workers[w].job)|
    ensures var r := Advance(t, s, w, fs, Output(SizeReply(padding, size)));
      |r.workers| == |s.workers| && r.workers[w] == Retry(s.workers[w].job, s.workers[w].attempt)
  {
    SizeReplyMatches(padding, size, |t.Chunk(s.workers[w].job)|);
  }
}
