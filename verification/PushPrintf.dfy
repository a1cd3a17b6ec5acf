/** internal/scout/push_printf.go: a whole push through the shell. */
module PushPrintf {
  import opened Text
  import Shell
  import opened Devices
  import opened Upload
  import opened Fragments
  import opened WorkerPool

  const JOIN_BATCH: nat := 4
  const TMP_DIR := "/tmp"

  datatype Failure =
    | InvalidPath | LocalRead | NoClient | NoScratch | FragmentFailed
    | TruncateFailed | InvalidFragmentName(batch: nat) | BatchFailed(batch: nat) | SizeMismatch
  {
    /** A command that writes the destination was not confirmed. */
    predicate Refused() { TruncateFailed? || BatchFailed? }
  }

  /** errors.Join of the transfer's own error and the cleanup's. */
  datatype Outcomes = Outcomes(transfer: Option<Failure>, cleanupFailed: bool) {
    predicate Nil() { transfer.None? && !cleanupFailed }
  }

  // ---------- contents of a list of files ----------

  predicate AllPresent(fs: Fs, names: seq<string>) {
    forall i :: 0 <= i < |names| ==> names[i] in fs.files
  }

  lemma {:induction false} ContentsAppend(files: map<string, seq<Byte>>, a: seq<string>, b: seq<string>)
    requires forall i :: 0 <= i < |a| ==> a[i] in files
    requires forall i :: 0 <= i < |b| ==> b[i] in files
    ensures forall i :: 0 <= i < |a + b| ==> (a + b)[i] in files
    ensures Contents(files, a + b) == Contents(files, a) + Contents(files, b)
    decreases |a|
  {
    if a == [] {
      assert a + b == b;
      assert Contents(files, a) == [];
    } else {
      ContentsAppend(files, a[1..], b);
      assert (a + b)[1..] == a[1..] + b;
    }
  }

  lemma {:induction false} ContentsFrame(files: map<string, seq<Byte>>, names: seq<string>, t: string, bytes: seq<Byte>)
    requires forall i :: 0 <= i < |names| ==> names[i] in files
    requires t !in names
    ensures Contents(files[t := bytes], names) == Contents(files, names)
    decreases |names|
  {
    if names != [] {
      assert names[0] != t;
      ContentsFrame(files, names[1..], t, bytes);
    }
  }

  function Names(t: Transfer, n: nat): seq<string> {
    seq(n, i requires 0 <= i < n => t.Name(i))
  }

  lemma NamesPresent(t: Transfer, fs: Fs, n: nat)
    requires n <= t.Total()
    requires forall j :: 0 <= j < t.Total() ==> FragmentReady(t, fs, j)
    ensures AllPresent(fs, Names(t, n))
  {
    forall i | 0 <= i < n ensures Names(t, n)[i] in fs.files {
      assert FragmentReady(t, fs, i);
    }
  }

  lemma OneFragmentMore(t: Transfer, fs: Fs, n: nat)
    requires n < t.Total() && FragmentReady(t, fs, n) && AllPresent(fs, Names(t, n))
    requires Contents(fs.files, Names(t, n)) == t.data[..t.Offset(n)]
    ensures AllPresent(fs, Names(t, n + 1)) && Contents(fs.files, Names(t, n + 1)) == t.data[..t.Offset(n + 1)]
  {
    assert Names(t, n + 1) == Names(t, n) + [t.Name(n)];
    ContentsAppend(fs.files, Names(t, n), [t.Name(n)]);
    ContentsOfOne(fs.files, t.Name(n));
    ChunkExtends(t, n);
  }

  /** Complete fragments, read in order, are the data from its start. */
  lemma {:induction false} FragmentsInOrder(t: Transfer, fs: Fs, n: nat)
    requires n <= t.Total()
    requires forall j :: 0 <= j < t.Total() ==> FragmentReady(t, fs, j)
    ensures AllPresent(fs, Names(t, n))
    ensures Contents(fs.files, Names(t, n)) == t.data[..t.Offset(n)]
  {
    NamesPresent(t, fs, n);
    if n > 0 {
      FragmentsInOrder(t, fs, n - 1);
      assert FragmentReady(t, fs, n - 1);
      OneFragmentMore(t, fs, n - 1);
    }
  }

  lemma ContentsOfOne(files: map<string, seq<Byte>>, name: string)
    requires name in files
    ensures Contents(files, [name]) == files[name]
  {
    assert [name][1..] == [];
  }

  lemma ChunkExtends(t: Transfer, j: nat)
    requires j < t.Total()
    ensures t.data[..t.Offset(j)] + t.Chunk(j) == t.data[..t.Offset(j + 1)]
  {
    assert t.Offset(j) == j * CHUNK_SIZE;
  }

  lemma {:induction false} OperandsAppend(values: seq<string>, value: string)
    ensures Shell.QuotedOperands(values + [value]) == Shell.QuotedOperands(values) + " " + Shell.ShellQuote(value)
    decreases |values|
  {
    if values == [] {
      assert values + [value] == [value] && [value][1..] == [];
    } else {
      assert (values + [value])[1..] == values[1..] + [value];
      OperandsAppend(values[1..], value);
    }
  }

  // ---------- joinChunks ----------

  function BatchEnd(list: seq<string>, start: nat): nat {
    if start + JOIN_BATCH > |list| then |list| else start + JOIN_BATCH
  }

  lemma CatEffect(fs: Fs, command: string, names: seq<string>, target: string, o: Outcome)
    requires Meaning(command) == Cat(names, target)
    ensures var (after, reply) := Exec(fs, command, o);
      && OnlyFile(fs, after, target)
      && (reply.Error? && Unwritten(o) ==> after == fs)
      && (reply.Output? ==> AllPresent(fs, names) && target !in names && target in after.files)
      && (reply.Output? && target in fs.files ==>
            after == WithFile(fs, target, fs.files[target] + Contents(fs.files, names)))
  {
  }

  /** A confirmed batch adds its fragments to those of the earlier batches. */
  lemma AppendBatch(before: Fs, fs: Fs, done: seq<string>, batch: seq<string>, target: string)
    requires AllPresent(before, done) && target !in done
    requires fs == WithFile(before, target, Contents(before.files, done))
    requires AllPresent(fs, batch) && target !in batch
    ensures AllPresent(before, done + batch) && target !in done + batch
    ensures fs.files[target] + Contents(fs.files, batch) == Contents(before.files, done + batch)
  {
    forall i | 0 <= i < |batch| ensures batch[i] in before.files {
      assert batch[i] in fs.files && batch[i] != target;
    }
    ContentsFrame(before.files, batch, target, fs.files[target]);
    ContentsAppend(before.files, done, batch);
  }

  /** The command of one batch, written operand by operand; None when a name
      cannot be sent. */
  method BuildJoin(list: seq<string>, start: nat, end: nat, target: string) returns (command: Option<string>)
    requires start <= end <= |list|
    ensures command.Some? ==> command.value == JoinCommand(list[start..end], target)
    ensures command.None? <==> exists i :: start <= i < end && HasControl(list[i])
  {
    var text := "cat";
    var i := start;
    assert Shell.QuotedOperands(list[start..start]) == [];
    while i < end
      invariant start <= i <= end
      invariant text == "cat" + Shell.QuotedOperands(list[start..i])
      invariant forall k :: start <= k < i ==> !HasControl(list[k])
    {
      if HasControl(list[i]) {
        return None;
      }
      OperandsAppend(list[start..i], list[i]);
      assert list[start..i + 1] == list[start..i] + [list[i]];
      text := text + " " + Shell.ShellQuote(list[i]);
      i := i + 1;
    }
    return Some(text + " >> " + Shell.ShellQuote(target));
  }

  /** Builds and runs the command of one batch; None when a name cannot be sent. */
  method JoinBatch(tc: Device, list: seq<string>, start: nat, end: nat, target: string) returns (reply: Option<Reply>)
    requires start < end <= |list|
    modifies tc`fs, tc`log, tc`outcomes, tc`errors
    ensures OnlyFile(old(tc.fs), tc.fs, target)
    ensures reply.None? ==> tc.fs == old(tc.fs) && exists i :: start <= i < end && HasControl(list[i])
    ensures reply.Some? && reply.value.Output? ==> AllPresent(old(tc.fs), list[start..end]) && target !in list[start..end]
    ensures reply.Some? && reply.value.Output? && target in old(tc.fs).files ==>
      tc.fs == WithFile(old(tc.fs), target, old(tc.fs).files[target] + Contents(old(tc.fs).files, list[start..end]))
    ensures tc.errors == old(tc.errors) + (if reply == Some(Error) then 1 else 0)
    ensures old(tc.outcomes) <= tc.outcomes
    ensures reply.Some? ==>
      && |tc.outcomes| == |old(tc.outcomes)| + 1
      && tc.log == old(tc.log) + [Sent(JoinCommand(list[start..end], target), reply.value.Output?)]
      && (reply.value.Error? && Unwritten(tc.Last()) ==> tc.fs == old(tc.fs))
  {
    var command := BuildJoin(list, start, end, target);
    if command.None? {
      return None;
    }
    var r := tc.ExecuteChecked(command.value);
    JoinCommandMeaning(list[start..end], target);
    CatEffect(old(tc.fs), command.value, list[start..end], target, tc.Last());
    return Some(r);
  }

  /** How the last command but `k` was treated. */
  function OutcomeBack(outcomes: seq<Outcome>, k: nat): Outcome {
    if k < |outcomes| then outcomes[|outcomes| - 1 - k] else Succeeds(0)
  }

  function Batch(list: seq<string>, k: nat): seq<string> {
    if k * JOIN_BATCH < |list| then list[k * JOIN_BATCH..BatchEnd(list, k * JOIN_BATCH)] else []
  }

  /** The commands of the first `n` batches, all confirmed. */
  function Joins(list: seq<string>, target: string, n: nat): seq<Sent> {
    seq(n, k requires 0 <= k < n => Sent(JoinCommand(Batch(list, k), target), true))
  }

  function Batches(n: nat): nat { (n + JOIN_BATCH - 1) / JOIN_BATCH }

  /** What joining a list of files sends. */
  function JoinLog(list: seq<string>, target: string): seq<Sent> {
    [Sent(TruncateCommand(target), true)] + Joins(list, target, Batches(|list|))
  }

  /** The batches one after the other, onto a destination that was emptied since `before`. */
  method AppendBatches(tc: Device, list: seq<string>, target: string, ghost before: Fs) returns (failure: Option<Failure>)
    requires tc.fs == WithFile(before, target, [])
    modifies tc`fs, tc`log, tc`outcomes, tc`errors
    ensures OnlyFile(before, tc.fs, target)
    ensures failure.None? ==>
      && AllPresent(before, list) && target !in list
      && tc.fs == WithFile(before, target, Contents(before.files, list))
      && tc.log == old(tc.log) + Joins(list, target, Batches(|list|))
    ensures failure.Some? ==> failure.value.BatchFailed? || failure.value.InvalidFragmentName?
    ensures failure.Some? ==>
      var n := failure.value.batch * JOIN_BATCH;
      && n < |list| && AllPresent(before, list[..n]) && target !in list[..n]
      && (failure.value.InvalidFragmentName? || Unwritten(OutcomeBack(tc.outcomes, 0)) ==>
            tc.fs == WithFile(before, target, Contents(before.files, list[..n])))
    ensures failure.Some? && failure.value.InvalidFragmentName? ==> exists i :: 0 <= i < |list| && HasControl(list[i])
    ensures failure.Some? && failure.value.BatchFailed? ==>
      tc.log != [] && tc.log[|tc.log| - 1] == Sent(JoinCommand(Batch(list, failure.value.batch), target), false)
    ensures old(tc.outcomes) <= tc.outcomes
    ensures tc.errors == old(tc.errors) + (if failure.Some? && failure.value.Refused() then 1 else 0)
  {
    var start, batches := 0, 0;
    assert list[..0] == [] && Contents(before.files, []) == [] && Joins(list, target, 0) == [];
    while start < |list|
      invariant start <= |list| && (start < |list| ==> start == batches * JOIN_BATCH) && batches == Batches(start)
      invariant AllPresent(before, list[..start]) && target !in list[..start]
      invariant tc.fs == WithFile(before, target, Contents(before.files, list[..start]))
      invariant tc.errors == old(tc.errors) && old(tc.outcomes) <= tc.outcomes
      invariant tc.log == old(tc.log) + Joins(list, target, batches)
    {
      var end := BatchEnd(list, start);
      ghost var fs := tc.fs;
      var reply := JoinBatch(tc, list, start, end, target);
      if reply.None? {
        return Some(InvalidFragmentName(batches));
      }
      OnlyFileTransitive(before, fs, tc.fs, target);
      if reply.value.Error? {
        return Some(BatchFailed(batches));
      }
      AppendBatch(before, fs, list[..start], list[start..end], target);
      JoinsExtend(list, target, batches);
      assert list[..end] == list[..start] + list[start..end];
      start, batches := end, batches + 1;
    }
    assert list[..start] == list;
    return None;
  }

  lemma JoinsExtend(list: seq<string>, target: string, n: nat)
    ensures Joins(list, target, n + 1) == Joins(list, target, n) + [Sent(JoinCommand(Batch(list, n), target), true)]
  {
  }

  /** Returning None leaves the fragments' contents, in order, in the destination,
      whatever it held before, after one truncation and one confirmed command a batch.
      When the command of batch `k` is not confirmed and did not write, exactly the
      fragments of the earlier batches are there. */
  method JoinChunks(tc: Device, list: seq<string>, target: string) returns (failure: Option<Failure>)
    modifies tc`fs, tc`log, tc`outcomes, tc`errors
    ensures OnlyFile(old(tc.fs), tc.fs, target)
    ensures failure.None? ==>
      && AllPresent(old(tc.fs), list) && target !in list
      && tc.fs == WithFile(old(tc.fs), target, Contents(old(tc.fs).files, list))
      && tc.log == old(tc.log) + JoinLog(list, target)
    ensures failure.Some? ==>
      failure.value in {InvalidPath, TruncateFailed} || failure.value.BatchFailed? || failure.value.InvalidFragmentName?
    ensures failure == Some(InvalidPath) <==> HasControl(target)
    ensures HasControl(target) ==> tc.fs == old(tc.fs) && tc.log == old(tc.log)
    ensures failure.Some? && failure.value.InvalidFragmentName? ==> exists i :: 0 <= i < |list| && HasControl(list[i])
    ensures failure.Some? && (failure.value.BatchFailed? || failure.value.InvalidFragmentName?) ==>
      var n := failure.value.batch * JOIN_BATCH;
      && n < |list| && AllPresent(old(tc.fs), list[..n]) && target !in list[..n]
      && (failure.value.InvalidFragmentName? || Unwritten(OutcomeBack(tc.outcomes, 0)) ==>
            tc.fs == WithFile(old(tc.fs), target, Contents(old(tc.fs).files, list[..n])))
    ensures failure == Some(TruncateFailed) && Unwritten(OutcomeBack(tc.outcomes, 0)) ==> tc.fs == old(tc.fs)
    ensures old(tc.outcomes) <= tc.outcomes && (failure.Some? && failure.value.Refused() ==> old(tc.outcomes) < tc.outcomes)
    ensures failure.Some? && failure.value.BatchFailed? ==>
      tc.log != [] && tc.log[|tc.log| - 1] == Sent(JoinCommand(Batch(list, failure.value.batch), target), false)
    ensures tc.errors ==
      old(tc.errors) + (if failure.Some? && failure.value.Refused() then 1 else 0)
  {
    if HasControl(target) {
      return Some(InvalidPath);
    }
    var emptied := SendTruncate(tc, target);
    if emptied.Error? {
      return Some(TruncateFailed);
    }
    failure := AppendBatches(tc, list, target, old(tc.fs));
  }

  // ---------- the other remote steps ----------

  /** Succeeds only on a file of the expected size, and changes nothing. */
  method CheckFileSize(tc: Device, expected: nat, name: string) returns (ok: bool)
    requires expected <= MAX_UINT64
    modifies tc`fs, tc`log, tc`outcomes, tc`errors
    ensures tc.fs == old(tc.fs) && tc.errors >= old(tc.errors) && old(tc.outcomes) <= tc.outcomes
    ensures ok ==> name in tc.fs.files && |tc.fs.files[name]| == expected
    ensures ok ==> tc.log == old(tc.log) + [Sent(SizeCommand(name), true)]
    ensures HasControl(name) ==> !ok && tc.log == old(tc.log)
    ensures !ok && !HasControl(name) && name in tc.fs.files && |tc.fs.files[name]| == expected ==>
      tc.errors > old(tc.errors)
  {
    if HasControl(name) {
      return false;
    }
    SizeCommandMeaning(name);
    var reply := tc.ExecuteChecked(SizeCommand(name));
    if reply.Output? {
      SizeReplyMatches(tc.Last().padding, |tc.fs.files[name]|, expected);
    }
    return reply.Output? && SizeMatches(reply.text, expected);
  }

  function ScratchDir(nonce: string): string {
    TMP_DIR + "/bs-upload-" + nonce
  }

  /** A file lies under the directory of one nonce only. */
  lemma OneNonce(a: string, b: string, p: string)
    requires |a| == |b| && Under(p, ScratchDir(a)) && Under(p, ScratchDir(b))
    ensures a == b
  {
    var n := |TMP_DIR + "/bs-upload-"|;
    assert p[n..n + |a|] == (ScratchDir(a) + "/")[n..n + |a|] == a;
    assert p[n..n + |b|] == (ScratchDir(b) + "/")[n..n + |b|] == b;
  }

  /** The first `n` names were tried one after the other, and `ok` says whether the last of
      them was confirmed. */
  ghost predicate NamesTried(before: seq<Sent>, after: seq<Sent>, nonces: seq<Option<string>>, n: nat, ok: bool) {
    && n <= |nonces| && |after| == |before| + n && before <= after
    && forall i :: 0 <= i < n ==>
         && nonces[i].Some?
         && after[|before| + i] == Sent(MakeDirCommand(ScratchDir(nonces[i].value)), ok && i == n - 1)
  }

  /** Tries a fresh name at most five times, each time another one, unless the generator
      fails (None). The directory returned was created by this call; an unconfirmed mkdir
      may leave another one behind. */
  method CreateChunkDirectory(tc: Device, nonces: seq<Option<string>>) returns (dir: Option<string>, ghost n: nat)
    requires |nonces| == RETRIES
    modifies tc`fs, tc`log, tc`outcomes, tc`errors
    ensures tc.fs == old(tc.fs).(dirs := tc.fs.dirs)
    ensures NamesTried(old(tc.log), tc.log, nonces, n, dir.Some?)
    ensures dir.Some? ==>
      n > 0 && dir.value == ScratchDir(nonces[n - 1].value) && dir.value in tc.fs.dirs && !HasControl(dir.value)
    ensures dir.None? ==> tc.errors == old(tc.errors) + n && (n == RETRIES || nonces[n].None?)
    ensures tc.errors >= old(tc.errors) && old(tc.outcomes) <= tc.outcomes
  {
    var attempt := 0;
    n := 0;
    while attempt < RETRIES
      invariant attempt <= RETRIES && n == attempt
      invariant tc.fs == old(tc.fs).(dirs := tc.fs.dirs)
      invariant NamesTried(old(tc.log), tc.log, nonces, n, false)
      invariant tc.errors == old(tc.errors) + attempt && old(tc.outcomes) <= tc.outcomes
    {
      if nonces[attempt].None? {
        return None, n;
      }
      var d := ScratchDir(nonces[attempt].value);
      var ok := TryDirectory(tc, d);
      n := n + 1;
      if ok {
        return Some(d), n;
      }
      attempt := attempt + 1;
    }
    return None, n;
  }

  method TryDirectory(tc: Device, d: string) returns (ok: bool)
    modifies tc`fs, tc`log, tc`outcomes, tc`errors
    ensures tc.fs == old(tc.fs).(dirs := tc.fs.dirs)
    ensures tc.log == old(tc.log) + [Sent(MakeDirCommand(d), ok)]
    ensures ok ==> d in tc.fs.dirs && d !in old(tc.fs).dirs && !HasControl(d)
    ensures old(tc.outcomes) <= tc.outcomes
    ensures tc.errors == old(tc.errors) + (if ok then 0 else 1)
  {
    MakeDirCommandMeaning(d);
    if HasControl(d) {
      Shell.ControlInQuote("mkdir -m 700 ", d);
    }
    var reply := tc.ExecuteChecked(MakeDirCommand(d));
    return reply.Output?;
  }

  /** Removes the whole scratch directory, or reports that it may have failed. */
  method DeleteChunks(tc: Device, scratch: string) returns (ok: bool)
    modifies tc`fs, tc`log, tc`outcomes, tc`errors
    ensures ok ==> scratch !in tc.fs.dirs && forall p :: p in tc.fs.files ==> !Under(p, scratch)
    ensures forall p :: !Under(p, scratch) ==> SameFile(old(tc.fs), tc.fs, p)
    ensures tc.errors == old(tc.errors) + (if ok then 0 else 1)
    ensures old(tc.outcomes) <= tc.outcomes && |tc.outcomes| == |old(tc.outcomes)| + 1
    ensures tc.log == old(tc.log) + [Sent(RemoveCommand(scratch), ok)]
  {
    RemoveCommandMeaning(scratch);
    var reply := tc.ExecuteChecked(RemoveCommand(scratch));
    return reply.Output?;
  }

  // ---------- the whole push ----------

  /** The worker pool, under an arbitrary scheduler and an arbitrary network: as
      long as some worker has not returned, any of them takes its next step. The
      workers use sessions of their own; what they share with `tc` is the device. */
  method RunWorkers(tc: Device, t: Transfer) returns (s: State)
    modifies tc`fs, tc`errors, tc`others
    ensures Inv(t, old(tc.fs), s) && AllFinished(s) && s.fs == tc.fs && tc.errors == old(tc.errors) + s.failures
    ensures tc.others == old(tc.others) + s.log
  {
    var errors, others := tc.errors, tc.others;
    s := Init(t, tc.fs);
    InitInv(t, tc.fs);
    while !AllFinished(s)
      invariant Inv(t, old(tc.fs), s) && s.fs == tc.fs && tc.errors == old(tc.errors) + s.failures
      invariant tc.others == old(tc.others) + s.log
      decreases Measure(t, s)
    {
      var w: nat :| w < |s.workers| && !s.workers[w].Finished?;
      var o: Outcome := *;
      NeverBlocks(t, old(tc.fs), s, w);
      StepInv(t, old(tc.fs), s, w, o);
      StepDecreases(t, s, w, o);
      s := Step(t, s, w, o);
      tc.fs, tc.errors, tc.others := s.fs, errors + s.failures, others + s.log;
    }
  }

  /** Freshness of the random directory names: nothing is under them yet, and the
      destination does not lie in them. */
  ghost predicate FreshNonces(fs: Fs, nonces: seq<Option<string>>, target: string) {
    forall i :: 0 <= i < |nonces| && nonces[i].Some? ==>
      && !Under(target, ScratchDir(nonces[i].value))
      && forall p :: p in fs.files ==> !Under(p, ScratchDir(nonces[i].value))
  }

  ghost predicate InScratch(nonces: seq<Option<string>>, p: string) {
    exists i :: 0 <= i < |nonces| && nonces[i].Some? && Under(p, ScratchDir(nonces[i].value))
  }

  /** The beginning of the data that the first `k` batches hold; there are more. */
  ghost predicate HoldsBatches(fs: Fs, target: string, data: seq<Byte>, k: nat) {
    var t := Transfer(data, "");
    JOIN_BATCH * k < t.Total() && FileIs(fs, target, data[..t.Offset(JOIN_BATCH * k)])
  }

  /** What the transfer may have done to the destination when it failed, `o` being what
      became of the command that was not confirmed. */
  ghost predicate TargetAfter(before: Fs, after: Fs, target: string, data: seq<Byte>, failure: Failure, o: Outcome) {
    match failure
    case InvalidPath | LocalRead | NoClient | NoScratch | FragmentFailed => SameFile(before, after, target)
    case InvalidFragmentName(k) => HoldsBatches(after, target, data, k)
    case BatchFailed(k) => Unwritten(o) ==> HoldsBatches(after, target, data, k)
    case SizeMismatch => FileIs(after, target, data)
    case TruncateFailed => Unwritten(o) ==> SameFile(before, after, target)
  }

  /** The last command but `n` was that of batch `k`, and was not confirmed. */
  ghost predicate BatchSent(log: seq<Sent>, n: nat, t: Transfer, k: nat, target: string) {
    && JOIN_BATCH * k < t.Total() && n < |log|
    && log[|log| - 1 - n] == Sent(JoinCommand(Batch(Names(t, t.Total()), k), target), false)
  }

  /** Everything outside the device is in order. */
  predicate Possible(source: Option<seq<Byte>>, connected: bool, nonces: seq<Option<string>>, target: string) {
    source.Some? && connected && !HasControl(target) && forall i :: 0 <= i < |nonces| ==> nonces[i].Some?
  }

  /** The device has confirmed the size of every fragment. */
  ghost predicate AllChecked(t: Transfer, sent: seq<Sent>) {
    forall j :: 0 <= j < t.Total() ==> Sent(SizeCommand(t.Name(j)), true) in sent
  }

  /** What a successful push sends on its own session: names for the scratch directory
      until one is confirmed, then truncation, joins, the check of the size, and the
      removal, each confirmed. */
  ghost predicate PushSent(before: seq<Sent>, after: seq<Sent>, nonces: seq<Option<string>>, n: nat, data: seq<Byte>,
                           target: string)
    requires 0 < n <= |nonces|
  {
    nonces[n - 1].Some? && exists created ::
      var t := Transfer(data, ScratchDir(nonces[n - 1].value));
      && NamesTried(before, created, nonces, n, true)
      && after == created + JoinLog(Names(t, t.Total()), target)
                  + [Sent(SizeCommand(target), true), Sent(RemoveCommand(t.scratch), true)]
  }

  /** The pool and the join leave every file outside the scratch directory alone,
      except the destination; the pool leaves that alone as well. */
  lemma KeepsOthers(t: Transfer, before: Fs, pooled: Fs, after: Fs, target: string)
    requires OnlyFragments(t, before, pooled) && OnlyFile(pooled, after, target)
    ensures forall p :: !Under(p, t.scratch) ==> SameFile(before, pooled, p)
    ensures forall p :: p != target && !Under(p, t.scratch) ==> SameFile(before, after, p)
  {
    forall p | !Under(p, t.scratch) ensures SameFile(before, pooled, p) {
      if IsFragment(t, p) {
        var j :| 0 <= j < t.Total() && p == t.Name(j);
        NameUnderScratch(t, j);
      }
    }
    forall p | p != target && !Under(p, t.scratch) ensures SameFile(before, after, p) {
      assert SameFile(before, pooled, p) && SameFile(pooled, after, p);
    }
  }

  /** The join and the final check, once every fragment is complete. */
  method Assemble(tc: Device, t: Transfer, target: string) returns (failure: Option<Failure>)
    requires |t.data| <= MAX_INT64
    requires forall j :: 0 <= j < t.Total() ==> FragmentReady(t, tc.fs, j)
    modifies tc`fs, tc`log, tc`outcomes, tc`errors
    ensures OnlyFile(old(tc.fs), tc.fs, target) && tc.errors >= old(tc.errors)
    ensures failure.None? ==>
      && FileIs(tc.fs, target, t.data)
      && tc.log == old(tc.log) + JoinLog(Names(t, t.Total()), target) + [Sent(SizeCommand(target), true)]
    ensures failure.Some? ==>
      TargetAfter(old(tc.fs), tc.fs, target, t.data, failure.value, OutcomeBack(tc.outcomes, 0))
    ensures old(tc.outcomes) <= tc.outcomes && (failure.Some? && failure.value.Refused() ==> old(tc.outcomes) < tc.outcomes)
    ensures failure.Some? ==> failure.value !in {LocalRead, NoClient, NoScratch, FragmentFailed}
    ensures failure == Some(InvalidPath) ==> HasControl(target)
    ensures failure.Some? && failure.value.BatchFailed? ==> BatchSent(tc.log, 0, t, failure.value.batch, target)
    ensures failure.Some? && !HasControl(target) && !HasControl(t.scratch) ==> tc.errors > old(tc.errors)
  {
    if !HasControl(t.scratch) {
      forall j { NameSendable(t, j); }
    }
    var list := Names(t, t.Total());
    failure := JoinChunks(tc, list, target);
    if failure.Some? {
      if failure.value.BatchFailed? || failure.value.InvalidFragmentName? {
        FragmentsInOrder(t, old(tc.fs), failure.value.batch * JOIN_BATCH);
        assert list[..failure.value.batch * JOIN_BATCH] == Names(t, failure.value.batch * JOIN_BATCH);
      }
      return;
    }
    FragmentsInOrder(t, old(tc.fs), t.Total());
    assert t.data[..t.Offset(t.Total())] == t.data;
    var ok := CheckFileSize(tc, |t.data|, target);
    if !ok {
      return Some(SizeMismatch);
    }
    return None;
  }

  /** Everything between creating and removing the scratch directory. */
  method PushFragments(tc: Device, t: Transfer, target: string) returns (failure: Option<Failure>)
    requires |t.data| <= MAX_INT64
    requires !Under(target, t.scratch)
    modifies tc
    ensures failure.None? ==> FileIs(tc.fs, target, t.data)
    ensures failure.None? ==>
      && tc.log == old(tc.log) + JoinLog(Names(t, t.Total()), target) + [Sent(SizeCommand(target), true)]
      && old(tc.others) <= tc.others && AllChecked(t, tc.others[|old(tc.others)|..])
    ensures failure.Some? ==>
      TargetAfter(old(tc.fs), tc.fs, target, t.data, failure.value, OutcomeBack(tc.outcomes, 0))
    ensures failure.Some? ==>
      failure.value !in {LocalRead, NoClient, NoScratch} && (failure == Some(InvalidPath) ==> HasControl(target))
    ensures old(tc.outcomes) <= tc.outcomes && (failure.Some? && failure.value.Refused() ==> old(tc.outcomes) < tc.outcomes)
    ensures failure.Some? && failure.value.BatchFailed? ==> BatchSent(tc.log, 0, t, failure.value.batch, target)
    ensures forall p :: p != target && !Under(p, t.scratch) ==> SameFile(old(tc.fs), tc.fs, p)
    ensures tc.errors >= old(tc.errors)
    ensures failure.Some? && !HasControl(target) && !HasControl(t.scratch) ==> tc.errors > old(tc.errors)
  {
    var pool := RunWorkers(tc, t);
    KeepsOthers(t, old(tc.fs), pool.fs, pool.fs, target);
    assert pool.log == tc.others[|old(tc.others)|..];
    if pool.results != [] {
      return Some(FragmentFailed);
    }
    JoinedMeansReady(t, old(tc.fs), pool);
    failure := Assemble(tc, t, target);
    KeepsOthers(t, old(tc.fs), pool.fs, tc.fs, target);
  }

  lemma Sequenced(a: seq<Sent>, b: seq<Sent>, c: Sent, d: Sent)
    ensures a + b + [c] + [d] == a + b + [c, d]
  {
  }

  /** The transfer and the removal of the scratch directory, whatever became of the first. */
  method PushWithin(tc: Device, t: Transfer, target: string) returns (r: Outcomes)
    requires |t.data| <= MAX_INT64 && !Under(target, t.scratch)
    modifies tc
    ensures r.transfer.None? ==>
      FileIs(tc.fs, target, t.data) && old(tc.others) <= tc.others && AllChecked(t, tc.others[|old(tc.others)|..])
    ensures r.Nil() ==>
      tc.log == old(tc.log) + JoinLog(Names(t, t.Total()), target)
              + [Sent(SizeCommand(target), true), Sent(RemoveCommand(t.scratch), true)]
    ensures tc.log != [] && tc.log[|tc.log| - 1] == Sent(RemoveCommand(t.scratch), !r.cleanupFailed)
    ensures r.transfer.Some? ==>
      && TargetAfter(old(tc.fs), tc.fs, target, t.data, r.transfer.value, OutcomeBack(tc.outcomes, 1))
      && r.transfer.value !in {LocalRead, NoClient, NoScratch} && (r.transfer == Some(InvalidPath) ==> HasControl(target))
      && (r.transfer.value.Refused() ==> |old(tc.outcomes)| + 2 <= |tc.outcomes|)
      && (r.transfer.value.BatchFailed? ==> BatchSent(tc.log, 1, t, r.transfer.value.batch, target))
    ensures !r.cleanupFailed ==> t.scratch !in tc.fs.dirs && forall p :: p in tc.fs.files ==> !Under(p, t.scratch)
    ensures forall p :: p != target && !Under(p, t.scratch) ==> SameFile(old(tc.fs), tc.fs, p)
    ensures tc.errors >= old(tc.errors)
    ensures !HasControl(target) && !HasControl(t.scratch) && tc.errors == old(tc.errors) ==> r.Nil()
  {
    var failure := PushFragments(tc, t, target);
    label transferred:
    var removed := DeleteChunks(tc, t.scratch);
    r := Outcomes(failure, !removed);
    if r.Nil() {
      Sequenced(old(tc.log), JoinLog(Names(t, t.Total()), target), Sent(SizeCommand(target), true),
                Sent(RemoveCommand(t.scratch), true));
    }
    StillTarget(old(tc.fs), old@transferred(tc.fs), tc.fs, t.scratch, target);
  }

  /** The removal changes nothing outside the scratch directory. */
  lemma StillTarget(a: Fs, b: Fs, c: Fs, scratch: string, target: string)
    requires forall p :: p != target && !Under(p, scratch) ==> SameFile(a, b, p)
    requires forall p :: !Under(p, scratch) ==> SameFile(b, c, p)
    ensures forall p :: p != target && !Under(p, scratch) ==> SameFile(a, c, p)
  {
    forall p | p != target && !Under(p, scratch) ensures SameFile(a, c, p) {
      assert SameFile(a, b, p) && SameFile(b, c, p);
    }
  }

  /** pushPrintf. A nil result means the destination holds exactly the local bytes,
      whatever it held before, the scratch directory is gone with all its files,
      and no other file was touched. A failure before the join leaves the
      destination alone; if the command of batch `k`, the last before the cleanup, was not
      confirmed and did not write, exactly the first `k` batches are there; one of the
      cleanup alone leaves the data. If nothing stands in the way and every command
      is confirmed, the result is nil. */
  method PushPrintf(tc: Device, source: Option<seq<Byte>>, connected: bool, nonces: seq<Option<string>>, target: string)
    returns (r: Outcomes, scratch: Option<string>)
    requires |nonces| == RETRIES && FreshNonces(tc.fs, nonces, target)
    requires source.Some? ==> |source.value| <= MAX_INT64
    modifies tc
    ensures r.Nil() ==> source.Some? && tc.fs.files == old(tc.fs).files[target := source.value] && scratch.Some?
    ensures r.Nil() ==> exists n :: 0 < n <= RETRIES && PushSent(old(tc.log), tc.log, nonces, n, source.value, target)
    ensures r.transfer.None? ==> source.Some? && FileIs(tc.fs, target, source.value)
    ensures r.transfer.None? ==>
      && scratch.Some? && old(tc.others) <= tc.others
      && AllChecked(Transfer(source.value, scratch.value), tc.others[|old(tc.others)|..])
    ensures scratch.Some? ==> tc.log != [] && tc.log[|tc.log| - 1] == Sent(RemoveCommand(scratch.value), !r.cleanupFailed)
    ensures r.transfer.Some? && source.Some? ==>
      TargetAfter(old(tc.fs), tc.fs, target, source.value, r.transfer.value, OutcomeBack(tc.outcomes, 1))
    ensures r.transfer.Some? && r.transfer.value.Refused() ==> source.Some? && |old(tc.outcomes)| + 2 <= |tc.outcomes|
    ensures r.transfer.Some? && r.transfer.value.BatchFailed? ==>
      scratch.Some? && BatchSent(tc.log, 1, Transfer(source.value, scratch.value), r.transfer.value.batch, target)
    ensures scratch.Some? && !r.cleanupFailed ==>
      scratch.value !in tc.fs.dirs && forall p :: p in tc.fs.files ==> !Under(p, scratch.value)
    ensures !r.cleanupFailed ==> forall p :: InScratch(nonces, p) ==> p !in tc.fs.files
    ensures forall p :: p != target && !InScratch(nonces, p) ==> SameFile(old(tc.fs), tc.fs, p)
    ensures r == Outcomes(Some(InvalidPath), false) <==> HasControl(target)
    ensures r == Outcomes(Some(LocalRead), false) <==> !HasControl(target) && source.None?
    ensures r == Outcomes(Some(NoClient), false) <==> !HasControl(target) && source.Some? && !connected
    ensures HasControl(target) || source.None? || !connected ==> tc.fs == old(tc.fs) && tc.log == old(tc.log)
    ensures tc.errors >= old(tc.errors)
    ensures Possible(source, connected, nonces, target) && tc.errors == old(tc.errors) ==> r.Nil()
  {
    scratch := None;
    if HasControl(target) {
      return Outcomes(Some(InvalidPath), false), None;
    }
    if source.None? {
      return Outcomes(Some(LocalRead), false), None;
    }
    if !connected {
      return Outcomes(Some(NoClient), false), None;
    }
    var data := source.value;
    ghost var n;
    scratch, n := CreateChunkDirectory(tc, nonces);
    if scratch.None? {
      return Outcomes(Some(NoScratch), false), None;
    }
    var t := Transfer(data, scratch.value);
    assert nonces[n - 1].Some?;
    ghost var created := tc.log;
    r := PushWithin(tc, t, target);
    if r.Nil() {
      assert NamesTried(old(tc.log), created, nonces, n, true);
      assert PushSent(old(tc.log), tc.log, nonces, n, data, target);
    }
  }
}
