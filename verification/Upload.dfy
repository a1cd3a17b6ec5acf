/** internal/helpers/upload.go: sending a byte string as a series of printf lines. */
module Upload {
  import opened Text
  import opened Devices

  const LINE_SIZE: nat := 128

  /** Nothing but the file `target` differs. */
  ghost predicate OnlyFile(before: Fs, after: Fs, target: string) {
    && after.dirs == before.dirs
    && forall p :: p != target ==> SameFile(before, after, p)
  }

  predicate SameFile(before: Fs, after: Fs, p: string) {
    && (p in after.files <==> p in before.files) && (p in before.files ==> after.files[p] == before.files[p])
    && (p in after.runnable <==> p in before.runnable)
  }

  lemma OnlyFileTransitive(a: Fs, b: Fs, c: Fs, target: string)
    requires OnlyFile(a, b, target) && OnlyFile(b, c, target)
    ensures OnlyFile(a, c, target)
  {
    forall p | p != target ensures SameFile(a, c, p) {
      assert SameFile(a, b, p) && SameFile(b, c, p);
    }
  }

  function LineEnd(data: seq<Byte>, i: nat): (end: nat)
    requires i < |data|
    ensures i < end <= |data|
  {
    if i + LINE_SIZE > |data| then |data| else i + LINE_SIZE
  }

  /** The command for the line at offset `i`: the first truncates, the others append. */
  function LineCommand(data: seq<Byte>, i: nat, target: string): string
    requires i < |data|
  {
    PrintfCommand(data[i..LineEnd(data, i)], if i > 0 then ">>" else ">", target)
  }

  /** One line extends the part of the data already in the file. */
  lemma LineEffect(fs: Fs, data: seq<Byte>, i: nat, target: string, o: Outcome)
    requires i < |data|
    requires i > 0 ==> target in fs.files && fs.files[target] == data[..i]
    ensures var (after, reply) := Exec(fs, LineCommand(data, i, target), o);
      OnlyFile(fs, after, target)
      && (reply.Output? ==> after == WithFile(fs, target, data[..LineEnd(data, i)]))
  {
    PrintfCommandMeaning(data[i..LineEnd(data, i)], i > 0, target);
    WriteEffect(fs, LineCommand(data, i, target), target, i > 0, data[i..LineEnd(data, i)], o);
    assert data[..i] + data[i..LineEnd(data, i)] == data[..LineEnd(data, i)];
  }

  lemma WriteEffect(fs: Fs, command: string, target: string, append: bool, bytes: seq<Byte>, o: Outcome)
    requires Meaning(command) == Write(target, append, bytes)
    requires append ==> target in fs.files
    ensures var (after, reply) := Exec(fs, command, o);
      OnlyFile(fs, after, target)
      && (reply.Output? ==> after == WithFile(fs, target, if append then fs.files[target] + bytes else bytes))
  {
    assert [] + bytes == bytes;
  }

  /** A command that was not confirmed left the file it writes as it was. */
  predicate Unwritten(o: Outcome) { o.Succeeds? || o.left.Untouched? }

  lemma TruncateEffect(fs: Fs, target: string, o: Outcome)
    ensures var (after, reply) := Exec(fs, TruncateCommand(target), o);
      && OnlyFile(fs, after, target) && (reply.Output? ==> after == WithFile(fs, target, []))
      && (reply.Error? && Unwritten(o) ==> after == fs)
  {
    TruncateCommandMeaning(target);
    WriteEffect(fs, TruncateCommand(target), target, false, [], o);
  }

  /** An upload issues nothing but output commands. */
  predicate IsWrite(command: string) { command != [] && command[0] in {'p', ':'} }

  predicate AllWrites(sent: seq<Sent>) { forall i :: 0 <= i < |sent| ==> IsWrite(sent[i].command) }

  method SendTruncate(tc: Device, target: string) returns (reply: Reply)
    modifies tc`fs, tc`log, tc`outcomes, tc`errors
    ensures OnlyFile(old(tc.fs), tc.fs, target)
    ensures reply.Output? ==> tc.fs == WithFile(old(tc.fs), target, [])
    ensures |tc.outcomes| == |old(tc.outcomes)| + 1 && old(tc.outcomes) <= tc.outcomes
    ensures reply.Error? && Unwritten(tc.Last()) ==> tc.fs == old(tc.fs)
    ensures tc.log == old(tc.log) + [Sent(TruncateCommand(target), reply.Output?)]
    ensures tc.errors == old(tc.errors) + (if reply == Error then 1 else 0)
    ensures old(tc.log) <= tc.log && AllWrites(tc.log[|old(tc.log)|..])
  {
    reply := tc.ExecuteChecked(TruncateCommand(target));
    TruncateEffect(old(tc.fs), target, tc.Last());
  }

  method SendLine(tc: Device, data: seq<Byte>, i: nat, target: string) returns (reply: Reply)
    requires i < |data|
    requires i > 0 ==> target in tc.fs.files && tc.fs.files[target] == data[..i]
    modifies tc`fs, tc`log, tc`outcomes, tc`errors
    ensures OnlyFile(old(tc.fs), tc.fs, target)
    ensures reply.Output? ==> tc.fs == WithFile(old(tc.fs), target, data[..LineEnd(data, i)])
    ensures tc.errors == old(tc.errors) + (if reply == Error then 1 else 0)
    ensures old(tc.log) <= tc.log && AllWrites(tc.log[|old(tc.log)|..])
  {
    reply := tc.ExecuteChecked(LineCommand(data, i, target));
    LineEffect(old(tc.fs), data, i, target, tc.Last());
  }

  /** Returning true leaves exactly `data` in `target`, whatever it held before;
      an error is reported exactly when some command was not confirmed. */
  method UploadData(tc: Device, data: seq<Byte>, target: string) returns (ok: bool)
    modifies tc`fs, tc`log, tc`outcomes, tc`errors
    ensures ok ==> tc.fs == WithFile(old(tc.fs), target, data)
    ensures OnlyFile(old(tc.fs), tc.fs, target)
    ensures HasControl(target) ==> !ok && tc.fs == old(tc.fs) && tc.log == old(tc.log)
    ensures !HasControl(target) ==> (ok <==> tc.errors == old(tc.errors))
    ensures old(tc.errors) <= tc.errors
    ensures old(tc.log) <= tc.log && AllWrites(tc.log[|old(tc.log)|..])
  {
    if HasControl(target) {
      return false;
    }
    if |data| == 0 {
      var reply := SendTruncate(tc, target);
      return reply.Output?;
    }
    var i := 0;
    while i < |data|
      invariant 0 <= i <= |data|
      invariant i == 0 ==> tc.fs == old(tc.fs)
      invariant OnlyFile(old(tc.fs), tc.fs, target)
      invariant i > 0 ==> tc.fs == WithFile(old(tc.fs), target, data[..i])
      invariant tc.errors == old(tc.errors) && old(tc.log) <= tc.log
      invariant AllWrites(tc.log[|old(tc.log)|..])
    {
      label sending:
      var reply := SendLine(tc, data, i, target);
      OnlyFileTransitive(old(tc.fs), old@sending(tc.fs), tc.fs, target);
      if reply.Error? {
        return false;
      }
      i := LineEnd(data, i);
    }
    assert data[..i] == data;
    return true;
  }
}
