/** The worker pool of internal/scout/push_printf.go when nothing goes wrong: every
    command is confirmed, and no worker reports an error. */
module FaultFree {
  import opened Text
  import opened Shell
  import opened Devices
  import opened Upload
  import opened Fragments
  import opened WorkerPool

  // ---------- commands that can be sent ----------

  lemma PrintfCommandSendable(data: seq<Byte>, redirect: string, target: string)
    requires redirect in {">", ">>"} && !HasControl(target)
    ensures !HasControl(PrintfCommand(data, redirect, target))
  {
    OctalTextUnquoted(data);
    NoControlQuote(target);
    NoControlConcat("printf '", OctalText(data));
    NoControlConcat("printf '" + OctalText(data), "' ");
    NoControlConcat("printf '" + OctalText(data) + "' ", redirect);
    NoControlConcat("printf '" + OctalText(data) + "' " + redirect, " ");
    NoControlConcat("printf '" + OctalText(data) + "' " + redirect + " ", ShellQuote(target));
  }

  lemma SizeCommandSendable(name: string)
    requires !HasControl(name)
    ensures !HasControl(SizeCommand(name))
  {
    NoControlQuote(name);
    NoControlConcat("wc -c < ", ShellQuote(name));
  }

  // ---------- confirmed commands ----------

  lemma LineSucceeds(fs: Fs, data: seq<Byte>, i: nat, target: string, padding: nat)
    requires i < |data| && !HasControl(target)
    ensures Exec(fs, LineCommand(data, i, target), Succeeds(padding)).1.Output?
  {
    PrintfCommandSendable(data[i..LineEnd(data, i)], if i > 0 then ">>" else ">", target);
    PrintfCommandMeaning(data[i..LineEnd(data, i)], i > 0, target);
  }

  lemma SizeSucceeds(fs: Fs, name: string, padding: nat)
    requires name in fs.files && !HasControl(name)
    ensures Exec(fs, SizeCommand(name), Succeeds(padding)).1 == Output(SizeReply(padding, |fs.files[name]|))
  {
    SizeCommandSendable(name);
    SizeCommandMeaning(name);
  }

  // ---------- the pool ----------

  predicate AllConfirmed(schedule: seq<(nat, Outcome)>) {
    forall i :: 0 <= i < |schedule| ==> schedule[i].1.Succeeds?
  }

  lemma ConfirmedStep(t: Transfer, s: State, w: nat, padding: nat)
    requires Enabled(s, w) && InRange(t, s.workers[w]) && Progress(t, s.fs, s.workers[w]) && !HasControl(t.scratch)
    ensures Performed(t, s, w, Succeeds(padding)).1.Output?
  {
    match s.workers[w]
    case Sending(j, _, i) =>
      NameSendable(t, j);
      LineSucceeds(s.fs, t.Chunk(j), i, t.Name(j), padding);
    case Checking(j, _) =>
      NameSendable(t, j);
      SizeSucceeds(s.fs, t.Name(j), padding);
    case _ =>
  }

  lemma NoNewFailure(t: Transfer, s: State, w: nat, fs: Fs, reply: Reply)
    requires Enabled(s, w) && InRange(t, s.workers[w]) && reply.Output?
    ensures Advance(t, s, w, fs, reply).failures == s.failures
  {
  }

  lemma {:induction false} ConfirmedRun(t: Transfer, before: Fs, s: State, schedule: seq<(nat, Outcome)>)
    requires Inv(t, before, s) && AllConfirmed(schedule) && !HasControl(t.scratch)
    ensures WorkerPool.Run(t, s, schedule).failures == s.failures
    decreases |schedule|
  {
    if schedule != [] {
      var (w, o) := schedule[0];
      var rest := schedule[1..];
      assert AllConfirmed(rest) by {
        assert forall i :: 0 <= i < |rest| ==> rest[i] == schedule[i + 1];
      }
      if Enabled(s, w) && InRange(t, s.workers[w]) {
        ConfirmedStep(t, s, w, o.padding);
        var (fs, reply) := Performed(t, s, w, o);
        NoNewFailure(t, s, w, fs, reply);
        StepInv(t, before, s, w, o);
        ConfirmedRun(t, before, WorkerPool.Step(t, s, w, o), rest);
      } else {
        ConfirmedRun(t, before, s, rest);
      }
    }
  }

  /** If every command is confirmed, no schedule makes the pool report an error, and
      when the workers have returned every fragment is complete. */
  lemma FaultFreePool(t: Transfer, fs: Fs, schedule: seq<(nat, Outcome)>)
    requires AllConfirmed(schedule) && !HasControl(t.scratch)
    ensures var s := WorkerPool.Run(t, Init(t, fs), schedule);
      && s.results == [] && !s.stopped && s.failures == 0
      && (AllFinished(s) ==> forall j :: 0 <= j < t.Total() ==> FragmentReady(t, s.fs, j))
  {
    InitInv(t, fs);
    ConfirmedRun(t, fs, Init(t, fs), schedule);
    PoolCorrect(t, fs, schedule);
  }
}
