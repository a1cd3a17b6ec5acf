/** pushConnection of internal/xfer/listener.go against do_push of
    internal/helpers/src/fileloader.c: two goroutines, the select that waits for them,
    and the device, interleaved step by step over a connection that may deliver in
    pieces and fail at any moment. */
module PushConnection {
  import opened Text
  import opened Wire
  import opened Listener
  import Fileloader

  /** One transfer: the announced name, the data, and what the destination held. */
  datatype Push = Push(name: seq<Byte>, data: seq<Byte>, before: seq<Byte>) {
    function Frame(): seq<Byte> { PushFrame(name, data) }

    predicate Valid() { |name| < 0x1_0000_0000 && |data| <= MAX_UINT64 }
  }

  /** A channel of capacity one on which one value is sent. */
  datatype Slot<T> = Pending | Ready(value: T) | Received(value: T)

  datatype PushError = ReplyError(c: Completion) | WriteError

  datatype Main = Selecting | AwaitingWriter | AwaitingReader | Returned(error: Option<PushError>)

  datatype Loader = Waiting | Copying | Finished

  /** `sent` counts the bytes of the frame accepted by the connection and `arrived`
      those of the reply delivered to the host; `created` tells that the device has
      opened the destination; `closed`, that the host has closed the connection; the
      last two, that a deadline for writing and one for reading have been set. */
  datatype State = State(
    sent: nat, loader: Loader, created: bool, dest: seq<Byte>, reply: seq<Byte>, arrived: nat,
    reader: Slot<Completion>, writer: Slot<bool>, main: Main, closed: bool, writeArmed: bool, readArmed: bool)

  /** Why an operation on the connection ends without success. */
  datatype Cause = Ended | TimedOut | Closed | Fault

  datatype Event =
    // the writing goroutine
    | WriteArmed | Written(n: nat) | WriteFinished | WriteFailed(cause: Cause)
    // the reading goroutine and what reaches it
    | Arrived(n: nat) | KindRead | ReplyRead | ReadFailed(cause: Cause)
    // the device
    | Opened | Copied(n: nat) | Acknowledged | GaveUp(message: seq<Byte>, k: nat)
    // the select and the receive after it
    | TakeReply | TakeWrite | FinishWriter | FinishReader

  function Init(p: Push): State {
    State(0, Waiting, false, p.before, [], 0, Pending, Pending, Selecting, false, false, false)
  }

  /** What the host has received of the reply. */
  function Heard(s: State): seq<Byte> {
    if s.arrived <= |s.reply| then s.reply[..s.arrived] else []
  }

  function Seen(p: Push, s: State): seq<Byte> {
    if s.sent <= |p.Frame()| then p.Frame()[..s.sent] else []
  }

  predicate IsError(reply: seq<Byte>) { reply != [] && reply[0] == TYPE_ERROR }

  /** The writer sets a deadline before it writes and is woken by it or by a close. The
      reader has none until the writer's result has been taken or an error type has been
      read. A fault of the connection may end either at any time. The loader takes the
      steps of do_push. */
  predicate Enabled(p: Push, s: State, e: Event) {
    match e
    case WriteArmed => s.writer.Pending? && !s.writeArmed && s.sent < |p.Frame()|
    case Written(n) => s.writer.Pending? && s.writeArmed && !s.closed && 0 < n <= |p.Frame()| - s.sent
    case WriteFinished => s.writer.Pending? && s.sent == |p.Frame()|
    case WriteFailed(cause) =>
      s.writer.Pending? && s.sent < |p.Frame()|
      && (match cause case Ended => false case TimedOut => s.writeArmed case Closed => s.closed case Fault => true)
    case Arrived(n) => !s.closed && 0 < n <= |s.reply| - s.arrived
    case KindRead => s.reader.Pending? && !s.readArmed && IsError(Heard(s))
    case ReplyRead => s.reader.Pending? && !CompletionOf(Heard(s)).Broken? && (IsError(Heard(s)) ==> s.readArmed)
    case ReadFailed(cause) =>
      s.reader.Pending?
      && (match cause
          case Ended => s.loader.Finished? && s.arrived == |s.reply| && CompletionOf(Heard(s)).Broken?
          case TimedOut => s.readArmed
          case Closed => s.closed
          case Fault => true)
    case Opened => s.loader.Waiting? && HeaderLength(Seen(p, s)).Some?
    case Copied(n) =>
      s.loader.Copying? && HeaderLength(Seen(p, s)).Some? && 0 < n <= |PayloadSoFar(Seen(p, s))| - |s.dest|
    case Acknowledged => s.loader.Copying? && Delivers(Seen(p, s), s.dest)
    case GaveUp(message, k) =>
      !s.loader.Finished? && |message| < Fileloader.BUFFER && k <= |Fileloader.ErrorReply(message)|
    case TakeReply => s.main.Selecting? && s.reader.Ready?
    case TakeWrite => s.main.Selecting? && s.writer.Ready?
    case FinishWriter => s.main.AwaitingWriter? && s.writer.Ready?
    case FinishReader => s.main.AwaitingReader? && s.reader.Ready? && s.writer.Received?
  }

  function Step(p: Push, s: State, e: Event): State
    requires Enabled(p, s, e)
  {
    match e
    case WriteArmed => s.(writeArmed := true)
    case Written(n) => s.(sent := s.sent + n)
    case WriteFinished => s.(writer := Ready(true))
    case WriteFailed(_) => s.(writer := Ready(false))
    case Arrived(n) => s.(arrived := s.arrived + n)
    case KindRead => s.(readArmed := true)
    case ReplyRead => s.(reader := Ready(CompletionOf(Heard(s))))
    case ReadFailed(_) => s.(reader := Ready(Broken("read push completion")))
    case Opened => s.(loader := Copying, created := true, dest := [])
    case Copied(n) => s.(dest := PayloadSoFar(Seen(p, s))[..|s.dest| + n])
    case Acknowledged => s.(loader := Finished, reply := [TYPE_OK])
    case GaveUp(message, k) => s.(loader := Finished, reply := Fileloader.ErrorReply(message)[..k])
    case TakeReply => s.(reader := Received(s.reader.value), closed := true, main := AwaitingWriter)
    case TakeWrite => s.(writer := Received(s.writer.value), readArmed := true, main := AwaitingReader)
    case FinishWriter =>
      var error :=
        if s.reader.Received? && !s.reader.value.Accepted? then Some(ReplyError(s.reader.value))
        else if !s.writer.value then Some(WriteError)
        else None;
      s.(writer := Received(s.writer.value), main := Returned(error))
    case FinishReader =>
      var error :=
        if !s.reader.value.Accepted? then Some(ReplyError(s.reader.value))
        else if s.writer.value then None else Some(WriteError);
      s.(reader := Received(s.reader.value), main := Returned(error))
  }

  /** Events of the device, and of the network on its behalf. */
  predicate OfDevice(e: Event) { e.Opened? || e.Copied? || e.Acknowledged? || e.GaveUp? || e.Arrived? }

  // ---------- invariant ----------

  /** The error to report: the device's answer comes first. */
  function Verdict(c: Completion, written: bool): Option<PushError> {
    if !c.Accepted? then Some(ReplyError(c)) else if written then None else Some(WriteError)
  }

  /** The device has done what do_push may do with the bytes sent so far. */
  ghost predicate LoaderInv(p: Push, s: State) {
    && s.sent <= |p.Frame()|
    && Fileloader.PushOutcome(Seen(p, s), p.before, s.dest, s.reply)
    && (s.loader.Waiting? ==> !s.created)
    && (if s.created then HeaderLength(Seen(p, s)).Some? else s.dest == p.before && s.reply != [TYPE_OK])
    && (s.loader.Copying? ==> s.created && HeaderLength(Seen(p, s)).Some? && s.dest <= PayloadSoFar(Seen(p, s)))
    && (!s.loader.Finished? ==> s.reply == [])
  }

  predicate HostInv(p: Push, s: State) {
    && s.arrived <= |s.reply| <= Fileloader.BUFFER + 5
    && (s.sent > 0 ==> s.writeArmed)
    && (!s.reader.Pending? && s.reader.value.Accepted? ==> s.reply == [TYPE_OK])
    && (!s.writer.Pending? ==> (s.writer.value <==> s.sent == |p.Frame()|))
    && (s.closed ==> s.reader.Received?)
    && (s.readArmed ==> s.writer.Received? || IsError(Heard(s)))
    && (match s.main
        case Selecting => !s.reader.Received? && !s.writer.Received?
        case AwaitingWriter => s.reader.Received? && !s.writer.Received? && s.closed
        case AwaitingReader => s.writer.Received? && !s.reader.Received? && s.readArmed
        case Returned(error) =>
          s.reader.Received? && s.writer.Received? && error == Verdict(s.reader.value, s.writer.value))
  }

  ghost predicate Inv(p: Push, s: State) {
    LoaderInv(p, s) && HostInv(p, s)
  }

  lemma InitInv(p: Push)
    ensures Inv(p, Init(p))
  {
  }

  /** More bytes on the wire allow the loader everything it was allowed before. */
  lemma OutcomeGrows(s: seq<Byte>, t: seq<Byte>, before: seq<Byte>, after: seq<Byte>, reply: seq<Byte>)
    requires s <= t && Fileloader.PushOutcome(s, before, after, reply)
    ensures Fileloader.PushOutcome(t, before, after, reply)
    ensures HeaderLength(s).Some? ==> HeaderLength(t).Some? && PayloadSoFar(s) <= PayloadSoFar(t)
  {
    if HeaderLength(s).Some? {
      var n := HeaderLength(s).value;
      assert t[1..5] == s[1..5] && t[n - 8..n] == s[n - 8..n];
      var size := PayloadSize(s);
      assert HeaderLength(t) == Some(n) && PayloadSize(t) == size;
      if |s| < n + size {
        assert PayloadSoFar(s) == s[n..] == t[n..|s|] == PayloadSoFar(t)[..|s| - n];
      } else {
        assert PayloadSoFar(s) == s[n..n + size] == t[n..n + size] == PayloadSoFar(t);
      }
    }
  }

  lemma HostKeepsLoader(p: Push, s: State, e: Event)
    requires LoaderInv(p, s) && Enabled(p, s, e) && !OfDevice(e)
    ensures LoaderInv(p, Step(p, s, e))
  {
    if e.Written? {
      OutcomeGrows(Seen(p, s), Seen(p, Step(p, s, e)), p.before, s.dest, s.reply);
    }
  }

  lemma DeviceKeepsLoader(p: Push, s: State, e: Event)
    requires LoaderInv(p, s) && Enabled(p, s, e) && OfDevice(e)
    ensures LoaderInv(p, Step(p, s, e))
  {
    if e.GaveUp? {
      var reply := Fileloader.ErrorReply(e.message)[..e.k];
      assert Fileloader.IsErrorReply(reply);
      assert e.k > 0 ==> reply[0] == TYPE_ERROR;
    }
  }

  lemma DeviceKeepsHost(p: Push, s: State, e: Event)
    requires Inv(p, s) && Enabled(p, s, e) && OfDevice(e)
    ensures HostInv(p, Step(p, s, e))
  {
  }

  lemma HostKeepsHost(p: Push, s: State, e: Event)
    requires Inv(p, s) && Enabled(p, s, e) && !OfDevice(e)
    ensures HostInv(p, Step(p, s, e))
  {
    if e.ReplyRead? {
      AcceptedOnlyIfAcknowledged(Seen(p, s), p.before, s.dest, s.reply, s.arrived);
    }
  }

  lemma StepInv(p: Push, s: State, e: Event)
    requires Inv(p, s) && Enabled(p, s, e)
    ensures Inv(p, Step(p, s, e))
  {
    if OfDevice(e) {
      DeviceKeepsLoader(p, s, e);
      DeviceKeepsHost(p, s, e);
    } else {
      HostKeepsLoader(p, s, e);
      HostKeepsHost(p, s, e);
    }
  }

  /** The device gives up, a deadline passes, or the connection fails. */
  predicate IsTrouble(e: Event) {
    e.GaveUp? || ((e.WriteFailed? || e.ReadFailed?) && e.cause in {TimedOut, Fault})
  }

  predicate Undisturbed(schedule: seq<Event>) {
    forall i :: 0 <= i < |schedule| ==> !IsTrouble(schedule[i])
  }

  // ---------- termination ----------

  const REPLY_LIMIT: nat := Fileloader.BUFFER + 5

  function Left(a: nat, b: nat): nat { if a < b then b - a else 0 }

  function Todo<T>(slot: Slot<T>): nat {
    match slot case Pending => 2 case Ready(_) => 1 case Received(_) => 0
  }

  function MainTodo(m: Main): nat {
    match m case Selecting => 2 case Returned(_) => 0 case _ => 1
  }

  function LoaderTodo(p: Push, s: State): nat {
    match s.loader
    case Waiting => |p.data| + 2 + REPLY_LIMIT
    case Copying => Left(|s.dest|, |p.data|) + 1 + REPLY_LIMIT
    case Finished => Left(s.arrived, |s.reply|)
  }

  function HostTodo(p: Push, s: State): nat {
    Left(s.sent, |p.Frame()|) + Todo(s.reader) + Todo(s.writer) + MainTodo(s.main)
    + (if s.writeArmed then 0 else 1) + (if s.readArmed then 0 else 1)
  }

  function Measure(p: Push, s: State): nat {
    HostTodo(p, s) + LoaderTodo(p, s)
  }

  lemma HostDecreases(p: Push, s: State, e: Event)
    requires Enabled(p, s, e) && !OfDevice(e)
    ensures HostTodo(p, Step(p, s, e)) < HostTodo(p, s) && LoaderTodo(p, Step(p, s, e)) == LoaderTodo(p, s)
  {
  }

  lemma LoaderDecreases(p: Push, s: State, e: Event)
    requires Enabled(p, s, e) && OfDevice(e)
    requires s.arrived <= |s.reply| && (!s.loader.Finished? ==> s.arrived == 0 && s.reply == [])
    requires HeaderLength(Seen(p, s)).Some? ==> |PayloadSoFar(Seen(p, s))| <= |p.data|
    ensures LoaderTodo(p, Step(p, s, e)) < LoaderTodo(p, s) && HostTodo(p, Step(p, s, e)) == HostTodo(p, s)
  {
    match e
    case Copied(n) => assert |s.dest| < |s.dest| + n <= |p.data|;
    case GaveUp(message, k) => assert |Fileloader.ErrorReply(message)[..k]| <= REPLY_LIMIT;
    case _ =>
  }

  /** Every event brings the transfer nearer to its end. */
  lemma StepDecreases(p: Push, s: State, e: Event)
    requires p.Valid() && Inv(p, s) && Enabled(p, s, e)
    ensures Measure(p, Step(p, s, e)) < Measure(p, s)
  {
    if OfDevice(e) {
      FramePrefix(p.name, p.data, Seen(p, s));
      LoaderDecreases(p, s, e);
    } else {
      HostDecreases(p, s, e);
    }
  }

  /** Until pushConnection has returned, one of its own goroutines can go on without the
      device's help and without a fault. While the select waits, the writer goes on or
      its own deadline ends it. Once the reply is taken, the close alone ends the writer:
      no deadline is waited for. Once the writer's result is taken, the deadline set then
      ends the reader. */
  lemma NeverBlocks(p: Push, s: State) returns (e: Event)
    requires Inv(p, s) && !s.main.Returned?
    ensures Enabled(p, s, e) && !OfDevice(e)
    ensures match s.main
            case Selecting => e.TakeReply? || e.TakeWrite? || e.WriteArmed? || e.WriteFinished? || e == WriteFailed(TimedOut)
            case AwaitingWriter => e.FinishWriter? || e.WriteFinished? || e == WriteFailed(Closed)
            case AwaitingReader => e.FinishReader? || e == ReadFailed(TimedOut)
            case Returned(_) => false
  {
    match s.main
    case Selecting =>
      if s.reader.Ready? {
        e := TakeReply;
      } else if s.writer.Ready? {
        e := TakeWrite;
      } else if s.sent == |p.Frame()| {
        e := WriteFinished;
      } else {
        e := if s.writeArmed then WriteFailed(TimedOut) else WriteArmed;
      }
    case AwaitingWriter =>
      e := if s.writer.Ready? then FinishWriter else if s.sent == |p.Frame()| then WriteFinished else WriteFailed(Closed);
    case AwaitingReader =>
      e := if s.reader.Ready? then FinishReader else ReadFailed(TimedOut);
  }

  /** A device that is still taking the payload is never timed out: before the writer's
      result is taken, a reading deadline needs the device's own error type. */
  lemma NoEarlyDeadline(p: Push, s: State)
    requires Inv(p, s) && Enabled(p, s, ReadFailed(TimedOut)) && !s.writer.Received?
    ensures s.loader.Finished? && IsError(s.reply)
  {
    assert Heard(s)[0] == s.reply[0];
  }

  /** The device's own words are never waited for without a deadline: once an error type
      has arrived, the reader can go on without the device, even before the writer is done. */
  lemma ErrorIsTimed(p: Push, s: State)
    requires s.reader.Pending? && IsError(Heard(s))
    ensures Enabled(p, s, KindRead) || Enabled(p, s, ReadFailed(TimedOut))
    ensures Enabled(p, s, KindRead) ==> Enabled(p, Step(p, s, KindRead), ReadFailed(TimedOut))
    ensures Enabled(p, s, ReplyRead) ==> Enabled(p, s, ReadFailed(TimedOut))
  {
  }

  // ---------- runs ----------

  function Run(p: Push, s: State, schedule: seq<Event>): State
    decreases |schedule|
  {
    if schedule == [] then s
    else Run(p, if Enabled(p, s, schedule[0]) then Step(p, s, schedule[0]) else s, schedule[1..])
  }

  lemma {:induction false} RunInv(p: Push, s: State, schedule: seq<Event>)
    requires Inv(p, s)
    ensures Inv(p, Run(p, s, schedule))
    decreases |schedule|
  {
    if schedule != [] {
      if Enabled(p, s, schedule[0]) {
        StepInv(p, s, schedule[0]);
        RunInv(p, Step(p, s, schedule[0]), schedule[1..]);
      } else {
        RunInv(p, s, schedule[1..]);
      }
    }
  }

  /** What a run of pushConnection guarantees, `error` being its result. */
  ghost predicate Correct(p: Push, s: State, error: Option<PushError>) {
    && s.reader.Received? && s.writer.Received?
    && error == Verdict(s.reader.value, s.writer.value)
    && (error.None? <==> s.reader.value.Accepted?)
    && (error.None? ==> s.dest == p.data && s.sent == |p.Frame()| && s.reply == [TYPE_OK])
  }

  /** On every schedule of the two goroutines, the select and the device, with every
      split into short reads and writes and a failure at any point: when
      pushConnection returns it has heard from both goroutines; its result is the
      device's answer if that is an error, then the writer's; and it is nil exactly
      when the device acknowledged, which means that the destination equals the data.
      Before the whole header is sent the destination is as it was. */
  lemma PushCorrect(p: Push, schedule: seq<Event>)
    requires p.Valid()
    ensures var s := Run(p, Init(p), schedule);
      && (s.main.Returned? ==> Correct(p, s, s.main.error))
      && (s.sent < |PushHeader(p.name, |p.data|)| ==> !s.created)
      && (!s.created ==> s.dest == p.before)
      && (s.dest == p.before || s.dest <= p.data)
  {
    var s := Run(p, Init(p), schedule);
    InitInv(p);
    RunInv(p, Init(p), schedule);
    FramePrefix(p.name, p.data, Seen(p, s));
    if s.main.Returned? {
      AcknowledgedIsComplete(p, s);
    }
  }

  lemma AcknowledgedIsComplete(p: Push, s: State)
    requires p.Valid() && Inv(p, s) && s.main.Returned?
    ensures Correct(p, s, s.main.error)
  {
    FramePrefix(p.name, p.data, Seen(p, s));
  }

  lemma {:induction false} RunConcat(p: Push, s: State, a: seq<Event>, b: seq<Event>)
    ensures Run(p, s, a + b) == Run(p, Run(p, s, a), b)
    decreases |a|
  {
    if a == [] {
      assert a + b == b;
    } else {
      assert (a + b)[1..] == a[1..] + b;
      RunConcat(p, if Enabled(p, s, a[0]) then Step(p, s, a[0]) else s, a[1..], b);
    }
  }

  lemma RunOne(p: Push, s: State, e: Event)
    requires Enabled(p, s, e)
    ensures Run(p, s, [e]) == Step(p, s, e)
  {
    assert [e][1..] == [];
  }

  /** The loader opens the destination and copies any available part of the payload. */
  lemma OpenAndCopy(p: Push, s: State, after: seq<Byte>) returns (schedule: seq<Event>)
    requires s.loader.Waiting? && HeaderLength(Seen(p, s)).Some? && after <= PayloadSoFar(Seen(p, s))
    ensures Run(p, s, schedule) == s.(loader := Copying, created := true, dest := after)
    ensures Undisturbed(schedule)
  {
    var emptied := s.(loader := Copying, created := true, dest := []);
    RunOne(p, s, Opened);
    schedule := [Opened];
    if after != [] {
      assert PayloadSoFar(Seen(p, s))[..0 + |after|] == after;
      RunOne(p, emptied, Copied(|after|));
      RunConcat(p, s, [Opened], [Copied(|after|)]);
      schedule := [Opened] + [Copied(|after|)];
    }
  }

  /** So far the device has done well, and the reader has heard so if it has ended. */
  predicate GoesWell(s: State) {
    && s.reply == (if s.loader.Finished? then [TYPE_OK] else [])
    && (!s.reader.Pending? ==> s.reader.value.Accepted?)
  }

  lemma UndisturbedStep(p: Push, s: State, e: Event)
    requires Inv(p, s) && GoesWell(s) && Enabled(p, s, e) && !IsTrouble(e)
    ensures GoesWell(Step(p, s, e))
  {
    if e.ReplyRead? {
      assert Heard(s) != [];
    }
  }

  lemma {:induction false} UndisturbedRun(p: Push, s: State, schedule: seq<Event>)
    requires Inv(p, s) && Undisturbed(schedule) && GoesWell(s)
    ensures var r := Run(p, s, schedule); !r.reader.Pending? ==> r.reader.value.Accepted?
    decreases |schedule|
  {
    if schedule != [] {
      var e, rest := schedule[0], schedule[1..];
      assert Undisturbed(rest) by {
        assert forall i :: 0 <= i < |rest| ==> rest[i] == schedule[i + 1];
      }
      if Enabled(p, s, e) {
        StepInv(p, s, e);
        UndisturbedStep(p, s, e);
        UndisturbedRun(p, Step(p, s, e), rest);
      } else {
        UndisturbedRun(p, s, rest);
      }
    }
  }

  /** A run without faults that returns is a success. */
  lemma UndisturbedSucceeds(p: Push, schedule: seq<Event>)
    requires p.Valid() && Undisturbed(schedule) && Run(p, Init(p), schedule).main.Returned?
    ensures Run(p, Init(p), schedule).main.error == None && Run(p, Init(p), schedule).dest == p.data
  {
    InitInv(p);
    UndisturbedRun(p, Init(p), schedule);
    PushCorrect(p, schedule);
  }

  /** The steps the machine gives the loader cover do_push: every outcome its contract
      allows on the bytes sent so far is reached by some of them. */
  lemma LoaderCovered(p: Push, s: State, after: seq<Byte>, reply: seq<Byte>) returns (schedule: seq<Event>)
    requires s.loader.Waiting? && s.dest == p.before && s.reply == []
    requires Fileloader.PushOutcome(Seen(p, s), p.before, after, reply)
    ensures Run(p, s, schedule).(created := s.created) == s.(loader := Finished, dest := after, reply := reply)
  {
    var opening: seq<Event> := [];
    if reply == [TYPE_OK] || after != p.before {
      opening := OpenAndCopy(p, s, after);
    }
    var t := Run(p, s, opening);
    var last: Event;
    if reply == [TYPE_OK] {
      last := Acknowledged;
    } else if reply == [] {
      last := GaveUp([], 0);
    } else {
      ghost var message, k :| |message| < Fileloader.BUFFER && 0 <= k <= |Fileloader.ErrorReply(message)|
        && reply == Fileloader.ErrorReply(message)[..k];
      last := GaveUp(message, k);
    }
    RunOne(p, t, last);
    RunConcat(p, s, opening, [last]);
    schedule := opening + [last];
  }

  lemma Extend(p: Push, s: State, schedule: seq<Event>, e: Event) returns (longer: seq<Event>)
    requires Enabled(p, Run(p, s, schedule), e) && Undisturbed(schedule)
    requires !IsTrouble(e)
    ensures Run(p, s, longer) == Step(p, Run(p, s, schedule), e) && Undisturbed(longer)
  {
    longer := schedule + [e];
    RunOne(p, Run(p, s, schedule), e);
    RunConcat(p, s, schedule, [e]);
  }

  /** The whole frame is written, stored and acknowledged. */
  lemma Delivered(p: Push) returns (schedule: seq<Event>)
    requires p.Valid()
    ensures Undisturbed(schedule)
    ensures Run(p, Init(p), schedule)
         == State(|p.Frame()|, Finished, true, p.data, [TYPE_OK], 0, Pending, Pending, Selecting, false, true, false)
  {
    var f := p.Frame();
    schedule := Extend(p, Init(p), [], WriteArmed);
    schedule := Extend(p, Init(p), schedule, Written(|f|));
    var s := Init(p).(sent := |f|, writeArmed := true);
    assert Seen(p, s) == f;
    WholeFrame(p);
    var copying := OpenAndCopy(p, s, p.data);
    RunConcat(p, Init(p), schedule, copying);
    schedule := Extend(p, Init(p), schedule + copying, Acknowledged);
  }

  lemma WholeFrame(p: Push)
    requires p.Valid()
    ensures Delivers(p.Frame(), p.data)
  {
    var f := p.Frame();
    FramePrefix(p.name, p.data, f);
    HeaderParts(p.name, |p.data|, p.data);
    assert f[|PushHeader(p.name, |p.data|)|..] == p.data;
  }

  /** Every transfer has a run without faults that returns, so the success described
      above does occur. */
  lemma SuccessIsPossible(p: Push) returns (schedule: seq<Event>)
    requires p.Valid()
    ensures Undisturbed(schedule) && Run(p, Init(p), schedule).main == Returned(None)
  {
    schedule := Delivered(p);
    schedule := Extend(p, Init(p), schedule, Arrived(1));
    schedule := Extend(p, Init(p), schedule, ReplyRead);
    schedule := Extend(p, Init(p), schedule, WriteFinished);
    schedule := Extend(p, Init(p), schedule, TakeReply);
    schedule := Extend(p, Init(p), schedule, FinishWriter);
  }

  /** pushConnection with its goroutines, under an arbitrary scheduler. */
  method PushData(p: Push) returns (error: Option<PushError>, s: State, ghost schedule: seq<Event>)
    requires p.Valid()
    ensures s == Run(p, Init(p), schedule) && s.main == Returned(error)
    ensures Undisturbed(schedule) ==> error.None?
    ensures Inv(p, s) && Correct(p, s, error)
    ensures s.sent < |PushHeader(p.name, |p.data|)| ==> !s.created
    ensures if s.created then s.dest == p.before || s.dest <= p.data else error.Some?
  {
    s, schedule := Init(p), [];
    InitInv(p);
    while !s.main.Returned?
      invariant Inv(p, s) && s == Run(p, Init(p), schedule)
      decreases Measure(p, s)
    {
      ghost var possible := NeverBlocks(p, s);
      var e: Event :| Enabled(p, s, e);
      StepInv(p, s, e);
      StepDecreases(p, s, e);
      RunOne(p, s, e);
      RunConcat(p, Init(p), schedule, [e]);
      s, schedule := Step(p, s, e), schedule + [e];
    }
    if Undisturbed(schedule) {
      UndisturbedSucceeds(p, schedule);
    }
    AcknowledgedIsComplete(p, s);
    FramePrefix(p.name, p.data, Seen(p, s));
    error := s.main.error;
  }
}
