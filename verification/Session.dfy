/** A checked command, from the bytes on the wire (internal/telnet/checked.go) up to the
    device as the transfers see it: whatever the connection does, the caller sees the
    command's own output after its full effect, or an error. */
module Session {
  import opened Text
  import opened Devices
  import opened Telnet
  import opened Checked
  import opened Wrapper

  // ---------- streams that are cut ----------

  /** A stream that breaks off, even inside a telnet command, delivers a beginning of
      the data. */
  lemma DataPrefix(s: string, t: string)
    requires t <= s
    ensures Data(t) <= Data(s)
  {
    var more := Missing(t, s);
    DataExtends(t, more, |Data(t)|);
  }

  lemma Missing(t: string, d: string) returns (more: string)
    requires t <= d
    ensures d == t + more
  {
    more := d[|t|..];
  }

  lemma StopsExtend(rest: string, more: string)
    requires exists q :: StopsAt(rest, q, EndsInMark)
    ensures exists q :: StopsAt(rest + more, q, EndsInMark)
  {
    var q :| StopsAt(rest, q, EndsInMark);
    assert (rest + more)[..q] == rest[..q] && (rest + more)[q - 1] == rest[q - 1];
    assert StopsAt(rest + more, q, EndsInMark);
  }

  lemma Append(a: string, b: string, c: string, d: string, e: string)
    ensures a + (b + (c + d)) + e == a + (b + (c + (d + e)))
  {
  }

  /** More bytes after a reply leave it the same reply. */
  lemma ReplyExtends(t: string, d: string, f: Frames, pre: string, out: string, status: nat, nl: string, rest: string,
                     more: string)
    requires Checked.Reply(t, f, pre, out, status, nl, rest) && d == t + more
    ensures Checked.Reply(d, f, pre, out, status, nl, rest + more)
  {
    StopsExtend(rest, more);
    Append(pre + f.begin, out + f.prefix + Itoa(status) + [US], nl, rest, more);
  }

  /** A stream is a reply in one way only. */
  lemma ReplyUnique(d: string, f: Frames, pre: string, out: string, status: nat, nl: string, rest: string,
                    pre': string, out': string, status': nat, nl': string, rest': string)
    requires f.Valid() && Checked.Reply(d, f, pre, out, status, nl, rest)
    requires Checked.Reply(d, f, pre', out', status', nl', rest')
    ensures out == out' && status == status'
  {
    var e, n := ReplyParts(d, f, pre, out, status, nl, rest);
    var e', n' := ReplyParts(d, f, pre', out', status', nl', rest');
    assert e == e';
    CompletesUnique(e, f.prefix, n, n');
    AtoiItoa(status);
    AtoiItoa(status');
  }

  lemma UniqueExtended(d: string, t: string, more: string, f: Frames, pre: string, out: string, status: nat, nl: string,
                       rest: string, pre': string, out': string, status': nat, nl': string, rest': string, all: string)
    requires f.Valid() && Checked.Reply(d, f, pre, out, status, nl, rest)
    requires d == t + more && all == rest' + more && Checked.Reply(t, f, pre', out', status', nl', rest')
    ensures out == out' && status == status'
  {
    ReplyExtends(t, d, f, pre', out', status', nl', rest', more);
    ReplyUnique(d, f, pre, out, status, nl, rest, pre', out', status', nl', all);
  }

  /** A reply that is cut anywhere is never read as another reply. */
  lemma CutReply(d: string, t: string, f: Frames, pre: string, out: string, status: nat, nl: string, rest: string,
                 pre': string, out': string, status': nat, nl': string, rest': string)
    requires f.Valid() && Checked.Reply(d, f, pre, out, status, nl, rest)
    requires t <= d && Checked.Reply(t, f, pre', out', status', nl', rest')
    ensures out == out' && status == status'
  {
    var more := Missing(t, d);
    UniqueExtended(d, t, more, f, pre, out, status, nl, rest, pre', out', status', nl', rest', rest' + more);
  }

  // ---------- replies to other commands ----------

  lemma {:induction false} HexInjective(a: seq<Byte>, b: seq<Byte>)
    requires HexText(a) == HexText(b)
    ensures a == b
  {
    if a != [] && b != [] {
      var s, t := HexText(a), HexText(b);
      assert s[0] == t[0] && s[1] == t[1] && s[2..] == HexText(a[1..]) && t[2..] == HexText(b[1..]);
      assert a[0] == b[0];
      HexInjective(a[1..], b[1..]);
    }
  }

  /** Different nonces, different markers. */
  lemma MarkersDiffer(a: seq<Byte>, b: seq<Byte>)
    requires |a| == |b| && a != b
    ensures |Marker(a)| == |Marker(b)| && Marker(a) != Marker(b)
  {
    if Marker(a) == Marker(b) {
      assert Marker(a)[12..12 + |HexText(a)|] == HexText(a) && Marker(b)[12..12 + |HexText(b)|] == HexText(b);
      HexInjective(a, b);
    }
  }

  predicate IsFrame(w: string) { w != [] && w[0] == RS && forall i :: 0 < i < |w| ==> w[i] != RS }

  lemma OccursEither(a: string, b: string, w: string, i: int)
    requires w != [] && OccursAt(a + b, w, i)
    ensures i >= |a| ==> OccursAt(b, w, i - |a|)
    ensures i + |w| <= |a| ==> OccursAt(a, w, i)
    ensures (a + b)[i] == w[0] && (i < |a| < i + |w| ==> b[0] == w[|a| - i])
  {
    assert (a + b)[i..i + |w|][0] == (a + b)[i];
    if i < |a| < i + |w| {
      assert (a + b)[i..i + |w|][|a| - i] == (a + b)[|a|] == b[0];
    }
    if i >= |a| {
      assert b[i - |a|..i - |a| + |w|] == (a + b)[i..i + |w|];
    }
    if i + |w| <= |a| {
      assert a[i..i + |w|] == (a + b)[i..i + |w|];
    }
  }

  /** A frame does not reach across the head of another. */
  lemma NoFrameAcross(a: string, b: string, w: string)
    requires IsFrame(w) && !Contains(a, w) && !Contains(b, w) && b != [] && b[0] == RS
    ensures !Contains(a + b, w)
  {
    forall i ensures !OccursAt(a + b, w, i) {
      if OccursAt(a + b, w, i) {
        OccursEither(a, b, w, i);
      }
    }
  }

  /** Behind the head of a frame, only what follows can hold another one. */
  lemma NoFrameBehind(f: string, b: string, w: string)
    requires IsFrame(w) && IsFrame(f) && !Contains(b, w) && !OccursAt(f + b, w, 0)
    ensures !Contains(f + b, w)
  {
    forall i ensures !OccursAt(f + b, w, i) {
      if OccursAt(f + b, w, i) {
        OccursEither(f, b, w, i);
      }
    }
  }

  /** Neither a whole nor a beginning of one marker's frame is a frame of another. */
  lemma OtherMarker(m: string, n: string, x: string, w: string)
    requires |m| == |n| && m != n && |w| > |n| && w[1..1 + |n|] == n
    ensures !OccursAt([RS] + m + x, w, 0)
  {
    var s := [RS] + m + x;
    assert s[1..1 + |m|] == m;
    if OccursAt(s, w, 0) {
      OccursAtHead(s, w, n);
    }
  }

  lemma OccursAtHead(s: string, w: string, n: string)
    requires OccursAt(s, w, 0) && |n| < |w|
    ensures s[1..1 + |n|] == w[1..1 + |n|]
  {
    assert s[..|w|] == w;
    assert s[..|w|][1..1 + |n|] == s[1..1 + |n|];
  }

  /** Markers `m` and `n` differ, and `more` is anything without the frame `w` of `n`. */
  lemma NoFrameInRecord(m: string, n: string, out: string, end: string, more: string, w: string)
    requires |m| == |n| && m != n && ValidMarker(m) && w == Begin(n) && IsFrame(w)
    requires !Contains(out, w) && !Contains(more, w) && forall i :: 0 <= i < |end| ==> end[i] != RS
    ensures !Contains(out + (Prefix(m) + end + more), w)
  {
    var f := Prefix(m) + end;
    FrameShape(m);
    assert w[1..1 + |n|] == n;
    assert f + more == [RS] + m + (":" + end + more);
    OtherMarker(m, n, ":" + end + more, w);
    assert IsFrame(f);
    NoFrameBehind(f, more, w);
    NoFrameAcross(out, f + more, w);
  }

  lemma NoFrameInReply(m: string, n: string, pre: string, record: string, w: string)
    requires |m| == |n| && m != n && ValidMarker(m) && w == Begin(n) && IsFrame(w)
    requires !Contains(pre, w) && !Contains(record, w)
    ensures !Contains(pre + (Begin(m) + record), w)
  {
    FrameShape(m);
    assert w[1..1 + |n|] == n;
    assert Begin(m) + record == [RS] + m + (":B" + [US] + record);
    OtherMarker(m, n, ":B" + [US] + record, w);
    NoFrameBehind(Begin(m), record, w);
    NoFrameAcross(pre, Begin(m) + record, w);
  }

  lemma RegroupReply(pre: string, begin: string, out: string, prefix: string, text: string, nl: string, rest: string,
                     more: string)
    ensures pre + begin + (out + prefix + text + [US] + (nl + rest)) + more
         == pre + (begin + (out + (prefix + (text + [US] + (nl + rest)) + more)))
  {
  }

  /** A reply to another command holds no begin frame of this one, and none arises with
      what follows it, if the other command's output does not hold it. */
  lemma ForeignReplyHoldsNoFrame(a: seq<Byte>, b: seq<Byte>, d: string, pre: string, out: string, status: nat, nl: string,
                                 rest: string, more: string)
    requires |a| == |b| && a != b && Checked.Reply(d, FramesOf(Marker(a)), pre, out, status, nl, rest)
    requires !Contains(pre, Begin(Marker(b))) && !Contains(out, Begin(Marker(b))) && !Contains(more, Begin(Marker(b)))
    requires forall i :: 0 <= i < |rest| ==> rest[i] != RS
    ensures !Contains(d + more, Begin(Marker(b)))
  {
    var m, n := Marker(a), Marker(b);
    MarkersDiffer(a, b);
    MarkerIsValid(a);
    MarkerIsValid(b);
    FrameShape(n);
    ItoaHasNoFrameBytes(status);
    var end := Itoa(status) + [US] + (nl + rest);
    NoFrameInRecord(m, n, out, end, more, Begin(n));
    NoFrameInReply(m, n, pre, out + (Prefix(m) + end + more), Begin(n));
    RegroupReply(pre, Begin(m), out, Prefix(m), Itoa(status), nl, rest, more);
  }

  lemma ContainsInTail(s: string, k: nat, w: string)
    requires k <= |s| && !Contains(s, w)
    ensures !Contains(s[k..], w)
  {
    assert s == s[..k] + s[k..];
    forall i ensures !OccursAt(s[k..], w, i) {
      if 0 <= i && i + |w| <= |s| - k {
        assert s[k + i..k + i + |w|] == s[k..][i..i + |w|];
        assert !OccursAt(s, w, k + i);
      }
    }
  }

  /** `late` is what is still to come of a reply to another command when this one is sent. */
  ghost predicate IsLate(late: string, a: seq<Byte>, b: seq<Byte>) {
    exists d, k, pre, out, status: nat, nl, rest ::
      && LateReply(late, d, k, a, pre, out, status, nl, rest)
      && !Contains(pre, Begin(Marker(b))) && !Contains(out, Begin(Marker(b)))
  }

  ghost predicate LateReply(late: string, d: string, k: int, a: seq<Byte>, pre: string, out: string, status: nat, nl: string,
                            rest: string) {
    && Checked.Reply(d, FramesOf(Marker(a)), pre, out, status, nl, rest)
    && (forall i :: 0 <= i < |rest| ==> rest[i] != RS)
    && 0 <= k <= |d| && late == d[k..]
  }

  lemma NoFrameInTail(whole: string, k: int, late: string, pre: string, w: string)
    requires 0 <= k <= |whole| && late == whole[k..] && !Contains(whole + pre, w)
    ensures !Contains(late + pre, w)
  {
    ContainsInTail(whole + pre, k, w);
    assert (whole + pre)[k..] == late + pre;
  }

  lemma NoFrameInLate(late: string, a: seq<Byte>, b: seq<Byte>, pre: string)
    requires |a| == |b| && a != b && IsLate(late, a, b) && !Contains(pre, Begin(Marker(b)))
    ensures !Contains(late + pre, Begin(Marker(b)))
  {
    var d0, k, pre0, out0, status0: nat, nl0, rest0 :|
      && LateReply(late, d0, k, a, pre0, out0, status0, nl0, rest0)
      && !Contains(pre0, Begin(Marker(b))) && !Contains(out0, Begin(Marker(b)));
    ForeignReplyHoldsNoFrame(a, b, d0, pre0, out0, status0, nl0, rest0, pre);
    NoFrameInTail(d0, k, late, pre, Begin(Marker(b)));
  }

  /** Behind the rest of a late reply, this command's reply is still a reply. */
  lemma ReplyBehindLate(late: string, a: seq<Byte>, b: seq<Byte>, d: string, pre: string, out: string, status: nat,
                        nl: string, rest: string)
    requires |a| == |b| && a != b && IsLate(late, a, b)
    requires Checked.Reply(d, FramesOf(Marker(b)), pre, out, status, nl, rest)
    ensures Checked.Reply(late + d, FramesOf(Marker(b)), late + pre, out, status, nl, rest)
  {
    NoFrameInLate(late, a, b, pre);
    Behind(late, pre, Begin(Marker(b)), out + Prefix(Marker(b)) + Itoa(status) + [US] + (nl + rest));
  }

  lemma Behind(late: string, pre: string, begin: string, tail: string)
    ensures late + (pre + begin + tail) == late + pre + begin + tail
  {
  }

  /** A command that follows one of which the reply comes late: whatever that reply says,
      the result is this command's own output and status. */
  method RunAfterLate(tc: TelnetClient, nonce: seq<Byte>, command: string, ghost earlier: seq<Byte>, ghost late: string,
                      ghost d: string, ghost pre: string, ghost out: string, ghost status: nat, ghost nl: string,
                      ghost rest: string)
    returns (r: Checked.Result)
    requires tc.Valid() && Data(tc.input[tc.buffered..]) == late + d
    requires |earlier| == |nonce| && earlier != nonce && IsLate(late, earlier, nonce)
    requires Checked.Reply(d, FramesOf(Marker(nonce)), pre, out, status, nl, rest)
    modifies tc
    ensures !r.BadCommand? && !r.Unsent? ==> r == Exited(out, status)
    ensures r.BadCommand? <==> HasControl(command)
  {
    ReplyBehindLate(late, earlier, nonce, d, pre, out, status, nl, rest);
    r := Ask(tc, nonce, command);
  }

  // ---------- the device under the session ----------

  /** A run of `command` by the device's shell: with status 0 the full effect and its
      output, otherwise any part of the effect. */
  ghost predicate ShellRan(fs: Fs, command: string, after: Fs, out: string, status: nat) {
    if status == 0 then exists padding :: Perform(fs, Meaning(command), padding) == Some((after, out))
    else exists left, kept :: Spoil(fs, Meaning(command), left, kept) == after
  }

  /** What the caller of ExecuteChecked goes by. */
  function Seen(r: Checked.Result): Devices.Reply {
    if r.Nil() then Output(r.output) else Error
  }

  /** The full effect is one of those that an unconfirmed command may have had. */
  lemma FullEffectMayBeUnconfirmed(fs: Fs, action: Action, padding: nat, after: Fs, out: string)
    requires Perform(fs, action, padding) == Some((after, out))
    ensures exists left, kept :: Spoil(fs, action, left, kept) == after
  {
    match action
    case Write(t, _, _) => assert Spoil(fs, action, Holds(after.files[t]), {}) == after;
    case Cat(_, t) => assert Spoil(fs, action, Holds(after.files[t]), {}) == after;
    case MakeDir(_) => assert Spoil(fs, action, Gone, {}) == after;
    case RemoveTree(_) =>
      assert Spoil(fs, action, Gone, {}).files == after.files;
      assert Spoil(fs, action, Gone, {}) == after;
    case _ => assert Spoil(fs, action, Gone, {}) == after;
  }

  /** The abstract device allows whatever the session makes of the command. */
  lemma Refines(fs: Fs, command: string, after: Fs, out: string, status: nat, r: Checked.Result)
    requires !HasControl(command) && ShellRan(fs, command, after, out, status)
    requires r.Exited? ==> r.output == out && r.status == status
    ensures exists o :: Exec(fs, command, o) == (after, Seen(r))
  {
    if r.Nil() {
      var padding :| Perform(fs, Meaning(command), padding) == Some((after, out));
      assert Exec(fs, command, Succeeds(padding)) == (after, Seen(r));
    } else {
      if status == 0 {
        var padding :| Perform(fs, Meaning(command), padding) == Some((after, out));
        FullEffectMayBeUnconfirmed(fs, Meaning(command), padding, after, out);
      }
      var left, kept :| Spoil(fs, Meaning(command), left, kept) == after;
      assert Exec(fs, command, Fails(left, kept)) == (after, Seen(r));
    }
  }

  /** ExecuteChecked, leaving out what it sends. */
  method Ask(tc: TelnetClient, nonce: seq<Byte>, command: string) returns (r: Checked.Result)
    requires tc.Valid()
    modifies tc
    ensures ValidMarker(Marker(nonce))
    ensures HasControl(command) <==> r == BadCommand
    ensures r.Exited? ==> exists pre, nl, rest ::
      Checked.Reply(Data(old(tc.input)[old(tc.buffered)..]), FramesOf(Marker(nonce)), pre, r.output, r.status, nl, rest)
    ensures !r.BadCommand? && !r.Unsent? ==> Faithful(Data(old(tc.input)[old(tc.buffered)..]), FramesOf(Marker(nonce)), r)
  {
    MarkerIsValid(nonce);
    r := ExecuteChecked(tc, nonce, command);
  }

  /** A result that ExecuteChecked may give on a beginning of what the shell prints. */
  lemma ReadBack(marker: string, wire: string, received: string, echo: string, out: string, status: nat, crlf: bool,
                 prompt: string, r: Checked.Result)
    requires ValidMarker(marker) && received <= wire && Printed(Data(wire), marker, echo, out, status, crlf, prompt)
    requires !Contains(echo, Begin(marker)) && Calm(out, Prefix(marker)) && status <= 255
    requires exists q :: StopsAt(prompt, q, EndsInMark)
    requires r.Exited? ==> exists pre, nl, rest ::
      Checked.Reply(Data(received), FramesOf(marker), pre, r.output, r.status, nl, rest)
    ensures r.Exited? ==> r == Exited(out, status)
    ensures received == wire && Faithful(Data(received), FramesOf(marker), r) ==> r == Exited(out, status)
  {
    FrameShape(marker);
    ShellReply(Data(wire), marker, echo, out, status, crlf, prompt);
    if r.Exited? {
      DataPrefix(wire, received);
      ExitedIsCut(Data(wire), Data(received), FramesOf(marker), echo, out, status, if crlf then "\r\n" else "\n", prompt, r);
    }
  }

  lemma ExitedIsCut(d: string, t: string, f: Frames, pre: string, out: string, status: nat, nl: string, rest: string,
                    r: Checked.Result)
    requires f.Valid() && Checked.Reply(d, f, pre, out, status, nl, rest) && t <= d && r.Exited?
    requires exists pre', nl', rest' :: Checked.Reply(t, f, pre', r.output, r.status, nl', rest')
    ensures r == Exited(out, status)
  {
    var pre', nl', rest' :| Checked.Reply(t, f, pre', r.output, r.status, nl', rest');
    CutReply(d, t, f, pre, out, status, nl, rest, pre', r.output, r.status, nl', rest');
  }

  lemma Concluded(fs: Fs, command: string, after: Fs, out: string, status: nat, r: Checked.Result)
    requires r.BadCommand? <==> HasControl(command)
    requires ShellRan(fs, command, after, out, status) && (r.Exited? ==> r == Exited(out, status))
    ensures exists o :: Exec(fs, command, o) == (if r.BadCommand? then fs else after, Seen(r))
    ensures r.Nil() ==>
      Seen(r) == Output(out) && exists padding :: Exec(fs, command, Succeeds(padding)) == (after, Output(out))
  {
    if r.BadCommand? {
      assert Exec(fs, command, Succeeds(0)) == (fs, Error);
    } else {
      Refines(fs, command, after, out, status, r);
      if r.Nil() {
        var padding :| Perform(fs, Meaning(command), padding) == Some((after, out));
        assert Exec(fs, command, Succeeds(padding)) == (after, Output(out));
      }
    }
  }

  /** ExecuteChecked on a connection that delivers any beginning of what a shell prints
      for the request: echo, frame, output, record, prompt, with telnet commands in
      between, broken off at any byte. The result is the command's own output and status
      or an error, and the former if nothing is missing. So the session is a
      `Devices.Device`: the command had its full effect and its output is reported, or
      an error is reported and it had some part of its effect. */
  method RunCommand(tc: TelnetClient, nonce: seq<Byte>, command: string, ghost wire: string, ghost echo: string,
                    ghost crlf: bool, ghost prompt: string, ghost fs: Fs, ghost after: Fs, ghost out: string,
                    ghost status: nat)
    returns (r: Checked.Result)
    requires tc.Valid() && tc.input[tc.buffered..] <= wire
    requires Printed(Data(wire), Marker(nonce), echo, out, status, crlf, prompt)
    requires !Contains(echo, Begin(Marker(nonce))) && Calm(out, Prefix(Marker(nonce))) && status <= 255
    requires exists q :: StopsAt(prompt, q, EndsInMark)
    requires ShellRan(fs, command, after, out, status)
    modifies tc
    ensures r.Exited? ==> r == Exited(out, status)
    ensures old(tc.input)[old(tc.buffered)..] == wire && !r.BadCommand? && !r.Unsent? ==> r == Exited(out, status)
    ensures r.BadCommand? <==> HasControl(command)
    ensures exists o :: Exec(fs, command, o) == (if r.BadCommand? then fs else after, Seen(r))
    ensures r.Nil() ==>
      Seen(r) == Output(out) && exists padding :: Exec(fs, command, Succeeds(padding)) == (after, Output(out))
  {
    ghost var received := tc.input[tc.buffered..];
    r := Ask(tc, nonce, command);
    ReadBack(Marker(nonce), wire, received, echo, out, status, crlf, prompt, r);
    Concluded(fs, command, after, out, status, r);
  }
}
