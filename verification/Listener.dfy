/** internal/xfer/listener.go: the host side of the fast protocol. */
module Listener {
  import opened Text
  import opened Wire
  import Fileloader

  const WRITE_CHUNK: nat := 64 * 1024
  const MAX_ERROR: nat := 4096

  // ---------- reading and writing a connection ----------

  /** io.ReadFull: exactly `n` bytes, or an error. */
  method ReadExactly(conn: Channel, n: nat) returns (data: Option<seq<Byte>>)
    modifies conn`incoming, conn`interrupts
    ensures data.Some? ==>
      n <= |old(conn.incoming)| && data.value == old(conn.incoming)[..n] && conn.incoming == old(conn.incoming)[n..]
    ensures data.None? ==> conn.faulty || |old(conn.incoming)| < n
  {
    var buf := new Byte[n];
    var ok := Fileloader.ReadFull(conn, buf, n);
    assert buf[..n] == buf[..];
    return if ok then Some(buf[..]) else None;
  }

  /** A deadline was set at most 64 KiB before byte `k`. */
  ghost predicate Timed(deadlines: seq<nat>, k: nat) {
    exists i :: 0 <= i < |deadlines| && deadlines[i] <= k < deadlines[i] + WRITE_CHUNK
  }

  ghost predicate Paced(deadlines: seq<nat>, a: nat, b: nat) {
    forall k :: a <= k < b ==> Timed(deadlines, k)
  }

  lemma PacedFurther(deadlines: seq<nat>, more: seq<nat>, a: nat, b: nat, c: nat)
    requires Paced(deadlines, a, b) && a <= b <= c <= b + WRITE_CHUNK && more == deadlines + [b]
    ensures Paced(more, a, c)
  {
    forall k | a <= k < c ensures Timed(more, k) {
      if k < b {
        assert Timed(deadlines, k);
        var i :| 0 <= i < |deadlines| && deadlines[i] <= k < deadlines[i] + WRITE_CHUNK;
        assert more[i] == deadlines[i];
      } else {
        assert more[|deadlines|] == b;
      }
    }
  }

  lemma PacedBoth(deadlines: seq<nat>, more: seq<nat>, a: nat, b: nat, c: nat)
    requires deadlines <= more && a <= b <= c && Paced(deadlines, a, b) && Paced(more, b, c)
    ensures Paced(more, a, c)
  {
    forall k | a <= k < b ensures Timed(more, k) {
      assert Timed(deadlines, k);
      var i :| 0 <= i < |deadlines| && deadlines[i] <= k < deadlines[i] + WRITE_CHUNK;
      assert more[i] == deadlines[i];
    }
  }

  /** deadlineWriter.Write: `total` bytes were accepted, and all of them if and only
      if there is no error, each under a deadline of its own 64 KiB. A deadline that cannot
      be set is a fault of the channel. */
  method DeadlineWrite(conn: Channel, data: seq<Byte>) returns (total: nat, ok: bool)
    modifies conn`out, conn`interrupts, conn`deadlines
    ensures total <= |data| && conn.out == old(conn.out) + data[..total]
    ensures ok <==> total == |data|
    ensures !conn.faulty ==> ok
    ensures old(conn.deadlines) <= conn.deadlines && Paced(conn.deadlines, |old(conn.out)|, |conn.out|)
  {
    total := 0;
    var p := data;
    assert data[..0] == [];
    while |p| > 0
      invariant total <= |data| && p == data[total..]
      invariant conn.out == old(conn.out) + data[..total]
      invariant old(conn.deadlines) <= conn.deadlines && Paced(conn.deadlines, |old(conn.out)|, |conn.out|)
      decreases |p|, conn.interrupts
    {
      ghost var before, done: nat := conn.deadlines, |conn.out|;
      var armed := conn.SetWriteDeadline();
      if !armed {
        assert conn.deadlines == before;
        return total, false;
      }
      PacedFurther(before, conn.deadlines, |old(conn.out)|, done, done);
      var chunk := if |p| > WRITE_CHUNK then p[..WRITE_CHUNK] else p;
      var w := conn.Write(chunk);
      if w.Interrupted? {   // retried below the net package
        continue;
      }
      if w.Failed? || w.n == 0 {
        return total, false;
      }
      PacedFurther(before, conn.deadlines, |old(conn.out)|, done, done + w.n);
      assert chunk[..w.n] == p[..w.n];
      assert data[..total + w.n] == data[..total] + p[..w.n];
      total := total + w.n;
      p := p[w.n..];
    }
    return total, true;
  }

  /** The writing goroutine: header, then data. */
  method WriteFrame(conn: Channel, name: seq<Byte>, data: seq<Byte>) returns (failed: Option<string>)
    modifies conn`out, conn`interrupts, conn`deadlines
    ensures old(conn.out) <= conn.out && Paced(conn.deadlines, |old(conn.out)|, |conn.out|)
    ensures var written := conn.out[|old(conn.out)|..]; var frame := PushFrame(name, data);
      written <= frame && (failed.None? <==> written == frame)
    ensures !conn.faulty ==> failed.None?
  {
    var header := PushHeader(name, |data|);
    ghost var before := conn.out;
    var n, ok := DeadlineWrite(conn, header);
    assert conn.out[|before|..] == header[..n] == PushFrame(name, data)[..n];
    if !ok {
      return Some("write header");
    }
    assert header[..n] == header;
    ghost var deadlines, middle: nat := conn.deadlines, |conn.out|;
    n, ok := DeadlineWrite(conn, data);
    PacedBoth(deadlines, conn.deadlines, |before|, middle, |conn.out|);
    assert conn.out[|before|..] == header + data[..n] == PushFrame(name, data)[..|header| + n];
    return if ok then None else Some("write data");
  }

  // ---------- the device's answer ----------

  datatype Completion =
    | Accepted
    | Refused(message: seq<Byte>)   // the device's own words
    | Broken(step: string)          // the answer could not be read
    | Oversized(size: nat)
    | Unexpected(kind: Byte)

  /** What the bytes after an error type say. */
  function RemoteErrorOf(s: seq<Byte>): Completion {
    if |s| < 4 then Broken("read error length")
    else
      var size := FromBig(s[..4]);
      if size > MAX_ERROR then Oversized(size)
      else if |s| < 4 + size then Broken("read error message")
      else Refused(s[4..4 + size])
  }

  function CompletionOf(s: seq<Byte>): Completion {
    if s == [] then Broken("read push completion")
    else if s[0] == TYPE_OK then Accepted
    else if s[0] == TYPE_ERROR then RemoteErrorOf(s[1..])
    else Unexpected(s[0])
  }

  method ReadRemoteError(conn: Channel) returns (c: Completion)
    modifies conn`incoming, conn`interrupts
    ensures c == RemoteErrorOf(old(conn.incoming)) || (conn.faulty && c.Broken?)
  {
    ghost var s := conn.incoming;
    var head := ReadExactly(conn, 4);
    if head.None? {
      return Broken("read error length");
    }
    var size := FromBig(head.value);
    if size > MAX_ERROR {
      return Oversized(size);
    }
    var message := ReadExactly(conn, size);
    if message.None? {
      return Broken("read error message");
    }
    assert s[4..][..size] == s[4..4 + size];
    return Refused(message.value);
  }

  /** readPushCompletion: on a working connection the answer is read exactly, and a
      fault can only make it unreadable, never change it. */
  method ReadPushCompletion(conn: Channel) returns (c: Completion)
    modifies conn`incoming, conn`interrupts
    ensures c == CompletionOf(old(conn.incoming)) || (conn.faulty && c.Broken?)
  {
    var kind := ReadExactly(conn, 1);
    if kind.None? {
      return Broken("read push completion");
    }
    if kind.value[0] == TYPE_OK {
      return Accepted;
    } else if kind.value[0] == TYPE_ERROR {
      c := ReadRemoteError(conn);
    } else {
      return Unexpected(kind.value[0]);
    }
  }

  /** Once a prefix of the answer says something, more bytes do not change it. */
  lemma CompletionStable(s: seq<Byte>, more: seq<Byte>)
    requires !CompletionOf(s).Broken?
    ensures CompletionOf(s + more) == CompletionOf(s)
  {
    var t := s + more;
    assert t[0] == s[0];
    if s[0] == TYPE_ERROR {
      var a, b := s[1..], t[1..];
      assert b[..4] == a[..4];
      if FromBig(a[..4]) <= MAX_ERROR {
        assert b[4..4 + FromBig(a[..4])] == a[4..4 + FromBig(a[..4])];
      }
    }
  }

  /** The two ends agree on error messages: the host reads the loader's own words when
      all of them arrive, and nothing but a reading failure when they are cut. */
  lemma ErrorMessageRoundTrip(message: seq<Byte>, k: nat)
    requires |message| < Fileloader.BUFFER && k <= |Fileloader.ErrorReply(message)|
    ensures var reply := Fileloader.ErrorReply(message);
      if k == |reply| then CompletionOf(reply[..k]) == Refused(message) else CompletionOf(reply[..k]).Broken?
  {
    var reply := Fileloader.ErrorReply(message);
    var s := reply[..k];
    BigEndianRoundTrip(|message|, 4);
    Powers();
    if k > 0 {
      assert s[0] == TYPE_ERROR;
      var a := s[1..];
      if |a| >= 4 {
        assert reply[1..5] == U32(|message|) && a[..4] == reply[1..5];
        if k == |reply| {
          assert a == U32(|message|) + message;
        }
      }
    }
  }

  /** Only the acknowledgement is read as success, for every answer the loader gives. */
  lemma AcceptedOnlyIfAcknowledged(incoming: seq<Byte>, before: seq<Byte>, after: seq<Byte>, reply: seq<Byte>, k: nat)
    requires Fileloader.PushOutcome(incoming, before, after, reply) && k <= |reply|
    ensures CompletionOf(reply[..k]).Accepted? <==> k == 1 && reply == [TYPE_OK]
    ensures !CompletionOf(reply[..k]).Oversized? && !CompletionOf(reply[..k]).Unexpected?
  {
    if reply == [TYPE_OK] || reply == [] {
      assert k == 1 ==> reply[..k] == reply;
    } else {
      ghost var message, j :| |message| < Fileloader.BUFFER && 0 <= j <= |Fileloader.ErrorReply(message)|
        && reply == Fileloader.ErrorReply(message)[..j];
      assert reply[..k] == Fileloader.ErrorReply(message)[..k];
      ErrorMessageRoundTrip(message, k);
    }
  }

  // ---------- AcceptAndPull ----------

  datatype PullError =
    | NotConnected              // a SetupError
    | Remote(c: Completion)
    | Malformed(step: string)   // unreadable or unexpected bytes
    | NotWritten

  /** What the stream of a pull says: an error or the file. */
  function Pulled(s: seq<Byte>): Option<seq<Byte>> {
    if |s| < 5 || s[0] != TYPE_PULL then None
    else
      var n := 5 + FromBig(s[1..5]);
      if |s| < n + 9 || s[n] != TYPE_DATA then None
      else
        var size := FromBig(s[n + 1..n + 9]);
        if |s| < n + 9 + size then None else Some(s[n + 9..n + 9 + size])
  }

  /** AcceptAndPull. The local file is written if and only if the whole payload was
      received; it then holds that payload, unless the write itself fails. */
  method AcceptAndPull(connected: bool, conn: Channel, local: Option<seq<Byte>>, writable: bool)
    returns (error: Option<PullError>, file: Option<seq<Byte>>)
    modifies conn`incoming, conn`interrupts
    ensures error.None? ==> writable && Pulled(old(conn.incoming)).Some? && file == Pulled(old(conn.incoming))
    ensures error.Some? && error.value != NotWritten ==> file == local
    ensures error == Some(NotWritten) ==> Pulled(old(conn.incoming)).Some? && !writable
    ensures error == Some(NotConnected) <==> !connected
    ensures connected && writable && !conn.faulty && Pulled(old(conn.incoming)).Some? ==> error.None?
    ensures connected && !conn.faulty && old(conn.incoming) != [] && old(conn.incoming)[0] == TYPE_ERROR ==>
      error == Some(Remote(RemoteErrorOf(old(conn.incoming)[1..])))
  {
    file := local;
    if !connected {
      return Some(NotConnected), local;
    }
    ghost var s := conn.incoming;
    var kind := ReadExactly(conn, 1);
    if kind.None? {
      return Some(Malformed("read type")), local;
    }
    if kind.value[0] == TYPE_ERROR {
      var c := ReadRemoteError(conn);
      return Some(Remote(c)), local;
    }
    if kind.value[0] != TYPE_PULL {
      return Some(Malformed("expected PULL type")), local;
    }
    var head := ReadExactly(conn, 4);
    if head.None? {
      return Some(Malformed("read namelen")), local;
    }
    assert s[1..][..4] == s[1..5] && s[1..][4..] == s[5..];
    var namelen := FromBig(head.value);
    var name := ReadExactly(conn, namelen);
    if name.None? {
      return Some(Malformed("read filename")), local;
    }
    ghost var n := 5 + namelen;
    assert s[5..][namelen..] == s[n..];
    var data, failed := ReceiveData(conn, s, n);
    if data.None? {
      return Some(Malformed(failed)), local;
    }
    if !writable {
      var left: Option<seq<Byte>> := *;
      return Some(NotWritten), left;
    }
    return None, data;
  }

  /** The data frame that starts at offset `n` of the stream `s`. */
  method ReceiveData(conn: Channel, ghost s: seq<Byte>, ghost n: nat) returns (data: Option<seq<Byte>>, failed: string)
    requires n <= |s| && conn.incoming == s[n..]
    modifies conn`incoming, conn`interrupts
    ensures data.Some? ==>
      && n + 9 <= |s| && s[n] == TYPE_DATA
      && var size := FromBig(s[n + 1..n + 9]);
         n + 9 + size <= |s| && data.value == s[n + 9..n + 9 + size]
    ensures data.None? ==>
      || conn.faulty || |s| < n + 9 || s[n] != TYPE_DATA || |s| < n + 9 + FromBig(s[n + 1..n + 9])
  {
    var kind := ReadExactly(conn, 1);
    if kind.None? {
      return None, "read data type";
    }
    assert kind.value[0] == s[n] && s[n..][1..] == s[n + 1..];
    if kind.value[0] != TYPE_DATA {
      return None, "expected DATA type";
    }
    var head := ReadExactly(conn, 8);
    if head.None? {
      return None, "read filesize";
    }
    assert s[n + 1..][..8] == s[n + 1..n + 9] && s[n + 1..][8..] == s[n + 9..];
    var size := FromBig(head.value);
    data := ReadExactly(conn, size);
    if data.None? {
      return None, "read data";
    }
    assert s[n + 9..][..size] == s[n + 9..n + 9 + size];
    return data, "";
  }

  /** The two ends of a pull agree. Whatever prefix arrives of whatever the loader sends
      for a file of which `content` could be read, the host takes it for a file only
      if that is exactly the first `size` bytes, and recognises all of them, even if
      the file has grown since its size was taken. */
  lemma PullAgrees(name: seq<Byte>, size: nat, content: seq<Byte>, reply: seq<Byte>, k: nat)
    requires size <= MAX_UINT64 && Fileloader.PullOutcome(name, size, content, reply) && k <= |reply|
    ensures Pulled(reply[..k]).Some? ==> size <= |content| && Pulled(reply[..k]) == Some(content[..size])
    ensures var header := Fileloader.PullHeader(Fileloader.AnnouncedName(name), size);
      size <= |content| && header + content[..size] <= reply[..k] ==> Pulled(reply[..k]) == Some(content[..size])
  {
    var s := reply[..k];
    if Fileloader.IsErrorReply(reply) {
      NothingPulled(reply, k);
    } else {
      PullHeaderParts(Fileloader.AnnouncedName(name), size, content, s);
    }
  }

  /** No part of an error reply is taken for a file. */
  lemma NothingPulled(reply: seq<Byte>, k: nat)
    requires Fileloader.IsErrorReply(reply) && k <= |reply|
    ensures Pulled(reply[..k]).None?
  {
    ghost var message, j :| |message| < Fileloader.BUFFER && 0 <= j <= |Fileloader.ErrorReply(message)|
      && reply == Fileloader.ErrorReply(message)[..j];
    assert k > 0 ==> reply[..k][0] == TYPE_ERROR;
  }

  lemma PullHeaderParts(name: seq<Byte>, size: nat, content: seq<Byte>, s: seq<Byte>)
    requires |name| < 0x1_0000_0000 && size <= MAX_UINT64 && s <= Fileloader.PullHeader(name, size) + content
    ensures Pulled(s).Some? <==> |s| >= 14 + |name| + size
    ensures Pulled(s).Some? ==> size <= |content| && Pulled(s) == Some(content[..size])
  {
    var f := Fileloader.PullHeader(name, size) + content;
    var n := 5 + |name|;
    Powers();
    BigEndianRoundTrip(|name|, 4);
    BigEndianRoundTrip(size, 8);
    assert f[1..5] == U32(|name|) && f[n] == TYPE_DATA && f[n + 1..n + 9] == U64(size) && f[n + 9..] == content;
    if |s| >= 5 {
      assert s[1..5] == f[1..5];
    }
    if |s| >= n + 9 {
      assert s[n + 1..n + 9] == f[n + 1..n + 9];
    }
    if |s| >= n + 9 + size {
      assert s[n + 9..n + 9 + size] == f[n + 9..][..size];
    }
  }
}
