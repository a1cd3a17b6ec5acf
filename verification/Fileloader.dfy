/** internal/helpers/src/fileloader.c: the device side of the fast protocol. */
module Fileloader {
  import opened Text
  import opened Wire

  const BUFFER: nat := 4096

  // ---------- full reads and writes ----------

  /** Fills buf[..n] whatever the sizes of the single reads. */
  method ReadFull(fd: Channel, buf: array<Byte>, n: nat) returns (ok: bool)
    requires n <= buf.Length
    modifies fd`incoming, fd`interrupts, buf
    ensures ok ==> n <= |old(fd.incoming)| && buf[..n] == old(fd.incoming)[..n] && fd.incoming == old(fd.incoming)[n..]
    ensures !ok ==> fd.faulty || |old(fd.incoming)| < n
  {
    var total := 0;
    while total < n
      invariant total <= n && total <= |old(fd.incoming)|
      invariant buf[..total] == old(fd.incoming)[..total]
      invariant fd.incoming == old(fd.incoming)[total..]
      decreases n - total, fd.interrupts
    {
      var r := fd.Read(buf, total, n - total);
      if r.Interrupted? {
        continue;
      }
      if r.Failed? || r.n == 0 {
        return false;
      }
      assert buf[..total + r.n] == buf[..total] + buf[total..total + r.n];
      total := total + r.n;
    }
    return true;
  }

  /** Delivers all of `data`, or a prefix of it when the channel fails. */
  method WriteFull(fd: Channel, data: seq<Byte>) returns (ok: bool)
    modifies fd`out, fd`interrupts
    ensures ok ==> fd.out == old(fd.out) + data
    ensures !ok ==> fd.faulty && exists k :: 0 <= k < |data| && fd.out == old(fd.out) + data[..k]
  {
    var total := 0;
    assert data[..0] == [];
    while total < |data|
      invariant total <= |data| && fd.out == old(fd.out) + data[..total]
      decreases |data| - total, fd.interrupts
    {
      var w := fd.Write(data[total..]);
      if w.Interrupted? {
        continue;
      }
      if w.Failed? || w.n == 0 {
        return false;
      }
      assert data[..total + w.n] == data[..total] + data[total..][..w.n];
      total := total + w.n;
    }
    assert data[..total] == data;
    return true;
  }

  method ReadU32(fd: Channel) returns (v: Option<nat>)
    modifies fd`incoming, fd`interrupts
    ensures v.Some? ==>
      && 4 <= |old(fd.incoming)|
      && v.value == FromBig(old(fd.incoming)[..4]) && fd.incoming == old(fd.incoming)[4..]
    ensures v.None? ==> fd.faulty || |old(fd.incoming)| < 4
  {
    var buf := new Byte[4];
    var ok := ReadFull(fd, buf, 4);
    if !ok {
      return None;
    }
    return Some(FromBig(buf[..4]));
  }

  method ReadU64(fd: Channel) returns (v: Option<nat>)
    modifies fd`incoming, fd`interrupts
    ensures v.Some? ==>
      && 8 <= |old(fd.incoming)|
      && v.value == FromBig(old(fd.incoming)[..8]) && fd.incoming == old(fd.incoming)[8..]
    ensures v.None? ==> fd.faulty || |old(fd.incoming)| < 8
  {
    var hi := ReadU32(fd);
    if hi.None? {
      return None;
    }
    var lo := ReadU32(fd);
    if lo.None? {
      return None;
    }
    var s := old(fd.incoming)[..8];
    HalvesAgree(s);
    assert s[..4] == old(fd.incoming)[..4] && s[4..] == old(fd.incoming)[4..][..4];
    return Some(hi.value * 0x1_0000_0000 + lo.value);
  }

  // ---------- error replies ----------

  function ErrorReply(message: seq<Byte>): seq<Byte> {
    [TYPE_ERROR] + U32(|message|) + message
  }

  /** The reply is, as far as it got, an error message that fits the buffer. */
  ghost predicate IsErrorReply(reply: seq<Byte>) {
    exists message, k :: |message| < BUFFER && 0 <= k <= |ErrorReply(message)| && reply == ErrorReply(message)[..k]
  }

  function Ascii(s: string): (b: seq<Byte>)
    ensures |b| == |s|
  {
    seq(|s|, i requires 0 <= i < |s| => s[i] as int % 256)
  }

  /** snprintf into 4096 bytes. */
  function Message(context: seq<Byte>, cause: seq<Byte>): (m: seq<Byte>)
    ensures |m| < BUFFER && m <= context + [58, 32] + cause
    ensures |context| + 2 + |cause| < BUFFER ==> |m| == |context| + 2 + |cause|
  {
    var full := context + [58, 32] + cause;
    if |full| < BUFFER then full else full[..BUFFER - 1]
  }

  method SendError(sock: Channel, context: string, cause: seq<Byte>) returns (rc: int)
    modifies sock`out, sock`interrupts
    ensures rc == 1
    ensures old(sock.out) <= sock.out && IsErrorReply(sock.out[|old(sock.out)|..])
    ensures sock.out[|old(sock.out)|..] != [TYPE_OK]
    ensures !sock.faulty ==> sock.out == old(sock.out) + ErrorReply(Message(Ascii(context), cause))
  {
    var m := Message(Ascii(context), cause);
    var ok := WriteFull(sock, [TYPE_ERROR]);
    if ok {
      ok := WriteFull(sock, U32(|m|));
      if ok {
        ok := WriteFull(sock, m);
      }
    }
    ghost var reply := sock.out[|old(sock.out)|..];
    assert sock.out == old(sock.out) + reply;
    assert reply == ErrorReply(m)[..|reply|];
    assert reply != [] ==> reply[0] == TYPE_ERROR;
    return 1;
  }

  // ---------- do_push ----------

  /** What the push program may leave behind, `incoming` being all that it is sent,
      `reply` what it answers, `before` and `after` the destination's contents. */
  ghost predicate PushOutcome(incoming: seq<Byte>, before: seq<Byte>, after: seq<Byte>, reply: seq<Byte>) {
    && (reply == [TYPE_OK] ==> Delivers(incoming, after))
    && (reply == [] || reply == [TYPE_OK] || IsErrorReply(reply))
    && (after == before || (HeaderLength(incoming).Some? && after <= PayloadSoFar(incoming)))
  }

  /** Consumes the file name, a buffer at a time. */
  method SkipName(sock: Channel, namelen: nat) returns (ok: bool)
    modifies sock`incoming, sock`interrupts
    ensures ok ==> namelen <= |old(sock.incoming)| && sock.incoming == old(sock.incoming)[namelen..]
    ensures !ok ==> sock.faulty || |old(sock.incoming)| < namelen
  {
    var buf := new Byte[BUFFER];
    var remaining := namelen;
    while remaining > 0
      invariant 0 <= remaining <= namelen && namelen - remaining <= |old(sock.incoming)|
      invariant sock.incoming == old(sock.incoming)[namelen - remaining..]
    {
      ghost var done := namelen - remaining;
      var chunk := if remaining > BUFFER then BUFFER else remaining;
      ok := ReadFull(sock, buf, chunk);
      if !ok {
        return;
      }
      assert old(sock.incoming)[done..][chunk..] == old(sock.incoming)[done + chunk..];
      remaining := remaining - chunk;
    }
    return true;
  }

  /** Copies the payload to the output file, a buffer at a time; the file always
      holds a prefix of the payload. Answers the step that failed, if one did. */
  method CopyPayload(sock: Channel, file: Channel, filesize: nat) returns (failed: Option<string>)
    requires sock != file && file.out == []
    modifies sock`incoming, sock`interrupts, file`out, file`interrupts
    ensures failed.None? ==> filesize <= |old(sock.incoming)| && file.out == old(sock.incoming)[..filesize]
    ensures failed.Some? ==> sock.faulty || file.faulty || |old(sock.incoming)| < filesize
    ensures |file.out| <= filesize && file.out <= old(sock.incoming)
  {
    var buf := new Byte[BUFFER];
    var copied := 0;
    while copied < filesize
      invariant copied <= filesize && copied <= |old(sock.incoming)|
      invariant sock.incoming == old(sock.incoming)[copied..]
      invariant file.out == old(sock.incoming)[..copied]
    {
      var chunk := if filesize - copied > BUFFER then BUFFER else filesize - copied;
      var ok := ReadFull(sock, buf, chunk);
      if !ok {
        return Some("read data");
      }
      ghost var written := file.out;
      assert old(sock.incoming)[..copied + chunk] == written + buf[..chunk];
      ok := WriteFull(file, buf[..chunk]);
      if !ok {
        return Some("write output");
      }
      copied := copied + chunk;
    }
    return None;
  }

  /** The size announced by a push header, or the step that could not be read. */
  datatype Header = Size(filesize: nat) | Broken(step: string)

  method ReadHeader(sock: Channel) returns (h: Header)
    modifies sock`incoming, sock`interrupts
    ensures h.Size? ==>
      && HeaderLength(old(sock.incoming)).Some?
      && h.filesize == PayloadSize(old(sock.incoming))
      && sock.incoming == old(sock.incoming)[HeaderLength(old(sock.incoming)).value..]
    ensures h.Broken? ==> sock.faulty || HeaderLength(old(sock.incoming)).None?
  {
    ghost var s := sock.incoming;
    var kind := new Byte[1];
    var ok := ReadFull(sock, kind, 1);
    if !ok {
      return Broken("read type");
    }
    assert kind[..1] == [kind[0]] && s[..1] == [s[0]];
    if kind[0] != TYPE_PUSH {
      return Broken("expected PUSH type");
    }
    var namelen := ReadU32(sock);
    if namelen.None? {
      return Broken("read namelen");
    }
    assert s[1..][..4] == s[1..5] && s[1..][4..] == s[5..];
    ok := SkipName(sock, namelen.value);
    if !ok {
      return Broken("read filename");
    }
    ghost var at := 5 + namelen.value;
    assert s[5..][namelen.value..] == s[at..];
    var filesize := ReadU64(sock);
    if filesize.None? {
      return Broken("read filesize");
    }
    assert s[at..][..8] == s[at..at + 8] && s[at..][8..] == s[at + 8..];
    return Size(filesize.value);
  }

  /** do_push. `file.out` is the content of the destination, `opens` and `closes` tell
      whether it can be opened and closed, and `cause` is the text of whatever error
      occurs. The acknowledgement is sent only when the destination
      holds exactly the announced payload, and the destination is not touched before
      the whole header has arrived. On a working socket every failure is reported. */
  method DoPush(sock: Channel, file: Channel, opens: bool, closes: bool, cause: seq<Byte>) returns (rc: int)
    requires sock != file
    modifies sock`incoming, sock`interrupts, sock`out, file`out, file`interrupts
    ensures old(sock.out) <= sock.out
    ensures var reply := sock.out[|old(sock.out)|..];
      && PushOutcome(old(sock.incoming), old(file.out), file.out, reply)
      && (rc == 0 <==> reply == [TYPE_OK])
      && (!sock.faulty && rc != 0 ==> exists m :: |m| < BUFFER && reply == ErrorReply(m))
    ensures !sock.faulty && !file.faulty && opens && closes ==>
      (rc == 0 <==> exists content :: Delivers(old(sock.incoming), content))
    ensures !opens || !closes ==> rc == 1
    ensures !opens ==> file.out == old(file.out)
  {
    ghost var s := sock.incoming;
    var h := ReadHeader(sock);
    if h.Broken? {
      rc := SendError(sock, h.step, cause);
      return;
    }
    if !opens {
      rc := SendError(sock, "open output", cause);
      return;
    }
    file.out := [];
    ghost var n := HeaderLength(s).value;
    var failed := CopyPayload(sock, file, h.filesize);
    assert file.out <= PayloadSoFar(s);
    if failed.Some? {
      rc := SendError(sock, failed.value, cause);
      return;
    }
    assert s[n..][..h.filesize] == s[n..n + h.filesize];
    assert Delivers(s, file.out);
    if !closes {
      rc := SendError(sock, "close output", cause);
      return;
    }
    var ok := WriteFull(sock, [TYPE_OK]);
    assert ok ==> sock.out[|old(sock.out)|..] == [TYPE_OK];
    assert [TYPE_OK][..0] == [] && [TYPE_OK][..1] == [TYPE_OK];
    return if ok then 0 else 1;
  }

  // ---------- do_pull ----------

  /** [type][u32 length][name][data type][u64 size], as do_pull writes it. */
  function PullHeader(name: seq<Byte>, size: nat): seq<Byte> {
    [TYPE_PULL] + U32(|name|) + name + [TYPE_DATA] + U64(size)
  }

  /** strlen is kept in 32 bits, and only that many bytes of the name are sent. */
  function AnnouncedName(name: seq<Byte>): (n: seq<Byte>)
    ensures |n| < 0x1_0000_0000 && n <= name
  {
    name[..|name| % 0x1_0000_0000]
  }

  /** What the pull program may send: an error message, or its header and as much of
      the file as it could read and send, cut anywhere. */
  ghost predicate PullOutcome(name: seq<Byte>, size: int, content: seq<Byte>, reply: seq<Byte>) {
    IsErrorReply(reply) || (size >= 0 && reply <= PullHeader(AnnouncedName(name), size) + content)
  }

  method SendPullHeader(sock: Channel, name: seq<Byte>, size: nat) returns (ok: bool)
    modifies sock`out, sock`interrupts
    ensures old(sock.out) <= sock.out
    ensures var reply := sock.out[|old(sock.out)|..]; var h := PullHeader(AnnouncedName(name), size);
      reply <= h && (ok ==> reply == h)
    ensures !ok ==> sock.faulty
  {
    var n := AnnouncedName(name);
    ghost var h := PullHeader(n, size);
    ok := WriteFull(sock, [TYPE_PULL]);
    if ok {
      ok := WriteFull(sock, U32(|n|));
      if ok {
        ok := WriteFull(sock, n);
        if ok {
          ok := WriteFull(sock, [TYPE_DATA]);
          if ok {
            ok := WriteFull(sock, U64(size));
          }
        }
      }
    }
    ghost var reply := sock.out[|old(sock.out)|..];
    assert sock.out == old(sock.out) + reply;
    assert reply == h[..|reply|];
  }

  lemma PrefixExtends(before: seq<Byte>, content: seq<Byte>, i: nat, j: nat, k: nat)
    requires i + k <= j <= |content|
    ensures before + content[..i] + content[i..j][..k] == before + content[..i + k]
  {
  }

  /** Sends what successive reads deliver, until `size` bytes have been sent or a read
      gives nothing. */
  method SendContent(sock: Channel, file: Channel, size: nat) returns (ok: bool)
    requires sock != file
    modifies sock`out, sock`interrupts, file`incoming, file`interrupts
    ensures old(sock.out) <= sock.out && sock.out[|old(sock.out)|..] <= old(file.incoming)
    ensures !ok ==> sock.faulty
    ensures ok && !file.faulty && old(file.interrupts) == 0 && size <= |old(file.incoming)| ==>
      |sock.out| >= |old(sock.out)| + size
  {
    ghost var content, before := file.incoming, sock.out;
    assert before + content[..0] == before;
    var buf := new Byte[BUFFER];
    var sent := 0;
    while sent < size
      invariant 0 <= sent <= |content| && file.incoming == content[sent..]
      invariant sock.out == before + content[..sent]
      invariant file.interrupts <= old(file.interrupts)
    {
      var r := file.Read(buf, 0, BUFFER);
      if !r.Count? || r.n == 0 {
        break;
      }
      var chunk := buf[..r.n];
      assert chunk == buf[0..0 + r.n] == content[sent..][..r.n] == content[sent..sent + r.n];
      ok := WriteFull(sock, chunk);
      if !ok {
        ghost var k :| 0 <= k < r.n && sock.out == before + content[..sent] + chunk[..k];
        PrefixExtends(before, content, sent, sent + r.n, k);
        return;
      }
      PrefixExtends(before, content, sent, sent + r.n, r.n);
      assert chunk[..r.n] == chunk;
      sent := sent + r.n;
    }
    return true;
  }

  /** do_pull. `opens` tells whether the file can be opened, `file.incoming` is what
      successive reads of it deliver and `size` what lseek answered, so the file may grow
      or shrink in between. Only a file that cannot be opened is reported to the host; a
      read that fails or is interrupted ends the loop without an error. */
  method DoPull(sock: Channel, file: Channel, opens: bool, name: seq<Byte>, size: int, cause: seq<Byte>) returns (rc: int)
    requires sock != file
    modifies sock`out, sock`interrupts, file`incoming, file`interrupts
    ensures old(sock.out) <= sock.out
    ensures var reply := sock.out[|old(sock.out)|..];
      PullOutcome(name, size, old(file.incoming), reply)
    ensures !sock.faulty && opens && size >= 0 ==> rc == 0
    ensures !opens ==> rc == 1 && file.incoming == old(file.incoming)
    ensures !opens && !sock.faulty ==> sock.out == old(sock.out) + ErrorReply(Message(Ascii("open input"), cause))
    ensures opens && size < 0 ==> rc == 1 && sock.out == old(sock.out)
    ensures !sock.faulty && !file.faulty && opens && old(file.interrupts) == 0 && 0 <= size <= |old(file.incoming)| ==>
      old(sock.out) + PullHeader(AnnouncedName(name), size) + old(file.incoming)[..size] <= sock.out
  {
    if !opens {
      rc := SendError(sock, "open input", cause);
      return;
    }
    if size < 0 {
      assert [] == ErrorReply([])[..0];
      return 1;
    }
    ghost var content := file.incoming;
    ghost var h := PullHeader(AnnouncedName(name), size);
    var ok := SendPullHeader(sock, name, size);
    if !ok {
      return 1;
    }
    assert sock.out == old(sock.out) + h;
    ok := SendContent(sock, file, size);
    return if ok then 0 else 1;
  }
}
