/** The fast protocol's wire format, and byte streams with short reads and writes. */
module Wire {
  import opened Text

  const TYPE_PUSH: Byte := 1
  const TYPE_PULL: Byte := 2
  const TYPE_DATA: Byte := 3
  const TYPE_ERROR: Byte := 4
  const TYPE_OK: Byte := 5

  // ---------- big-endian numbers ----------

  function Power256(n: nat): (p: nat)
    ensures p > 0
  {
    if n == 0 then 1 else 256 * Power256(n - 1)
  }

  /** The low `n` bytes of `v`, most significant first; higher bytes are cut off. */
  function BigEndian(v: nat, n: nat): (s: seq<Byte>)
    ensures |s| == n
  {
    if n == 0 then [] else BigEndian(v / 256, n - 1) + [v % 256]
  }

  function FromBig(s: seq<Byte>): nat {
    if s == [] then 0 else 256 * FromBig(s[..|s| - 1]) + s[|s| - 1]
  }

  lemma {:induction false} FromBigBounded(s: seq<Byte>)
    ensures FromBig(s) < Power256(|s|)
  {
    if s != [] {
      FromBigBounded(s[..|s| - 1]);
    }
  }

  /** A number survives being written in `n` bytes if and only if it fits. */
  lemma {:induction false} BigEndianRoundTrip(v: nat, n: nat)
    ensures FromBig(BigEndian(v, n)) == v <==> v < Power256(n)
  {
    FromBigBounded(BigEndian(v, n));
    if n > 0 {
      var s := BigEndian(v, n);
      assert s[..|s| - 1] == BigEndian(v / 256, n - 1);
      BigEndianRoundTrip(v / 256, n - 1);
    }
  }

  /** The device reads 64 bits as two 32-bit halves; the host writes them as one. */
  lemma HalvesAgree(s: seq<Byte>)
    requires |s| == 8
    ensures FromBig(s) == FromBig(s[..4]) * 0x1_0000_0000 + FromBig(s[4..])
  {
    var h := s[4..];
    assert s[..7][..6] == s[..6] && s[..6][..5] == s[..5] && s[..5][..4] == s[..4];
    assert h[..3][..2] == h[..2] && h[..2][..1] == h[..1] && h[..1][..0] == [];
    assert FromBig(s[..5]) == 256 * FromBig(s[..4]) + s[4];
    assert FromBig(s[..6]) == 256 * FromBig(s[..5]) + s[5];
    assert FromBig(s[..7]) == 256 * FromBig(s[..6]) + s[6];
    assert FromBig(h[..1]) == 256 * FromBig([]) + s[4];
    assert FromBig(h[..2]) == 256 * FromBig(h[..1]) + s[5];
    assert FromBig(h[..3]) == 256 * FromBig(h[..2]) + s[6];
  }

  function U32(v: nat): seq<Byte> { BigEndian(v, 4) }

  function U64(v: nat): seq<Byte> { BigEndian(v, 8) }

  // ---------- frames ----------

  /** [type][u32 length][name][u64 size], as pushConnection writes it. */
  function PushHeader(name: seq<Byte>, size: nat): seq<Byte> {
    [TYPE_PUSH] + U32(|name|) + name + U64(size)
  }

  function PushFrame(name: seq<Byte>, data: seq<Byte>): seq<Byte> {
    PushHeader(name, |data|) + data
  }

  /** Length of the header at the start of `s`, once it is all there. */
  function HeaderLength(s: seq<Byte>): Option<nat> {
    if |s| < 5 || s[0] != TYPE_PUSH then None
    else
      var n := 5 + FromBig(s[1..5]) + 8;
      if |s| < n then None else Some(n)
  }

  function PayloadSize(s: seq<Byte>): nat
    requires HeaderLength(s).Some?
  {
    var n := HeaderLength(s).value;
    FromBig(s[n - 8..n])
  }

  /** What has arrived of the payload. */
  function PayloadSoFar(s: seq<Byte>): seq<Byte>
    requires HeaderLength(s).Some?
  {
    var n := HeaderLength(s).value;
    if |s| < n + PayloadSize(s) then s[n..] else s[n..n + PayloadSize(s)]
  }

  /** `s` starts with a whole push frame that carries `content`. */
  predicate Delivers(s: seq<Byte>, content: seq<Byte>) {
    HeaderLength(s).Some? && PayloadSoFar(s) == content && |content| == PayloadSize(s)
  }

  /** The two ends agree on the frame, for names that 32 bits can count: any prefix
      of the written frame that delivers something delivers exactly the data. */
  lemma FramePrefix(name: seq<Byte>, data: seq<Byte>, s: seq<Byte>)
    requires |name| < 0x1_0000_0000 && |data| <= MAX_UINT64
    requires s <= PushFrame(name, data)
    ensures HeaderLength(s).Some? <==> |s| >= |PushHeader(name, |data|)|
    ensures HeaderLength(s).Some? ==> PayloadSize(s) == |data| && PayloadSoFar(s) <= data
    ensures forall content :: Delivers(s, content) ==> content == data && s == PushFrame(name, data)
  {
    var f := PushFrame(name, data);
    HeaderParts(name, |data|, data);
    if |s| >= 5 {
      assert s[1..5] == f[1..5] && s[0] == f[0];
    }
    if HeaderLength(s).Some? {
      var n := HeaderLength(s).value;
      assert s[n - 8..n] == f[n - 8..n];
      assert f[n..] == data && f[n..n + |data|] == data;
      assert s[n..] == f[n..|s|];
    }
    forall content | Delivers(s, content) ensures content == data && s == f {
      var n := HeaderLength(s).value;
      assert |s| == |f| && s == f[..|s|] == f;
    }
  }

  lemma HeaderParts(name: seq<Byte>, size: nat, data: seq<Byte>)
    requires |name| < 0x1_0000_0000 && size <= MAX_UINT64
    ensures var h := PushHeader(name, size);
      |h| == 13 + |name| && (h + data)[0] == TYPE_PUSH && FromBig((h + data)[1..5]) == |name|
      && FromBig((h + data)[5 + |name|..13 + |name|]) == size
  {
    var f := PushHeader(name, size) + data;
    assert f[1..5] == U32(|name|);
    assert f[5 + |name|..13 + |name|] == U64(size);
    Powers();
    BigEndianRoundTrip(|name|, 4);
    BigEndianRoundTrip(size, 8);
  }

  lemma Powers()
    ensures Power256(4) == 0x1_0000_0000 && Power256(8) == MAX_UINT64 + 1
  {
    assert Power256(2) == 0x1_0000;
    assert Power256(6) == 0x1_0000_0000_0000;
  }

  /** The device finds the end of the header where the host put it if and only if the
      length of the name fits in 32 bits. */
  lemma HeaderAgreesIff(name: seq<Byte>, data: seq<Byte>)
    ensures HeaderLength(PushFrame(name, data)) == Some(|PushHeader(name, |data|)|) <==> |name| < 0x1_0000_0000
  {
    var f := PushFrame(name, data);
    assert f[1..5] == U32(|name|);
    Powers();
    BigEndianRoundTrip(|name|, 4);
  }

  // ---------- byte streams ----------

  /** Result of read(2) and write(2): a count, EINTR, or an error. */
  datatype Io = Count(n: nat) | Interrupted | Failed

  /** One end of a byte stream, or a file. Operations may be short at will; they fail
      only if the channel is faulty, and are interrupted finitely often. */
  class Channel {
    var incoming: seq<Byte>   // what will still be delivered
    var out: seq<Byte>        // what has been accepted
    var interrupts: nat
    var deadlines: seq<nat>   // how much had been accepted when a deadline for writing was set
    const faulty: bool

    constructor (incoming: seq<Byte>, interrupts: nat, faulty: bool)
      ensures this.incoming == incoming && out == [] && this.faulty == faulty && this.interrupts == interrupts
    {
      this.incoming, out, this.interrupts, this.faulty := incoming, [], interrupts, faulty;
      deadlines := [];
    }

    /** net.Conn.SetWriteDeadline */
    method SetWriteDeadline() returns (ok: bool)
      modifies this`deadlines
      ensures deadlines == old(deadlines) + (if ok then [|out|] else [])
      ensures !ok ==> faulty
    {
      var settable: bool := *;
      if faulty && !settable {
        return false;
      }
      deadlines := deadlines + [|out|];
      return true;
    }

    /** Reads at most `max` bytes into `buf` at `at`; zero bytes mean the end. */
    method Read(buf: array<Byte>, at: nat, max: nat) returns (r: Io)
      requires at + max <= buf.Length
      modifies this`incoming, this`interrupts, buf
      ensures buf[..at] == old(buf[..at])
      ensures r.Count? ==>
        && r.n <= max && r.n <= |old(incoming)| && (r.n == 0 ==> max == 0 || old(incoming) == [])
        && buf[at..at + r.n] == old(incoming)[..r.n] && incoming == old(incoming)[r.n..]
      ensures !r.Count? ==> incoming == old(incoming)
      ensures r.Interrupted? ==> interrupts < old(interrupts)
      ensures !r.Interrupted? ==> interrupts == old(interrupts)
      ensures r.Failed? ==> faulty
    {
      var interrupted: bool, failed: bool := *, *;
      if interrupts > 0 && interrupted {
        interrupts := interrupts - 1;
        return Interrupted;
      }
      if faulty && failed {
        return Failed;
      }
      var limit := if max < |incoming| then max else |incoming|;
      var n :| 0 <= n <= limit && (n == 0 ==> limit == 0);
      forall i | 0 <= i < n {
        buf[at + i] := incoming[i];
      }
      assert buf[at..at + n] == incoming[..n];
      incoming := incoming[n..];
      return Count(n);
    }

    /** Accepts at least one byte of a non-empty `data`. */
    method Write(data: seq<Byte>) returns (r: Io)
      modifies this`out, this`interrupts
      ensures r.Count? ==> r.n <= |data| && (data != [] && !faulty ==> r.n > 0) && out == old(out) + data[..r.n]
      ensures !r.Count? ==> out == old(out)
      ensures r.Interrupted? ==> interrupts < old(interrupts)
      ensures !r.Interrupted? ==> interrupts == old(interrupts)
      ensures r.Failed? ==> faulty
    {
      var interrupted: bool, failed: bool := *, *;
      if interrupts > 0 && interrupted {
        interrupts := interrupts - 1;
        return Interrupted;
      }
      if faulty && failed {
        return Failed;
      }
      var n :| 0 <= n <= |data| && (data != [] && !faulty ==> n > 0);
      out := out + data[..n];
      return Count(n);
    }
  }
}
