/** internal/telnet/telnet.go: the byte layer of a telnet session. */
module Telnet {
  import opened Text

  const IAC: char := 255 as char
  const SB: char := 250 as char
  const SE: char := 240 as char
  const WILL: char := 251 as char
  const WONT: char := 252 as char
  const DO: char := 253 as char
  const DONT: char := 254 as char
  const ESC: char := 27 as char

  // ---------- IAC commands ----------

  /** What follows a subnegotiation, `s` being what follows its SB byte. */
  function AfterSub(s: string): (r: Option<string>)
    ensures r.Some? ==> |r.value| < |s|
  {
    if |s| < 2 then None
    else if s[0] == IAC && s[1] == SE then Some(s[2..])
    else AfterSub(s[1..])
  }

  /** What is read after an IAC byte, `s` being what follows it. */
  function AfterCommand(s: string): (r: Option<string>)
    ensures r.Some? ==> |r.value| <= |s|
  {
    if s == [] then None
    else if s[0] in {WILL, WONT, DO, DONT} then (if |s| < 2 then None else Some(s[2..]))
    else if s[0] == SB then AfterSub(s[1..])
    else Some(s)
  }

  /** The bytes that successive ReadByte calls deliver from the stream `s`. */
  function Data(s: string): string
    decreases |s|
  {
    if s == [] then []
    else if s[0] != IAC then [s[0]] + Data(s[1..])
    else
      match AfterCommand(s[1..])
      case None => []
      case Some(rest) => Data(rest)
  }

  /** What is left of the stream `s` when `n` bytes have been delivered. */
  function AfterData(s: string, n: nat): (r: string)
    requires n <= |Data(s)|
    ensures if n == 0 then r == s else |r| < |s|
    decreases |s|
  {
    if n == 0 then s
    else if s[0] != IAC then AfterData(s[1..], n - 1)
    else AfterData(AfterCommand(s[1..]).value, n)
  }

  ghost predicate IsTail(t: string, s: string) { exists k :: 0 <= k <= |s| && t == s[k..] }

  lemma TailFrom(s: string, k: nat)
    requires k <= |s|
    ensures IsTail(s[k..], s)
  {
  }

  lemma Tails(s: string)
    ensures IsTail(s, s) && IsTail([], s)
  {
    TailFrom(s, 0);
    TailFrom(s, |s|);
    assert s[0..] == s && s[|s|..] == [];
  }

  lemma TailOfTail(r: string, s: string, t: string)
    requires IsTail(r, s) && IsTail(s, t)
    ensures IsTail(r, t)
  {
    var j :| 0 <= j <= |t| && s == t[j..];
    var k :| 0 <= k <= |s| && r == s[k..];
    assert r == t[j + k..];
  }

  /** What is left when the first byte, or the first command, has been read. */
  function Next(s: string): string
    requires Data(s) != []
  {
    if s[0] != IAC then s[1..] else AfterCommand(s[1..]).value
  }

  lemma AfterNext(s: string, n: nat)
    requires 0 < n <= |Data(s)|
    ensures s[0] != IAC ==> Data(s)[n..] == Data(Next(s))[n - 1..] && AfterData(s, n) == AfterData(Next(s), n - 1)
    ensures s[0] == IAC ==> Data(s) == Data(Next(s)) && AfterData(s, n) == AfterData(Next(s), n)
  {
  }

  lemma {:induction false} SubTail(s: string)
    requires AfterSub(s).Some?
    ensures IsTail(AfterSub(s).value, s)
    decreases |s|
  {
    if s[0] == IAC && s[1] == SE {
      TailFrom(s, 2);
    } else {
      SubTail(s[1..]);
      TailFrom(s, 1);
      TailOfTail(AfterSub(s).value, s[1..], s);
    }
  }

  lemma CommandTail(s: string)
    requires AfterCommand(s).Some?
    ensures IsTail(AfterCommand(s).value, s)
  {
    if s[0] in {WILL, WONT, DO, DONT} {
      TailFrom(s, 2);
    } else if s[0] == SB {
      SubTail(s[1..]);
      TailFrom(s, 1);
      TailOfTail(AfterCommand(s).value, s[1..], s);
    } else {
      Tails(s);
    }
  }

  lemma NextTail(s: string)
    requires Data(s) != []
    ensures IsTail(Next(s), s)
  {
    TailFrom(s, 1);
    if s[0] == IAC {
      CommandTail(s[1..]);
      TailOfTail(Next(s), s[1..], s);
    }
  }

  lemma {:induction false} DataLeft(s: string, n: nat)
    requires n <= |Data(s)|
    ensures Data(AfterData(s, n)) == Data(s)[n..] && IsTail(AfterData(s, n), s)
    decreases |s|
  {
    if n == 0 {
      Tails(s);
    } else {
      AfterNext(s, n);
      NextTail(s);
      var k := if s[0] != IAC then n - 1 else n;
      DataLeft(Next(s), k);
      TailOfTail(AfterData(Next(s), k), Next(s), s);
    }
  }

  lemma {:induction false} AfterMore(s: string, m: nat, n: nat)
    requires m + n <= |Data(s)|
    ensures n <= |Data(AfterData(s, m))| && AfterData(AfterData(s, m), n) == AfterData(s, m + n)
    decreases |s|
  {
    if m > 0 {
      AfterNext(s, m);
      AfterNext(s, m + n);
      AfterMore(Next(s), if s[0] != IAC then m - 1 else m, n);
    }
  }

  lemma {:induction false} SubExtends(s: string, more: string)
    requires AfterSub(s).Some?
    ensures AfterSub(s + more) == Some(AfterSub(s).value + more)
    decreases |s|
  {
    if s[0] == IAC && s[1] == SE {
      assert (s + more)[2..] == s[2..] + more;
    } else {
      assert (s + more)[1..] == s[1..] + more;
      SubExtends(s[1..], more);
    }
  }

  lemma CommandExtends(s: string, more: string)
    requires AfterCommand(s).Some?
    ensures AfterCommand(s + more) == Some(AfterCommand(s).value + more)
  {
    if s[0] in {WILL, WONT, DO, DONT} {
      assert (s + more)[2..] == s[2..] + more;
    } else if s[0] == SB {
      assert (s + more)[1..] == s[1..] + more;
      SubExtends(s[1..], more);
    }
  }

  /** Bytes that come later change neither what was delivered nor where that ended. */
  lemma {:induction false} DataExtends(s: string, more: string, n: nat)
    requires n <= |Data(s)|
    ensures n <= |Data(s + more)| && Data(s + more)[..n] == Data(s)[..n]
    ensures AfterData(s + more, n) == AfterData(s, n) + more
    decreases |s|
  {
    if n > 0 {
      assert (s + more)[1..] == s[1..] + more;
      if s[0] != IAC {
        DataExtends(s[1..], more, n - 1);
      } else {
        CommandExtends(s[1..], more);
        DataExtends(Next(s), more, n);
      }
    }
  }

  /** The elements of a telnet stream, after "TELNET COMMAND STRUCTURE" in RFC 854. The
      parameters of a subnegotiation are sent with every IAC doubled, as RFC 855 has it;
      `Unescaped` is one whose sender did not care, as long as it can be told where it
      ends. */
  datatype Item =
    | Plain(b: char)
    | Negotiation(verb: char, option: char)
    | Subnegotiation(body: string)
    | Unescaped(body: string)
    | DoubledIac
    | Command(code: char)

  /** The two bytes that end a subnegotiation are not adjacent in `body`. */
  predicate NoEnd(body: string) { forall i :: 0 <= i < |body| - 1 ==> !(body[i] == IAC && body[i + 1] == SE) }

  function Escaped(body: string): string {
    if body == [] then [] else (if body[0] == IAC then [IAC, IAC] else [body[0]]) + Escaped(body[1..])
  }

  predicate ValidItem(item: Item) {
    match item
    case Plain(b) => b != IAC
    case Negotiation(verb, _) => verb in {WILL, WONT, DO, DONT}
    case Subnegotiation(_) => true
    case Unescaped(body) => NoEnd(body)
    case DoubledIac => true
    case Command(code) => 241 <= code as int <= 249
  }

  function ItemBytes(item: Item): string {
    match item
    case Plain(b) => [b]
    case Negotiation(verb, option) => [IAC, verb, option]
    case Subnegotiation(body) => [IAC, SB] + Escaped(body) + [IAC, SE]
    case Unescaped(body) => [IAC, SB] + body + [IAC, SE]
    case DoubledIac => [IAC, IAC]
    case Command(code) => [IAC, code]
  }

  function Stream(items: seq<Item>): string {
    if items == [] then [] else ItemBytes(items[0]) + Stream(items[1..])
  }

  /** The data that RFC 854 assigns to a stream. */
  function Payload(items: seq<Item>): string {
    if items == [] then []
    else (match items[0] case Plain(b) => [b] case DoubledIac => [IAC] case _ => []) + Payload(items[1..])
  }

  lemma {:induction false} SubIsSkipped(body: string, rest: string)
    requires NoEnd(body)
    ensures AfterSub(body + [IAC, SE] + rest) == Some(rest)
    decreases |body|
  {
    var s := body + [IAC, SE] + rest;
    if body == [] {
      assert s[2..] == rest;
    } else {
      assert s[0] == body[0] && (|body| > 1 ==> s[1] == body[1]) && (|body| == 1 ==> s[1] == IAC);
      assert s[1..] == body[1..] + [IAC, SE] + rest;
      SubIsSkipped(body[1..], rest);
    }
  }

  // ---------- subnegotiations that end too early ----------

  /** What the code delivers of a subnegotiation. It does not know doubled IACs, so it
      takes an escaped 255 followed by 240 for the end, and reads on. */
  function Leak(body: string): string
    decreases |body|
  {
    if body == [] then []
    else if body[0] == IAC && |body| > 1 && body[1] == SE then LeakAfterEnd(body[2..])
    else Leak(body[1..])
  }

  /** The rest of the parameters and the real end, read as ordinary input. */
  function LeakAfterEnd(body: string): string
    decreases |body|
  {
    if body == [] then [SE]
    else if body[0] == IAC then LeakAfterIac(body[1..])
    else [body[0]] + LeakAfterEnd(body[1..])
  }

  /** The same, once an IAC has been read. */
  function LeakAfterIac(body: string): string
    decreases |body|
  {
    if body == [] then [SE]
    else if body[0] == IAC then LeakAfterIac(body[1..])
    else if body[0] == SB then Leak(body[1..])
    else if body[0] !in {WILL, WONT, DO, DONT} then [body[0]] + LeakAfterEnd(body[1..])
    else if |body| == 1 then [SE]
    else if body[1] == IAC then LeakAfterIac(body[2..])
    else LeakAfterEnd(body[2..])
  }

  /** The bytes still to come: parameters, end, and what follows. */
  function Tail(body: string, rest: string): string { Escaped(body) + ([IAC, SE] + rest) }

  lemma TailStep(body: string, rest: string)
    ensures body == [] ==> Tail(body, rest) == [IAC, SE] + rest
    ensures body != [] && body[0] != IAC ==> Tail(body, rest) == [body[0]] + Tail(body[1..], rest)
    ensures body != [] && body[0] == IAC ==> Tail(body, rest) == [IAC] + ([IAC] + Tail(body[1..], rest))
  {
  }

  /** An IAC that no command follows is dropped. */
  lemma LoneIac(s: string)
    requires s != [] && s[0] !in {WILL, WONT, DO, DONT, SB}
    ensures Data([IAC] + s) == Data(s)
  {
    assert ([IAC] + s)[1..] == s;
  }

  lemma PlainFirst(c: char, s: string)
    requires c != IAC
    ensures Data([c] + s) == [c] + Data(s)
  {
    assert ([c] + s)[1..] == s;
  }

  lemma LateEnd(rest: string)
    ensures Data([IAC, SE] + rest) == [SE] + Data(rest)
  {
    assert [IAC, SE] + rest == [IAC] + ([SE] + rest);
    LoneIac([SE] + rest);
    PlainFirst(SE, rest);
  }

  lemma {:induction false} LeakIsData(body: string, rest: string)
    ensures AfterSub(Tail(body, rest)).Some? && Data(AfterSub(Tail(body, rest)).value) == Leak(body) + Data(rest)
    decreases |body|, 0
  {
    var s := Tail(body, rest);
    TailStep(body, rest);
    if body == [] {
      assert s[2..] == rest;
    } else if body[0] == IAC {
      var t := Tail(body[1..], rest);
      assert s[1..] == [IAC] + t && s[1..][1..] == t;
      TailStep(body[1..], rest);
      if |body| > 1 && body[1] == SE {
        assert body[1..][1..] == body[2..];
        assert s[1..][2..] == Tail(body[2..], rest);
        LeakAfterEndIsData(body[2..], rest);
      } else {
        LeakIsData(body[1..], rest);
      }
    } else {
      assert s[1..] == Tail(body[1..], rest);
      LeakIsData(body[1..], rest);
    }
  }

  lemma {:induction false} LeakAfterEndIsData(body: string, rest: string)
    ensures Data(Tail(body, rest)) == LeakAfterEnd(body) + Data(rest)
    decreases |body|, 1
  {
    TailStep(body, rest);
    if body == [] {
      LateEnd(rest);
    } else if body[0] == IAC {
      LoneIac([IAC] + Tail(body[1..], rest));
      LeakAfterIacIsData(body[1..], rest);
    } else {
      PlainFirst(body[0], Tail(body[1..], rest));
      LeakAfterEndIsData(body[1..], rest);
      Regroup([body[0]], LeakAfterEnd(body[1..]), Data(rest));
    }
  }

  lemma {:induction false} LeakAfterIacIsData(body: string, rest: string)
    ensures Data([IAC] + Tail(body, rest)) == LeakAfterIac(body) + Data(rest)
    decreases |body|, 1
  {
    var s := Tail(body, rest);
    TailStep(body, rest);
    assert ([IAC] + s)[1..] == s;
    if body == [] {
      LoneIac(s);
      LateEnd(rest);
    } else if body[0] == IAC {
      LoneIac(s);
      LoneIac([IAC] + Tail(body[1..], rest));
      LeakAfterIacIsData(body[1..], rest);
    } else if body[0] == SB {
      assert s[1..] == Tail(body[1..], rest);
      LeakIsData(body[1..], rest);
    } else if body[0] !in {WILL, WONT, DO, DONT} {
      LoneIac(s);
      PlainFirst(body[0], Tail(body[1..], rest));
      LeakAfterEndIsData(body[1..], rest);
      Regroup([body[0]], LeakAfterEnd(body[1..]), Data(rest));
    } else {
      OptionTaken(body, rest);
      if |body| == 1 {
        PlainFirst(SE, rest);
      } else if body[1] == IAC {
        LeakAfterIacIsData(body[2..], rest);
      } else {
        LeakAfterEndIsData(body[2..], rest);
      }
    }
  }

  /** A verb takes the next byte for its option, be it half of a doubled IAC or of the end. */
  lemma OptionTaken(body: string, rest: string)
    requires body != [] && body[0] in {WILL, WONT, DO, DONT}
    ensures Data([IAC] + Tail(body, rest))
         == Data(if |body| == 1 then [SE] + rest
                 else if body[1] == IAC then [IAC] + Tail(body[2..], rest)
                 else Tail(body[2..], rest))
  {
    var s := Tail(body, rest);
    TailStep(body, rest);
    TailStep(body[1..], rest);
    assert ([IAC] + s)[1..] == s && s[1..] == Tail(body[1..], rest);
    assert |body| > 1 ==> body[1..][1..] == body[2..];
    assert s[2..] == Tail(body[1..], rest)[1..];
  }

  lemma {:induction false} NoEndNoLeak(body: string)
    requires NoEnd(body)
    ensures Leak(body) == []
    decreases |body|
  {
    if body != [] {
      NoEndNoLeak(body[1..]);
    }
  }


  // ---------- which streams are read right ----------

  predicate Handled(item: Item) {
    !item.DoubledIac? && !item.Command? && (item.Subnegotiation? ==> Leak(item.body) == [])
  }

  lemma Bracketed(body: string, rest: string)
    ensures [IAC, SB] + body + [IAC, SE] + rest == [IAC] + ([SB] + (body + ([IAC, SE] + rest)))
  {
  }

  lemma SubnegotiationData(body: string, rest: string)
    ensures Data(ItemBytes(Subnegotiation(body)) + rest) == Leak(body) + Data(rest)
  {
    var t := Tail(body, rest);
    Bracketed(Escaped(body), rest);
    assert ([IAC] + ([SB] + t))[1..] == [SB] + t && ([SB] + t)[1..] == t;
    LeakIsData(body, rest);
  }

  /** No shorter parameters are misread than 255 followed by 240, and no others of that
      length: there the byte of the real end is delivered. */
  lemma EarlyEnd(body: string, rest: string)
    requires |body| <= 2
    ensures Data(ItemBytes(Subnegotiation(body)) + rest) == (if body == [IAC, SE] then [SE] else []) + Data(rest)
  {
    SubnegotiationData(body, rest);
    if body == [IAC, SE] {
      assert body[2..] == [];
    } else {
      NoEndNoLeak(body);
    }
  }

  /** Every handled element is consumed whole, and only plain bytes are data. */
  lemma HandledItem(item: Item, rest: string)
    requires ValidItem(item) && Handled(item)
    ensures Data(ItemBytes(item) + rest) == (if item.Plain? then [item.b] else []) + Data(rest)
  {
    var s := ItemBytes(item) + rest;
    match item
    case Plain(b) => assert s[1..] == rest;
    case Negotiation(verb, option) => assert s[1..][2..] == rest;
    case Subnegotiation(body) => SubnegotiationData(body, rest);
    case Unescaped(body) =>
      assert s[1..][1..] == body + [IAC, SE] + rest;
      SubIsSkipped(body, rest);
  }

  /** ReadByte over any interleaving of plain bytes, negotiations and
      subnegotiations delivers exactly the data, in order. */
  lemma {:induction false} DataOfHandledStream(items: seq<Item>, rest: string)
    requires forall i :: 0 <= i < |items| ==> ValidItem(items[i]) && Handled(items[i])
    ensures Data(Stream(items) + rest) == Payload(items) + Data(rest)
    decreases |items|
  {
    if items == [] {
      assert Stream(items) + rest == rest;
    } else {
      Regroup(ItemBytes(items[0]), Stream(items[1..]), rest);
      HandledItem(items[0], Stream(items[1..]) + rest);
      DataOfHandledStream(items[1..], rest);
      Regroup(if items[0].Plain? then [items[0].b] else [], Payload(items[1..]), Data(rest));
    }
  }

  lemma {:induction false} DataHasNoIac(s: string)
    ensures forall i :: 0 <= i < |Data(s)| ==> Data(s)[i] != IAC
    decreases |s|
  {
    if s != [] {
      if s[0] != IAC {
        DataHasNoIac(s[1..]);
      } else if AfterCommand(s[1..]).Some? {
        DataHasNoIac(AfterCommand(s[1..]).value);
      }
    }
  }

  lemma {:induction false} DoubledIacInPayload(items: seq<Item>, k: nat)
    requires k < |items| && items[k].DoubledIac?
    ensures exists i :: 0 <= i < |Payload(items)| && Payload(items)[i] == IAC
    decreases |items|
  {
    if k == 0 {
      assert Payload(items)[0] == IAC;
    } else {
      DoubledIacInPayload(items[1..], k - 1);
      var i :| 0 <= i < |Payload(items[1..])| && Payload(items[1..])[i] == IAC;
      assert Payload(items)[|Payload(items)| - |Payload(items[1..])| + i] == IAC;
    }
  }

  lemma CommandLeaks(code: char, rest: string)
    requires ValidItem(Command(code))
    ensures Data([IAC, code] + rest) == [code] + Data(rest)
  {
    var s := [IAC, code] + rest;
    assert s[1..] == [code] + rest && s[1..][1..] == rest;
    assert AfterCommand(s[1..]) == Some(s[1..]);
  }

  /** Without doubled IAC, the data is the payload plus the code of every two-byte
      command and the leak of every subnegotiation. */
  lemma {:induction false} LeakedBytes(items: seq<Item>)
    requires forall i :: 0 <= i < |items| ==> ValidItem(items[i]) && !items[i].DoubledIac?
    ensures |Data(Stream(items))| >= |Payload(items)|
    ensures (exists i :: 0 <= i < |items| && !Handled(items[i])) ==> |Data(Stream(items))| > |Payload(items)|
    decreases |items|
  {
    if items != [] {
      LeakedBytes(items[1..]);
      var rest := Stream(items[1..]);
      if Handled(items[0]) {
        HandledItem(items[0], rest);
        if i :| 0 <= i < |items| && !Handled(items[i]) {
          assert !Handled(items[1..][i - 1]);
        }
      } else if items[0].Command? {
        CommandLeaks(items[0].code, rest);
      } else {
        SubnegotiationData(items[0].body, rest);
      }
    }
  }

  /** The code agrees with RFC 854 and RFC 855 exactly on the streams that contain no
      doubled IAC, no two-byte command, and no subnegotiation that leaks: it has no case
      for the first two, and does not undo the doubling in the third. */
  lemma DataIsPayloadIffHandled(items: seq<Item>)
    requires forall i :: 0 <= i < |items| ==> ValidItem(items[i])
    ensures Data(Stream(items)) == Payload(items) <==> forall i :: 0 <= i < |items| ==> Handled(items[i])
  {
    if forall i :: 0 <= i < |items| ==> Handled(items[i]) {
      DataOfHandledStream(items, []);
      assert Stream(items) + [] == Stream(items) && Payload(items) + [] == Payload(items);
    } else if k: nat :| k < |items| && items[k].DoubledIac? {
      DoubledIacInPayload(items, k);
      DataHasNoIac(Stream(items));
    } else {
      LeakedBytes(items);
    }
  }

  /** A stream without IAC is all data. */
  lemma {:induction false} DataOfPlainStream(s: string)
    requires forall i :: 0 <= i < |s| ==> s[i] != IAC
    ensures Data(s) == s
    decreases |s|
  {
    if s != [] {
      DataOfPlainStream(s[1..]);
    }
  }

  // ---------- escape sequences ----------

  datatype Esc = EscNone | EscStart | EscCsi

  predicate IsFinal(b: char) { 0x40 <= b as int <= 0x7e }

  /** inEscape: the next state, and whether `b` belongs to an escape sequence. */
  function InEscape(esc: Esc, b: char): (Esc, bool) {
    match esc
    case EscNone => if b != ESC then (EscNone, false) else (EscStart, true)
    case EscStart => (if b == '[' then EscCsi else EscNone, true)
    case EscCsi => (if IsFinal(b) then EscNone else EscCsi, true)
  }

  function EscAfter(esc: Esc, s: string): Esc
    decreases |s|
  {
    if s == [] then esc else EscAfter(InEscape(esc, s[0]).0, s[1..])
  }

  /** For each byte, whether it belongs to an escape sequence. */
  function Classify(esc: Esc, s: string): (r: seq<bool>)
    ensures |r| == |s|
    decreases |s|
  {
    if s == [] then [] else [InEscape(esc, s[0]).1] + Classify(InEscape(esc, s[0]).0, s[1..])
  }

  function TextCount(marks: seq<bool>): nat {
    if marks == [] then 0 else (if marks[0] then 0 else 1) + TextCount(marks[1..])
  }

  lemma {:induction false} TextCountConcat(a: seq<bool>, b: seq<bool>)
    ensures TextCount(a + b) == TextCount(a) + TextCount(b)
    decreases |a|
  {
    if a == [] {
      assert a + b == b;
    } else {
      assert (a + b)[1..] == a[1..] + b;
      TextCountConcat(a[1..], b);
    }
  }

  /** Carrying the state across a split gives the same classification as one pass,
      wherever the split falls. */
  lemma {:induction false} ClassifySplit(esc: Esc, a: string, b: string)
    ensures Classify(esc, a + b) == Classify(esc, a) + Classify(EscAfter(esc, a), b)
    ensures EscAfter(esc, a + b) == EscAfter(EscAfter(esc, a), b)
    decreases |a|
  {
    if a == [] {
      assert a + b == b;
    } else {
      assert (a + b)[1..] == a[1..] + b;
      ClassifySplit(InEscape(esc, a[0]).0, a[1..], b);
    }
  }

  /** Terminal output: text, two-byte sequences and control sequences
      (ECMA-48, section 5.4). */
  datatype Glyph = TextByte(b: char) | ShortSequence(b: char) | ControlSequence(parameters: string, final: char)

  predicate ValidGlyph(g: Glyph) {
    match g
    case TextByte(b) => b != ESC
    case ShortSequence(b) => b != '['
    case ControlSequence(ps, f) => '@' <= f <= '~' && forall i :: 0 <= i < |ps| ==> !('@' <= ps[i] <= '~')
  }

  function GlyphBytes(g: Glyph): string {
    match g
    case TextByte(b) => [b]
    case ShortSequence(b) => [ESC, b]
    case ControlSequence(ps, f) => [ESC, '['] + ps + [f]
  }

  function Terminal(gs: seq<Glyph>): string {
    if gs == [] then [] else GlyphBytes(gs[0]) + Terminal(gs[1..])
  }

  function TextBytes(gs: seq<Glyph>): nat {
    if gs == [] then 0 else (if gs[0].TextByte? then 1 else 0) + TextBytes(gs[1..])
  }

  lemma {:induction false} ParametersStayInside(ps: string)
    requires forall i :: 0 <= i < |ps| ==> !('@' <= ps[i] <= '~')
    ensures EscAfter(EscCsi, ps) == EscCsi && TextCount(Classify(EscCsi, ps)) == 0
    decreases |ps|
  {
    if ps != [] {
      ParametersStayInside(ps[1..]);
      assert Classify(EscCsi, ps)[1..] == Classify(EscCsi, ps[1..]);
    }
  }

  lemma GlyphClassified(g: Glyph)
    requires ValidGlyph(g)
    ensures EscAfter(EscNone, GlyphBytes(g)) == EscNone
    ensures TextCount(Classify(EscNone, GlyphBytes(g))) == if g.TextByte? then 1 else 0
  {
    match g
    case TextByte(b) =>
      assert [b][1..] == [];
    case ShortSequence(b) =>
      assert [ESC, b][1..] == [b] && [b][1..] == [];
      assert Classify(EscStart, [b]) == [true];
      assert EscAfter(EscStart, [b]) == EscNone;
      assert Classify(EscNone, [ESC, b]) == [true] + [true];
      assert TextCount([true]) == 0 by { assert [true][1..] == []; }
      TextCountConcat([true], [true]);
    case ControlSequence(ps, f) =>
      var opening := [ESC, '['];
      assert opening[1..] == ['['] && ['['][1..] == [] && [f][1..] == [];
      assert Classify(EscStart, ['[']) == [true];
      assert Classify(EscNone, opening) == [true] + [true];
      assert TextCount([true]) == 0 by { assert [true][1..] == []; }
      TextCountConcat([true], [true]);
      assert EscAfter(EscNone, opening) == EscCsi;
      ParametersStayInside(ps);
      ClassifySplit(EscNone, opening, ps);
      ClassifySplit(EscNone, opening + ps, [f]);
      assert Classify(EscCsi, [f]) == [true];
      TextCountConcat(Classify(EscNone, opening), Classify(EscCsi, ps));
      TextCountConcat(Classify(EscNone, opening + ps), [true]);
  }

  /** Complete sequences inserted anywhere leave the state where it was, and only
      the text bytes count. */
  lemma {:induction false} TerminalClassified(gs: seq<Glyph>)
    requires forall i :: 0 <= i < |gs| ==> ValidGlyph(gs[i])
    ensures EscAfter(EscNone, Terminal(gs)) == EscNone
    ensures TextCount(Classify(EscNone, Terminal(gs))) == TextBytes(gs)
    decreases |gs|
  {
    if gs != [] {
      GlyphClassified(gs[0]);
      TerminalClassified(gs[1..]);
      ClassifySplit(EscNone, GlyphBytes(gs[0]), Terminal(gs[1..]));
      TextCountConcat(Classify(EscNone, GlyphBytes(gs[0])), Classify(EscNone, Terminal(gs[1..])));
    }
  }

  /** SkipBytes(n) from state `esc` on `s` stops after `p` bytes: just after the
      n-th text byte. */
  predicate SkipsTo(esc: Esc, s: string, n: nat, p: nat) {
    && p <= |s|
    && TextCount(Classify(esc, s)[..p]) == n
    && (n == 0 ==> p == 0)
    && (n > 0 ==> p > 0 && !Classify(esc, s)[p - 1])
  }

  lemma TextCountMonotone(marks: seq<bool>, p: nat, q: nat)
    requires p <= q <= |marks|
    ensures TextCount(marks[..p]) <= TextCount(marks[..q])
  {
    assert marks[..q] == marks[..p] + marks[p..q];
    TextCountConcat(marks[..p], marks[p..q]);
  }

  lemma TextCountExtend(marks: seq<bool>, p: nat)
    requires p < |marks|
    ensures TextCount(marks[..p + 1]) == TextCount(marks[..p]) + if marks[p] then 0 else 1
  {
    assert marks[..p + 1] == marks[..p] + [marks[p]];
    assert [marks[p]][1..] == [];
    TextCountConcat(marks[..p], [marks[p]]);
  }

  lemma SkipsToUnique(esc: Esc, s: string, n: nat, p: nat, q: nat)
    requires SkipsTo(esc, s, n, p) && SkipsTo(esc, s, n, q)
    ensures p == q
  {
    var marks := Classify(esc, s);
    if p < q {
      TextCountMonotone(marks, p, q - 1);
      TextCountExtend(marks, q - 1);
    } else if q < p {
      TextCountMonotone(marks, q, p - 1);
      TextCountExtend(marks, p - 1);
    }
  }

  lemma TextByteAfter(before: string, b: char, rest: string, n: nat)
    requires EscAfter(EscNone, before) == EscNone && TextCount(Classify(EscNone, before)) == n && b != ESC
    ensures SkipsTo(EscNone, before + [b] + rest, n + 1, |before| + 1)
  {
    var s := before + [b] + rest;
    assert s == before + ([b] + rest);
    ClassifySplit(EscNone, before, [b] + rest);
    var marks := Classify(EscNone, s);
    assert marks[..|before|] == Classify(EscNone, before);
    assert marks[|before|] == Classify(EscNone, [b] + rest)[0];
    TextCountExtend(marks, |before|);
  }

  /** With complete escape sequences inserted anywhere in the echo, n text bytes are
      skipped by stopping right after the n-th one. */
  lemma SkipOverEscapes(gs: seq<Glyph>, b: char, rest: string, p: nat)
    requires forall i :: 0 <= i < |gs| ==> ValidGlyph(gs[i])
    requires b != ESC
    requires SkipsTo(EscNone, Terminal(gs) + [b] + rest, TextBytes(gs) + 1, p)
    ensures p == |Terminal(gs)| + 1
  {
    TerminalClassified(gs);
    TextByteAfter(Terminal(gs), b, rest, TextBytes(gs));
    SkipsToUnique(EscNone, Terminal(gs) + [b] + rest, TextBytes(gs) + 1, |Terminal(gs)| + 1, p);
  }

  /** discardBuffered followed by SkipBytes, from any state: what counts as text after
      the split is what a single pass over the unsplit stream says. */
  lemma SkipAfterDiscard(esc: Esc, s: string, k: nat, n: nat, p: nat)
    requires k <= |s|
    requires SkipsTo(EscAfter(esc, s[..k]), s[k..], n, p)
    ensures TextCount(Classify(esc, s)[k..k + p]) == n
    ensures n > 0 ==> p > 0 && !Classify(esc, s)[k + p - 1]
  {
    assert s == s[..k] + s[k..];
    ClassifySplit(esc, s[..k], s[k..]);
    assert Classify(esc, s)[k..k + p] == Classify(EscAfter(esc, s[..k]), s[k..])[..p];
  }

  // ---------- prompts ----------

  /** The last line of `s`: what follows the last CR LF. */
  function LastLine(s: string): string {
    var k := LastIndex(s, "\r\n");
    if k == -1 then s else s[k + 2..]
  }

  /** ReadUntilPrompt stops after the first `p` bytes: at a blank, when the line so
      far satisfies `process`. */
  predicate StopsAt(data: string, p: int, process: string -> bool) {
    0 < p <= |data| && data[p - 1] == ' ' && process(LastLine(data[..p]))
  }

  ghost predicate StopsFirst(data: string, p: int, process: string -> bool) {
    StopsAt(data, p, process) && forall q :: StopsAt(data, q, process) ==> p <= q
  }

  predicate EndsInMark(line: string) { IsMarked(TrimSpace(line)) }

  predicate IsMarked(trimmed: string) { trimmed != [] && trimmed[|trimmed| - 1] in {'#', '$'} }

  const BLANKS: set<char> := {' ', '\r', '\n'}

  /** Reading up to the prompt: the output before it, and what is left behind it. */
  ghost predicate Banner(s: string, output: string, left: string, ok: bool) {
    if ok then
      exists q: nat ::
        StopsFirst(Data(s), q, EndsInMark) && output == CutPrompt(Data(s)[..q]) && left == AfterData(s, q)
    else IsTail(left, s) && forall q :: !StopsAt(Data(s), q, EndsInMark)
  }

  /** What a session has yet to read: the state of an escape sequence and the bytes. */
  datatype Unread = Unread(esc: Esc, stream: string)

  /** The same, once the first `n` bytes have been dropped. */
  function Dropped(u: Unread, n: nat): Unread
    requires n <= |u.stream|
  {
    Unread(EscAfter(u.esc, u.stream[..n]), u.stream[n..])
  }

  lemma NothingDropped(u: Unread)
    ensures Dropped(u, 0) == u
  {
    assert u.stream[..0] == [] && u.stream[0..] == u.stream;
  }

  /** `stdout` is the output that follows `n` text bytes of echo, cut before the first
      prompt, and `left` is what comes behind that prompt. */
  ghost predicate Answers(u: Unread, n: nat, stdout: string, left: Unread) {
    exists p: nat, q: nat :: AnswersAt(u, n, p, q, stdout, left)
  }

  ghost predicate AnswersAt(u: Unread, n: nat, p: nat, q: nat, stdout: string, left: Unread) {
    && SkipsTo(u.esc, u.stream, n, p)
    && var s := u.stream[p..];
    && StopsFirst(Data(s), q, EndsInMark)
    && stdout == CutPrompt(Data(s)[..q]) && left == Unread(EscAfter(u.esc, u.stream[..p]), AfterData(s, q))
  }

  /** An answer is one in one way only. */
  lemma AnswersUnique(u: Unread, n: nat, p: nat, q: nat, stdout: string, left: Unread, p': nat, q': nat, stdout': string,
                      left': Unread)
    requires AnswersAt(u, n, p, q, stdout, left) && AnswersAt(u, n, p', q', stdout', left')
    ensures p == p' && q == q' && stdout == stdout' && left == left'
  {
    SkipsToUnique(u.esc, u.stream, n, p, p');
  }

  /** There is no prompt after the echo, or no whole echo. */
  ghost predicate Unanswered(u: Unread, n: nat) {
    forall p: nat, q: nat :: SkipsTo(u.esc, u.stream, n, p) ==> !StopsAt(Data(u.stream[p..]), q, EndsInMark)
  }

  /** What comes of a request that was sent whole, `u` being what was still to come. */
  ghost predicate Answered(u: Unread, n: nat, stdout: string, left: Unread, ok: bool) {
    if ok then Answers(u, n, stdout, left) else Unanswered(u, n) && IsTail(left.stream, u.stream)
  }

  /** Drop the last line and the blanks before it. */
  function CutPrompt(output: string): string {
    var k := LastIndex(output, "\n");
    TrimRight(if k >= 0 then output[..k] else output, BLANKS)
  }

  // ---------- the client ----------

  class TelnetClient {
    var input: string     // the bytes the connection will still deliver
    var buffered: nat     // how many of them the reader already holds
    var sent: string
    var esc: Esc

    predicate Valid() reads this { buffered <= |input| }

    constructor (input: string)
      ensures Valid() && this.input == input && sent == [] && esc == EscNone
    {
      this.input, buffered, sent, esc := input, 0, [], EscNone;
    }

    /** bufio.Reader.Discard; a fill takes whatever has arrived by then. */
    method Discard(n: nat) returns (ok: bool)
      requires Valid()
      modifies this`input, this`buffered
      ensures Valid() && ok == (n <= |old(input)|)
      ensures input == if ok then old(input)[n..] else []
      ensures n <= old(buffered) ==> buffered == old(buffered) - n
    {
      if n > |input| {
        input, buffered := [], 0;
        return false;
      }
      input := input[n..];
      if n <= buffered {
        buffered := buffered - n;
      } else {
        var filled: nat :| filled <= |input|;
        buffered := filled;
      }
      return true;
    }

    method ReadRaw() returns (r: Option<char>)
      requires Valid()
      modifies this`input, this`buffered
      ensures Valid()
      ensures old(input) == [] ==> r == None && input == []
      ensures old(input) != [] ==> r == Some(old(input)[0]) && input == old(input)[1..]
      ensures old(buffered) > 0 ==> buffered == old(buffered) - 1
    {
      if input == [] {
        return None;
      }
      var b := input[0];
      var ok := Discard(1);
      return Some(b);
    }

    method SkipSBSequence() returns (ok: bool)
      requires Valid() && input != []
      modifies this`input, this`buffered
      ensures Valid() && |input| < |old(input)| && IsTail(input, old(input))
      ensures ok <==> AfterSub(old(input)[1..]).Some?
      ensures ok ==> input == AfterSub(old(input)[1..]).value
    {
      Tails(input);
      while true
        invariant Valid() && input != [] && |input| <= |old(input)| && IsTail(input, old(input))
        invariant AfterSub(input[1..]) == AfterSub(old(input)[1..])
        decreases |input|
      {
        TailFrom(input, 1);
        TailOfTail(input[1..], input, old(input));
        ok := Discard(1);
        if |input| < 2 {
          return false;
        }
        if input[0] == IAC && input[1] == SE {
          TailFrom(input, 2);
          TailOfTail(input[2..], input, old(input));
          ok := Discard(2);
          return;
        }
      }
    }

    method SkipCommand() returns (ok: bool)
      requires Valid()
      modifies this`input, this`buffered
      ensures Valid() && IsTail(input, old(input))
      ensures ok <==> AfterCommand(old(input)).Some?
      ensures ok ==> input == AfterCommand(old(input)).value
    {
      Tails(input);
      if input == [] {
        return false;
      }
      if input[0] in {WILL, WONT, DO, DONT} {
        ok := Discard(2);
        assert ok ==> IsTail(input, old(input)) by {
          if ok {
            TailFrom(old(input), 2);
          }
        }
      } else if input[0] == SB {
        ok := SkipSBSequence();
      } else {
        ok := true;
      }
    }

    /** Delivers the next data byte; every command in between is consumed. */
    method ReadByte() returns (r: Option<char>)
      requires Valid()
      modifies this`input, this`buffered
      ensures Valid() && IsTail(input, old(input))
      ensures r.Some? <==> Data(old(input)) != []
      ensures r.Some? ==> r.value == Data(old(input))[0] && Data(input) == Data(old(input))[1..]
      ensures r.Some? ==> input == AfterData(old(input), 1)
    {
      Tails(input);
      while true
        invariant Valid() && Data(input) == Data(old(input)) && |input| <= |old(input)| && IsTail(input, old(input))
        invariant Data(input) != [] ==> AfterData(input, 1) == AfterData(old(input), 1)
        decreases |input|
      {
        ghost var before := input;
        r := ReadRaw();
        if r.None? {
          return;
        }
        TailFrom(before, 1);
        TailOfTail(input, before, old(input));
        if r.value != IAC {
          return;
        }
        ghost var rest := input;
        var ok := SkipCommand();
        TailOfTail(input, rest, old(input));
        if !ok {
          return None;
        }
      }
    }

    /** ReadByte, as one of many that read from `s`. */
    method ReadNext(ghost s: string, ghost n: nat) returns (r: Option<char>)
      requires Valid() && n <= |Data(s)| && input == AfterData(s, n)
      modifies this`input, this`buffered
      ensures Valid()
      ensures r.Some? <==> n < |Data(s)|
      ensures r.Some? ==> r.value == Data(s)[n] && input == AfterData(s, n + 1) && |input| < |old(input)|
      ensures r.None? ==> IsTail(input, s)
    {
      ghost var rest := input;
      DataLeft(s, n);
      r := ReadByte();
      if r.Some? {
        AfterMore(s, n, 1);
      } else {
        TailOfTail(input, rest, s);
      }
    }

    method SkipBytes(n: nat) returns (ok: bool)
      requires Valid()
      modifies this`input, this`buffered, this`esc
      ensures Valid() && IsTail(input, old(input))
      ensures ok ==> var p := |old(input)| - |input|;
        && SkipsTo(old(esc), old(input), n, p) && input == old(input)[p..]
        && esc == EscAfter(old(esc), old(input)[..p])
      ensures !ok ==> TextCount(Classify(old(esc), old(input))) < n
    {
      var i, p := 0, 0;
      ghost var marks := Classify(esc, input);
      while i < n
        invariant Valid() && i <= n && p <= |old(input)| && input == old(input)[p..]
        invariant esc == EscAfter(old(esc), old(input)[..p])
        invariant TextCount(marks[..p]) == i
        invariant i == 0 && n == 0 ==> p == 0
        invariant i == n && n > 0 ==> p > 0 && !marks[p - 1]
        decreases |input|
      {
        ghost var before := esc;
        var b := ReadRaw();
        if b.None? {
          assert marks[..p] == marks;
          return false;
        }
        NextMark(old(esc), old(input), p);
        TextCountExtend(marks, p);
        var step := InEscape(esc, b.value);
        esc := step.0;
        p := p + 1;
        if !step.1 {
          i := i + 1;
        }
      }
      return true;
    }

    /** Drops what is left of the previous command's output, keeping the state of an
        escape sequence that the split cuts in two. */
    method DiscardBuffered() returns (ok: bool)
      requires Valid()
      modifies this`input, this`buffered, this`esc
      ensures Valid() && ok && buffered == 0
      ensures input == old(input)[old(buffered)..]
      ensures esc == EscAfter(old(esc), old(input)[..old(buffered)])
    {
      var p := 0;
      while buffered > 0
        invariant Valid() && p + buffered == old(buffered) && input == old(input)[p..]
        invariant esc == EscAfter(old(esc), old(input)[..p])
        decreases buffered
      {
        var b := ReadRaw();
        if b.None? {
          return false;
        }
        NextMark(old(esc), old(input), p);
        esc := InEscape(esc, b.value).0;
        p := p + 1;
      }
      return true;
    }

    /** Appends data up to and including the first `delim`. */
    method ReadUntil(data: string, delim: char) returns (appended: string, n: nat, ok: bool)
      requires Valid() && delim != '\0'
      modifies this`input, this`buffered
      ensures Valid()
      ensures n <= |Data(old(input))| && appended == data + Data(old(input))[..n]
      ensures ok ==> n > 0 && Data(old(input))[n - 1] == delim && input == AfterData(old(input), n)
      ensures forall i :: 0 <= i < (if ok then n - 1 else n) ==> Data(old(input))[i] != delim
      ensures !ok ==> n == |Data(old(input))| && IsTail(input, old(input))
      ensures ok ==> |input| < |old(input)|
    {
      var b := '\0';
      ghost var s, d := input, Data(input);
      appended, n := data, 0;
      while b != delim
        invariant Valid() && n <= |d| && appended == data + d[..n]
        invariant input == AfterData(s, n)
        invariant b == if n == 0 then '\0' else d[n - 1]
        invariant forall i :: 0 <= i < n - 1 ==> d[i] != delim
        decreases |input|
      {
        var r := ReadNext(s, n);
        if r.None? {
          return appended, n, false;
        }
        b := r.value;
        appended := appended + [b];
        n := n + 1;
      }
      ok := true;
    }

    /** One round of ReadUntilPrompt: reads up to the next blank, moves `linePos` after
        the last CR LF, and asks `process` about the last line. */
    method ReadBlank(output: string, linePos: nat, process: string -> bool, ghost stream: string)
      returns (longer: string, newLinePos: nat, ok: bool, stop: bool)
      requires Valid() && output <= Data(stream) && linePos == LineStart(output) && input == AfterData(stream, |output|)
      requires forall q :: StopsAt(Data(stream), q, process) ==> q > |output|
      modifies this`input, this`buffered
      ensures Valid() && longer <= Data(stream)
      ensures ok ==> input == AfterData(stream, |longer|) && |input| < |old(input)| && newLinePos == LineStart(longer)
      ensures ok ==>
        && (stop <==> StopsAt(Data(stream), |longer|, process))
        && forall q :: StopsAt(Data(stream), q, process) ==> q >= |longer|
      ensures !ok ==> !stop && IsTail(input, old(input)) && forall q :: !StopsAt(Data(stream), q, process)
    {
      ghost var data, rest := Data(stream), Data(input);
      DataLeft(stream, |output|);
      var n: int;
      longer, n, ok := ReadUntil(output, ' ');
      Advance(data, |output|, rest, n, ok, process);
      assert output == data[..|output|] && longer == data[..|output| + n];
      AfterMore(stream, |output|, n);
      if !ok {
        return longer, linePos, false, false;
      }
      var delimPos := |output| + n;
      n := FindNewLinePos(longer);
      newLinePos := if n != -1 then n + 2 else linePos;
      assert 0 <= newLinePos <= delimPos == |longer|;
      stop := process(longer[newLinePos..delimPos]);
    }

    /** Reads up to the first blank at which `process` accepts the line so far. */
    method ReadUntilPrompt(process: string -> bool) returns (output: string, ok: bool)
      requires Valid()
      modifies this`input, this`buffered
      ensures Valid() && output <= Data(old(input))
      ensures ok ==> StopsFirst(Data(old(input)), |output|, process) && input == AfterData(old(input), |output|)
      ensures !ok ==> IsTail(input, old(input)) && forall q :: !StopsAt(Data(old(input)), q, process)
    {
      output := [];
      var linePos := 0;
      ghost var stream := input;
      while true
        invariant Valid() && output <= Data(stream) && linePos == LineStart(output)
        invariant input == AfterData(stream, |output|)
        invariant forall q :: StopsAt(Data(stream), q, process) ==> q > |output|
        decreases |input|
      {
        var stop;
        ghost var rest, n := input, |output|;
        output, linePos, ok, stop := ReadBlank(output, linePos, process, stream);
        if !ok {
          DataLeft(stream, n);
          TailOfTail(input, rest, stream);
          return;
        }
        if stop {
          return;
        }
      }
    }

    /** Reads a whole command output, up to and without the prompt line. */
    method ReadUntilBanner() returns (output: string, ok: bool)
      requires Valid()
      modifies this`input, this`buffered
      ensures Valid() && Banner(old(input), output, input, ok)
    {
      output, ok := ReadUntilPrompt(EndsInMark);
      ghost var p := |output|;
      assert output == Data(old(input))[..p];
      var k := LastIndex(output, "\n");
      if k >= 0 {
        output := output[..k];
      }
      output := TrimRight(output, BLANKS);
      assert output == CutPrompt(Data(old(input))[..p]);
    }

    /** Sends the whole request, or fails having sent less. */
    method Write(data: string) returns (ok: bool)
      modifies this`sent
      ensures ok ==> sent == old(sent) + data
      ensures !ok ==> old(sent) <= sent && |sent| < |old(sent) + data|
    {
      var n :| 0 <= n <= |data|;
      sent := sent + data[..n];
      ok := n == |data|;
      assert data[..|data|] == data;
    }

    /** What the session has yet to read. */
    function Left(): Unread reads this { Unread(esc, input) }

    /** The same without what has arrived already. */
    function Coming(): Unread
      requires Valid()
      reads this
    {
      Dropped(Left(), buffered)
    }

    /** What follows the request of Execute: the echo of `n` bytes, then the output. */
    method ReadAnswer(n: nat) returns (stdout: string, ok: bool)
      requires Valid()
      modifies this`input, this`buffered, this`esc
      ensures Valid()
      ensures Answered(old(Unread(esc, input)), n, stdout, Unread(esc, input), ok)
    {
      ghost var u := Unread(esc, input);
      var skipped := SkipBytes(n);
      if !skipped {
        ShortEcho(u, n, Unread(esc, input));
        return [], false;
      }
      ghost var p := |u.stream| - |input|;
      ghost var rest := input;
      stdout, ok := ReadUntilBanner();
      AnswerAt(u, n, p, rest, stdout, Unread(esc, input), ok);
    }

    /** Execute: the echo of the request is skipped, then the output is read. It
        fails only when the write does, the echo is short, or no prompt comes. */
    method Execute(name: string, args: seq<string>) returns (stdout: string, ok: bool)
      requires Valid()
      modifies this
      ensures Valid()
      ensures if sent == old(sent) + Request(name, args)
              then Answered(old(Coming()), |Request(name, args)|, stdout, Left(), ok)
              else !ok && Coming() == old(Coming()) && |sent| < |old(sent) + Request(name, args)|
    {
      stdout, ok := [], false;
      var dropped := DiscardBuffered();
      var request := Request(name, args);
      var written := Write(request);
      if !written {
        NothingDropped(Left());
        return;
      }
      stdout, ok := ReadAnswer(|request|);
    }
  }

  function LineStart(s: string): (r: nat)
    ensures r <= |s|
  {
    var k := LastIndex(s, "\r\n");
    if k == -1 then 0 else k + 2
  }

  /** strings.Join(args, " ") */
  function Joined(args: seq<string>): string {
    if args == [] then [] else if |args| == 1 then args[0] else args[0] + " " + Joined(args[1..])
  }

  function Request(name: string, args: seq<string>): string { name + " " + Joined(args) + "\r\n" }

  /** What was read after the echo is the answer, or the proof that there is none. */
  lemma AnswerAt(u: Unread, n: nat, p: nat, rest: string, stdout: string, left: Unread, ok: bool)
    requires SkipsTo(u.esc, u.stream, n, p) && rest == u.stream[p..] && left.esc == EscAfter(u.esc, u.stream[..p])
    requires Banner(rest, stdout, left.stream, ok)
    ensures Answered(u, n, stdout, left, ok)
  {
    if ok {
      var q: nat :|
        StopsFirst(Data(rest), q, EndsInMark) && stdout == CutPrompt(Data(rest)[..q]) && left.stream == AfterData(rest, q);
      assert AnswersAt(u, n, p, q, stdout, left);
    } else {
      TailFrom(u.stream, p);
      TailOfTail(left.stream, rest, u.stream);
      forall p': nat, q: nat | SkipsTo(u.esc, u.stream, n, p') ensures !StopsAt(Data(u.stream[p'..]), q, EndsInMark) {
        SkipsToUnique(u.esc, u.stream, n, p, p');
      }
    }
  }

  lemma ShortEcho(u: Unread, n: nat, left: Unread)
    requires TextCount(Classify(u.esc, u.stream)) < n && IsTail(left.stream, u.stream)
    ensures Answered(u, n, [], left, false)
  {
    forall p: nat ensures !SkipsTo(u.esc, u.stream, n, p) {
      if p <= |u.stream| {
        TextCountMonotone(Classify(u.esc, u.stream), p, |u.stream|);
        assert Classify(u.esc, u.stream)[..|u.stream|] == Classify(u.esc, u.stream);
      }
    }
  }

  /** A line that has started stays started, and never starts after the blank. */
  lemma LineStartGrows(data: string, p: nat, q: nat)
    requires p <= q <= |data|
    ensures var k := LastIndex(data[..q], "\r\n");
      LineStart(data[..q]) == (if k != -1 then k + 2 else LineStart(data[..p]))
    ensures LastLine(data[..q]) == data[..q][LineStart(data[..q])..q]
  {
    var k := LastIndex(data[..p], "\r\n");
    if k != -1 {
      assert data[..q][k..k + 2] == data[..p][k..k + 2];
      assert OccursAt(data[..q], "\r\n", k);
    }
  }

  /** Reading on from `before` to the next blank: what has been read, where its last
      line starts, and that there was no place to stop in between. */
  lemma Advance(data: string, before: nat, rest: string, n: nat, ok: bool, process: string -> bool)
    requires before <= |data| && rest == data[before..] && n <= |rest|
    requires forall q :: StopsAt(data, q, process) ==> q > before
    requires forall i :: 0 <= i < (if ok then n - 1 else n) ==> rest[i] != ' '
    requires if ok then n > 0 && rest[n - 1] == ' ' else n == |rest|
    ensures data[..before] + rest[..n] == data[..before + n]
    ensures rest[n..] == data[before + n..]
    ensures if ok then forall q :: StopsAt(data, q, process) ==> q >= before + n
            else forall q :: !StopsAt(data, q, process)
    ensures var p := before + n; var k := LastIndex(data[..p], "\r\n"); var start := LineStart(data[..p]);
      && start == (if k != -1 then k + 2 else LineStart(data[..before]))
      && (ok ==> (StopsAt(data, p, process) <==> process(data[..p][start..p])))
  {
    assert forall i {:trigger data[i]} :: before <= i < |data| ==> data[i] == rest[i - before];
    LineStartGrows(data, before, before + n);
  }

  lemma NextMark(esc: Esc, s: string, p: nat)
    requires p < |s|
    ensures var e := EscAfter(esc, s[..p]);
      Classify(esc, s)[p] == InEscape(e, s[p]).1 && EscAfter(esc, s[..p + 1]) == InEscape(e, s[p]).0
  {
    ClassifySplit(esc, s[..p], s[p..]);
    assert s == s[..p] + s[p..];
    ClassifySplit(esc, s[..p], [s[p]]);
    assert s[..p + 1] == s[..p] + [s[p]] && [s[p]][1..] == [];
  }

  /** The position of the last CR LF, or -1. */
  method FindNewLinePos(data: string) returns (r: int)
    ensures r == LastIndex(data, "\r\n")
  {
    var pb := '\0';
    var i := |data| - 1;
    while i >= 0
      invariant -1 <= i < |data|
      invariant pb == if i == |data| - 1 then '\0' else data[i + 1]
      invariant forall k :: i < k ==> !OccursAt(data, "\r\n", k)
    {
      var cb := data[i];
      if pb == '\n' && cb == '\r' {
        assert data[i..i + 2] == "\r\n";
        assert OccursAt(data, "\r\n", i);
        return i;
      }
      if i + 2 <= |data| {
        assert data[i..i + 2][0] == cb && data[i..i + 2][1] == pb;
      }
      pb := cb;
      i := i - 1;
    }
    return -1;
  }
}
