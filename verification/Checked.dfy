/** internal/telnet/checked.go: commands whose exit status is confirmed. */
module Checked {
  import opened Text
  import Shell
  import opened Telnet

  const RS: char := 30 as char
  const US: char := 31 as char

  // ---------- the request ----------

  function HexDigit(n: nat): (c: char)
    requires n < 16
    ensures '0' <= c <= '9' || 'a' <= c <= 'f'
  {
    if n < 10 then ('0' as int + n) as char else ('a' as int + n - 10) as char
  }

  /** hex.EncodeToString */
  function HexText(data: seq<Byte>): (s: string)
    ensures |s| == 2 * |data|
    ensures forall i :: 0 <= i < |s| ==> '0' <= s[i] <= '9' || 'a' <= s[i] <= 'f'
  {
    if data == [] then [] else [HexDigit(data[0] / 16), HexDigit(data[0] % 16)] + HexText(data[1..])
  }

  function Marker(nonce: seq<Byte>): string {
    "__busyscout_" + HexText(nonce) + "__"
  }

  /** What the frames need of a marker. */
  predicate ValidMarker(marker: string) {
    forall i :: 0 <= i < |marker| ==> marker[i] !in {RS, US, '\'', '"'}
  }

  lemma MarkerIsValid(nonce: seq<Byte>)
    ensures ValidMarker(Marker(nonce))
  {
    var m := Marker(nonce);
    forall i | 0 <= i < |m| ensures m[i] !in {RS, US, '\'', '"'} {
      if 12 <= i < 12 + |HexText(nonce)| {
        assert m[i] == HexText(nonce)[i - 12];
      }
    }
  }

  const BEGIN_FORMAT := "\\036%s:B\\037"
  const END_FORMAT := "\\036%s:%s\\037\\n"

  // The five statements of the wrapper. The formats hold no quote, so quoting them
  // is writing them between quotes.

  function SetMarker(marker: string): string { "bs_m=" + Shell.ShellQuote(marker) + "; " }

  function PrintBegin(): string { PrintfText(BEGIN_FORMAT, "bs_m") + "; " }

  function EvalCommand(command: string): string {
    "( " + ("eval" + " ") + (Shell.ShellQuote(command) + " ") + ")" + "; "
  }

  function SaveStatus(): string { "bs_status=" + "$?" + "; " }

  function PrintEnd(): string { PrintfText(END_FORMAT, "bs_m") + (" " + Variable("bs_status")) }

  function PrintfText(format: string, name: string): string {
    "printf" + " " + (Shell.ShellQuote(format) + " ") + Variable(name)
  }

  function Variable(name: string): string { "\"$" + name + "\"" }

  /** The request: the command is evaluated in a subshell, between two frames. */
  function Wrapped(marker: string, command: string): string {
    SetMarker(marker) + PrintBegin() + EvalCommand(command) + SaveStatus() + PrintEnd()
  }

  function Begin(marker: string): string { [RS] + marker + ":B" + [US] }

  function Prefix(marker: string): string { [RS] + marker + ":" }

  /** The two strings the reader looks for. */
  datatype Frames = Frames(begin: string, prefix: string) {
    /** RS only at their heads, so that they cannot overlap themselves; and no US in
        the prefix, so that it ends before the US that completes a record. */
    ghost predicate Valid() {
      && begin != [] && begin[0] == RS && (forall i :: 0 < i < |begin| ==> begin[i] != RS)
      && prefix != [] && prefix[0] == RS && (forall i :: 0 < i < |prefix| ==> prefix[i] != RS)
      && (forall i :: 0 <= i < |prefix| ==> prefix[i] != US)
    }
  }

  function FramesOf(marker: string): Frames {
    Frames(Begin(marker), Prefix(marker))
  }

  lemma FrameShape(marker: string)
    requires ValidMarker(marker)
    ensures FramesOf(marker).Valid()
  {
    var b, p := Begin(marker), Prefix(marker);
    forall i | 0 < i < |b| ensures b[i] != RS {
      if i <= |marker| { assert b[i] == marker[i - 1]; }
    }
    forall i | 0 < i < |p| ensures p[i] != RS && p[i] != US {
      if i <= |marker| { assert p[i] == marker[i - 1]; }
    }
  }

  // ---------- the reply ----------

  /** No US byte in `out` comes after an occurrence of `prefix`. */
  ghost predicate Calm(out: string, prefix: string) {
    forall k :: 0 <= k < |out| && out[k] == US ==> !Contains(out[..k + 1], prefix)
  }

  /** The parts of a well-formed reply. `pre` is anything before the begin frame: a
      wrapped or coloured echo, or nothing. */
  ghost predicate Reply(d: string, f: Frames, pre: string, out: string, status: nat, nl: string, rest: string) {
    && d == pre + f.begin + (out + f.prefix + Itoa(status) + [US] + (nl + rest))
    && !Contains(pre, f.begin)
    && Calm(out, f.prefix)
    && status <= 255
    && (nl == "\n" || nl == "\r\n")
    && exists q :: StopsAt(rest, q, EndsInMark)
  }

  /** Output without the marker prefix is calm, even if it is full of RS and US. */
  lemma PrefixFreeIsCalm(out: string, prefix: string)
    requires !Contains(out, prefix)
    ensures Calm(out, prefix)
  {
    forall k | 0 <= k < |out| && out[k] == US ensures !Contains(out[..k + 1], prefix) {
      var head := out[..k + 1];
      forall i ensures !OccursAt(head, prefix, i) {
        OccursInPrefix(out, k + 1, prefix, i);
      }
    }
  }

  /** The completion record ends at the first US that follows the prefix. */
  ghost predicate Completes(e: string, prefix: string, n: int) {
    && 0 < n <= |e| && e[n - 1] == US && Contains(e[..n], prefix)
    && forall k :: 0 <= k < n - 1 && e[k] == US ==> !Contains(e[..k + 1], prefix)
  }

  lemma CompletesUnique(e: string, prefix: string, m: int, n: int)
    requires Completes(e, prefix, m) && Completes(e, prefix, n)
    ensures m == n
  {
    assert e[m - 1] == US && e[n - 1] == US;
  }

  // ---------- frames have no borders ----------

  /** A frame cannot start inside itself, so the first occurrence in
      `pre + begin + tail` is the one after `pre`. */
  lemma FirstBegin(pre: string, begin: string, tail: string, i: int)
    requires begin != [] && begin[0] == RS && forall k :: 0 < k < |begin| ==> begin[k] != RS
    requires !Contains(pre, begin)
    requires i < |pre|
    ensures !OccursAt(pre + begin + tail, begin, i)
  {
    var d := pre + begin + tail;
    if i + |begin| <= |pre| {
      OccursInPrefix(d, |pre|, begin, i);
      assert d[..|pre|] == pre;
    } else if 0 <= i {
      assert d[|pre|] == RS;
      assert d[i..i + |begin|][|pre| - i] == d[|pre|];
      assert begin[|pre| - i] != RS;
    }
  }

  lemma ItoaHasNoFrameBytes(n: nat)
    ensures forall i :: 0 <= i < |Itoa(n)| ==> Itoa(n)[i] != RS && Itoa(n)[i] != US
  {
    assert forall i :: 0 <= i < |Itoa(n)| ==> IsDigit(Itoa(n)[i]);
  }

  // ---------- the client ----------

  datatype Result =
    | Exited(output: string, status: nat)
    | BadCommand | Unsent | NoBegin | NoCompletion(output: string) | Malformed(output: string) | NoPrompt(output: string)
  {
    /** ExecuteChecked's error is nil exactly when status 0 was confirmed. */
    predicate Nil() { Exited? && status == 0 }
  }

  /** The last `size` of the first `c` bytes, or all of them. */
  function Window(d: string, size: nat, c: nat): string
    requires c <= |d|
  {
    if c < size then d[..c] else d[c - size..c]
  }

  lemma WindowSlides(d: string, size: nat, c: nat)
    requires 0 < size && c < |d|
    ensures var w := Window(d, size, c) + [d[c]];
      Window(d, size, c + 1) == if |w| > size then w[1..] else w
  {
  }

  /** After `c` bytes, `window` holds the last of them and no frame has ended before. */
  ghost predicate Scanned(d: string, begin: string, c: nat, window: string) {
    && c <= |d| && window == Window(d, |begin|, c)
    && forall i :: OccursAt(d, begin, i) ==> c <= i + |begin|
  }

  /** The window is the frame exactly when an occurrence ends at `c`. */
  lemma WindowMatches(d: string, begin: string, c: nat)
    requires begin != [] && c <= |d|
    ensures HasSuffix(Window(d, |begin|, c), begin) <==> OccursAt(d, begin, c - |begin|)
  {
  }

  lemma ScanFurther(d: string, begin: string, c: nat, window: string)
    requires begin != [] && Scanned(d, begin, c, window) && !HasSuffix(window, begin)
    ensures c < |d| ==> var w := window + [d[c]]; Scanned(d, begin, c + 1, if |w| > |begin| then w[1..] else w)
    ensures c == |d| ==> !Contains(d, begin)
  {
    WindowMatches(d, begin, c);
    assert forall i :: OccursAt(d, begin, i) && i + |begin| == c ==> i == c - |begin|;
    if c < |d| {
      WindowSlides(d, |begin|, c);
    }
  }

  lemma ScanStart(d: string, begin: string)
    ensures Scanned(d, begin, 0, [])
  {
  }

  lemma ScanFound(d: string, begin: string, c: nat, window: string)
    requires begin != [] && Scanned(d, begin, c, window) && HasSuffix(window, begin)
    ensures c >= |begin| && BeginsAt(d, begin, c - |begin|, d[c..])
  {
    WindowMatches(d, begin, c);
  }

  /** Consumes data up to and including the first occurrence of `begin`, looking
      only at a window of its length. */
  method AwaitBegin(tc: TelnetClient, begin: string) returns (found: bool, ghost pos: nat)
    requires tc.Valid() && begin != []
    modifies tc`input, tc`buffered
    ensures tc.Valid()
    ensures found ==> BeginsAt(Data(old(tc.input)), begin, pos, Data(tc.input))
    ensures !found ==> !Contains(Data(old(tc.input)), begin)
  {
    ghost var d := Data(tc.input);
    var pending := [];
    ghost var c: nat := 0;
    pos := 0;
    ScanStart(d, begin);
    while !HasSuffix(pending, begin)
      invariant tc.Valid() && Scanned(d, begin, c, pending) && Data(tc.input) == d[c..]
      decreases |tc.input|
    {
      ScanFurther(d, begin, c, pending);
      var b := tc.ReadByte();
      if b.None? {
        return false, 0;
      }
      pending := pending + [b.value];
      c := c + 1;
      if |pending| > |begin| {
        pending := pending[1..];
      }
    }
    ScanFound(d, begin, c, pending);
    pos := c - |begin|;
    found := true;
  }

  /** Accumulates output up to the US that completes the record. */
  method AwaitCompletion(tc: TelnetClient, prefix: string) returns (output: string, found: bool)
    requires tc.Valid()
    modifies tc`input, tc`buffered
    ensures tc.Valid() && |output| <= |Data(old(tc.input))| && output == Data(old(tc.input))[..|output|]
    ensures found ==> Completes(Data(old(tc.input)), prefix, |output|) && Data(tc.input) == Data(old(tc.input))[|output|..]
    ensures !found ==> forall n :: !Completes(Data(old(tc.input)), prefix, n)
  {
    ghost var e := Data(tc.input);
    output := [];
    while true
      invariant tc.Valid() && |output| <= |e| && output == e[..|output|] && Data(tc.input) == e[|output|..]
      invariant forall k :: 0 <= k < |output| && e[k] == US ==> !Contains(e[..k + 1], prefix)
      decreases |tc.input|
    {
      var b := tc.ReadByte();
      if b.None? {
        return output, false;
      }
      output := output + [b.value];
      assert output == e[..|output|];
      if b.value == US && LastIndex(output, prefix) >= 0 {
        return output, true;
      }
    }
  }

  /** CR LF or LF. */
  method ReadTerminator(tc: TelnetClient) returns (ok: bool)
    requires tc.Valid()
    modifies tc`input, tc`buffered
    ensures tc.Valid()
    ensures ok ==> exists nl :: (nl == "\n" || nl == "\r\n") && Data(old(tc.input)) == nl + Data(tc.input)
    ensures !ok ==> !("\n" <= Data(old(tc.input))) && !("\r\n" <= Data(old(tc.input)))
  {
    ghost var d := Data(tc.input);
    var b := tc.ReadByte();
    if b == Some('\r') {
      b := tc.ReadByte();
      if b == Some('\n') {
        assert d == "\r\n" + Data(tc.input);
      }
      return b == Some('\n');
    }
    if b == Some('\n') {
      assert d == "\n" + Data(tc.input);
    }
    return b == Some('\n');
  }

  /** The stream after the begin frame, cut at a completion record that ends at `n`. */
  datatype Record = Record(out: string, text: string, tail: string)

  predicate HasRecord(e: string, prefix: string, n: nat) {
    n <= |e| && var start := LastIndex(e[..n], prefix); 0 <= start && start + |prefix| <= n - 1
  }

  function RecordOf(e: string, prefix: string, n: nat): Record
    requires HasRecord(e, prefix, n)
  {
    var start := LastIndex(e[..n], prefix);
    Record(e[..start], e[start + |prefix|..n - 1], e[n..])
  }

  /** The prefix holds no US, so it ends before the US that completes the record. */
  lemma PrefixEndsBefore(e: string, f: Frames, n: nat)
    requires f.Valid() && Completes(e, f.prefix, n)
    ensures HasRecord(e, f.prefix, n)
  {
    var start := LastIndex(e[..n], f.prefix);
    var p := f.prefix;
    assert e[..n][start..start + |p|][|p| - 1] == e[start + |p| - 1];
  }

  /** The first begin frame of `d` is at `pos`, and `e` is what follows it. */
  ghost predicate BeginsAt(d: string, begin: string, pos: nat, e: string) {
    && OccursAt(d, begin, pos) && (forall i :: OccursAt(d, begin, i) ==> pos <= i)
    && e == d[pos + |begin|..]
  }

  /** Where a well-formed reply makes the reader stop, and what it then finds. */
  lemma CompletionOfReply(f: Frames, out: string, digits: string, tail: string) returns (e: string, n: nat)
    requires f.Valid() && Calm(out, f.prefix)
    requires forall i :: 0 <= i < |digits| ==> digits[i] != RS && digits[i] != US
    ensures e == out + f.prefix + digits + [US] + tail
    ensures Completes(e, f.prefix, n) && HasRecord(e, f.prefix, n)
    ensures RecordOf(e, f.prefix, n) == Record(out, digits, tail)
  {
    var prefix := f.prefix;
    var record := out + prefix + digits + [US];
    e, n := record + tail, |record|;
    assert e[..n] == record;
    assert OccursAt(record, prefix, |out|);
    forall k | |out| <= k < n - 1 ensures e[k] != US {
      assert e[k] == (prefix + digits)[k - |out|];
    }
    forall k | 0 <= k < |out| && e[k] == US ensures !Contains(e[..k + 1], prefix) {
      assert e[..k + 1] == out[..k + 1];
    }
    forall i | |out| < i ensures !OccursAt(record, prefix, i) {
      if i + |prefix| <= |record| {
        assert record[i] == (prefix + digits + [US])[i - |out|];
        assert record[i..i + |prefix|][0] == record[i] != RS;
      }
    }
    assert LastIndex(record, prefix) == |out|;
    assert e[..|out|] == out && e[|out| + |prefix|..n - 1] == digits && e[n..] == tail;
  }

  /** What a well-formed reply holds, found where the reader looks for it. */
  lemma ReplyParts(d: string, f: Frames, pre: string, out: string, status: nat, nl: string, rest: string)
    returns (e: string, n: nat)
    requires f.Valid() && Reply(d, f, pre, out, status, nl, rest)
    ensures BeginsAt(d, f.begin, |pre|, e)
    ensures Completes(e, f.prefix, n) && HasRecord(e, f.prefix, n)
    ensures RecordOf(e, f.prefix, n) == Record(out, Itoa(status), nl + rest)
  {
    ItoaHasNoFrameBytes(status);
    e, n := CompletionOfReply(f, out, Itoa(status), nl + rest);
    BeginFound(pre, f.begin, e);
  }

  lemma BeginFound(pre: string, begin: string, e: string)
    requires begin != [] && begin[0] == RS && forall k :: 0 < k < |begin| ==> begin[k] != RS
    requires !Contains(pre, begin)
    ensures BeginsAt(pre + begin + e, begin, |pre|, e)
  {
    forall i | i < |pre| ensures !OccursAt(pre + begin + e, begin, i) {
      FirstBegin(pre, begin, e, i);
    }
  }

  lemma BeginSplits(d: string, begin: string, pos: nat, e: string)
    requires begin != [] && BeginsAt(d, begin, pos, e)
    ensures d == d[..pos] + begin + e && !Contains(d[..pos], begin)
  {
    var pre := d[..pos];
    forall i ensures !OccursAt(pre, begin, i) {
      OccursInPrefix(d, pos, begin, i);
      assert begin != [] && i + |begin| <= pos ==> i < pos;
    }
  }

  /** The status grammar is strict: only the canonical numeral of 0..255. */
  predicate IsStatus(text: string) {
    Atoi(text).Some? && 0 <= Atoi(text).value <= 255 && Itoa(Atoi(text).value) == text
  }

  lemma StatusIsCanonical(text: string, status: nat)
    requires status <= 255
    ensures text == Itoa(status) <==> IsStatus(text) && Atoi(text).value == status
  {
    AtoiItoa(status);
  }

  /** `r` is right about every reply that `d` can be read as. */
  ghost predicate Faithful(d: string, f: Frames, r: Result) {
    forall pre, out, status: nat, nl, rest ::
      Reply(d, f, pre, out, status, nl, rest) ==> r == Exited(out, status)
  }

  ghost predicate Terminated(tail: string) {
    exists nl, rest ::
      (nl == "\n" || nl == "\r\n") && tail == nl + rest && exists q :: StopsAt(rest, q, EndsInMark)
  }

  lemma NoBeginNoReply(d: string, f: Frames, r: Result)
    requires f.Valid() && !Contains(d, f.begin)
    ensures Faithful(d, f, r)
  {
    forall pre, out, status: nat, nl, rest | Reply(d, f, pre, out, status, nl, rest)
      ensures false
    {
      var e', n' := ReplyParts(d, f, pre, out, status, nl, rest);
    }
  }

  lemma NoCompletionNoReply(d: string, f: Frames, pos: nat, e: string, r: Result)
    requires f.Valid() && BeginsAt(d, f.begin, pos, e)
    requires forall n :: !Completes(e, f.prefix, n)
    ensures Faithful(d, f, r)
  {
    forall pre, out, status: nat, nl, rest | Reply(d, f, pre, out, status, nl, rest)
      ensures false
    {
      var e', n' := ReplyParts(d, f, pre, out, status, nl, rest);
    }
  }

  /** Once the record is found, every reply has the same parts. */
  lemma RecordDecides(d: string, f: Frames, pos: nat, e: string, n: nat, record: Record, r: Result)
    requires f.Valid() && BeginsAt(d, f.begin, pos, e)
    requires Completes(e, f.prefix, n)
    requires HasRecord(e, f.prefix, n)
    requires record == RecordOf(e, f.prefix, n)
    requires IsStatus(record.text) && Terminated(record.tail) ==> r == Exited(record.out, Atoi(record.text).value)
    ensures Faithful(d, f, r)
  {
    forall pre, out, status: nat, nl, rest | Reply(d, f, pre, out, status, nl, rest)
      ensures r == Exited(out, status)
    {
      var e', n' := ReplyParts(d, f, pre, out, status, nl, rest);
      assert e' == e;
      CompletesUnique(e, f.prefix, n, n');
      StatusIsCanonical(Itoa(status), status);
      assert Terminated(nl + rest);
    }
  }

  /** Conversely, what the reader accepts is a reply. */
  lemma RecordIsReply(d: string, f: Frames, pos: nat, e: string, n: nat, record: Record)
    requires f.Valid() && BeginsAt(d, f.begin, pos, e)
    requires Completes(e, f.prefix, n)
    requires HasRecord(e, f.prefix, n) && record == RecordOf(e, f.prefix, n)
    requires IsStatus(record.text) && Terminated(record.tail)
    ensures exists pre, nl, rest :: Reply(d, f, pre, record.out, Atoi(record.text).value, nl, rest)
  {
    RecordText(e, f.prefix, n);
    OutputIsCalm(e, f.prefix, n);
    BeginSplits(d, f.begin, pos, e);
    var nl, rest :| (nl == "\n" || nl == "\r\n") && record.tail == nl + rest && exists q :: StopsAt(rest, q, EndsInMark);
    assert Reply(d, f, d[..pos], record.out, Atoi(record.text).value, nl, rest);
  }

  lemma RecordText(e: string, prefix: string, n: nat)
    requires Completes(e, prefix, n)
    requires HasRecord(e, prefix, n)
    ensures var record := RecordOf(e, prefix, n); e == record.out + prefix + record.text + [US] + record.tail
  {
    var start := LastIndex(e[..n], prefix);
    assert e[start..start + |prefix|] == e[..n][start..start + |prefix|] == prefix;
  }

  lemma OutputIsCalm(e: string, prefix: string, n: nat)
    requires Completes(e, prefix, n)
    requires HasRecord(e, prefix, n)
    ensures Calm(RecordOf(e, prefix, n).out, prefix)
  {
    var out := RecordOf(e, prefix, n).out;
    forall k | 0 <= k < |out| && out[k] == US ensures !Contains(out[..k + 1], prefix) {
      assert e[k] == US && e[..k + 1] == out[..k + 1];
    }
  }

  /** The reading half of ExecuteChecked. */
  method ReadReply(tc: TelnetClient, f: Frames) returns (r: Result)
    requires tc.Valid() && f.Valid()
    modifies tc`input, tc`buffered
    ensures tc.Valid() && !r.BadCommand? && !r.Unsent?
    ensures r.Exited? ==> exists pre, nl, rest ::
      Reply(Data(old(tc.input)), f, pre, r.output, r.status, nl, rest)
    ensures Faithful(Data(old(tc.input)), f, r)
  {
    ghost var d := Data(tc.input);
    var begun, pos := AwaitBegin(tc, f.begin);
    if !begun {
      NoBeginNoReply(d, f, NoBegin);
      return NoBegin;
    }
    r := ReadRecord(tc, f, d, pos);
  }

  /** From the begin frame on. */
  method ReadRecord(tc: TelnetClient, f: Frames, ghost d: string, ghost pos: nat) returns (r: Result)
    requires tc.Valid() && f.Valid()
    requires BeginsAt(d, f.begin, pos, Data(tc.input))
    modifies tc`input, tc`buffered
    ensures tc.Valid() && !r.BadCommand? && !r.Unsent?
    ensures r.Exited? ==> exists pre, nl, rest :: Reply(d, f, pre, r.output, r.status, nl, rest)
    ensures Faithful(d, f, r)
  {
    ghost var e := Data(tc.input);
    var prefix := f.prefix;
    var output, completed := AwaitCompletion(tc, prefix);
    if !completed {
      NoCompletionNoReply(d, f, pos, e, NoCompletion(output));
      return NoCompletion(output);
    }
    ghost var n := |output|;
    PrefixEndsBefore(e, f, n);
    ghost var record := RecordOf(e, prefix, n);
    var start := LastIndex(output, prefix);
    assert start == LastIndex(e[..n], prefix) && start + |prefix| <= |output| - 1;
    var text := output[start + |prefix|..|output| - 1];
    output := output[..start];
    assert text == record.text && output == record.out;
    r := ReadStatus(tc, output, text);
    RecordDecides(d, f, pos, e, n, record, r);
    if r.Exited? {
      RecordIsReply(d, f, pos, e, n, record);
    }
  }

  /** The status, the terminator and the prompt. */
  method ReadStatus(tc: TelnetClient, output: string, text: string) returns (r: Result)
    requires tc.Valid()
    modifies tc`input, tc`buffered
    ensures tc.Valid() && !r.BadCommand? && !r.Unsent?
    ensures if IsStatus(text) && Terminated(Data(old(tc.input))) then r == Exited(output, Atoi(text).value) else !r.Exited?
  {
    if !IsStatus(text) {
      return Malformed(output);
    }
    r := ReadEnd(tc, output, Atoi(text).value);
  }

  /** The terminator and the prompt after a completion record. */
  method ReadEnd(tc: TelnetClient, output: string, status: nat) returns (r: Result)
    requires tc.Valid()
    modifies tc`input, tc`buffered
    ensures tc.Valid() && !r.BadCommand? && !r.Unsent?
    ensures if Terminated(Data(old(tc.input))) then r == Exited(output, status) else !r.Exited?
  {
    ghost var tail := Data(tc.input);
    var terminated := ReadTerminator(tc);
    if !terminated {
      return Malformed(output);
    }
    ghost var rest := Data(tc.input);
    ghost var nl :| (nl == "\n" || nl == "\r\n") && tail == nl + rest;
    TerminatorUnique(tail, nl, rest);
    var prompt, ready := tc.ReadUntilBanner();
    if !ready {
      return NoPrompt(output);
    }
    return Exited(output, status);
  }

  lemma TerminatorUnique(tail: string, nl: string, rest: string)
    requires (nl == "\n" || nl == "\r\n") && tail == nl + rest
    ensures Terminated(tail) <==> exists q :: StopsAt(rest, q, EndsInMark)
  {
    if Terminated(tail) {
      var nl', rest' :| (nl' == "\n" || nl' == "\r\n") && tail == nl' + rest' && exists q :: StopsAt(rest', q, EndsInMark);
      assert tail[0] == nl'[0] == nl[0];
      assert rest' == tail[|nl'|..] == rest;
    }
  }

  /** Sends the request and reads the reply. */
  method Exchange(tc: TelnetClient, request: string, f: Frames) returns (r: Result)
    requires tc.Valid() && f.Valid()
    modifies tc
    ensures tc.Valid() && !r.BadCommand?
    ensures if r.Unsent? then |tc.sent| < |old(tc.sent) + request| else tc.sent == old(tc.sent) + request
    ensures r.Exited? ==> exists pre, nl, rest ::
      Reply(Data(old(tc.input)[old(tc.buffered)..]), f, pre, r.output, r.status, nl, rest)
    ensures !r.Unsent? ==> Faithful(Data(old(tc.input)[old(tc.buffered)..]), f, r)
  {
    var dropped := tc.DiscardBuffered();
    var sent := tc.Write(request);
    if !sent {
      return Unsent;
    }
    r := ReadReply(tc, f);
  }

  /** Runs one command. The result is the exit record if and only if the reply has
      the shape of one: output and status are exactly those of the reply, whatever
      comes before the begin frame and whatever bytes the output holds. */
  method ExecuteChecked(tc: TelnetClient, nonce: seq<Byte>, command: string) returns (r: Result)
    requires tc.Valid()
    modifies tc
    ensures tc.Valid()
    ensures HasControl(command) <==> r == BadCommand
    ensures HasControl(command) ==> tc.sent == old(tc.sent)
    ensures !r.BadCommand? ==> var request := Wrapped(Marker(nonce), command) + "\r\n";
      if r.Unsent? then |tc.sent| < |old(tc.sent) + request| else tc.sent == old(tc.sent) + request
    ensures r.Exited? ==> exists pre, nl, rest ::
      Reply(Data(old(tc.input)[old(tc.buffered)..]), FramesOf(Marker(nonce)), pre, r.output, r.status, nl, rest)
    ensures !r.BadCommand? && !r.Unsent? ==> Faithful(Data(old(tc.input)[old(tc.buffered)..]), FramesOf(Marker(nonce)), r)
  {
    if HasControl(command) {
      return BadCommand;
    }
    var marker := Marker(nonce);
    MarkerIsValid(nonce);
    FrameShape(marker);
    r := Exchange(tc, Wrapped(marker, command) + "\r\n", FramesOf(marker));
  }
}
