/** internal/scout/pull_printf.go: reading a file back through the shell, printed in
    base64 or hex. */
module PullPrintf {
  import opened Text
  import Shell
  import opened Telnet
  import Checked
  import Devices
  import opened Encodings

  // ---------- stripPrompt ----------

  /** strings.Split(s, "\n") */
  function Split(s: string): (lines: seq<string>)
    ensures lines != []
  {
    if s == [] then [[]]
    else
      var rest := Split(s[1..]);
      if s[0] == '\n' then [[]] + rest else [[s[0]] + rest[0]] + rest[1..]
  }

  /** strings.Join(lines, "") */
  function Join(lines: seq<string>): string {
    if lines == [] then [] else lines[0] + Join(lines[1..])
  }

  /** Everything from the last line accepted by `mark` on is dropped, and so are
      the line feeds between the others. */
  ghost predicate Stripped(lines: seq<string>, mark: string -> bool, r: string) {
    || (r == Join(lines) && forall i :: 0 <= i < |lines| ==> !mark(lines[i]))
    || (exists k :: 0 <= k < |lines| && mark(lines[k]) && r == Join(lines[..k])
          && forall i :: k < i < |lines| ==> !mark(lines[i]))
  }

  method StripPrompt(s: string) returns (r: string)
    ensures Stripped(Split(s), EndsInMark, r)
  {
    r := StripLines(Split(s), EndsInMark);
  }

  method StripLines(all: seq<string>, mark: string -> bool) returns (r: string)
    ensures Stripped(all, mark, r)
  {
    var lines := all;
    var i := |lines| - 1;
    while i >= 0
      invariant -1 <= i < |lines| && lines == all
      invariant forall k :: i < k < |lines| ==> !mark(lines[k])
    {
      if mark(lines[i]) {
        lines := lines[..i];
        return Join(lines);
      }
      i := i - 1;
    }
    return Join(lines);
  }

  /** strings.ReplaceAll(s, string(c), "") */
  function Remove(s: string, c: char): string {
    if s == [] then [] else (if s[0] == c then [] else [s[0]]) + Remove(s[1..], c)
  }

  function Breaks(s: string): string { Remove(Remove(s, '\n'), '\r') }

  function Digits(s: string): string { Remove(Breaks(s), ' ') }

  datatype Decoder = Base64 | Hex

  /** The decoders, after the prompt has been stripped. */
  function Decode(d: Decoder, s: string): Option<seq<Byte>> {
    match d
    case Base64 => Decode64(Breaks(s))
    case Hex => DecodeHex(Digits(s))
  }

  /** decodeBase64Output and decodeHexOutput */
  method DecodeOutput(d: Decoder, output: string) returns (data: Option<seq<Byte>>)
    ensures exists r :: Stripped(Split(output), EndsInMark, r) && data == Decode(d, r)
  {
    var s := StripPrompt(output);
    data := Decode(d, s);
  }

  // ---------- lines and marks ----------

  lemma {:induction false} TrimLeftKeepsLast(s: string)
    requires s != [] && !IsSpace(s[|s| - 1])
    ensures TrimLeft(s) != [] && TrimLeft(s)[|TrimLeft(s)| - 1] == s[|s| - 1]
  {
    if IsSpace(s[0]) {
      TrimLeftKeepsLast(s[1..]);
    }
  }

  /** A line counts as a prompt by its last character that is no space. */
  lemma MarkAtEnd(line: string)
    ensures EndsInMark(line) <==> IsMarked(TrimRight(line, SPACES))
  {
    var r := TrimRight(line, SPACES);
    if r != [] {
      SpacesAreSpaces(r[|r| - 1]);
      TrimLeftKeepsLast(r);
    }
  }

  lemma {:induction false} TrimRightConcat(a: string, b: string, cutset: set<char>)
    ensures TrimRight(a + b, cutset) == if TrimRight(b, cutset) == [] then TrimRight(a, cutset) else a + TrimRight(b, cutset)
    decreases |b|
  {
    if b == [] {
      assert a + b == a;
    } else {
      var n := |b| - 1;
      assert (a + b)[..|a + b| - 1] == a + b[..n];
      TrimRightConcat(a, b[..n], cutset);
    }
  }

  /** Text without a mark at its end does not change which lines behind it count. */
  lemma MarkBehind(a: string, b: string)
    requires !EndsInMark(a)
    ensures EndsInMark(a + b) <==> EndsInMark(b)
  {
    MarkAtEnd(a);
    MarkAtEnd(b);
    MarkAtEnd(a + b);
    TrimRightConcat(a, b, SPACES);
    MarkedConcat(a, TrimRight(a, SPACES), TrimRight(b, SPACES), TrimRight(a + b, SPACES));
  }

  lemma MarkedConcat(a: string, x: string, y: string, z: string)
    requires z == (if y == [] then x else a + y) && !IsMarked(x)
    ensures IsMarked(z) <==> IsMarked(y)
  {
  }

  /** bytes.TrimRight of a few blanks does not change what TrimSpace leaves. */
  lemma {:induction false} TrimTwice(s: string, few: set<char>)
    requires few <= SPACES
    ensures TrimRight(TrimRight(s, few), SPACES) == TrimRight(s, SPACES)
    decreases |s|
  {
    if s != [] && s[|s| - 1] in few {
      TrimTwice(s[..|s| - 1], few);
    }
  }

  lemma MarkOfTrimmed(s: string)
    ensures EndsInMark(TrimRight(s, BLANKS)) <==> EndsInMark(s)
  {
    TrimTwice(s, BLANKS);
  }

  lemma CrLfAt(s: string, i: int)
    ensures OccursAt(s, "\r\n", i) <==> 0 <= i && i + 2 <= |s| && s[i] == '\r' && s[i + 1] == '\n'
  {
    if 0 <= i && i + 2 <= |s| {
      assert s[i..i + 2] == [s[i], s[i + 1]];
    }
  }

  /** The line in progress, when bytes without line feeds have been added. */
  lemma LineGrows(h: string, p: string)
    requires '\n' !in p
    ensures LastLine(h + p) == LastLine(h) + p
  {
    LastCrLf(h, p);
    var k := LastIndex(h, "\r\n");
    if k != -1 {
      assert (h + p)[k + 2..] == h[k + 2..] + p;
    }
  }

  lemma LastCrLf(h: string, p: string)
    requires '\n' !in p
    ensures LastIndex(h + p, "\r\n") == LastIndex(h, "\r\n")
  {
    var s := h + p;
    forall i ensures OccursAt(s, "\r\n", i) <==> OccursAt(h, "\r\n", i) {
      CrLfAt(s, i);
      CrLfAt(h, i);
      assert |h| <= i + 1 < |s| ==> s[i + 1] == p[i + 1 - |h|];
    }
  }

  // ---------- what the device prints ----------

  /** A prompt: one line that is accepted at its last byte and not before. */
  ghost predicate IsPrompt(p: string) {
    IsOneLine(p) && StopsFirst(p, |p|, EndsInMark)
  }

  /** Text in which nothing can be taken for a prompt: neither at a blank, nor at the
      end of a line, nor together with what follows. */
  ghost predicate IsText(h: string) {
    && (forall q :: !StopsAt(h, q, EndsInMark))
    && (forall i :: 0 <= i < |Split(h)| ==> !EndsInMark(Split(h)[i]))
    && !EndsInMark(LastLine(h))
  }

  lemma {:induction false} SplitChars(s: string, i: nat, k: nat)
    requires i < |Split(s)| && k < |Split(s)[i]|
    ensures Split(s)[i][k] in s
    decreases |s|
  {
    if s != [] {
      var rest := Split(s[1..]);
      if s[0] == '\n' {
        SplitChars(s[1..], i - 1, k);
      } else if i > 0 {
        SplitChars(s[1..], i, k);
      } else if k > 0 {
        SplitChars(s[1..], 0, k - 1);
      }
    }
  }

  predicate Unmarked(s: string) { '#' !in s && '$' !in s }

  lemma NoMarkInside(line: string)
    requires Unmarked(line)
    ensures !EndsInMark(line)
  {
    MarkAtEnd(line);
    var r := TrimRight(line, SPACES);
    assert r != [] ==> r[|r| - 1] == line[|r| - 1];
  }

  lemma UnmarkedLine(h: string, q: nat)
    requires Unmarked(h) && q <= |h|
    ensures !EndsInMark(LastLine(h[..q]))
  {
    var line := LastLine(h[..q]);
    forall i | 0 <= i < |line| ensures line[i] in h {
    }
    NoMarkInside(line);
  }

  /** Text without the characters of a mark, as encoders print it. */
  lemma UnmarkedIsText(h: string)
    requires Unmarked(h)
    ensures IsText(h)
  {
    forall q ensures !StopsAt(h, q, EndsInMark) {
      if 0 < q <= |h| {
        UnmarkedLine(h, q);
      }
    }
    forall i | 0 <= i < |Split(h)| ensures !EndsInMark(Split(h)[i]) {
      forall k | 0 <= k < |Split(h)[i]| ensures Split(h)[i][k] in h {
        SplitChars(h, i, k);
      }
      NoMarkInside(Split(h)[i]);
    }
    UnmarkedLine(h, |h|);
    assert h[..|h|] == h;
  }

  lemma OneLine(p: string)
    requires '\n' !in p
    ensures LastLine(p) == p
  {
    LineGrows([], p);
    assert [] + p == p;
  }

  lemma StopsAtEnd(a: string, p: string, process: string -> bool)
    requires a <= p && |p| == |a| + 2 && p[|a|] != ' ' && p[|a| + 1] == ' ' && process(LastLine(p))
    requires forall q :: 0 < q <= |a| ==> !process(LastLine(a[..q]))
    ensures StopsFirst(p, |p|, process)
  {
    assert p[..|p|] == p;
    forall q | 0 < q <= |a| ensures !StopsAt(p, q, process) {
      assert p[..q] == a[..q];
    }
  }

  lemma MarkAndBlank(p: string)
    requires |p| >= 2 && p[|p| - 1] == ' ' && p[|p| - 2] in {'#', '$'}
    ensures EndsInMark(p)
  {
    MarkAtEnd(p);
    TrimmedToMark(p, TrimRight(p, SPACES));
  }

  lemma TrimmedToMark(p: string, r: string)
    requires |p| >= 2 && p[|p| - 1] == ' ' && p[|p| - 2] in {'#', '$'}
    requires r <= p && (r == [] || r[|r| - 1] !in SPACES) && forall i :: |r| <= i < |p| ==> p[i] in SPACES
    ensures IsMarked(r)
  {
    var n := |p| - 2;
    assert p[n] !in SPACES;
    assert |r| == n + 1;
  }

  lemma UnmarkedLines(a: string)
    requires Unmarked(a)
    ensures forall q :: 0 < q <= |a| ==> !EndsInMark(LastLine(a[..q]))
  {
    forall q | 0 < q <= |a| ensures !EndsInMark(LastLine(a[..q])) {
      UnmarkedLine(a, q);
    }
  }

  predicate IsOneLine(p: string) { forall i :: 0 <= i < |p| ==> p[i] != '\r' && p[i] != '\n' }

  /** A usual prompt: a line without the characters of a mark, then a mark and a blank. */
  lemma UsualPrompt(a: string, p: string)
    requires Unmarked(a) && a <= p && |p| == |a| + 2 && p[|a|] in {'#', '$'} && p[|a| + 1] == ' ' && IsOneLine(p)
    ensures IsPrompt(p)
  {
    MarkAndBlank(p);
    OneLine(p);
    UnmarkedLines(a);
    StopsAtEnd(a, p, EndsInMark);
  }

  /** A blank of the prompt at which reading may stop is one with and without text before. */
  lemma StopsAlike(h: string, p: string, extra: string, q: nat, process: string -> bool)
    requires '\n' !in p && |h| < q <= |h + p|
    requires process(LastLine(h) + p[..q - |h|]) == process(p[..q - |h|])
    ensures StopsAt(h + p + extra, q, process) <==> StopsAt(p, q - |h|, process)
  {
    var part := p[..q - |h|];
    assert (h + p + extra)[..q] == h + part;
    assert (h + p + extra)[q - 1] == p[q - |h| - 1];
    LineGrows(h, part);
    OneLine(part);
  }

  lemma StopsBehind(h: string, p: string, extra: string, process: string -> bool)
    requires '\n' !in p && StopsFirst(p, |p|, process)
    requires forall q :: !StopsAt(h, q, process)
    requires forall k :: 0 <= k <= |p| ==> process(LastLine(h) + p[..k]) == process(p[..k])
    ensures StopsFirst(h + p + extra, |h + p|, process)
  {
    var d := h + p + extra;
    StopsAlike(h, p, extra, |h + p|, process);
    forall q | 0 < q <= |h| ensures !StopsAt(d, q, process) {
      assert d[..q] == h[..q] && d[q - 1] == h[q - 1];
      assert !StopsAt(h, q, process);
    }
    forall q | |h| < q < |h + p| ensures !StopsAt(d, q, process) {
      StopsAlike(h, p, extra, q, process);
      assert !StopsAt(p, q - |h|, process);
    }
  }

  /** ReadUntilBanner stops exactly after the prompt, whatever follows it. */
  lemma StopsAfterText(h: string, p: string, extra: string)
    requires IsPrompt(p) && IsText(h)
    ensures StopsFirst(h + p + extra, |h + p|, EndsInMark)
  {
    forall k | 0 <= k <= |p| ensures EndsInMark(LastLine(h) + p[..k]) == EndsInMark(p[..k]) {
      MarkBehind(LastLine(h), p[..k]);
    }
    StopsBehind(h, p, extra, EndsInMark);
  }

  /** The last line is ended, if there is one. */
  predicate Ended(h: string) { h == [] || h[|h| - 1] == '\n' }

  /** What is left of a text when the line of the prompt is dropped: its ended lines. */
  function Kept(h: string): (k: string)
    ensures k <= h
  {
    h[..LastIndex(h, "\n") + 1]
  }

  lemma FeedAt(s: string, i: int)
    ensures OccursAt(s, "\n", i) <==> 0 <= i < |s| && s[i] == '\n'
  {
    if 0 <= i < |s| {
      assert s[i..i + 1] == [s[i]];
    }
  }

  lemma KeptLines(h: string)
    ensures Ended(Kept(h)) && '\n' !in h[|Kept(h)|..]
    ensures Ended(h) ==> Kept(h) == h
  {
    var k := LastIndex(h, "\n");
    FeedAt(h, k);
    FeedAt(h, |h| - 1);
    forall i | k < i < |h| ensures h[i] != '\n' {
      FeedAt(h, i);
    }
  }

  /** The hex of each line, ended by CR LF. */
  function HexLines(lines: seq<seq<Byte>>): string {
    if lines == [] then [] else Checked.HexText(lines[0]) + "\r\n" + HexLines(lines[1..])
  }

  function Concat(lines: seq<seq<Byte>>): seq<Byte> {
    if lines == [] then [] else lines[0] + Concat(lines[1..])
  }

  /** Ended lines without the characters of a mark. */
  predicate IsPlain(h: string) { Unmarked(h) && Ended(h) }

  lemma {:induction false} HexLinesPlain(lines: seq<seq<Byte>>)
    ensures IsPlain(HexLines(lines))
    decreases |lines|
  {
    if lines != [] {
      HexLinesPlain(lines[1..]);
      PlainLine(Checked.HexText(lines[0]), HexLines(lines[1..]));
    }
  }

  lemma PlainLine(line: string, rest: string)
    requires Unmarked(line) && IsPlain(rest)
    ensures IsPlain(line + "\r\n" + rest)
  {
    var s := line + "\r\n" + rest;
    assert s[|s| - 1] == if rest == [] then '\n' else rest[|rest| - 1];
  }

  // ---------- nothing but the prompt is lost ----------

  lemma {:induction false} RemoveConcat(a: string, b: string, c: char)
    ensures Remove(a + b, c) == Remove(a, c) + Remove(b, c)
    decreases |a|
  {
    if a == [] {
      assert a + b == b;
    } else {
      assert (a + b)[1..] == a[1..] + b;
      RemoveConcat(a[1..], b, c);
    }
  }

  lemma DigitsConcat(a: string, b: string)
    ensures Digits(a + b) == Digits(a) + Digits(b)
  {
    RemoveConcat(a, b, '\n');
    RemoveConcat(Remove(a, '\n'), Remove(b, '\n'), '\r');
    RemoveConcat(Remove(Remove(a, '\n'), '\r'), Remove(Remove(b, '\n'), '\r'), ' ');
  }

  lemma {:induction false} RemoveNothing(s: string, c: char)
    requires forall i :: 0 <= i < |s| ==> s[i] != c
    ensures Remove(s, c) == s
  {
    if s != [] {
      RemoveNothing(s[1..], c);
    }
  }

  lemma {:induction false} DigitsOfBlank(s: string)
    requires forall i :: 0 <= i < |s| ==> s[i] in BLANKS
    ensures Digits(s) == []
    decreases |s|
  {
    if s != [] {
      DigitsOfBlank(s[1..]);
      DigitsConcat([s[0]], s[1..]);
      assert s == [s[0]] + s[1..];
      DigitsOfOne(s[0]);
    }
  }

  lemma RemoveOne(c: char, d: char)
    ensures Remove([c], d) == if c == d then [] else [c]
    ensures Remove([], d) == []
  {
    assert [c][1..] == [];
  }

  lemma DigitsOfOne(c: char)
    requires c in BLANKS
    ensures Digits([c]) == []
  {
    RemoveOne(c, '\n');
    RemoveOne(c, '\r');
    RemoveOne(c, ' ');
  }

  lemma DigitsOfHex(data: seq<Byte>)
    ensures Digits(Checked.HexText(data)) == Checked.HexText(data)
  {
    var h := Checked.HexText(data);
    RemoveNothing(h, '\n');
    RemoveNothing(h, '\r');
    RemoveNothing(h, ' ');
  }

  lemma {:induction false} HexTextConcat(a: seq<Byte>, b: seq<Byte>)
    ensures Checked.HexText(a + b) == Checked.HexText(a) + Checked.HexText(b)
    decreases |a|
  {
    if a == [] {
      assert a + b == b;
    } else {
      assert (a + b)[1..] == a[1..] + b;
      HexTextConcat(a[1..], b);
    }
  }

  lemma DigitsOfLine(line: string, rest: string)
    ensures Digits(line + "\r\n" + rest) == Digits(line) + Digits(rest)
  {
    DigitsConcat(line + "\r\n", rest);
    DigitsConcat(line, "\r\n");
    DigitsOfBlank("\r\n");
    assert Digits(line) + [] == Digits(line);
  }

  lemma {:induction false} DigitsOfLines(lines: seq<seq<Byte>>)
    ensures Digits(HexLines(lines)) == Checked.HexText(Concat(lines))
    decreases |lines|
  {
    if lines == [] {
      assert Digits([]) == [];
    } else {
      DigitsOfLine(Checked.HexText(lines[0]), HexLines(lines[1..]));
      DigitsOfHex(lines[0]);
      DigitsOfLines(lines[1..]);
      HexTextConcat(lines[0], Concat(lines[1..]));
    }
  }

  /** Splitting and joining drops line feeds only. */
  lemma {:induction false} JoinOfSplit(s: string)
    ensures Join(Split(s)) == Remove(s, '\n')
    decreases |s|
  {
    if s == [] {
      assert Join([[]]) == [] + Join([[]][1..]);
    } else {
      JoinOfSplit(s[1..]);
      var rest := Split(s[1..]);
      if s[0] == '\n' {
        assert ([[]] + rest)[1..] == rest;
      } else {
        assert ([[s[0]] + rest[0]] + rest[1..])[1..] == rest[1..];
      }
    }
  }

  lemma {:induction false} NoneLeft(s: string, c: char)
    ensures forall i :: 0 <= i < |Remove(s, c)| ==> Remove(s, c)[i] != c
  {
    if s != [] {
      NoneLeft(s[1..], c);
    }
  }

  lemma {:induction false} RemoveSelects(s: string, c: char)
    ensures forall x :: x in Remove(s, c) <==> x in s && x != c
  {
    if s != [] {
      RemoveSelects(s[1..], c);
      assert s == [s[0]] + s[1..];
    }
  }

  /** Trimming blanks from the right keeps the digits. */
  lemma DigitsOfTrimmed(s: string)
    ensures Digits(TrimRight(s, BLANKS)) == Digits(s)
  {
    var r := TrimRight(s, BLANKS);
    DigitsOfBlank(s[|r|..]);
    DigitsConcat(r, s[|r|..]);
    assert s == r + s[|r|..];
  }

  lemma {:induction false} SplitAt(a: string, b: string)
    ensures Split(a + "\n" + b) == Split(a) + Split(b)
    decreases |a|
  {
    var s := a + "\n" + b;
    if a == [] {
      assert s[1..] == b;
    } else {
      assert s[1..] == a[1..] + "\n" + b;
      SplitAt(a[1..], b);
    }
  }

  lemma {:induction false} SplitLast(s: string, c: char)
    requires c != '\n'
    ensures Split(s + [c]) == LastLonger(Split(s), c)
    decreases |s|
  {
    if s == [] {
      var none: string := [];
      assert s == none && (s + [c])[1..] == none && [none][1..] == [] && [c] + none == none + [c];
    } else {
      assert (s + [c])[1..] == s[1..] + [c];
      SplitLast(s[1..], c);
      LongerBehind(s[0], Split(s[1..]), c);
    }
  }

  function LastLonger(lines: seq<string>, c: char): seq<string>
    requires lines != []
  {
    lines[..|lines| - 1] + [lines[|lines| - 1] + [c]]
  }

  lemma LongerBehind(b: char, rest: seq<string>, c: char)
    requires rest != []
    ensures [[]] + LastLonger(rest, c) == LastLonger([[]] + rest, c)
    ensures var l := LastLonger(rest, c); [[b] + l[0]] + l[1..] == LastLonger([[b] + rest[0]] + rest[1..], c)
  {
    if |rest| == 1 {
      assert [b] + (rest[0] + [c]) == [b] + rest[0] + [c];
    }
  }

  ghost predicate NoneMarked(lines: seq<string>, mark: string -> bool) {
    forall i :: 0 <= i < |lines| ==> !mark(lines[i])
  }

  ghost predicate IgnoresBlanks(mark: string -> bool) {
    forall s: string, c: char :: c in BLANKS ==> mark(s + [c]) == mark(s)
  }

  lemma MarksIgnoreBlanks()
    ensures IgnoresBlanks(EndsInMark)
  {
    forall s: string, c: char | c in BLANKS ensures EndsInMark(s + [c]) == EndsInMark(s) {
      assert (s + [c])[..|s|] == s;
      assert TrimRight(s + [c], SPACES) == TrimRight(s, SPACES);
    }
  }

  lemma LastBlank(s: string, c: char, mark: string -> bool)
    requires c in BLANKS && IgnoresBlanks(mark) && NoneMarked(Split(s + [c]), mark)
    ensures NoneMarked(Split(s), mark)
  {
    var l := Split(s);
    var n := |l| - 1;
    if c == '\n' {
      SplitAt(s, []);
      assert s + "\n" + [] == s + [c];
      assert forall i :: 0 <= i < |l| ==> l[i] == Split(s + [c])[i];
    } else {
      SplitLast(s, c);
      assert forall i :: 0 <= i < n ==> l[i] == Split(s + [c])[i];
      assert Split(s + [c])[n] == l[n] + [c];
    }
  }

  lemma {:induction false} TrimmedLines(s: string, mark: string -> bool)
    requires IgnoresBlanks(mark) && NoneMarked(Split(s), mark)
    ensures NoneMarked(Split(TrimRight(s, BLANKS)), mark)
    decreases |s|
  {
    if s != [] && s[|s| - 1] in BLANKS {
      var t := s[..|s| - 1];
      assert s == t + [s[|s| - 1]];
      LastBlank(t, s[|s| - 1], mark);
      TrimmedLines(t, mark);
    }
  }

  lemma PromptCounts(h: string, p: string)
    requires IsPrompt(p) && !EndsInMark(h)
    ensures EndsInMark(TrimRight(h + p, BLANKS))
  {
    OneLine(p);
    assert p[..|p|] == p;
    MarkBehind(h, p);
    MarkOfTrimmed(h + p);
  }

  lemma {:induction false} SplitOneLine(s: string)
    requires forall i :: 0 <= i < |s| ==> s[i] != '\n'
    ensures Split(s) == [s]
    decreases |s|
  {
    if s != [] {
      SplitOneLine(s[1..]);
      assert [s[1..]][1..] == [];
      assert s == [s[0]] + s[1..];
    }
  }

  lemma MarkedLine(line: string, mark: string -> bool, r: string)
    requires mark(line) && Stripped([line], mark, r)
    ensures r == []
  {
    assert [line][..0] == [];
  }

  /** With no ended line before it, the prompt is dropped with what precedes it. */
  lemma PromptIsStripped(s: string, r: string, mark: string -> bool)
    requires '\n' !in s && mark(TrimRight(s, BLANKS))
    requires Stripped(Split(TrimRight(s, BLANKS)), mark, r)
    ensures r == []
  {
    SplitOneLine(TrimRight(s, BLANKS));
    MarkedLine(TrimRight(s, BLANKS), mark, r);
  }

  lemma CutAtFeed(h: string, p: string)
    requires '\n' !in p
    ensures var k := LastIndex(h, "\n");
      CutPrompt(h + p) == TrimRight(if k >= 0 then h[..k] else h + p, BLANKS)
  {
    var s, k := h + p, LastIndex(h, "\n");
    FeedAt(h, k);
    FeedAt(s, k);
    forall i | k < i ensures !OccursAt(s, "\n", i) {
      FeedAt(s, i);
      FeedAt(h, i);
    }
    if k >= 0 {
      assert s[..k] == h[..k];
    }
  }

  lemma LinesBefore(a: string, b: string, mark: string -> bool)
    requires NoneMarked(Split(a + "\n" + b), mark)
    ensures NoneMarked(Split(a), mark)
  {
    SplitAt(a, b);
    assert forall i :: 0 <= i < |Split(a)| ==> Split(a)[i] == Split(a + "\n" + b)[i];
  }

  lemma StrippedUnmarked(s: string, r: string, mark: string -> bool)
    requires NoneMarked(Split(s), mark) && Stripped(Split(s), mark, r)
    ensures r == Remove(s, '\n')
  {
    JoinOfSplit(s);
  }

  lemma LinesAreKept(a: string, b: string, r: string, mark: string -> bool)
    requires IgnoresBlanks(mark) && NoneMarked(Split(a + "\n" + b), mark)
    requires Stripped(Split(TrimRight(a, BLANKS)), mark, r)
    ensures r == Remove(TrimRight(a, BLANKS), '\n')
  {
    LinesBefore(a, b, mark);
    TrimmedLines(a, mark);
    StrippedUnmarked(TrimRight(a, BLANKS), r, mark);
  }

  lemma KeptAfterFeed(h: string, p: string, r: string, mark: string -> bool)
    requires LastIndex(h, "\n") >= 0 && '\n' !in p && IgnoresBlanks(mark) && NoneMarked(Split(h), mark)
    requires Stripped(Split(CutPrompt(h + p)), mark, r)
    ensures r == Remove(TrimRight(Kept(h), BLANKS), '\n')
  {
    var k := LastIndex(h, "\n");
    FeedAt(h, k);
    CutAtFeed(h, p);
    assert h == h[..k] + "\n" + h[k + 1..];
    LinesAreKept(h[..k], h[k + 1..], r, mark);
    TrimFeed(h, k);
  }

  lemma TrimFeed(h: string, k: nat)
    requires k < |h| && h[k] == '\n'
    ensures TrimRight(h[..k + 1], BLANKS) == TrimRight(h[..k], BLANKS)
  {
    assert h[..k + 1][..k] == h[..k];
  }

  /** ReadUntilBanner and stripPrompt keep the ended lines of a printed text, without
      line feeds and the blanks at the end, and drop the prompt with the rest of its line. */
  lemma TextIsKept(h: string, p: string, r: string)
    requires IsPrompt(p) && IsText(h)
    requires Stripped(Split(CutPrompt(h + p)), EndsInMark, r)
    ensures r == Remove(TrimRight(Kept(h), BLANKS), '\n')
  {
    if LastIndex(h, "\n") >= 0 {
      MarksIgnoreBlanks();
      KeptAfterFeed(h, p, r, EndsInMark);
    } else {
      CutAtFeed(h, p);
      KeptLines(h);
      OneLine(h);
      PromptCounts(h, p);
      PromptIsStripped(h + p, r, EndsInMark);
    }
  }

  // ---------- what a text is decoded to ----------

  /** What a decoder makes of a printed text: it sees the ended lines only. */
  function Printed(d: Decoder, h: string): Option<seq<Byte>> {
    Decode(d, TrimRight(Kept(h), BLANKS))
  }

  lemma TextDecides(d: Decoder, h: string, p: string, r: string)
    requires IsPrompt(p) && IsText(h)
    requires Stripped(Split(CutPrompt(h + p)), EndsInMark, r)
    ensures Decode(d, r) == Printed(d, h)
  {
    TextIsKept(h, p, r);
    var kept := TrimRight(Kept(h), BLANKS);
    NoneLeft(kept, '\n');
    RemoveNothing(r, '\n');
  }

  /** A character that the decoder neither knows nor ignores. */
  predicate Alien(d: Decoder, c: char) {
    && c !in BLANKS
    && (match d case Base64 => Value64(c).None? && c != '=' case Hex => HexValue(c).None?)
  }

  /** An alien character in an ended line, as in an error message, spoils the text. */
  lemma AlienSpoils(d: Decoder, h: string, c: char)
    requires c in Kept(h) && Alien(d, c)
    ensures Printed(d, h).None?
  {
    var kept := TrimRight(Kept(h), BLANKS);
    DigitsOfTrimmed(Kept(h));
    DigitsSelect(Kept(h));
    DigitsSelect(kept);
    match d
    case Base64 =>
      var i :| 0 <= i < |Breaks(kept)| && Breaks(kept)[i] == c;
      Alien64(Breaks(kept), i);
    case Hex =>
      var i :| 0 <= i < |Digits(kept)| && Digits(kept)[i] == c;
      AlienHex(Digits(kept), i);
  }

  lemma NoBlankNeeded(s: string)
    requires ' ' !in s
    ensures Digits(s) == Breaks(s)
  {
    RemoveSelects(s, '\n');
    RemoveSelects(Remove(s, '\n'), '\r');
    RemoveNothing(Breaks(s), ' ');
  }

  lemma DigitsSelect(s: string)
    ensures forall x :: x in Digits(s) <==> x in s && x !in BLANKS
    ensures forall x :: x in Breaks(s) <==> x in s && x != '\r' && x != '\n'
  {
    RemoveSelects(s, '\n');
    RemoveSelects(Remove(s, '\n'), '\r');
    RemoveSelects(Breaks(s), ' ');
  }

  // ---------- encoders ----------

  /** `h` is `content` as the encoder prints it, on lines of any lengths: base64
      without blanks, or hex in either case with blanks anywhere. */
  predicate Encodes(d: Decoder, h: string, content: seq<Byte>) {
    match d
    case Base64 => ' ' !in h && Breaks(h) == Encode64(content)
    case Hex => Lower(Digits(h)) == Checked.HexText(content)
  }

  /** Decoding inverts encoding, for every byte string, the empty one included. */
  lemma EncodedIsDecoded(d: Decoder, h: string, content: seq<Byte>)
    requires Encodes(d, h, content)
    ensures Decode(d, h) == Some(content)
  {
    match d
    case Base64 => Base64RoundTrip(content);
    case Hex => DecodeHexExact(Digits(h), content);
  }

  /** What `xxd -p` prints. */
  lemma HexLinesEncode(lines: seq<seq<Byte>>)
    ensures IsText(HexLines(lines)) && Ended(HexLines(lines)) && Encodes(Hex, HexLines(lines), Concat(lines))
  {
    HexLinesPlain(lines);
    UnmarkedIsText(HexLines(lines));
    DigitsOfLines(lines);
    LowerHex(Concat(lines));
  }

  /** What `od -An -t x1` prints for lines that it does not suppress. */
  function OdLine(data: seq<Byte>): string {
    if data == [] then [] else " " + Checked.HexText([data[0]]) + OdLine(data[1..])
  }

  function OdLines(lines: seq<seq<Byte>>): string {
    if lines == [] then [] else OdLine(lines[0]) + "\r\n" + OdLines(lines[1..])
  }

  lemma {:induction false} DigitsOfOdLine(data: seq<Byte>)
    ensures Digits(OdLine(data)) == Checked.HexText(data)
    ensures '#' !in OdLine(data) && '$' !in OdLine(data)
    decreases |data|
  {
    if data != [] {
      DigitsOfOdLine(data[1..]);
      DigitsOfHex([data[0]]);
      DigitsAfterBlank(Checked.HexText([data[0]]), OdLine(data[1..]));
      HexTextConcat([data[0]], data[1..]);
      assert data == [data[0]] + data[1..];
    }
  }

  lemma DigitsAfterBlank(one: string, rest: string)
    requires Digits(one) == one
    ensures Digits(" " + one + rest) == one + Digits(rest)
  {
    DigitsConcat(" " + one, rest);
    DigitsConcat(" ", one);
    DigitsOfBlank(" ");
    assert [] + one == one;
  }

  lemma OdLinesEncode(lines: seq<seq<Byte>>)
    ensures IsText(OdLines(lines)) && Ended(OdLines(lines)) && Encodes(Hex, OdLines(lines), Concat(lines))
  {
    DigitsOfOdLines(lines);
    UnmarkedIsText(OdLines(lines));
    LowerHex(Concat(lines));
  }

  lemma {:induction false} DigitsOfOdLines(lines: seq<seq<Byte>>)
    ensures IsPlain(OdLines(lines)) && Digits(OdLines(lines)) == Checked.HexText(Concat(lines))
    decreases |lines|
  {
    if lines != [] {
      DigitsOfOdLines(lines[1..]);
      DigitsOfOdLine(lines[0]);
      PlainLine(OdLine(lines[0]), OdLines(lines[1..]));
      DigitsOfLine(OdLine(lines[0]), OdLines(lines[1..]));
      HexTextConcat(lines[0], Concat(lines[1..]));
    }
  }

  /** What is decoded of an encoded file is what its ended lines encode. */
  lemma PrintedIsEnded(d: Decoder, h: string, content: seq<Byte>)
    requires Encodes(d, h, content)
    ensures Printed(d, h) == Decode(d, Kept(h))
  {
    DigitsOfTrimmed(Kept(h));
    if d.Base64? {
      NoBlankNeeded(Kept(h));
      NoBlankNeeded(TrimRight(Kept(h), BLANKS));
    }
  }

  lemma DecodedDigits(d: Decoder, s: string)
    requires (d.Hex? || ' ' !in s) && Decode(d, s).Some?
    ensures var n := |Decode(d, s).value|; |Digits(s)| == if d.Hex? then 2 * n else Groups64(n)
  {
    match d
    case Base64 =>
      NoBlankNeeded(s);
      Length64(Breaks(s));
    case Hex => DecodeHexExact(Digits(s), Decode(d, s).value);
  }

  lemma DecodeAlike(d: Decoder, s: string, t: string)
    requires d.Hex? || (' ' !in s && ' ' !in t)
    requires Digits(s) == Digits(t)
    ensures Decode(d, s) == Decode(d, t)
  {
    if d.Base64? {
      NoBlankNeeded(s);
      NoBlankNeeded(t);
    }
  }

  /** A printed file is decoded to its bytes if and only if its last line is ended, or
      holds nothing: an encoder that ends without a line feed loses the line that the
      prompt is printed behind, and nobody notices. */
  lemma PrintedIffEnded(d: Decoder, h: string, content: seq<Byte>)
    requires Encodes(d, h, content)
    ensures Printed(d, h) == Some(content) <==> Digits(h[|Kept(h)|..]) == []
  {
    var kept, lost := Kept(h), h[|Kept(h)|..];
    PrintedIsEnded(d, h, content);
    EncodedIsDecoded(d, h, content);
    assert h == kept + lost;
    DigitsConcat(kept, lost);
    if Decode(d, kept) == Some(content) {
      DecodedDigits(d, kept);
      DecodedDigits(d, h);
    } else if Digits(lost) == [] {
      assert Digits(kept) + [] == Digits(kept);
      DecodeAlike(d, kept, h);
      assert false;
    }
  }

  lemma UnendedIsLost(d: Decoder, h: string)
    requires '\n' !in h
    ensures Printed(d, h) == Some([])
  {
    KeptLines(h);
    assert Kept(h) == [];
  }

  lemma LetterA(h: string)
    requires |h| == 4 && h[0] == 'Q' && h[1] == 'Q' && h[2] == '=' && h[3] == '='
    ensures Unmarked(h) && '\n' !in h && Encodes(Base64, h, [65])
  {
    RemoveNothing(h, '\n');
    RemoveNothing(h, '\r');
    assert Char64(16) == 'Q' && h == [h[0], h[1], h[2], h[3]];
  }

  /** The file "A", printed in base64 ("QQ==") without a line feed, is pulled as an
      empty one. */
  lemma UnendedExample(h: string)
    requires |h| == 4 && h[0] == 'Q' && h[1] == 'Q' && h[2] == '=' && h[3] == '='
    ensures Unmarked(h) && Encodes(Base64, h, [65]) && Printed(Base64, h) == Some([])
  {
    LetterA(h);
    UnendedIsLost(Base64, h);
  }

  // ---------- pullWithEncoder ----------

  function PullCommand(encoder: string, remotePath: string): string { encoder + " < " + Shell.ShellQuote(remotePath) }

  /** What comes of a request of `n` bytes that was sent whole when `u` was still to
      come, and what it leaves: the answer, decoded, or nothing if there is none. */
  ghost predicate Pulls(d: Decoder, u: Unread, n: nat, data: Option<seq<Byte>>, left: Unread) {
    || (data.None? && Unanswered(u, n) && IsTail(left.stream, u.stream))
    || (exists stdout, r ::
          Answers(u, n, stdout, left) && Stripped(Split(stdout), EndsInMark, r) && data == Decode(d, r))
  }

  lemma StrippedUnique(lines: seq<string>, mark: string -> bool, r: string, r': string)
    requires Stripped(lines, mark, r) && Stripped(lines, mark, r')
    ensures r == r'
  {
  }

  /** What is still to come decides what a request pulls. */
  lemma PullsUnique(d: Decoder, u: Unread, n: nat, data: Option<seq<Byte>>, left: Unread, data': Option<seq<Byte>>,
                    left': Unread)
    requires Pulls(d, u, n, data, left) && Pulls(d, u, n, data', left')
    ensures data == data'
  {
    if stdout, r :| Answers(u, n, stdout, left) && Stripped(Split(stdout), EndsInMark, r) && data == Decode(d, r) {
      AnsweredOnce(u, n, stdout, left);
      var stdout', r' :| Answers(u, n, stdout', left') && Stripped(Split(stdout'), EndsInMark, r') && data' == Decode(d, r');
      SameAnswer(u, n, stdout, left, stdout', left');
      StrippedUnique(Split(stdout), EndsInMark, r, r');
    } else if stdout', r' :|
      Answers(u, n, stdout', left') && Stripped(Split(stdout'), EndsInMark, r') && data' == Decode(d, r') {
      AnsweredOnce(u, n, stdout', left');
    }
  }

  lemma AnsweredOnce(u: Unread, n: nat, stdout: string, left: Unread)
    requires Answers(u, n, stdout, left)
    ensures !Unanswered(u, n)
  {
    var p: nat, q: nat :| AnswersAt(u, n, p, q, stdout, left);
    assert SkipsTo(u.esc, u.stream, n, p) && StopsAt(Data(u.stream[p..]), q, EndsInMark);
  }

  lemma SameAnswer(u: Unread, n: nat, stdout: string, left: Unread, stdout': string, left': Unread)
    requires Answers(u, n, stdout, left) && Answers(u, n, stdout', left')
    ensures stdout == stdout' && left == left'
  {
    var p: nat, q: nat :| AnswersAt(u, n, p, q, stdout, left);
    var p': nat, q': nat :| AnswersAt(u, n, p', q', stdout', left');
    AnswersUnique(u, n, p, q, stdout, left, p', q', stdout', left');
  }

  /** Behind an echo of `n` bytes, `u` holds the text `h` and a prompt. */
  ghost predicate Shows(u: Unread, n: nat, p: nat, h: string, prompt: string, extra: string) {
    && SkipsTo(u.esc, u.stream, n, p) && IsText(h) && IsPrompt(prompt)
    && Data(u.stream[p..]) == h + prompt + extra
  }

  lemma AnswerIsText(u: Unread, n: nat, p: nat, h: string, prompt: string, extra: string, stdout: string, left: Unread)
    requires Shows(u, n, p, h, prompt, extra) && Answers(u, n, stdout, left)
    ensures stdout == CutPrompt(h + prompt) && |h + prompt| <= |Data(u.stream[p..])|
    ensures left == Unread(EscAfter(u.esc, u.stream[..p]), AfterData(u.stream[p..], |h + prompt|))
  {
    var p': nat, q: nat :| AnswersAt(u, n, p', q, stdout, left);
    SkipsToUnique(u.esc, u.stream, n, p, p');
    StopsAfterText(h, prompt, extra);
    assert q == |h + prompt|;
    assert (h + prompt + extra)[..q] == h + prompt;
  }

  lemma TextIsAnswered(u: Unread, n: nat, p: nat, h: string, prompt: string, extra: string)
    requires Shows(u, n, p, h, prompt, extra)
    ensures !Unanswered(u, n)
  {
    StopsAfterText(h, prompt, extra);
    assert StopsAt(Data(u.stream[p..]), |h + prompt|, EndsInMark);
  }

  /** Whatever text the device prints between echo and prompt, the result is what it is
      decoded to, and what is left begins right behind the prompt. */
  lemma PullsText(d: Decoder, u: Unread, n: nat, data: Option<seq<Byte>>, left: Unread, p: nat, h: string, prompt: string,
                  extra: string)
    requires Pulls(d, u, n, data, left) && Shows(u, n, p, h, prompt, extra)
    ensures data == Printed(d, h)
    ensures |h + prompt| <= |Data(u.stream[p..])|
    ensures left == Unread(EscAfter(u.esc, u.stream[..p]), AfterData(u.stream[p..], |h + prompt|))
  {
    TextIsAnswered(u, n, p, h, prompt, extra);
    var stdout, r :| Answers(u, n, stdout, left) && Stripped(Split(stdout), EndsInMark, r) && data == Decode(d, r);
    AnswerIsText(u, n, p, h, prompt, extra, stdout, left);
    TextDecides(d, h, prompt, r);
  }

  /** pullWithEncoder: a request that is sent whole pulls what is answered; a path that
      cannot be sent is refused unsent. */
  method PullWithEncoder(tc: TelnetClient, encoder: string, d: Decoder, remotePath: string) returns (data: Option<seq<Byte>>)
    requires tc.Valid()
    modifies tc
    ensures tc.Valid()
    ensures HasControl(remotePath) ==> data == None && tc.sent == old(tc.sent)
    ensures var request := Request(PullCommand(encoder, remotePath), []);
      if tc.sent == old(tc.sent) + request then Pulls(d, old(tc.Coming()), |request|, data, tc.Left())
      else data == None && tc.Coming() == old(tc.Coming()) && |tc.sent| < |old(tc.sent) + request|
  {
    if HasControl(remotePath) {
      return None;
    }
    var stdout, ok := tc.Execute(PullCommand(encoder, remotePath), []);
    if !ok {
      return None;
    }
    data := DecodeOutput(d, stdout);
  }

  // ---------- PullViaPrintf ----------

  /** The encoders in the order in which they are tried. */
  function Encoder(i: nat): string
    requires i < ENCODERS
  {
    if i == 0 then "base64" else if i == 1 then "xxd -p" else "od -An -t x1"
  }

  function DecoderOf(i: nat): Decoder
    requires i < ENCODERS
  {
    if i == 0 then Base64 else Hex
  }

  const ENCODERS: nat := 3

  function EncoderRequest(i: nat, remotePath: string): string
    requires i < ENCODERS
  {
    Request(PullCommand(Encoder(i), remotePath), [])
  }

  /** The requests of the first `n` attempts. */
  function Requests(n: nat, remotePath: string): string
    requires n <= ENCODERS
  {
    if n == 0 then [] else Requests(n - 1, remotePath) + EncoderRequest(n - 1, remotePath)
  }

  /** One attempt: what was still to come when it began, whether its request was sent
      whole, what came of it, and what it left. */
  datatype Try = Try(before: Unread, sent: bool, data: Option<seq<Byte>>, left: Unread)

  ghost predicate Tried(i: nat, t: Try, remotePath: string)
    requires i < ENCODERS
  {
    if t.sent then Pulls(DecoderOf(i), t.before, |EncoderRequest(i, remotePath)|, t.data, t.left)
    else t.data.None? && t.left == t.before
  }

  /** What has arrived by then is dropped before the next request. */
  ghost predicate Reaches(u: Unread, v: Unread) { exists b :: 0 <= b <= |u.stream| && v == Dropped(u, b) }

  ghost predicate Follows(t: Try, u: Try) { t.data.None? && Reaches(t.left, u.before) }

  /** Attempts on a session, each on what the one before it left. All but the last failed. */
  ghost predicate Attempts(tries: seq<Try>, start: Unread, remotePath: string) {
    && |tries| <= ENCODERS && (tries != [] ==> tries[0].before == start)
    && (forall i {:trigger Tried(i, tries[i], remotePath)} :: 0 <= i < |tries| ==> Tried(i, tries[i], remotePath))
    && (forall i, k {:trigger Follows(tries[i], tries[k])} :: 0 <= i && k == i + 1 < |tries| ==> Follows(tries[i], tries[k]))
  }

  /** The next attempt may begin with `now` to come. */
  ghost predicate Ready(tries: seq<Try>, start: Unread, now: Unread) {
    if tries == [] then now == start else tries[|tries| - 1].data.None? && Reaches(tries[|tries| - 1].left, now)
  }

  predicate AllSent(tries: seq<Try>) { forall i :: 0 <= i < |tries| ==> tries[i].sent }

  datatype PullFailure = NoEncoder | NotWritten

  method TryEncoder(tc: TelnetClient, i: nat, remotePath: string) returns (data: Option<seq<Byte>>, ghost t: Try)
    requires tc.Valid() && i < ENCODERS
    modifies tc
    ensures tc.Valid() && Tried(i, t, remotePath) && t.data == data
    ensures t.before == old(tc.Coming()) && Reaches(t.left, tc.Coming())
    ensures if t.sent then tc.sent == old(tc.sent) + EncoderRequest(i, remotePath)
            else |tc.sent| < |old(tc.sent) + EncoderRequest(i, remotePath)|
    ensures HasControl(remotePath) ==> data.None? && tc.sent == old(tc.sent)
  {
    ghost var before, request := tc.Coming(), EncoderRequest(i, remotePath);
    data := PullWithEncoder(tc, Encoder(i), DecoderOf(i), remotePath);
    if tc.sent == old(tc.sent) + request {
      t := Try(before, true, data, tc.Left());
    } else {
      t := Try(before, false, data, before);
      NothingDropped(before);
    }
  }

  /** The requests that were sent, and whether they all were. */
  predicate SentSoFar(tries: seq<Try>, before: string, after: string, remotePath: string) {
    && |tries| <= ENCODERS
    && (if AllSent(tries) then after == before + Requests(|tries|, remotePath)
        else |after| < |before + Requests(|tries|, remotePath)|)
  }

  lemma OneTryMore(tries: seq<Try>, t: Try, start: Unread, remotePath: string)
    requires Attempts(tries, start, remotePath) && |tries| < ENCODERS && Tried(|tries|, t, remotePath)
    requires Ready(tries, start, t.before)
    ensures Attempts(tries + [t], start, remotePath)
  {
    var all := tries + [t];
    forall i | 0 <= i < |all| ensures Tried(i, all[i], remotePath) {
      assert i < |tries| ==> Tried(i, tries[i], remotePath);
      TriedAt(tries, t, i, remotePath);
    }
    forall i, k | 0 <= i && k == i + 1 < |all| ensures Follows(all[i], all[k]) {
      assert k < |tries| ==> Follows(tries[i], tries[k]);
      FollowsAt(tries, t, i, start);
    }
  }

  lemma TriedAt(tries: seq<Try>, t: Try, i: nat, remotePath: string)
    requires i <= |tries| < ENCODERS && Tried(|tries|, t, remotePath)
    requires i < |tries| ==> Tried(i, tries[i], remotePath)
    ensures Tried(i, (tries + [t])[i], remotePath)
  {
  }

  lemma FollowsAt(tries: seq<Try>, t: Try, i: nat, start: Unread)
    requires i < |tries| && Ready(tries, start, t.before)
    requires i + 1 < |tries| ==> Follows(tries[i], tries[i + 1])
    ensures Follows((tries + [t])[i], (tries + [t])[i + 1])
  {
  }

  lemma OneMoreSent(tries: seq<Try>, t: Try, first: string, before: string, after: string, remotePath: string)
    requires |tries| < ENCODERS && SentSoFar(tries, first, before, remotePath)
    requires if t.sent then after == before + EncoderRequest(|tries|, remotePath)
             else |after| < |before + EncoderRequest(|tries|, remotePath)|
    ensures SentSoFar(tries + [t], first, after, remotePath)
  {
    AllSentMore(tries, t);
    Longer(AllSent(tries), t.sent, first, Requests(|tries|, remotePath), EncoderRequest(|tries|, remotePath), before, after);
  }

  lemma AllSentMore(tries: seq<Try>, t: Try)
    ensures AllSent(tries + [t]) <==> AllSent(tries) && t.sent
  {
    var all := tries + [t];
    assert all[|tries|] == t && forall i :: 0 <= i < |tries| ==> all[i] == tries[i];
  }

  lemma Longer(a: bool, b: bool, first: string, requests: string, request: string, before: string, after: string)
    requires if a then before == first + requests else |before| < |first + requests|
    requires if b then after == before + request else |after| < |before + request|
    ensures if a && b then after == first + (requests + request) else |after| < |first + (requests + request)|
  {
  }

  lemma AllPrintOne(tries: seq<Try>, remotePath: string, content: seq<Byte>, start: Unread)
    requires tries != [] && Attempts(tries, start, remotePath) && AllPrint(tries, remotePath, content)
    ensures var data := tries[|tries| - 1].data; data.Some? ==> data == Some(content)
  {
    var i := |tries| - 1;
    assert PrintsFile(i, tries[i].before, remotePath, content) && Tried(i, tries[i], remotePath);
    PulledIsContent(i, tries[i], remotePath, content);
  }

  /** The attempts so far: with `now` to come, `sent` sent, and `data` from the last one. */
  ghost predicate Progress(tries: seq<Try>, start: Unread, now: Unread, first: string, sent: string, remotePath: string,
                           data: Option<seq<Byte>>) {
    && Attempts(tries, start, remotePath) && SentSoFar(tries, first, sent, remotePath)
    && (data.None? ==> Ready(tries, start, now))
  }

  lemma NoneYet(start: Unread, first: string, remotePath: string)
    ensures Progress([], start, start, first, first, remotePath, None)
  {
    assert first + [] == first;
  }

  /** The next attempt, unless one has succeeded. */
  method TryNext(tc: TelnetClient, i: nat, remotePath: string, sofar: Option<seq<Byte>>, ghost tries: seq<Try>,
                 ghost start: Unread, ghost first: string)
    returns (data: Option<seq<Byte>>, ghost more: seq<Try>)
    requires tc.Valid() && i < ENCODERS && (sofar.None? ==> i == |tries|)
    requires Progress(tries, start, tc.Coming(), first, tc.sent, remotePath, sofar)
    modifies tc
    ensures tc.Valid() && Progress(more, start, tc.Coming(), first, tc.sent, remotePath, data)
    ensures if sofar.Some? then more == tries && data == sofar
            else |more| == |tries| + 1 && more[|tries|].data == data
    ensures HasControl(remotePath) && sofar.None? ==> data.None? && tc.sent == old(tc.sent)
  {
    if sofar.Some? {
      return sofar, tries;
    }
    ghost var t;
    data, t := TryEncoder(tc, i, remotePath);
    OneTryMore(tries, t, start, remotePath);
    OneMoreSent(tries, t, first, old(tc.sent), tc.sent, remotePath);
    more := tries + [t];
  }

  method TryAll(tc: TelnetClient, remotePath: string) returns (data: Option<seq<Byte>>, ghost tries: seq<Try>)
    requires tc.Valid()
    modifies tc
    ensures tc.Valid() && tries != [] && data == tries[|tries| - 1].data && (data.None? ==> |tries| == ENCODERS)
    ensures Progress(tries, old(tc.Coming()), tc.Coming(), old(tc.sent), tc.sent, remotePath, data)
    ensures HasControl(remotePath) ==> data.None? && tc.sent == old(tc.sent)
  {
    ghost var start, first := tc.Coming(), tc.sent;
    NoneYet(start, first, remotePath);
    data, tries := TryNext(tc, 0, remotePath, None, [], start, first);
    data, tries := TryNext(tc, 1, remotePath, data, tries, start, first);
    data, tries := TryNext(tc, 2, remotePath, data, tries, start, first);
  }

  /** PullViaPrintf: the first attempt that decodes gives the local file; if none does,
      the local file is untouched. If every attempt finds the file, or a message that is
      none, then nil means that the local file is it. */
  method PullViaPrintf(tc: TelnetClient, remotePath: string, local: Option<seq<Byte>>, writable: bool)
    returns (error: Option<PullFailure>, file: Option<seq<Byte>>, ghost tries: seq<Try>)
    requires tc.Valid()
    modifies tc
    ensures tc.Valid() && tries != [] && Attempts(tries, old(tc.Coming()), remotePath)
    ensures SentSoFar(tries, old(tc.sent), tc.sent, remotePath)
    ensures error.None? ==> file == tries[|tries| - 1].data && file.Some?
    ensures error == Some(NoEncoder) ==> |tries| == ENCODERS && tries[|tries| - 1].data.None? && file == local
    ensures error == Some(NotWritten) ==> !writable && tries[|tries| - 1].data.Some?
    ensures error.None? <==> writable && tries[|tries| - 1].data.Some?
    ensures writable && error.Some? ==> |tries| == ENCODERS && file == local
    ensures HasControl(remotePath) ==> error == Some(NoEncoder) && tc.sent == old(tc.sent)
    ensures error.None? ==> forall content :: AllPrint(tries, remotePath, content) ==> file == Some(content)
  {
    var data;
    data, tries := TryAll(tc, remotePath);
    if data.None? {
      return Some(NoEncoder), local, tries;
    }
    if !writable {
      var left: Option<seq<Byte>> := *;
      return Some(NotWritten), left, tries;
    }
    forall content | AllPrint(tries, remotePath, content) ensures data == Some(content) {
      AllPrintOne(tries, remotePath, content, old(tc.Coming()));
    }
    return None, data, tries;
  }

  // ---------- what is asked ----------

  /** The words by which attempt `i` names its encoder. */
  function EncoderWords(i: nat): seq<string>
    requires i < ENCODERS
  {
    if i == 0 then ["base64"] else if i == 1 then ["xxd", "-p"] else ["od", "-An", "-t", "x1"]
  }

  function Words(words: seq<string>): seq<Devices.Arg> {
    seq(|words|, k requires 0 <= k < |words| => Devices.Txt(words[k]))
  }

  function BareItems(words: seq<string>): seq<Shell.Item> {
    seq(|words|, k requires 0 <= k < |words| => Shell.Bare(words[k]))
  }

  /** `line` is one line that has the shell read the file `path` with these words. */
  predicate Asks(line: string, words: seq<string>, path: string) {
    && '\r' !in line && '\n' !in line && '\0' !in line && Shell.Lex(line).Some?
    && Devices.Args(Shell.Lex(line).value) == Words(words) + [Devices.Sym("<"), Devices.Txt(path)]
  }

  lemma OneWord(a: string)
    ensures BareItems([a]) == [Shell.Bare(a)] && Shell.Line(BareItems([a])) == a
  {
  }

  lemma TwoWords(a: string, b: string)
    ensures Shell.Line(BareItems([a, b])) == a + " " + b
  {
    var items := [Shell.Bare(a), Shell.Bare(b)];
    assert BareItems([a, b]) == items && items[1..] == [Shell.Bare(b)];
  }

  lemma FourWords(a: string, b: string, c: string, d: string)
    ensures Shell.Line(BareItems([a, b, c, d])) == a + " " + b + " " + c + " " + d
  {
    assert BareItems([a, b, c, d]) == [Shell.Bare(a), Shell.Bare(b), Shell.Bare(c), Shell.Bare(d)];
    Shell.Line4(Shell.Bare(a), Shell.Bare(b), Shell.Bare(c), Shell.Bare(d));
  }

  lemma EncoderLine(i: nat)
    requires i < ENCODERS
    ensures Encoder(i) == Shell.Line(BareItems(EncoderWords(i)))
  {
    if i == 0 {
      OneWord("base64");
    } else if i == 1 {
      TwoWords("xxd", "-p");
    } else {
      FourWords("od", "-An", "-t", "x1");
    }
  }

  lemma EncoderWordsValid(i: nat)
    requires i < ENCODERS
    ensures forall k :: 0 <= k < |EncoderWords(i)| ==> Shell.ValidItem(Shell.Bare(EncoderWords(i)[k]))
  {
  }

  lemma PullLine(encoder: string, items: seq<Shell.Item>, path: string)
    requires items != [] && encoder == Shell.Line(items)
    ensures PullCommand(encoder, path) == Shell.Line(items + [Shell.Redirect("<"), Shell.Quoted(path)])
  {
    var tail := [Shell.Redirect("<"), Shell.Quoted(path)];
    Shell.LineConcat(items, tail);
    assert tail[1..] == [Shell.Quoted(path)];
    assert Shell.Line(tail) == "<" + " " + Shell.ShellQuote(path);
  }

  lemma PullArgs(words: seq<string>, path: string)
    ensures Devices.ItemArgs(BareItems(words) + [Shell.Redirect("<"), Shell.Quoted(path)])
         == Words(words) + [Devices.Sym("<"), Devices.Txt(path)]
  {
  }

  /** Whatever the path holds, the line of attempt `i` asks for exactly that file, by the
      words of its encoder. */
  lemma RequestAsks(i: nat, path: string)
    requires i < ENCODERS && !HasControl(path)
    ensures var line := PullCommand(Encoder(i), path) + " ";
      EncoderRequest(i, path) == line + "\r\n" && Asks(line, EncoderWords(i), path)
  {
    var items := BareItems(EncoderWords(i)) + [Shell.Redirect("<"), Shell.Quoted(path)];
    var line := PullCommand(Encoder(i), path) + " ";
    EncoderLine(i);
    EncoderWordsValid(i);
    PullLine(Encoder(i), BareItems(EncoderWords(i)), path);
    Shell.LexLineBlank(items);
    Devices.ArgsOfItems(items);
    PullArgs(EncoderWords(i), path);
    Shell.NoControlQuote(path);
    NoControlConcat(Encoder(i), " < ");
    NoControlConcat(Encoder(i) + " < ", Shell.ShellQuote(path));
    NoControlConcat(PullCommand(Encoder(i), path), " ");
  }

  lemma {:induction false} JoinedLine(words: seq<string>)
    requires words != []
    ensures Joined(words) == Shell.Line(BareItems(words))
    decreases |words|
  {
    assert BareItems(words)[1..] == BareItems(words[1..]);
    if |words| > 1 {
      JoinedLine(words[1..]);
    }
  }

  lemma RequestLine(name: string, args: seq<string>)
    ensures name + " " + Joined(args)
         == Shell.Line(BareItems([name] + args)) + (if args == [] then " " else "")
  {
    var words := [name] + args;
    if args == [] {
      assert words == [name];
      OneWord(name);
    } else {
      assert words[1..] == args;
      assert Joined(words) == name + " " + Joined(args);
      JoinedLine(words);
    }
  }

  lemma LexWords(words: seq<string>, end: string)
    requires words != [] && forall i :: 0 <= i < |words| ==> Shell.ValidItem(Shell.Bare(words[i]))
    requires end == " " || end == ""
    ensures var tokens := Shell.Lex(Shell.Line(BareItems(words)) + end);
      tokens.Some? && Devices.Args(tokens.value) == Words(words)
  {
    var items := BareItems(words);
    if end == " " {
      Shell.LexLineBlank(items);
    } else {
      assert Shell.Line(items) + end == Shell.Line(items);
      Shell.LexLine(items);
    }
    Devices.ArgsOfItems(items);
    assert Devices.ItemArgs(items) == Words(words);
  }

  /** The line that Execute sends is read as the name and its arguments. */
  lemma RequestWords(name: string, args: seq<string>)
    requires forall i :: 0 <= i <= |args| ==> Shell.ValidItem(Shell.Bare(([name] + args)[i]))
    ensures var line := name + " " + Joined(args); var tokens := Shell.Lex(line);
      Request(name, args) == line + "\r\n" && tokens.Some? && Devices.Args(tokens.value) == Words([name] + args)
  {
    RequestLine(name, args);
    LexWords([name] + args, if args == [] then " " else "");
  }

  /** Lines as they are sent, each ended by CR LF. */
  function AllLines(lines: seq<string>): string {
    if lines == [] then [] else AllLines(lines[..|lines| - 1]) + (lines[|lines| - 1] + "\r\n")
  }

  lemma {:induction false} RequestsAsk(n: nat, path: string) returns (lines: seq<string>)
    requires n <= ENCODERS && !HasControl(path)
    ensures Requests(n, path) == AllLines(lines) && |lines| == n
    ensures forall i :: 0 <= i < n ==> Asks(lines[i], EncoderWords(i), path)
  {
    lines := [];
    if n > 0 {
      var before := RequestsAsk(n - 1, path);
      RequestAsks(n - 1, path);
      lines := before + [PullCommand(Encoder(n - 1), path) + " "];
      assert lines[..n - 1] == before;
    }
  }

  /** What PullViaPrintf has sent: one line an attempt, each asking for the remote file by
      the words of that attempt's encoder. */
  lemma SentAsks(tries: seq<Try>, before: string, after: string, path: string) returns (lines: seq<string>)
    requires SentSoFar(tries, before, after, path) && AllSent(tries) && !HasControl(path)
    ensures after == before + AllLines(lines) && |lines| == |tries|
    ensures forall i :: 0 <= i < |lines| ==> Asks(lines[i], EncoderWords(i), path)
  {
    lines := RequestsAsk(|tries|, path);
  }

  // ---------- what a pull gives ----------

  /** A text that says what the file is, or that it cannot be had. */
  predicate Says(d: Decoder, h: string, content: seq<Byte>) {
    (Ended(h) && Encodes(d, h, content)) || exists k :: 0 <= k < |Kept(h)| && Alien(d, Kept(h)[k])
  }

  lemma SaidIsDecoded(d: Decoder, h: string, content: seq<Byte>)
    requires Says(d, h, content)
    ensures Printed(d, h).Some? ==> Printed(d, h) == Some(content)
    ensures Ended(h) && Encodes(d, h, content) ==> Printed(d, h) == Some(content)
  {
    if Ended(h) && Encodes(d, h, content) {
      KeptLines(h);
      PrintedIsEnded(d, h, content);
      EncodedIsDecoded(d, h, content);
    } else {
      var k :| 0 <= k < |Kept(h)| && Alien(d, Kept(h)[k]);
      AlienSpoils(d, h, Kept(h)[k]);
    }
  }

  /** Attempt `i`, with `u` still to come, finds the file or a message that is none. */
  ghost predicate PrintsFile(i: nat, u: Unread, remotePath: string, content: seq<Byte>)
    requires i < ENCODERS
  {
    exists p: nat, h, prompt, extra ::
      Shows(u, |EncoderRequest(i, remotePath)|, p, h, prompt, extra) && Says(DecoderOf(i), h, content)
  }

  ghost predicate AllPrint(tries: seq<Try>, remotePath: string, content: seq<Byte>) {
    |tries| <= ENCODERS && forall i :: 0 <= i < |tries| ==> PrintsFile(i, tries[i].before, remotePath, content)
  }

  /** Whichever encoders the device has: an attempt that succeeds gives the file. */
  lemma PulledIsContent(i: nat, t: Try, remotePath: string, content: seq<Byte>)
    requires i < ENCODERS && Tried(i, t, remotePath) && PrintsFile(i, t.before, remotePath, content)
    ensures t.data.Some? ==> t.data == Some(content)
  {
    var d, n := DecoderOf(i), |EncoderRequest(i, remotePath)|;
    var p: nat, h, prompt, extra :| Shows(t.before, n, p, h, prompt, extra) && Says(d, h, content);
    if t.sent {
      PullsText(d, t.before, n, t.data, t.left, p, h, prompt, extra);
      SaidIsDecoded(d, h, content);
    }
  }

  // ---------- a whole conversation ----------

  /** What the device sends for one attempt: an echo of `skip` bytes on the wire, then a
      text and a prompt. */
  datatype Answer = Answer(bytes: string, skip: nat, text: string, prompt: string)

  /** The answer to attempt `i` ends with its prompt; `next` is the state its echo leaves. */
  ghost predicate Replies(i: nat, remotePath: string, esc: Esc, a: Answer, next: Esc)
    requires i < ENCODERS
  {
    && Shows(Unread(esc, a.bytes), |EncoderRequest(i, remotePath)|, a.skip, a.text, a.prompt, [])
    && AfterData(a.bytes[a.skip..], |a.text + a.prompt|) == []
    && next == EscAfter(esc, a.bytes[..a.skip])
  }

  function AllBytes(answers: seq<Answer>): string {
    if answers == [] then [] else answers[0].bytes + AllBytes(answers[1..])
  }

  /** The device answers attempt by attempt, each time with the file or a message that
      is none. `escs` are the states of the session in between. */
  ghost predicate Conversation(start: Unread, answers: seq<Answer>, escs: seq<Esc>, remotePath: string, content: seq<Byte>) {
    && |answers| <= ENCODERS && |escs| == |answers| + 1 && start == Unread(escs[0], AllBytes(answers))
    && forall i :: 0 <= i < |answers| ==>
         Replies(i, remotePath, escs[i], answers[i], escs[i + 1]) && Says(DecoderOf(i), answers[i].text, content)
  }

  /** The answer is the file, on ended lines. */
  predicate Gives(i: nat, a: Answer, content: seq<Byte>) {
    i < ENCODERS && Ended(a.text) && Encodes(DecoderOf(i), a.text, content)
  }

  /** No answer begins before its request. */
  predicate InTurn(tries: seq<Try>, answers: seq<Answer>) {
    |tries| <= |answers| && forall i :: 0 <= i < |tries| ==> |AllBytes(answers[i..])| <= |tries[i].before.stream|
  }

  lemma SkipsExtend(esc: Esc, s: string, more: string, n: nat, p: nat)
    requires SkipsTo(esc, s, n, p)
    ensures SkipsTo(esc, s + more, n, p)
  {
    ClassifySplit(esc, s, more);
    assert Classify(esc, s + more)[..p] == Classify(esc, s)[..p];
  }

  lemma DataBehind(s: string, d: string, more: string)
    requires Data(s) == d && AfterData(s, |d|) == []
    ensures Data(s + more) == d + Data(more) && AfterData(s + more, |d|) == more
  {
    DataExtends(s, more, |d|);
    DataLeft(s + more, |d|);
    assert d[..|d|] == d && [] + more == more;
    assert Data(s + more) == Data(s + more)[..|d|] + Data(s + more)[|d|..];
  }

  /** An answer of which the data is `d`, with the others behind it. */
  lemma AnswerBehind(esc: Esc, bytes: string, n: nat, p: nat, d: string, more: string)
    requires SkipsTo(esc, bytes, n, p) && Data(bytes[p..]) == d && AfterData(bytes[p..], |d|) == []
    ensures SkipsTo(esc, bytes + more, n, p)
    ensures Data((bytes + more)[p..]) == d + Data(more) && AfterData((bytes + more)[p..], |d|) == more
    ensures EscAfter(esc, (bytes + more)[..p]) == EscAfter(esc, bytes[..p])
  {
    assert (bytes + more)[p..] == bytes[p..] + more && (bytes + more)[..p] == bytes[..p];
    SkipsExtend(esc, bytes, more, n, p);
    DataBehind(bytes[p..], d, more);
  }

  lemma ShowsMore(u: Unread, n: nat, p: nat, h: string, prompt: string, more: string)
    requires Shows(u, n, p, h, prompt, []) && AfterData(u.stream[p..], |h + prompt|) == []
    ensures Shows(Unread(u.esc, u.stream + more), n, p, h, prompt, Data(more))
  {
    assert h + prompt + [] == h + prompt;
    AnswerBehind(u.esc, u.stream, n, p, h + prompt, more);
  }

  /** What comes of attempt `i` when its own answer is what comes next. */
  lemma OwnAnswer(i: nat, t: Try, remotePath: string, esc: Esc, a: Answer, next: Esc, more: string)
    requires i < ENCODERS && Replies(i, remotePath, esc, a, next)
    requires Tried(i, t, remotePath) && t.sent && t.before == Unread(esc, a.bytes + more)
    ensures t.data == Printed(DecoderOf(i), a.text) && t.left == Unread(next, more)
  {
    var n := |EncoderRequest(i, remotePath)|;
    ShowsMore(Unread(esc, a.bytes), n, a.skip, a.text, a.prompt, more);
    PullsText(DecoderOf(i), t.before, n, t.data, t.left, a.skip, a.text, a.prompt, Data(more));
    assert a.text + a.prompt + [] == a.text + a.prompt;
    AnswerBehind(esc, a.bytes, n, a.skip, a.text + a.prompt, more);
  }

  lemma NextTurn(t: Try, u: Try)
    requires Follows(t, u) && |t.left.stream| <= |u.before.stream|
    ensures u.before == t.left
  {
    NothingDropped(t.left);
  }

  /** So every attempt meets its own answer. */
  lemma {:induction false} TurnByTurn(tries: seq<Try>, start: Unread, answers: seq<Answer>, escs: seq<Esc>,
                                      remotePath: string, content: seq<Byte>, i: nat)
    requires Attempts(tries, start, remotePath) && AllSent(tries)
    requires Conversation(start, answers, escs, remotePath, content) && InTurn(tries, answers)
    requires i < |tries|
    ensures tries[i].before == Unread(escs[i], AllBytes(answers[i..]))
    decreases i
  {
    if i == 0 {
      assert answers[0..] == answers;
    } else {
      TurnByTurn(tries, start, answers, escs, remotePath, content, i - 1);
      assert Follows(tries[i - 1], tries[i]);
      assert answers[i - 1..][0] == answers[i - 1] && answers[i - 1..][1..] == answers[i..];
      OwnAnswer(i - 1, tries[i - 1], remotePath, escs[i - 1], answers[i - 1], escs[i], AllBytes(answers[i..]));
      NextTurn(tries[i - 1], tries[i]);
    }
  }

  lemma TurnGives(tries: seq<Try>, start: Unread, answers: seq<Answer>, escs: seq<Esc>, remotePath: string,
                  content: seq<Byte>, i: nat)
    requires Attempts(tries, start, remotePath) && AllSent(tries)
    requires Conversation(start, answers, escs, remotePath, content) && InTurn(tries, answers)
    requires i < |tries|
    ensures tries[i].data == Printed(DecoderOf(i), answers[i].text)
  {
    TurnByTurn(tries, start, answers, escs, remotePath, content, i);
    assert answers[i..][0] == answers[i] && answers[i..][1..] == answers[i + 1..];
    OwnAnswer(i, tries[i], remotePath, escs[i], answers[i], escs[i + 1], AllBytes(answers[i + 1..]));
  }

  /** A whole pull over a device that answers in turn: a success gives the file, and one
      encoder that prints it on ended lines is enough. */
  lemma ConversationPulls(tries: seq<Try>, start: Unread, answers: seq<Answer>, escs: seq<Esc>, remotePath: string,
                          content: seq<Byte>)
    requires tries != [] && Attempts(tries, start, remotePath) && AllSent(tries)
    requires Conversation(start, answers, escs, remotePath, content) && InTurn(tries, answers)
    ensures var data := tries[|tries| - 1].data;
      && (data.Some? ==> data == Some(content))
      && (data.None? && |tries| == ENCODERS ==> forall i :: 0 <= i < |answers| ==> !Gives(i, answers[i], content))
  {
    forall i | 0 <= i < |tries|
      ensures tries[i].data.Some? ==> tries[i].data == Some(content)
      ensures Gives(i, answers[i], content) ==> tries[i].data == Some(content)
    {
      TurnGives(tries, start, answers, escs, remotePath, content, i);
      SaidIsDecoded(DecoderOf(i), answers[i].text, content);
    }
    forall i | 0 <= i < |tries| - 1 ensures tries[i].data.None? {
      assert Follows(tries[i], tries[i + 1]);
    }
  }

  // ---------- the device's side ----------

  /** What a shell prints that does not know a command or cannot read a file. */
  predicate IsMessage(text: string) { ':' in Kept(text) }

  /** `text` is `content` as printed by the command with these words. */
  predicate PrintedWith(words: seq<string>, text: string, content: seq<Byte>) {
    Ended(text) && (
      || (words == ["base64"] && Encodes(Base64, text, content))
      || (words in {["xxd", "-p"], ["od", "-An", "-t", "x1"]} && Encodes(Hex, text, content)))
  }

  /** What a device with the files `fs` may print for `line`: the file that the line names,
      in the way it names, or a message. */
  ghost predicate DevicePrints(fs: Devices.Fs, line: string, text: string) {
    || IsMessage(text)
    || (exists words, path ::
          Asks(line, words, path) && path in fs.files && PrintedWith(words, text, fs.files[path]))
  }

  lemma AsksOnce(line: string, words: seq<string>, path: string, words': seq<string>, path': string)
    requires Asks(line, words, path) && Asks(line, words', path')
    ensures words == words' && path == path'
  {
    var a := Devices.Args(Shell.Lex(line).value);
    assert a[|a| - 1] == Devices.Txt(path) == Devices.Txt(path');
    forall k | 0 <= k < |words| ensures words[k] == words'[k] {
      assert a[k] == Devices.Txt(words[k]) == Devices.Txt(words'[k]);
    }
  }

  /** So the device says what the attempt's decoder takes for the named file. */
  lemma DeviceSays(i: nat, path: string, fs: Devices.Fs, text: string)
    requires i < ENCODERS && !HasControl(path) && path in fs.files
    requires DevicePrints(fs, PullCommand(Encoder(i), path) + " ", text)
    ensures Says(DecoderOf(i), text, fs.files[path])
  {
    var line := PullCommand(Encoder(i), path) + " ";
    RequestAsks(i, path);
    if IsMessage(text) {
      var k :| 0 <= k < |Kept(text)| && Kept(text)[k] == ':';
      assert Alien(DecoderOf(i), Kept(text)[k]);
    } else {
      var words, path' :| Asks(line, words, path') && path' in fs.files && PrintedWith(words, text, fs.files[path']);
      AsksOnce(line, words, path', EncoderWords(i), path);
      SaysInWords(i, text, fs.files[path]);
    }
  }

  lemma SaysInWords(i: nat, text: string, content: seq<Byte>)
    requires i < ENCODERS && PrintedWith(EncoderWords(i), text, content)
    ensures Says(DecoderOf(i), text, content)
  {
    if i == 1 {
      assert EncoderWords(i)[0] == "xxd" && "xxd"[0] == 'x';
    }
    if i == 2 {
      assert EncoderWords(i)[0] == "od" && "od"[0] == 'o';
    }
  }

  /** A device that answers in turn, printing for each line what the line asks for. */
  lemma DeviceConverses(start: Unread, answers: seq<Answer>, escs: seq<Esc>, path: string, fs: Devices.Fs)
    requires |answers| <= ENCODERS && |escs| == |answers| + 1 && start == Unread(escs[0], AllBytes(answers))
    requires !HasControl(path) && path in fs.files
    requires forall i :: 0 <= i < |answers| ==> Replies(i, path, escs[i], answers[i], escs[i + 1])
    requires forall i :: 0 <= i < |answers| ==> DevicePrints(fs, PullCommand(Encoder(i), path) + " ", answers[i].text)
    ensures Conversation(start, answers, escs, path, fs.files[path])
  {
    forall i | 0 <= i < |answers| ensures Says(DecoderOf(i), answers[i].text, fs.files[path]) {
      DeviceSays(i, path, fs, answers[i].text);
    }
  }
}
