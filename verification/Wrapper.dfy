/** The line that ExecuteChecked of internal/telnet/checked.go sends, as a POSIX shell
    reads it and as its printf commands answer it. */
module Wrapper {
  import opened Text
  import Shell
  import opened Telnet
  import opened Checked
  import Devices

  lemma RunChar(l: Shell.Lexer, c: char)
    ensures Shell.Run(l, [c]) == Shell.Step(l, c)
  {
    assert [c][1..] == [];
  }

  /** `l` stands between words, with `tokens` read. */
  function Between(tokens: seq<Shell.Token>): Shell.Lexer { Shell.Lexer(Shell.Plain, None, tokens) }

  function WordOf(s: string): Shell.Token { Shell.Word(Shell.Lits(s)) }

  /** The word a double-quoted variable makes: an expansion, then its name. */
  function VariableWord(name: string): Shell.Token {
    Shell.Word([Shell.Active('$')] + Shell.Lits(name))
  }

  predicate IsName(s: string) { forall i :: 0 <= i < |s| ==> s[i] == '_' || 'a' <= s[i] <= 'z' }

  lemma {:induction false} RunInDouble(l: Shell.Lexer, s: string)
    requires l.mode == Shell.Double && l.word.Some? && IsName(s)
    ensures Shell.Run(l, s) == l.Add(Shell.Lits(s))
    decreases |s|
  {
    if s == [] {
      assert l.word.value + Shell.Lits(s) == l.word.value;
    } else {
      Shell.LitsCons(s);
      RunInDouble(l.Add([Shell.Lit(s[0])]), s[1..]);
      assert l.word.value + [Shell.Lit(s[0])] + Shell.Lits(s[1..]) == l.word.value + Shell.Lits(s);
    }
  }

  lemma RunVariable(tokens: seq<Shell.Token>, name: string)
    requires IsName(name)
    ensures Shell.Run(Between(tokens), Variable(name))
         == Between(tokens).Add([Shell.Active('$')] + Shell.Lits(name))
  {
    var l := Between(tokens);
    var quoted := Shell.Step(l, '"');
    var dollar := Shell.Step(quoted, '$');
    assert "\"$" == ['"'] + ['$'];
    RunChar(l, '"');
    RunChar(quoted, '$');
    Shell.RunConcat(l, ['"'], ['$']);
    Shell.RunConcat(l, "\"$", name);
    RunInDouble(dollar, name);
    var named := dollar.Add(Shell.Lits(name));
    RunChar(named, '"');
    Shell.RunConcat(l, "\"$" + name, "\"");
    assert [] + [Shell.Active('$')] + Shell.Lits(name) == [] + ([Shell.Active('$')] + Shell.Lits(name));
  }

  /** A word followed by a blank. */
  lemma RunBare(tokens: seq<Shell.Token>, w: string)
    requires w != [] && Shell.AllOrdinary(w)
    ensures Shell.Run(Between(tokens), w + " ") == Between(tokens + [WordOf(w)])
  {
    Shell.RunConcat(Between(tokens), w, " ");
    Shell.RunOrdinary(Between(tokens), w);
    RunChar(Between(tokens).Add(Shell.Lits(w)), ' ');
    assert [] + Shell.Lits(w) == Shell.Lits(w);
  }

  lemma RunQuotedBlank(tokens: seq<Shell.Token>, value: string)
    ensures Shell.Run(Between(tokens), Shell.ShellQuote(value) + " ") == Between(tokens + [WordOf(value)])
  {
    Shell.RunConcat(Between(tokens), Shell.ShellQuote(value), " ");
    Shell.RunQuoted(Between(tokens), value);
    RunChar(Between(tokens).Add(Shell.Lits(value)), ' ');
    assert [] + Shell.Lits(value) == Shell.Lits(value);
  }

  /** "; " after a word. */
  lemma RunSemicolon(l: Shell.Lexer)
    requires l.mode == Shell.Plain
    ensures Shell.Run(l, "; ") == Between(l.Flush().tokens + [Shell.Op(";")])
  {
    assert "; " == [';'] + [' '];
    RunChar(l, ';');
    RunChar(Shell.Step(l, ';'), ' ');
    Shell.RunConcat(l, [';'], [' ']);
  }

  lemma RunAssignment(tokens: seq<Shell.Token>, name: string, value: string)
    requires name != [] && Shell.AllOrdinary(name)
    ensures Shell.Run(Between(tokens), name + Shell.ShellQuote(value) + "; ")
         == Between(tokens + [WordOf(name + value), Shell.Op(";")])
  {
    var l := Between(tokens);
    Shell.RunConcat(l, name, Shell.ShellQuote(value));
    Shell.RunConcat(l, name + Shell.ShellQuote(value), "; ");
    Shell.RunOrdinary(l, name);
    var named := l.Add(Shell.Lits(name));
    Shell.RunQuoted(named, value);
    assert [] + Shell.Lits(name) + Shell.Lits(value) == Shell.Lits(name + value);
    RunSemicolon(named.Add(Shell.Lits(value)));
    assert tokens + [WordOf(name + value)] + [Shell.Op(";")] == tokens + [WordOf(name + value), Shell.Op(";")];
  }

  lemma RunPrintf(tokens: seq<Shell.Token>, format: string, name: string)
    requires IsName(name)
    ensures Shell.Run(Between(tokens), PrintfText(format, name))
         == Shell.Lexer(Shell.Plain, Some(VariableWord(name).pieces), tokens + [WordOf("printf"), WordOf(format)])
  {
    var l := Between(tokens);
    RunBare(tokens, "printf");
    var t1 := tokens + [WordOf("printf")];
    RunQuotedBlank(t1, format);
    var t2 := t1 + [WordOf(format)];
    RunVariable(t2, name);
    assert [] + VariableWord(name).pieces == VariableWord(name).pieces;
    var p1, p2 := "printf" + " ", Shell.ShellQuote(format) + " ";
    Shell.RunConcat(l, p1, p2);
    Shell.RunConcat(l, p1 + p2, Variable(name));
    assert t2 == tokens + [WordOf("printf"), WordOf(format)];
  }

  lemma RunPrintfSemicolon(tokens: seq<Shell.Token>, format: string, name: string)
    requires IsName(name)
    ensures Shell.Run(Between(tokens), PrintfText(format, name) + "; ")
         == Between(tokens + [WordOf("printf"), WordOf(format), VariableWord(name), Shell.Op(";")])
  {
    RunPrintf(tokens, format, name);
    Shell.RunConcat(Between(tokens), PrintfText(format, name), "; ");
    var t2 := tokens + [WordOf("printf"), WordOf(format)];
    RunSemicolon(Shell.Lexer(Shell.Plain, Some(VariableWord(name).pieces), t2));
    assert t2 + [VariableWord(name)] + [Shell.Op(";")]
        == tokens + [WordOf("printf"), WordOf(format), VariableWord(name), Shell.Op(";")];
  }

  lemma RunPrintfVariable(tokens: seq<Shell.Token>, format: string, name: string, other: string)
    requires IsName(name) && IsName(other)
    ensures Shell.Finish(Shell.Run(Between(tokens), PrintfText(format, name) + (" " + Variable(other))))
         == Some(tokens + [WordOf("printf"), WordOf(format), VariableWord(name), VariableWord(other)])
  {
    var l := Between(tokens);
    RunPrintf(tokens, format, name);
    var t2 := tokens + [WordOf("printf"), WordOf(format)];
    var named := Shell.Lexer(Shell.Plain, Some(VariableWord(name).pieces), t2);
    RunChar(named, ' ');
    var t3 := t2 + [VariableWord(name)];
    RunVariable(t3, other);
    assert [] + VariableWord(other).pieces == VariableWord(other).pieces;
    Shell.RunConcat(named, " ", Variable(other));
    Shell.RunConcat(l, PrintfText(format, name), " " + Variable(other));
    assert t3 + [VariableWord(other)]
        == tokens + [WordOf("printf"), WordOf(format), VariableWord(name), VariableWord(other)];
  }

  /** The command is one literal word, whatever it holds: quotes, comments, an
      unfinished quotation. It cannot reach the rest of the wrapper. */
  lemma RunEvalCommand(tokens: seq<Shell.Token>, command: string)
    ensures Shell.Run(Between(tokens), EvalCommand(command))
         == Between(tokens + [Shell.Op("("), WordOf("eval"), WordOf(command), Shell.Op(")"), Shell.Op(";")])
  {
    var l := Between(tokens);
    var t1 := tokens + [Shell.Op("(")];
    assert "( " == ['('] + [' '];
    RunChar(l, '(');
    RunChar(Between(t1), ' ');
    Shell.RunConcat(l, ['('], [' ']);
    RunBare(t1, "eval");
    var t2 := t1 + [WordOf("eval")];
    RunQuotedBlank(t2, command);
    var t3 := t2 + [WordOf(command)];
    RunChar(Between(t3), ')');
    assert ")" == [')'];
    RunSemicolon(Between(t3 + [Shell.Op(")")]));
    var p1, p2, p3 := "( ", "eval" + " ", Shell.ShellQuote(command) + " ";
    Shell.RunConcat(l, p1, p2);
    Shell.RunConcat(l, p1 + p2, p3);
    Shell.RunConcat(l, p1 + p2 + p3, ")");
    Shell.RunConcat(l, p1 + p2 + p3 + ")", "; ");
    assert t3 + [Shell.Op(")")] + [Shell.Op(";")]
        == tokens + [Shell.Op("("), WordOf("eval"), WordOf(command), Shell.Op(")"), Shell.Op(";")];
  }

  /** `name=$?` */
  function StatusWord(name: string): Shell.Token {
    Shell.Word(Shell.Lits(name) + [Shell.Active('$'), Shell.Active('?')])
  }

  lemma RunSaveStatus(tokens: seq<Shell.Token>, name: string)
    requires name != [] && Shell.AllOrdinary(name)
    ensures Shell.Run(Between(tokens), name + "$?" + "; ") == Between(tokens + [StatusWord(name), Shell.Op(";")])
  {
    var l := Between(tokens);
    Shell.RunOrdinary(l, name);
    var named := l.Add(Shell.Lits(name));
    assert "$?" == ['$'] + ['?'];
    RunChar(named, '$');
    RunChar(Shell.Step(named, '$'), '?');
    Shell.RunConcat(named, ['$'], ['?']);
    Shell.RunConcat(l, name, "$?");
    Shell.RunConcat(l, name + "$?", "; ");
    var done := named.Add([Shell.Active('$')]).Add([Shell.Active('?')]);
    assert done.word.value == StatusWord(name).pieces;
    RunSemicolon(done);
    assert tokens + [StatusWord(name)] + [Shell.Op(";")] == tokens + [StatusWord(name), Shell.Op(";")];
  }

  /** The tokens of the wrapper around `command`. */
  function WrapperTokens(marker: string, command: string): seq<Shell.Token> {
    [] + [WordOf("bs_m=" + marker), Shell.Op(";")]
    + [WordOf("printf"), WordOf(BEGIN_FORMAT), VariableWord("bs_m"), Shell.Op(";")]
    + [Shell.Op("("), WordOf("eval"), WordOf(command), Shell.Op(")"), Shell.Op(";")]
    + [StatusWord("bs_status="), Shell.Op(";")]
    + [WordOf("printf"), WordOf(END_FORMAT), VariableWord("bs_m"), VariableWord("bs_status")]
  }

  lemma RunFive(l: Shell.Lexer, a: string, b: string, c: string, d: string, e: string)
    ensures Shell.Run(l, a + b + c + d + e)
         == Shell.Run(Shell.Run(Shell.Run(Shell.Run(Shell.Run(l, a), b), c), d), e)
  {
    Shell.RunConcat(l, a, b);
    Shell.RunConcat(l, a + b, c);
    Shell.RunConcat(l, a + b + c, d);
    Shell.RunConcat(l, a + b + c + d, e);
  }

  /** The statements one after the other, for any names and formats. */
  lemma RunWrapper(m: string, marker: string, v: string, f: string, command: string, st: string, g: string, w: string)
    requires m != [] && Shell.AllOrdinary(m) && st != [] && Shell.AllOrdinary(st) && IsName(v) && IsName(w)
    ensures Shell.Finish(Shell.Run(Between([]),
        (m + Shell.ShellQuote(marker) + "; ") + (PrintfText(f, v) + "; ") + EvalCommand(command)
        + (st + "$?" + "; ") + (PrintfText(g, v) + (" " + Variable(w)))))
      == Some([] + [WordOf(m + marker), Shell.Op(";")]
        + [WordOf("printf"), WordOf(f), VariableWord(v), Shell.Op(";")]
        + [Shell.Op("("), WordOf("eval"), WordOf(command), Shell.Op(")"), Shell.Op(";")]
        + [StatusWord(st), Shell.Op(";")]
        + [WordOf("printf"), WordOf(g), VariableWord(v), VariableWord(w)])
  {
    RunFive(Between([]), m + Shell.ShellQuote(marker) + "; ", PrintfText(f, v) + "; ", EvalCommand(command),
            st + "$?" + "; ", PrintfText(g, v) + (" " + Variable(w)));
    RunAssignment([], m, marker);
    var t1 := [] + [WordOf(m + marker), Shell.Op(";")];
    RunPrintfSemicolon(t1, f, v);
    var t2 := t1 + [WordOf("printf"), WordOf(f), VariableWord(v), Shell.Op(";")];
    RunEvalCommand(t2, command);
    var t3 := t2 + [Shell.Op("("), WordOf("eval"), WordOf(command), Shell.Op(")"), Shell.Op(";")];
    RunSaveStatus(t3, st);
    RunPrintfVariable(t3 + [StatusWord(st), Shell.Op(";")], g, v, w);
  }

  /** The outer reading of the wrapper: for every command, its tokens are the same
      except for the one literal word that `eval` will read again. */
  lemma WrapperIsLexed(marker: string, command: string)
    ensures Shell.Lex(Wrapped(marker, command)) == Some(WrapperTokens(marker, command))
    ensures Shell.Literal(WordOf(command)) == Some(command)
  {
    Shell.LiteralOfLits(command);
    RunWrapper("bs_m=", marker, "bs_m", BEGIN_FORMAT, command, "bs_status=", END_FORMAT, "bs_status");
  }

  /** Where the command stands among the wrapper's tokens: after "(" and eval. */
  const OPERAND: nat := 8

  /** Quoting nested twice: the shell hands eval exactly the command, and reading that
      text again yields the intended words, redirections and quoted operands, whatever
      the operands contain. */
  lemma CommandThroughEval(marker: string, items: seq<Shell.Item>)
    requires items != [] && forall i :: 0 <= i < |items| ==> Shell.ValidItem(items[i])
    ensures var outer := Shell.Lex(Wrapped(marker, Shell.Line(items)));
      && outer.Some? && |outer.value| > OPERAND
      && outer.value[OPERAND - 1] == WordOf("eval")
      && var inner := Shell.Literal(outer.value[OPERAND]);
         inner.Some? && Shell.Lex(inner.value).Some?
         && Devices.Args(Shell.Lex(inner.value).value) == Devices.ItemArgs(items)
  {
    var command := Shell.Line(items);
    WrapperIsLexed(marker, command);
    EvalOperand(marker, command);
    Devices.LineArgs(items);
  }

  lemma EvalOperand(marker: string, command: string)
    ensures var tokens := WrapperTokens(marker, command);
      |tokens| > OPERAND && tokens[OPERAND - 1] == WordOf("eval") && tokens[OPERAND] == WordOf(command)
  {
  }

  lemma FrameBytes()
    ensures Shell.OctalValue("036") == RS as int && Shell.OctalValue("037") == US as int
  {
    assert "036"[..2] == "03" && "03"[..1] == "0" && "0"[..0] == "";
    assert "037"[..2] == "03";
  }

  /** An octal escape for the byte `c`, then `rest`. */
  lemma PrintEscape(digits: string, c: char, rest: string, args: seq<string>)
    requires |digits| == 3 && Shell.IsOctal(digits[0]) && Shell.IsOctal(digits[1]) && Shell.IsOctal(digits[2])
    requires Shell.OctalValue(digits) == c as int < 256
    ensures Shell.Printf("\\" + digits + rest, args) == Shell.Then([c], Shell.Printf(rest, args))
  {
    Shell.PrintfOctal(digits, rest, args);
  }

  /** A format made of an escape, a string argument and plain text. */
  lemma PrintArgument(digits: string, c: char, text: string, rest: string, args: seq<string>)
    requires |digits| == 3 && Shell.IsOctal(digits[0]) && Shell.IsOctal(digits[1]) && Shell.IsOctal(digits[2])
    requires Shell.OctalValue(digits) == c as int < 256
    requires args != [] && Shell.PlainFormat(text)
    ensures Shell.Printf("\\" + digits + ("%s" + (text + rest)), args)
         == Shell.Then([c] + args[0] + text, Shell.Printf(rest, args[1..]))
  {
    PrintEscape(digits, c, "%s" + (text + rest), args);
    Shell.PrintfArgument(text + rest, args);
    Shell.PrintfPlain(text, rest, args[1..]);
    var tail := Shell.Printf(rest, args[1..]);
    if tail.Some? {
      Regroup(args[0], text, tail.value);
      Regroup([c], args[0] + text, tail.value);
      Regroup([c], args[0], text);
    }
  }

  /** What the wrapper's first printf prints: the begin frame, byte for byte. */
  lemma BeginPrinted(marker: string)
    ensures Shell.Printf(BEGIN_FORMAT, [marker]) == Some(Begin(marker))
  {
    FrameBytes();
    PrintEscape("037", US, [], []);
    PrintArgument("036", RS, ":B", "\\" + "037" + [], [marker]);
    assert BEGIN_FORMAT == "\\" + "036" + ("%s" + (":B" + ("\\" + "037" + [])));
    assert [marker][1..] == [];
    assert [RS] + marker + ":B" + ([US] + []) == Begin(marker);
  }

  lemma NewlinePrinted()
    ensures Shell.Printf("\\n", []) == Some("\n")
  {
    var f := "\\n";
    assert f[1..] == "n" && f[2..] == [];
    assert Shell.Printf([], []) == Some([]);
    assert "\n" + [] == "\n";
  }

  lemma EndFormatParts()
    ensures END_FORMAT == "\\" + "036" + ("%s" + (":" + ("%s" + ("\\" + "037" + "\\n"))))
  {
  }

  /** What the second one prints: the completion record. */
  lemma CompletionPrinted(marker: string, status: nat)
    ensures Shell.Printf(END_FORMAT, [marker, Itoa(status)]) == Some(Prefix(marker) + Itoa(status) + [US] + "\n")
  {
    var s := Itoa(status);
    FrameBytes();
    NewlinePrinted();
    PrintEscape("037", US, "\\n", []);
    var rest := "\\" + "037" + "\\n";
    EndFormatParts();
    assert [s][1..] == [] && [marker, s][1..] == [s];
    Shell.PrintfArgument(rest, [s]);
    PrintArgument("036", RS, ":", "%s" + rest, [marker, s]);
    Regroup([RS] + marker + ":", s, [US] + "\n");
    Regroup([RS] + marker + ":" + s, [US], "\n");
  }

  /** A terminal may turn the final line feed into CR LF. */
  function Cooked(text: string, crlf: bool): string
    requires text != []
  {
    if crlf then text[..|text| - 1] + "\r\n" else text
  }

  /** `d` is what a shell that runs the wrapper prints: the echo, what the first printf
      prints, the command's output, what the second printf prints, and a prompt. */
  ghost predicate Printed(d: string, marker: string, echo: string, out: string, status: nat, crlf: bool, prompt: string) {
    exists begin, end ::
      && Shell.Printf(BEGIN_FORMAT, [marker]) == Some(begin)
      && Shell.Printf(END_FORMAT, [marker, Itoa(status)]) == Some(end)
      && end != [] && d == echo + begin + (out + Cooked(end, crlf) + prompt)
  }

  /** End to end: what such a shell prints is a reply that is read back as exactly that
      output and status. */
  lemma ShellReply(d: string, marker: string, echo: string, out: string, status: nat, crlf: bool, prompt: string)
    requires Printed(d, marker, echo, out, status, crlf, prompt)
    requires !Contains(echo, Begin(marker)) && Calm(out, Prefix(marker)) && status <= 255
    requires exists q :: StopsAt(prompt, q, EndsInMark)
    ensures Reply(d, FramesOf(marker), echo, out, status, if crlf then "\r\n" else "\n", prompt)
  {
    BeginPrinted(marker);
    CompletionPrinted(marker, status);
    var record := Prefix(marker) + Itoa(status) + [US];
    CookedRecord(record, crlf);
    ReplyOfParts(FramesOf(marker), echo, out, status, if crlf then "\r\n" else "\n", prompt);
  }

  lemma CookedRecord(record: string, crlf: bool)
    ensures Cooked(record + "\n", crlf) == record + (if crlf then "\r\n" else "\n")
  {
    var text := record + "\n";
    assert text[..|text| - 1] == record;
  }

  lemma ReplyOfParts(f: Frames, echo: string, out: string, status: nat, nl: string, prompt: string)
    requires !Contains(echo, f.begin) && Calm(out, f.prefix) && status <= 255
    requires nl == "\n" || nl == "\r\n"
    requires exists q :: StopsAt(prompt, q, EndsInMark)
    ensures Reply(echo + f.begin + (out + (f.prefix + Itoa(status) + [US] + nl) + prompt), f, echo, out, status, nl, prompt)
  {
    RegroupRecord(out, f.prefix, Itoa(status), [US], nl, prompt);
  }

  lemma RegroupRecord(a: string, b: string, c: string, d: string, e: string, z: string)
    ensures a + (b + c + d + e) + z == a + b + c + d + (e + z)
  {
  }

  /** The reader takes the last of several prefixes: output that is itself a prefix is
      read back like any other, since no US byte follows that prefix before the real
      one. The condition is `Calm`, which is weaker than the absence of the prefix. */
  lemma PrefixInOutputIsAccepted(marker: string, prompt: string)
    requires ValidMarker(marker) && exists q :: StopsAt(prompt, q, EndsInMark)
    ensures var f := FramesOf(marker);
      && Contains(f.prefix, f.prefix)
      && Reply([] + f.begin + (f.prefix + (f.prefix + Itoa(0) + [US] + "\n") + prompt), f, [], f.prefix, 0, "\n", prompt)
  {
    var f := FramesOf(marker);
    FrameShape(marker);
    assert OccursAt(f.prefix, f.prefix, 0);
    ReplyOfParts(f, [], f.prefix, 0, "\n", prompt);
  }
}
