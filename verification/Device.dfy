/** The remote device: the commands BusyScout sends it, what their text means to
    a POSIX shell, and what they do to its files. */
module Devices {
  import opened Text
  import opened Shell

  // ---------- the commands, as written ----------

  /** fmt.Sprintf("\\%03o", b) */
  function Octal(b: Byte): string {
    "\\" + OctalDigits(b)
  }

  function OctalDigits(b: Byte): (s: string)
    ensures |s| == 3 && forall i :: 0 <= i < 3 ==> IsOctal(s[i])
  {
    [OctalChar(b / 64), OctalChar(b / 8 % 8), OctalChar(b % 8)]
  }

  function OctalChar(n: nat): (c: char)
    requires n < 8
    ensures IsOctal(c)
  {
    ('0' as int + n) as char
  }

  function OctalText(data: seq<Byte>): string {
    if data == [] then [] else Octal(data[0]) + OctalText(data[1..])
  }

  function TruncateCommand(target: string): string {
    ": > " + ShellQuote(target)
  }

  /** `redirect` is ">" for the first line of an upload and ">>" for the others. */
  function PrintfCommand(data: seq<Byte>, redirect: string, target: string): string {
    "printf '" + OctalText(data) + "' " + redirect + " " + ShellQuote(target)
  }

  function JoinCommand(names: seq<string>, target: string): string {
    "cat" + QuotedOperands(names) + " >> " + ShellQuote(target)
  }

  function SizeCommand(name: string): string {
    "wc -c < " + ShellQuote(name)
  }

  function MakeDirCommand(dir: string): string {
    "mkdir -m 700 " + ShellQuote(dir)
  }

  function RemoveCommand(dir: string): string {
    "rm -r " + ShellQuote(dir)
  }

  function PrivateDirCommand(dir: string): string {
    "umask 077; mkdir " + ShellQuote(dir)
  }

  function ForceRemoveCommand(dir: string): string {
    "rm -rf " + ShellQuote(dir)
  }

  function ExecutableCommand(file: string): string {
    "chmod +x " + ShellQuote(file)
  }

  // ---------- what the text means ----------

  datatype Action =
    | Write(target: string, append: bool, bytes: seq<Byte>)
    | Cat(names: seq<string>, target: string)
    | Size(name: string)
    | MakeDir(dir: string)
    | RemoveTree(dir: string)
    | Permit(file: string)
    | NoEffect

  datatype Arg = Txt(value: string) | Sym(op: string) | Expanded

  function ArgOf(t: Token): Arg {
    if t.Op? then Sym(t.text)
    else if Literal(t).Some? then Txt(Literal(t).value)
    else Expanded
  }

  function Args(tokens: seq<Token>): seq<Arg> {
    seq(|tokens|, i requires 0 <= i < |tokens| => ArgOf(tokens[i]))
  }

  function CharsOf(data: seq<Byte>): string {
    seq(|data|, i requires 0 <= i < |data| => data[i] as char)
  }

  function BytesOf(s: string): seq<Byte> {
    seq(|s|, i requires 0 <= i < |s| => s[i] as int % 256)
  }

  predicate AllTxt(a: seq<Arg>) { forall i :: 0 <= i < |a| ==> a[i].Txt? }

  function Values(a: seq<Arg>): seq<string>
    requires AllTxt(a)
  {
    seq(|a|, i requires 0 <= i < |a| => a[i].value)
  }

  /** The effect of a simple command on files; commands that are not about the
      modelled files have none. */
  function Interpret(a: seq<Arg>): Action {
    var n := |a|;
    if n == 4 && a[0] == Txt("printf") && a[1].Txt? && a[2] in {Sym(">"), Sym(">>")} && a[3].Txt?
       && Printf(a[1].value, []).Some? then
      Write(a[3].value, a[2] == Sym(">>"), BytesOf(Printf(a[1].value, []).value))
    else if n == 3 && a[0] == Txt(":") && a[1] == Sym(">") && a[2].Txt? then
      Write(a[2].value, false, [])
    else if n >= 4 && a[0] == Txt("cat") && a[n - 2] == Sym(">>") && a[n - 1].Txt? && AllTxt(a[1..n - 2]) then
      Cat(Values(a[1..n - 2]), a[n - 1].value)
    else if n == 4 && a[0] == Txt("wc") && a[1] == Txt("-c") && a[2] == Sym("<") && a[3].Txt? then
      Size(a[3].value)
    else if n == 4 && a[0] == Txt("mkdir") && a[1] == Txt("-m") && a[2] == Txt("700") && a[3].Txt? then
      MakeDir(a[3].value)
    else if n == 5 && a[0] == Txt("umask") && a[1] == Txt("077") && a[2] == Sym(";") && a[3] == Txt("mkdir") && a[4].Txt? then
      MakeDir(a[4].value)
    else if n == 3 && a[0] == Txt("rm") && a[1] in {Txt("-r"), Txt("-rf")} && a[2].Txt? then
      RemoveTree(a[2].value)
    else if n == 3 && a[0] == Txt("chmod") && a[1] == Txt("+x") && a[2].Txt? then
      Permit(a[2].value)
    else NoEffect
  }

  function Meaning(command: string): Action {
    match Lex(command)
    case None => NoEffect
    case Some(tokens) => Interpret(Args(tokens))
  }

  // ---------- what it does ----------

  /** Files with their contents, directories, and which files may be executed. */
  datatype Fs = Fs(files: map<string, seq<Byte>>, dirs: set<string>, runnable: set<string>)

  /** `t` holds `bytes`; it keeps its mode, and a new file is not executable. */
  function WithFile(fs: Fs, t: string, bytes: seq<Byte>): Fs {
    Fs(fs.files[t := bytes], fs.dirs, if t in fs.files then fs.runnable else fs.runnable - {t})
  }

  function WithoutFile(fs: Fs, t: string): Fs {
    Fs(fs.files - {t}, fs.dirs, fs.runnable - {t})
  }

  predicate Under(path: string, dir: string) { dir + "/" <= path }

  /** What a failed command leaves at the place it was writing to. */
  datatype Left = Untouched | Gone | Holds(bytes: seq<Byte>)

  /** How the environment treats a command: it takes full effect and its status 0
      is confirmed (wc may pad its number), or the caller sees an error. */
  datatype Outcome = Succeeds(padding: nat) | Fails(left: Left, kept: set<string>)

  datatype Reply = Output(text: string) | Error

  function Blanks(n: nat): string { seq(n, i => ' ') }

  function SizeReply(padding: nat, size: nat): string {
    Blanks(padding) + Itoa(size) + "\r\n"
  }

  function Contents(files: map<string, seq<Byte>>, names: seq<string>): seq<Byte>
    requires forall i :: 0 <= i < |names| ==> names[i] in files
  {
    if names == [] then [] else files[names[0]] + Contents(files, names[1..])
  }

  /** The full effect and the output, when the command is possible at all. */
  function Perform(fs: Fs, action: Action, padding: nat): Option<(Fs, string)> {
    match action
    case Write(t, append, bytes) =>
      var kept := if append && t in fs.files then fs.files[t] else [];
      Some((WithFile(fs, t, kept + bytes), ""))
    case Cat(names, t) =>
      if t in names || exists i :: 0 <= i < |names| && names[i] !in fs.files then None
      else
        var kept := if t in fs.files then fs.files[t] else [];
        Some((WithFile(fs, t, kept + Contents(fs.files, names)), ""))
    case Size(name) =>
      if name in fs.files then Some((fs, SizeReply(padding, |fs.files[name]|))) else None
    case MakeDir(d) =>
      if d in fs.dirs || d in fs.files then None else Some((fs.(dirs := fs.dirs + {d}), ""))
    case RemoveTree(d) =>
      if d !in fs.dirs then None
      else Some((WithoutTree(fs, d, {}).(dirs := fs.dirs - {d}), ""))
    case Permit(file) =>
      if file in fs.files then Some((fs.(runnable := fs.runnable + {file}), "")) else None
    case NoEffect => Some((fs, ""))
  }

  /** What is left when the files under `d` are gone, except those in `kept`. */
  function WithoutTree(fs: Fs, d: string, kept: set<string>): Fs {
    Fs(map p | p in fs.files && (!Under(p, d) || p in kept) :: fs.files[p], fs.dirs,
       set p | p in fs.runnable && (!Under(p, d) || p in kept))
  }

  function Leave(fs: Fs, t: string, left: Left): Fs {
    match left
    case Untouched => fs
    case Gone => WithoutFile(fs, t)
    case Holds(bytes) => WithFile(fs, t, bytes)
  }

  /** A command whose success is not confirmed may have had any part of its own
      effect, and no other. */
  function Spoil(fs: Fs, action: Action, left: Left, kept: set<string>): Fs {
    match action
    case Write(t, _, _) => Leave(fs, t, left)
    case Cat(_, t) => Leave(fs, t, left)
    case MakeDir(d) => if left.Untouched? then fs else fs.(dirs := fs.dirs + {d})
    case RemoveTree(d) =>
      WithoutTree(fs, d, kept).(dirs := if left.Untouched? then fs.dirs else fs.dirs - {d})
    case Permit(file) => if left.Untouched? then fs else fs.(runnable := fs.runnable + {file})
    case _ => fs
  }

  /** ExecuteChecked, seen from above: commands with CR, LF or NUL are not sent. */
  function Exec(fs: Fs, command: string, o: Outcome): (Fs, Reply) {
    if HasControl(command) then (fs, Error)
    else
      match o
      case Succeeds(padding) =>
        (match Perform(fs, Meaning(command), padding)
         case Some((after, text)) => (after, Output(text))
         case None => (fs, Error))
      case Fails(left, kept) => (Spoil(fs, Meaning(command), left, kept), Error)
  }

  /** A command that was sent, and whether its success was confirmed. */
  datatype Sent = Sent(command: string, confirmed: bool)

  /** A session with the device: its files, the commands sent so far, how each of them
      was treated, how many were reported as errors, and what other sessions have sent. */
  class Device {
    var fs: Fs
    var log: seq<Sent>
    var outcomes: seq<Outcome>
    var errors: nat
    var others: seq<Sent>

    constructor (fs: Fs)
      ensures this.fs == fs && log == [] && outcomes == [] && errors == 0 && others == []
    {
      this.fs := fs;
      log, outcomes, errors, others := [], [], 0, [];
    }

    /** How the last command was treated. */
    function Last(): Outcome
      requires outcomes != []
      reads this
    {
      outcomes[|outcomes| - 1]
    }

    method ExecuteChecked(command: string) returns (reply: Reply)
      modifies `fs, `log, `outcomes, `errors
      ensures |outcomes| == |old(outcomes)| + 1 && old(outcomes) <= outcomes
      ensures (fs, reply) == Exec(old(fs), command, Last())
      ensures log == old(log) + [Sent(command, reply.Output?)]
      ensures errors == old(errors) + (if reply == Error then 1 else 0)
    {
      var o: Outcome := *;
      var result := Exec(fs, command, o);
      fs, reply := result.0, result.1;
      outcomes := outcomes + [o];
      log := log + [Sent(command, reply.Output?)];
      errors := errors + (if reply == Error then 1 else 0);
    }
  }

  // ---------- meanings of the commands BusyScout writes ----------

  lemma OctalOfThree(s: string)
    requires |s| == 3 && IsOctal(s[0]) && IsOctal(s[1]) && IsOctal(s[2])
    ensures OctalValue(s) == 64 * (s[0] as int - '0' as int) + 8 * (s[1] as int - '0' as int) + (s[2] as int - '0' as int)
  {
    var two, one := s[..2], s[..1];
    assert two[..1] == one && one[..0] == [];
    assert OctalValue(one) == OctalDigit(s[0]);
    assert OctalValue(two) == 8 * OctalValue(one) + OctalDigit(s[1]);
  }

  lemma OctalDigitsValue(b: Byte)
    ensures OctalValue(OctalDigits(b)) == b
  {
    OctalOfThree(OctalDigits(b));
  }

  lemma PrintfOctalByte(b: Byte, rest: string)
    ensures Printf(Octal(b) + rest, []) == Then([b as char], Printf(rest, []))
  {
    OctalDigitsValue(b);
    PrintfOctal(OctalDigits(b), rest, []);
  }

  /** Interpreting the octal format inverts the encoder, for every byte string. */
  lemma {:induction false} PrintfOctalText(data: seq<Byte>)
    ensures Printf(OctalText(data), []) == Some(CharsOf(data))
  {
    if data == [] {
      assert CharsOf(data) == [];
    } else {
      PrintfOctalByte(data[0], OctalText(data[1..]));
      PrintfOctalText(data[1..]);
      assert [data[0] as char] + CharsOf(data[1..]) == CharsOf(data);
    }
  }

  lemma BytesOfCharsOf(data: seq<Byte>)
    ensures BytesOf(CharsOf(data)) == data
  {
  }

  lemma {:induction false} OctalTextUnquoted(data: seq<Byte>)
    ensures EscapeQuotes(OctalText(data)) == OctalText(data)
    ensures !HasControl(OctalText(data))
  {
    if data != [] {
      var rest := OctalText(data[1..]);
      OctalTextUnquoted(data[1..]);
      var o := Octal(data[0]);
      EscapeUnquoted(o, rest);
      forall i | 0 <= i < |o + rest| ensures (o + rest)[i] !in {'\r', '\n', '\0'} {
        if i >= |o| { assert (o + rest)[i] == rest[i - |o|]; }
      }
    }
  }

  lemma {:induction false} EscapeUnquoted(s: string, rest: string)
    requires forall i :: 0 <= i < |s| ==> s[i] != '\''
    ensures EscapeQuotes(s + rest) == s + EscapeQuotes(rest)
    decreases |s|
  {
    if s == [] {
      assert s + rest == rest;
    } else {
      assert (s + rest)[1..] == s[1..] + rest;
      EscapeUnquoted(s[1..], rest);
    }
  }

  function ItemArg(item: Item): Arg {
    match item
    case Bare(text) => Txt(text)
    case Quoted(value) => Txt(value)
    case Redirect(op) => Sym(op)
  }

  function ItemArgs(items: seq<Item>): seq<Arg> {
    seq(|items|, i requires 0 <= i < |items| => ItemArg(items[i]))
  }

  lemma TokenArg(item: Item)
    ensures ArgOf(ItemToken(item)) == ItemArg(item)
  {
    match item
    case Bare(text) => LiteralOfLits(text);
    case Quoted(value) => LiteralOfLits(value);
    case Redirect(_) =>
  }

  lemma ArgsOfItems(items: seq<Item>)
    ensures Args(ItemTokens(items)) == ItemArgs(items)
  {
    forall i | 0 <= i < |items| ensures Args(ItemTokens(items))[i] == ItemArgs(items)[i] {
      TokenArg(items[i]);
    }
  }

  /** The arguments of a line are its items, whatever the quoted values hold. */
  lemma LineArgs(items: seq<Item>)
    requires items != [] && forall i :: 0 <= i < |items| ==> ValidItem(items[i])
    ensures Lex(Line(items)).Some? && Args(Lex(Line(items)).value) == ItemArgs(items)
  {
    LexLine(items);
    ArgsOfItems(items);
  }

  lemma LineMeaning(items: seq<Item>)
    requires items != [] && forall i :: 0 <= i < |items| ==> ValidItem(items[i])
    ensures Meaning(Line(items)) == Interpret(ItemArgs(items))
  {
    LineArgs(items);
  }

  lemma PrintfCommandLine(data: seq<Byte>, redirect: string, target: string)
    ensures Line([Bare("printf"), Quoted(OctalText(data)), Redirect(redirect), Quoted(target)])
         == PrintfCommand(data, redirect, target)
  {
    Line4(Bare("printf"), Quoted(OctalText(data)), Redirect(redirect), Quoted(target));
    OctalTextUnquoted(data);
    QuoteSpaced("printf", OctalText(data));
    assert "printf" + " '" == "printf '";
  }

  lemma QuoteSpaced(word: string, quoted: string)
    ensures word + " " + ("'" + quoted + "'") + " " == word + " '" + quoted + "' "
  {
  }

  lemma PrintfArgs(data: seq<Byte>, redirect: string, target: string)
    requires redirect in {">", ">>"}
    ensures Interpret([Txt("printf"), Txt(OctalText(data)), Sym(redirect), Txt(target)])
         == Write(target, redirect == ">>", data)
  {
    PrintfOctalText(data);
    BytesOfCharsOf(data);
  }

  lemma PrintfCommandMeaning(data: seq<Byte>, append: bool, target: string)
    ensures Meaning(PrintfCommand(data, if append then ">>" else ">", target)) == Write(target, append, data)
  {
    var redirect := if append then ">>" else ">";
    var items := [Bare("printf"), Quoted(OctalText(data)), Redirect(redirect), Quoted(target)];
    PrintfCommandLine(data, redirect, target);
    LineMeaning(items);
    assert ItemArgs(items) == [Txt("printf"), Txt(OctalText(data)), Sym(redirect), Txt(target)];
    PrintfArgs(data, redirect, target);
  }

  lemma TruncateCommandMeaning(target: string)
    ensures Meaning(TruncateCommand(target)) == Write(target, false, [])
  {
    var items := [Bare(":"), Redirect(">"), Quoted(target)];
    Line3(items[0], items[1], items[2]);
    assert Line(items) == TruncateCommand(target);
    LineMeaning(items);
    assert ItemArgs(items) == [Txt(":"), Sym(">"), Txt(target)];
  }

  lemma JoinCommandLine(names: seq<string>, target: string)
    ensures Line([Bare("cat")] + QuotedItems(names) + [Redirect(">>"), Quoted(target)]) == JoinCommand(names, target)
  {
    var tail := [Redirect(">>"), Quoted(target)];
    LineOfOperands(Bare("cat"), names, tail);
    assert tail[1..] == [Quoted(target)];
    AppendSpaced("cat" + QuotedOperands(names), ShellQuote(target));
  }

  lemma AppendSpaced(command: string, target: string)
    ensures command + " " + (">>" + " " + target) == command + " >> " + target
  {
  }

  lemma JoinCommandMeaning(names: seq<string>, target: string)
    requires names != []
    ensures Meaning(JoinCommand(names, target)) == Cat(names, target)
  {
    JoinCommandLine(names, target);
    LineMeaning([Bare("cat")] + QuotedItems(names) + [Redirect(">>"), Quoted(target)]);
    CatArgs(names, target);
  }

  lemma CatArgs(names: seq<string>, target: string)
    requires names != []
    ensures Interpret(ItemArgs([Bare("cat")] + QuotedItems(names) + [Redirect(">>"), Quoted(target)])) == Cat(names, target)
  {
    var a := ItemArgs([Bare("cat")] + QuotedItems(names) + [Redirect(">>"), Quoted(target)]);
    var operands := a[1..|a| - 2];
    assert |operands| == |names| && forall i :: 0 <= i < |names| ==> operands[i] == Txt(names[i]);
    assert Values(operands) == names;
  }

  lemma SizeCommandMeaning(name: string)
    ensures Meaning(SizeCommand(name)) == Size(name)
  {
    var items := [Bare("wc"), Bare("-c"), Redirect("<"), Quoted(name)];
    Line4(items[0], items[1], items[2], items[3]);
    assert Line(items) == SizeCommand(name);
    LineMeaning(items);
    assert ItemArgs(items) == [Txt("wc"), Txt("-c"), Sym("<"), Txt(name)];
  }

  lemma MakeDirLine(dir: string)
    ensures Line([Bare("mkdir"), Bare("-m"), Bare("700"), Quoted(dir)]) == MakeDirCommand(dir)
  {
    Line4(Bare("mkdir"), Bare("-m"), Bare("700"), Quoted(dir));
    assert "mkdir" + " " + "-m" + " " + "700" + " " == "mkdir -m 700 ";
  }

  lemma MakeDirArgs(dir: string)
    ensures Interpret([Txt("mkdir"), Txt("-m"), Txt("700"), Txt(dir)]) == MakeDir(dir)
  {
  }

  lemma MakeDirCommandMeaning(dir: string)
    ensures Meaning(MakeDirCommand(dir)) == MakeDir(dir)
  {
    var items := [Bare("mkdir"), Bare("-m"), Bare("700"), Quoted(dir)];
    MakeDirLine(dir);
    LineMeaning(items);
    assert ItemArgs(items) == [Txt("mkdir"), Txt("-m"), Txt("700"), Txt(dir)];
    MakeDirArgs(dir);
  }

  lemma RemoveCommandMeaning(dir: string)
    ensures Meaning(RemoveCommand(dir)) == RemoveTree(dir)
  {
    var items := [Bare("rm"), Bare("-r"), Quoted(dir)];
    Line3(items[0], items[1], items[2]);
    assert Line(items) == RemoveCommand(dir);
    LineMeaning(items);
    assert ItemArgs(items) == [Txt("rm"), Txt("-r"), Txt(dir)];
  }

  lemma TwoCommandArgs(a: string, b: string, rest: seq<Item>)
    requires a != [] && AllOrdinary(a) && b != [] && AllOrdinary(b)
    requires rest != [] && forall i :: 0 <= i < |rest| ==> ValidItem(rest[i])
    ensures var line := Lex(a + (" " + (b + ("; " + Line(rest)))));
      line.Some? && Args(line.value) == [Txt(a), Txt(b), Sym(";")] + ItemArgs(rest)
  {
    LexThen(a, b, rest);
    ArgsThen(Word(Lits(a)), Word(Lits(b)), Op(";"), ItemTokens(rest));
    ArgsOfItems(rest);
    LiteralOfLits(a);
    LiteralOfLits(b);
  }

  lemma ArgsThen(a: Token, b: Token, c: Token, rest: seq<Token>)
    ensures Args([a, b, c] + rest) == [ArgOf(a), ArgOf(b), ArgOf(c)] + Args(rest)
  {
  }

  lemma PrivateDirCommandMeaning(dir: string)
    ensures Meaning(PrivateDirCommand(dir)) == MakeDir(dir)
  {
    var items := [Bare("mkdir"), Quoted(dir)];
    PrivateDirLine(dir);
    TwoCommandArgs("umask", "077", items);
    assert ItemArgs(items) == [Txt("mkdir"), Txt(dir)];
  }

  lemma PrivateDirLine(dir: string)
    ensures PrivateDirCommand(dir) == "umask" + (" " + ("077" + ("; " + Line([Bare("mkdir"), Quoted(dir)]))))
  {
    var items := [Bare("mkdir"), Quoted(dir)];
    assert items[1..] == [Quoted(dir)];
  }

  lemma ForceRemoveCommandMeaning(dir: string)
    ensures Meaning(ForceRemoveCommand(dir)) == RemoveTree(dir)
  {
    var items := [Bare("rm"), Bare("-rf"), Quoted(dir)];
    Line3(items[0], items[1], items[2]);
    assert Line(items) == ForceRemoveCommand(dir);
    LineMeaning(items);
    assert ItemArgs(items) == [Txt("rm"), Txt("-rf"), Txt(dir)];
  }

  lemma ExecutableLine(file: string)
    ensures Line([Bare("chmod"), Bare("+x"), Quoted(file)]) == ExecutableCommand(file)
  {
    Line3(Bare("chmod"), Bare("+x"), Quoted(file));
    assert "chmod" + " " + "+x" + " " == "chmod +x ";
  }

  lemma ExecutableArgs(file: string)
    ensures Interpret([Txt("chmod"), Txt("+x"), Txt(file)]) == Permit(file)
  {
  }

  lemma ExecutableCommandMeaning(file: string)
    ensures Meaning(ExecutableCommand(file)) == Permit(file)
  {
    var items := [Bare("chmod"), Bare("+x"), Quoted(file)];
    ExecutableLine(file);
    LineMeaning(items);
    assert ItemArgs(items) == [Txt("chmod"), Txt("+x"), Txt(file)];
    ExecutableArgs(file);
  }
}
