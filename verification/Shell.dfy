/** The shell language BusyScout writes in: the quoting it applies, and an
    independent lexer and printf for POSIX.1-2017 Shell Command Language
    (token recognition, section 2.3; quoting, section 2.2). */
module Shell {
  import opened Text

  // ---------- what BusyScout writes ----------

  /** strings.ReplaceAll(value, "'", "'\"'\"'") */
  function EscapeQuotes(value: string): string {
    if value == [] then []
    else (if value[0] == '\'' then "'\"'\"'" else [value[0]]) + EscapeQuotes(value[1..])
  }

  function ShellQuote(value: string): string {
    "'" + EscapeQuotes(value) + "'"
  }

  // ---------- how a POSIX shell reads it ----------

  /** A character of a word: taken literally, or starting an expansion. */
  datatype Piece = Lit(c: char) | Active(c: char)

  datatype Token = Word(pieces: seq<Piece>) | Op(text: string)

  datatype Mode = Plain | Single | Double | Escaped | DoubleEscaped | Comment | Operator(first: char)

  /** `word` is the word being built, `tokens` the finished ones. */
  datatype Lexer = Lexer(mode: Mode, word: Option<seq<Piece>>, tokens: seq<Token>) {
    function Open(): Lexer {
      if word.Some? then this else this.(word := Some([]))
    }

    function Add(ps: seq<Piece>): Lexer {
      this.(word := Some((if word.Some? then word.value else []) + ps))
    }

    function Flush(): Lexer {
      if word.Some? then this.(word := None, tokens := tokens + [Word(word.value)]) else this
    }

    function Emit(op: string): Lexer {
      this.(tokens := tokens + [Op(op)])
    }
  }

  const START := Lexer(Plain, None, [])

  predicate IsOperator(c: char) { c in {';', '&', '|', '<', '>', '(', ')', '\n'} }

  /** Operators of two characters are recognised greedily. */
  predicate IsOperatorPair(a: char, b: char) {
    || (a == b && a in {'&', '|', ';', '<', '>'})
    || (a == '<' && b in {'&', '>'})
    || (a == '>' && b in {'&', '|'})
  }

  predicate IsExpansion(c: char) { c in {'$', '`', '*', '?', '[', '~'} }

  /** Characters that an unquoted word takes literally wherever they stand. */
  predicate IsOrdinary(c: char) {
    !IsOperator(c) && !IsExpansion(c) && c !in {'\'', '"', '\\', ' ', '\t', '#'}
  }

  predicate AllOrdinary(s: string) { forall i :: 0 <= i < |s| ==> IsOrdinary(s[i]) }

  function PlainStep(l: Lexer, c: char): Lexer {
    if c == '\'' then l.Open().(mode := Single)
    else if c == '"' then l.Open().(mode := Double)
    else if c == '\\' then l.(mode := Escaped)
    else if c == ' ' || c == '\t' then l.Flush()
    else if c == '#' && l.word.None? then l.(mode := Comment)
    else if c == '(' || c == ')' || c == '\n' then l.Flush().Emit([c])
    else if IsOperator(c) then l.Flush().(mode := Operator(c))
    else if IsExpansion(c) then l.Add([Active(c)])
    else l.Add([Lit(c)])
  }

  function Step(l: Lexer, c: char): Lexer {
    match l.mode
    case Plain => PlainStep(l, c)
    case Single => if c == '\'' then l.(mode := Plain) else l.Add([Lit(c)])
    case Double =>
      if c == '"' then l.(mode := Plain)
      else if c == '\\' then l.(mode := DoubleEscaped)
      else if c == '$' || c == '`' then l.Add([Active(c)])
      else l.Add([Lit(c)])
    case Escaped => if c == '\n' then l.(mode := Plain) else l.Add([Lit(c)]).(mode := Plain)
    case DoubleEscaped =>
      var d := l.(mode := Double);
      if c == '\n' then d
      else if c in {'$', '`', '"', '\\'} then d.Add([Lit(c)])
      else d.Add([Lit('\\'), Lit(c)])
    case Comment => if c == '\n' then l.(mode := Plain).Emit("\n") else l
    case Operator(o) =>
      if IsOperatorPair(o, c) then l.(mode := Plain).Emit([o, c])
      else PlainStep(l.(mode := Plain).Emit([o]), c)
  }

  function Run(l: Lexer, s: string): Lexer
    decreases |s|
  {
    if s == [] then l else Run(Step(l, s[0]), s[1..])
  }

  function Finish(l: Lexer): Option<seq<Token>> {
    match l.mode
    case Plain | Comment => Some(l.Flush().tokens)
    case Operator(o) => Some(l.Emit([o]).tokens)
    case _ => None
  }

  /** The tokens of a complete command, or None when a quote is left open. */
  function Lex(s: string): Option<seq<Token>> {
    Finish(Run(START, s))
  }

  function Lits(s: string): seq<Piece> {
    seq(|s|, i requires 0 <= i < |s| => Lit(s[i]))
  }

  /** A word that undergoes no expansion, with its literal value. */
  function Literal(t: Token): Option<string> {
    if t.Word? && forall i :: 0 <= i < |t.pieces| ==> t.pieces[i].Lit?
    then Some(seq(|t.pieces|, i requires 0 <= i < |t.pieces| => t.pieces[i].c))
    else None
  }

  lemma LiteralOfLits(s: string)
    ensures Literal(Word(Lits(s))) == Some(s)
  {
    assert Literal(Word(Lits(s))).value == s;
  }

  // ---------- lexing pieces of text ----------

  lemma {:induction false} RunConcat(l: Lexer, a: string, b: string)
    ensures Run(l, a + b) == Run(Run(l, a), b)
    decreases |a|
  {
    if a == [] {
      assert a + b == b;
    } else {
      assert (a + b)[1..] == a[1..] + b;
      RunConcat(Step(l, a[0]), a[1..], b);
    }
  }

  lemma LitsCons(s: string)
    requires s != []
    ensures Lits(s) == [Lit(s[0])] + Lits(s[1..])
  {
  }

  lemma {:induction false} RunOrdinary(l: Lexer, w: string)
    requires l.mode == Plain && AllOrdinary(w) && w != []
    ensures Run(l, w) == l.Add(Lits(w))
    decreases |w|
  {
    var next := Step(l, w[0]);
    LitsCons(w);
    assert next == l.Add([Lit(w[0])]);
    if |w| == 1 {
      assert w[1..] == [];
      assert Lits(w) == [Lit(w[0])];
    } else {
      RunOrdinary(next, w[1..]);
      assert next.word.value + Lits(w[1..]) == l.Add(Lits(w)).word.value;
    }
  }

  lemma {:induction false} RunEscaped(l: Lexer, s: string)
    requires l.mode == Single && l.word.Some?
    ensures Run(l, EscapeQuotes(s)) == l.Add(Lits(s))
    decreases |s|
  {
    if s == [] {
      assert l.word.value + Lits(s) == l.word.value;
    } else {
      var head := if s[0] == '\'' then "'\"'\"'" else [s[0]];
      var next := l.Add([Lit(s[0])]);
      assert Run(l, head) == next by {
        if s[0] == '\'' {
          RunReopen(l);
        } else {
          assert head[1..] == [];
        }
      }
      RunConcat(l, head, EscapeQuotes(s[1..]));
      RunEscaped(next, s[1..]);
      LitsCons(s);
      assert next.word.value + Lits(s[1..]) == l.word.value + Lits(s);
    }
  }

  /** Closing the quotes, a double-quoted quote, and opening them again. */
  lemma RunReopen(l: Lexer)
    requires l.mode == Single && l.word.Some?
    ensures Run(l, "'\"'\"'") == l.Add([Lit('\'')])
  {
    var s := "'\"'\"'";
    var l1 := Step(l, '\'');
    var l2 := Step(l1, '"');
    var l3 := Step(l2, '\'');
    var l4 := Step(l3, '"');
    var l5 := Step(l4, '\'');
    assert s[1..] == "\"'\"'" && s[1..][1..] == "'\"'" && s[1..][1..][1..] == "\"'" && s[1..][1..][1..][1..] == "'";
    calc {
      Run(l, s);
      Run(l1, "\"'\"'");
      Run(l2, "'\"'");
      Run(l3, "\"'");
      Run(l4, "'");
      Run(l5, []);
    }
    assert l5 == l.Add([Lit('\'')]);
  }

  /** The heart of quoting: in any unquoted position a quoted value extends the
      current word by exactly that value, and leaves the position unquoted. */
  lemma RunQuoted(l: Lexer, value: string)
    requires l.mode == Plain
    ensures Run(l, ShellQuote(value)) == l.Add(Lits(value))
  {
    var quoting := Step(l, '\'');
    assert "'"[1..] == [];
    assert Run(l, "'") == quoting;
    RunConcat(l, "'", EscapeQuotes(value));
    RunConcat(l, "'" + EscapeQuotes(value), "'");
    RunEscaped(quoting, value);
    var inside := quoting.Add(Lits(value));
    assert Run(inside, "'") == Step(inside, '\'');
    assert inside.word == l.Add(Lits(value)).word;
  }

  // ---------- command lines ----------

  /** A simple command is a line of items separated by single blanks. */
  datatype Item = Bare(text: string) | Quoted(value: string) | Redirect(op: string)

  predicate ValidItem(item: Item) {
    match item
    case Bare(text) => text != [] && AllOrdinary(text)
    case Quoted(_) => true
    case Redirect(op) => op in {"<", ">", ">>", ";"}
  }

  function ItemText(item: Item): string {
    match item
    case Bare(text) => text
    case Quoted(value) => ShellQuote(value)
    case Redirect(op) => op
  }

  function ItemToken(item: Item): Token {
    match item
    case Bare(text) => Word(Lits(text))
    case Quoted(value) => Word(Lits(value))
    case Redirect(op) => Op(op)
  }

  function Line(items: seq<Item>): string
    requires items != []
  {
    if |items| == 1 then ItemText(items[0]) else ItemText(items[0]) + " " + Line(items[1..])
  }

  function ItemTokens(items: seq<Item>): seq<Token> {
    seq(|items|, i requires 0 <= i < |items| => ItemToken(items[i]))
  }

  /** After one item, the end of the line and a blank both finish its token. */
  lemma RunItem(l: Lexer, item: Item)
    requires ValidItem(item) && l.mode == Plain && l.word == None
    ensures Finish(Run(l, ItemText(item))) == Some(l.tokens + [ItemToken(item)])
    ensures Step(Run(l, ItemText(item)), ' ') == l.(tokens := l.tokens + [ItemToken(item)])
  {
    match item
    case Bare(text) =>
      RunOrdinary(l, text);
      assert [] + Lits(text) == Lits(text);
    case Quoted(value) =>
      RunQuoted(l, value);
      assert [] + Lits(value) == Lits(value);
    case Redirect(op) => RunRedirect(l, op);
  }

  lemma RunRedirect(l: Lexer, op: string)
    requires op in {"<", ">", ">>", ";"} && l.mode == Plain && l.word == None
    ensures Finish(Run(l, op)) == Some(l.tokens + [Op(op)])
    ensures Step(Run(l, op), ' ') == l.(tokens := l.tokens + [Op(op)])
  {
    var one := Step(l, op[0]);
    assert one == l.(mode := Operator(op[0]));
    if op == ">>" {
      assert op[1..] == ">" && ">"[1..] == [];
      assert Run(l, op) == Run(one, ">") == Step(one, '>');
      assert [op[0], '>'] == ">>";
    } else {
      assert op[1..] == [];
      assert Run(l, op) == one;
      assert [op[0]] == op && !IsOperatorPair(op[0], ' ');
    }
  }

  lemma {:induction false} RunLine(l: Lexer, items: seq<Item>)
    requires items != [] && forall i :: 0 <= i < |items| ==> ValidItem(items[i])
    requires l.mode == Plain && l.word == None
    ensures Finish(Run(l, Line(items))) == Some(l.tokens + ItemTokens(items))
    ensures Step(Run(l, Line(items)), ' ') == l.(tokens := l.tokens + ItemTokens(items))
    decreases |items|
  {
    RunItem(l, items[0]);
    if |items| == 1 {
      assert ItemTokens(items) == [ItemToken(items[0])];
    } else {
      var first, rest := ItemText(items[0]), Line(items[1..]);
      var next := l.(tokens := l.tokens + [ItemToken(items[0])]);
      RunConcat(l, first, " " + rest);
      assert first + (" " + rest) == first + " " + rest;
      assert (" " + rest)[1..] == rest;
      RunLine(next, items[1..]);
      assert next.tokens + ItemTokens(items[1..]) == l.tokens + ItemTokens(items);
    }
  }

  /** Every line of valid items is lexed into exactly those items. */
  lemma LexLine(items: seq<Item>)
    requires items != [] && forall i :: 0 <= i < |items| ==> ValidItem(items[i])
    ensures Lex(Line(items)) == Some(ItemTokens(items))
  {
    RunLine(START, items);
    assert [] + ItemTokens(items) == ItemTokens(items);
  }

  lemma {:induction false} LineConcat(a: seq<Item>, b: seq<Item>)
    requires a != [] && b != []
    ensures Line(a + b) == Line(a) + " " + Line(b)
    decreases |a|
  {
    var s := a + b;
    if |a| == 1 {
      assert s[1..] == b;
    } else {
      assert s[1..] == a[1..] + b;
      LineConcat(a[1..], b);
      ThreeSpaced(ItemText(a[0]), Line(a[1..]), Line(b));
    }
  }

  /** A blank at the end of a line changes nothing. */
  lemma LexLineBlank(items: seq<Item>)
    requires items != [] && forall i :: 0 <= i < |items| ==> ValidItem(items[i])
    ensures Lex(Line(items) + " ") == Some(ItemTokens(items))
  {
    RunLine(START, items);
    RunConcat(START, Line(items), " ");
    assert " "[1..] == [] && [] + ItemTokens(items) == ItemTokens(items);
  }

  /** A ";" ends the word before it, and is its own token. */
  lemma RunTerminated(l: Lexer, b: string, tail: string)
    requires l.mode == Plain && l.word == None && b != [] && AllOrdinary(b)
    ensures Run(l, b + ("; " + tail)) == Run(l.(tokens := l.tokens + [Word(Lits(b)), Op(";")]), tail)
  {
    RunConcat(l, b, "; " + tail);
    RunOrdinary(l, b);
    assert [] + Lits(b) == Lits(b);
    var open := l.Add(Lits(b));
    assert ("; " + tail)[1..] == " " + tail && (" " + tail)[1..] == tail;
    assert !IsOperatorPair(';', ' ');
    assert Step(Step(open, ';'), ' ').tokens == l.tokens + [Word(Lits(b)), Op(";")];
  }

  lemma RunFirstWord(a: string, tail: string)
    requires a != [] && AllOrdinary(a)
    ensures Run(START, a + (" " + tail)) == Run(START.(tokens := [Word(Lits(a))]), tail)
  {
    RunConcat(START, a, " " + tail);
    RunItem(START, Bare(a));
    assert (" " + tail)[1..] == tail;
    assert [] + [Word(Lits(a))] == [Word(Lits(a))];
  }

  /** Two commands on one line. */
  lemma LexThen(a: string, b: string, rest: seq<Item>)
    requires a != [] && AllOrdinary(a) && b != [] && AllOrdinary(b)
    requires rest != [] && forall i :: 0 <= i < |rest| ==> ValidItem(rest[i])
    ensures Lex(a + (" " + (b + ("; " + Line(rest))))) == Some([Word(Lits(a)), Word(Lits(b)), Op(";")] + ItemTokens(rest))
  {
    RunFirstWord(a, b + ("; " + Line(rest)));
    RunTerminated(START.(tokens := [Word(Lits(a))]), b, Line(rest));
    var l := START.(tokens := [Word(Lits(a)), Word(Lits(b)), Op(";")]);
    assert l.tokens == [Word(Lits(a))] + [Word(Lits(b)), Op(";")];
    RunLine(l, rest);
  }

  lemma Line3(a: Item, b: Item, c: Item)
    ensures Line([a, b, c]) == ItemText(a) + " " + ItemText(b) + " " + ItemText(c)
  {
    assert [a, b, c][1..] == [b, c] && [b, c][1..] == [c];
    assert Line([b, c]) == ItemText(b) + " " + ItemText(c);
    ThreeSpaced(ItemText(a), ItemText(b), ItemText(c));
  }

  lemma ThreeSpaced(a: string, b: string, c: string)
    ensures a + " " + (b + " " + c) == a + " " + b + " " + c
  {
  }

  lemma Line4(a: Item, b: Item, c: Item, d: Item)
    ensures Line([a, b, c, d]) == ItemText(a) + " " + ItemText(b) + " " + ItemText(c) + " " + ItemText(d)
  {
    Line3(b, c, d);
    assert [a, b, c, d][1..] == [b, c, d];
    FourSpaced(ItemText(a), ItemText(b), ItemText(c), ItemText(d));
  }

  lemma FourSpaced(a: string, b: string, c: string, d: string)
    ensures a + " " + (b + " " + c + " " + d) == a + " " + b + " " + c + " " + d
  {
  }

  // ---------- theorems about quoting ----------

  /** A quoted value is one word with exactly that literal value. */
  lemma QuoteIsOneLiteralWord(value: string)
    ensures Lex(ShellQuote(value)) == Some([Word(Lits(value))])
    ensures Literal(Word(Lits(value))) == Some(value)
  {
    RunQuoted(START, value);
    LiteralOfLits(value);
    assert [] + Lits(value) == Lits(value);
    assert [] + [Word(Lits(value))] == [Word(Lits(value))];
  }

  /** Quoting is injective: different operands are never written alike. */
  lemma QuoteInjective(a: string, b: string)
    requires ShellQuote(a) == ShellQuote(b)
    ensures a == b
  {
    QuoteIsOneLiteralWord(a);
    QuoteIsOneLiteralWord(b);
    assert Some([Word(Lits(a))]) == Some([Word(Lits(b))]);
    assert [Word(Lits(a))][0] == [Word(Lits(b))][0];
  }

  /** Each value preceded by a blank and quoted, as joinChunks writes them. */
  function QuotedOperands(values: seq<string>): string {
    if values == [] then [] else " " + ShellQuote(values[0]) + QuotedOperands(values[1..])
  }

  function QuotedItems(values: seq<string>): seq<Item> {
    seq(|values|, i requires 0 <= i < |values| => Quoted(values[i]))
  }

  lemma {:induction false} LineOfOperands(head: Item, values: seq<string>, rest: seq<Item>)
    requires rest != []
    ensures Line([head] + QuotedItems(values) + rest) == ItemText(head) + QuotedOperands(values) + " " + Line(rest)
    decreases |values|
  {
    var items := [head] + QuotedItems(values) + rest;
    if values == [] {
      assert items == [head] + rest && items[1..] == rest;
    } else {
      assert items[1..] == [Quoted(values[0])] + QuotedItems(values[1..]) + rest;
      LineOfOperands(Quoted(values[0]), values[1..], rest);
      Spaced(ItemText(head), ShellQuote(values[0]), QuotedOperands(values[1..]), Line(rest));
    }
  }

  lemma Spaced(a: string, q: string, r: string, z: string)
    ensures a + " " + (q + r + " " + z) == a + (" " + q + r) + " " + z
  {
  }

  // ---------- control bytes ----------

  lemma {:induction false} NoControlEscape(s: string)
    requires !HasControl(s)
    ensures !HasControl(EscapeQuotes(s))
    decreases |s|
  {
    if s != [] {
      var tail := s[1..];
      assert !HasControl(tail) by {
        forall i | 0 <= i < |tail| ensures tail[i] !in {'\r', '\n', '\0'} { assert tail[i] == s[i + 1]; }
      }
      NoControlEscape(tail);
      NoControlConcat(if s[0] == '\'' then "'\"'\"'" else [s[0]], EscapeQuotes(tail));
    }
  }

  lemma NoControlQuote(s: string)
    requires !HasControl(s)
    ensures !HasControl(ShellQuote(s))
  {
    NoControlEscape(s);
    NoControlConcat("'", EscapeQuotes(s));
    NoControlConcat("'" + EscapeQuotes(s), "'");
  }

  /** Quoting hides nothing: a control byte of the value is one of the command. */
  lemma {:induction false} ControlInEscape(s: string)
    requires HasControl(s)
    ensures HasControl(EscapeQuotes(s))
    decreases |s|
  {
    var head, tail := if s[0] == '\'' then "'\"'\"'" else [s[0]], s[1..];
    if s[0] in {'\r', '\n', '\0'} {
      assert (head + EscapeQuotes(tail))[0] == s[0];
    } else {
      assert HasControl(tail) by {
        var i :| 0 <= i < |s| && s[i] in {'\r', '\n', '\0'};
        assert tail[i - 1] == s[i];
      }
      ControlInEscape(tail);
      var i :| 0 <= i < |EscapeQuotes(tail)| && EscapeQuotes(tail)[i] in {'\r', '\n', '\0'};
      assert (head + EscapeQuotes(tail))[|head| + i] == EscapeQuotes(tail)[i];
    }
  }

  lemma ControlInQuote(before: string, value: string)
    requires HasControl(value)
    ensures HasControl(before + ShellQuote(value))
  {
    ControlInEscape(value);
    var i :| 0 <= i < |EscapeQuotes(value)| && EscapeQuotes(value)[i] in {'\r', '\n', '\0'};
    assert (before + ShellQuote(value))[|before| + 1 + i] == EscapeQuotes(value)[i];
  }

  // ---------- printf ----------

  predicate IsOctal(c: char) { '0' <= c <= '7' }

  /** Length of the octal escape at the head of `s`: one, two or three digits. */
  function OctalRun(s: string): (n: nat)
    ensures n <= 3 && n <= |s|
    ensures forall i :: 0 <= i < n ==> IsOctal(s[i])
    ensures n < 3 && n < |s| ==> !IsOctal(s[n])
  {
    if s == [] || !IsOctal(s[0]) then 0
    else if |s| == 1 || !IsOctal(s[1]) then 1
    else if |s| == 2 || !IsOctal(s[2]) then 2
    else 3
  }

  function OctalDigit(c: char): nat
    requires IsOctal(c)
  {
    c as int - '0' as int
  }

  function OctalValue(s: string): nat
    requires forall i :: 0 <= i < |s| ==> IsOctal(s[i])
  {
    if s == [] then 0 else 8 * OctalValue(s[..|s| - 1]) + OctalDigit(s[|s| - 1])
  }

  /** The printf utility (POSIX.1-2017, printf, EXTENDED DESCRIPTION), for the
      escapes and conversions that BusyScout's formats use. */
  function Printf(format: string, args: seq<string>): Option<string>
    decreases |format|
  {
    if format == [] then Some([])
    else if format[0] == '\\' then
      var digits := OctalRun(format[1..]);
      if digits > 0 then
        Then([(OctalValue(format[1..][..digits]) % 256) as char], Printf(format[1..][digits..], args))
      else if |format| > 1 && format[1] == 'n' then Then("\n", Printf(format[2..], args))
      else if |format| > 1 && format[1] == '\\' then Then("\\", Printf(format[2..], args))
      else None
    else if format[0] == '%' then
      if |format| > 1 && format[1] == 's' then
        if args == [] then Printf(format[2..], args)
        else Then(args[0], Printf(format[2..], args[1..]))
      else if |format| > 1 && format[1] == '%' then Then("%", Printf(format[2..], args))
      else None
    else Then([format[0]], Printf(format[1..], args))
  }

  function Then(head: string, tail: Option<string>): Option<string> {
    if tail.Some? then Some(head + tail.value) else None
  }

  predicate PlainFormat(s: string) { forall i :: 0 <= i < |s| ==> s[i] != '\\' && s[i] != '%' }

  lemma {:induction false} PrintfPlain(s: string, rest: string, args: seq<string>)
    requires PlainFormat(s)
    ensures Printf(s + rest, args) == Then(s, Printf(rest, args))
    decreases |s|
  {
    if s == [] {
      assert s + rest == rest;
      if Printf(rest, args).Some? { assert s + Printf(rest, args).value == Printf(rest, args).value; }
    } else {
      assert (s + rest)[1..] == s[1..] + rest;
      PrintfPlain(s[1..], rest, args);
      if Printf(rest, args).Some? {
        assert [s[0]] + (s[1..] + Printf(rest, args).value) == s + Printf(rest, args).value;
      }
    }
  }

  lemma PrintfArgument(rest: string, args: seq<string>)
    requires args != []
    ensures Printf("%s" + rest, args) == Then(args[0], Printf(rest, args[1..]))
  {
    assert ("%s" + rest)[2..] == rest;
  }

  lemma PrintfOctal(digits: string, rest: string, args: seq<string>)
    requires |digits| == 3 && IsOctal(digits[0]) && IsOctal(digits[1]) && IsOctal(digits[2])
    ensures Printf("\\" + digits + rest, args)
         == Then([(OctalValue(digits) % 256) as char], Printf(rest, args))
  {
    var format := "\\" + digits + rest;
    assert format[1..] == digits + rest;
    assert format[1..][..3] == digits;
    assert format[1..][3..] == rest;
  }
}
