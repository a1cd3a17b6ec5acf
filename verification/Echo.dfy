/** The echo of the request: it holds a frame only if the caller's command does
    (internal/telnet/checked.go:41-59). */
module Echo {
  import opened Text
  import Shell
  import opened Telnet
  import opened Checked

  predicate Clean(s: string) { forall i :: 0 <= i < |s| ==> s[i] != RS && s[i] != US }

  lemma CleanQuote(s: string)
    requires Clean(s)
    ensures Clean(Shell.ShellQuote(s))
  {
    CleanEscape(s);
  }

  lemma {:induction false} CleanEscape(s: string)
    requires Clean(s)
    ensures Clean(Shell.EscapeQuotes(s))
    decreases |s|
  {
    if s != [] {
      CleanEscape(s[1..]);
      var head := if s[0] == '\'' then "'\"'\"'" else [s[0]];
      assert Clean(head);
    }
  }

  lemma CleanPrintf(format: string, name: string)
    requires Clean(format) && Clean(name)
    ensures Clean(PrintfText(format, name)) && Clean(Variable(name))
  {
    CleanQuote(format);
    assert Clean("printf" + " ") && Clean(Shell.ShellQuote(format) + " ") && Clean(Variable(name));
  }

  /** A string without quotes occurs in a quoted text exactly if it occurs in the
      text: the expansion of a quote can neither create nor straddle it. */
  lemma {:induction false} OccurrencesSurviveEscaping(w: string, s: string)
    requires w != [] && forall i :: 0 <= i < |w| ==> w[i] != '\'' && w[i] != '"'
    ensures Contains(Shell.EscapeQuotes(s), w) <==> Contains(s, w)
    decreases |s|
  {
    var e := Shell.EscapeQuotes(s);
    if s == [] {
      assert forall i :: !OccursAt(e, w, i) && !OccursAt(s, w, i);
    } else {
      var tail := Shell.EscapeQuotes(s[1..]);
      var head := if s[0] == '\'' then "'\"'\"'" else [s[0]];
      OccurrencesSurviveEscaping(w, s[1..]);
      HeadSurvivesEscaping(w, s);
      OccursBehind(head, tail, w, |head|);
      OccursBehind([s[0]], s[1..], w, 1);
      assert [s[0]] + s[1..] == s;
      if s[0] == '\'' {
        forall i | 0 <= i < |head| ensures !OccursAt(e, w, i) {
          assert i + |w| <= |e| ==> e[i..i + |w|][0] == head[i];
        }
        assert !OccursAt(s, w, 0) by {
          assert |w| <= |s| ==> s[0..0 + |w|][0] == '\'';
        }
      }
    }
  }

  /** Occurrences at or behind `n` are occurrences in the tail. */
  lemma OccursBehind(head: string, tail: string, w: string, n: nat)
    requires n == |head|
    ensures Contains(tail, w) <==> exists i :: n <= i && OccursAt(head + tail, w, i)
  {
    if Contains(tail, w) {
      var i :| OccursAt(tail, w, i);
      assert (head + tail)[n + i..n + i + |w|] == tail[i..i + |w|];
      assert OccursAt(head + tail, w, n + i);
    }
    if exists i :: n <= i && OccursAt(head + tail, w, i) {
      var i :| n <= i && OccursAt(head + tail, w, i);
      assert (head + tail)[i..i + |w|] == tail[i - n..i - n + |w|];
      assert OccursAt(tail, w, i - n);
    }
  }

  lemma {:induction false} HeadSurvivesEscaping(w: string, s: string)
    requires forall i :: 0 <= i < |w| ==> w[i] != '\'' && w[i] != '"'
    ensures OccursAt(Shell.EscapeQuotes(s), w, 0) <==> OccursAt(s, w, 0)
    decreases |w|
  {
    var e := Shell.EscapeQuotes(s);
    if w != [] && s != [] {
      if s[0] == '\'' {
        assert |w| <= |s| ==> s[0..0 + |w|][0] == '\'';
        assert |w| <= |e| ==> e[0..0 + |w|][0] == '\'';
      } else {
        HeadSurvivesEscaping(w[1..], s[1..]);
        HeadTail(w, s);
        HeadTail(w, e);
        assert e[1..] == Shell.EscapeQuotes(s[1..]);
      }
    }
  }

  lemma HeadTail(w: string, s: string)
    requires w != [] && s != []
    ensures OccursAt(s, w, 0) <==> s[0] == w[0] && OccursAt(s[1..], w[1..], 0)
  {
    if |w| <= |s| {
      assert s[0..0 + |w|] == [s[0]] + s[1..][0..0 + |w[1..]|];
      assert w == [w[0]] + w[1..];
    }
  }

  /** Between two clean texts, an occurrence that starts with RS and ends with US lies
      entirely in the middle. */
  lemma OccursInMiddle(a: string, m: string, b: string, w: string)
    requires Clean(a) && Clean(b) && |w| > 1 && w[0] == RS && w[|w| - 1] == US
    ensures Contains(a + m + b, w) <==> Contains(m, w)
  {
    var s := a + m + b;
    if Contains(s, w) {
      var i :| OccursAt(s, w, i);
      assert s[i] == s[i..i + |w|][0] && s[i + |w| - 1] == s[i..i + |w|][|w| - 1];
      assert |a| <= i && i + |w| - 1 < |a| + |m|;
      assert m[i - |a|..i - |a| + |w|] == s[i..i + |w|];
      assert OccursAt(m, w, i - |a|);
    }
    if Contains(m, w) {
      var i :| OccursAt(m, w, i);
      assert s[|a| + i..|a| + i + |w|] == m[i..i + |w|];
      assert OccursAt(s, w, |a| + i);
    }
  }

  lemma FormatsClean()
    ensures Clean(BEGIN_FORMAT) && Clean(END_FORMAT) && Clean("bs_m") && Clean("bs_status")
  {
  }

  lemma CleanConcat(a: string, b: string)
    requires Clean(a) && Clean(b)
    ensures Clean(a + b)
  {
  }

  const EVAL_OPEN := "( eval '"
  const EVAL_CLOSE := "' ); "

  lemma EvalCommandParts(command: string)
    ensures EvalCommand(command) == EVAL_OPEN + Shell.EscapeQuotes(command) + EVAL_CLOSE
    ensures Clean(EVAL_OPEN) && Clean(EVAL_CLOSE)
  {
    assert "( " + ("eval" + " ") + "'" == EVAL_OPEN;
    assert "'" + " " + ")" + "; " == EVAL_CLOSE;
  }

  lemma CleanAssignment(name: string, value: string)
    requires Clean(name) && Clean(value)
    ensures Clean(name + Shell.ShellQuote(value) + "; ") && Clean(name + "$?" + "; ")
  {
    CleanQuote(value);
    CleanThree(name, Shell.ShellQuote(value), "; ");
    CleanThree(name, "$?", "; ");
  }

  lemma CleanPrints(format: string, name: string, other: string)
    requires Clean(format) && Clean(name) && Clean(other)
    ensures Clean(PrintfText(format, name) + "; ") && Clean(PrintfText(format, name) + (" " + Variable(other)))
  {
    CleanPrintf(format, name);
    CleanPrintf(format, other);
    CleanConcat(PrintfText(format, name), "; ");
    CleanConcat(" ", Variable(other));
    CleanConcat(PrintfText(format, name), " " + Variable(other));
  }

  lemma CleanSaveStatus()
    ensures Clean(SaveStatus())
  {
    CleanConcat("bs_status=", "$?");
    CleanConcat("bs_status=" + "$?", "; ");
  }

  lemma CleanStatements(marker: string)
    requires ValidMarker(marker)
    ensures Clean(SetMarker(marker)) && Clean(PrintBegin()) && Clean(SaveStatus()) && Clean(PrintEnd())
  {
    CleanAssignment("bs_m=", marker);
    CleanSaveStatus();
    CleanFormats();
  }

  lemma CleanFormats()
    ensures Clean(PrintBegin()) && Clean(PrintEnd())
  {
    FormatsClean();
    CleanPrints(BEGIN_FORMAT, "bs_m", "bs_status");
    CleanPrints(END_FORMAT, "bs_m", "bs_status");
  }

  lemma RegroupMiddle(a: string, b: string, c: string, m: string, x: string, y: string, z: string)
    ensures a + b + (c + m + x) + y + z == (a + b + c) + m + (x + y + z)
  {
  }

  lemma CleanThree(a: string, b: string, c: string)
    requires Clean(a) && Clean(b) && Clean(c)
    ensures Clean(a + b + c)
  {
  }

  /** What the wrapper writes before and after the quoted command. */
  lemma WrapperAroundCommand(marker: string, command: string) returns (a: string, b: string)
    requires ValidMarker(marker)
    ensures Clean(a) && Clean(b)
    ensures Wrapped(marker, command) == a + Shell.EscapeQuotes(command) + b
  {
    CleanStatements(marker);
    EvalCommandParts(command);
    a, b := SetMarker(marker) + PrintBegin() + EVAL_OPEN, EVAL_CLOSE + SaveStatus() + PrintEnd();
    CleanThree(SetMarker(marker), PrintBegin(), EVAL_OPEN);
    CleanThree(EVAL_CLOSE, SaveStatus(), PrintEnd());
    RegroupMiddle(SetMarker(marker), PrintBegin(), EVAL_OPEN, Shell.EscapeQuotes(command),
                  EVAL_CLOSE, SaveStatus(), PrintEnd());
  }

  lemma BeginUnquoted(marker: string)
    requires ValidMarker(marker)
    ensures var w := Begin(marker); forall i :: 0 <= i < |w| ==> w[i] != '\'' && w[i] != '"'
  {
    var w := Begin(marker);
    forall i | 0 <= i < |w| ensures w[i] != '\'' && w[i] != '"' {
      if 0 < i <= |marker| { assert w[i] == marker[i - 1]; }
    }
  }

  lemma OccursInRequest(a: string, command: string, b: string, w: string)
    requires Clean(a) && Clean(b) && |w| > 1 && w[0] == RS && w[|w| - 1] == US
    requires forall i :: 0 <= i < |w| ==> w[i] != '\'' && w[i] != '"'
    ensures Contains(a + Shell.EscapeQuotes(command) + b, w) <==> Contains(command, w)
  {
    OccursInMiddle(a, Shell.EscapeQuotes(command), b, w);
    OccurrencesSurviveEscaping(w, command);
  }

  /** The request holds the begin frame exactly if the caller's command does: no echo
      of it can be taken for the shell's own frame. */
  lemma RequestHoldsNoFrame(marker: string, command: string)
    requires ValidMarker(marker)
    ensures Contains(Wrapped(marker, command), Begin(marker)) <==> Contains(command, Begin(marker))
  {
    var a, b := WrapperAroundCommand(marker, command);
    BeginUnquoted(marker);
    OccursInRequest(a, command, b, Begin(marker));
  }

  lemma OneLineStatements(nonce: seq<Byte>, command: string)
    requires !HasControl(command)
    ensures !HasControl(SetMarker(Marker(nonce))) && !HasControl(EvalCommand(command))
  {
    var marker := Marker(nonce);
    forall i | 0 <= i < |marker| ensures marker[i] !in {'\r', '\n', '\0'} {
      if 12 <= i < 12 + |HexText(nonce)| {
        assert marker[i] == HexText(nonce)[i - 12];
      }
    }
    Shell.NoControlQuote(marker);
    NoControlConcat("bs_m=", Shell.ShellQuote(marker));
    NoControlConcat("bs_m=" + Shell.ShellQuote(marker), "; ");
    Shell.NoControlEscape(command);
    EvalCommandParts(command);
    NoControlConcat(EVAL_OPEN, Shell.EscapeQuotes(command));
    NoControlConcat(EVAL_OPEN + Shell.EscapeQuotes(command), EVAL_CLOSE);
  }

  lemma OneLinePrintf(format: string, name: string, other: string)
    requires !HasControl(format) && !HasControl(name) && !HasControl(other)
    ensures !HasControl(PrintfText(format, name) + "; ")
    ensures !HasControl(PrintfText(format, name) + (" " + Variable(other)))
  {
    Shell.NoControlQuote(format);
    NoControlConcat("printf" + " ", Shell.ShellQuote(format) + " ");
    NoControlConcat(Shell.ShellQuote(format), " ");
    OneLineVariable(name);
    OneLineVariable(other);
    NoControlConcat("printf" + " " + (Shell.ShellQuote(format) + " "), Variable(name));
    NoControlConcat(PrintfText(format, name), "; ");
    NoControlConcat(" ", Variable(other));
    NoControlConcat(PrintfText(format, name), " " + Variable(other));
  }

  lemma OneLineVariable(name: string)
    requires !HasControl(name)
    ensures !HasControl(Variable(name))
  {
    NoControlConcat("\"$", name);
    NoControlConcat("\"$" + name, "\"");
  }

  lemma OneLineFormats()
    ensures !HasControl(BEGIN_FORMAT) && !HasControl(END_FORMAT) && !HasControl("bs_m") && !HasControl("bs_status")
    ensures !HasControl(SaveStatus())
  {
    NoControlConcat("bs_status=", "$?");
    NoControlConcat("bs_status=" + "$?", "; ");
  }

  /** The request is one physical line if the command is, so that an interactive shell
      prints no continuation prompt. */
  lemma RequestIsOneLine(nonce: seq<Byte>, command: string)
    requires !HasControl(command)
    ensures var request := Wrapped(Marker(nonce), command); '\r' !in request && '\n' !in request && '\0' !in request
  {
    var marker := Marker(nonce);
    OneLineStatements(nonce, command);
    OneLineFormats();
    OneLinePrintf(BEGIN_FORMAT, "bs_m", "bs_status");
    OneLinePrintf(END_FORMAT, "bs_m", "bs_status");
    NoControlConcat(SetMarker(marker), PrintBegin());
    NoControlConcat(SetMarker(marker) + PrintBegin(), EvalCommand(command));
    NoControlConcat(SetMarker(marker) + PrintBegin() + EvalCommand(command), SaveStatus());
    NoControlConcat(SetMarker(marker) + PrintBegin() + EvalCommand(command) + SaveStatus(), PrintEnd());
  }
}
