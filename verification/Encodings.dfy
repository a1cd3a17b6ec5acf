/** The encodings in which a file is printed (internal/scout/pull_printf.go:60-75, with
    the decoders of Go's standard library that it calls). */
module Encodings {
  import opened Text
  import Checked

  // ---------- hex (RFC 4648, section 8) ----------

  function HexValue(c: char): Option<nat> {
    if '0' <= c <= '9' then Some(c as int - '0' as int)
    else if 'a' <= c <= 'f' then Some(c as int - 'a' as int + 10)
    else if 'A' <= c <= 'F' then Some(c as int - 'A' as int + 10)
    else None
  }

  /** hex.DecodeString */
  function DecodeHex(s: string): Option<seq<Byte>> {
    if s == [] then Some([])
    else if |s| == 1 then None
    else
      match (HexValue(s[0]), HexValue(s[1]), DecodeHex(s[2..]))
      case (Some(hi), Some(lo), Some(rest)) => Some([16 * hi + lo] + rest)
      case _ => None
  }

  function Lower(s: string): string {
    seq(|s|, i requires 0 <= i < |s| => if 'A' <= s[i] <= 'F' then (s[i] as int + 32) as char else s[i])
  }

  /** Decoding succeeds exactly on the encodings, in either case. */
  lemma {:induction false} DecodeHexExact(s: string, data: seq<Byte>)
    ensures DecodeHex(s) == Some(data) <==> Lower(s) == Checked.HexText(data)
    decreases |s|
  {
    if s == [] {
      assert Lower(s) == [];
    } else if |s| == 1 {
      assert |Lower(s)| == 1;
    } else if data == [] {
      assert |Lower(s)| > 0;
    } else {
      DecodeHexExact(s[2..], data[1..]);
      HexPair(s[0], s[1], data[0]);
      assert Lower(s) == Lower(s[..2]) + Lower(s[2..]);
      assert Checked.HexText(data)
          == [Checked.HexDigit(data[0] / 16), Checked.HexDigit(data[0] % 16)] + Checked.HexText(data[1..]);
      assert Lower(s[..2]) == [Lower(s)[0], Lower(s)[1]];
      assert data == [data[0]] + data[1..];
      assert Lower(s)[2..] == Lower(s[2..]) && Checked.HexText(data)[2..] == Checked.HexText(data[1..]);
    }
  }

  lemma HexPair(a: char, b: char, v: Byte)
    ensures HexValue(a).Some? && HexValue(b).Some? && 16 * HexValue(a).value + HexValue(b).value == v
       <==> Lower([a, b]) == [Checked.HexDigit(v / 16), Checked.HexDigit(v % 16)]
  {
    assert Lower([a, b]) == [Lower([a])[0], Lower([b])[0]];
  }

  lemma LowerHex(data: seq<Byte>)
    ensures Lower(Checked.HexText(data)) == Checked.HexText(data)
  {
  }

  /** A character that is no hex digit spoils the whole text. */
  lemma {:induction false} AlienHex(s: string, i: nat)
    requires i < |s| && HexValue(s[i]).None?
    ensures DecodeHex(s).None?
    decreases |s|
  {
    if |s| > 1 && i >= 2 {
      AlienHex(s[2..], i - 2);
    }
  }

  // ---------- base64 (RFC 4648, section 4) ----------

  function Value64(c: char): Option<nat> {
    if 'A' <= c <= 'Z' then Some(c as int - 'A' as int)
    else if 'a' <= c <= 'z' then Some(c as int - 'a' as int + 26)
    else if '0' <= c <= '9' then Some(c as int - '0' as int + 52)
    else if c == '+' then Some(62)
    else if c == '/' then Some(63)
    else None
  }

  function Char64(n: nat): (c: char)
    requires n < 64
    ensures Value64(c) == Some(n) && c != '='
    ensures c !in {'#', '$', ' ', '\r', '\n'}
  {
    if n < 26 then ('A' as int + n) as char
    else if n < 52 then ('a' as int + n - 26) as char
    else if n < 62 then ('0' as int + n - 52) as char
    else if n == 62 then '+'
    else '/'
  }

  /** base64.StdEncoding.DecodeString on a text without line breaks: padding ends the
      text, and spare bits before it are ignored. */
  function Decode64(s: string): Option<seq<Byte>> {
    if s == [] then Some([])
    else if |s| < 4 then None
    else
      match (Value64(s[0]), Value64(s[1]))
      case (Some(a), Some(b)) =>
        if s[2] == '=' then
          if |s| == 4 && s[3] == '=' then Some([Byte1(a, b)]) else None
        else if s[3] == '=' then
          if |s| == 4 && Value64(s[2]).Some? then Some([Byte1(a, b), Byte2(b, Value64(s[2]).value)]) else None
        else
          (match (Value64(s[2]), Value64(s[3]), Decode64(s[4..]))
           case (Some(c), Some(d), Some(rest)) => Some([Byte1(a, b), Byte2(b, c), Byte3(c, d)] + rest)
           case _ => None)
      case _ => None
  }

  function Byte1(a: nat, b: nat): Byte { (a * 4 + b / 16) % 256 }

  function Byte2(b: nat, c: nat): Byte { (b % 16 * 16 + c / 4) % 256 }

  function Byte3(c: nat, d: nat): Byte { (c % 4 * 64 + d) % 256 }

  function Encode64(data: seq<Byte>): string {
    if data == [] then []
    else if |data| == 1 then [Char64(data[0] / 4), Char64(data[0] % 4 * 16), '=', '=']
    else
      var a, b := data[0], data[1];
      var head := [Char64(a / 4), Char64(a % 4 * 16 + b / 16)];
      if |data| == 2 then head + [Char64(b % 16 * 4), '=']
      else head + [Char64(b % 16 * 4 + data[2] / 64), Char64(data[2] % 64)] + Encode64(data[3..])
  }

  /** Three bytes come back from the four groups of six bits. */
  lemma Regrouped(a: Byte, b: Byte, c: Byte)
    ensures Byte1(a / 4, a % 4 * 16 + b / 16) == a
    ensures Byte2(a % 4 * 16 + b / 16, b % 16 * 4 + c / 64) == b
    ensures Byte3(b % 16 * 4 + c / 64, c % 64) == c
  {
  }

  lemma DecodeGroup(w: nat, x: nat, y: nat, z: nat, rest: string)
    requires w < 64 && x < 64 && y < 64 && z < 64 && Decode64(rest).Some?
    ensures Decode64([Char64(w), Char64(x), Char64(y), Char64(z)] + rest)
         == Some([Byte1(w, x), Byte2(x, y), Byte3(y, z)] + Decode64(rest).value)
  {
    var s := [Char64(w), Char64(x), Char64(y), Char64(z)] + rest;
    assert s[4..] == rest;
  }

  lemma DecodePadded(w: nat, x: nat, y: nat)
    requires w < 64 && x < 64 && y < 64
    ensures Decode64([Char64(w), Char64(x), '=', '=']) == Some([Byte1(w, x)])
    ensures Decode64([Char64(w), Char64(x), Char64(y), '=']) == Some([Byte1(w, x), Byte2(x, y)])
  {
  }

  lemma OneByte(a: Byte)
    ensures Decode64(Encode64([a])) == Some([a])
  {
    Regrouped(a, 0, 0);
    DecodePadded(a / 4, a % 4 * 16, 0);
  }

  lemma TwoBytes(a: Byte, b: Byte)
    ensures Decode64(Encode64([a, b])) == Some([a, b])
  {
    Regrouped(a, b, 0);
    DecodePadded(a / 4, a % 4 * 16 + b / 16, b % 16 * 4);
  }

  lemma ThreeBytes(a: Byte, b: Byte, c: Byte, rest: seq<Byte>)
    requires Decode64(Encode64(rest)) == Some(rest)
    ensures Decode64(Encode64([a, b, c] + rest)) == Some([a, b, c] + rest)
  {
    Regrouped(a, b, c);
    DecodeGroup(a / 4, a % 4 * 16 + b / 16, b % 16 * 4 + c / 64, c % 64, Encode64(rest));
    EncodeGroup(a, b, c, rest);
  }

  lemma EncodeGroup(a: Byte, b: Byte, c: Byte, rest: seq<Byte>)
    ensures Encode64([a, b, c] + rest)
         == [Char64(a / 4), Char64(a % 4 * 16 + b / 16), Char64(b % 16 * 4 + c / 64), Char64(c % 64)] + Encode64(rest)
  {
    assert ([a, b, c] + rest)[3..] == rest;
  }

  lemma {:induction false} Base64RoundTrip(data: seq<Byte>)
    ensures Decode64(Encode64(data)) == Some(data)
    decreases |data|
  {
    if |data| == 1 {
      OneByte(data[0]);
      assert data == [data[0]];
    } else if |data| == 2 {
      TwoBytes(data[0], data[1]);
      assert data == [data[0], data[1]];
    } else if data != [] {
      Base64RoundTrip(data[3..]);
      ThreeBytes(data[0], data[1], data[2], data[3..]);
      assert data == [data[0], data[1], data[2]] + data[3..];
    }
  }

  lemma Char64Value(c: char)
    requires Value64(c).Some?
    ensures Char64(Value64(c).value) == c
  {
  }

  /** The same digit with the last four, or two, of its bits cleared. */
  function Clear4(c: char): char { if Value64(c).Some? then Char64(Value64(c).value / 16 * 16) else c }

  function Clear2(c: char): char { if Value64(c).Some? then Char64(Value64(c).value / 4 * 4) else c }

  /** `s` with the spare bits cleared of the digit before its padding. */
  function Canonical(s: string): (r: string)
    ensures |r| == |s|
  {
    var n := |s|;
    if n < 4 || s[n - 1] != '=' then s
    else if s[n - 2] == '=' then s[..n - 3] + [Clear4(s[n - 3]), '=', '=']
    else s[..n - 2] + [Clear2(s[n - 2]), '=']
  }

  lemma CanonicalGroup(s: string)
    requires |s| >= 8
    ensures Canonical(s) == s[..4] + Canonical(s[4..])
  {
    var n, t := |s|, s[4..];
    assert t[|t| - 1] == s[n - 1] && t[|t| - 2] == s[n - 2] && t[|t| - 3] == s[n - 3];
    assert s[..n - 3] == s[..4] + t[..|t| - 3] && s[..n - 2] == s[..4] + t[..|t| - 2] && s == s[..4] + t;
  }

  lemma DecodeOne(w: char, x: char)
    ensures Decode64([w, x, '=', '='])
         == if Value64(w).None? || Value64(x).None? then None else Some([Byte1(Value64(w).value, Value64(x).value)])
  {
  }

  lemma DecodeTwo(w: char, x: char, y: char)
    requires y != '='
    ensures Decode64([w, x, y, '='])
         == if Value64(w).None? || Value64(x).None? || Value64(y).None? then None
            else Some([Byte1(Value64(w).value, Value64(x).value), Byte2(Value64(x).value, Value64(y).value)])
  {
  }

  lemma DecodeThree(w: char, x: char, y: char, z: char)
    requires y != '=' && z != '='
    ensures Decode64([w, x, y, z])
         == if Value64(w).None? || Value64(x).None? || Value64(y).None? || Value64(z).None? then None
            else Some([Byte1(Value64(w).value, Value64(x).value), Byte2(Value64(x).value, Value64(y).value),
                       Byte3(Value64(y).value, Value64(z).value)])
  {
    var s := [w, x, y, z];
    assert s[4..] == [] && Decode64([]) == Some([]);
    if Value64(w).Some? && Value64(x).Some? && Value64(y).Some? && Value64(z).Some? {
      Char64Value(w);
      Char64Value(x);
      Char64Value(y);
      Char64Value(z);
      DecodeGroup(Value64(w).value, Value64(x).value, Value64(y).value, Value64(z).value, []);
      assert s + [] == s;
      var bytes := [Byte1(Value64(w).value, Value64(x).value), Byte2(Value64(x).value, Value64(y).value),
                    Byte3(Value64(y).value, Value64(z).value)];
      assert bytes + [] == bytes;
    }
  }

  /** Spare bits do not matter. */
  lemma SpareFour(w: char, x: char, y: char, z: char)
    ensures Decode64(Canonical([w, x, y, z])) == Decode64([w, x, y, z])
  {
    var s := [w, x, y, z];
    assert s[..1] == [w] && s[..2] == [w, x];
    if z == '=' && y == '=' {
      assert Canonical(s) == [w, Clear4(x), '=', '='];
      DecodeOne(w, x);
      DecodeOne(w, Clear4(x));
    } else if z == '=' {
      assert Canonical(s) == [w, x, Clear2(y), '='];
      DecodeTwo(w, x, y);
      DecodeTwo(w, x, Clear2(y));
    }
  }

  lemma GroupDecides(s: string)
    requires |s| > 4
    ensures Decode64(s)
         == (var head := Decode64(s[..4]);
             if head.None? || |head.value| != 3 || Decode64(s[4..]).None? then None
             else Some(head.value + Decode64(s[4..]).value))
  {
    assert s[..4] == [s[0], s[1], s[2], s[3]];
    if s[2] == '=' && s[3] == '=' {
      DecodeOne(s[0], s[1]);
    } else if s[3] == '=' {
      DecodeTwo(s[0], s[1], s[2]);
    } else if s[2] != '=' {
      DecodeThree(s[0], s[1], s[2], s[3]);
    }
  }

  lemma ShortTail(s: string)
    requires 4 < |s| < 8
    ensures Decode64(s).None? && Decode64(Canonical(s)).None?
  {
    GroupDecides(s);
    GroupDecides(Canonical(s));
  }

  lemma {:induction false} SpareIgnored(s: string)
    ensures Decode64(Canonical(s)) == Decode64(s)
    decreases |s|
  {
    if |s| == 4 {
      assert s == [s[0], s[1], s[2], s[3]];
      SpareFour(s[0], s[1], s[2], s[3]);
    } else if 4 < |s| < 8 {
      ShortTail(s);
    } else if |s| >= 8 {
      CanonicalGroup(s);
      GroupDecides(s);
      GroupDecides(Canonical(s));
      SpareIgnored(s[4..]);
      assert Canonical(s)[..4] == s[..4] && Canonical(s)[4..] == Canonical(s[4..]);
    }
  }

  /** What the three bytes of a group take from its digits. */
  lemma FirstByte(a: nat, b: nat)
    requires a < 64 && b < 64
    ensures Byte1(a, b) / 4 == a && Byte1(a, b) % 4 == b / 16
  {
    assert Byte1(a, b) == 4 * a + b / 16;
  }

  lemma SecondByte(b: nat, c: nat)
    requires b < 64 && c < 64
    ensures Byte2(b, c) / 16 == b % 16 && Byte2(b, c) % 16 == c / 4
  {
    assert Byte2(b, c) == 16 * (b % 16) + c / 4;
  }

  lemma ThirdByte(c: nat, d: nat)
    requires c < 64 && d < 64
    ensures Byte3(c, d) / 64 == c % 4 && Byte3(c, d) % 64 == d
  {
    assert Byte3(c, d) == 64 * (c % 4) + d;
  }

  lemma EncodedOne(a: nat, b: nat)
    requires a < 64 && b < 64
    ensures Encode64([Byte1(a, b)]) == [Char64(a), Char64(b / 16 * 16), '=', '=']
  {
    FirstByte(a, b);
  }

  lemma EncodedTwo(a: nat, b: nat, c: nat)
    requires a < 64 && b < 64 && c < 64
    ensures Encode64([Byte1(a, b), Byte2(b, c)]) == [Char64(a), Char64(b), Char64(c / 4 * 4), '=']
  {
    var x, y := Byte1(a, b), Byte2(b, c);
    FirstByte(a, b);
    SecondByte(b, c);
    assert Encode64([x, y]) == [Char64(x / 4), Char64(x % 4 * 16 + y / 16), Char64(y % 16 * 4), '='];
  }

  lemma OneEncoded(w: char, x: char)
    requires Decode64([w, x, '=', '=']).Some?
    ensures Canonical([w, x, '=', '=']) == Encode64(Decode64([w, x, '=', '=']).value)
  {
    DecodeOne(w, x);
    EncodedOne(Value64(w).value, Value64(x).value);
    Char64Value(w);
    assert Canonical([w, x, '=', '=']) == [w, Clear4(x), '=', '='];
  }

  lemma TwoEncoded(w: char, x: char, y: char)
    requires y != '=' && Decode64([w, x, y, '=']).Some?
    ensures Canonical([w, x, y, '=']) == Encode64(Decode64([w, x, y, '=']).value)
  {
    DecodeTwo(w, x, y);
    EncodedTwo(Value64(w).value, Value64(x).value, Value64(y).value);
    Char64Value(w);
    Char64Value(x);
    assert Canonical([w, x, y, '=']) == [w, x, Clear2(y), '='];
  }

  lemma ThreeEncoded(w: char, x: char, y: char, z: char, rest: seq<Byte>)
    requires y != '=' && z != '=' && Decode64([w, x, y, z]).Some?
    ensures Encode64(Decode64([w, x, y, z]).value + rest) == [w, x, y, z] + Encode64(rest)
  {
    DecodeThree(w, x, y, z);
    var a, b, c, d := Value64(w).value, Value64(x).value, Value64(y).value, Value64(z).value;
    Char64Value(w);
    Char64Value(x);
    Char64Value(y);
    Char64Value(z);
    EncodeGroup(Byte1(a, b), Byte2(b, c), Byte3(c, d), rest);
    FirstByte(a, b);
    SecondByte(b, c);
    ThirdByte(c, d);
  }

  lemma LastEncoded(s: string)
    requires |s| == 4 && Decode64(s).Some?
    ensures Canonical(s) == Encode64(Decode64(s).value)
  {
    assert s == [s[0], s[1], s[2], s[3]];
    if s[3] != '=' {
      ThreeEncoded(s[0], s[1], s[2], s[3], []);
      assert Decode64(s).value + [] == Decode64(s).value && s + [] == s;
    } else if s[2] == '=' {
      OneEncoded(s[0], s[1]);
    } else {
      TwoEncoded(s[0], s[1], s[2]);
    }
  }

  lemma {:induction false} DecodedIsEncoded(s: string)
    requires Decode64(s).Some?
    ensures Canonical(s) == Encode64(Decode64(s).value)
    decreases |s|
  {
    if |s| == 4 {
      LastEncoded(s);
    } else if |s| > 4 {
      GroupDecides(s);
      if |s| < 8 {
        ShortTail(s);
      }
      CanonicalGroup(s);
      DecodedIsEncoded(s[4..]);
      GroupEncoded(s[..4], Decode64(s[4..]).value);
    }
  }

  lemma GroupEncoded(s: string, rest: seq<Byte>)
    requires |s| == 4 && Decode64(s).Some? && |Decode64(s).value| == 3
    ensures Encode64(Decode64(s).value + rest) == s + Encode64(rest)
  {
    assert s == [s[0], s[1], s[2], s[3]];
    ThreeEncoded(s[0], s[1], s[2], s[3], rest);
  }

  /** Decoding gives a byte string exactly on its encoding, spare bits aside. */
  lemma Decode64Exact(s: string, data: seq<Byte>)
    ensures Decode64(s) == Some(data) <==> Canonical(s) == Encode64(data)
  {
    if Decode64(s).Some? {
      DecodedIsEncoded(s);
    }
    SpareIgnored(s);
    Base64RoundTrip(data);
  }

  /** The length of the encoding of `n` bytes. */
  function Groups64(n: nat): nat { if n == 0 then 0 else if n <= 3 then 4 else 4 + Groups64(n - 3) }

  lemma Group64(s: string)
    requires Decode64(s).Some? && |s| > 4
    ensures Decode64(s[4..]).Some? && |Decode64(s).value| == 3 + |Decode64(s[4..]).value|
  {
  }

  lemma LastGroup64(s: string)
    requires Decode64(s).Some? && 0 < |s| <= 4
    ensures |s| == 4 && 1 <= |Decode64(s).value| <= 3
  {
    if |s| == 4 {
      assert s[4..] == [];
    }
  }

  lemma {:induction false} Length64(s: string)
    requires Decode64(s).Some?
    ensures |s| == Groups64(|Decode64(s).value|)
    decreases |s|
  {
    if |s| > 4 {
      Group64(s);
      Length64(s[4..]);
    } else if s != [] {
      LastGroup64(s);
    }
  }

  /** A character outside the alphabet spoils the whole text. */
  lemma {:induction false} Alien64(s: string, i: nat)
    requires i < |s| && Value64(s[i]).None? && s[i] != '='
    ensures Decode64(s).None?
    decreases |s|
  {
    if i >= 4 {
      Alien64(s[4..], i - 4);
    }
  }

  lemma {:induction false} Encode64Chars(data: seq<Byte>)
    ensures forall i :: 0 <= i < |Encode64(data)| ==> Encode64(data)[i] !in {'#', '$', ' ', '\r', '\n'}
    decreases |data|
  {
    if |data| >= 3 {
      Encode64Chars(data[3..]);
    }
  }
}
