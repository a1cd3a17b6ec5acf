/** Byte strings: searching, trimming and decimal numerals, as Go's `strings`,
    `bytes` and `strconv` packages define them. A character stands for one byte. */
module Text {

  datatype Option<+T> = None | Some(value: T)

  type Byte = b: int | 0 <= b < 256

  lemma Regroup<T>(a: seq<T>, b: seq<T>, c: seq<T>)
    ensures a + (b + c) == a + b + c
  {
  }

  // ---------- searching ----------

  predicate OccursAt(s: string, pat: string, i: int) {
    0 <= i && i + |pat| <= |s| && s[i..i + |pat|] == pat
  }

  ghost predicate Contains(s: string, pat: string) {
    exists i :: OccursAt(s, pat, i)
  }

  /** bytes.HasSuffix */
  predicate HasSuffix(s: string, suffix: string) {
    |s| >= |suffix| && s[|s| - |suffix|..] == suffix
  }

  lemma OccursInPrefix(s: string, n: nat, pat: string, i: int)
    requires n <= |s|
    ensures OccursAt(s[..n], pat, i) <==> OccursAt(s, pat, i) && i + |pat| <= n
  {
    if 0 <= i && i + |pat| <= n {
      assert s[..n][i..i + |pat|] == s[i..i + |pat|];
    }
  }

  /** First occurrence of `pat` at or after `from`, or -1. */
  function IndexFrom(s: string, pat: string, from: nat): (r: int)
    requires from <= |s| + 1
    ensures r == -1 ==> forall i :: from <= i ==> !OccursAt(s, pat, i)
    ensures r != -1 ==> from <= r && OccursAt(s, pat, r)
    ensures forall i :: from <= i < r ==> !OccursAt(s, pat, i)
    decreases |s| + 1 - from
  {
    if from + |pat| > |s| then -1
    else if OccursAt(s, pat, from) then from
    else IndexFrom(s, pat, from + 1)
  }

  /** strings.Index */
  function Index(s: string, pat: string): (r: int)
    ensures r == -1 <==> !Contains(s, pat)
    ensures r != -1 ==> OccursAt(s, pat, r) && forall i :: OccursAt(s, pat, i) ==> r <= i
  {
    IndexFrom(s, pat, 0)
  }

  /** Last occurrence of `pat` at or before `last`, or -1. */
  function LastIndexTo(s: string, pat: string, last: int): (r: int)
    requires -1 <= last <= |s|
    ensures r == -1 ==> forall i :: i <= last ==> !OccursAt(s, pat, i)
    ensures r != -1 ==> r <= last && OccursAt(s, pat, r)
    ensures forall i :: r < i <= last ==> !OccursAt(s, pat, i)
    decreases last + 1
  {
    if last == -1 then -1
    else if OccursAt(s, pat, last) then last
    else LastIndexTo(s, pat, last - 1)
  }

  /** strings.LastIndex, bytes.LastIndex */
  function LastIndex(s: string, pat: string): (r: int)
    ensures r == -1 <==> !Contains(s, pat)
    ensures r != -1 ==> OccursAt(s, pat, r) && forall i :: OccursAt(s, pat, i) ==> i <= r
  {
    LastIndexTo(s, pat, |s|)
  }

  /** strings.ContainsAny(s, "\r\n\x00") */
  predicate HasControl(s: string) {
    exists i :: 0 <= i < |s| && s[i] in {'\r', '\n', '\0'}
  }

  lemma NoControlConcat(a: string, b: string)
    requires !HasControl(a) && !HasControl(b)
    ensures !HasControl(a + b)
  {
    forall i | 0 <= i < |a + b| ensures (a + b)[i] !in {'\r', '\n', '\0'} {
      if i >= |a| { assert (a + b)[i] == b[i - |a|]; }
    }
  }

  // ---------- trimming ----------

  /** The ASCII bytes that bytes.TrimSpace removes. */
  predicate IsSpace(c: char) {
    c == ' ' || 9 <= c as int <= 13
  }

  function TrimLeft(s: string): (r: string)
    ensures r == [] || !IsSpace(r[0])
  {
    if s == [] || !IsSpace(s[0]) then s else TrimLeft(s[1..])
  }

  lemma {:induction false} TrimLeftDrops(s: string)
    ensures exists k :: 0 <= k <= |s| && TrimLeft(s) == s[k..] && forall i :: 0 <= i < k ==> IsSpace(s[i])
  {
    if s == [] || !IsSpace(s[0]) {
      assert s == s[0..];
    } else {
      TrimLeftDrops(s[1..]);
      var k :| 0 <= k <= |s[1..]| && TrimLeft(s[1..]) == s[1..][k..] && forall i :: 0 <= i < k ==> IsSpace(s[1..][i]);
      assert TrimLeft(s) == s[k + 1..];
      forall i | 0 <= i < k + 1 ensures IsSpace(s[i]) {
        if i > 0 { assert s[i] == s[1..][i - 1]; }
      }
    }
  }

  /** bytes.TrimRight(s, cutset) */
  function TrimRight(s: string, cutset: set<char>): (r: string)
    ensures r <= s
    ensures r == [] || r[|r| - 1] !in cutset
    ensures forall i :: |r| <= i < |s| ==> s[i] in cutset
  {
    if s != [] && s[|s| - 1] in cutset then TrimRight(s[..|s| - 1], cutset) else s
  }

  const SPACES: set<char> := {' ', '\t', '\n', 11 as char, 12 as char, '\r'}

  function TrimSpace(s: string): string {
    TrimLeft(TrimRight(s, SPACES))
  }

  lemma SpacesAreSpaces(c: char)
    ensures c in SPACES <==> IsSpace(c)
  {
    if IsSpace(c) && c != ' ' {
      assert c == (c as int) as char;
    }
  }

  /** Trimming removes exactly the blanks around a core that has none at its ends. */
  lemma TrimSpaceAround(before: string, core: string, after: string)
    requires forall i :: 0 <= i < |before| ==> IsSpace(before[i])
    requires forall i :: 0 <= i < |after| ==> IsSpace(after[i])
    requires core != [] && !IsSpace(core[0]) && !IsSpace(core[|core| - 1])
    ensures TrimSpace(before + core + after) == core
  {
    var s := before + core + after;
    var r := TrimRight(s, SPACES);
    var n := |before| + |core|;
    SpacesAreSpaces(s[n - 1]);
    assert s[n - 1] == core[|core| - 1];
    assert |r| >= n;
    if |r| > n {
      assert r[|r| - 1] == s[|r| - 1] == after[|r| - 1 - n];
      SpacesAreSpaces(after[|r| - 1 - n]);
    }
    assert r == before + core;
    TrimLeftDrops(r);
    var k :| 0 <= k <= |r| && TrimLeft(r) == r[k..] && forall i :: 0 <= i < k ==> IsSpace(r[i]);
    assert r[|before|] == core[0];
    assert k <= |before| && forall i :: 0 <= i < |before| ==> r[i] == before[i];
    assert k == |before|;
    assert r[|before|..] == core;
  }

  // ---------- decimal numerals ----------

  predicate IsDigit(c: char) { '0' <= c <= '9' }

  predicate AllDigits(s: string) { forall i :: 0 <= i < |s| ==> IsDigit(s[i]) }

  function DigitValue(c: char): nat
    requires IsDigit(c)
  {
    c as int - '0' as int
  }

  function DigitChar(n: nat): (c: char)
    requires n < 10
    ensures IsDigit(c) && DigitValue(c) == n
  {
    ('0' as int + n) as char
  }

  function Numeral(s: string): nat
    requires AllDigits(s)
  {
    if s == [] then 0 else 10 * Numeral(s[..|s| - 1]) + DigitValue(s[|s| - 1])
  }

  /** strconv.Itoa on a non-negative integer. */
  function Itoa(n: nat): (s: string)
    ensures s != [] && AllDigits(s) && Numeral(s) == n
    ensures |s| > 1 ==> s[0] != '0'
  {
    if n < 10 then [DigitChar(n)]
    else
      var r := Itoa(n / 10) + [DigitChar(n % 10)];
      assert r[..|r| - 1] == Itoa(n / 10);
      r
  }

  /** Leading zeros do not change a numeral. */
  lemma {:induction false} NumeralLeadingZero(s: string)
    requires AllDigits(s)
    ensures AllDigits(['0'] + s) && Numeral(['0'] + s) == Numeral(s)
  {
    if s == [] {
      assert ['0'][..0] == [];
      assert Numeral(['0']) == 10 * Numeral(['0'][..0]) + DigitValue('0');
      assert ['0'] + s == ['0'];
    } else {
      NumeralLeadingZero(s[..|s| - 1]);
      assert (['0'] + s)[..|s|] == ['0'] + s[..|s| - 1];
    }
  }

  const MAX_INT64: int := 0x7fff_ffff_ffff_ffff
  const MAX_UINT64: int := 0xffff_ffff_ffff_ffff

  /** strconv.Atoi: an optional sign, at least one digit, and the int64 range. */
  function Atoi(s: string): Option<int> {
    var signed := s != [] && (s[0] == '+' || s[0] == '-');
    var digits := if signed then s[1..] else s;
    if digits == [] || !AllDigits(digits) then None
    else
      var n: int := Numeral(digits);
      var v := if signed && s[0] == '-' then -n else n;
      if -MAX_INT64 - 1 <= v <= MAX_INT64 then Some(v) else None
  }

  lemma AtoiItoa(n: nat)
    requires n <= MAX_INT64
    ensures Atoi(Itoa(n)) == Some(n)
  {
    assert IsDigit(Itoa(n)[0]);
  }
}
