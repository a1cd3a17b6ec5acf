/** internal/scout/push_printf.go: how a payload is cut into fragment files, and
    how the size of a remote file is checked. */
module Fragments {
  import opened Text
  import opened Devices

  const CHUNK_SIZE: nat := 1024

  /** One push through the shell: what is sent, and the scratch directory it owns. */
  datatype Transfer = Transfer(data: seq<Byte>, scratch: string) {
    function Total(): nat {
      (|data| + CHUNK_SIZE - 1) / CHUNK_SIZE
    }

    /** Offset of the end of the first `n` fragments. */
    function Offset(n: nat): (end: nat)
      ensures end <= |data|
      ensures n >= Total() ==> end == |data|
    {
      if n * CHUNK_SIZE > |data| then |data| else n * CHUNK_SIZE
    }

    function Chunk(i: nat): (chunk: seq<Byte>)
      requires i < Total()
      ensures 0 < |chunk| <= CHUNK_SIZE
    {
      data[i * CHUNK_SIZE..Offset(i + 1)]
    }

    function Name(i: nat): string {
      scratch + "/" + Padded(i) + ".part"
    }
  }

  function Zeros(n: nat): string { seq(n, i => '0') }

  /** fmt.Sprintf("%06d", i) */
  function Padded(i: nat): string {
    var digits := Itoa(i);
    if |digits| < 6 then Zeros(6 - |digits|) + digits else digits
  }

  lemma {:induction false} ZerosKeepValue(n: nat, s: string)
    requires AllDigits(s)
    ensures AllDigits(Zeros(n) + s) && Numeral(Zeros(n) + s) == Numeral(s)
  {
    if n == 0 {
      assert Zeros(0) + s == s;
    } else {
      ZerosKeepValue(n - 1, s);
      NumeralLeadingZero(Zeros(n - 1) + s);
      assert Zeros(n) + s == ['0'] + (Zeros(n - 1) + s);
    }
  }

  lemma PaddedValue(i: nat)
    ensures AllDigits(Padded(i)) && Numeral(Padded(i)) == i && |Padded(i)| >= 6
  {
    var digits := Itoa(i);
    if |digits| < 6 {
      ZerosKeepValue(6 - |digits|, digits);
    }
  }

  lemma NameDigits(t: Transfer, i: nat)
    ensures var n := t.Name(i); |n| >= |t.scratch| + 6 && n[|t.scratch| + 1..|n| - 5] == Padded(i)
  {
  }

  /** Different fragments never share a file. */
  lemma NamesDiffer(t: Transfer, i: nat, j: nat)
    requires i != j
    ensures t.Name(i) != t.Name(j)
  {
    NameDigits(t, i);
    NameDigits(t, j);
    PaddedValue(i);
    PaddedValue(j);
  }

  lemma NameUnderScratch(t: Transfer, i: nat)
    ensures Under(t.Name(i), t.scratch)
  {
    assert t.Name(i) == (t.scratch + "/") + (Padded(i) + ".part");
  }

  lemma NameSendable(t: Transfer, i: nat)
    requires !HasControl(t.scratch)
    ensures !HasControl(t.Name(i))
  {
    PaddedValue(i);
    NoControlConcat(t.scratch, "/");
    NoControlConcat(t.scratch + "/", Padded(i));
    NoControlConcat(t.scratch + "/" + Padded(i), ".part");
  }

  /** checkFileSize, on the text that wc printed. */
  predicate SizeMatches(output: string, expected: nat) {
    var text := TrimSpace(output);
    text != [] && AllDigits(text) && Numeral(text) <= MAX_UINT64 && Numeral(text) == expected
  }

  /** The check accepts wc's answer, padded or not, exactly when the size agrees. */
  lemma SizeReplyMatches(padding: nat, size: nat, expected: nat)
    requires expected <= MAX_UINT64
    ensures SizeMatches(SizeReply(padding, size), expected) <==> size == expected
  {
    var core := Itoa(size);
    assert IsDigit(core[0]) && IsDigit(core[|core| - 1]);
    TrimSpaceAround(Blanks(padding), core, "\r\n");
  }

  predicate AllSpaces(s: string) { forall i :: 0 <= i < |s| ==> IsSpace(s[i]) }

  /** `output` is a numeral of `n` and nothing but blanks around it. */
  ghost predicate SaysSize(output: string, n: nat) {
    exists a, digits, b ::
      && output == a + digits + b && AllSpaces(a) && AllSpaces(b)
      && digits != [] && AllDigits(digits) && Numeral(digits) == n
  }

  /** Whatever text comes back, the check accepts exactly a numeral of the expected size. */
  lemma SizeMatchesIff(output: string, expected: nat)
    requires expected <= MAX_UINT64
    ensures SizeMatches(output, expected) <==> SaysSize(output, expected)
  {
    if SizeMatches(output, expected) {
      var a, b := TrimSpaceSplits(output);
      assert SaysSize(output, expected);
    }
    if SaysSize(output, expected) {
      var a, digits, b :|
        && output == a + digits + b && AllSpaces(a) && AllSpaces(b)
        && digits != [] && AllDigits(digits) && Numeral(digits) == expected;
      assert IsDigit(digits[0]) && IsDigit(digits[|digits| - 1]);
      TrimSpaceAround(a, digits, b);
    }
  }

  lemma TrimSpaceSplits(s: string) returns (a: string, b: string)
    ensures s == a + TrimSpace(s) + b && AllSpaces(a) && AllSpaces(b)
  {
    var r := TrimRight(s, SPACES);
    TrimLeftDrops(r);
    var k :| 0 <= k <= |r| && TrimLeft(r) == r[k..] && forall i :: 0 <= i < k ==> IsSpace(r[i]);
    a, b := r[..k], s[|r|..];
    forall i | 0 <= i < |b| ensures IsSpace(b[i]) {
      SpacesAreSpaces(s[|r| + i]);
    }
  }
}
