/** The number conversions of `printf` that build on `itoa`. */
module Printf {
  import opened Bytes
  import KernelStrings
  import opened Numbers

  /** What `puts` writes for the string at an index. */
  method Puts(buf: array<Byte>, at: nat) returns (printed: seq<Byte>)
    requires at <= buf.Length && NUL in buf[at..]
    ensures printed == CString(buf[at..])
  {
    ghost var s := buf[at..];
    printed := [];
    var index := 0;
    while buf[at + index] != NUL
      invariant at + index < buf.Length && index <= |CString(s)| < |s|
      invariant printed == s[..index]
      decreases buf.Length - index
    {
      printed := printed + [buf[at + index]];
      index := index + 1;
    }
    assert s[index] == NUL && forall j :: 0 <= j < |CString(s)| ==> s[j] == CString(s)[j] && s[j] != NUL;
  }

  ghost function Zeros(n: nat): (r: seq<Byte>)
    ensures |r| == n
  {
    seq<Byte>(n, i => ZERO)
  }

  lemma {:induction false} ZerosAddNothing(n: nat, s: seq<Byte>, radix: nat)
    ensures Value(Zeros(n) + s, radix) == Value(s, radix)
    decreases n + |s|
  {
    if s != [] {
      var k := |s| - 1;
      ZerosAddNothing(n, s[..k], radix);
      assert s[..k] + [s[k]] == s && Zeros(n) + s == (Zeros(n) + s[..k]) + [s[k]];
      ValueSnoc(Zeros(n) + s[..k], s[k], radix);
      ValueSnoc(s[..k], s[k], radix);
    } else if n > 0 {
      ZerosAddNothing(n - 1, [], radix);
      assert Zeros(n) + [] == (Zeros(n - 1) + []) + [ZERO];
      ValueSnoc(Zeros(n - 1) + [], ZERO, radix);
    } else {
      assert Zeros(0) + [] == [];
    }
  }

  /** What stands in a buffer after a splice. */
  lemma SplicedString(before: seq<Byte>, at: nat, text: seq<Byte>)
    requires at + |text| < |before| && NUL !in text
    ensures var r := Spliced(before, at, text + [NUL]); NUL in r[at..] && CString(r[at..]) == text
  {
    var r := Spliced(before, at, text + [NUL]);
    assert r[at..][..|text|] == text && r[at..][|text|] == NUL;
    CStringUnique(r[at..], text);
  }

  /** `%#x`: exactly eight hexadecimal digits, padded with zeros on the left. The zeros go to the front of the buffer,
      before the digits at index 8, and the text is printed from the middle of them. */
  method PutAlternateHex(value: nat) returns (printed: seq<Byte>)
    requires value < TWO_32
    ensures |Text(value, 16)| <= 8 && |printed| == 8
    ensures printed == Zeros(8 - |Text(value, 16)|) + Text(value, 16)
    ensures Value(printed, 16) == value
  {
    hide Text, CString, Spliced;
    var convBuf := new Byte[64];
    HexLength(value);
    TextDigits(value, 16);
    ghost var before, text := convBuf[..], Text(value, 16);
    Itoa(value, convBuf, 8, 16);
    SplicedString(before, 8, text);
    assert convBuf[..][8..] == convBuf[8..];
    var startingIndex := KernelStrings.Strlen(convBuf[8..]);
    ghost var tail := convBuf[8..];
    var i := startingIndex;
    while i < 8
      invariant startingIndex <= i <= 8
      invariant forall j :: startingIndex <= j < i ==> convBuf[j] == ZERO
      invariant convBuf[8..] == tail
    {
      convBuf[i] := ZERO;
      i := i + 1;
    }
    ghost var zeros := Zeros(8 - startingIndex);
    assert convBuf[startingIndex..] == zeros + tail;
    PrefixedString(zeros, tail);
    printed := Puts(convBuf, startingIndex);
    ZerosAddNothing(8 - startingIndex, text, 16);
    TextValue(value, 16);
  }

  lemma PrefixedString(s: seq<Byte>, tail: seq<Byte>)
    requires NUL !in s && NUL in tail
    ensures NUL in s + tail && CString(s + tail) == s + CString(tail)
  {
    assert (s + tail)[|s| + |CString(tail)|] == NUL;
    CStringUnique(s + tail, s + CString(tail));
  }

  lemma TextDigits(v: nat, radix: nat)
    requires 2 <= radix <= 36
    ensures |Text(v, radix)| == |Digits(v, radix)|
  {
  }

  lemma DecimalLength(v: nat)
    requires v < TWO_32
    ensures |Text(v, 10)| <= 10
  {
    assert Pow(10, 1) == 10 && Pow(10, 2) == 100 && Pow(10, 3) == 1000 && Pow(10, 4) == 10000;
    assert Pow(10, 5) == 10 * Pow(10, 4) && Pow(10, 6) == 10 * Pow(10, 5) && Pow(10, 7) == 10 * Pow(10, 6);
    assert Pow(10, 8) == 10 * Pow(10, 7) && Pow(10, 9) == 10 * Pow(10, 8) && Pow(10, 10) == 10 * Pow(10, 9);
    TextLength(v, 10, 10);
  }

  ghost function SignedText(value: int): seq<Byte> {
    if value < 0 then [MINUS] + Text(-value, 10) else Text(value, 10)
  }

  ghost function SignedValue(s: seq<Byte>): int {
    if s != [] && s[0] == MINUS then -Value(s[1..], 10) else Value(s, 10)
  }

  /** `%d`, for every 32-bit value; the smallest one is negated to an unsigned 2^31. */
  method PutSigned(value: int) returns (printed: seq<Byte>)
    requires -TWO_31 <= value < TWO_31
    ensures printed == SignedText(value)
  {
    hide Text, CString, Spliced;
    var convBuf := new Byte[36];
    if value < 0 {
      DecimalLength(-value);
      convBuf[0] := MINUS;
      ghost var before := convBuf[..];
      Itoa(-value, convBuf, 1, 10);
      SplicedString(before, 1, Text(-value, 10));
      FrontKept(before, 1, Text(-value, 10) + [NUL]);
      assert convBuf[0..] == [MINUS] + convBuf[..][1..];
      PrefixedString([MINUS], convBuf[..][1..]);
    } else {
      DecimalLength(value);
      ghost var before := convBuf[..];
      Itoa(value, convBuf, 0, 10);
      SplicedString(before, 0, Text(value, 10));
      assert convBuf[..][0..] == convBuf[0..];
    }
    printed := Puts(convBuf, 0);
  }

  lemma FrontKept(before: seq<Byte>, at: nat, s: seq<Byte>)
    requires at + |s| <= |before|
    ensures Spliced(before, at, s)[..at] == before[..at]
  {
  }

  /** The signed text evaluates back to the value. */
  lemma SignedRoundTrip(value: int)
    ensures SignedValue(SignedText(value)) == value
  {
    TextValue(if value < 0 then -value else value, 10);
    if value < 0 {
      assert SignedText(value)[1..] == Text(-value, 10);
    } else {
      assert Text(value, 10)[0] == DigitChar(Digits(value, 10)[0]);
    }
  }
}
