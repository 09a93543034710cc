/** Number formatting: `itoa`, and the `%#x` and `%d` conversions of `printf`. */
module Numbers {
  import opened Bytes
  import opened KernelStrings

  const ZERO: Byte := 48
  const MINUS: Byte := 45

  /** The lookup table of digit characters: 0 to 9, then A to Z. */
  function DigitChar(d: int): (c: Byte)
    requires 0 <= d < 36
  {
    if d < 10 then 48 + d else 55 + d
  }

  const DIGITS := "0123456789ABCDEFGHIJKLMNOPQRSTUVWXYZ"

  lemma DigitTable(d: int)
    requires 0 <= d < 36
    ensures DigitChar(d) as char == DIGITS[d]
  {
  }

  ghost function DigitValue(c: Byte): int {
    if c < 58 then c - 48 else c - 55
  }

  function Quotient(v: nat, radix: nat): (q: nat)
    requires radix >= 2
    ensures v > 0 ==> q < v
    ensures v < radix <==> q == 0
  {
    Euclid(v, radix);
    v / radix
  }

  function Remainder(v: nat, radix: nat): (r: nat)
    requires radix >= 2
    ensures r < radix
    ensures v < radix ==> r == v
  {
    Euclid(v, radix);
    v % radix
  }

  /** The digits of a number, most significant first. */
  ghost function Digits(v: nat, radix: nat): (ds: seq<int>)
    requires radix >= 2
    ensures ds != [] && forall i :: 0 <= i < |ds| ==> 0 <= ds[i] < radix
  {
    if v < radix then [v]
    else Digits(Quotient(v, radix), radix) + [Remainder(v, radix)]
  }

  ghost function Chars(ds: seq<int>): (r: seq<Byte>)
    requires forall i :: 0 <= i < |ds| ==> 0 <= ds[i] < 36
    ensures |r| == |ds|
  {
    seq(|ds|, i requires 0 <= i < |ds| => DigitChar(ds[i]))
  }

  /** The text of a number. */
  ghost function Text(v: nat, radix: nat): (r: seq<Byte>)
    requires 2 <= radix <= 36
    ensures r != [] && NUL !in r
  {
    Chars(Digits(v, radix))
  }

  /** The number that a text stands for, whatever leading zeros it has. */
  ghost function Value(s: seq<Byte>, radix: nat): int {
    if s == [] then 0 else Value(s[..|s| - 1], radix) * radix + DigitValue(s[|s| - 1])
  }

  // ----- round trips -----

  lemma CharsSnoc(ds: seq<int>, d: int)
    requires 0 <= d < 36 && forall i :: 0 <= i < |ds| ==> 0 <= ds[i] < 36
    ensures Chars(ds + [d]) == Chars(ds) + [DigitChar(d)]
  {
  }

  lemma ValueSnoc(s: seq<Byte>, c: Byte, radix: nat)
    ensures Value(s + [c], radix) == Value(s, radix) * radix + DigitValue(c)
  {
    assert (s + [c])[..|s|] == s;
  }

  lemma Euclid(v: nat, radix: nat)
    requires radix >= 2
    ensures v == v / radix * radix + v % radix && 0 <= v % radix < radix
    ensures v > 0 ==> v / radix < v
    ensures v < radix <==> v / radix == 0
  {
    QuotientFacts(v, radix, v / radix, v % radix);
  }

  lemma QuotientFacts(v: nat, radix: nat, q: int, r: int)
    requires radix >= 2 && v == radix * q + r && 0 <= r < radix
    ensures q >= 0 && (v > 0 ==> q < v) && (v < radix <==> q == 0)
  {
    if q >= 1 {
      Product(radix, q);
    } else {
      assert q <= -1 ==> radix * -q >= radix;
    }
  }

  lemma Product(a: nat, b: nat)
    requires a >= 2 && b >= 1
    ensures a * b >= a && a * b >= 2 * b
  {
  }

  lemma TextUnfold(v: nat, radix: nat)
    requires 2 <= radix <= 36
    ensures v < radix ==> Text(v, radix) == [DigitChar(v)]
    ensures v >= radix ==> Text(v, radix) == Text(Quotient(v, radix), radix) + [DigitChar(Remainder(v, radix))]
  {
    hide Quotient, Remainder;
    if v >= radix {
      CharsSnoc(Digits(Quotient(v, radix), radix), Remainder(v, radix));
    }
  }

  lemma DigitRoundTrip(d: int)
    requires 0 <= d < 36
    ensures DigitValue(DigitChar(d)) == d
  {
  }

  /** The text of a number evaluates to it, so different numbers have different texts. */
  lemma {:induction false} TextValue(v: nat, radix: nat)
    requires 2 <= radix <= 36
    ensures Value(Text(v, radix), radix) == v
  {
    hide Text, Digits, DigitChar, DigitValue;
    TextUnfold(v, radix);
    if v < radix {
      ValueSnoc([], DigitChar(v), radix);
      assert [] + [DigitChar(v)] == [DigitChar(v)] && Value([], radix) == 0;
      DigitRoundTrip(v);
    } else {
      Euclid(v, radix);
      TextValue(Quotient(v, radix), radix);
      hide Value;
      ValueSnoc(Text(Quotient(v, radix), radix), DigitChar(Remainder(v, radix)), radix);
      DigitRoundTrip(Remainder(v, radix));
    }
  }

  /** No text starts with a zero, except the text of zero. */
  lemma {:induction false} NoLeadingZero(v: nat, radix: nat)
    requires radix >= 2
    ensures Digits(v, radix)[0] == 0 <==> v == 0
    ensures v == 0 ==> |Digits(v, radix)| == 1
  {
    hide Quotient, Remainder;
    if v >= radix {
      NoLeadingZero(Quotient(v, radix), radix);
    }
  }

  /** A text of digits without a leading zero is the text of its value: `Text` and `Value` are inverse to each
      other. */
  lemma {:induction false} ValueText(ds: seq<int>, radix: nat)
    requires 2 <= radix <= 36 && ds != [] && (forall i :: 0 <= i < |ds| ==> 0 <= ds[i] < radix)
    requires |ds| > 1 ==> ds[0] != 0
    ensures Value(Chars(ds), radix) >= 0 && Digits(Value(Chars(ds), radix), radix) == ds
  {
    var n := |ds| - 1;
    var d := ds[n];
    assert ds == ds[..n] + [d];
    CharsSnoc(ds[..n], d);
    ValueSnoc(Chars(ds[..n]), DigitChar(d), radix);
    if n == 0 {
      assert Chars(ds[..n]) == [] && Value(Chars(ds[..n]), radix) == 0;
    } else {
      ValueText(ds[..n], radix);
      var q := Value(Chars(ds[..n]), radix);
      NoLeadingZero(q, radix);
      DivideBack(q, d, radix);
    }
  }

  lemma DivideBack(q: nat, d: nat, radix: nat)
    requires d < radix && q >= 1
    ensures (q * radix + d) / radix == q && (q * radix + d) % radix == d && q * radix + d >= radix
  {
    var x := q * radix + d;
    var e: int := x / radix - q;
    assert radix * e == d - x % radix;
    assert e >= 1 ==> radix * e >= radix;
    assert e <= -1 ==> radix * -e >= radix;
    assert q * radix >= radix;
  }

  ghost function Pow(b: nat, k: nat): nat {
    if k == 0 then 1 else b * Pow(b, k - 1)
  }

  lemma {:induction false} TextLength(v: nat, radix: nat, k: nat)
    requires radix >= 2 && k >= 1 && v < Pow(radix, k)
    ensures |Digits(v, radix)| <= k
  {
    if v >= radix {
      assert k > 1 by {
        assert Pow(radix, 1) == radix * Pow(radix, 0) == radix;
      }
      var p, q := Pow(radix, k - 1), Quotient(v, radix);
      Euclid(v, radix);
      ProductBelow(q, p, radix, v);
      TextLength(q, radix, k - 1);
    }
  }

  lemma ProductBelow(q: nat, p: nat, radix: nat, v: nat)
    requires q * radix <= v < radix * p
    ensures q < p
  {
    assert q >= p ==> q * radix >= p * radix;
  }

  lemma HexLength(v: nat)
    requires v < TWO_32
    ensures |Digits(v, 16)| <= 8
  {
    assert Pow(16, 1) == 16 && Pow(16, 2) == 256 && Pow(16, 3) == 4096 && Pow(16, 4) == 65536;
    assert Pow(16, 5) == 16 * Pow(16, 4) && Pow(16, 6) == 16 * Pow(16, 5);
    assert Pow(16, 7) == 16 * Pow(16, 6) && Pow(16, 8) == 16 * Pow(16, 7);
    TextLength(v, 16, 8);
  }

  // ----- the conversion -----

  /** The digits as the loop produces them, least significant first. */
  ghost function LowFirst(v: nat, radix: nat): (r: seq<Byte>)
    requires 2 <= radix <= 36
    decreases v
  {
    if v == 0 then []
    else [DigitChar(Remainder(v, radix))] + LowFirst(Quotient(v, radix), radix)
  }

  ghost function Reversed(s: seq<Byte>): (r: seq<Byte>)
    ensures |r| == |s|
  {
    seq<Byte>(|s|, i requires 0 <= i < |s| => s[|s| - 1 - i])
  }

  lemma {:induction false} LowFirstReversed(v: nat, radix: nat)
    requires 2 <= radix <= 36 && v > 0
    ensures Reversed(LowFirst(v, radix)) == Text(v, radix)
  {
    hide Text, DigitChar, Quotient, Remainder;
    TextUnfold(v, radix);
    if v >= radix {
      LowFirstReversed(Quotient(v, radix), radix);
      ReversedCons(DigitChar(Remainder(v, radix)), LowFirst(Quotient(v, radix), radix));
    } else {
      assert LowFirst(v, radix) == [DigitChar(v)];
    }
  }

  lemma ReversedCons(c: Byte, s: seq<Byte>)
    ensures Reversed([c] + s) == Reversed(s) + [c]
  {
  }

  /** Replaces the `|s|` bytes of a buffer at an index. */
  ghost function Spliced(buf: seq<Byte>, at: nat, s: seq<Byte>): (r: seq<Byte>)
    requires at + |s| <= |buf|
    ensures |r| == |buf|
  {
    buf[..at] + s + buf[at + |s|..]
  }

  lemma SplicedIs(before: seq<Byte>, after: seq<Byte>, at: nat, s: seq<Byte>)
    requires |after| == |before| && at + |s| <= |before|
    requires forall j :: at <= j < at + |s| ==> after[j] == s[j - at]
    requires forall j :: 0 <= j < at || at + |s| <= j < |after| ==> after[j] == before[j]
    ensures after == Spliced(before, at, s)
  {
  }

  /** Reverses the string at `at` in place. */
  method Strrev(buf: array<Byte>, at: nat)
    requires at <= buf.Length && NUL in buf[at..]
    modifies buf
    ensures buf[..] == Spliced(old(buf[..]), at, Reversed(CString(old(buf[at..]))))
  {
    hide Spliced, Reversed;
    ghost var s := CString(buf[at..]);
    ghost var before := buf[..];
    assert before[at..] == buf[at..];
    hide CString;
    ghost var target := Spliced(before, at, Reversed(s));
    var end: int := Strlen(buf[at..]);
    ghost var n: int := end;
    end := end - 1;
    var beg := 0;
    while beg < end
      invariant 0 <= beg <= n && end == n - 1 - beg && beg <= end + 2
      invariant forall j :: at <= j < at + beg ==> buf[j] == target[j]
      invariant forall j :: at + end < j < at + n ==> buf[j] == target[j]
      invariant forall j :: 0 <= j < at || at + beg <= j <= at + end || at + n <= j < buf.Length ==> buf[j] == before[j]
    {
      var tmp := buf[at + end];
      buf[at + end] := buf[at + beg];
      buf[at + beg] := tmp;
      MirroredAt(before, at, s, beg);
      MirroredAt(before, at, s, end);
      beg := beg + 1;
      end := end - 1;
    }
    if beg == end {
      MirroredAt(before, at, s, beg);
    }
    OutsideSplice(before, at, Reversed(s));
    assert forall j :: 0 <= j < buf.Length ==> buf[j] == target[j];
  }

  lemma MirroredAt(before: seq<Byte>, at: nat, s: seq<Byte>, i: nat)
    requires at <= |before| && s == CString(before[at..]) && i < |s|
    ensures at + |s| <= |before|
    ensures Spliced(before, at, Reversed(s))[at + i] == before[at + |s| - 1 - i]
  {
    assert s[|s| - 1 - i] == before[at..][|s| - 1 - i];
  }

  lemma OutsideSplice(before: seq<Byte>, at: nat, s: seq<Byte>)
    requires at + |s| <= |before|
    ensures forall j :: 0 <= j < at || at + |s| <= j < |before| ==> Spliced(before, at, s)[j] == before[j]
  {
  }

  /** Writes the text of a number and a NUL at `at`. */
  method Itoa(value: nat, buf: array<Byte>, at: nat, radix: nat)
    requires value < TWO_32 && 2 <= radix <= 36 && at + |Text(value, radix)| < buf.Length
    modifies buf
    ensures buf[..] == Spliced(old(buf[..]), at, Text(value, radix) + [NUL])
  {
    hide Text, DigitChar;
    if value == 0 {
      TextUnfold(0, radix);
      ZeroChar();
      buf[at] := ZERO;
      buf[at + 1] := NUL;
      return;
    }
    ghost var before := buf[..];
    ghost var low := LowFirst(value, radix);
    LowFirstReversed(value, radix);
    NoNulInLow(low, Text(value, radix));
    var k := PutDigits(value, buf, at, radix);
    hide Spliced;
    buf[at + k] := NUL;
    SplicedEnd(before, at, low);
    assert buf[..] == Spliced(before, at, low)[at + k := NUL];
    assert buf[..][at..] == buf[at..];
    CStringUnique(buf[at..], low);
    Strrev(buf, at);
    Respliced(before, at, low, Text(value, radix));
  }

  lemma ZeroChar()
    ensures DigitChar(0) == ZERO
  {
  }

  /** Terminating the string that was put at an index. */
  lemma SplicedEnd(before: seq<Byte>, at: nat, s: seq<Byte>)
    requires at + |s| < |before|
    ensures var r := Spliced(before, at, s)[at + |s| := NUL];
      r == Spliced(before, at, s + [NUL]) && s <= r[at..] && r[at..][|s|] == NUL
  {
    var r := Spliced(before, at, s)[at + |s| := NUL];
    assert r[at..][..|s|] == s;
  }

  lemma Respliced(before: seq<Byte>, at: nat, low: seq<Byte>, text: seq<Byte>)
    requires at + |low| < |before| && |text| == |low|
    ensures Spliced(Spliced(before, at, low + [NUL]), at, text) == Spliced(before, at, text + [NUL])
  {
  }

  /** The loop of the conversion. */
  method PutDigits(value: nat, buf: array<Byte>, at: nat, radix: nat) returns (k: nat)
    requires 2 <= radix <= 36 && at + |LowFirst(value, radix)| < buf.Length
    modifies buf
    ensures k == |LowFirst(value, radix)| && buf[..] == Spliced(old(buf[..]), at, LowFirst(value, radix))
  {
    hide DigitChar, Spliced, Quotient, Remainder;
    ghost var before := buf[..];
    ghost var low := LowFirst(value, radix);
    var newval: nat := value;
    k := 0;
    while newval > 0
      invariant 0 <= k <= |low| && LowFirst(newval, radix) == low[k..]
      invariant forall j :: at <= j < at + k ==> buf[j] == low[j - at]
      invariant forall j :: 0 <= j < at || at + k <= j < buf.Length ==> buf[j] == before[j]
    {
      var i := Remainder(newval, radix);
      assert low[k..][0] == DigitChar(i) && low[k..][1..] == low[k + 1..];
      buf[at + k] := DigitChar(i);
      k := k + 1;
      newval := Quotient(newval, radix);
    }
    assert low[k..] == [];
    hide LowFirst;
    SplicedIs(before, buf[..], at, low);
  }

  lemma NoNulInLow(low: seq<Byte>, text: seq<Byte>)
    requires Reversed(low) == text && NUL !in text
    ensures NUL !in low
  {
    forall i | 0 <= i < |low| ensures low[i] != NUL {
      assert text[|low| - 1 - i] == low[i];
    }
  }
}
