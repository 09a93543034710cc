/** Bytes and NUL-terminated strings. */
module Bytes {
  type Byte = x: int | 0 <= x < 256

  const TWO_31 := 0x8000_0000
  const TWO_32 := 0x1_0000_0000

  const NUL: Byte := 0
  const NEWLINE: Byte := 10
  const CARRIAGE_RETURN: Byte := 13
  const SPACE: Byte := 32

  /** The index of the first `c` at or after `i`, or the end. */
  function IndexOf(s: seq<Byte>, c: Byte, i: nat): (k: nat)
    requires i <= |s|
    ensures i <= k <= |s|
    ensures k < |s| ==> s[k] == c
    ensures forall j :: i <= j < k ==> s[j] != c
    decreases |s| - i
  {
    if i == |s| || s[i] == c then i else IndexOf(s, c, i + 1)
  }

  lemma IndexOfUnique(s: seq<Byte>, c: Byte, i: nat, k: nat)
    requires i <= k <= |s| && (forall j :: i <= j < k ==> s[j] != c) && (k < |s| ==> s[k] == c)
    ensures IndexOf(s, c, i) == k
  {
  }

  /** The string that starts a buffer: everything before its first NUL. */
  function CString(s: seq<Byte>): (r: seq<Byte>)
    ensures r <= s && NUL !in r
    ensures |r| < |s| ==> s[|r|] == NUL
  {
    s[..IndexOf(s, NUL, 0)]
  }

  lemma CStringUnique(s: seq<Byte>, r: seq<Byte>)
    requires r <= s && NUL !in r && (|r| < |s| ==> s[|r|] == NUL)
    ensures CString(s) == r
  {
    var k := IndexOf(s, NUL, 0);
    assert forall j :: 0 <= j < |r| ==> r[j] == s[j] && r[j] != NUL;
  }

  function Ascii(s: string): (r: seq<Byte>)
    requires forall c :: c in s ==> 0 < c as int < 256
    ensures |r| == |s| && NUL !in r
  {
    if s == "" then []
    else
      assert s[0] in s && forall c :: c in s[1..] ==> c in s;
      var b: Byte := s[0] as int;
      [b] + Ascii(s[1..])
  }

  /** At most the first `n` bytes. */
  function Prefix(s: seq<Byte>, n: nat): seq<Byte> {
    if |s| <= n then s else s[..n]
  }

  /** The first byte in which two strings differ is at `i`, within the first `n`. */
  ghost predicate DifferAt(s1: seq<Byte>, s2: seq<Byte>, n: nat, i: int) {
    && 0 <= i < n && i < |s1| && i < |s2| && s1[i] != s2[i]
    && forall j :: 0 <= j < i ==> s1[j] == s2[j] != NUL
  }

  /** A byte as a signed character. */
  function Signed(c: Byte): int {
    if c < 128 then c else c - 256
  }
}
