/** The string routines that user programs are linked with. A pointer argument is the memory that starts there. */
module UserSupport {
  import opened Bytes

  /** What a program has written to the terminal. */
  class Output {
    var written: seq<Byte>

    constructor ()
      ensures written == []
    {
      written := [];
    }
  }

  method Strlen(s: seq<Byte>) returns (len: nat)
    requires NUL in s
    ensures len == |CString(s)|
  {
    len := 0;
    while s[len] != NUL
      invariant len < |s| && NUL !in s[..len]
      decreases |s| - len
    {
      assert s[..len + 1] == s[..len] + [s[len]];
      assert NUL in s[..len + 1] + s[len + 1..] by {
        assert s == s[..len + 1] + s[len + 1..];
      }
      len := len + 1;
    }
    CStringUnique(s, s[..len]);
  }

  /** Zero exactly when the two strings agree on their first `n` bytes, and otherwise the difference of the first two
      bytes that differ. */
  method Strncmp(s1: seq<Byte>, s2: seq<Byte>, n: nat) returns (r: int)
    requires NUL in s1 && NUL in s2
    ensures r == 0 <==> Prefix(CString(s1), n) == Prefix(CString(s2), n)
    ensures r != 0 ==> exists i :: DifferAt(s1, s2, n, i) && r + s2[i] == s1[i]
  {
    if n == 0 {
      return 0;
    }
    var i, left := 0, n;
    while s1[i] == s2[i]
      invariant 0 <= i < n && left == n - i
      invariant i <= |CString(s1)| < |s1| && i <= |CString(s2)| < |s2|
      invariant s1[..i] == s2[..i]
      decreases left
    {
      if s1[i] == NUL {
        CStringUnique(s1, s1[..i]);
        CStringUnique(s2, s2[..i]);
        return 0;
      }
      left := left - 1;
      if left == 0 {
        assert s1[..n] == s1[..i] + [s1[i]] && s2[..n] == s2[..i] + [s2[i]];
        return 0;
      }
      i := i + 1;
    }
    assert i < |CString(s1)| ==> CString(s1)[i] == s1[i];
    assert i < |CString(s2)| ==> CString(s2)[i] == s2[i];
    assert forall j :: 0 <= j < i ==> s1[..i][j] == s1[j] == s2[..i][j];
    assert DifferAt(s1, s2, n, i);
    var c1: int, c2: int := s1[i], s2[i];
    return c1 - c2;
  }

  method Fdputs(out: Output, s: seq<Byte>)
    requires NUL in s
    modifies out
    ensures out.written == old(out.written) + CString(s)
  {
    var n := Strlen(s);
    out.written := out.written + s[..n];
  }

  /** Copies the string at `src` down to the start of the same buffer. */
  method StrcpyDown(data: array<Byte>, src: nat)
    requires src <= data.Length && NUL in data[src..]
    modifies data
    ensures var s := old(CString(data[src..]));
      |s| < data.Length && data[..] == s + [NUL] + old(data[..])[|s| + 1..]
  {
    ghost var before := data[..];
    ghost var s := CString(data[src..]);
    assert forall j :: 0 <= j < |s| ==> s[j] == before[src + j] && s[j] != NUL;
    assert src + |s| < data.Length && before[src + |s|] == NUL;
    var i := 0;
    while data[src + i] != NUL
      invariant 0 <= i <= |s|
      invariant forall j :: 0 <= j < i ==> data[j] == s[j]
      invariant forall j :: i <= j < data.Length ==> data[j] == before[j]
      decreases |s| - i
    {
      data[i] := data[src + i];
      i := i + 1;
    }
    data[i] := NUL;
  }
}
