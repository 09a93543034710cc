/** The kernel's own string routines. A pointer argument is the memory that starts there. */
module KernelStrings {
  import opened Bytes

  method Strlen(s: seq<Byte>) returns (len: nat)
    requires NUL in s
    ensures len == |CString(s)|
  {
    len := 0;
    while s[len] != NUL
      invariant len < |s| && forall j :: 0 <= j < len ==> s[j] != NUL
      invariant len <= |CString(s)| < |s|
      decreases |s| - len
    {
      len := len + 1;
    }
    CStringUnique(s, s[..len]);
  }

  /** The bounded comparison: zero exactly when the strings agree on their first `n` bytes, and otherwise the
      difference of the first two bytes that differ. Strings need no terminator behind these bytes. */
  method Strncmp(s1: seq<Byte>, s2: seq<Byte>, n: nat) returns (r: int)
    requires (NUL in s1 || n <= |s1|) && (NUL in s2 || n <= |s2|)
    ensures r == 0 <==> Prefix(CString(s1), n) == Prefix(CString(s2), n)
    ensures r != 0 ==> exists i :: DifferAt(s1, s2, n, i) && r == Signed(s1[i]) - Signed(s2[i])
  {
    var i := 0;
    while i < n
      invariant 0 <= i <= n
      invariant i <= |CString(s1)| && i <= |CString(s2)|
      invariant forall j :: 0 <= j < i ==> s1[j] == s2[j]
    {
      assert i < |s1| && i < |s2|;
      if s1[i] != s2[i] || s1[i] == NUL {
        assert i < |CString(s1)| ==> Prefix(CString(s1), n)[i] == s1[i];
        assert i < |CString(s2)| ==> Prefix(CString(s2), n)[i] == s2[i];
        assert s1[i] == NUL ==> |CString(s1)| == i;
        assert s2[i] == NUL ==> |CString(s2)| == i;
        assert s1[i] != s2[i] ==> DifferAt(s1, s2, n, i);
        return Signed(s1[i]) - Signed(s2[i]);
      }
      i := i + 1;
    }
    assert Prefix(CString(s1), n) == CString(s1)[..n] && Prefix(CString(s2), n) == CString(s2)[..n];
    return 0;
  }
}
