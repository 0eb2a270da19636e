/** NUL-terminated strings, as the file system compares and copies them
    (os_composite_inmemfs.c, `_fs_strequals` and `_fs_copystring`). */
module CStrings {
  import opened Base

  /** `strlen`: the position of the first NUL. */
  function StrLen(m: seq<byte>): (n: nat)
    requires 0 in m
    ensures n < |m| && m[n] == 0 && 0 !in m[..n]
  {
    if m[0] == 0 then 0
    else
      var n := StrLen(m[1..]);
      assert m[..n + 1] == [m[0]] + m[1..][..n];
      n + 1
  }

  /** The string stored in memory `m`: everything before the first NUL. */
  function Str(m: seq<byte>): (s: seq<byte>)
    requires 0 in m
    ensures 0 !in s && |s| < |m| && s == m[..|s|] && m[|s|] == 0
  {
    m[..StrLen(m)]
  }

  /** What `_fs_copystring` keeps of a name: at most MAX_PATHNAME characters. */
  function Clip(name: seq<byte>): (r: seq<byte>)
    ensures |r| == if |name| <= MAX_PATHNAME then |name| else MAX_PATHNAME
    ensures forall i :: 0 <= i < |r| ==> r[i] == name[i]
    ensures |name| <= MAX_PATHNAME ==> r == name
    ensures 0 !in name ==> 0 !in r
  {
    if |name| <= MAX_PATHNAME then name else name[..MAX_PATHNAME]
  }

  /** The string in `m` is the only split of a prefix of `m` into a NUL-free part and a NUL. */
  lemma StrIs(m: seq<byte>, n: nat)
    requires n < |m| && m[n] == 0 && 0 !in m[..n]
    ensures Str(m) == m[..n]
  {
    var k := StrLen(m);
    assert k >= n by {
      assert forall i :: 0 <= i < n ==> m[..n][i] == m[i];
    }
    assert k <= n by {
      assert forall i :: 0 <= i < k ==> m[..k][i] == m[i];
    }
  }

  /** `_fs_strequals`: 1 exactly for equal strings shorter than n. The index checks show that
      neither terminator is ever passed, whatever memory follows it. */
  method StrEquals(s1: seq<byte>, s2: seq<byte>, n: int) returns (r: int)
    requires 0 in s1 && 0 in s2
    ensures r == 0 || r == 1
    ensures r == 1 <==> Str(s1) == Str(s2) && |Str(s1)| < n
  {
    var i := 0;
    while i < n
      invariant 0 <= i && (i <= n || i == 0)
      invariant i <= |Str(s1)| && i <= |Str(s2)|
      invariant s1[..i] == s2[..i]
    {
      assert s1[i] == 0 <==> i == |Str(s1)| by { if i < |Str(s1)| { assert s1[i] == Str(s1)[i]; } }
      assert s2[i] == 0 <==> i == |Str(s2)| by { if i < |Str(s2)| { assert s2[i] == Str(s2)[i]; } }
      if s1[i] == 0 && s2[i] == 0 {
        return 1;
      }
      if s1[i] != s2[i] {
        assert i < |Str(s1)| ==> s1[i] == Str(s1)[i];
        return 0;
      }
      assert s1[..i + 1] == s1[..i] + [s1[i]] && s2[..i + 1] == s2[..i] + [s2[i]];
      i := i + 1;
    }
    return 0;
  }
}
