/** C strings: comparison without regard to case, and bounded length. */
module Strings {
  import opened Words
  import opened Paths

  /** `tolower`. Bytes from 128 on are negative chars in C and stay as they are. */
  function Lower(c: byte): byte {
    if 65 <= c <= 90 then c + 32 else c
  }

  /** The characters are the same, or the two cases of one letter: A to Z are 65 to 90, a to z 97 to 122. */
  predicate Agree(c: byte, d: byte) {
    || c == d || (65 <= c <= 90 && 97 <= d <= 122 && d - 97 == c - 65)
    || (65 <= d <= 90 && 97 <= c <= 122 && c - 97 == d - 65)
  }

  lemma LowerAgreesIff(c: byte, d: byte)
    ensures Lower(c) == Lower(d) <==> Agree(c, d)
  {
  }

  /** The strings are the same but for case. */
  predicate AgreeAll(s: seq<byte>, t: seq<byte>) {
    |s| == |t| && forall i | 0 <= i < |s| :: Agree(s[i], t[i])
  }

  /** The first `n` characters. */
  function Cut(s: CString, n: nat): seq<byte> {
    if n < |s| then s[..n] else s
  }

  /** What C reads at index `i` of a string. */
  function CharAt(s: CString, i: nat): byte
    requires i <= |s|
  {
    if i < |s| then s[i] else 0
  }

  /** Index `i` is the first at which the strings differ in more than case. */
  predicate DifferAt(s1: CString, s2: CString, i: nat) {
    && i <= |s1| && i <= |s2| && (forall k | 0 <= k < i :: Agree(s1[k], s2[k]))
    && !Agree(CharAt(s1, i), CharAt(s2, i))
  }

  lemma DifferentCuts(s1: CString, s2: CString, n: nat, i: nat)
    requires i < n && DifferAt(s1, s2, i)
    ensures !AgreeAll(Cut(s1, n), Cut(s2, n))
  {
    assert i < |Cut(s1, n)| && i < |Cut(s2, n)| ==> !Agree(Cut(s1, n)[i], Cut(s2, n)[i]);
  }

  /** 0 exactly if the strings agree, but for case, in their first `n` characters; otherwise the difference
      of the first two characters that do not, as they stand. */
  method IStrNCmp(s1: CString, s2: CString, n: nat) returns (r: int)
    ensures r == 0 <==> AgreeAll(Cut(s1, n), Cut(s2, n))
    ensures r != 0 ==> exists i: nat | i < n :: DifferAt(s1, s2, i) && r == CharAt(s1, i) as int - CharAt(s2, i) as int
  {
    for i := 0 to n
      invariant i <= |s1| && i <= |s2| && forall k | 0 <= k < i :: Agree(s1[k], s2[k])
    {
      var u1, u2 := CharAt(s1, i), CharAt(s2, i);
      LowerAgreesIff(u1, u2);
      if u1 != u2 && Lower(u1) != Lower(u2) {
        DifferentCuts(s1, s2, n, i);
        return u1 as int - u2 as int;
      }
      if u1 == 0 {
        return 0;
      }
    }
    r := 0;
  }
}
