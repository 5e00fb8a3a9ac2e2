/** Case folding of IRC text (RFC 1459 case mapping) and the comparison built on it. */
module Casemap {
  import opened Common

  /** The upper-case table: letters, and the four pairs that RFC 1459 treats as letters. */
  function ToUpper(c: char): char {
    if 'a' <= c <= 'z' then c - 'a' + 'A'
    else if c == '{' then '['
    else if c == '|' then '\\'
    else if c == '}' then ']'
    else if c == '~' then '^'
    else c
  }

  /** The canonical form: two strings are equal up to case exactly when their folds are. */
  function Fold(s: string): (r: string)
    ensures |r| == |s|
  {
    seq(|s|, i requires 0 <= i < |s| => ToUpper(s[i]))
  }

  predicate SameText(a: string, b: string) {
    Fold(a) == Fold(b)
  }

  /** Two characters are one letter in RFC 1459 when they are equal or stand 32 apart, the lower one
      from 'A' to '^'. */
  ghost predicate OneLetter(a: char, b: char) {
    || a == b
    || ('A' <= a <= '^' && b as int == a as int + 32)
    || ('A' <= b <= '^' && a as int == b as int + 32)
  }

  lemma FoldTogether(a: char, b: char)
    ensures ToUpper(a) == ToUpper(b) <==> OneLetter(a, b)
  {
  }

  /** Strings agree exactly when they have the same length and the same letter at every place. */
  lemma SameTextExactly(a: string, b: string)
    ensures SameText(a, b) <==> |a| == |b| && forall i :: 0 <= i < |a| ==> OneLetter(a[i], b[i])
  {
    if |a| == |b| {
      forall i | 0 <= i < |a| ensures Fold(a)[i] == Fold(b)[i] <==> OneLetter(a[i], b[i]) {
        FoldTogether(a[i], b[i]);
      }
      assert Fold(a) == Fold(b) <==> forall i :: 0 <= i < |a| ==> Fold(a)[i] == Fold(b)[i];
    }
  }

  /** The C string held at the start of a NUL-terminated buffer. */
  ghost predicate CString(buffer: seq<char>, s: string) {
    s + [EOS] <= buffer && EOS !in s
  }

  lemma CStringAt(buffer: seq<char>, s: string)
    requires CString(buffer, s)
    ensures |s| < |buffer| && buffer[|s|] == EOS
    ensures forall i :: 0 <= i < |s| ==> buffer[i] == s[i] && buffer[i] != EOS
  {
    assert buffer[|s|] == (s + [EOS])[|s|];
    forall i | 0 <= i < |s| ensures buffer[i] == s[i] && buffer[i] != EOS {
      assert buffer[i] == (s + [EOS])[i];
      assert s[i] in s;
    }
  }

  /** irccmp: walk two buffers until the folded characters differ or both strings end. */
  method IrcCmp(b1: seq<char>, b2: seq<char>, ghost s1: string, ghost s2: string) returns (res: int)
    requires CString(b1, s1) && CString(b2, s2)
    ensures res == 0 <==> SameText(s1, s2)
    ensures res == 0 <==> |s1| == |s2| && forall i :: 0 <= i < |s1| ==> OneLetter(s1[i], s2[i])
  {
    SameTextExactly(s1, s2);
    CStringAt(b1, s1);
    CStringAt(b2, s2);
    var i := 0;
    res := ToUpper(b1[i]) as int - ToUpper(b2[i]) as int;
    while res == 0 && b1[i] != EOS
      invariant 0 <= i <= |s1| && i <= |s2|
      invariant forall k :: 0 <= k < i ==> ToUpper(s1[k]) == ToUpper(s2[k])
      invariant res == ToUpper(b1[i]) as int - ToUpper(b2[i]) as int
      decreases |s1| - i
    {
      i := i + 1;
      res := ToUpper(b1[i]) as int - ToUpper(b2[i]) as int;
    }
    if res == 0 {
      assert i == |s1| == |s2|;
      assert Fold(s1) == Fold(s2);
    } else if i < |s1| && i < |s2| {
      assert Fold(s1)[i] != Fold(s2)[i];
    }
  }
}
