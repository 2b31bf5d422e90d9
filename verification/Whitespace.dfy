/** Trimming of strings. */
module Whitespace {
  /** The characters of Unicode's White_Space property. */
  predicate IsSpace(c: char)
  {
    var n := c as int;
    || 9 <= n <= 13 || n == 0x20 || n == 0x85 || n == 0xA0 || n == 0x1680 || 0x2000 <= n <= 0x200A
    || n == 0x2028 || n == 0x2029 || n == 0x202F || n == 0x205F || n == 0x3000
  }

  function TrimStart(s: string): (t: string)
    ensures |t| <= |s|
    ensures t != "" ==> !IsSpace(t[0])
  {
    if s != "" && IsSpace(s[0]) then TrimStart(s[1..]) else s
  }

  function TrimEnd(s: string): string
  {
    if s != "" && IsSpace(s[|s| - 1]) then TrimEnd(s[..|s| - 1]) else s
  }

  /** The code points with the Unicode property White_Space. */
  const SPACES: set<int> := {
    0x9, 0xA, 0xB, 0xC, 0xD, 0x20, 0x85, 0xA0, 0x1680, 0x2000, 0x2001, 0x2002, 0x2003, 0x2004, 0x2005, 0x2006, 0x2007,
    0x2008, 0x2009, 0x200A, 0x2028, 0x2029, 0x202F, 0x205F, 0x3000
  }

  lemma SpaceIs(c: char)
    ensures IsSpace(c) <==> c as int in SPACES
  {
  }

  /** Trimming takes exactly the white space before the first other character, and after the last. */
  lemma {:induction false} TrimStartCut(s: string) returns (n: nat)
    ensures n <= |s| && TrimStart(s) == s[n..] && (forall i | 0 <= i < n :: IsSpace(s[i]))
    ensures n < |s| ==> !IsSpace(s[n])
  {
    if s != "" && IsSpace(s[0]) {
      n := TrimStartCut(s[1..]);
      assert s[1..][n..] == s[n + 1..] && forall i | 1 <= i < n + 1 :: s[i] == s[1..][i - 1];
      n := n + 1;
    } else {
      n := 0;
    }
  }

  lemma {:induction false} TrimEndCut(s: string) returns (n: nat)
    ensures n <= |s| && TrimEnd(s) == s[..n] && (forall i | n <= i < |s| :: IsSpace(s[i]))
    ensures n > 0 ==> !IsSpace(s[n - 1])
  {
    if s != "" && IsSpace(s[|s| - 1]) {
      var front := s[..|s| - 1];
      n := TrimEndCut(front);
      assert front[..n] == s[..n] && forall i | n <= i < |s| - 1 :: s[i] == front[i];
    } else {
      n := |s|;
    }
  }

  lemma {:induction false} TrimStartAt(s: string, n: nat)
    requires n < |s| && !IsSpace(s[n]) && forall i | 0 <= i < n :: IsSpace(s[i])
    ensures TrimStart(s) == s[n..]
  {
    if n > 0 {
      TrimStartAt(s[1..], n - 1);
    }
  }

  lemma {:induction false} TrimEndAt(s: string, n: nat)
    requires 0 < n <= |s| && !IsSpace(s[n - 1]) && forall i | n <= i < |s| :: IsSpace(s[i])
    ensures TrimEnd(s) == s[..n]
  {
    if n < |s| {
      TrimEndAt(s[..|s| - 1], n);
    }
  }
}
