/** Character classes and prefixes, as the adapter's regular expressions use them. */
module Strings {

  predicate IsSpace(c: char) {
    c == ' ' || c == '\t' || c == '\n' || c == '\r' || c as int == 11 || c as int == 12
  }

  /** ASCII case folding. */
  function Lower(c: char): char {
    if 'A' <= c <= 'Z' then c - 'A' + 'a' else c
  }

  function Upper(c: char): char {
    if 'a' <= c <= 'z' then c - 'a' + 'A' else c
  }

  const CAPITALS := "ABCDEFGHIJKLMNOPQRSTUVWXYZ"
  const SMALL := "abcdefghijklmnopqrstuvwxyz"

  /** The 26 letters are folded to their counterparts, and nothing else is touched. */
  lemma OnlyLettersFold(k: nat, c: char)
    requires k < 26
    ensures Lower(CAPITALS[k]) == SMALL[k] && Upper(SMALL[k]) == CAPITALS[k]
    ensures c !in CAPITALS ==> Lower(c) == c
    ensures c !in SMALL ==> Upper(c) == c
  {
    if 'A' <= c <= 'Z' {
      assert c == CAPITALS[(c - 'A') as int];
    }
    if 'a' <= c <= 'z' {
      assert c == SMALL[(c - 'a') as int];
    }
  }

  /** The text behind its leading blanks, `\s*`. */
  function Skip(s: string): (r: string)
    ensures |r| <= |s|
    ensures r != "" ==> !IsSpace(r[0])
  {
    if s == "" || !IsSpace(s[0]) then s else Skip(s[1..])
  }

  lemma {:induction false} SkipIsSuffix(s: string)
    ensures Skip(s) == s[|s| - |Skip(s)|..]
  {
    if s == "" || !IsSpace(s[0]) {
      assert s[0..] == s;
    } else {
      SkipIsSuffix(s[1..]);
      assert s[1..][|s| - 1 - |Skip(s)|..] == s[|s| - |Skip(s)|..];
    }
  }

  /** Case-insensitive prefix; `p` is in lower case. */
  predicate StartsNoCase(s: string, p: string) {
    |p| <= |s| && forall i :: 0 <= i < |p| ==> Lower(s[i]) == p[i]
  }
}
