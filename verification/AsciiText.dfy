/** Characters and simple text functions, on ASCII. */
module AsciiText {

  /** White space: tab to carriage return, the four separators, and the blank. */
  predicate IsSpace(c: char) {
    '\t' <= c <= '\r' || 28 as char <= c <= ' '
  }

  /** Letters without their case. */
  function Fold(c: char): char {
    if 'A' <= c <= 'Z' then (c as int + 32) as char else c
  }

  function FoldText(s: string): string {
    seq(|s|, k requires 0 <= k < |s| => Fold(s[k]))
  }

  predicate Contains(s: string, w: string) {
    w <= s || (s != [] && Contains(s[1..], w))
  }

  function TrimStart(s: string): string {
    if s != [] && IsSpace(s[0]) then TrimStart(s[1..]) else s
  }

  function TrimEnd(s: string): string {
    if s != [] && IsSpace(s[|s| - 1]) then TrimEnd(s[..|s| - 1]) else s
  }

  /** The text without its leading white space. */
  lemma {:induction false} TrimStartIs(s: string)
    ensures exists i :: 0 <= i <= |s| && TrimStart(s) == s[i..]
    ensures TrimStart(s) != [] ==> !IsSpace(TrimStart(s)[0])
    ensures s == [] || !IsSpace(s[0]) ==> TrimStart(s) == s
  {
    if s != [] && IsSpace(s[0]) {
      TrimStartIs(s[1..]);
      var i :| 0 <= i <= |s[1..]| && TrimStart(s[1..]) == s[1..][i..];
      assert s[1..][i..] == s[i + 1..];
    } else {
      assert s == s[0..];
    }
  }

  /** The text without its trailing white space. */
  lemma {:induction false} TrimEndIs(s: string)
    ensures TrimEnd(s) <= s
    ensures forall k :: |TrimEnd(s)| <= k < |s| ==> IsSpace(s[k])
    ensures TrimEnd(s) != [] ==> !IsSpace(TrimEnd(s)[|TrimEnd(s)| - 1])
  {
    if s != [] && IsSpace(s[|s| - 1]) {
      TrimEndIs(s[..|s| - 1]);
    }
  }

  // ----- the characters by name

  const UPPER := "ABCDEFGHIJKLMNOPQRSTUVWXYZ"
  const LOWER := "abcdefghijklmnopqrstuvwxyz"
  const DIGITS := "0123456789"

  /** Each capital folds to its small letter, and nothing else changes. */
  lemma FoldLetters(k: nat)
    requires k < 26
    ensures Fold(UPPER[k]) == LOWER[k] && Fold(LOWER[k]) == LOWER[k]
  {
  }

  lemma FoldOther(c: char)
    requires c !in UPPER
    ensures Fold(c) == c
  {
    CapitalIsUpper(c);
  }

  lemma CapitalIsUpper(c: char)
    ensures 'A' <= c <= 'Z' ==> c in UPPER
  {
    if 'A' <= c <= 'Z' { UpperAt(c as int - 'A' as int); }
  }

  lemma UpperAt(k: nat)
    requires k < 26
    ensures UPPER[k] == ('A' as int + k) as char
  {
  }

  /** The code points of white space. */
  lemma SpacesAre(c: char)
    ensures IsSpace(c) <==> c as int in {9, 10, 11, 12, 13, 28, 29, 30, 31, 32}
  {
  }

  /** The word begins somewhere in the text. */
  lemma {:induction false} ContainsMeans(s: string, w: string)
    ensures Contains(s, w) <==> exists i :: 0 <= i <= |s| && w <= s[i..]
  {
    assert s[0..] == s;
    if !(w <= s) && s != "" {
      ContainsMeans(s[1..], w);
      assert forall i :: 0 <= i <= |s[1..]| ==> s[1..][i..] == s[i + 1..];
      if i :| 0 <= i <= |s| && w <= s[i..] { assert i > 0 && s[1..][i - 1..] == s[i..]; }
      if i :| 0 <= i <= |s[1..]| && w <= s[1..][i..] { assert w <= s[i + 1..]; }
    }
  }
}
