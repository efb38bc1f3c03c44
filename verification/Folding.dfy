/** Substrings and case folding. */
module Folding {
  /** `needle` stands in `haystack` at `k`. */
  predicate StandsAt(needle: string, haystack: string, k: nat) {
    k + |needle| <= |haystack| && haystack[k..k + |needle|] == needle
  }

  ghost predicate Infix(needle: string, haystack: string) {
    exists k: nat :: StandsAt(needle, haystack, k)
  }

  predicate IsAscii(s: string) {
    forall i | 0 <= i < |s| :: s[i] as int < 128
  }

  function LowerChar(c: char): char {
    if 'A' <= c <= 'Z' then (c as int + 32) as char else c
  }

  function AsciiLower(s: string): (r: string)
    ensures |r| == |s|
  {
    seq(|s|, i requires 0 <= i < |s| => LowerChar(s[i]))
  }

  /** What the index relies on `str::to_lowercase` for. */
  ghost predicate IsFold(fold: string -> string) {
    && (forall s :: IsAscii(s) ==> fold(s) == AsciiLower(s))
    && (forall needle, s :: IsAscii(needle) && Infix(needle, s) ==> Infix(AsciiLower(needle), fold(s)))
    && (forall s :: AsciiLower(fold(s)) == fold(s))
  }

  lemma LowerTwice(s: string)
    ensures AsciiLower(AsciiLower(s)) == AsciiLower(s)
  {
  }

  lemma LowerInfix(needle: string, s: string)
    requires Infix(needle, s)
    ensures Infix(AsciiLower(needle), AsciiLower(s))
  {
    var k: nat :| StandsAt(needle, s, k);
    forall i | 0 <= i < |needle|
      ensures AsciiLower(s)[k + i] == AsciiLower(needle)[i]
    {
      assert s[k + i] == s[k..k + |needle|][i];
    }
    assert StandsAt(AsciiLower(needle), AsciiLower(s), k);
  }

  /** Folding ASCII letters alone meets the contract. */
  lemma AsciiFolds()
    ensures IsFold(AsciiLower)
  {
    forall s ensures AsciiLower(AsciiLower(s)) == AsciiLower(s) { LowerTwice(s); }
    forall needle, s | IsAscii(needle) && Infix(needle, s)
      ensures Infix(AsciiLower(needle), AsciiLower(s))
    {
      LowerInfix(needle, s);
    }
  }

  lemma SliceOfSlice(s: string, i: nat, j: nat, a: nat, c: nat)
    requires i <= j <= |s| && a <= c <= j - i
    ensures s[i..j][a..c] == s[i + a..i + c]
  {
    forall k | 0 <= k < c - a
      ensures s[i..j][a..c][k] == s[i + a..i + c][k]
    {
    }
  }

  lemma InfixOfSlice(needle: string, s: string, i: nat, j: nat)
    requires i <= j <= |s| && Infix(needle, s[i..j])
    ensures Infix(needle, s)
  {
    var k: nat :| StandsAt(needle, s[i..j], k);
    SliceOfSlice(s, i, j, k, k + |needle|);
    assert StandsAt(needle, s, i + k);
  }

  lemma InfixOfInner(needle: string, s: string, i: nat, j: nat, i': nat, j': nat)
    requires i <= i' <= j' <= j <= |s| && Infix(needle, s[i'..j'])
    ensures Infix(needle, s[i..j])
  {
    SliceOfSlice(s, i, j, i' - i, j' - i);
    InfixOfSlice(needle, s[i..j], i' - i, j' - i);
  }
}
