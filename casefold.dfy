/**
  Case folding of country codes.

  The program compares codes with Python's `str.casefold`. This module stands
  in for it with ASCII lower-casing: upper-case Latin letters become their
  lower-case forms and every other character is left alone.
 */
module CaseFold {

  /** Folds one character: 'A'..'Z' become 'a'..'z'. */
  function FoldChar(c: char): char
  {
    if 'A' <= c <= 'Z' then (c as int + ('a' as int - 'A' as int)) as char else c
  }

  /** Folds a whole string, character by character. */
  function Fold(s: string): string
  {
    if s == [] then [] else [FoldChar(s[0])] + Fold(s[1..])
  }

  /** A folded character contains no upper-case letter, so folding it again changes nothing. */
  lemma FoldCharIdempotent(c: char)
    ensures FoldChar(FoldChar(c)) == FoldChar(c)
  {
  }

  /** Folding keeps the length and folds each position independently. */
  lemma {:induction false} FoldAt(s: string)
    ensures |Fold(s)| == |s|
    ensures forall i :: 0 <= i < |s| ==> Fold(s)[i] == FoldChar(s[i])
  {
    if s != [] {
      FoldAt(s[1..]);
    }
  }

  /** Folding is idempotent: a folded code is its own fold. */
  lemma {:induction false} FoldIdempotent(s: string)
    ensures Fold(Fold(s)) == Fold(s)
  {
    if s != [] {
      FoldCharIdempotent(s[0]);
      FoldIdempotent(s[1..]);
      assert Fold(s) == [FoldChar(s[0])] + Fold(s[1..]);
      assert Fold(s)[1..] == Fold(s[1..]);
    }
  }

  /** Codes that agree letter by letter up to case fold to the same string. */
  lemma {:induction false} FoldAgrees(s: string, t: string)
    requires |s| == |t|
    requires forall i :: 0 <= i < |s| ==> FoldChar(s[i]) == FoldChar(t[i])
    ensures Fold(s) == Fold(t)
  {
    if s != [] {
      assert FoldChar(s[0]) == FoldChar(t[0]);
      forall i | 0 <= i < |s[1..]|
        ensures FoldChar(s[1..][i]) == FoldChar(t[1..][i])
      {
        assert s[1..][i] == s[i + 1] && t[1..][i] == t[i + 1];
      }
      FoldAgrees(s[1..], t[1..]);
    }
  }

  /** Two codes fold alike exactly when they differ only in the case of their letters. */
  lemma FoldIgnoresCase(s: string, t: string)
    ensures Fold(s) == Fold(t) <==>
      |s| == |t| && forall i :: 0 <= i < |s| ==> FoldChar(s[i]) == FoldChar(t[i])
  {
    if |s| == |t| && forall i :: 0 <= i < |s| ==> FoldChar(s[i]) == FoldChar(t[i]) {
      FoldAgrees(s, t);
    }
    if Fold(s) == Fold(t) {
      FoldAt(s);
      FoldAt(t);
    }
  }
}
