/** Substring search with the meaning of Python's `str.find`: the lowest index
    at which the pattern occurs, or -1 when it occurs nowhere. */
module Strings {

  /** `pat` occurs in `s` starting at index `i`. */
  predicate OccursAt(s: string, pat: string, i: nat)
  {
    i + |pat| <= |s| && s[i..i + |pat|] == pat
  }

  /** The first index at or after `from` where `pat` occurs in `s`, or -1. */
  function FindFrom(s: string, pat: string, from: nat): (r: int)
    decreases |s| - from
    ensures r == -1 || from <= r <= |s| - |pat|
  {
    if from + |pat| > |s| then -1
    else if s[from..from + |pat|] == pat then from
    else FindFrom(s, pat, from + 1)
  }

  /** `s.find(pat)`: the first occurrence of `pat` in `s`, or -1 when there is none. */
  function Find(s: string, pat: string): (r: int)
    ensures r == -1 || 0 <= r <= |s| - |pat|
  {
    FindFrom(s, pat, 0)
  }

  lemma {:induction false} FindFromIsFirstOccurrence(s: string, pat: string, from: nat)
    ensures var r := FindFrom(s, pat, from);
      && (r == -1 || (from <= r && OccursAt(s, pat, r)))
      && (r == -1 ==> forall i: nat :: from <= i ==> !OccursAt(s, pat, i))
      && (r != -1 ==> forall i: nat :: from <= i < r ==> !OccursAt(s, pat, i))
    decreases |s| - from
  {
    if from + |pat| <= |s| && s[from..from + |pat|] != pat {
      FindFromIsFirstOccurrence(s, pat, from + 1);
    }
  }

  /** `Find` returns -1 exactly when the pattern occurs nowhere, and otherwise
      the lowest index at which it occurs. */
  lemma FindIsFirstOccurrence(s: string, pat: string)
    ensures Find(s, pat) == -1 <==> forall i: nat :: !OccursAt(s, pat, i)
    ensures Find(s, pat) != -1 ==> 0 <= Find(s, pat) && OccursAt(s, pat, Find(s, pat))
    ensures Find(s, pat) != -1 ==> forall i: nat :: i < Find(s, pat) ==> !OccursAt(s, pat, i)
  {
    FindFromIsFirstOccurrence(s, pat, 0);
  }

  /** The text before the first occurrence of a non-empty pattern no longer
      contains the pattern. */
  lemma PrefixBeforeFirstOccurrence(s: string, pat: string)
    requires |pat| > 0 && Find(s, pat) != -1
    ensures Find(s[..Find(s, pat)], pat) == -1
  {
    FindIsFirstOccurrence(s, pat);
    var k := Find(s, pat);
    var t := s[..k];
    FindIsFirstOccurrence(t, pat);
    forall i: nat ensures !OccursAt(t, pat, i) {
      if OccursAt(t, pat, i) {
        assert t[i..i + |pat|] == s[i..i + |pat|];
        assert OccursAt(s, pat, i);
      }
    }
  }
}
