/** The parts of Go's `strings` package the core uses, over sequences of any element type. */
module Seqs {

  /** `strings.HasPrefix(s, p)`. */
  predicate HasPrefix<T(==)>(s: seq<T>, p: seq<T>) {
    |p| <= |s| && s[..|p|] == p
  }

  /** `sub` occurs in `s` starting at index `i`. */
  predicate OccursAt<T(==)>(s: seq<T>, sub: seq<T>, i: int) {
    0 <= i <= |s| - |sub| && s[i..i + |sub|] == sub
  }

  /** `strings.Contains(s, sub)`: some window of `s` equals `sub`. */
  predicate Contains<T(==)>(s: seq<T>, sub: seq<T>) {
    exists i | 0 <= i <= |s| - |sub| :: OccursAt(s, sub, i)
  }

  /** `strings.CutPrefix(s, p)`: the rest of `s` after `p`, when `s` starts with `p`. */
  function CutPrefix<T(==)>(s: seq<T>, p: seq<T>): (r: (seq<T>, bool))
    ensures r.1 == HasPrefix(s, p)
    ensures r.1 ==> s == p + r.0
    ensures !r.1 ==> r.0 == s
  {
    if HasPrefix(s, p) then (s[|p|..], true) else (s, false)
  }

  /** `strings.ReplaceAll(s, pat, rep)` for a non-empty pattern `pat`: scan left to right and
      replace every non-overlapping occurrence of `pat` by `rep`. */
  function ReplaceAll<T(==)>(s: seq<T>, pat: seq<T>, rep: seq<T>): seq<T>
    requires |pat| > 0
    decreases |s|
  {
    if |s| < |pat| then s
    else if s[..|pat|] == pat then rep + ReplaceAll(s[|pat|..], pat, rep)
    else [s[0]] + ReplaceAll(s[1..], pat, rep)
  }

  /** A string whose prefix is `pat` is rewritten to one whose prefix is `rep`. */
  lemma ReplaceAllPrefix<T>(s: seq<T>, pat: seq<T>, rep: seq<T>)
    requires |pat| > 0 && HasPrefix(s, pat)
    ensures ReplaceAll(s, pat, rep) == rep + ReplaceAll(s[|pat|..], pat, rep)
  {
  }

  /** Without an occurrence of the pattern, `ReplaceAll` changes nothing. */
  lemma {:induction false} ReplaceAllAbsent<T>(s: seq<T>, pat: seq<T>, rep: seq<T>)
    requires |pat| > 0 && !Contains(s, pat)
    ensures ReplaceAll(s, pat, rep) == s
    decreases |s|
  {
    if |s| >= |pat| {
      assert !OccursAt(s, pat, 0);
      forall i | 0 <= i <= |s| - 1 - |pat| ensures !OccursAt(s[1..], pat, i) {
        assert s[1..][i..i + |pat|] == s[i + 1..i + 1 + |pat|];
        assert !OccursAt(s, pat, i + 1);
      }
      ReplaceAllAbsent(s[1..], pat, rep);
      assert [s[0]] + s[1..] == s;
    }
  }
}
