/** Small facts about sequences shared by the filter and the trace buffer. */
module Sequences {
  function Last<T>(s: seq<T>): T
    requires |s| > 0
  {
    s[|s| - 1]
  }

  function DropLast<T>(s: seq<T>): seq<T>
    requires |s| > 0
  {
    s[..|s| - 1]
  }

  /** `xs` is obtained from `ys` by deleting some elements and keeping the order of the rest. */
  predicate IsSubsequence<T(==)>(xs: seq<T>, ys: seq<T>)
    decreases |ys|
  {
    if xs == [] then true
    else if ys == [] then false
    else (Last(xs) == Last(ys) && IsSubsequence(DropLast(xs), DropLast(ys)))
         || IsSubsequence(xs, DropLast(ys))
  }

  lemma SubsequenceKeepLast<T>(xs: seq<T>, ys: seq<T>, a: T)
    requires IsSubsequence(xs, ys)
    ensures IsSubsequence(xs + [a], ys + [a])
  {
    assert DropLast(xs + [a]) == xs;
    assert DropLast(ys + [a]) == ys;
  }

  lemma SubsequenceSkipLast<T>(xs: seq<T>, ys: seq<T>, a: T)
    requires IsSubsequence(xs, ys)
    ensures IsSubsequence(xs, ys + [a])
  {
    assert DropLast(ys + [a]) == ys;
  }

  /** A subsequence is no longer than the sequence and draws its elements from it. */
  lemma {:induction false} SubsequenceElements<T>(xs: seq<T>, ys: seq<T>)
    requires IsSubsequence(xs, ys)
    ensures |xs| <= |ys|
    ensures forall x :: x in xs ==> x in ys
    decreases |ys|
  {
    if xs != [] {
      assert ys == DropLast(ys) + [Last(ys)];
      if Last(xs) == Last(ys) && IsSubsequence(DropLast(xs), DropLast(ys)) {
        SubsequenceElements(DropLast(xs), DropLast(ys));
        assert xs == DropLast(xs) + [Last(xs)];
      } else {
        SubsequenceElements(xs, DropLast(ys));
      }
    }
  }

  /** The concatenation of a sequence of sequences, in order. */
  function Flatten<T>(ss: seq<seq<T>>): seq<T>
    decreases |ss|
  {
    if ss == [] then [] else Flatten(DropLast(ss)) + Last(ss)
  }
}
