/** The subsequence relation, used to state that a filter keeps order, and a
    slicing fact. */
module Sequences {

  /** `a` can be obtained from `b` by deleting elements: nothing is invented
      and the relative order of what remains is that of `b`. */
  predicate IsSubsequence<T(==)>(a: seq<T>, b: seq<T>)
    decreases |b|
  {
    || |a| == 0
    || (&& |b| > 0
        && (|| (a[0] == b[0] && IsSubsequence(a[1..], b[1..]))
            || IsSubsequence(a, b[1..])))
  }

  /** A sequence is its three consecutive slices. */
  lemma ThreeParts<T>(s: seq<T>, i: nat, j: nat)
    requires i <= j <= |s|
    ensures s == s[..i] + s[i..j] + s[j..]
  {
  }
}
