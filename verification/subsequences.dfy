/** Order-preserving subsequences, the reference notion used to say that a
    filter keeps the relative order of the elements it retains. */
module Subsequences {

  /** `s` can be obtained from `t` by deleting elements, without reordering. */
  predicate IsSubsequence<T(==)>(s: seq<T>, t: seq<T>)
    decreases |t|
  {
    if |s| == 0 then true
    else if |t| == 0 then false
    else (s[0] == t[0] && IsSubsequence(s[1..], t[1..])) || IsSubsequence(s, t[1..])
  }

  /** Prepending an element to the larger sequence keeps a subsequence one. */
  lemma SubsequenceOfCons<T>(s: seq<T>, x: T, t: seq<T>)
    requires IsSubsequence(s, t)
    ensures IsSubsequence(s, [x] + t)
  {
  }

  /** A subsequence is never longer than the sequence it is drawn from. */
  lemma {:induction false} SubsequenceLength<T>(s: seq<T>, t: seq<T>)
    requires IsSubsequence(s, t)
    ensures |s| <= |t|
    decreases |t|
  {
    if |s| > 0 {
      if s[0] == t[0] && IsSubsequence(s[1..], t[1..]) {
        SubsequenceLength(s[1..], t[1..]);
      } else {
        SubsequenceLength(s, t[1..]);
      }
    }
  }

  /** A subsequence as long as its source is the source itself. */
  lemma {:induction false} SubsequenceOfSameLength<T>(s: seq<T>, t: seq<T>)
    requires IsSubsequence(s, t)
    requires |s| == |t|
    ensures s == t
    decreases |t|
  {
    if |s| > 0 {
      if s[0] == t[0] && IsSubsequence(s[1..], t[1..]) {
        SubsequenceOfSameLength(s[1..], t[1..]);
        assert s == [s[0]] + s[1..];
        assert t == [t[0]] + t[1..];
      } else {
        SubsequenceLength(s, t[1..]);
        assert false;
      }
    }
  }
}
