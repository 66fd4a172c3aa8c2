/** Order-preserving selection from a sequence. */
module Sequences {

  /** True iff `s` can be obtained from `t` by deleting elements, keeping the order of the rest. */
  predicate IsSubsequence<T(==)>(s: seq<T>, t: seq<T>)
    decreases |t|
  {
    if |s| == 0 then true
    else if |t| == 0 then false
    else (s[0] == t[0] && IsSubsequence(s[1..], t[1..])) || IsSubsequence(s, t[1..])
  }

  /** A subsequence never holds an element more often than the sequence it was taken from. */
  lemma {:induction false} SubsequenceMultiset<T>(s: seq<T>, t: seq<T>)
    requires IsSubsequence(s, t)
    ensures multiset(s) <= multiset(t)
    ensures |s| <= |t|
    decreases |t|
  {
    if |s| == 0 {
    } else {
      assert t == [t[0]] + t[1..];
      if s[0] == t[0] && IsSubsequence(s[1..], t[1..]) {
        SubsequenceMultiset(s[1..], t[1..]);
        assert s == [s[0]] + s[1..];
      } else {
        SubsequenceMultiset(s, t[1..]);
      }
    }
  }
}
