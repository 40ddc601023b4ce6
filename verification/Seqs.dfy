/** Facts about sequences that several models share. */
module Seqs {
  ghost predicate Distinct<T>(s: seq<T>) {
    forall i, j :: 0 <= i < j < |s| ==> s[i] != s[j]
  }

  function Without<T>(s: seq<T>, i: int): (r: seq<T>)
    requires 0 <= i < |s|
  {
    s[..i] + s[i + 1..]
  }

  lemma {:induction false} WithoutMiddle<T>(pre: seq<T>, l: seq<T>, x: T, r: seq<T>, post: seq<T>)
    ensures Without(pre + (l + [x] + r) + post, |pre| + |l|) == pre + l + (r + post)
  {
    var s, k := pre + (l + [x] + r) + post, |pre| + |l|;
    assert s[..k] == pre + l;
    assert s[k + 1..] == r + post;
  }

  /** A sequence with a range set to one value. */
  ghost function Filled<T>(s: seq<T>, from: nat, n: nat, x: T): (r: seq<T>)
    requires from + n <= |s|
    ensures |r| == |s| && forall i :: 0 <= i < |s| ==> r[i] == if from <= i < from + n then x else s[i]
  {
    seq(|s|, i requires 0 <= i < |s| => if from <= i < from + n then x else s[i])
  }

  lemma {:induction false} FilledOne<T>(s: seq<T>, f: nat, x: T)
    requires f < |s|
    ensures Filled(s, f, 1, x) == s[f := x]
  {
  }
}
