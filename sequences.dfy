/** Ordered filtering and the subsequence relation on sequences. */
module Sequences {

  /** The elements of `xs` that satisfy `keep`, in their original order
      and with their original multiplicity. */
  function Filter<T>(keep: T -> bool, xs: seq<T>): (r: seq<T>)
    ensures |r| <= |xs|
    ensures forall x :: x in r ==> x in xs && keep(x)
    ensures forall x :: x in xs && keep(x) ==> x in r
  {
    if |xs| == 0 then []
    else if keep(xs[0]) then [xs[0]] + Filter(keep, xs[1..])
    else Filter(keep, xs[1..])
  }

  /** `xs` is obtained from `ys` by deleting zero or more elements,
      without reordering the rest. */
  ghost predicate IsSubsequence<T>(xs: seq<T>, ys: seq<T>)
    decreases |ys|
  {
    if |xs| == 0 then true
    else if |ys| == 0 then false
    else (xs[0] == ys[0] && IsSubsequence(xs[1..], ys[1..])) || IsSubsequence(xs, ys[1..])
  }

  /** Filtering never reorders: the result is a subsequence of the input. */
  lemma {:induction false} FilterIsSubsequence<T>(keep: T -> bool, xs: seq<T>)
    ensures IsSubsequence(Filter(keep, xs), xs)
    decreases |xs|
  {
    if |xs| > 0 {
      FilterIsSubsequence(keep, xs[1..]);
      var r := Filter(keep, xs[1..]);
      if keep(xs[0]) {
        assert Filter(keep, xs) == [xs[0]] + r;
        assert ([xs[0]] + r)[1..] == r;
      } else if |r| > 0 {
        assert IsSubsequence(r, xs[1..]);
      }
    }
  }

  /** Filtering distributes over concatenation. */
  lemma {:induction false} FilterAppend<T>(keep: T -> bool, xs: seq<T>, ys: seq<T>)
    ensures Filter(keep, xs + ys) == Filter(keep, xs) + Filter(keep, ys)
    decreases |xs|
  {
    if |xs| > 0 {
      assert (xs + ys)[0] == xs[0];
      assert (xs + ys)[1..] == xs[1..] + ys;
      FilterAppend(keep, xs[1..], ys);
    } else {
      assert xs + ys == ys;
    }
  }

  /** Keeping everything is the identity. */
  lemma {:induction false} FilterKeepsAll<T>(keep: T -> bool, xs: seq<T>)
    requires forall i :: 0 <= i < |xs| ==> keep(xs[i])
    ensures Filter(keep, xs) == xs
    decreases |xs|
  {
    if |xs| > 0 {
      FilterKeepsAll(keep, xs[1..]);
    }
  }
}
