/** Sequence helpers shared by the model: the library `Array.prototype.filter`
    and the subsequence relation used to state that an operation keeps order. */
module Seqs {

  /** `idx` places every element of `p`, in order, at strictly increasing
      positions of `s`, all of them at or after `from`. */
  ghost predicate Embeds<T>(p: seq<T>, s: seq<T>, idx: seq<nat>, from: nat)
  {
    && |idx| == |p|
    && (forall k :: 0 <= k < |idx| ==> from <= idx[k] < |s| && s[idx[k]] == p[k])
    && (forall a, b :: 0 <= a < b < |idx| ==> idx[a] < idx[b])
  }

  /** `p` can be read off `s` left to right, skipping elements of `s`. */
  ghost predicate IsSubsequence<T>(p: seq<T>, s: seq<T>)
  {
    exists idx :: Embeds(p, s, idx, 0)
  }

  /** `xs.filter(keep)`: the elements satisfying `keep`, in their order. */
  function Filter<T(!new)>(xs: seq<T>, keep: T -> bool): (r: seq<T>)
    ensures |r| <= |xs|
  {
    if xs == [] then []
    else Filter(xs[..|xs| - 1], keep) + (if keep(xs[|xs| - 1]) then [xs[|xs| - 1]] else [])
  }

  /** What `Filter` returns: each kept value as often as in `xs`, nothing else. */
  lemma {:induction false} FilterContents<T(!new)>(xs: seq<T>, keep: T -> bool)
    ensures forall x :: x in Filter(xs, keep) <==> x in xs && keep(x)
    ensures forall x :: multiset(Filter(xs, keep))[x] == if keep(x) then multiset(xs)[x] else 0
  {
    if xs != [] {
      var init, last := xs[..|xs| - 1], xs[|xs| - 1];
      assert xs == init + [last];
      FilterContents(init, keep);
    }
  }

  /** Filtering keeps the order of the elements it keeps. */
  lemma {:induction false} FilterKeepsOrder<T(!new)>(xs: seq<T>, keep: T -> bool) returns (idx: seq<nat>)
    ensures Embeds(Filter(xs, keep), xs, idx, 0)
  {
    if xs == [] {
      idx := [];
    } else {
      var init, last := xs[..|xs| - 1], xs[|xs| - 1];
      var prev := FilterKeepsOrder(init, keep);
      var f := Filter(init, keep);
      var r := f + (if keep(last) then [last] else []);
      assert Filter(xs, keep) == r;
      idx := prev + (if keep(last) then [|xs| - 1] else []);
      forall k | 0 <= k < |idx|
        ensures idx[k] < |xs| && xs[idx[k]] == r[k]
      {
        if k < |prev| {
          assert idx[k] == prev[k] && r[k] == f[k];
          assert init[prev[k]] == f[k];
        }
      }
    }
  }

  /** Filtering with a test every element passes returns the whole sequence. */
  lemma {:induction false} FilterAll<T(!new)>(xs: seq<T>, keep: T -> bool)
    requires forall x :: x in xs ==> keep(x)
    ensures Filter(xs, keep) == xs
  {
    if xs != [] {
      var init, last := xs[..|xs| - 1], xs[|xs| - 1];
      forall x | x in init
        ensures keep(x)
      {
        var i :| 0 <= i < |init| && init[i] == x;
        assert xs[i] == x;
      }
      FilterAll(init, keep);
      assert keep(xs[|xs| - 1]);
      assert xs == init + [last];
    }
  }
}
