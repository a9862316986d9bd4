/**
 * The two array combinators the overlay uses, `Array.prototype.filter` and
 * `Array.prototype.map`, on sequences, with the facts the model needs about them.
 */
module Sequences {

  /** `s.filter(keep)`: the elements of s that satisfy keep, in their original order. */
  function Filter<T(!new)>(s: seq<T>, keep: T -> bool): (r: seq<T>)
    ensures |r| <= |s|
    ensures forall x :: x in r <==> x in s && keep(x)
  {
    if s == [] then []
    else (if keep(s[0]) then [s[0]] else []) + Filter(s[1..], keep)
  }

  /** `s.map(f)`: f applied to each element, position by position. */
  function Map<T, U>(s: seq<T>, f: T -> U): (r: seq<U>)
    ensures |r| == |s|
    ensures forall i :: 0 <= i < |s| ==> r[i] == f(s[i])
  {
    if s == [] then [] else [f(s[0])] + Map(s[1..], f)
  }

  /** The indices in idx are strictly increasing. */
  predicate Increasing(idx: seq<nat>) {
    forall k1, k2 :: 0 <= k1 < k2 < |idx| ==> idx[k1] < idx[k2]
  }

  /** Filtering a concatenation filters each part. */
  lemma {:induction false} FilterAppend<T(!new)>(a: seq<T>, b: seq<T>, keep: T -> bool)
    ensures Filter(a + b, keep) == Filter(a, keep) + Filter(b, keep)
  {
    if a == [] {
      assert a + b == b;
    } else {
      assert (a + b)[0] == a[0];
      assert (a + b)[1..] == a[1..] + b;
      FilterAppend(a[1..], b, keep);
    }
  }

  /** When every element is kept, filtering changes nothing. */
  lemma {:induction false} FilterKeepsAll<T(!new)>(s: seq<T>, keep: T -> bool)
    requires forall i :: 0 <= i < |s| ==> keep(s[i])
    ensures Filter(s, keep) == s
  {
    if s != [] {
      assert keep(s[0]);
      FilterKeepsAll(s[1..], keep);
      assert [s[0]] + s[1..] == s;
    }
  }

  /** Filtering twice with the same test is filtering once. */
  lemma FilterIdempotent<T(!new)>(s: seq<T>, keep: T -> bool)
    ensures Filter(Filter(s, keep), keep) == Filter(s, keep)
  {
    var r := Filter(s, keep);
    FilterKeepsAll(r, keep);
  }

  /**
   * r is the subsequence of s at the increasing indices idx, and idx holds
   * exactly the positions of s whose element satisfies keep.
   */
  ghost predicate Picks<T>(s: seq<T>, keep: T -> bool, r: seq<T>, idx: seq<nat>) {
    && |idx| == |r| && Increasing(idx)
    && (forall k :: 0 <= k < |idx| ==> idx[k] < |s| && keep(s[idx[k]]) && r[k] == s[idx[k]])
    && (forall i :: 0 <= i < |s| && keep(s[i]) ==> i in idx)
  }

  /** The filtered sequence is the subsequence of s at exactly the kept positions, in order. */
  lemma {:induction false} FilterOrder<T(!new)>(s: seq<T>, keep: T -> bool) returns (idx: seq<nat>)
    ensures Picks(s, keep, Filter(s, keep), idx)
  {
    if s == [] {
      idx := [];
    } else {
      var init, last := s[..|s| - 1], s[|s| - 1];
      assert s == init + [last];
      var prev := FilterOrder(init, keep);
      FilterAppend(init, [last], keep);
      assert Filter([last], keep) == if keep(last) then [last] else [] by {
        assert [last][1..] == [];
      }
      idx := PicksSnoc(init, last, keep, Filter(init, keep), prev);
    }
  }

  /** Picks survives appending one element to s. */
  lemma PicksSnoc<T>(init: seq<T>, last: T, keep: T -> bool, r: seq<T>, prev: seq<nat>)
    returns (idx: seq<nat>)
    requires Picks(init, keep, r, prev)
    ensures Picks(init + [last], keep, r + (if keep(last) then [last] else []), idx)
  {
    var s := init + [last];
    var r' := r + (if keep(last) then [last] else []);
    idx := if keep(last) then prev + [|init|] else prev;
    forall k | 0 <= k < |idx|
      ensures idx[k] < |s| && keep(s[idx[k]]) && r'[k] == s[idx[k]]
    {
      if k < |prev| {
        assert idx[k] == prev[k] && r'[k] == r[k] && s[prev[k]] == init[prev[k]];
      }
    }
    forall i | 0 <= i < |s| && keep(s[i]) ensures i in idx {
      if i < |init| {
        assert s[i] == init[i];
        var k :| 0 <= k < |prev| && prev[k] == i;
        assert idx[k] == i;
      } else {
        assert idx[|prev|] == i;
      }
    }
  }
}
