/**
 * `shuffleArray` of the gallery: the in-place Durstenfeld form of the
 * Fisher-Yates shuffle (Knuth, The Art of Computer Programming, Vol. 2,
 * section 3.4.2, Algorithm P). The photos fetched from the listing endpoint
 * are shuffled with it before they are shown.
 *
 * Each pass draws `Math.floor(Math.random() * currentIndex)`; the model takes
 * the values of `Math.random()` as the sequence `randoms`, one per pass, and
 * specifies the method by the pure function `Shuffled` of the draw indices.
 */
module Shuffle {
  import opened RandomDraw

  /** The sequence s with the elements at i and j exchanged. */
  function Swap<T>(s: seq<T>, i: nat, j: nat): (r: seq<T>)
    requires i < |s| && j < |s|
    ensures |r| == |s| && r[i] == s[j] && r[j] == s[i]
    ensures forall k :: 0 <= k < |s| && k != i && k != j ==> r[k] == s[k]
  {
    s[i := s[j]][j := s[i]]
  }

  /** A swap only rearranges. */
  lemma SwapPermutes<T>(s: seq<T>, i: nat, j: nat)
    requires i < |s| && j < |s|
    ensures multiset(Swap(s, i, j)) == multiset(s)
  {
  }

  /**
   * ds are the swap indices of a shuffle that still has c passes to run:
   * the pass with c - k cells left to place swaps with an index below c - k.
   */
  predicate ValidDraws(ds: seq<nat>, c: nat) {
    |ds| == c && forall k :: 0 <= k < c ==> ds[k] < c - k
  }

  /** The swap indices that the values `randoms` of `Math.random()` give, pass by pass. */
  function Draws(randoms: seq<real>): (ds: seq<nat>)
    requires forall k :: 0 <= k < |randoms| ==> Unit(randoms[k])
    ensures ValidDraws(ds, |randoms|)
    ensures forall k :: 0 <= k < |randoms| ==> ds[k] == RandomIndex(randoms[k], |randoms| - k)
  {
    if randoms == [] then []
    else [RandomIndex(randoms[0], |randoms|)] + Draws(randoms[1..])
  }

  /**
   * The result of the passes that still have to run when `currentIndex` is c:
   * each pass swaps cell c - 1 with the drawn cell and lowers c by one.
   */
  function Shuffled<T>(s: seq<T>, c: nat, ds: seq<nat>): (r: seq<T>)
    requires c <= |s| && ValidDraws(ds, c)
    ensures |r| == |s|
    decreases c
  {
    if c == 0 then s
    else Shuffled(Swap(s, c - 1, ds[0]), c - 1, ds[1..])
  }

  /** The shuffle only rearranges: the result is a permutation of s. */
  lemma {:induction false} ShuffledPermutes<T>(s: seq<T>, c: nat, ds: seq<nat>)
    requires c <= |s| && ValidDraws(ds, c)
    ensures multiset(Shuffled(s, c, ds)) == multiset(s)
    decreases c
  {
    if c > 0 {
      SwapPermutes(s, c - 1, ds[0]);
      ShuffledPermutes(Swap(s, c - 1, ds[0]), c - 1, ds[1..]);
    }
  }

  /** The cells at c and above are never touched again. */
  lemma {:induction false} ShuffledKeepsTail<T>(s: seq<T>, c: nat, ds: seq<nat>)
    requires c <= |s| && ValidDraws(ds, c)
    ensures forall k :: c <= k < |s| ==> Shuffled(s, c, ds)[k] == s[k]
    decreases c
  {
    if c > 0 {
      var s' := Swap(s, c - 1, ds[0]);
      ShuffledKeepsTail(s', c - 1, ds[1..]);
    }
  }

  /** The cell at c - 1 is final after the first pass: it holds the element the first draw picked. */
  lemma ShuffledPlacesDrawn<T>(s: seq<T>, c: nat, ds: seq<nat>)
    requires 0 < c <= |s| && ValidDraws(ds, c)
    ensures Shuffled(s, c, ds)[c - 1] == s[ds[0]]
  {
    ShuffledKeepsTail(Swap(s, c - 1, ds[0]), c - 1, ds[1..]);
    ShuffledFirstPass(s, c, ds);
  }

  /** No element occurs twice in s. */
  predicate Distinct<T(==)>(s: seq<T>) {
    forall i, j :: 0 <= i < j < |s| ==> s[i] != s[j]
  }

  /** A swap keeps the elements distinct. */
  lemma SwapDistinct<T>(s: seq<T>, i: nat, j: nat)
    requires i < |s| && j < |s| && Distinct(s)
    ensures Distinct(Swap(s, i, j))
  {
    var r := Swap(s, i, j);
    // position p of r holds the element of s at p'
    forall p, q | 0 <= p < q < |r| ensures r[p] != r[q] {
      var p' := if p == i then j else if p == j then i else p;
      var q' := if q == i then j else if q == j then i else q;
      assert r[p] == s[p'] && r[q] == s[q'] && p' != q';
    }
  }

  /**
   * On distinct elements, different draw sequences give different orders:
   * a shuffle result determines the draws that produced it.
   */
  lemma {:induction false} ShuffledInjective<T>(s: seq<T>, c: nat, ds1: seq<nat>, ds2: seq<nat>)
    requires c <= |s| && Distinct(s) && ValidDraws(ds1, c) && ValidDraws(ds2, c)
    requires Shuffled(s, c, ds1) == Shuffled(s, c, ds2)
    ensures ds1 == ds2
    decreases c
  {
    if c > 0 {
      ShuffledPlacesDrawn(s, c, ds1);
      ShuffledPlacesDrawn(s, c, ds2);
      assert s[ds1[0]] == s[ds2[0]];
      assert ds1[0] == ds2[0];
      var s' := Swap(s, c - 1, ds1[0]);
      SwapDistinct(s, c - 1, ds1[0]);
      ShuffledFirstPass(s, c, ds1);
      ShuffledFirstPass(s, c, ds2);
      ShuffledInjective(s', c - 1, ds1[1..], ds2[1..]);
      SeqsAgree(ds1, ds2);
    }
  }

  /** Unfolds Shuffled by one pass. */
  lemma ShuffledFirstPass<T>(s: seq<T>, c: nat, ds: seq<nat>)
    requires 0 < c <= |s| && ValidDraws(ds, c)
    ensures ValidDraws(ds[1..], c - 1)
    ensures Shuffled(s, c, ds) == Shuffled(Swap(s, c - 1, ds[0]), c - 1, ds[1..])
  {
  }

  /** Two sequences with the same head and the same tail are equal. */
  lemma SeqsAgree(a: seq<nat>, b: seq<nat>)
    requires |a| == |b| > 0 && a[0] == b[0] && a[1..] == b[1..]
    ensures a == b
  {
    assert a == [a[0]] + a[1..] && b == [b[0]] + b[1..];
  }

  /**
   * Every rearrangement of the first c cells that leaves the others alone is
   * the result of some draw sequence.
   */
  lemma {:induction false} ShuffledReachesEvery<T>(s: seq<T>, t: seq<T>, c: nat) returns (ds: seq<nat>)
    requires c <= |s| == |t| && t[c..] == s[c..] && multiset(t[..c]) == multiset(s[..c])
    ensures ValidDraws(ds, c) && Shuffled(s, c, ds) == t
    decreases c
  {
    if c == 0 {
      assert s == s[0..] && t == t[0..];
      ds := [];
    } else {
      var x := t[c - 1];
      assert x in multiset(t[..c]) by { assert t[..c][c - 1] == x; }
      assert x in s[..c];
      var j :| 0 <= j < c && s[..c][j] == x;
      var s' := Swap(s, c - 1, j);
      ReachTail(s, t, c, j);
      ReachFront(s, t, c, j);
      var rest := ShuffledReachesEvery(s', t, c - 1);
      ds := [j] + rest;
      assert ds[0] == j && ds[1..] == rest;
      ShuffledFirstPass(s, c, ds);
    }
  }

  /**
   * Swapping the element that t holds at c - 1 into place leaves a smaller
   * instance of the same problem: the tails agree from c - 1 on ...
   */
  lemma ReachTail<T>(s: seq<T>, t: seq<T>, c: nat, j: nat)
    requires 0 < c <= |s| == |t| && t[c..] == s[c..]
    requires j < c && s[j] == t[c - 1]
    ensures t[c - 1..] == Swap(s, c - 1, j)[c - 1..]
  {
    var s' := Swap(s, c - 1, j);
    forall k | c - 1 <= k < |s| ensures t[k] == s'[k] {
      if k >= c { assert t[k] == t[c..][k - c] && s[k] == s[c..][k - c]; }
    }
  }

  /** ... the parts in front hold the same elements ... */
  lemma ReachFront<T>(s: seq<T>, t: seq<T>, c: nat, j: nat)
    requires 0 < c <= |s| == |t| && multiset(t[..c]) == multiset(s[..c])
    requires j < c && s[j] == t[c - 1]
    ensures multiset(t[..c - 1]) == multiset(Swap(s, c - 1, j)[..c - 1])
  {
    var s' := Swap(s, c - 1, j);
    var front := s'[..c];
    assert front == Swap(s[..c], c - 1, j);
    SwapPermutes(s[..c], c - 1, j);
    MultisetDropLast(front, t[..c]);
    assert front[..c - 1] == s'[..c - 1] && t[..c][..c - 1] == t[..c - 1];
  }

  /** ... and so do the multisets of what is left in front, once the common last element is dropped. */
  lemma MultisetDropLast<T>(u: seq<T>, v: seq<T>)
    requires |u| == |v| > 0 && u[|u| - 1] == v[|v| - 1] && multiset(u) == multiset(v)
    ensures multiset(u[..|u| - 1]) == multiset(v[..|v| - 1])
  {
    var x, u', v' := u[|u| - 1], u[..|u| - 1], v[..|v| - 1];
    assert u == u' + [x];
    assert v == v' + [x];
    assert multiset(u') == multiset(u) - multiset{x};
    assert multiset(v') == multiset(v) - multiset{x};
  }

  /**
   * The shuffle as a whole: for distinct elements, every permutation is the
   * result of exactly one sequence of valid draws.
   */
  lemma ShuffleIsBijective<T>(s: seq<T>, t: seq<T>)
    requires Distinct(s) && multiset(t) == multiset(s)
    ensures exists ds :: ValidDraws(ds, |s|) && Shuffled(s, |s|, ds) == t
    ensures forall ds1, ds2 ::
              && ValidDraws(ds1, |s|) && ValidDraws(ds2, |s|)
              && Shuffled(s, |s|, ds1) == t && Shuffled(s, |s|, ds2) == t
              ==> ds1 == ds2
  {
    assert |t| == |multiset(t)| == |multiset(s)| == |s|;
    assert t[..|s|] == t && s[..|s|] == s && t[|s|..] == [] == s[|s|..];
    var ds := ShuffledReachesEvery(s, t, |s|);
    forall ds1, ds2 | ValidDraws(ds1, |s|) && ValidDraws(ds2, |s|) &&
      Shuffled(s, |s|, ds1) == t && Shuffled(s, |s|, ds2) == t
      ensures ds1 == ds2
    {
      ShuffledInjective(s, |s|, ds1, ds2);
    }
  }

  /**
   * Every valid draw sequence comes from some values of `Math.random()`:
   * the value ds[k] / (c - k) on the pass with c - k cells left draws ds[k].
   */
  lemma {:induction false} DrawsOnto(ds: seq<nat>, c: nat) returns (randoms: seq<real>)
    requires ValidDraws(ds, c)
    ensures |randoms| == c && forall k :: 0 <= k < c ==> Unit(randoms[k])
    ensures Draws(randoms) == ds
    decreases c
  {
    if c == 0 {
      randoms := [];
    } else {
      assert ValidDraws(ds[1..], c - 1) by {
        forall k | 0 <= k < c - 1 ensures ds[1..][k] < c - 1 - k {
          assert ds[1..][k] == ds[k + 1];
        }
      }
      var rest := DrawsOnto(ds[1..], c - 1);
      RandomIndexOnto(c, ds[0]);
      randoms := [ds[0] as real / c as real] + rest;
      assert randoms[1..] == rest;
      assert ds == [ds[0]] + ds[1..];
    }
  }

  /**
   * Every permutation of s is what `shuffleArray` makes of s for some values
   * of `Math.random()`.
   */
  lemma RandomsReachEvery<T>(s: seq<T>, t: seq<T>) returns (randoms: seq<real>)
    requires multiset(t) == multiset(s)
    ensures |randoms| == |s| && forall k :: 0 <= k < |s| ==> Unit(randoms[k])
    ensures Shuffled(s, |s|, Draws(randoms)) == t
  {
    assert |t| == |multiset(t)| == |multiset(s)| == |s|;
    assert t[..|s|] == t && s[..|s|] == s && t[|s|..] == [] == s[|s|..];
    var ds := ShuffledReachesEvery(s, t, |s|);
    randoms := DrawsOnto(ds, |s|);
  }

  /**
   * One pass of the loop, with `randoms` the values still to be drawn: if the
   * passes left from `before` lead to goal, the passes left after the swap
   * lead to goal too, and the cells from |randoms| - 1 on hold their final values.
   */
  lemma ShuffledStep<T>(before: seq<T>, after: seq<T>, randoms: seq<real>, r: nat, goal: seq<T>)
    requires 0 < |randoms| <= |before| && forall k :: 0 <= k < |randoms| ==> Unit(randoms[k])
    requires r == RandomIndex(randoms[0], |randoms|)
    requires |after| == |before| && after[|randoms| - 1] == before[r] && after[r] == before[|randoms| - 1]
    requires forall k :: 0 <= k < |before| && k != |randoms| - 1 && k != r ==> after[k] == before[k]
    requires Shuffled(before, |randoms|, Draws(randoms)) == goal
    ensures Shuffled(after, |randoms| - 1, Draws(randoms[1..])) == goal
    ensures forall k :: |randoms| - 1 <= k < |after| ==> after[k] == goal[k]
  {
    var c := |randoms|;
    var ds := Draws(randoms);
    assert ds[0] == r && ds[1..] == Draws(randoms[1..]);
    assert after == Swap(before, c - 1, r);
    ShuffledFirstPass(before, c, ds);
    ShuffledKeepsTail(after, c - 1, ds[1..]);
  }

  /**
   * `shuffleArray(array)`: shuffles a in place and returns the same array.
   * `randoms[k]` is the value `Math.random()` returns on the k-th pass.
   */
  method ShuffleArray<T>(a: array<T>, randoms: seq<real>) returns (result: array<T>)
    requires |randoms| == a.Length
    requires forall k :: 0 <= k < |randoms| ==> Unit(randoms[k])
    modifies a
    ensures result == a
    ensures a[..] == Shuffled(old(a[..]), a.Length, Draws(randoms))
    ensures multiset(a[..]) == multiset(old(a[..]))
  {
    ghost var goal := Shuffled(a[..], a.Length, Draws(randoms));
    var n := a.Length;
    var currentIndex, randomIndex := a.Length, 0;
    assert randoms[n - currentIndex..] == randoms;
    while currentIndex != 0
      invariant 0 <= currentIndex <= n
      invariant Shuffled(a[..], currentIndex, Draws(randoms[n - currentIndex..])) == goal
      invariant forall k :: currentIndex <= k < n ==> a[k] == goal[k]
      decreases currentIndex
    {
      ghost var left := randoms[n - currentIndex..];
      randomIndex := RandomIndex(randoms[n - currentIndex], currentIndex);
      ghost var before := a[..];
      currentIndex := currentIndex - 1;
      a[currentIndex], a[randomIndex] := a[randomIndex], a[currentIndex];
      ShuffledStep(before, a[..], left, randomIndex, goal);
      assert left[1..] == randoms[n - currentIndex..];
    }
    ShuffledPermutes(old(a[..]), n, Draws(randoms));
    return a;
  }
}
