/**
 * The one way the gallery turns a random number into a choice:
 * `Math.floor(Math.random() * n)`. `Math.random()` itself is not modelled;
 * its value reaches the model as a real parameter in [0, 1).
 */
module RandomDraw {

  /** A value `Math.random()` can return: 0 <= r < 1. */
  predicate Unit(r: real) {
    0.0 <= r < 1.0
  }

  /** `Math.floor(r * n)`: for every draw in [0, 1) an index of a collection of size n. */
  function RandomIndex(r: real, n: nat): (k: nat)
    requires Unit(r) && n > 0
    ensures k < n
  {
    assert 0.0 <= r * n as real < n as real;
    (r * n as real).Floor
  }

  /** Every index is drawn by some value in [0, 1): the draw k / n lands on k. */
  lemma RandomIndexOnto(n: nat, k: nat)
    requires k < n
    ensures Unit(k as real / n as real)
    ensures RandomIndex(k as real / n as real, n) == k
  {
    var r := k as real / n as real;
    assert r * n as real == k as real;
    assert r < 1.0 by {
      assert k as real < n as real;
    }
  }
}
