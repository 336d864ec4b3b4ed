/** Small arithmetic the other modules share. */
module Numbers {
  function Min(a: nat, b: nat): nat {
    if a < b then a else b
  }

  /** `Math.ceil(ms / 1000)`. */
  function CeilSeconds(ms: int): int {
    -((-ms) / 1000)
  }

  lemma MulMonotone(b: nat, p: int, q: int)
    requires p <= q
    ensures b * p <= b * q
  {}

  lemma DivAtLeast(x: int, l: int, k: nat)
    requires l > 0 && x >= l * k
    ensures x / l >= k
  {
    var q := x / l;
    assert x < l * (q + 1);
    if q + 1 <= k { MulMonotone(l, q + 1, k); }
  }

  lemma {:induction false} SubsetSize<T>(a: set<T>, b: set<T>)
    requires a <= b
    ensures |a| <= |b|
    ensures |a| == |b| ==> a == b
  {
    assert b == a + (b - a);
  }
}
