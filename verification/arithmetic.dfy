/** Products and quotients of naturals, one step at a time for the solver. */
module Arithmetic {

  /** Bits in a word, units in a block, bytes in a size class: everything doubles. */
  function Power2(n: nat): (p: nat)
    ensures p > 0
  {
    if n == 0 then 1 else 2 * Power2(n - 1)
  }

  lemma DivUnique(x: nat, w: nat, q: nat, r: nat)
    requires x == q * w + r && r < w
    ensures x / w == q && x % w == r
  {
    var d := x / w;
    assert x == d * w + x % w;
    if d < q {
      MulMonotone(d + 1, q, w);
    } else if q < d {
      MulMonotone(q + 1, d, w);
    }
  }

  lemma MulMonotone(a: nat, b: nat, w: nat)
    requires a <= b
    ensures a * w <= b * w
  {
  }

  lemma Regroup(i: nat, a: nat, b: nat)
    ensures (i * a) * b == i * (b * a)
  {
  }

  lemma OneMore(i: nat, w: nat)
    ensures (i + 1) * w == i * w + w
  {
  }

  lemma Distribute(a: nat, b: nat, w: nat)
    ensures (a + b) * w == a * w + b * w
  {
  }

  lemma Commute(a: nat, b: nat)
    ensures a * b == b * a
  {
  }
}
