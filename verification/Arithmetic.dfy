/** Facts about multiplication and Euclidean division that the solver is slow to find. */
module Arithmetic {

  lemma MulMono(a: nat, x: int, y: int)
    requires x <= y
    ensures a * x <= a * y
  {
    assert a * y - a * x == a * (y - x);
  }

  /** The quotient and the remainder of `a * q + r`. */
  lemma DivModUnique(a: nat, q: nat, r: nat)
    requires r < a
    ensures (a * q + r) / a == q && (a * q + r) % a == r
  {
    var x := a * q + r;
    var k := x / a - q;
    assert a * k == a * (x / a) - a * q;
    assert a * k == r - x % a;
    if k >= 1 {
      MulMono(a, 1, k);
    } else if k <= -1 {
      MulMono(a, k, -1);
    }
  }
}
