/** Powers of two, one bits, and division facts shared by the other modules. */
module Arith {

  function Pow2(n: nat): (p: nat)
    ensures p >= 1
  {
    if n == 0 then 1 else 2 * Pow2(n - 1)
  }

  /** The number of one bits of x. */
  function OneBits(x: nat): (n: nat)
    ensures x > 0 ==> n > 0
  {
    if x == 0 then 0 else x % 2 + OneBits(x / 2)
  }

  lemma MulMonotone(a: nat, x: int, y: int)
    requires x <= y
    ensures a * x <= a * y
  {
  }

  /** One more multiple of d is d more. */
  lemma Above(d: nat, q: int, q': int)
    requires q < q'
    ensures d * q + d <= d * q'
  {
    MulMonotone(d, q + 1, q');
    assert d * (q + 1) == d * q + d;
  }

  lemma QuotientUnique(d: nat, q: int, r: int, q': int, r': int)
    requires 0 <= r < d && 0 <= r' < d && d * q + r == d * q' + r'
    ensures q == q' && r == r'
  {
    if q < q' {
      Above(d, q, q');
    } else if q' < q {
      Above(d, q', q);
    }
  }

  /** Quotient of natural numbers (math.Int.Quo on operands that are not negative). */
  function Quo(x: nat, d: nat): (q: nat)
    requires d > 0
    ensures d * q <= x < d * q + d
  {
    QuoBounds(x, d);
    x / d
  }

  function Rem(x: nat, d: nat): (r: nat)
    requires d > 0
    ensures r < d && x == d * Quo(x, d) + r
  {
    x - d * Quo(x, d)
  }

  lemma QuoBounds(x: nat, d: nat)
    requires d > 0
    ensures 0 <= x / d && d * (x / d) <= x < d * (x / d) + d
  {
  }

  function Times(x: nat, y: nat): (z: nat)
  {
    MulMonotone(x, 0, y);
    x * y
  }

  lemma QuoIs(x: nat, d: nat, q: nat, r: nat)
    requires r < d && x == d * q + r
    ensures Quo(x, d) == q && Rem(x, d) == r
  {
    QuotientUnique(d, q, r, Quo(x, d), Rem(x, d));
  }

  /** Halving first: the quotient is the same and the remainder loses its last bit. */
  lemma QuoByTwice(x: nat, k: nat)
    requires k > 0
    ensures Quo(x, 2 * k) == Quo(x / 2, k)
    ensures Rem(x, 2 * k) == 2 * Rem(x / 2, k) + x % 2
  {
    var q, s := Quo(x / 2, k), Rem(x / 2, k);
    assert 2 * k * q == 2 * (k * q);
    QuoIs(x, 2 * k, q, 2 * s + x % 2);
  }

  lemma QuoMonotone(x: nat, y: nat, d: nat)
    requires x <= y && d > 0
    ensures Quo(x, d) <= Quo(y, d)
  {
    if Quo(y, d) < Quo(x, d) {
      Above(d, Quo(y, d), Quo(x, d));
    }
  }
}
