/**
  Whole-number multiplication and ceiling division for the page arithmetic.
  `Mul` is defined by recursion so that the solver sees a product only through
  the lemmas below; each lemma is proved in a context that holds nothing else.
*/
module Arith {

  /** `a * b`. */
  function Mul(a: nat, b: nat): nat {
    if a == 0 then 0 else b + Mul(a - 1, b)
  }

  lemma {:induction false} MulIsProduct(a: nat, b: nat)
    ensures Mul(a, b) == a * b
  {
    if a > 0 {
      MulIsProduct(a - 1, b);
    }
  }

  lemma MulZero(b: nat)
    ensures Mul(0, b) == 0
  {
  }

  lemma MulOne(b: nat)
    ensures Mul(1, b) == b
  {
  }

  lemma MulAddLeft(a: nat, c: nat, b: nat)
    ensures Mul(a + c, b) == Mul(a, b) + Mul(c, b)
  {
    MulIsProduct(a + c, b);
    MulIsProduct(a, b);
    MulIsProduct(c, b);
  }

  lemma {:induction false} MulAssoc(a: nat, b: nat, c: nat)
    ensures Mul(Mul(a, b), c) == Mul(a, Mul(b, c))
  {
    if a > 0 {
      MulAddLeft(b, Mul(a - 1, b), c);
      MulAssoc(a - 1, b, c);
    }
  }

  lemma MulMonotone(a: nat, c: nat, b: nat)
    requires a <= c
    ensures Mul(a, b) <= Mul(c, b)
  {
    MulIsProduct(a, b);
    MulIsProduct(c, b);
    assert a * b <= c * b;
  }

  /** Reading monotonicity backwards: a strictly smaller product has a smaller factor. */
  lemma MulStrictInverse(a: nat, c: nat, b: nat)
    requires Mul(a, b) < Mul(c, b)
    ensures a < c
  {
    if c <= a {
      MulMonotone(c, a, b);
    }
  }

  lemma MulPositive(a: nat, b: nat)
    requires a >= 1 && b >= 1
    ensures Mul(a, b) >= b && Mul(a, b) >= a
  {
    MulIsProduct(a, b);
    assert a * b >= 1 * b;
    assert a * b >= a * 1;
  }

  /** Euclidean division by a positive number, in terms of `Mul`. */
  lemma DivMod(a: nat, b: nat)
    requires b > 0
    ensures a == Mul(a / b, b) + a % b && a % b < b
  {
    MulIsProduct(a / b, b);
  }

  /** `Math.ceil(a / b)` for whole numbers: the least `q` with `a <= q * b`. */
  function CeilDiv(a: nat, b: nat): (q: nat)
    requires b > 0
    ensures a <= Mul(q, b) < a + b
  {
    DivMod(a + b - 1, b);
    (a + b - 1) / b
  }

  /** Any multiplier whose product lies in [a, a + b) is the ceiling. */
  lemma CeilDivUnique(a: nat, b: nat, q: nat)
    requires b > 0 && a <= Mul(q, b) < a + b
    ensures q == CeilDiv(a, b)
  {
    var c := CeilDiv(a, b);
    if q < c {
      MulMonotone(q + 1, c, b);
      MulAddLeft(q, 1, b);
      MulOne(b);
    } else if c < q {
      MulMonotone(c + 1, q, b);
      MulAddLeft(c, 1, b);
      MulOne(b);
    }
  }
}
