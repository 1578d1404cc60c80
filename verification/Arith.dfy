/** The few facts about products and quotients of variables that the proofs need. */
module Arith {
  lemma MulOrder(x: int, y: int, b: nat)
    requires x < y
    ensures x * b + b <= y * b
    decreases y - x
  {
    if x + 1 < y {
      MulOrder(x, y - 1, b);
    }
    assert y * b == (y - 1) * b + b;
  }

  lemma DivMod(v: int, b: nat)
    requires b > 0
    ensures v == (v / b) * b + v % b && 0 <= v % b < b
  {
  }

  lemma DivModUnique(q: int, r: nat, b: nat)
    requires r < b
    ensures (q * b + r) / b == q && (q * b + r) % b == r
  {
    var v := q * b + r;
    DivMod(v, b);
    if v / b < q {
      MulOrder(v / b, q, b);
    } else if q < v / b {
      MulOrder(q, v / b, b);
    }
  }

  lemma QuotientZero(v: nat, b: nat)
    requires b > 0
    ensures v / b == 0 <==> v < b
  {
    DivMod(v, b);
    if v / b > 0 {
      MulOrder(0, v / b, b);
    }
  }

  lemma DivSmaller(v: nat, b: nat)
    requires b >= 2 && v >= b
    ensures 0 < v / b < v
  {
  }
}
