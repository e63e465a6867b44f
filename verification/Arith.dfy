/** Multiplication and division by a variable, one small fact at a time. */
module Arith {
  lemma MulNonneg(a: int, b: int)
    requires a >= 0 && b >= 0
    ensures a * b >= 0
  {
  }

  lemma MulMonotone(a: int, b: int, c: int)
    requires a <= b && c >= 0
    ensures a * c <= b * c
  {
    MulNonneg(b - a, c);
    assert (b - a) * c == b * c - a * c;
  }

  lemma Distribute(a: int, b: int, c: int)
    ensures (a + b) * c == a * c + b * c
    ensures (a - b) * c == a * c - b * c
  {
  }

  lemma DivMod(a: int, b: int)
    requires b > 0
    ensures a == a / b * b + a % b && 0 <= a % b < b
  {
  }

  /** The quotient is the only one that fits. */
  lemma DivUnique(a: int, b: int, q: int)
    requires b > 0 && q * b <= a < q * b + b
    ensures a / b == q && a % b == a - q * b
  {
    DivMod(a, b);
    var d := a / b;
    if d < q {
      MulMonotone(d + 1, q, b);
      Distribute(d, 1, b);
    } else if d > q {
      MulMonotone(q + 1, d, b);
      Distribute(q, 1, b);
    }
  }

  lemma DivBounds(a: nat, b: int)
    requires b > 0
    ensures 0 <= a / b <= a
    ensures a / b * b <= a
  {
    DivMod(a, b);
    if a / b < 0 {
      MulMonotone(a / b, -1, b);
    } else {
      MulMonotone(1, b, a / b);
    }
  }

  lemma MulDiv(q: int, b: int)
    requires b > 0
    ensures q * b / b == q && q * b % b == 0
  {
    DivUnique(q * b, b, q);
  }

  lemma CancelMul(a: int, b: int, c: int)
    requires c > 0 && a * c - 1 < b * c
    ensures a <= b
  {
    if a > b {
      MulMonotone(b + 1, a, c);
      Distribute(b, 1, c);
    }
  }
}
