/** Facts about multiplication and integer division used by the weight rescaling. */
module Arith {

  lemma MulMonotone(d: nat, x: nat, y: nat)
    requires x <= y
    ensures d * x <= d * y
  {
  }

  lemma DivMonotone(a: nat, b: nat, d: nat)
    requires a <= b && d > 0
    ensures a / d <= b / d
  {
    if a / d > b / d {
      MulMonotone(d, b / d + 1, a / d);
    }
  }

  lemma MulDivCancel(m: nat, d: nat)
    requires d > 0
    ensures (d * m) / d == m
  {
    var q := (d * m) / d;
    if q < m {
      MulMonotone(d, q + 1, m);
    } else if q > m {
      MulMonotone(d, m + 1, q);
    }
  }

  lemma MulCancelLe(x: nat, y: nat, d: nat)
    requires d > 0 && d * x <= d * y
    ensures x <= y
  {
    if x > y {
      MulMonotone(d, y + 1, x);
    }
  }
}
