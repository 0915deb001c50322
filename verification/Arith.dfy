/** Multiplication and division facts the solver needs by name. */
module Arith {

  lemma MulNotNegative(a: nat, b: nat)
    ensures a * b >= 0
  {
  }

  lemma MulMonotone(a: int, b: int, c: nat)
    requires a <= b
    ensures a * c <= b * c
  {
    MulNotNegative(b - a, c);
    assert (b - a) * c == b * c - a * c;
  }

  lemma MulPlus(a: int, k: int, c: int)
    ensures (a + k) * c == a * c + k * c
  {
  }

  lemma MulDouble(a: int, b: int)
    ensures a * (2 * b) == 2 * (a * b) == (2 * a) * b
  {
  }

  // Unsigned division, known by the multiple of d just below x.
  function Div(x: nat, d: nat): (q: nat)
    requires d > 0
    ensures q * d <= x < q * d + d
  {
    DivSplit(x, d);
    x / d
  }

  lemma DivSplit(x: nat, d: nat)
    requires d > 0
    ensures x / d >= 0 && (x / d) * d <= x < (x / d) * d + d
  {
    assert x == (x / d) * d + x % d;
  }

  lemma DivIs(x: nat, d: nat, q: nat)
    requires d > 0 && q * d <= x < q * d + d
    ensures Div(x, d) == q
  {
    hide Div;
    var e := Div(x, d);
    if e > q {
      MulMonotone(q + 1, e, d);
      MulPlus(q, 1, d);
    } else if e < q {
      MulMonotone(e + 1, q, d);
      MulPlus(e, 1, d);
    }
  }

  lemma DivBelow(x: nat, d: nat, q: nat)
    requires d > 0 && x < q * d
    ensures Div(x, d) < q
  {
    hide Div;
    if Div(x, d) >= q {
      MulMonotone(q, Div(x, d), d);
    }
  }

  lemma DivAtLeast(x: nat, d: nat, q: nat)
    requires d > 0 && q * d <= x
    ensures q <= Div(x, d)
  {
    hide Div;
    if Div(x, d) < q {
      MulMonotone(Div(x, d) + 1, q, d);
      MulPlus(Div(x, d), 1, d);
    }
  }

  lemma DivDouble(x: nat, d: nat)
    requires d > 0
    ensures Div(x / 2, d) == Div(x, 2 * d)
  {
    hide Div;
    var q := Div(x / 2, d);
    assert q * (2 * d) == 2 * (q * d);
    DivIs(x, 2 * d, q);
  }
}
