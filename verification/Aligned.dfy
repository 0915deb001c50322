/** Rounding to whole units (littlefs/lfs_util.h, lfs_aligndown and lfs_alignup). */
module Aligned {
  import Arith

  predicate Divides(d: nat, x: nat)
    requires d > 0
  {
    x % d == 0
  }

  function AlignDown(a: nat, unit: nat): (r: nat)
    requires unit > 0
    ensures r <= a < r + unit && Divides(unit, r)
  {
    Quotient(a, unit);
    Multiple(a / unit, unit);
    a - a % unit
  }

  function AlignUp(a: nat, unit: nat): (r: nat)
    requires unit > 0
    ensures a <= r < a + unit && Divides(unit, r)
  {
    AlignDown(a + unit - 1, unit)
  }

  lemma Quotient(a: nat, d: nat)
    requires d > 0
    ensures a == (a / d) * d + a % d && 0 <= a % d < d && a / d >= 0
  {
  }

  lemma Multiple(q: nat, d: nat)
    requires d > 0
    ensures Divides(d, q * d)
  {
    Arith.DivIs(q * d, d, q);
  }

  // Multiples of d differ by multiples of d, and by at least d if they differ.
  lemma MultiplesApart(a: nat, b: nat, d: nat)
    requires d > 0 && Divides(d, a) && Divides(d, b) && a <= b
    ensures Divides(d, b - a) && (a < b ==> a + d <= b)
  {
    Quotient(a, d);
    Quotient(b, d);
    var p, q := a / d, b / d;
    if p > q {
      Arith.MulMonotone(q, p, d);
    } else {
      assert (q - p) * d == q * d - p * d;
      Multiple(q - p, d);
      if p < q {
        Arith.MulMonotone(1, q - p, d);
      }
    }
  }

  lemma DividesThrough(a: nat, b: nat, x: nat)
    requires a > 0 && b > 0 && Divides(a, b) && Divides(b, x)
    ensures Divides(a, x)
  {
    Quotient(b, a);
    Quotient(x, b);
    var m, n := b / a, x / b;
    Arith.MulNotNegative(n, m);
    assert n * (m * a) == (n * m) * a;
    Multiple(n * m, a);
  }

  lemma AlignedFits(off: nat, size: nat, limit: nat, unit: nat)
    requires unit > 0 && Divides(unit, off) && Divides(unit, limit) && off + size <= limit
    ensures off + AlignUp(size, unit) <= limit
  {
    var up := AlignUp(size, unit);
    MultiplesAdd(off, up, unit);
    if off + up > limit {
      MultiplesApart(limit, off + up, unit);
    }
  }

  lemma MultiplesAdd(a: nat, b: nat, d: nat)
    requires d > 0 && Divides(d, a) && Divides(d, b)
    ensures Divides(d, a + b)
  {
    Quotient(a, d);
    Quotient(b, d);
    Arith.MulPlus(a / d, b / d, d);
    Multiple(a / d + b / d, d);
  }
}
