/** Trailing zeros, population count and bit length, and the portable bit
    tricks that compute them (littlefs/lfs_util.h). */
module Bits {
  import opened Arith
  import opened Words

  // How often two divides the number.
  function Ctz(n: nat): nat
    requires n > 0
  {
    if n % 2 == 1 then 0 else 1 + Ctz(n / 2)
  }

  // How many of the binary digits are one.
  function Popc(n: nat): nat {
    if n == 0 then 0 else n % 2 + Popc(n / 2)
  }

  // Number of binary digits.
  function BitLen(n: nat): nat {
    if n == 0 then 0 else 1 + BitLen(n / 2)
  }

  lemma {:induction false} BitLenBounds(n: nat)
    requires n > 0
    ensures BitLen(n) > 0
    ensures Pow2(BitLen(n) - 1) <= n < Pow2(BitLen(n))
  {
    if n > 1 {
      BitLenBounds(n / 2);
    }
  }

  lemma {:induction false} BitLenUnique(n: nat, k: nat)
    requires n < Pow2(k)
    ensures BitLen(n) <= k
    ensures k > 0 && Pow2(k - 1) <= n ==> BitLen(n) == k
    decreases k
  {
    if k > 0 && n > 0 {
      BitLenUnique(n / 2, k - 1);
      if Pow2(k - 1) <= n && k > 1 {
        assert Pow2(k - 2) <= n / 2;
      }
    }
  }

  lemma {:induction false} BitLenMonotone(a: nat, b: nat)
    requires a <= b
    ensures BitLen(a) <= BitLen(b)
  {
    if a > 0 {
      BitLenMonotone(a / 2, b / 2);
    }
  }

  lemma {:induction false} CtzFits(n: nat)
    requires n > 0
    ensures Pow2(Ctz(n)) <= n
  {
    if n % 2 == 0 {
      CtzFits(n / 2);
    }
  }

  // Clearing a bit at or below the lowest set bit leaves no lower bit set.
  lemma {:induction false} CtzAfterSkip(n: nat, k: nat)
    requires n > 0 && k <= Ctz(n) && Pow2(k) < n
    ensures k == Ctz(n) ==> Ctz(n - Pow2(k)) > k
    ensures k < Ctz(n) ==> Ctz(n - Pow2(k)) == k
  {
    if k > 0 {
      CtzAfterSkip(n / 2, k - 1);
      assert (n - Pow2(k)) / 2 == n / 2 - Pow2(k - 1);
    }
  }

  // Adding one turns a run of trailing ones into zeros.
  lemma {:induction false} PopcStep(n: nat)
    requires n > 0
    ensures Popc(n) + Ctz(n) == Popc(n - 1) + 1
  {
    if n % 2 == 0 {
      PopcStep(n / 2);
      assert (n - 1) / 2 == n / 2 - 1;
    } else {
      assert (n - 1) / 2 == n / 2;
    }
  }

  // Pointers held by blocks 1 to n of a skip list.
  function PointersUpTo(n: nat): nat {
    if n == 0 then 0 else PointersUpTo(n - 1) + Ctz(n) + 1
  }

  // The identity behind the closed-form block index.
  lemma {:induction false} PointerSum(n: nat)
    ensures PointersUpTo(n) + Popc(n) == 2 * n
  {
    if n > 0 {
      PointerSum(n - 1);
      PopcStep(n);
    }
  }

  lemma {:induction false} PopcBound(n: nat, k: nat)
    requires n < Pow2(k)
    ensures Popc(n) <= k
    ensures Popc(n) == k ==> n == Pow2(k) - 1
    decreases k
  {
    if k > 0 {
      PopcBound(n / 2, k - 1);
    }
  }

  lemma {:induction false} PopcOfMersenne(k: nat)
    ensures Popc(Pow2(k) - 1) == k
    ensures Popc(Pow2(k)) == 1
  {
    if k > 0 {
      PopcOfMersenne(k - 1);
      assert (Pow2(k) - 1) / 2 == Pow2(k - 1) - 1;
    }
  }

  /* lfs_npw2 */

  // r is the exponent of the smallest power of two not below a.
  ghost predicate IsNpw2(a: nat, r: nat) {
    a <= Pow2(r) && forall k: nat :: k < r ==> Pow2(k) < a
  }

  // For two or more this is the bit length of a - 1.
  lemma Npw2IsBitLen(a: nat)
    requires a >= 2
    ensures IsNpw2(a, BitLen(a - 1))
  {
    BitLenBounds(a - 1);
    forall k: nat | k < BitLen(a - 1) ensures Pow2(k) < a {
      Pow2Monotone(k, BitLen(a - 1) - 1);
    }
  }

  // One line of the shifting fallback: halve the range of a when its upper part is used.
  method ShiftStep(a: nat, limit: nat, t: nat) returns (s: nat, shifted: nat)
    requires limit == Pow2(t) - 1 && a < Pow2(2 * t)
    ensures BitLen(a) == BitLen(shifted) + s
    ensures s == 0 || s == t
    ensures shifted < Pow2(t) && (shifted > 0 <==> a > 0)
  {
    s := if a > limit then t else 0;
    shifted := Div(a, Pow2(s));
    ShiftBitLen(a, s, t);
    Pow2Sum(t, t);
    if s > 0 {
      DivBelow(a, Pow2(t), Pow2(t));
    }
  }

  lemma SmallBitLen(a: nat)
    requires a < 4
    ensures a > 0 ==> BitLen(a) == a / 2 + 1
  {
    assert BitLen(1) == 1 && BitLen(2) == 2 && BitLen(3) == 2;
  }

  lemma Npw2Meaning(a0: uint32, x: nat, n: nat)
    requires x == if a0 == 0 then 0xffff_ffff else a0 - 1
    requires n == if x == 0 then 1 else BitLen(x)
    ensures IsNpw2(a0, n) <==> a0 >= 2
    ensures a0 == 0 ==> n == 32
  {
    assert Pow2(0) == 1;
    if a0 >= 2 {
      Npw2IsBitLen(a0);
    } else {
      Pow2Of32();
      BitLenUnique(x, 32);
    }
  }

  // The fallback for lfs_npw2. Each shift has a bit of its own, so "r |= s" adds.
  // What the comment in the source promises fails for 0 and 1, and only there.
  method Npw2(a0: uint32) returns (n: nat)
    ensures IsNpw2(a0, n) <==> a0 >= 2
    ensures a0 >= 2 ==> n == BitLen(a0 - 1)
    ensures a0 == 1 ==> n == 1
    ensures a0 == 0 ==> n == 32
  {
    var a: nat := if a0 == 0 then 0xffff_ffff else a0 - 1;
    ghost var x := a;
    hide BitLen, IsNpw2;
    assert Pow2(2) == 4 && Pow2(4) == 16 && Pow2(8) == 256 && Pow2(16) == 65536;
    Pow2Of32();
    var r, s := 0, 0;
    s, a := ShiftStep(a, 0xffff, 16); r := r + s;
    s, a := ShiftStep(a, 0xff, 8); r := r + s;
    s, a := ShiftStep(a, 0xf, 4); r := r + s;
    s, a := ShiftStep(a, 0x3, 2); r := r + s;
    n := r + a / 2 + 1;
    SmallBitLen(a);
    Npw2Meaning(a0, x, n);
  }

  lemma {:induction false} ShiftBitLen(x: nat, s: nat, t: nat)
    requires s == 0 || (s == t && x >= Pow2(t))
    ensures Div(x, Pow2(s)) > 0 <==> x > 0
    ensures BitLen(x) == BitLen(Div(x, Pow2(s))) + s
    decreases t
  {
    hide Div;
    if s > 0 {
      ShiftBitLen(x / 2, s - 1, s - 1);
      DivDouble(x, Pow2(s - 1));
    } else {
      DivIs(x, 1, x);
    }
  }

  /* lfs_ctz: the lowest set bit isolated by a & -a */

  // Bitwise and.
  function And(a: nat, b: nat): nat {
    if a == 0 || b == 0 then 0 else (if a % 2 == 1 && b % 2 == 1 then 1 else 0) + 2 * And(a / 2, b / 2)
  }

  lemma {:induction false} AndComplement(a: nat, k: nat)
    requires a < Pow2(k)
    ensures And(a, Pow2(k) - 1 - a) == 0
    decreases k
  {
    if k > 0 {
      AndComplement(a / 2, k - 1);
      assert (Pow2(k) - 1 - a) / 2 == Pow2(k - 1) - 1 - a / 2;
    }
  }

  lemma {:induction false} LowestBit(a: nat, k: nat)
    requires 0 < a < Pow2(k)
    ensures And(a, Pow2(k) - a) == Pow2(Ctz(a))
    decreases k
  {
    if a % 2 == 1 {
      AndComplement(a / 2, k - 1);
      assert (Pow2(k) - a) / 2 == Pow2(k - 1) - 1 - a / 2;
    } else {
      LowestBit(a / 2, k - 1);
      assert (Pow2(k) - a) / 2 == Pow2(k - 1) - a / 2;
    }
  }

  lemma LowBit(a: uint32)
    requires a > 0
    ensures And(a, 0x1_0000_0000 - a) == Pow2(Ctz(a)) && 1 <= Pow2(Ctz(a)) <= 0x8000_0000
    ensures BitLen(Pow2(Ctz(a))) == Ctz(a) + 1
  {
    hide And, Ctz, BitLen;
    Pow2Of32();
    LowestBit(a, 32);
    CtzFits(a);
    if Ctz(a) >= 32 {
      Pow2Monotone(32, Ctz(a));
    }
    Pow2Monotone(Ctz(a), 31);
    BitLenUnique(Pow2(Ctz(a)), Ctz(a) + 1);
  }

  method CtzByNpw2(a: uint32) returns (n: nat)
    requires a > 0
    ensures n == Ctz(a)
  {
    hide Pow2, And, Ctz, BitLen, IsNpw2;
    LowBit(a);
    var low := And(a, 0x1_0000_0000 - a);
    var m := Npw2(low + 1);
    n := m - 1;
  }
}
