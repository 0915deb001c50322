/** Unsigned machine words as bounded integers: powers of two, exclusive or,
    and the two byte orders littlefs stores words in. */
module Words {

  type byte = b: int | 0 <= b < 256
  type uint32 = w: int | 0 <= w < 0x1_0000_0000

  function Pow2(k: nat): (p: nat)
    ensures p >= 1
  {
    if k == 0 then 1 else 2 * Pow2(k - 1)
  }

  lemma {:induction false} Pow2Monotone(a: nat, b: nat)
    requires a <= b
    ensures Pow2(a) <= Pow2(b)
    decreases b
  {
    if a < b {
      Pow2Monotone(a, b - 1);
    }
  }

  lemma {:induction false} Pow2Sum(a: nat, b: nat)
    ensures Pow2(a + b) == Pow2(a) * Pow2(b)
  {
    if a > 0 {
      Pow2Sum(a - 1, b);
      assert Pow2(a + b) == 2 * Pow2(a - 1 + b);
    }
  }

  // Exclusive or, bit by bit from the least significant end.
  function Xor(a: nat, b: nat): nat
    decreases a + b
  {
    if a == 0 && b == 0 then 0 else (a + b) % 2 + 2 * Xor(a / 2, b / 2)
  }

  lemma {:induction false} XorCommutes(a: nat, b: nat)
    ensures Xor(a, b) == Xor(b, a)
    decreases a + b
  {
    if a != 0 || b != 0 {
      XorCommutes(a / 2, b / 2);
    }
  }

  lemma {:induction false} XorHalves(a: nat, b: nat)
    ensures Xor(a, b) % 2 == (a + b) % 2
    ensures Xor(a, b) / 2 == Xor(a / 2, b / 2)
  {
    if a != 0 || b != 0 {
      var bit, rest: nat := (a + b) % 2, Xor(a / 2, b / 2);
      assert Xor(a, b) == bit + 2 * rest;
      assert 0 <= bit < 2;
    }
  }

  lemma {:induction false} XorAssociates(a: nat, b: nat, c: nat)
    ensures Xor(Xor(a, b), c) == Xor(a, Xor(b, c))
    decreases a + b + c
  {
    if a != 0 || b != 0 || c != 0 {
      XorAssociates(a / 2, b / 2, c / 2);
      XorHalves(a, b);
      XorHalves(b, c);
      XorHalves(Xor(a, b), c);
      XorHalves(a, Xor(b, c));
      ParityAssociates(Xor(a, b), a, b, c, Xor(b, c));
      SameHalves(Xor(Xor(a, b), c), Xor(a, Xor(b, c)));
    }
  }

  lemma ParityAssociates(ab: nat, a: nat, b: nat, c: nat, bc: nat)
    requires ab % 2 == (a + b) % 2 && bc % 2 == (b + c) % 2
    ensures (ab + c) % 2 == (a + bc) % 2
  {
  }

  lemma SameHalves(x: nat, y: nat)
    requires x % 2 == y % 2 && x / 2 == y / 2
    ensures x == y
  {
  }

  lemma {:induction false} XorZero(a: nat)
    ensures Xor(a, 0) == a && Xor(0, a) == a
  {
    if a != 0 {
      XorZero(a / 2);
    }
  }

  lemma {:induction false} XorSelf(a: nat)
    ensures Xor(a, a) == 0
  {
    if a != 0 {
      XorSelf(a / 2);
    }
  }

  // Exclusive or with the same word twice gives the first word back.
  lemma XorCancels(a: nat, b: nat)
    ensures Xor(Xor(a, b), b) == a
    ensures Xor(b, Xor(b, a)) == a
  {
    XorAssociates(a, b, b);
    XorSelf(b);
    XorZero(a);
    XorAssociates(b, b, a);
  }

  lemma {:induction false} XorBound(a: nat, b: nat, k: nat)
    requires a < Pow2(k) && b < Pow2(k)
    ensures Xor(a, b) < Pow2(k)
    decreases k
  {
    if k > 0 {
      XorBound(a / 2, b / 2, k - 1);
    }
  }

  // The powers this project names as literals.
  lemma Pow2Of32()
    ensures Pow2(8) == 256
    ensures Pow2(24) == 16777216 && Pow2(25) == 33554432 && Pow2(26) == 67108864
    ensures Pow2(31) == 0x8000_0000 && Pow2(32) == 0x1_0000_0000
  {
    assert Pow2(8) == 256;
    assert Pow2(16) == 256 * 256;
    assert Pow2(24) == 16777216;
    assert Pow2(32) == 0x1_0000_0000;
  }

  function Xor32(a: uint32, b: uint32): uint32 {
    Pow2Of32();
    XorBound(a, b, 32);
    Xor(a, b)
  }

  /* Byte orders. Block pointers and checksums are little-endian, tags big-endian. */

  function Le32(w: uint32): (s: seq<byte>)
    ensures |s| == 4
  {
    [w % 256, w / 256 % 256, w / 65536 % 256, w / 16777216]
  }

  function FromLe32(s: seq<byte>): uint32
    requires |s| == 4
  {
    var b0: int, b1: int, b2: int, b3: int := s[0], s[1], s[2], s[3];
    b0 + 256 * b1 + 65536 * b2 + 16777216 * b3
  }

  function Be32(w: uint32): (s: seq<byte>)
    ensures |s| == 4
  {
    [w / 16777216, w / 65536 % 256, w / 256 % 256, w % 256]
  }

  function FromBe32(s: seq<byte>): uint32
    requires |s| == 4
  {
    var b0: int, b1: int, b2: int, b3: int := s[0], s[1], s[2], s[3];
    b3 + 256 * b2 + 65536 * b1 + 16777216 * b0
  }

  lemma ByteOrderRoundTrip(w: uint32)
    ensures FromLe32(Le32(w)) == w
    ensures FromBe32(Be32(w)) == w
    ensures var le: seq<int>, be: seq<int> := Le32(w), Be32(w);
            && w == le[0] + 0x100 * le[1] + 0x1_0000 * le[2] + 0x100_0000 * le[3]
            && forall i :: 0 <= i < 4 ==> be[i] == le[3 - i]
  {
    var q := w / 256;
    var r := q / 256;
    assert w / 65536 == r && w / 16777216 == r / 256;
  }
}
