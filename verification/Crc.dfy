/** The CRC-32 of lfs_util.cpp: the nibble-table loop against one shift a bit
    (the polynomial of section 8 of RFC 1952, reflected, without that
    section's inversions), and what commits rely on it for. */
module Crc {
  import opened Arith
  import opened Words

  const POLY: uint32 := 0xedb8_8320
  const ONES: uint32 := 0xffff_ffff

  // Shift one bit out.
  function Shift(c: uint32): uint32 {
    if c % 2 == 1 then Xor32(c / 2, POLY) else c / 2
  }

  function Shifts(c: uint32, n: nat): uint32 {
    if n == 0 then c else Shift(Shifts(c, n - 1))
  }

  // Eight shifts a byte, lowest bit first.
  function CrcByte(c: uint32, b: byte): uint32 {
    Shifts(Xor32(c, b), 8)
  }

  function Crc(c: uint32, s: seq<byte>): uint32 {
    if s == [] then c else CrcByte(Crc(c, s[..|s| - 1]), s[|s| - 1])
  }

  /* Shifting is linear and loses nothing. */

  lemma XorRotate(a: nat, b: nat, p: nat)
    ensures Xor(Xor(a, p), b) == Xor(Xor(a, b), p)
    ensures Xor(a, Xor(b, p)) == Xor(Xor(a, b), p)
  {
    XorAssociates(a, p, b);
    XorCommutes(p, b);
    XorAssociates(a, b, p);
  }

  lemma ShiftLinear(a: uint32, b: uint32)
    ensures Shift(Xor32(a, b)) == Xor32(Shift(a), Shift(b))
  {
    hide Xor;
    XorHalves(a, b);
    var x, y := a / 2, b / 2;
    XorRotate(x, y, POLY);
    XorAssociates(Xor(x, POLY), y, POLY);
    XorCancels(Xor(x, y), POLY);
  }

  lemma {:induction false} ShiftsLinear(a: uint32, b: uint32, n: nat)
    ensures Shifts(Xor32(a, b), n) == Xor32(Shifts(a, n), Shifts(b, n))
  {
    if n > 0 {
      ShiftsLinear(a, b, n - 1);
      ShiftLinear(Shifts(a, n - 1), Shifts(b, n - 1));
    }
  }

  lemma {:induction false} ShiftsCompose(c: uint32, m: nat, n: nat)
    ensures Shifts(Shifts(c, m), n) == Shifts(c, m + n)
  {
    if n > 0 {
      ShiftsCompose(c, m, n - 1);
    }
  }

  // Low zero bits are simply dropped.
  lemma {:induction false} ShiftsOfMultiple(m: nat, n: nat)
    requires m * Pow2(n) < 0x1_0000_0000
    ensures m < 0x1_0000_0000
    ensures Shifts(m * Pow2(n), n) == m
    decreases n
  {
    MulMonotone(1, Pow2(n), m);
    if n > 0 {
      var p, x := Pow2(n - 1), m * Pow2(n);
      assert Pow2(n) == 2 * p;
      hide Pow2, Xor;
      MulDouble(m, p);
      assert x == (2 * m) * p;
      ShiftsOfMultiple(2 * m, n - 1);
      assert Shifts(x, n) == Shift(Shifts(x, n - 1)) == Shift(2 * m);
    }
  }

  // A word with its n lowest bits in the other order, behind those of acc.
  function Backwards(w: nat, n: nat, acc: nat): nat {
    if n == 0 then acc else Backwards(w / 2, n - 1, 2 * acc + w % 2)
  }

  lemma OneBack(w: nat, n: nat, acc: nat)
    ensures Backwards(w, n + 1, acc) == Backwards(w / 2, n, 2 * acc + w % 2)
  {
  }

  lemma FourBack(w: nat, n: nat, acc: nat)
    ensures Backwards(w, n + 4, acc) ==
              Backwards(w / 16, n, 16 * acc + 8 * (w % 2) + 4 * (w / 2 % 2) + 2 * (w / 4 % 2) + w / 8 % 2)
  {
    hide Backwards;
    var w1, w2, w3 := w / 2, w / 4, w / 8;
    assert w1 / 2 == w2 && w2 / 2 == w3 && w3 / 2 == w / 16;
    OneBack(w, n + 3, acc);
    OneBack(w1, n + 2, 2 * acc + w % 2);
    OneBack(w2, n + 1, 4 * acc + 2 * (w % 2) + w1 % 2);
    OneBack(w3, n, 8 * acc + 4 * (w % 2) + 2 * (w1 % 2) + w2 % 2);
  }

  /** The polynomial is the one that lfs_util.h names, lowest bit first. */
  lemma PolynomialReflected()
    ensures Backwards(0x04c1_1db7, 32, 0) == POLY
  {
    hide Backwards;
    FourBack(0x4c11db7, 28, 0x0);
    FourBack(0x4c11db, 24, 0xe);
    FourBack(0x4c11d, 20, 0xed);
    FourBack(0x4c11, 16, 0xedb);
    FourBack(0x4c1, 12, 0xedb8);
    FourBack(0x4c, 8, 0xedb88);
    FourBack(0x4, 4, 0xedb883);
    FourBack(0x0, 0, 0xedb8832);
    assert Backwards(0, 0, 0xedb8_8320) == 0xedb8_8320 by { NoneBack(0xedb8_8320); }
  }

  lemma NoneBack(acc: nat)
    ensures Backwards(0, 0, acc) == acc
  {
  }

  // The polynomial has its top bit set, so a shift can be taken back.
  lemma ShiftInjective(a: uint32, b: uint32)
    requires Shift(a) == Shift(b)
    ensures a == b
  {
    hide Xor;
    if a % 2 == 1 && b % 2 == 1 {
      XorCancels(a / 2, POLY);
      XorCancels(b / 2, POLY);
    } else if a % 2 == 1 {
      TopBit(a / 2);
    } else if b % 2 == 1 {
      TopBit(b / 2);
    }
  }

  lemma TopBit(x: nat)
    requires x < 0x8000_0000
    ensures Xor(x, POLY) >= 0x8000_0000
  {
    var p := POLY - 0x8000_0000;
    Pow2Of32();
    XorTop(x, p, 31);
  }

  lemma {:induction false} XorTop(x: nat, p: nat, k: nat)
    requires x < Pow2(k) && p < Pow2(k)
    ensures Xor(x, p + Pow2(k)) >= Pow2(k)
    decreases k
  {
    if k > 0 {
      XorTop(x / 2, p / 2, k - 1);
      assert (p + Pow2(k)) / 2 == p / 2 + Pow2(k - 1);
    }
  }

  lemma {:induction false} ShiftsInjective(a: uint32, b: uint32, n: nat)
    requires Shifts(a, n) == Shifts(b, n)
    ensures a == b
  {
    if n > 0 {
      ShiftInjective(Shifts(a, n - 1), Shifts(b, n - 1));
      ShiftsInjective(a, b, n - 1);
    }
  }

  /* The table loop */

  const RTABLE: seq<uint32> := [
    0x00000000, 0x1db71064, 0x3b6e20c8, 0x26d930ac,
    0x76dc4190, 0x6b6b51f4, 0x4db26158, 0x5005713c,
    0xedb88320, 0xf00f9344, 0xd6d6a3e8, 0xcb61b38c,
    0x9b64c2b0, 0x86d3d2d4, 0xa00ae278, 0xbdbdf21c
  ]

  // Each table entry is its index shifted out.
  ghost predicate Entry(i: nat)
    requires i < 16
  {
    RTABLE[i] == Shifts(i, 4)
  }

  // A power of two is shifted down to 1, and 1 to the polynomial.
  lemma PowerEntries()
    ensures Entry(0) && Entry(1) && Entry(2) && Entry(4) && Entry(8)
  {
    ShiftOfOne();
    hide Xor;
    assert Shift(POLY) == 0x76dc4190 && Shift(0x76dc4190) == 0x3b6e20c8 && Shift(0x3b6e20c8) == 0x1db71064;
    assert Shift(8) == 4 && Shift(4) == 2 && Shift(2) == 1 && Shift(0) == 0;
    hide Shift;
    FourTimes(0); FourTimes(1); FourTimes(2); FourTimes(4); FourTimes(8);
  }

  lemma ShiftOfOne()
    ensures Shift(1) == POLY
  {
    hide Xor;
    XorZero(POLY);
  }

  lemma FourTimes(c: uint32)
    ensures Shifts(c, 4) == Shift(Shift(Shift(Shift(c))))
  {
    hide Shift;
    assert Shifts(c, 0) == c;
    assert Shifts(c, 1) == Shift(c);
    assert Shifts(c, 2) == Shift(Shift(c));
    assert Shifts(c, 3) == Shift(Shift(Shift(c)));
  }

  // The other entries follow by linearity.
  lemma SumEntry(i: nat, j: nat)
    requires i < 16 && j < 16 && i + j < 16 && Xor(i, j) == i + j
    requires Entry(i) && Entry(j) && RTABLE[i + j] == Xor(RTABLE[i], RTABLE[j])
    ensures Entry(i + j)
  {
    ShiftsLinear(i, j, 4);
  }

  lemma LowerEntries()
    ensures forall i :: 0 <= i <= 8 ==> Entry(i)
  {
    hide Shifts;
    PowerEntries();
    DisjointNibbles();
    hide Xor;
    Row3(); Row5(); Row6();
    SumEntry(2, 1); SumEntry(4, 1); SumEntry(4, 2);
    Row7();
    SumEntry(4, 3);
  }

  lemma UpperEntries()
    requires forall i :: 0 <= i <= 8 ==> Entry(i)
    ensures forall i :: 8 <= i < 16 ==> Entry(i)
  {
    hide Xor, Entry;
    HighBits();
    Row9(); SumEntry(8, 1);
    Row10(); SumEntry(8, 2);
    Row11(); SumEntry(8, 3);
    Row12(); SumEntry(8, 4);
    Row13(); SumEntry(8, 5);
    Row14(); SumEntry(8, 6);
    Row15(); SumEntry(8, 7);
  }

  lemma TableIsShifts()
    ensures forall i :: 0 <= i < 16 ==> Entry(i)
  {
    LowerEntries();
    UpperEntries();
  }

  lemma DisjointNibbles()
    ensures Xor(2, 1) == 3 && Xor(4, 1) == 5 && Xor(4, 2) == 6 && Xor(4, 3) == 7
  {
    assert Xor(1, 0) == 1 && Xor(2, 0) == 2 && Xor(2, 1) == 3;
  }

  lemma HighBits()
    ensures forall j :: 1 <= j < 8 ==> Xor(8, j) == 8 + j
  {
    forall j | 1 <= j < 8 ensures Xor(8, j) == 8 + j {
      assert Pow2(3) == 8;
      DisjointBits(1, j, 3);
    }
  }

  lemma TableAt(r: nat)
    requires r < 16
    ensures RTABLE[r] == Shifts(r, 4)
  {
    hide Shifts;
    TableIsShifts();
    assert Entry(r);
  }

  // Four shifts are one look in the table.
  lemma FourShifts(x: uint32)
    ensures Xor(x / 16, RTABLE[x % 16]) == Shifts(x, 4)
  {
    SplitShifts(x, x / 16, x % 16);
    TableAt(x % 16);
  }

  lemma SplitShifts(x: uint32, m: nat, r: nat)
    requires x == m * 16 + r && r < 16
    ensures Xor(m, Shifts(r, 4)) == Shifts(x, 4)
  {
    hide Xor, Shifts;
    MultipleOf16(m, r);
    ShiftsLinear(m * 16, r, 4);
  }

  lemma MultipleOf16(m: nat, r: nat)
    requires m * 16 + r < 0x1_0000_0000 && r < 16
    ensures Shifts(m * 16, 4) == m && Xor(m * 16, r) == m * 16 + r
  {
    assert Pow2(4) == 16;
    hide Xor, Shifts, Pow2;
    DisjointBits(m, r, 4);
    ShiftsOfMultiple(m, 4);
  }

  lemma XorSixteenths(a: nat, b: nat)
    ensures Xor(a, b) / 16 == Xor(a / 16, b / 16)
  {
    hide Xor;
    XorHalves(a, b);
    XorHalves(a / 2, b / 2);
    XorHalves(a / 4, b / 4);
    XorHalves(a / 8, b / 8);
    assert a / 2 / 2 == a / 4 && a / 4 / 2 == a / 8 && a / 8 / 2 == a / 16;
    assert b / 2 / 2 == b / 4 && b / 4 / 2 == b / 8 && b / 8 / 2 == b / 16;
  }

  // The loop body: both nibbles of a byte.
  function TableByte(c: uint32, d: byte): uint32 {
    var low := Xor32(c / 16, RTABLE[Xor32(c, d) % 16]);
    Xor32(low / 16, RTABLE[Xor32(low, d / 16) % 16])
  }

  lemma TableByteIsCrcByte(c: uint32, d: byte)
    ensures TableByte(c, d) == CrcByte(c, d)
  {
    hide Xor, Shifts;
    var x := Xor32(c, d);
    var entry := RTABLE[x % 16];
    var low := Xor32(c / 16, entry);
    XorSixteenths(c, d);
    FourShifts(x);
    XorRotate(c / 16, d / 16, entry);
    var y := Xor32(low, d / 16);
    assert y == Shifts(x, 4);
    XorSixteenths(low, d / 16);
    XorZero(low / 16);
    FourShifts(y);
    ShiftsCompose(x, 4, 4);
  }

  /** lfs_crc: the table loop computes the bit-at-a-time CRC. */
  method LfsCrc(start: uint32, data: seq<byte>) returns (crc: uint32)
    ensures crc == Crc(start, data)
  {
    crc := start;
    for i := 0 to |data|
      invariant crc == Crc(start, data[..i])
    {
      TableByteIsCrcByte(crc, data[i]);
      assert data[..i + 1][..i] == data[..i];
      crc := Xor32(crc / 16, RTABLE[Xor32(crc, data[i]) % 16]);
      crc := Xor32(crc / 16, RTABLE[Xor32(crc, data[i] / 16) % 16]);
    }
    assert data[..|data|] == data;
  }

  /* What commits rely on */

  // A checksum may be taken piece by piece.
  lemma {:induction false} CrcAppend(c: uint32, s: seq<byte>, t: seq<byte>)
    ensures Crc(c, s + t) == Crc(Crc(c, s), t)
  {
    if t == [] {
      assert s + t == s;
    } else {
      var n := |t| - 1;
      assert (s + t)[..|s| + n] == s + t[..n];
      CrcAppend(c, s, t[..n]);
    }
  }

  lemma CrcNothing(c: uint32)
    ensures Crc(c, []) == c
  {
  }

  // The bytes of a short message as one word, first byte lowest.
  lemma ByteMore(b: byte, n: nat)
    ensures 0 <= b * Pow2(8 * n) && Pow2(8 * n) + b * Pow2(8 * n) <= Pow2(8 * (n + 1))
  {
    Pow2Sum(8, 8 * n);
    Pow2Of32();
    MulMonotone(b, 255, Pow2(8 * n));
    MulNotNegative(b, Pow2(8 * n));
  }

  function Num(s: seq<byte>): (w: nat)
    ensures w < Pow2(8 * |s|)
  {
    if s == [] then 0 else
      var n := |s| - 1;
      ByteMore(s[n], n);
      Num(s[..n]) + s[n] * Pow2(8 * n)
  }

  // Up to four bytes are fed as one word.
  lemma {:induction false} CrcOfWord(c: uint32, s: seq<byte>)
    requires |s| <= 4
    ensures Num(s) < 0x1_0000_0000
    ensures Crc(c, s) == Shifts(Xor32(c, Num(s)), 8 * |s|)
  {
    hide Xor, Shifts;
    Pow2Of32();
    Pow2Monotone(8 * |s|, 32);
    if s == [] {
      XorZero(c);
      NoShift(c);
    } else {
      var n := |s| - 1;
      var k := 8 * n;
      var w, b := Num(s[..n]), s[n] * Pow2(k);
      CrcOfWord(c, s[..n]);
      assert Num(s) == w + b;
      ShiftsOfMultiple(s[n], k);
      ShiftsLinear(Xor32(c, w), b, k);
      ShiftsCompose(Xor32(Xor32(c, w), b), k, 8);
      XorAssociates(c, w, b);
      XorCommutes(w, b);
      DisjointBits(s[n], w, k);
    }
  }

  lemma NoShift(c: uint32)
    ensures Shifts(c, 0) == c
  {
  }

  // Digits below p and multiples of p do not overlap.
  lemma DigitsUnique(x: nat, a: int, y: nat, b: int, p: nat)
    requires x < p && y < p && x + a * p == y + b * p
    ensures a == b && x == y
  {
    var e := a - b;
    assert e * p == a * p - b * p;
    if e > 0 {
      MulMonotone(1, e, p);
    } else if e < 0 {
      MulMonotone(e, -1, p);
    }
  }

  lemma {:induction false} NumInjective(s: seq<byte>, t: seq<byte>)
    requires |s| == |t| && Num(s) == Num(t)
    ensures s == t
  {
    if s != [] {
      var n := |s| - 1;
      var x, y := Num(s[..n]), Num(t[..n]);
      hide Pow2;
      DigitsUnique(x, s[n], y, t[n], Pow2(8 * n));
      hide Num;
      NumInjective(s[..n], t[..n]);
      assert s == s[..n] + [s[n]] && t == t[..n] + [t[n]];
    }
  }

  lemma NumOfLe32(c: uint32)
    ensures Num(Le32(c)) == c
  {
    Pow2Of32();
    assert Pow2(0) == 1 && Pow2(16) == 65536;
    var s := Le32(c);
    var b0: int, b1: int, b2: int, b3: int := s[0], s[1], s[2], s[3];
    assert s[..3][..2] == s[..2] && s[..2][..1] == s[..1] && s[..1][..0] == [];
    assert Num(s[..1]) == b0;
    assert Num(s[..2]) == b0 + b1 * 256;
    assert Num(s[..3]) == Num(s[..2]) + b2 * 65536;
    ByteOrderRoundTrip(c);
  }

  /** Data followed by its own little-endian checksum has checksum 0. */
  lemma CrcOfSealed(c: uint32, s: seq<byte>)
    ensures Crc(c, s + Le32(Crc(c, s))) == 0
  {
    hide Xor, Shifts, Le32;
    var d := Crc(c, s);
    CrcAppend(c, s, Le32(d));
    CrcOfWord(d, Le32(d));
    NumOfLe32(d);
    XorSelf(d);
    ShiftsOfMultiple(0, 32);
  }

  lemma CrcByteInjective(c: uint32, d: uint32, b: byte)
    requires CrcByte(c, b) == CrcByte(d, b)
    ensures c == d
  {
    ShiftsInjective(Xor32(c, b), Xor32(d, b), 8);
    XorCancels(c, b);
    XorCancels(d, b);
  }

  lemma {:induction false} CrcInjective(c: uint32, d: uint32, s: seq<byte>)
    requires Crc(c, s) == Crc(d, s)
    ensures c == d
  {
    if s != [] {
      var n := |s| - 1;
      CrcByteInjective(Crc(c, s[..n]), Crc(d, s[..n]), s[n]);
      CrcInjective(c, d, s[..n]);
    }
  }

  /** Messages of one length that differ only within four consecutive bytes have different checksums. */
  lemma BurstDetected(c: uint32, before: seq<byte>, s: seq<byte>, t: seq<byte>, after: seq<byte>)
    requires |s| == |t| <= 4 && s != t
    ensures Crc(c, before + s + after) != Crc(c, before + t + after)
  {
    hide Xor, Shifts;
    var d := Crc(c, before);
    CrcAppend(c, before + s, after);
    CrcAppend(c, before + t, after);
    CrcAppend(c, before, s);
    CrcAppend(c, before, t);
    if Crc(c, before + s + after) == Crc(c, before + t + after) {
      CrcInjective(Crc(d, s), Crc(d, t), after);
      CrcOfWord(d, s);
      CrcOfWord(d, t);
      ShiftsInjective(Xor32(d, Num(s)), Xor32(d, Num(t)), 8 * |s|);
      XorCancels(Num(s), d);
      XorCancels(Num(t), d);
      NumInjective(s, t);
    }
  }

  lemma {:induction false} DisjointBits(a: nat, b: nat, k: nat)
    requires b < Pow2(k)
    ensures Xor(a * Pow2(k), b) == a * Pow2(k) + b
    decreases k
  {
    if k == 0 {
      XorZero(a);
    } else {
      var p := Pow2(k - 1);
      assert Pow2(k) == 2 * p;
      hide Pow2, Xor;
      MulDouble(a, p);
      DisjointBits(a, b / 2, k - 1);
      DisjointBit(a * p, b);
    }
  }

  lemma DisjointBit(h: nat, b: nat)
    requires Xor(h, b / 2) == h + b / 2
    ensures Xor(2 * h, b) == 2 * h + b
  {
    hide Xor;
    XorHalves(2 * h, b);
    assert (2 * h + b) % 2 == b % 2;
  }

  /* Constants, hex digit by hex digit. */

  // Exclusive or of two hex digits, without recursion or division.
  function Digit(x: nat, y: nat): nat {
    TopBits(x, y, 8) + TopBits(Below(x, 8), Below(y, 8), 4)
      + TopBits(Below(Below(x, 8), 4), Below(Below(y, 8), 4), 2)
      + TopBits(Below(Below(Below(x, 8), 4), 2), Below(Below(Below(y, 8), 4), 2), 1)
  }

  function TopBits(x: nat, y: nat, t: nat): nat {
    if (x >= t) == (y >= t) then 0 else t
  }

  function Below(x: nat, t: nat): nat {
    if x >= t then x - t else x
  }

  function Hex(a: nat, b: nat, c: nat, d: nat, e: nat, f: nat, g: nat, h: nat): nat {
    268435456 * a + 16777216 * b + 1048576 * c + 65536 * d + 4096 * e + 256 * f + 16 * g + h
  }

  lemma XorBit(a: nat, b: nat, x: nat, y: nat)
    requires x < 2 && y < 2
    ensures Xor(2 * a + x, 2 * b + y) == 2 * Xor(a, b) + (x + y) % 2
  {
    hide Xor;
    XorHalves(2 * a + x, 2 * b + y);
    assert (2 * a + x) / 2 == a && (2 * b + y) / 2 == b;
  }

  lemma XorDigit(a: nat, b: nat, x: nat, y: nat)
    requires x < 16 && y < 16
    ensures Xor(16 * a + x, 16 * b + y) == 16 * Xor(a, b) + Digit(x, y)
  {
    hide Xor, Digit;
    var x3, y3 := if x >= 8 then 1 else 0, if y >= 8 then 1 else 0;
    var u, v := Below(x, 8), Below(y, 8);
    var x2, y2 := if u >= 4 then 1 else 0, if v >= 4 then 1 else 0;
    var p, q := Below(u, 4), Below(v, 4);
    var x1, y1 := if p >= 2 then 1 else 0, if q >= 2 then 1 else 0;
    var x0, y0 := Below(p, 2), Below(q, 2);
    FourBits(a, b, x3, x2, x1, x0, y3, y2, y1, y0);
    OneBit(x3, y3); OneBit(x2, y2); OneBit(x1, y1); OneBit(x0, y0);
    hide Odd;
    assert Digit(x, y) == 8 * Odd(x3, y3) + 4 * Odd(x2, y2) + 2 * Odd(x1, y1) + Odd(x0, y0) by { DigitBits(x, y); }
  }

  lemma DigitBits(x: nat, y: nat)
    requires x < 16 && y < 16
    ensures var x3, y3 := if x >= 8 then 1 else 0, if y >= 8 then 1 else 0;
            var u, v := Below(x, 8), Below(y, 8);
            var x2, y2 := if u >= 4 then 1 else 0, if v >= 4 then 1 else 0;
            var p, q := Below(u, 4), Below(v, 4);
            var x1, y1 := if p >= 2 then 1 else 0, if q >= 2 then 1 else 0;
            Digit(x, y) == 8 * Odd(x3, y3) + 4 * Odd(x2, y2) + 2 * Odd(x1, y1) + Odd(Below(p, 2), Below(q, 2))
  {
  }

  function Odd(x: nat, y: nat): nat {
    if x == y then 0 else 1
  }

  lemma OneBit(x: nat, y: nat)
    requires x < 2 && y < 2
    ensures (x + y) % 2 == Odd(x, y)
  {
  }

  lemma FourBits(a: nat, b: nat, x3: nat, x2: nat, x1: nat, x0: nat, y3: nat, y2: nat, y1: nat, y0: nat)
    requires x0 < 2 && x1 < 2 && x2 < 2 && x3 < 2 && y0 < 2 && y1 < 2 && y2 < 2 && y3 < 2
    ensures Xor(16 * a + 8 * x3 + 4 * x2 + 2 * x1 + x0, 16 * b + 8 * y3 + 4 * y2 + 2 * y1 + y0)
         == 16 * Xor(a, b) + 8 * ((x3 + y3) % 2) + 4 * ((x2 + y2) % 2) + 2 * ((x1 + y1) % 2) + (x0 + y0) % 2
  {
    hide Xor;
    XorBit(a, b, x3, y3);
    var m, n := 2 * a + x3, 2 * b + y3;
    XorBit(m, n, x2, y2);
    m, n := 2 * m + x2, 2 * n + y2;
    XorBit(m, n, x1, y1);
    m, n := 2 * m + x1, 2 * n + y1;
    XorBit(m, n, x0, y0);
  }

  lemma ByDigits(a: nat, b: nat, c: nat, d: nat, e: nat, f: nat, g: nat, h: nat,
                 p: nat, q: nat, r: nat, s: nat, t: nat, u: nat, v: nat, w: nat)
    requires a < 16 && b < 16 && c < 16 && d < 16 && e < 16 && f < 16 && g < 16 && h < 16
    requires p < 16 && q < 16 && r < 16 && s < 16 && t < 16 && u < 16 && v < 16 && w < 16
    ensures Xor(Hex(a, b, c, d, e, f, g, h), Hex(p, q, r, s, t, u, v, w)) ==
            Hex(Digit(a, p), Digit(b, q), Digit(c, r), Digit(d, s), Digit(e, t), Digit(f, u), Digit(g, v), Digit(h, w))
  {
    hide Xor, Digit;
    XorZero(0);
    XorDigit(0, 0, a, p);
    var m, n := a, p;
    XorDigit(m, n, b, q);
    m, n := 16 * m + b, 16 * n + q;
    XorDigit(m, n, c, r);
    m, n := 16 * m + c, 16 * n + r;
    XorDigit(m, n, d, s);
    m, n := 16 * m + d, 16 * n + s;
    XorDigit(m, n, e, t);
    m, n := 16 * m + e, 16 * n + t;
    XorDigit(m, n, f, u);
    m, n := 16 * m + f, 16 * n + u;
    XorDigit(m, n, g, v);
    m, n := 16 * m + g, 16 * n + v;
    XorDigit(m, n, h, w);
  }

  lemma Row3()
    ensures Xor(0x3b6e20c8, 0x1db71064) == 0x26d930ac
  {
    hide Xor;
    ByDigits(3, 11, 6, 14, 2, 0, 12, 8,
             1, 13, 11, 7, 1, 0, 6, 4);
  }

  lemma Row5()
    ensures Xor(0x76dc4190, 0x1db71064) == 0x6b6b51f4
  {
    hide Xor;
    ByDigits(7, 6, 13, 12, 4, 1, 9, 0,
             1, 13, 11, 7, 1, 0, 6, 4);
  }

  lemma Row6()
    ensures Xor(0x76dc4190, 0x3b6e20c8) == 0x4db26158
  {
    hide Xor;
    ByDigits(7, 6, 13, 12, 4, 1, 9, 0,
             3, 11, 6, 14, 2, 0, 12, 8);
  }

  lemma Row7()
    ensures Xor(0x76dc4190, 0x26d930ac) == 0x5005713c
  {
    hide Xor;
    ByDigits(7, 6, 13, 12, 4, 1, 9, 0,
             2, 6, 13, 9, 3, 0, 10, 12);
  }

  lemma Row9()
    ensures Xor(0xedb88320, 0x1db71064) == 0xf00f9344
  {
    hide Xor;
    ByDigits(14, 13, 11, 8, 8, 3, 2, 0,
             1, 13, 11, 7, 1, 0, 6, 4);
  }

  lemma Row10()
    ensures Xor(0xedb88320, 0x3b6e20c8) == 0xd6d6a3e8
  {
    hide Xor;
    ByDigits(14, 13, 11, 8, 8, 3, 2, 0,
             3, 11, 6, 14, 2, 0, 12, 8);
  }

  lemma Row11()
    ensures Xor(0xedb88320, 0x26d930ac) == 0xcb61b38c
  {
    hide Xor;
    ByDigits(14, 13, 11, 8, 8, 3, 2, 0,
             2, 6, 13, 9, 3, 0, 10, 12);
  }

  lemma Row12()
    ensures Xor(0xedb88320, 0x76dc4190) == 0x9b64c2b0
  {
    hide Xor;
    ByDigits(14, 13, 11, 8, 8, 3, 2, 0,
             7, 6, 13, 12, 4, 1, 9, 0);
  }

  lemma Row13()
    ensures Xor(0xedb88320, 0x6b6b51f4) == 0x86d3d2d4
  {
    hide Xor;
    ByDigits(14, 13, 11, 8, 8, 3, 2, 0,
             6, 11, 6, 11, 5, 1, 15, 4);
  }

  lemma Row14()
    ensures Xor(0xedb88320, 0x4db26158) == 0xa00ae278
  {
    hide Xor;
    ByDigits(14, 13, 11, 8, 8, 3, 2, 0,
             4, 13, 11, 2, 6, 1, 5, 8);
  }

  lemma Row15()
    ensures Xor(0xedb88320, 0x5005713c) == 0xbdbdf21c
  {
    hide Xor;
    ByDigits(14, 13, 11, 8, 8, 3, 2, 0,
             5, 0, 0, 5, 7, 1, 3, 12);
  }
}
