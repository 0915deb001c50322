/** Where a file position lives in a CTZ skip list: the closed form
    (littlefs/lfs.cpp, lfs_ctz_index) against block capacities summed one by one.
    A block size is called bs; b in the source is bs - 8. */
module CtzIndex {
  import opened Arith
  import opened Words
  import opened Bits

  const FILE_MAX := 2147483647

  // Bytes of back pointers at the front of block n.
  function PointerBytes(n: nat): nat {
    if n == 0 then 0 else 4 * (Ctz(n) + 1)
  }

  // First file position kept in block n: the capacities of the blocks before it.
  function Start(bs: nat, n: nat): int {
    if n == 0 then 0 else Start(bs, n - 1) + bs - PointerBytes(n - 1)
  }

  // Position p is at byte off of block n.
  ghost predicate LivesAt(bs: nat, p: nat, n: nat, off: nat) {
    Start(bs, n) <= p < Start(bs, n + 1) && off == p - Start(bs, n) + PointerBytes(n)
  }

  // b in the source: a 32-bit difference, which wraps around below 8.
  function Room(bs: uint32): uint32 {
    (bs - 8) % 0x1_0000_0000
  }

  // The check that lfs_init makes of the block size; at 8 it divides by zero.
  predicate InitAccepts(bs: uint32)
    requires bs != 8
  {
    var q := Div(0xffff_ffff, Room(bs));
    // lfs_npw2 of 1 is 1
    var n := if q <= 1 then 1 else BitLen(q - 1);
    4 * n <= bs
  }

  // From 104 bytes on the quotient has 26 bits at most, and below 27 at least.
  lemma LargeQuotient(b: nat)
    requires b >= 96
    ensures var q := Div(0xffff_ffff, b);
            q > 1 ==> BitLen(q - 1) <= 26
  {
    hide Div, BitLen;
    Pow2Of32();
    MulMonotone(96, b, 44739243);
    DivBelow(0xffff_ffff, b, 44739243);
    var q := Div(0xffff_ffff, b);
    if q > 1 {
      BitLenMonotone(q - 1, Pow2(26) - 1);
      BitLenUnique(Pow2(26) - 1, 26);
    }
  }

  lemma SmallQuotient(b: nat)
    requires 0 < b < 96
    ensures var q := Div(0xffff_ffff, b);
            q > 1 && BitLen(q - 1) >= 26
  {
    hide Div, BitLen;
    Pow2Of32();
    MulMonotone(b, 95, 45210182);
    DivAtLeast(0xffff_ffff, b, 45210182);
    BitLenMonotone(Pow2(25), Div(0xffff_ffff, b) - 1);
    BitLenUnique(Pow2(25), 26);
  }

  /** What the check lets through: the large block sizes, and four that wrap around. */
  lemma InitAcceptsWhat(bs: uint32)
    requires bs != 8
    ensures InitAccepts(bs) <==> 4 <= bs < 8 || bs >= 104
  {
    hide Div;
    var b: nat := Room(bs);
    var q := Div(0xffff_ffff, b);
    Pow2Of32();
    if bs < 8 {
      DivIs(0xffff_ffff, b, 1);
    } else if bs >= 104 {
      LargeQuotient(b);
    } else {
      SmallQuotient(b);
    }
  }

  // Bytes that lfs_ctz_index takes off before its second division.
  function Slack(i: nat): nat
    requires i > 0
  {
    4 * (Popc(i - 1) + 2)
  }

  /** lfs_ctz_index in 32-bit arithmetic: the block of a position, and what the source leaves in *off. */
  function Index(bs: uint32, p: uint32): (nat, nat)
    requires bs != 8
  {
    var b := Room(bs);
    var i := Div(p, b);
    if i == 0 then (0, p) else
      var j := Div((p - Slack(i)) % 0x1_0000_0000, b);
      (j, (p - j * b - 4 * Popc(j)) % 0x1_0000_0000)
  }

  // The same where nothing wraps around.
  function Locate(bs: uint32, p: uint32): (r: (nat, nat))
    requires bs >= 104
  {
    var b := bs - 8;
    var i := Div(p, b);
    if i == 0 then (0, p) else
      FirstGuess(b, p, i);
      var j := Div(p - Slack(i), b);
      SecondGuess(b, p, i, j);
      (j, p - j * b - 4 * Popc(j))
  }

  lemma IndexIsLocate(bs: uint32, p: uint32)
    requires bs >= 104
    ensures Index(bs, p) == Locate(bs, p)
  {
    hide Div, Slack;
    var b: nat := bs - 8;
    var i := Div(p, b);
    assert Room(bs) == b;
    if i > 0 {
      FirstGuess(b, p, i);
      NoWrap(p - Slack(i));
      var j := Div(p - Slack(i), b);
      SecondGuess(b, p, i, j);
      MulNotNegative(j, b);
      NoWrap(p - j * b - 4 * Popc(j));
    }
  }

  lemma NoWrap(x: int)
    requires 0 <= x < 0x1_0000_0000
    ensures x % 0x1_0000_0000 == x
  {
  }

  // In the four wrapping block sizes every position is taken to be in the first block.
  lemma IndexOfTinyBlocks(bs: uint32, p: uint32)
    requires 4 <= bs < 8
    ensures Index(bs, p) == (0, p)
  {
    hide Div, Index;
    if p < Room(bs) {
      TinyFirst(bs, p);
    } else {
      TinyLast(bs, p);
    }
  }

  lemma TinyFirst(bs: uint32, p: uint32)
    requires 4 <= bs < 8 && p < Room(bs)
    ensures Index(bs, p) == (0, p)
  {
    DivIs(p, Room(bs), 0);
    hide Div, Room;
  }

  lemma TinyLast(bs: uint32, p: uint32)
    requires 4 <= bs < 8 && p >= Room(bs)
    ensures Index(bs, p) == (0, p)
  {
    var b: nat := Room(bs);
    assert b == bs + 0xffff_fff8 && Slack(1) == 8 && Popc(0) == 0;
    DivIs(p, b, 1);
    DivIs(p - 8, b, 0);
    hide Div, Room, Slack, Popc;
    assert (p - 8) % 0x1_0000_0000 == p - 8;
  }

  // The subtractions of lfs_ctz_index do not wrap around.
  lemma FirstGuess(b: nat, p: nat, i: nat)
    requires b >= 96 && i > 0 && i * b <= p
    ensures p >= Slack(i)
  {
    PopcAtMost(i - 1);
    MulMonotone(96, b, i);
  }

  lemma SecondGuess(b: nat, p: nat, i: nat, j: nat)
    requires 96 <= b && p < 0x1_0000_0000 && i > 0 && i * b <= p < i * b + b
    requires Slack(i) <= p && j * b <= p - Slack(i) < j * b + b
    ensures i - 2 <= j <= i
    ensures p - j * b - 4 * Popc(j) >= 0
  {
    SmallIndex(b, p, i);
    Pow2Of32();
    PopcBound(i - 1, 26);
    if j > i {
      MulMonotone(i + 1, j, b);
      MulPlus(i, 1, b);
    } else if j < i - 2 {
      MulMonotone(j, i - 3, b);
      MulPlus(i, -3, b);
    } else if j == i - 2 {
      MulPlus(i, -2, b);
      PopcBound(j, 26);
    } else {
      PopcStep(i);
    }
  }

  lemma {:induction false} PopcAtMost(n: nat)
    ensures Popc(n) <= n
  {
    if n > 0 {
      PopcAtMost(n / 2);
    }
  }

  lemma SmallIndex(b: nat, p: nat, n: nat)
    requires b >= 96 && p < 0x1_0000_0000 && n * b <= p
    ensures n <= 44739242
  {
    MulMonotone(96, b, n);
  }

  /* The sum in closed form, and why the search for the block is unambiguous. */

  lemma {:induction false} StartClosedForm(bs: nat, n: nat)
    requires n >= 1 && bs >= 8
    ensures Start(bs, n) == n * (bs - 8) + 8 + 4 * Popc(n - 1)
  {
    if n == 1 {
      assert Start(bs, 1) == bs;
    } else {
      StartClosedForm(bs, n - 1);
      PopcStep(n - 1);
      assert n * (bs - 8) == (n - 1) * (bs - 8) + (bs - 8);
    }
  }

  // The same closed form, got from the number of pointers written so far.
  lemma {:induction false} StartCountsPointers(bs: nat, n: nat)
    requires n >= 1
    ensures Start(bs, n) == n * bs - 4 * PointersUpTo(n - 1)
  {
    if n > 1 {
      StartCountsPointers(bs, n - 1);
      assert n * bs == (n - 1) * bs + bs;
    }
  }

  lemma StartLowerBound(bs: nat, n: nat)
    requires bs >= 8
    ensures Start(bs, n) >= n * (bs - 8)
  {
    if n >= 1 {
      StartClosedForm(bs, n);
    }
  }

  lemma CapacityNotNegative(bs: nat, n: nat)
    requires bs >= 104 && n < Pow2(26)
    ensures PointerBytes(n) <= 104
    ensures Start(bs, n) <= Start(bs, n + 1)
  {
    if n > 0 {
      CtzFits(n);
      if Ctz(n) >= 26 {
        Pow2Monotone(26, Ctz(n));
      }
    }
  }

  lemma {:induction false} StartMonotone(bs: nat, n: nat, m: nat)
    requires bs >= 104 && n <= m <= Pow2(26)
    ensures Start(bs, n) <= Start(bs, m)
    decreases m
  {
    if n < m {
      hide Start, Pow2;
      StartMonotone(bs, n, m - 1);
      CapacityNotNegative(bs, m - 1);
    }
  }

  // At most one block and offset hold a position.
  lemma LivesAtUnique(bs: nat, p: uint32, n: nat, off: nat, m: nat, moff: nat)
    requires bs >= 104 && LivesAt(bs, p, n, off) && LivesAt(bs, p, m, moff)
    ensures n == m && off == moff
  {
    StartLowerBound(bs, n);
    StartLowerBound(bs, m);
    SmallIndex(bs - 8, p, n);
    SmallIndex(bs - 8, p, m);
    Pow2Of32();
    if n < m {
      StartMonotone(bs, n + 1, m);
    } else if m < n {
      StartMonotone(bs, m + 1, n);
    }
  }

  /* Exactness */

  ghost predicate Exact(bs: uint32, p: uint32)
    requires bs >= 104
  {
    LivesAt(bs, p, Locate(bs, p).0, Locate(bs, p).1)
  }

  lemma LivesAtClosedForm(bs: nat, p: nat, n: nat, off: nat)
    requires bs >= 8
    requires n == 0 ==> p < bs && off == p
    requires n > 0 ==> n * (bs - 8) + 8 + 4 * Popc(n - 1) <= p < n * (bs - 8) + bs + 4 * Popc(n)
    requires n > 0 ==> off == p - n * (bs - 8) - 4 * Popc(n)
    ensures LivesAt(bs, p, n, off)
  {
    if n == 0 {
      assert Start(bs, 1) == bs;
    } else {
      StartClosedForm(bs, n);
      StartClosedForm(bs, n + 1);
      MulPlus(n, 1, bs - 8);
      PopcStep(n);
    }
  }

  // The second division in terms of the first: it lands on the first guess or one before.
  lemma LocateValue(bs: uint32, p: uint32, b: nat, i: nat, at: nat)
    requires bs >= 104 && b == bs - 8 && i == Div(p, b) && i > 0
    requires Slack(i) <= p && at * b <= p - Slack(i) < at * b + b
    ensures Locate(bs, p).0 == at && Locate(bs, p).1 == p - at * b - 4 * Popc(at)
  {
    hide Div;
    DivIs(p - Slack(i), b, at);
  }

  // Either way the second division lands in the block whose range holds p.
  lemma ExactFrom(bs: uint32, p: uint32, b: nat, i: nat)
    requires bs >= 104 && b == bs - 8 && i == Div(p, b) && i > 0
    requires Slack(i) <= b
    requires i >= 2 ==> Slack(i - 1) <= b
    ensures Exact(bs, p)
  {
    hide Locate, Div;
    assert i * b <= p < i * b + b;
    FirstGuess(b, p, i);
    if p - i * b >= Slack(i) {
      LocateValue(bs, p, b, i, i);
      LivesAtClosedForm(bs, p, i, Locate(bs, p).1);
    } else {
      MulPlus(i, -1, b);
      LocateValue(bs, p, b, i, i - 1);
      LivesAtClosedForm(bs, p, i - 1, Locate(bs, p).1);
    }
  }

  // When 8 + 4k fits in b and no block index reaches 2^(k+1), the two divisions land right.
  lemma ExactInFirst(bs: uint32, p: uint32)
    requires bs >= 104 && Div(p, bs - 8) == 0
    ensures Exact(bs, p)
  {
    LivesAtClosedForm(bs, p, 0, p);
    hide Div, LivesAt;
  }

  lemma ExactIfOverheadFits(bs: uint32, p: uint32, k: nat)
    requires bs >= 104 && 8 + 4 * k <= bs - 8
    requires Div(p, bs - 8) < Pow2(k + 1)
    ensures Exact(bs, p)
  {
    hide Div, Exact;
    var b: nat := bs - 8;
    var i := Div(p, b);
    if i == 0 {
      ExactInFirst(bs, p);
    } else {
      hide Locate, Popc;
      PopcBound(i - 1, k + 1);
      if i >= 2 {
        PopcBound(i - 2, k + 1);
      }
      ExactFrom(bs, p, b, i);
    }
  }

  /** Every position a file may have, in the block sizes that need no luck. */
  lemma LocateExact(bs: uint32, p: uint32)
    requires bs >= 116 || (bs >= 112 && p <= FILE_MAX)
    ensures Exact(bs, p)
  {
    hide Locate, Div;
    Pow2Of32();
    var b: nat := bs - 8;
    if bs >= 116 {
      MulMonotone(108, b, 67108864);
      DivBelow(p, b, 67108864);
      ExactIfOverheadFits(bs, p, 25);
    } else {
      MulMonotone(104, b, 33554432);
      DivBelow(p, b, 33554432);
      ExactIfOverheadFits(bs, p, 24);
    }
  }

  // Just past block 2^k the first guess sees one set bit and the true start has k of them.
  lemma MissesAfterPowerOfTwo(bs: uint32, b: nat, k: nat, n: nat, p: uint32)
    requires bs >= 104 && k > 0 && b == bs - 8 < 8 + 4 * k
    requires n == Pow2(k) && p == n * b + b
    ensures !Exact(bs, p)
  {
    hide Locate, Div;
    assert n * (bs - 8) == n * b;
    PopcOfMersenne(k);
    hide Pow2, Popc, Start;
    MulPlus(n, 1, b);
    DivIs(p, b, n + 1);
    LocateValue(bs, p, b, n + 1, n);
    StartClosedForm(bs, n);
  }

  // Whether lfs_ctz_index finds a position.
  ghost predicate Finds(bs: uint32, p: uint32)
    requires bs != 8
  {
    LivesAt(bs, p, Index(bs, p).0, Index(bs, p).1)
  }

  /** Exactly which block sizes that pass lfs_init index every file position right. */
  lemma ExactBlockSizes(bs: uint32)
    requires bs != 8 && InitAccepts(bs)
    ensures (forall p: uint32 :: p <= FILE_MAX ==> Finds(bs, p)) <==> bs >= 112
    ensures (forall p: uint32 :: Finds(bs, p)) <==> bs >= 116
  {
    hide Locate, Div, Index, InitAccepts;
    InitAcceptsWhat(bs);
    Pow2Of32();
    if bs < 8 {
      IndexOfTinyBlocks(bs, bs);
      assert !LivesAt(bs, bs, 0, bs);
      assert !Finds(bs, bs);
    } else {
      forall p: uint32 ensures Index(bs, p) == Locate(bs, p) { IndexIsLocate(bs, p); }
      var b: nat := bs - 8;
      if bs < 112 {
        var p: uint32 := 16777217 * b;
        MissesAfterPowerOfTwo(bs, b, 24, 16777216, p);
        assert p <= FILE_MAX && !Finds(bs, p);
      } else {
        forall p: uint32 | p <= FILE_MAX ensures Finds(bs, p) { LocateExact(bs, p); }
      }
      if bs < 116 {
        var p: uint32 := 33554433 * b;
        MissesAfterPowerOfTwo(bs, b, 25, 33554432, p);
        assert !Finds(bs, p);
      } else {
        forall p: uint32 ensures Finds(bs, p) { LocateExact(bs, p); }
      }
    }
  }
}
