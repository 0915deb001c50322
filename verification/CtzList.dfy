/** CTZ skip lists on the device: search, extension and traversal
    (littlefs/lfs.cpp, lfs_ctz_find, lfs_ctz_extend, lfs_ctz_traverse). */
module CtzList {
  import opened Words
  import opened Bits
  import opened CtzIndex
  import opened Blocks
  import opened Wrappers

  type Disk = seq<seq<byte>>

  ghost predicate Formatted(disk: Disk, bs: nat) {
    forall b :: 0 <= b < |disk| ==> |disk[b]| == bs
  }

  // Pointer k of a block, or 0 where the block is too short to hold one.
  function Pointer(disk: Disk, block: nat, k: nat): uint32
    requires block < |disk|
  {
    if 4 * k + 4 <= |disk[block]| then FromLe32(disk[block][4 * k..4 * k + 4]) else 0
  }

  // The device after bytes off.. of a block are overwritten.
  function Put(disk: Disk, block: nat, off: nat, data: seq<byte>): (e: Disk)
    requires block < |disk| && off + |data| <= |disk[block]|
    ensures OnlyChanged(disk, e, block) && |e[block]| == |disk[block]|
  {
    disk[block := disk[block][..off] + data + disk[block][off + |data|..]]
  }

  // Only one block differs.
  ghost predicate OnlyChanged(d: Disk, e: Disk, block: nat) {
    |d| == |e| && forall b :: 0 <= b < |d| && b != block ==> d[b] == e[b]
  }

  // Every block of the chain lies on the device.
  ghost predicate OnDisk(disk: Disk, chain: seq<nat>) {
    forall n :: 0 <= n < |chain| ==> chain[n] < |disk|
  }

  /** The skip-list invariant: pointer k of block n leads to block n - 2^k. */
  ghost predicate Linked(disk: Disk, chain: seq<nat>) {
    && OnDisk(disk, chain)
    && forall n, k: nat {:trigger Pointer(disk, chain[n], k)} ::
         1 <= n < |chain| && k <= Ctz(n) && Pow2(k) <= n ==> Pointer(disk, chain[n], k) == chain[n - Pow2(k)]
  }

  /** A chain long enough for a file of the given size, and no longer. */
  ghost predicate Holds(disk: Disk, bs: uint32, chain: seq<nat>, size: nat) {
    && bs >= 112 && size <= FILE_MAX
    && Formatted(disk, bs)
    && Linked(disk, chain)
    && NoRepeats(chain)
    && |chain| == if size == 0 then 0 else Locate(bs, size - 1).0 + 1
  }

  // The file byte at position p.
  ghost function ByteAt(disk: Disk, bs: uint32, chain: seq<nat>, p: nat): byte
    requires bs >= 104 && p < FILE_MAX
  {
    var (n, off) := Locate(bs, p);
    if n < |chain| && chain[n] < |disk| && off < |disk[chain[n]]| then disk[chain[n]][off] else 0
  }

  ghost function Content(disk: Disk, bs: uint32, chain: seq<nat>, size: nat): (s: seq<byte>)
    requires bs >= 104 && size <= FILE_MAX
    ensures |s| == size
  {
    seq(size, p requires 0 <= p < size => ByteAt(disk, bs, chain, p))
  }

  /* Positions and blocks */

  lemma LocateInBlock(bs: uint32, p: nat)
    requires bs >= 112 && p <= FILE_MAX
    ensures LivesAt(bs, p, Locate(bs, p).0, Locate(bs, p).1)
    ensures Locate(bs, p).0 < Pow2(26) && Locate(bs, p).1 < bs
    ensures PointerBytes(Locate(bs, p).0) <= Locate(bs, p).1
  {
    hide Locate, NoRepeats;
    LocateExact(bs, p);
    StartLowerBound(bs, Locate(bs, p).0);
    SmallIndex(bs - 8, p, Locate(bs, p).0);
    Pow2Of32();
  }

  // The position after p: the next byte of the block, or the first data byte of the next block.
  lemma NextPosition(bs: uint32, p: nat)
    requires bs >= 112 && p < FILE_MAX
    ensures var (n, off) := Locate(bs, p);
            Locate(bs, p + 1) == if off + 1 == bs then (n + 1, PointerBytes(n + 1)) else (n, off + 1)
  {
    hide Locate, NoRepeats;
    var (n, off) := Locate(bs, p);
    LocateInBlock(bs, p);
    LocateInBlock(bs, p + 1);
    if off + 1 == bs {
      CapacityNotNegative(bs, n);
      Pow2Of32();
      NextBlockNotFull(bs, n, p);
      LivesAtUnique(bs, p + 1, n + 1, PointerBytes(n + 1), Locate(bs, p + 1).0, Locate(bs, p + 1).1);
    } else {
      LivesAtUnique(bs, p + 1, n, off + 1, Locate(bs, p + 1).0, Locate(bs, p + 1).1);
    }
  }

  // Block n + 1 has room for data when block n ends at a file position.
  lemma NextBlockNotFull(bs: uint32, n: nat, p: nat)
    requires bs >= 112 && p < FILE_MAX && n < Pow2(26) && p + 1 == Start(bs, n + 1)
    ensures Start(bs, n + 1) < Start(bs, n + 2)
  {
    hide Locate, Pow2, PointerBytes;
    StartLowerBound(bs, n + 1);
    SmallIndex(bs - 8, p + 1, n + 1);
    Pow2Of32();
    CapacityNotNegative(bs, n + 1);
    assert Start(bs, n + 2) == Start(bs, n + 1) + bs - PointerBytes(n + 1);
  }

  lemma {:induction false} LocateMonotone(bs: uint32, p: nat, q: nat)
    requires bs >= 112 && p <= q <= FILE_MAX
    ensures Locate(bs, p).0 <= Locate(bs, q).0
    ensures p < q && Locate(bs, p).0 == Locate(bs, q).0 ==> Locate(bs, q).1 == Locate(bs, p).1 + (q - p)
    decreases q
  {
    hide Locate, NoRepeats;
    LocateInBlock(bs, p);
    LocateInBlock(bs, q);
    var n, m := Locate(bs, p).0, Locate(bs, q).0;
    if m < n {
      StartMonotone(bs, m + 1, n);
    }
  }

  lemma LocateZero(bs: uint32)
    requires bs >= 112
    ensures Locate(bs, 0) == (0, 0)
  {
    assert Start(bs, 1) == bs;
    LocateInBlock(bs, 0);
    LivesAtUnique(bs, 0, 0, 0, Locate(bs, 0).0, Locate(bs, 0).1);
  }

  /* Reading the list only depends on its own blocks. */

  ghost predicate SameBlocks(d: Disk, e: Disk, blocks: seq<nat>) {
    |d| == |e| && forall n :: 0 <= n < |blocks| && blocks[n] < |d| ==> d[blocks[n]] == e[blocks[n]]
  }

  lemma HoldsFrame(d: Disk, e: Disk, bs: uint32, chain: seq<nat>, size: nat)
    requires Holds(d, bs, chain, size) && Formatted(e, bs) && SameBlocks(d, e, chain)
    ensures Holds(e, bs, chain, size)
    ensures Content(d, bs, chain, size) == Content(e, bs, chain, size)
  {
    hide Locate, NoRepeats;
    forall n, k: nat | 1 <= n < |chain| && k <= Ctz(n) && Pow2(k) <= n
      ensures Pointer(e, chain[n], k) == chain[n - Pow2(k)]
    {
      assert d[chain[n]] == e[chain[n]];
      assert Pointer(d, chain[n], k) == chain[n - Pow2(k)];
    }
    forall p: nat | p < size
      ensures ByteAt(d, bs, chain, p) == ByteAt(e, bs, chain, p)
    {
      var n := Locate(bs, p).0;
      assert n < |chain| ==> d[chain[n]] == e[chain[n]];
    }
  }

  // Reads that the skip loop can still make: the second phase halves the distance,
  // the first climbs to blocks with longer pointer tables.
  ghost function SearchCost(current: nat, target: nat): nat
    requires target <= current
  {
    var d := current - target;
    if d == 0 then 0
    else BitLen(d) + if Ctz(current) < BitLen(d) - 1 then BitLen(d) - 1 - Ctz(current) else 0
  }

  lemma SearchCostBound(current: nat, target: nat)
    requires target <= current
    ensures SearchCost(current, target) <= 2 * BitLen(current)
  {
    BitLenMonotone(current - target, current);
  }

  // One skip: it never overshoots, lands on a pointer that exists, and pays for itself.
  lemma SkipPays(current: nat, target: nat, skip: nat)
    requires target < current
    requires skip == if BitLen(current - target) - 1 < Ctz(current) then BitLen(current - target) - 1 else Ctz(current)
    ensures Pow2(skip) <= current - target
    ensures SearchCost(current - Pow2(skip), target) < SearchCost(current, target)
  {
    hide Ctz, BitLen;
    var d := current - target;
    var next := current - Pow2(skip);
    BitLenBounds(d);
    Pow2Monotone(skip, BitLen(d) - 1);
    var e := d - Pow2(skip);
    if e > 0 {
      CtzAfterSkip(current, skip);
      BitLenMonotone(e, d);
      if skip == BitLen(d) - 1 {
        BitLenUnique(e, skip);
      }
    }
  }

  lemma PointerFits(bs: uint32, n: nat, k: nat)
    requires bs >= 112 && 1 <= n < Pow2(26) && k <= Ctz(n)
    ensures 4 * k + 4 <= PointerBytes(n) <= 104
  {
    CapacityNotNegative(bs, n);
  }

  lemma FollowPointer(disk: Disk, bs: uint32, chain: seq<nat>, n: nat, k: nat)
    requires bs >= 112 && Formatted(disk, bs) && Linked(disk, chain)
    requires 1 <= n < |chain| && n < Pow2(26) && k <= Ctz(n) && Pow2(k) <= n
    ensures 4 * k + 4 <= |disk[chain[n]]|
    ensures FromLe32(disk[chain[n]][4 * k..4 * k + 4]) == chain[n - Pow2(k)]
  {
    PointerFits(bs, n, k);
    assert Pointer(disk, chain[n], k) == chain[n - Pow2(k)];
  }

  lemma SlicesAgree(a: seq<byte>, b: seq<byte>, len: nat, lo: nat, hi: nat)
    requires lo <= hi <= len <= |a| && len <= |b| && a[..len] == b[..len]
    ensures a[lo..hi] == b[lo..hi]
  {
    assert a[lo..hi] == a[..len][lo..hi];
    assert b[lo..hi] == b[..len][lo..hi];
  }

  const BLOCK_NULL: uint32 := 0xffff_ffff

  /* One extension step, as the chain sees it. */

  lemma SamePointer(d: Disk, e: Disk, a: nat, b: nat, len: nat, k: nat)
    requires a < |d| && b < |e| && 4 * k + 4 <= len <= |d[a]| && len <= |e[b]| && d[a][..len] == e[b][..len]
    ensures Pointer(d, a, k) == Pointer(e, b, k)
  {
    SlicesAgree(d[a], e[b], len, 4 * k, 4 * k + 4);
  }

  // A block that repeats the last block's used bytes can stand in for it.
  ghost predicate Repeats(d: Disk, e: Disk, bs: uint32, chain: seq<nat>, size: nat, nblock: nat) {
    && size > 0 && Holds(d, bs, chain, size) && Formatted(e, bs) && SameBlocks(d, e, chain) && nblock < |e|
    && var head, len := chain[|chain| - 1], Locate(bs, size - 1).1 + 1;
       len <= bs && e[nblock][..len] == d[head][..len]
  }

  lemma ReplaceLast(d: Disk, e: Disk, bs: uint32, chain: seq<nat>, size: nat, nblock: nat)
    requires Repeats(d, e, bs, chain, size, nblock) && nblock !in chain
    ensures Holds(e, bs, chain[..|chain| - 1] + [nblock], size)
    ensures Content(e, bs, chain[..|chain| - 1] + [nblock], size) == Content(d, bs, chain, size)
  {
    hide Locate, NoRepeats;
    var grown := chain[..|chain| - 1] + [nblock];
    NoRepeatsPrefix(chain, |chain| - 1);
    NoRepeatsAppend(chain[..|chain| - 1], nblock);
    forall n, k: nat | 1 <= n < |grown| && k <= Ctz(n) && Pow2(k) <= n
      ensures Pointer(e, grown[n], k) == grown[n - Pow2(k)]
    {
      ReplaceLastPointer(d, e, bs, chain, size, nblock, n, k);
    }
    forall p: nat | p < size
      ensures ByteAt(e, bs, grown, p) == ByteAt(d, bs, chain, p)
    {
      ReplaceLastByte(d, e, bs, chain, size, nblock, p);
    }
  }

  lemma ReplaceLastPointer(d: Disk, e: Disk, bs: uint32, chain: seq<nat>, size: nat, nblock: nat, n: nat, k: nat)
    requires Repeats(d, e, bs, chain, size, nblock)
    requires 1 <= n < |chain| && k <= Ctz(n) && Pow2(k) <= n
    ensures var grown := chain[..|chain| - 1] + [nblock]; Pointer(e, grown[n], k) == grown[n - Pow2(k)]
  {
    hide Locate, Ctz, Pow2, FromLe32, NoRepeats;
    var grown, last := chain[..|chain| - 1] + [nblock], |chain| - 1;
    assert Pointer(d, chain[n], k) == chain[n - Pow2(k)] == grown[n - Pow2(k)];
    if n == last {
      LastPointerFits(d, bs, chain, size, k);
      SamePointer(d, e, chain[n], nblock, Locate(bs, size - 1).1 + 1, k);
    } else {
      assert chain[n] == grown[n] && d[chain[n]] == e[chain[n]];
    }
  }

  // The bytes in use of the last block include its pointers.
  lemma LastPointerFits(d: Disk, bs: uint32, chain: seq<nat>, size: nat, k: nat)
    requires size > 0 && Holds(d, bs, chain, size) && |chain| > 1 && k <= Ctz(|chain| - 1)
    ensures 4 * k + 4 <= Locate(bs, size - 1).1 + 1 <= bs
  {
    hide Locate, NoRepeats;
    LocateInBlock(bs, size - 1);
    PointerFits(bs, |chain| - 1, k);
  }

  lemma LinkedOnDisk(d: Disk, chain: seq<nat>)
    requires Linked(d, chain)
    ensures OnDisk(d, chain)
  {
  }

  lemma ReplaceLastByte(d: Disk, e: Disk, bs: uint32, chain: seq<nat>, size: nat, nblock: nat, p: nat)
    requires Repeats(d, e, bs, chain, size, nblock) && p < size
    ensures ByteAt(e, bs, chain[..|chain| - 1] + [nblock], p) == ByteAt(d, bs, chain, p)
  {
    hide Locate, Linked, LivesAt, PointerBytes;
    LocateMonotone(bs, p, size - 1);
    LocateInBlock(bs, p);
    LinkedOnDisk(d, chain);
    var (n, off) := Locate(bs, p);
    var head, len := chain[|chain| - 1], Locate(bs, size - 1).1 + 1;
    if n == |chain| - 1 {
      assert e[nblock][off] == e[nblock][..len][off];
      assert d[head][off] == d[head][..len][off];
    } else {
      assert d[chain[n]] == e[chain[n]];
    }
  }

  // A block carrying the right pointers extends a chain whose last block is full.
  lemma AppendLinked(d: Disk, e: Disk, bs: uint32, chain: seq<nat>, size: nat, nblock: nat)
    requires size > 0 && Holds(d, bs, chain, size) && Formatted(e, bs) && SameBlocks(d, e, chain) && nblock < |e|
    requires Wired(e, nblock, chain, Ctz(|chain|) + 1)
    ensures Linked(e, chain + [nblock])
    ensures Content(e, bs, chain + [nblock], size) == Content(d, bs, chain, size)
  {
    hide Locate, FromLe32, NoRepeats, Ctz, Pow2, Pointer;
    var grown := chain + [nblock];
    forall n, k: nat | 1 <= n < |grown| && k <= Ctz(n) && Pow2(k) <= n
      ensures Pointer(e, grown[n], k) == grown[n - Pow2(k)]
    {
      AppendedPointer(d, e, chain, nblock, n, k);
    }
    AppendContent(d, e, bs, chain, size, nblock);
  }

  lemma AppendContent(d: Disk, e: Disk, bs: uint32, chain: seq<nat>, size: nat, nblock: nat)
    requires size > 0 && Holds(d, bs, chain, size) && SameBlocks(d, e, chain)
    ensures Content(e, bs, chain + [nblock], size) == Content(d, bs, chain, size)
  {
    assert OnDisk(d, chain);
    hide Locate, Linked, NoRepeats;
    var grown := chain + [nblock];
    forall p: nat | p < size
      ensures ByteAt(e, bs, grown, p) == ByteAt(d, bs, chain, p)
    {
      LocateMonotone(bs, p, size - 1);
      var n := Locate(bs, p).0;
      assert d[chain[n]] == e[chain[n]];
    }
  }

  lemma AppendedPointer(d: Disk, e: Disk, chain: seq<nat>, nblock: nat, n: nat, k: nat)
    requires |chain| > 0 && Linked(d, chain) && SameBlocks(d, e, chain) && nblock < |e|
    requires Wired(e, nblock, chain, Ctz(|chain|) + 1)
    requires 1 <= n <= |chain| && k <= Ctz(n) && Pow2(k) <= n
    ensures var grown := chain + [nblock]; Pointer(e, grown[n], k) == grown[n - Pow2(k)]
  {
    hide FromLe32, Ctz, Pow2, NoRepeats;
    if n < |chain| {
      assert d[chain[n]] == e[chain[n]];
      assert Pointer(d, chain[n], k) == chain[n - Pow2(k)];
    }
  }

  // The chain after an extension.
  ghost function Grown(bs: uint32, chain: seq<nat>, size: nat, nblock: nat): seq<nat>
    requires bs >= 112 && size <= FILE_MAX && (size > 0 ==> |chain| > 0)
  {
    if size == 0 then [nblock]
    else if Locate(bs, size - 1).1 + 1 == bs then chain + [nblock]
    else chain[..|chain| - 1] + [nblock]
  }

  // What an extension by nblock achieves: position size may be written at byte off of it.
  ghost predicate Extended(d: Disk, e: Disk, bs: uint32, chain: seq<nat>, size: nat, nblock: nat, off: nat)
    requires bs >= 112 && size < FILE_MAX && (size > 0 ==> |chain| > 0)
  {
    var grown := Grown(bs, chain, size, nblock);
    && OnlyChanged(d, e, nblock)
    && Linked(e, grown)
    && Locate(bs, size) == (|grown| - 1, off)
    && Content(e, bs, grown, size) == Content(d, bs, chain, size)
  }

  lemma PointerWritten(d: Disk, e: Disk, block: nat, i: nat, w: uint32)
    requires block < |d| && 4 * i + 4 <= |d[block]|
    requires e == Put(d, block, 4 * i, Le32(w))
    ensures Pointer(e, block, i) == w
    ensures forall k: nat :: k < i ==> Pointer(e, block, k) == Pointer(d, block, k)
  {
    ByteOrderRoundTrip(w);
    assert e[block][4 * i..4 * i + 4] == Le32(w);
    forall k: nat | k < i ensures Pointer(e, block, k) == Pointer(d, block, k) {
      assert e[block][4 * k..4 * k + 4] == d[block][4 * k..4 * k + 4];
    }
  }

  lemma LinkedFrame(d: Disk, e: Disk, chain: seq<nat>)
    requires Linked(d, chain) && |d| == |e|
    requires forall n :: 0 <= n < |chain| ==> d[chain[n]] == e[chain[n]]
    ensures Linked(e, chain)
  {
    forall n, k: nat | 1 <= n < |chain| && k <= Ctz(n) && Pow2(k) <= n
      ensures Pointer(e, chain[n], k) == chain[n - Pow2(k)]
    {
      assert Pointer(d, chain[n], k) == chain[n - Pow2(k)];
    }
  }

  // The first i pointers of a block placed after the chain.
  lemma LinkedBlock(disk: Disk, bs: uint32, chain: seq<nat>, n: nat, block: nat)
    requires Formatted(disk, bs) && Linked(disk, chain) && n < |chain| && block < |disk|
    ensures chain[n] < |disk| && |disk[block]| == bs
  {
  }

  // Programming another block leaves a list as it is.
  lemma PutElsewhere(d: Disk, e: Disk, block: nat, off: nat, data: seq<byte>, chain: seq<nat>)
    requires block < |d| && off + |data| <= |d[block]| && e == Put(d, block, off, data)
    requires Linked(d, chain) && block !in chain
    ensures Linked(e, chain) && OnlyChanged(d, e, block)
  {
    LinkedFrame(d, e, chain);
  }

  ghost predicate Wired(disk: Disk, block: nat, chain: seq<nat>, i: nat) {
    && block < |disk|
    && forall k: nat :: k < i && Pow2(k) <= |chain| ==> Pointer(disk, block, k) == chain[|chain| - Pow2(k)]
  }

  lemma WireOne(d: Disk, e: Disk, block: nat, chain: seq<nat>, i: nat, w: uint32)
    requires Wired(d, block, chain, i) && 4 * i + 4 <= |d[block]|
    requires e == Put(d, block, 4 * i, Le32(w))
    requires Pow2(i) <= |chain| && w == chain[|chain| - Pow2(i)]
    ensures Wired(e, block, chain, i + 1)
  {
    PointerWritten(d, e, block, i, w);
  }

  lemma SingleBlock(disk: Disk, bs: uint32, block: nat)
    requires bs >= 104 && block < |disk|
    ensures Linked(disk, [block]) && Content(disk, bs, [block], 0) == [] == Content(disk, bs, [], 0)
  {
  }

  lemma FirstPower(n: nat)
    requires n > 0
    ensures Pow2(0) == 1 <= n
  {
  }

  // Below the lowest set bit of n, block n - 2^i has a pointer i, to block n - 2^(i+1).
  lemma SkipIsLinked(n: nat, i: nat)
    requires 0 < n && i < Ctz(n)
    ensures Pow2(i + 1) == 2 * Pow2(i) <= n && Ctz(n - Pow2(i)) == i
  {
    CtzFits(n);
    Pow2Monotone(i + 1, Ctz(n));
    CtzAfterSkip(n, i);
  }

  /** The device with the allocator's view of it. Erasing leaves a block with
      arbitrary contents; programming overwrites. Blocks in used are the ones lfs_alloc
      will not hand out: those its traversals marked and those handed out since. */
  class Store {
    const bs: uint32
    var disk: Disk
    var used: set<nat>

    ghost predicate Valid()
      reads this
    {
      bs >= 112 && Formatted(disk, bs) && |disk| < 0xffff_fffe
    }

    ghost predicate Full()
      reads this
    {
      forall b :: 0 <= b < |disk| ==> b in used
    }

    // lfs_alloc seen from outside: some block not in use, as long as there is one.
    method Alloc() returns (r: Result<nat>)
      requires Valid()
      modifies this`used
      ensures r.Err? ==> r.error == NoSpace && used == old(used) && Full()
      ensures r.Ok? ==> r.value < |disk| && r.value !in old(used) && used == old(used) + {r.value}
    {
      if candidate: nat :| candidate < |disk| && candidate !in used {
        used := used + {candidate};
        return Ok(candidate);
      }
      return Err(NoSpace);
    }

    method Erase(block: nat)
      requires Valid() && block < |disk|
      modifies this`disk
      ensures Valid() && OnlyChanged(old(disk), disk, block)
    {
      var rest: seq<byte> := *;
      if |rest| == bs {
        disk := disk[block := rest];
      }
    }

    // Overwrite bytes off.. of a block.
    method Prog(block: nat, off: nat, data: seq<byte>)
      requires Valid() && block < |disk| && off + |data| <= bs
      modifies this`disk
      ensures Valid() && disk == Put(old(disk), block, off, data)
    {
      disk := Put(disk, block, off, data);
    }

    // One turn of the search: as far back as the distance and the pointer table allow.
    method Skip(head: nat, current: nat, target: nat, ghost chain: seq<nat>) returns (skip: nat, block: nat)
      requires Valid() && Linked(disk, chain) && |chain| <= Pow2(26)
      requires target < current < |chain| && head == chain[current]
      ensures Pow2(skip) <= current - target && block == chain[current - Pow2(skip)]
      ensures SearchCost(current - Pow2(skip), target) < SearchCost(current, target)
    {
      assert OnDisk(disk, chain);
      hide Ctz, BitLen, SearchCost, FromLe32, Linked, NoRepeats;
      Pow2Of32();
      var reach := Npw2(current - target + 1);
      var table := CtzByNpw2(current);
      skip := if reach - 1 < table then reach - 1 else table;
      SkipPays(current, target, skip);
      FollowPointer(disk, bs, chain, current, skip);
      block := FromLe32(disk[head][4 * skip..4 * skip + 4]);
    }

    // head is the last block of a list for that size.
    ghost predicate Headed(head: nat, size: nat, chain: seq<nat>)
      requires Valid()
      reads this
    {
      Holds(disk, bs, chain, size) && (size > 0 ==> head == chain[|chain| - 1])
    }

    lemma SearchStarts(head: nat, size: nat, pos: nat, chain: seq<nat>)
      requires Valid() && 0 < size <= FILE_MAX && pos <= FILE_MAX
      ensures var last, target := Locate(bs, size - 1).0, Locate(bs, pos).0;
              && (pos < size ==> target <= last)
              && (Headed(head, size, chain) ==>
                    Linked(disk, chain) && |chain| == last + 1 <= Pow2(26) && head == chain[last])
    {
      hide Locate, Linked, NoRepeats;
      LocateInBlock(bs, size - 1);
      Pow2Of32();
      if pos < size {
        LocateMonotone(bs, pos, size - 1);
      }
    }

    /** lfs_ctz_find: the block and offset of pos in a list of size bytes. A position
        past the end gets the head block; no more reads than twice the bits of the last index. */
    method CtzFind(head: nat, size: nat, pos: nat, ghost chain: seq<nat>) returns (block: nat, off: nat, steps: nat)
      requires Valid() && size <= FILE_MAX && pos <= FILE_MAX
      // a list, or a head that is where the search ends
      requires Headed(head, size, chain) || (size > 0 && Locate(bs, pos).0 >= Locate(bs, size - 1).0)
      ensures size == 0 ==> block == BLOCK_NULL && off == 0 && steps == 0
      ensures size > 0 ==> off == Locate(bs, pos).1
      ensures size > 0 && Locate(bs, pos).0 >= Locate(bs, size - 1).0 ==> block == head && steps == 0
      ensures size > 0 && Headed(head, size, chain) ==>
                && (Locate(bs, pos).0 < |chain| ==> block == chain[Locate(bs, pos).0])
                && (Locate(bs, pos).0 >= |chain| ==> block == head)
                && (pos < size ==> Locate(bs, pos).0 < |chain|)
                && steps <= 2 * BitLen(|chain| - 1)
    {
      hide Locate, BitLen, SearchCost, Linked, NoRepeats, Holds, Headed, Formatted, Pow2;
      steps := 0;
      if size == 0 {
        return BLOCK_NULL, 0, 0;
      }
      var current := Locate(bs, size - 1).0;
      var (target, found) := Locate(bs, pos);
      block, off := head, found;
      ghost var listed := Headed(head, size, chain);
      SearchStarts(head, size, pos, chain);
      if target <= current {
        SearchCostBound(current, target);
      }
      while current > target
        invariant !listed ==> current <= target && block == head && steps == 0
        invariant Locate(bs, size - 1).0 <= target ==> current <= target && block == head && steps == 0
        invariant listed ==> 0 <= current < |chain| && block == chain[current]
        invariant listed && target < |chain| ==> target <= current
        invariant listed && target >= |chain| ==> current == |chain| - 1
        invariant listed && target < |chain| ==> steps + SearchCost(current, target) <= 2 * BitLen(|chain| - 1)
      {
        var skip;
        skip, block := Skip(block, current, target, chain);
        current := current - Pow2(skip);
        steps := steps + 1;
      }
    }

    // The copy loop of lfs_ctz_extend: the used part of the last block goes to the new one.
    method CopyOut(head: nat, nblock: nat, len: nat)
      requires Valid() && head < |disk| && nblock < |disk| && head != nblock && len <= bs
      modifies this`disk
      ensures Valid() && OnlyChanged(old(disk), disk, nblock)
      ensures disk[nblock][..len] == disk[head][..len]
    {
      var i := 0;
      while i < len
        invariant 0 <= i <= len
        invariant Valid() && OnlyChanged(old(disk), disk, nblock)
        invariant disk[nblock][..i] == disk[head][..i]
      {
        var data := disk[head][i];
        ghost var before := disk[nblock][..i];
        Prog(nblock, i, [data]);
        assert disk[nblock][..i + 1] == before + [data];
        assert disk[head][..i + 1] == disk[head][..i] + [data];
        i := i + 1;
      }
    }

    // The pointer loop: nhead is always block n - 2^i, found through its own pointer table.
    method WritePointers(head: nat, nblock: nat, n: nat, ghost chain: seq<nat>)
      requires Valid() && nblock < |disk| && nblock !in chain
      requires Linked(disk, chain) && 0 < n == |chain| < Pow2(26) && head == chain[n - 1]
      modifies this`disk
      ensures Valid() && OnlyChanged(old(disk), disk, nblock)
      ensures Wired(disk, nblock, chain, Ctz(n) + 1)
    {
      hide FromLe32, Le32, Ctz, Pow2, NoRepeats;
      Pow2Of32();
      var zeros := CtzByNpw2(n);
      var skips := zeros + 1;
      var nhead := head;
      var i := 0;
      FirstPower(n);
      while i < skips
        invariant 0 <= i <= skips
        invariant Valid() && OnlyChanged(old(disk), disk, nblock)
        invariant Linked(disk, chain)
        invariant i < skips ==> Pow2(i) <= n && nhead == chain[n - Pow2(i)]
        invariant Wired(disk, nblock, chain, i)
      {
        nhead := WritePointer(nhead, nblock, n, i, skips, chain);
        i := i + 1;
      }
    }

    method WritePointer(nhead: nat, nblock: nat, n: nat, i: nat, skips: nat, ghost chain: seq<nat>) returns (next: nat)
      requires Valid() && nblock < |disk| && nblock !in chain
      requires Linked(disk, chain) && 0 < n == |chain| < Pow2(26)
      requires i < skips == Ctz(n) + 1 && Pow2(i) <= n && nhead == chain[n - Pow2(i)]
      requires Wired(disk, nblock, chain, i)
      modifies this`disk
      ensures Valid() && OnlyChanged(old(disk), disk, nblock) && Linked(disk, chain)
      ensures i + 1 < skips ==> Pow2(i + 1) <= n && next == chain[n - Pow2(i + 1)]
      ensures Wired(disk, nblock, chain, i + 1)
    {
      hide FromLe32, Le32, Ctz, Linked, Put, Wired, Pow2, PointerBytes, OnlyChanged;
      PointerFits(bs, n, i);
      ghost var before := disk;
      LinkedBlock(disk, bs, chain, n - Pow2(i), nblock);
      Prog(nblock, 4 * i, Le32(nhead));
      WireOne(before, disk, nblock, chain, i, nhead);
      PutElsewhere(before, disk, nblock, 4 * i, Le32(nhead), chain);
      next := nhead;
      if i != skips - 1 {
        next := NextPointer(nhead, n, i, chain);
      }
    }

    method NextPointer(nhead: nat, n: nat, i: nat, ghost chain: seq<nat>) returns (next: nat)
      requires Valid() && Linked(disk, chain) && 0 < n == |chain| < Pow2(26)
      requires i < Ctz(n) && Pow2(i) <= n && nhead == chain[n - Pow2(i)]
      ensures Pow2(i + 1) <= n && next == chain[n - Pow2(i + 1)]
    {
      hide FromLe32, Ctz, Linked, Pow2, NoRepeats, Formatted;
      LinkedOnDisk(disk, chain);
      SkipIsLinked(n, i);
      FollowPointer(disk, bs, chain, n - Pow2(i), i);
      next := FromLe32(disk[nhead][4 * i..4 * i + 4]);
    }

    method CopyLast(head: nat, nblock: nat, size: nat, noff: nat, ghost chain: seq<nat>)
      requires Valid() && Holds(disk, bs, chain, size) && 0 < size < FILE_MAX
      requires head == chain[|chain| - 1] && nblock < |disk| && nblock !in chain
      requires noff == Locate(bs, size - 1).1 + 1 < bs
      modifies this`disk
      ensures Valid() && Extended(old(disk), disk, bs, chain, size, nblock, noff)
    {
      hide Locate, Content, Linked, NoRepeats, Formatted;
      LinkedOnDisk(disk, chain);
      NextPosition(bs, size - 1);
      CopyOut(head, nblock, noff);
      ReplaceLast(old(disk), disk, bs, chain, size, nblock);
    }

    lemma FullBlocks(size: nat, index: nat, chain: seq<nat>)
      requires Valid() && Holds(disk, bs, chain, size) && 0 < size < FILE_MAX
      requires Locate(bs, size - 1) == (index, bs - 1)
      ensures Linked(disk, chain) && |chain| == index + 1 < Pow2(26) && index + 1 < 0x1_0000_0000
      ensures Locate(bs, size) == (index + 1, PointerBytes(index + 1))
    {
      hide Locate, Linked, Ctz;
      NextPosition(bs, size - 1);
      LocateInBlock(bs, size);
      Pow2Of32();
    }

    method LinkAfter(head: nat, nblock: nat, size: nat, index: nat, ghost chain: seq<nat>) returns (off: nat)
      requires Valid() && Holds(disk, bs, chain, size) && 0 < size < FILE_MAX
      requires head == chain[|chain| - 1] && nblock < |disk| && nblock !in chain
      requires Locate(bs, size - 1) == (index, bs - 1)
      modifies this`disk
      ensures Valid() && Extended(old(disk), disk, bs, chain, size, nblock, off)
    {
      hide Locate, Holds, Content, Linked, Wired, Ctz, Pow2, Formatted;
      FullBlocks(size, index, chain);
      LinkedOnDisk(disk, chain);
      WritePointers(head, nblock, index + 1, chain);
      AppendLinked(old(disk), disk, bs, chain, size, nblock);
      var c := CtzByNpw2(index + 1);
      off := 4 * (c + 1);
    }

    /** lfs_ctz_extend: a fresh block in which position size can be written. Either it
        replaces the unfinished last block, with a copy of it, or it is linked after it. */
    method CtzExtend(head: nat, size: nat, ghost chain: seq<nat>) returns (r: Result<(nat, nat)>)
      requires Valid() && Holds(disk, bs, chain, size) && size < FILE_MAX
      requires size > 0 ==> head == chain[|chain| - 1]
      requires forall n :: 0 <= n < |chain| ==> chain[n] in used
      modifies this
      ensures Valid()
      ensures r.Err? ==> r.error == NoSpace && used == old(used) && disk == old(disk) && Full()
      ensures r.Ok? ==> r.value.0 < |disk| && r.value.0 !in old(used) && used == old(used) + {r.value.0}
      ensures r.Ok? ==> Extended(old(disk), disk, bs, chain, size, r.value.0, r.value.1)
    {
      hide Locate, Content, Linked, NoRepeats;
      var got := Alloc();
      if got.Err? {
        return Err(got.error);
      }
      var nblock := got.value;
      Erase(nblock);
      HoldsFrame(old(disk), disk, bs, chain, size);
      if size == 0 {
        LocateZero(bs);
        SingleBlock(disk, bs, nblock);
        return Ok((nblock, 0));
      }
      LocateInBlock(bs, size - 1);
      var (index, last) := Locate(bs, size - 1);
      var noff := last + 1;
      if noff != bs {
        CopyLast(head, nblock, size, noff, chain);
      } else {
        noff := LinkAfter(head, nblock, size, index, chain);
      }
      return Ok((nblock, noff));
    }

    // The pointers a traversal reads: one block back from an odd index, two from an even one.
    lemma OneAndTwo(index: nat)
      requires index > 0
      ensures Pow2(0) == 1 && Pow2(1) == 2 && (index % 2 == 0 ==> index >= 2 && Ctz(index) >= 1)
    {
    }

    method ReadHeads(block: nat, index: nat, count: nat, ghost chain: seq<nat>) returns (heads: seq<nat>)
      requires Valid() && Linked(disk, chain) && 0 < index < |chain| && index < Pow2(26) && block == chain[index]
      requires count == 2 - index % 2
      ensures count <= index && |heads| == count
      ensures forall k :: 0 <= k < count ==> heads[k] == chain[index - 1 - k]
    {
      hide FromLe32, Linked, Ctz, Pow2, Formatted;
      LinkedOnDisk(disk, chain);
      OneAndTwo(index);
      FollowPointer(disk, bs, chain, index, 0);
      heads := [FromLe32(disk[block][0..4])];
      if count == 2 {
        FollowPointer(disk, bs, chain, index, 1);
        heads := heads + [FromLe32(disk[block][4..8])];
      }
    }

    /** lfs_ctz_traverse: every block of the list once, from the head down. */
    method CtzTraverse(head: nat, size: nat, ghost chain: seq<nat>) returns (visited: seq<nat>)
      requires Valid() && Holds(disk, bs, chain, size)
      requires size > 0 ==> head == chain[|chain| - 1]
      ensures |visited| == |chain| && NoRepeats(visited)
      ensures forall n :: 0 <= n < |chain| ==> visited[n] == chain[|chain| - 1 - n]
    {
      hide Locate, Linked, Pow2, NoRepeats;
      Pow2Of32();
      visited := [];
      if size == 0 {
        return;
      }
      LocateInBlock(bs, size - 1);
      var index := Locate(bs, size - 1).0;
      var block := head;
      while true
        invariant 0 <= index < |chain| && block == chain[index]
        invariant |visited| == |chain| - 1 - index
        invariant forall n :: 0 <= n < |visited| ==> visited[n] == chain[|chain| - 1 - n]
        decreases index
      {
        visited := visited + [block];
        if index == 0 {
          NoRepeatsReverse(chain, visited);
          return;
        }
        var count := 2 - index % 2;
        var heads := ReadHeads(block, index, count, chain);
        if count == 2 {
          visited := visited + [heads[0]];
        }
        block := heads[count - 1];
        index := index - count;
      }
    }
  }
}
