/** The read and program caches in front of the block device (littlefs/lfs.cpp:13-254). */
module BlockCache {
  import opened Words
  import opened Wrappers
  import opened Aligned

  const BLOCK_NULL := -1
  const BLOCK_INLINE := -2

  /** Reads that bypass the cache always get on in front of bytes waiting to be programmed, exactly if
      the read size divides the program size; a bypass of less than one read would take nothing, for ever. */
  lemma BypassNeverStalls(readSize: nat, progSize: nat)
    requires readSize > 0 && progSize > 0
    ensures Divides(readSize, progSize) <==>
              forall off: nat, pending: nat :: Divides(readSize, off) && Divides(progSize, pending) && off < pending ==>
                AlignDown(pending - off, readSize) > 0
  {
    if Divides(readSize, progSize) {
      forall off: nat, pending: nat | Divides(readSize, off) && Divides(progSize, pending) && off < pending
        ensures AlignDown(pending - off, readSize) > 0
      {
        DividesThrough(readSize, progSize, pending);
        MultiplesApart(off, pending, readSize);
      }
    } else {
      var off := AlignDown(progSize, readSize);
      Multiple(1, progSize);
      Multiple(0, readSize);
      MultiplesApart(0, AlignDown(progSize - off, readSize), readSize);
    }
  }

  /* The device */

  // Data put over part of a block.
  function Over(block: seq<byte>, off: nat, data: seq<byte>): (s: seq<byte>)
    requires off + |data| <= |block|
    ensures |s| == |block|
  {
    block[..off] + data + block[off + |data|..]
  }

  lemma OverAt(block: seq<byte>, off: nat, data: seq<byte>, i: nat, j: nat)
    requires off + |data| <= |block| && i <= j <= |block|
    ensures off <= i && j <= off + |data| ==> Over(block, off, data)[i..j] == data[i - off..j - off]
    ensures j <= off || off + |data| <= i ==> Over(block, off, data)[i..j] == block[i..j]
  {
  }

  lemma Glue(s: seq<byte>, i: nat, j: nat, k: nat)
    requires i <= j <= k <= |s|
    ensures s[i..k] == s[i..j] + s[j..k]
  {
  }

  lemma SliceOfSlice(s: seq<byte>, part: seq<byte>, from: nat, i: nat, j: nat)
    requires from + |part| <= |s| && part == s[from..from + |part|] && from <= i <= j <= from + |part|
    ensures s[i..j] == part[i - from..j - from]
  {
    forall k | i <= k < j
      ensures s[k] == part[k - from]
    {
      assert part[k - from] == s[from..from + |part|][k - from];
    }
  }

  // Nothing but those bytes of that block differs.
  ghost predicate OnlyAt(was: seq<seq<byte>>, now: seq<seq<byte>>, block: nat, off: nat, upto: nat) {
    && |was| == |now| && block < |was| && off <= upto <= |was[block]| && |now[block]| == |was[block]|
    && (forall b :: 0 <= b < |was| && b != block ==> now[b] == was[b])
    && now[block][..off] == was[block][..off] && now[block][upto..] == was[block][upto..]
  }

  class Cache {
    var block: int
    var off: nat
    var size: nat
    var buffer: seq<byte>

    constructor (n: nat)
      ensures block == BLOCK_NULL && |buffer| == n && off == size == 0
    {
      block, off, size := BLOCK_NULL, 0, 0;
      buffer := seq(n, _ => 0xff);
    }
  }

  class Bd {
    const blockCount: nat
    const blockSize: nat
    const readSize: nat
    const progSize: nat
    const cacheSize: nat
    const pcache: Cache
    const rcache: Cache
    const reliable: bool  // whether the device keeps what it is given
    var disk: seq<seq<byte>>

    constructor (blockCount: nat, blockSize: nat, readSize: nat, progSize: nat, cacheSize: nat, reliable: bool,
                 disk: seq<seq<byte>>)
      requires readSize > 0 && progSize > 0 && cacheSize > 0 && blockSize > 0
      requires Divides(readSize, cacheSize) && Divides(progSize, cacheSize) && Divides(cacheSize, blockSize)
      requires |disk| == blockCount && forall b :: 0 <= b < blockCount ==> |disk[b]| == blockSize
      ensures Valid() && Coherent() && pcache.block == rcache.block == BLOCK_NULL && this.disk == disk
      ensures (this.blockCount, this.blockSize, this.readSize, this.progSize)
              == (blockCount, blockSize, readSize, progSize)
      ensures this.cacheSize == cacheSize && this.reliable == reliable && fresh(pcache) && fresh(rcache)
    {
      this.blockCount, this.blockSize, this.readSize, this.progSize := blockCount, blockSize, readSize, progSize;
      this.cacheSize, this.reliable, this.disk := cacheSize, reliable, disk;
      pcache := new Cache(cacheSize);
      rcache := new Cache(cacheSize);
    }

    // What lfs.h asks of the sizes; of this lfs_init tests no more than that reads have a size.
    ghost predicate Config() {
      && readSize > 0 && progSize > 0 && cacheSize > 0 && blockSize > 0 && pcache != rcache
      && Divides(readSize, cacheSize) && Divides(progSize, cacheSize) && Divides(cacheSize, blockSize)
    }

    ghost predicate OnBlocks(c: Cache)
      reads this, c
    {
      |c.buffer| == cacheSize && c.size <= cacheSize
      && (0 <= c.block ==> c.off + c.size <= blockSize)
    }

    // The device and what waits to be programmed to it.
    ghost predicate Behind()
      reads this, pcache
    {
      && Config() && |disk| == blockCount && (forall b :: 0 <= b < blockCount ==> |disk[b]| == blockSize)
      && OnBlocks(pcache) && Divides(progSize, pcache.off) && pcache.block >= BLOCK_INLINE
    }

    ghost predicate Valid()
      reads this, pcache, rcache
    {
      && Behind() && OnBlocks(rcache) && rcache.block >= BLOCK_NULL
      && Divides(readSize, rcache.off) && Divides(readSize, rcache.size)
    }

    /** What the read cache holds is what the device holds. */
    ghost predicate Coherent()
      reads this, rcache
    {
      0 <= rcache.block < |disk| && rcache.size <= |rcache.buffer|
        && rcache.off + rcache.size <= |disk[rcache.block]| ==>
        rcache.buffer[..rcache.size] == disk[rcache.block][rcache.off..rcache.off + rcache.size]
    }

    /** What a block holds for the file system: the device, under what still waits to be programmed. */
    ghost function View(pending: bool, b: nat): (v: seq<byte>)
      reads this, pcache
      requires Behind() && b < blockCount
      ensures |v| == blockSize
    {
      if pending && pcache.block == b then Over(disk[b], pcache.off, pcache.buffer[..pcache.size]) else disk[b]
    }

    // How far from off the caches do not reach.
    lemma Gap(pending: bool, b: nat, off: nat, upto: nat)
      requires Valid() && b < blockCount && off <= upto <= blockSize
      requires pending && pcache.block == b && off < pcache.off + pcache.size ==> upto <= pcache.off
      ensures View(pending, b)[off..upto] == disk[b][off..upto]
    {
      if pending && pcache.block == b {
        OverAt(disk[b], pcache.off, pcache.buffer[..pcache.size], off, upto);
      }
    }

    // Where a load of the read cache around off ends.
    function LoadEnd(hint: nat, off: nat): nat
      requires readSize > 0
    {
      var from := AlignDown(off, readSize);
      var upto := AlignUp(off + hint, readSize);
      var limit := if upto < blockSize then upto else blockSize;
      if limit < from + cacheSize then limit else from + cacheSize
    }

    // Load the read cache around off.
    method Load(hint: nat, block: nat, off: nat)
      requires Valid() && block < blockCount && off < blockSize && hint > 0
      modifies rcache
      ensures Valid() && Coherent() && rcache.block == block
      ensures rcache.off == AlignDown(off, readSize) && rcache.off + rcache.size == LoadEnd(hint, off) > off
    {
      LoadIsWhole(hint, off);
      var from := AlignDown(off, readSize);
      var upto := AlignUp(off + hint, readSize);
      var limit := if upto < blockSize then upto else blockSize;
      var size := if limit - from < cacheSize then limit - from else cacheSize;
      rcache.block, rcache.off, rcache.size := block, from, size;
      rcache.buffer := disk[block][from..from + size] + rcache.buffer[size..];
    }

    lemma LoadIsWhole(hint: nat, off: nat)
      requires Config() && off < blockSize && hint > 0
      ensures var from, end := AlignDown(off, readSize), LoadEnd(hint, off);
              off < end <= blockSize && end <= from + cacheSize && Divides(readSize, end)
                && Divides(readSize, end - from)
    {
      hide Divides;
      var from := AlignDown(off, readSize);
      DividesThrough(readSize, cacheSize, blockSize);
      MultiplesApart(0, cacheSize, readSize);
      MultiplesAdd(from, cacheSize, readSize);
      MultiplesApart(from, LoadEnd(hint, off), readSize);
    }

    predicate InRead(block: nat, off: nat)
      reads rcache
    {
      rcache.block == block && rcache.off <= off < rcache.off + rcache.size
    }

    // The read unit that bytes waiting to be programmed begin in.
    function Edge(): nat
      reads this, pcache
      requires readSize > 0
    {
      AlignDown(pcache.off, readSize)
    }

    /** A read that comes to the unit in which the pending bytes begin, and not at its front, while it still has to
        take a hint and a unit from there and the read cache does not hold the unit. */
    ghost predicate Hangs(pending: bool, hint: nat, block: nat, off: nat, size: nat)
      reads this, pcache, rcache
      requires readSize > 0
    {
      && pending && pcache.block == block && !Divides(readSize, pcache.off)
      && off <= Edge() && Edge() + hint <= off + size && Edge() + readSize <= off + size
      && if InRead(block, off) || Divides(readSize, off) then !InRead(block, Edge()) else LoadEnd(hint, off) <= Edge()
    }

    /** As many bytes as one turn of the read loop takes; none if it loads the cache, and none if the read hangs
        and has come to the edge. Hanging or not, it stays that. */
    method ReadSome(pending: bool, hint: nat, block: nat, off: nat, size: nat) returns (run: seq<byte>)
      requires Valid() && Coherent() && block < blockCount && off + size <= blockSize && hint > 0 && size > 0
      modifies rcache
      ensures Valid() && Coherent() && |run| <= size && run == View(pending, block)[off..off + |run|]
      ensures Hangs(pending, hint, block, off + |run|, size - |run|) <==> old(Hangs(pending, hint, block, off, size))
      ensures if old(Hangs(pending, hint, block, off, size)) && off == Edge() then
                run == [] && rcache.block == old(rcache.block) && rcache.off == old(rcache.off)
                && rcache.size == old(rcache.size) && rcache.buffer == old(rcache.buffer)
              else run == [] ==> !old(InRead(block, off)) && InRead(block, off)
    {
      hide Divides, View, LoadEnd, Hangs, Edge, Took, Coherent;
      var diff := size;
      if pending && block == pcache.block && off < pcache.off + pcache.size {
        if off >= pcache.off {
          // pending bytes
          diff := if diff < pcache.size - (off - pcache.off) then diff else pcache.size - (off - pcache.off);
          run := pcache.buffer[off - pcache.off..off - pcache.off + diff];
          TookPending(hint, block, off, size, run);
          TookMeans(pending, hint, block, off, size, run);
          return;
        }
        // no further than the pending bytes
        diff := if diff < pcache.off - off then diff else pcache.off - off;
      }
      if block == rcache.block && off < rcache.off + rcache.size {
        if off >= rcache.off {
          // cached bytes
          diff := if diff < rcache.size - (off - rcache.off) then diff else rcache.size - (off - rcache.off);
          run := rcache.buffer[off - rcache.off..off - rcache.off + diff];
          TookCached(pending, hint, block, off, size, run);
          TookMeans(pending, hint, block, off, size, run);
          return;
        }
        // no further than the cached bytes
        diff := if diff < rcache.off - off then diff else rcache.off - off;
      }
      run := ReadUncached(pending, hint, block, off, size, diff);
    }

    // How far a turn may go that finds its first byte in no cache.
    ghost predicate Bound(pending: bool, block: nat, off: nat, size: nat, diff: nat)
      reads this, pcache, rcache
    {
      && !InRead(block, off) && 0 < diff <= size
      && (pending && block == pcache.block && off < pcache.off + pcache.size ==> off + diff <= pcache.off)
      && (block == rcache.block && off < rcache.off + rcache.size ==> off + diff <= rcache.off)
      && (diff == size || (block == rcache.block && off < rcache.off + rcache.size && off + diff == rcache.off)
          || (pending && block == pcache.block && off < pcache.off && off + diff == pcache.off))
    }

    method ReadUncached(pending: bool, hint: nat, block: nat, off: nat, size: nat, diff: nat) returns (run: seq<byte>)
      requires Valid() && Coherent() && block < blockCount && off + size <= blockSize && hint > 0 && size > 0
      requires Bound(pending, block, off, size, diff)
      modifies rcache
      ensures Valid() && Coherent() && |run| <= size && run == View(pending, block)[off..off + |run|]
      ensures Hangs(pending, hint, block, off + |run|, size - |run|) <==> old(Hangs(pending, hint, block, off, size))
      ensures if old(Hangs(pending, hint, block, off, size)) && off == Edge() then
                run == [] && rcache.block == old(rcache.block) && rcache.off == old(rcache.off)
                && rcache.size == old(rcache.size) && rcache.buffer == old(rcache.buffer)
              else run == [] ==> !old(InRead(block, off)) && InRead(block, off)
    {
      hide Divides, View, OnBlocks, LoadEnd, Hangs, Edge, Took, Coherent;
      if size >= hint && Divides(readSize, off) && size >= readSize {
        // whole units, straight from the device
        var n := AlignDown(diff, readSize);
        run := disk[block][off..off + n];
        TookStored(pending, hint, block, off, size, diff, run);
        TookMeans(pending, hint, block, off, size, run);
      } else {
        ThenNotAligned(pending, hint, block, off, size);
        Load(hint, block, off);
        LoadedMoves(pending, hint, block, off, size);
        run := [];
      }
    }

    // A turn that leaves the caches alone.
    ghost predicate Took(pending: bool, hint: nat, block: nat, off: nat, size: nat, run: seq<byte>)
      reads this, pcache, rcache
      requires Behind() && block < blockCount && off + size <= blockSize
    {
      && |run| <= size && run == View(pending, block)[off..off + |run|]
      && Moves(pending, hint, block, off, size, |run|)
    }

    lemma TookMeans(pending: bool, hint: nat, block: nat, off: nat, size: nat, run: seq<byte>)
      requires Valid() && block < blockCount && off + size <= blockSize && Took(pending, hint, block, off, size, run)
      ensures |run| <= size && run == View(pending, block)[off..off + |run|]
      ensures Hangs(pending, hint, block, off + |run|, size - |run|) <==> Hangs(pending, hint, block, off, size)
      ensures Hangs(pending, hint, block, off, size) && off == Edge() <==> run == []
    {
      hide Divides, View, OnBlocks, Hangs;
    }

    // Reads from the pending bytes on do not hang, however far they have come.
    lemma BehindTheEdge(pending: bool, hint: nat, block: nat, off: nat, size: nat)
      requires Valid() && pcache.off <= off
      ensures !Hangs(pending, hint, block, off, size)
    {
      hide Divides, LoadEnd, OnBlocks;
      SameUnit(Edge(), pcache.off);
    }

    lemma TookPending(hint: nat, block: nat, off: nat, size: nat, run: seq<byte>)
      requires Valid() && pcache.block == block < blockCount && off + size <= blockSize && 0 < |run| <= size
      requires pcache.off <= off && off + |run| <= pcache.off + pcache.size
      requires run == pcache.buffer[off - pcache.off..off - pcache.off + |run|]
      ensures Took(true, hint, block, off, size, run)
    {
      hide Divides, View, OnBlocks, Hangs;
      InPending(off, |run|);
      BehindTheEdge(true, hint, block, off, size);
      BehindTheEdge(true, hint, block, off + |run|, size - |run|);
    }

    lemma TookCached(pending: bool, hint: nat, block: nat, off: nat, size: nat, run: seq<byte>)
      requires Valid() && Coherent() && InRead(block, off) && block < blockCount && off + size <= blockSize
               && 0 < |run| <= size
      requires off + |run| <= rcache.off + rcache.size
               && run == rcache.buffer[off - rcache.off..off - rcache.off + |run|]
      requires |run| == size || off + |run| == rcache.off + rcache.size
               || (pending && block == pcache.block && off + |run| == pcache.off)
      requires pending && block == pcache.block && off < pcache.off + pcache.size ==> off + |run| <= pcache.off
      ensures Took(pending, hint, block, off, size, run)
    {
      hide Divides, View, OnBlocks;
      Gap(pending, block, off, off + |run|);
      InCache(off, |run|);
      CachedMoves(pending, hint, block, off, size, |run|);
    }

    lemma TookStored(pending: bool, hint: nat, block: nat, off: nat, size: nat, diff: nat, run: seq<byte>)
      requires Valid() && block < blockCount && off + size <= blockSize && Bound(pending, block, off, size, diff)
      requires Divides(readSize, off) && size >= hint && size >= readSize
      requires |run| == AlignDown(diff, readSize) && run == disk[block][off..off + |run|]
      ensures Took(pending, hint, block, off, size, run)
    {
      hide Divides, View, OnBlocks, Moves;
      BypassMoves(pending, hint, block, off, size, diff);
      Gap(pending, block, off, off + |run|);
    }

    ghost predicate WouldHang(pending: bool, hint: nat, block: nat, off: nat, size: nat)
      reads this, pcache
      requires readSize > 0
    {
      && pending && pcache.block == block && !Divides(readSize, pcache.off)
      && off <= Edge() && Edge() + hint <= off + size && Edge() + readSize <= off + size && LoadEnd(hint, off) <= Edge()
    }

    // Hanging reads load the cache in front of a read unit only.
    lemma ThenNotAligned(pending: bool, hint: nat, block: nat, off: nat, size: nat)
      requires Valid() && !InRead(block, off) && !(size >= hint && Divides(readSize, off) && size >= readSize)
      ensures Hangs(pending, hint, block, off, size) <==> WouldHang(pending, hint, block, off, size)
      ensures Hangs(pending, hint, block, off, size) ==> off != Edge()
    {
      hide Divides, LoadEnd, OnBlocks;
    }

    lemma LoadedMoves(pending: bool, hint: nat, block: nat, off: nat, size: nat)
      requires Valid() && InRead(block, off) && rcache.off == AlignDown(off, readSize)
               && rcache.off + rcache.size == LoadEnd(hint, off)
      ensures Hangs(pending, hint, block, off, size) <==> WouldHang(pending, hint, block, off, size)
    {
      hide Divides, LoadEnd, OnBlocks;
    }

    // A turn that takes cached bytes leaves a read hanging, or not hanging.
    lemma CachedMoves(pending: bool, hint: nat, block: nat, off: nat, size: nat, diff: nat)
      requires Valid() && InRead(block, off) && 0 < diff <= size && off + diff <= rcache.off + rcache.size
      requires diff == size || off + diff == rcache.off + rcache.size
               || (pending && block == pcache.block && off + diff == pcache.off)
      requires pending && block == pcache.block && off < pcache.off ==> off + diff <= pcache.off
      ensures Hangs(pending, hint, block, off + diff, size - diff) <==> Hangs(pending, hint, block, off, size)
    {
      hide Divides, OnBlocks, LoadEnd;
      MultiplesAdd(rcache.off, rcache.size, readSize);
    }

    // So does a turn that bypasses the cache; it takes nothing only at the edge.
    ghost predicate Moves(pending: bool, hint: nat, block: nat, off: nat, size: nat, n: nat)
      reads this, pcache, rcache
      requires readSize > 0 && n <= size
    {
      && (Hangs(pending, hint, block, off + n, size - n) <==> Hangs(pending, hint, block, off, size))
      && (n == 0 <==> Hangs(pending, hint, block, off, size) && off == Edge())
    }

    // Up to the end of the read.
    lemma MovesToEnd(pending: bool, hint: nat, block: nat, off: nat, size: nat)
      requires Valid() && readSize <= size && Divides(readSize, off)
      requires pending && block == pcache.block && off < pcache.off ==> off + size <= pcache.off
      ensures Moves(pending, hint, block, off, size, AlignDown(size, readSize))
    {
      hide Divides, OnBlocks, LoadEnd, InRead;
      SameUnit(off, pcache.off);
    }

    // Up to the cached bytes.
    lemma MovesToCached(pending: bool, hint: nat, block: nat, off: nat, size: nat)
      requires Valid() && !InRead(block, off) && Divides(readSize, off) && off < rcache.off <= off + size
      requires pending && block == pcache.block && off < pcache.off ==> rcache.off <= pcache.off
      ensures Moves(pending, hint, block, off, size, AlignDown(rcache.off - off, readSize))
    {
      hide Divides, OnBlocks, LoadEnd, InRead;
      var n := rcache.off - off;
      MultiplesApart(off, rcache.off, readSize);
      SameUnit(n, n);
      SameUnit(off, pcache.off);
      if rcache.off <= pcache.off {
        SameUnit(rcache.off, pcache.off);
        MultiplesOrder(rcache.off, pcache.off);
      }
    }

    // Up to the pending bytes.
    lemma MovesToPending(hint: nat, block: nat, off: nat, size: nat)
      requires Valid() && !InRead(block, off) && Divides(readSize, off) && off < pcache.off <= off + size
      requires size >= hint && readSize <= size && block == pcache.block
      requires block == rcache.block && off < rcache.off + rcache.size ==> pcache.off <= rcache.off
      ensures Moves(true, hint, block, off, size, AlignDown(pcache.off - off, readSize))
    {
      hide Divides, OnBlocks, LoadEnd;
      var n := AlignDown(pcache.off - off, readSize);
      MultiplesAdd(off, n, readSize);
      SameUnit(off + n, pcache.off);
    }

    lemma BypassMoves(pending: bool, hint: nat, block: nat, off: nat, size: nat, diff: nat)
      requires Valid() && Divides(readSize, off) && size >= hint && size >= readSize
               && Bound(pending, block, off, size, diff)
      ensures Moves(pending, hint, block, off, size, AlignDown(diff, readSize))
    {
      hide Divides, OnBlocks, Moves, AlignDown;
      if diff == size {
        MovesToEnd(pending, hint, block, off, size);
      } else if block == rcache.block && off < rcache.off + rcache.size && off + diff == rcache.off {
        MovesToCached(pending, hint, block, off, size);
      } else {
        MovesToPending(hint, block, off, size);
      }
    }

    lemma MultiplesOrder(o: nat, x: nat)
      requires readSize > 0 && Divides(readSize, o) && o <= x
      ensures o <= AlignDown(x, readSize)
    {
      hide Divides;
      var d := AlignDown(x, readSize);
      if d < o {
        MultiplesApart(d, o, readSize);
      }
    }

    // The unit of a position is the multiple that is less than a unit before it.
    lemma SameUnit(o: nat, x: nat)
      requires readSize > 0 && Divides(readSize, o)
      ensures o <= x < o + readSize ==> o == AlignDown(x, readSize)
      ensures Divides(readSize, x) <==> x == AlignDown(x, readSize)
    {
      hide Divides;
      var d := AlignDown(x, readSize);
      if o < d {
        MultiplesApart(o, d, readSize);
      } else {
        MultiplesApart(d, o, readSize);
      }
      if Divides(readSize, x) {
        MultiplesApart(d, x, readSize);
      }
    }

    lemma InPending(off: nat, n: nat)
      requires Valid() && 0 <= pcache.block < blockCount
      requires pcache.off <= off && off + n <= pcache.off + pcache.size
      ensures pcache.off + pcache.size <= blockSize && |pcache.buffer| == cacheSize && pcache.size <= cacheSize
      ensures View(true, pcache.block)[off..off + n] == pcache.buffer[off - pcache.off..off - pcache.off + n]
    {
      OverAt(disk[pcache.block], pcache.off, pcache.buffer[..pcache.size], off, off + n);
      SliceOfSlice(pcache.buffer, pcache.buffer[..pcache.size], 0, off - pcache.off, off - pcache.off + n);
    }

    lemma InCache(off: nat, n: nat)
      requires Valid() && Coherent() && 0 <= rcache.block < blockCount
      requires rcache.off <= off && off + n <= rcache.off + rcache.size
      ensures rcache.off + rcache.size <= blockSize && |rcache.buffer| == cacheSize && rcache.size <= cacheSize
      ensures rcache.buffer[off - rcache.off..off - rcache.off + n] == disk[rcache.block][off..off + n]
    {
      hide Divides;
      var held := rcache.buffer[..rcache.size];
      SliceOfSlice(disk[rcache.block], held, rcache.off, off, off + n);
      SliceOfSlice(rcache.buffer, held, 0, off - rcache.off, off - rcache.off + n);
    }

    /** lfs_bd_read, whatever mix of cached, pending and stored bytes it meets, unless it hangs. */
    method Read(pending: bool, hint: nat, block: nat, off: nat, size: nat) returns (r: Result<seq<byte>>)
      requires Valid() && Coherent() && hint > 0
      requires block < blockCount && off + size <= blockSize ==> !Hangs(pending, hint, block, off, size)
      modifies rcache
      ensures Valid() && Coherent()
      ensures r.Ok? <==> block < blockCount && off + size <= blockSize
      ensures r.Ok? ==> r.value == View(pending, block)[off..off + size]
      ensures r.Err? ==> r.error == Corrupt
    {
      hide Divides, View, OnBlocks, Hangs;
      if block >= blockCount || off + size > blockSize {
        return Err(Corrupt);
      }
      var data: seq<byte> := [];
      while |data| < size
        invariant Valid() && Coherent() && |data| <= size && !Hangs(pending, hint, block, off + |data|, size - |data|)
        invariant data == View(pending, block)[off..off + |data|]
        decreases size - |data|, if InRead(block, off + |data|) then 0 else 1
      {
        ghost var at := off + |data|;
        var run := ReadSome(pending, hint, block, off + |data|, size - |data|);
        Glue(View(pending, block), off, at, at + |run|);
        data := data + run;
      }
      return Ok(data);
    }

    /** The same loop, stopped after so many turns: a read that hangs is not over after any number of them, and
        any other is after two for each byte. */
    method ReadFor(turns: nat, pending: bool, hint: nat, block: nat, off: nat, size: nat) returns (data: seq<byte>)
      requires Valid() && Coherent() && hint > 0 && block < blockCount && off + size <= blockSize
      modifies rcache
      ensures Valid() && Coherent() && |data| <= size && data == View(pending, block)[off..off + |data|]
      ensures old(Hangs(pending, hint, block, off, size)) ==> |data| < size
      ensures !old(Hangs(pending, hint, block, off, size)) && turns >= 2 * size ==> |data| == size
    {
      hide Divides, View, OnBlocks, LoadEnd;
      data := [];
      var i := 0;
      while |data| < size && i < turns
        invariant Valid() && Coherent() && |data| <= size && data == View(pending, block)[off..off + |data|]
        invariant Hangs(pending, hint, block, off + |data|, size - |data|) <==>
                    old(Hangs(pending, hint, block, off, size))
        invariant i <= turns
        invariant !old(Hangs(pending, hint, block, off, size)) ==>
                    i <= 2 * |data| + if InRead(block, off + |data|) then 1 else 0
      {
        ghost var at := off + |data|;
        var run := ReadSome(pending, hint, block, off + |data|, size - |data|);
        Glue(View(pending, block), off, at, at + |run|);
        data := data + run;
        i := i + 1;
      }
    }

    // Where reads are no coarser than programs, no read hangs.
    lemma NeverHangs(pending: bool, hint: nat, block: nat, off: nat, size: nat)
      requires Valid() && Divides(readSize, progSize)
      ensures !Hangs(pending, hint, block, off, size)
    {
      hide Divides, LoadEnd, InRead;
      DividesThrough(readSize, progSize, pcache.off);
    }

    /** lfs_bd_cmp: equal exactly if the device holds the data. */
    method Cmp(hint: nat, block: nat, off: nat, data: seq<byte>) returns (r: Result<Order>)
      requires Valid() && Coherent() && hint >= |data|
      modifies rcache
      ensures Valid() && Coherent()
      ensures r.Ok? ==> (r.value == EQ <==> data == [] || Holds(block, off, data))
      ensures r.Ok? && r.value != EQ ==> exists i :: Differs(block, off, data, i, r.value)
      ensures r.Err? ==> r.error == Corrupt && !(block < blockCount && off + |data| <= blockSize)
    {
      hide Divides, View;
      for i := 0 to |data|
        invariant Valid() && Coherent()
        invariant i > 0 ==> Holds(block, off, data[..i])
      {
        var dat := ReadByte(hint - i, block, off + i);
        if dat.Err? {
          return Err(dat.error);
        }
        HoldsOneMore(block, off, data, i);
        if dat.value != data[i] {
          assert Differs(block, off, data, i, if dat.value < data[i] then LT else GT) by {
            if i == 0 {
              assert data[..0] == [] && disk[block][off..off] == [];
            }
          }
          return Ok(if dat.value < data[i] then LT else GT);
        }
      }
      assert data[..|data|] == data;
      return Ok(EQ);
    }

    ghost predicate Holds(block: nat, off: nat, data: seq<byte>)
      requires Valid()
      reads this, pcache, rcache
    {
      block < blockCount && off + |data| <= blockSize && disk[block][off..off + |data|] == data
    }

    // The first i bytes are alike, and the next makes the difference.
    ghost predicate Differs(block: nat, off: nat, data: seq<byte>, i: int, order: Order)
      requires Valid()
      reads this, pcache, rcache
    {
      && 0 <= i < |data| && Holds(block, off, data[..i]) && off + i < blockSize
      && disk[block][off + i] != data[i] && order == if disk[block][off + i] < data[i] then LT else GT
    }

    lemma HoldsOneMore(block: nat, off: nat, data: seq<byte>, i: nat)
      requires Valid() && i < |data| && block < blockCount && off + i < blockSize
      requires i > 0 ==> Holds(block, off, data[..i])
      ensures Holds(block, off, data[..i + 1]) <==> disk[block][off + i] == data[i]
      ensures Holds(block, off, data) ==> disk[block][off + i] == data[i]
    {
      hide Divides;
      var stored := disk[block];
      assert data[..i + 1] == data[..i] + [data[i]];
      assert stored[off..off + i + 1] == stored[off..off + i] + [stored[off + i]];
      assert stored[off..off + i + 1][i] == stored[off + i];
      assert off + |data| <= blockSize ==> stored[off..off + |data|][i] == stored[off + i];
    }

    method ReadByte(hint: nat, block: nat, off: nat) returns (r: Result<byte>)
      requires Valid() && Coherent() && hint > 0
      modifies rcache
      ensures Valid() && Coherent()
      ensures r.Ok? <==> block < blockCount && off < blockSize
      ensures r.Ok? ==> r.value == disk[block][off]
      ensures r.Err? ==> r.error == Corrupt
    {
      hide Divides;
      var one := Read(false, hint, block, off, 1);
      r := if one.Ok? then Ok(one.value[0]) else Err(one.error);
    }

    // The device's prog: a device that is not reliable may put anything in the place.
    method DevProg(block: nat, off: nat, data: seq<byte>)
      requires Valid() && block < blockCount && off + |data| <= blockSize
      modifies this`disk
      ensures Valid() && OnlyAt(old(disk), disk, block, off, off + |data|)
      ensures reliable ==> disk[block][off..off + |data|] == data
    {
      var what: seq<byte> := data;
      if !reliable {
        var other: seq<byte> :| |other| == |data|;
        what := other;
      }
      disk := disk[block := Over(disk[block], off, what)];
    }

    // A whole number of program units is programmed, and fits.
    lemma UnitsFit()
      requires Valid() && pcache.block >= 0
      ensures var n := AlignUp(pcache.size, progSize);
              n <= cacheSize && pcache.off + n <= blockSize
    {
      DividesThrough(progSize, cacheSize, blockSize);
      Multiple(0, progSize);
      AlignedFits(0, pcache.size, cacheSize, progSize);
      AlignedFits(pcache.off, pcache.size, blockSize, progSize);
    }

    /** lfs_bd_flush. A validated flush that succeeds means the device holds the buffer, even if the
        device's prog does as it likes. */
    method Flush(validate: bool) returns (r: Result<()>)
      requires Valid()
      modifies this`disk, pcache, rcache
      ensures Valid()
      ensures old(pcache.block) < 0 ==>
                r.Ok? && disk == old(disk) && pcache.block == old(pcache.block)
                && rcache.block == old(rcache.block) && (old(Coherent()) ==> Coherent())
      ensures old(pcache.block) >= blockCount ==> r == Err(NoSpace)
      ensures old(pcache.block) >= 0 && r.Ok? ==> pcache.block == BLOCK_NULL
      ensures 0 <= old(pcache.block) < blockCount ==>
                var n := AlignUp(old(pcache.size), progSize);
                && n <= cacheSize && old(pcache.off) + n <= blockSize
                && OnlyAt(old(disk), disk, old(pcache.block), old(pcache.off), old(pcache.off) + n)
                && (validate ==> Coherent()) && (!validate ==> rcache.block == old(rcache.block))
                && (r.Ok? && (validate || reliable) ==>
                      disk[old(pcache.block)][old(pcache.off)..old(pcache.off) + n] == old(pcache.buffer)[..n])
                && (r.Err? ==> validate && !reliable && r.error == Corrupt)
    {
      hide Divides;
      if pcache.block == BLOCK_NULL || pcache.block == BLOCK_INLINE {
        return Ok(());
      }
      if pcache.block >= blockCount {
        return Err(NoSpace);
      }
      UnitsFit();
      var diff := AlignUp(pcache.size, progSize);
      var data := pcache.buffer[..diff];
      DevProg(pcache.block, pcache.off, data);
      if validate {
        // compare, past the read cache
        rcache.block := BLOCK_NULL;
        var res := Cmp(diff, pcache.block, pcache.off, data);
        if res.Err? {
          return Err(Corrupt);
        }
        if res.value != EQ {
          return Err(Corrupt);
        }
      }
      // leave nothing behind
      pcache.buffer := seq(cacheSize, _ => 0xff);
      pcache.block := BLOCK_NULL;
      return Ok(());
    }

    /** lfs_bd_sync: afterwards the read cache and the device agree again. */
    method Sync(validate: bool) returns (r: Result<()>)
      requires Valid()
      modifies this`disk, pcache, rcache
      ensures Valid() && (old(pcache.block) < blockCount ==> Coherent())
      ensures r.Ok? && old(pcache.block) != BLOCK_INLINE ==> pcache.block == BLOCK_NULL
      ensures 0 <= old(pcache.block) < blockCount && r.Ok? && (validate || reliable) ==>
                View(false, old(pcache.block))[..old(pcache.off + pcache.size)]
                == old(View(true, pcache.block))[..old(pcache.off + pcache.size)]
    {
      hide Divides;
      rcache.block := BLOCK_NULL;
      ghost var b, from, size, was := pcache.block, pcache.off, pcache.size, disk;
      ghost var buffer := pcache.buffer;
      r := Flush(validate);
      if 0 <= b < blockCount && r.Ok? && (validate || reliable) {
        var n := AlignUp(size, progSize);
        FlushedView(was[b], disk[b], from, size, n, buffer);
      }
    }

    // Whether the program cache can take bytes for that place.
    predicate Fits(block: nat, off: nat)
      reads this, pcache
    {
      pcache.block == block && pcache.off <= off < pcache.off + cacheSize
    }

    /** What is programmed along with bytes for that place: the contents of the buffer from where the pending bytes
        end, or from where a program unit begins. */
    ghost function Skipped(block: nat, off: nat): (gap: seq<byte>)
      reads this, pcache
      requires Behind()
      ensures |gap| <= off
    {
      MultiplesApart(0, cacheSize, progSize);
      if pcache.block != block then pcache.buffer[..off - AlignDown(off, progSize)]
      else if Fits(block, off) && pcache.off + pcache.size <= off then pcache.buffer[pcache.size..off - pcache.off]
      else []
    }

    // Nothing is programmed along exactly when programs go on where the last one ended, or start at a program unit.
    lemma NothingSkipped(block: nat, off: nat)
      requires Valid() && (pcache.block == block ==> Fits(block, off))
      ensures Skipped(block, off) == [] <==>
                if pcache.block == block then off <= pcache.off + pcache.size else Divides(progSize, off)
    {
      hide Divides;
      MultiplesApart(0, cacheSize, progSize);
      OwnUnit(off, progSize);
      var gap := Skipped(block, off);
      if pcache.block != block {
        assert |gap| == off - AlignDown(off, progSize);
      } else if pcache.off + pcache.size <= off {
        assert |gap| == off - pcache.off - pcache.size;
      }
    }

    lemma PendingView(block: nat)
      requires Valid() && pcache.block == block < blockCount
      ensures View(true, block) == Over(disk[block], pcache.off, pcache.buffer[..pcache.size])
    {
    }

    lemma SkippedHere(block: nat, off: nat)
      requires Valid() && Fits(block, off)
      ensures Skipped(block, off) ==
                if pcache.size <= off - pcache.off then pcache.buffer[pcache.size..off - pcache.off] else []
    {
    }

    // Copy into the program cache.
    method Copy(block: nat, off: nat, data: seq<byte>) returns (diff: nat)
      requires Valid() && block < blockCount && data != [] && off + |data| <= blockSize && Fits(block, off)
      modifies pcache
      ensures Valid() && (old(Coherent()) ==> Coherent()) && pcache.block == block && pcache.off == old(pcache.off)
              && 0 < diff <= |data|
      ensures var gap := old(Skipped(block, off));
              View(true, block) == Over(old(View(true, block)), off - |gap|, gap + data[..diff])
      ensures diff < |data| ==> pcache.size == cacheSize && pcache.off + cacheSize == off + diff
    {
      hide Divides, Coherent, View, Skipped, Over;
      PendingView(block);
      SkippedHere(block, off);
      var at := off - pcache.off;
      diff := if |data| < cacheSize - at then |data| else cacheSize - at;
      OverInside(disk[block], pcache.off, pcache.buffer, pcache.size, at, data[..diff]);
      pcache.buffer := Over(pcache.buffer, at, data[..diff]);
      pcache.size := if pcache.size < at + diff then at + diff else pcache.size;
      PendingView(block);
    }

    // Flush a full program cache.
    method FlushFull(validate: bool) returns (r: Result<()>)
      requires Valid() && 0 <= pcache.block < blockCount && pcache.size == cacheSize
      modifies this`disk, pcache, rcache
      ensures Valid() && (validate ==> Coherent())
      ensures |disk| == |old(disk)| && forall b :: 0 <= b < |disk| && b != old(pcache.block) ==> disk[b] == old(disk)[b]
      ensures r.Ok? ==> pcache.block == BLOCK_NULL && Divides(progSize, old(pcache.off) + cacheSize)
      ensures r.Ok? && (validate || reliable) ==> View(true, old(pcache.block)) == old(View(true, pcache.block))
      ensures r.Err? ==> validate && !reliable && r.error == Corrupt
    {
      hide Divides;
      ghost var full, from, before, block := pcache.buffer, pcache.off, disk, pcache.block;
      FullUnits();
      r := Flush(validate);
      NextUnit(from);
      assert full[..cacheSize] == full;
      if r.Ok? && (validate || reliable) {
        FlushedAll(before[block], disk[block], from, full);
      }
    }

    // One turn of the program loop.
    method Fill(validate: bool, block: nat, off: nat, data: seq<byte>) returns (r: Result<nat>)
      requires Valid() && block < blockCount && data != [] && off + |data| <= blockSize && Fits(block, off)
      modifies this`disk, pcache, rcache
      ensures Valid() && (validate && old(Coherent()) ==> Coherent())
      ensures |disk| == |old(disk)| && forall b :: 0 <= b < |disk| && b != block ==> disk[b] == old(disk)[b]
      ensures r.Ok? ==> 0 < r.value <= |data|
      ensures r.Ok? && r.value < |data| ==> pcache.block == BLOCK_NULL && Divides(progSize, off + r.value)
      ensures r.Ok? && (validate || reliable) ==>
                var gap := old(Skipped(block, off));
                View(true, block) == Over(old(View(true, block)), off - |gap|, gap + data[..r.value])
      ensures r.Err? ==> validate && !reliable && r.error == Corrupt
    {
      hide Divides, View, Coherent, OnBlocks, Skipped;
      var diff := Copy(block, off, data);
      if pcache.size == cacheSize {
        // a full cache does not wait
        var flushed := FlushFull(validate);
        if flushed.Err? {
          return Err(Corrupt);
        }
      }
      return Ok(diff);
    }

    lemma FullUnits()
      requires Valid() && pcache.size == cacheSize
      ensures AlignUp(pcache.size, progSize) == cacheSize
    {
      var up := AlignUp(cacheSize, progSize);
      if up > cacheSize {
        MultiplesApart(cacheSize, up, progSize);
      }
    }

    lemma NextUnit(from: nat)
      requires Config() && Divides(progSize, from)
      ensures Divides(progSize, from + cacheSize)
    {
      MultiplesAdd(from, cacheSize, progSize);
    }

    /** lfs_bd_prog: what the file system sees of the block is the data in its place, behind what was programmed
        along, however much of it is still in the cache; no other block changes. */
    method Prog(validate: bool, block: nat, off: nat, data: seq<byte>) returns (r: Result<()>)
      requires Valid() && block < blockCount
      modifies this`disk, pcache, rcache
      ensures Valid() && (validate && old(Coherent()) ==> Coherent())
      ensures |disk| == |old(disk)| && forall b :: 0 <= b < |disk| && b != block ==> disk[b] == old(disk)[b]
      ensures r == Err(NoSpace) <==> off + |data| > blockSize
      ensures off + |data| <= blockSize ==>
                (r == Err(NotFlushed) <==> data != [] && old(pcache.block) != BLOCK_NULL && !old(Fits(block, off)))
      ensures r.Ok? && (validate || reliable) ==>
                var gap := if data == [] then [] else old(Skipped(block, off));
                View(true, block) == Over(old(View(true, block)), off - |gap|, gap + data)
      ensures r == Err(Corrupt) ==> validate && !reliable
    {
      hide Divides, View, Coherent, OnBlocks, Skipped;
      if off + |data| > blockSize {
        return Err(NoSpace);
      }
      if data == [] {
        OverNothing(View(true, block), off, data);
        assert [] + data == data;
        return Ok(());
      }
      if !Fits(block, off) {
        // the cache still holds other bytes
        if pcache.block != BLOCK_NULL {
          return Err(NotFlushed);
        }
        Open(block, off);
      }
      r := ProgAll(validate, block, off, data);
    }

    // The loop of lfs_bd_prog, once the program cache is open for the place.
    method ProgAll(validate: bool, block: nat, off: nat, data: seq<byte>) returns (r: Result<()>)
      requires Valid() && block < blockCount && data != [] && Fits(block, off) && off + |data| <= blockSize
      modifies this`disk, pcache, rcache
      ensures Valid() && (validate && old(Coherent()) ==> Coherent())
      ensures |disk| == |old(disk)| && forall b :: 0 <= b < |disk| && b != block ==> disk[b] == old(disk)[b]
      ensures r.Ok? && (validate || reliable) ==>
                var gap := old(Skipped(block, off));
                View(true, block) == Over(old(View(true, block)), off - |gap|, gap + data)
      ensures r.Err? ==> validate && !reliable && r.error == Corrupt
    {
      hide Divides, View, Coherent, OnBlocks, Over, Skipped;
      var done := 0;
      ghost var first, gap := View(true, block), Skipped(block, off);
      while done < |data|
        invariant Valid() && done <= |data| && (validate && old(Coherent()) ==> Coherent())
        invariant |disk| == |old(disk)| && forall b :: 0 <= b < |disk| && b != block ==> disk[b] == old(disk)[b]
        invariant done < |data| ==> Fits(block, off + done)
        invariant done < |data| ==> Skipped(block, off + done) == if done == 0 then gap else []
        invariant done == 0 ==> View(true, block) == first
        invariant done > 0 && (validate || reliable) ==>
                    View(true, block) == Over(first, off - |gap|, gap + data[..done])
      {
        var turn := Fill(validate, block, off + done, data[done..]);
        if turn.Err? {
          return Err(Corrupt);
        }
        OneFillMore(first, off - |gap|, gap, data, done, turn.value);
        done := done + turn.value;
        if done < |data| {
          Open(block, off + done);
        }
      }
      assert data[..|data|] == data;
      return Ok(());
    }

    // Open the program cache.
    method Open(block: nat, off: nat)
      requires Valid() && block < blockCount && off <= blockSize && pcache.block == BLOCK_NULL
      modifies pcache
      ensures Valid() && Fits(block, off) && View(true, block) == old(View(true, block))
      ensures pcache.off == AlignDown(off, progSize)
      ensures Skipped(block, off) == old(Skipped(block, off)) && (Divides(progSize, off) ==> Skipped(block, off) == [])
      ensures old(Coherent()) ==> Coherent()
    {
      hide Divides;
      NothingSkipped(block, off);
      MultiplesApart(0, cacheSize, progSize);
      ghost var was := disk[block];
      pcache.block, pcache.off, pcache.size := block, AlignDown(off, progSize), 0;
      assert pcache.buffer[..0] == [];
      OverNothing(was, pcache.off, pcache.buffer[..0]);
    }
  }

  lemma OneFillMore(first: seq<byte>, at: nat, gap: seq<byte>, data: seq<byte>, done: nat, more: nat)
    requires done + more <= |data| && at + |gap| + |data| <= |first|
    ensures var off := at + |gap|;
            && data[done..][..more] == data[done..done + more] && data[..0] == []
            && Over(Over(first, at, gap + data[..done]), off + done, [] + data[done..][..more])
               == Over(first, at, gap + data[..done + more])
            && gap + data[..0 + more] == gap + data[0..][..more]
  {
    OverTwice(first, at, gap + data[..done], data[done..][..more]);
    assert data[..done + more] == data[..done] + data[done..][..more];
    assert gap + data[..done] + data[done..][..more] == gap + data[..done + more];
    assert [] + data[done..][..more] == data[done..][..more];
  }

  lemma OverNothing(block: seq<byte>, off: nat, data: seq<byte>)
    requires off <= |block| && data == []
    ensures Over(block, off, data) == block
  {
  }

  lemma OverTwice(block: seq<byte>, off: nat, a: seq<byte>, b: seq<byte>)
    requires off + |a| + |b| <= |block|
    ensures Over(Over(block, off, a), off + |a|, b) == Over(block, off, a + b)
  {
  }

  // Writing into the buffer is writing over what is seen, with what the buffer held behind the pending bytes.
  lemma OverInside(base: seq<byte>, po: nat, buffer: seq<byte>, size: nat, at: nat, d: seq<byte>)
    requires size <= |buffer| && po + size <= |base| && at + |d| <= |buffer| && po + at + |d| <= |base|
    ensures var size', gap := if size < at + |d| then at + |d| else size, if size <= at then buffer[size..at] else [];
            Over(base, po, Over(buffer, at, d)[..size'])
              == Over(Over(base, po, buffer[..size]), po + at - |gap|, gap + d)
  {
  }

  lemma FlushedAll(was: seq<byte>, now: seq<byte>, from: nat, buffer: seq<byte>)
    requires |was| == |now| && from + |buffer| <= |was|
    requires now[..from] == was[..from] && now[from..from + |buffer|] == buffer
             && now[from + |buffer|..] == was[from + |buffer|..]
    ensures now == Over(was, from, buffer)
  {
    Glue(now, 0, from, from + |buffer|);
    Glue(now, 0, from + |buffer|, |now|);
    assert now[0..from] == now[..from] && now[0..|now|] == now && now[from + |buffer|..|now|] == now[from + |buffer|..];
  }

  lemma FlushedView(was: seq<byte>, now: seq<byte>, from: nat, size: nat, n: nat, buffer: seq<byte>)
    requires |was| == |now| && size <= n <= |buffer| && from + n <= |was|
    requires now[..from] == was[..from] && now[from..from + n] == buffer[..n]
    ensures now[..from + size] == Over(was, from, buffer[..size])[..from + size]
  {
    assert now[from..from + size] == now[from..from + n][..size] == buffer[..size];
    Glue(now, 0, from, from + size);
    assert now[0..from] == now[..from] && now[0..from + size] == now[..from + size];
  }

  /** Where the read size does not divide the program size, a read hangs after one byte is programmed. */
  method HangingRead(blockSize: nat, readSize: nat, progSize: nat, cacheSize: nat) returns (bd: Bd, off: nat)
    requires readSize > 0 && progSize > 0 && cacheSize > 0 && blockSize > 0
    requires Divides(readSize, cacheSize) && Divides(progSize, cacheSize) && Divides(cacheSize, blockSize)
    requires !Divides(readSize, progSize)
    ensures bd.Valid() && bd.Coherent() && off + readSize <= blockSize == bd.blockSize && bd.blockCount == 1
    ensures bd.readSize == readSize && bd.Hangs(true, readSize, 0, off, readSize)
  {
    hide Divides, Aligned.AlignUp;
    DividesThrough(readSize, cacheSize, blockSize);
    MultiplesApart(0, cacheSize, progSize);
    MultiplesApart(0, blockSize, cacheSize);
    off := AlignDown(progSize, readSize);
    MultiplesApart(off, blockSize, readSize);
    var blank := seq(blockSize, _ => 0xff);
    bd := new Bd(1, blockSize, readSize, progSize, cacheSize, true, [blank]);
    bd.Open(0, progSize);
    var _ := bd.Copy(0, progSize, [0]);
    Multiple(1, progSize);
    OwnUnit(progSize, readSize);
    OwnUnit(progSize, progSize);
  }

  lemma OwnUnit(x: nat, unit: nat)
    requires unit > 0
    ensures AlignDown(x, unit) == x <==> Divides(unit, x)
  {
    hide Divides;
    if Divides(unit, x) {
      MultiplesApart(AlignDown(x, unit), x, unit);
    }
  }
}
