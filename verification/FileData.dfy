/** Open files as byte sequences: read, write, flush, seek and truncate over
    copy-on-write skip lists (littlefs/lfs.cpp, lfs_file_*). Files here are not inline. */
module FileData {
  import opened Words
  import opened CtzIndex
  import opened Blocks
  import opened CtzList
  import opened Wrappers

  // t with data written at p; a gap before p reads as zeros.
  ghost function Overwritten(t: seq<byte>, p: nat, data: seq<byte>): seq<byte> {
    (if p <= |t| then t[..p] else t + Zeros(p - |t|)) + data + (if p + |data| < |t| then t[p + |data|..] else [])
  }

  /** What that means, byte by byte. */
  lemma OverwrittenAt(t: seq<byte>, p: nat, data: seq<byte>, i: nat)
    ensures var r := Overwritten(t, p, data);
            && |r| == (if |t| < p + |data| then p + |data| else |t|)
            && (i < |r| ==> r[i] == if p <= i < p + |data| then data[i - p] else if i < |t| then t[i] else 0)
  {
  }

  // A write that continues where the last one ended is one longer write.
  lemma SpliceTwice(t: seq<byte>, p: nat, a: seq<byte>, b: seq<byte>)
    ensures Overwritten(Overwritten(t, p, a), p + |a|, b) == Overwritten(t, p, a + b)
  {
    var once, both := Overwritten(t, p, a), Overwritten(t, p, a + b);
    assert once[..p + |a|] + b == both[..p + |a| + |b|];
    assert p + |a| + |b| < |t| ==> once[p + |a| + |b|..] == t[p + |a| + |b|..];
  }

  function Flatten(chunks: seq<seq<byte>>): seq<byte> {
    if chunks == [] then [] else Flatten(chunks[..|chunks| - 1]) + chunks[|chunks| - 1]
  }

  lemma {:induction false} LongerWithMore(chunks: seq<seq<byte>>, c: nat)
    requires c <= |chunks|
    ensures |Flatten(chunks[..c])| <= |Flatten(chunks)|
    decreases |chunks|
  {
    if c < |chunks| {
      LongerWithMore(chunks[..|chunks| - 1], c);
      assert chunks[..|chunks| - 1][..c] == chunks[..c];
    } else {
      assert chunks[..c] == chunks;
    }
  }

  function Zeros(n: nat): (z: seq<byte>)
    ensures |z| == n
  {
    seq(n, _ => 0)
  }

  ghost predicate Within(chain: seq<nat>, blocks: set<nat>) {
    forall n :: 0 <= n < |chain| ==> chain[n] in blocks
  }

  ghost predicate SameOn(d: Disk, e: Disk, blocks: set<nat>) {
    |d| == |e| && forall b :: b in blocks && b < |d| ==> d[b] == e[b]
  }

  /* A list holds every shorter file as a prefix. */

  ghost function Upto(bs: uint32, chain: seq<nat>, pos: nat): seq<nat>
    requires bs >= 112 && pos <= FILE_MAX
  {
    if pos == 0 then [] else
      var n := Locate(bs, pos - 1).0;
      if n < |chain| then chain[..n + 1] else chain
  }

  lemma PrefixLinked(disk: Disk, chain: seq<nat>, m: nat)
    requires Linked(disk, chain) && m <= |chain|
    ensures Linked(disk, chain[..m])
  {
    hide Pow2, Bits.Ctz, FromLe32;
    var short := chain[..m];
    forall n, k: nat | 1 <= n < |short| && k <= Bits.Ctz(n) && Pow2(k) <= n
      ensures Pointer(disk, short[n], k) == short[n - Pow2(k)]
    {
      assert Pointer(disk, chain[n], k) == chain[n - Pow2(k)];
    }
  }

  lemma PrefixHolds(disk: Disk, bs: uint32, chain: seq<nat>, size: nat, pos: nat)
    requires Holds(disk, bs, chain, size) && pos <= size
    ensures Holds(disk, bs, Upto(bs, chain, pos), pos)
    ensures Content(disk, bs, Upto(bs, chain, pos), pos) == Content(disk, bs, chain, size)[..pos]
    ensures pos > 0 ==> Locate(bs, pos - 1).0 < |chain|
  {
    NothingLinked(disk);
    hide Locate, NoRepeats, Linked, ByteAt;
    if pos > 0 {
      LocateMonotone(bs, pos - 1, size - 1);
      var m := Locate(bs, pos - 1).0 + 1;
      NoRepeatsPrefix(chain, m);
      PrefixLinked(disk, chain, m);
      forall p: nat | p < pos
        ensures ByteAt(disk, bs, Upto(bs, chain, pos), p) == ByteAt(disk, bs, chain, p)
      {
        PrefixByte(disk, bs, chain, size, pos, p);
      }
    }
  }

  lemma NothingLinked(disk: Disk)
    ensures NoRepeats([]) && Linked(disk, [])
  {
  }

  lemma PrefixByte(disk: Disk, bs: uint32, chain: seq<nat>, size: nat, pos: nat, p: nat)
    requires Holds(disk, bs, chain, size) && p < pos <= size
    ensures ByteAt(disk, bs, Upto(bs, chain, pos), p) == ByteAt(disk, bs, chain, p)
  {
    hide Locate, NoRepeats, Linked;
    LocateMonotone(bs, p, pos - 1);
  }

  // Positions that follow each other within a block.
  lemma RunInBlock(bs: uint32, p: nat, k: nat)
    requires bs >= 112 && p + k <= FILE_MAX && Locate(bs, p).1 + k < bs
    ensures Locate(bs, p + k) == (Locate(bs, p).0, Locate(bs, p).1 + k)
  {
    hide Locate, NoRepeats;
    LocateInBlock(bs, p);
    LocateInBlock(bs, p + k);
    var (n, off) := Locate(bs, p);
    LivesAtUnique(bs, p + k, n, off + k, Locate(bs, p + k).0, Locate(bs, p + k).1);
  }

  // A run programmed at the end of the list extends the file by that run.
  ghost predicate RunFits(d: Disk, bs: uint32, chain: seq<nat>, pos: nat, off: nat, data: seq<byte>) {
    && bs >= 112 && Formatted(d, bs) && Linked(d, chain) && |chain| > 0 && NoRepeats(chain)
    && |data| > 0 && pos + |data| <= FILE_MAX && off + |data| <= bs
    && Locate(bs, pos) == (|chain| - 1, off)
  }

  lemma RunLinked(d: Disk, e: Disk, bs: uint32, chain: seq<nat>, pos: nat, off: nat, data: seq<byte>)
    requires RunFits(d, bs, chain, pos, off, data) && e == Put(d, chain[|chain| - 1], off, data)
    ensures Linked(e, chain)
  {
    hide Locate, NoRepeats;
    forall n, k: nat | 1 <= n < |chain| && k <= Bits.Ctz(n) && Pow2(k) <= n
      ensures Pointer(e, chain[n], k) == chain[n - Pow2(k)]
    {
      RunKeepsPointer(d, e, bs, chain, pos, off, data, n, k);
    }
  }

  lemma PutKeepsBefore(d: Disk, block: nat, off: nat, data: seq<byte>)
    requires block < |d| && off + |data| <= |d[block]|
    ensures Put(d, block, off, data)[block][..off] == d[block][..off]
  {
  }

  lemma RunKeepsPointer(d: Disk, e: Disk, bs: uint32, chain: seq<nat>, pos: nat, off: nat, data: seq<byte>, n: nat,
                        k: nat)
    requires RunFits(d, bs, chain, pos, off, data) && e == Put(d, chain[|chain| - 1], off, data)
    requires 1 <= n < |chain| && k <= Bits.Ctz(n) && Pow2(k) <= n
    ensures Pointer(e, chain[n], k) == chain[n - Pow2(k)]
  {
    assert n < |chain| - 1 ==> chain[n] != chain[|chain| - 1];
    PutKeepsBefore(d, chain[|chain| - 1], off, data);
    hide Locate, FromLe32, Pow2, Bits.Ctz, NoRepeats, Put;
    LocateInBlock(bs, pos);
    assert Pointer(d, chain[n], k) == chain[n - Pow2(k)];
    if n == |chain| - 1 {
      PointerFits(bs, n, k);
      SamePointer(d, e, chain[n], chain[n], off, k);
    }
  }

  lemma RunAppends(d: Disk, e: Disk, bs: uint32, chain: seq<nat>, pos: nat, off: nat, data: seq<byte>)
    requires RunFits(d, bs, chain, pos, off, data) && e == Put(d, chain[|chain| - 1], off, data)
    ensures Holds(e, bs, chain, pos + |data|)
    ensures Content(e, bs, chain, pos + |data|) == Content(d, bs, chain, pos) + data
    ensures Locate(bs, pos + |data| - 1).1 + 1 == off + |data|
  {
    hide Locate, Linked, NoRepeats;
    RunLinked(d, e, bs, chain, pos, off, data);
    RunInBlock(bs, pos, |data| - 1);
    forall p: nat | p < pos + |data|
      ensures ByteAt(e, bs, chain, p) == if p < pos then ByteAt(d, bs, chain, p) else data[p - pos]
    {
      if p < pos {
        RunKeeps(d, e, bs, chain, pos, off, data, p);
      } else {
        RunPuts(d, e, bs, chain, pos, off, data, p);
      }
    }
  }

  lemma RunPuts(d: Disk, e: Disk, bs: uint32, chain: seq<nat>, pos: nat, off: nat, data: seq<byte>, p: nat)
    requires RunFits(d, bs, chain, pos, off, data) && e == Put(d, chain[|chain| - 1], off, data)
    requires pos <= p < pos + |data|
    ensures ByteAt(e, bs, chain, p) == data[p - pos]
  {
    assert OnDisk(d, chain);
    hide Locate, Linked, NoRepeats;
    RunInBlock(bs, pos, p - pos);
    assert e[chain[|chain| - 1]][off + (p - pos)] == data[p - pos];
  }

  lemma RunKeeps(d: Disk, e: Disk, bs: uint32, chain: seq<nat>, pos: nat, off: nat, data: seq<byte>, p: nat)
    requires RunFits(d, bs, chain, pos, off, data) && e == Put(d, chain[|chain| - 1], off, data) && p < pos
    ensures ByteAt(e, bs, chain, p) == ByteAt(d, bs, chain, p)
  {
    var (n, o) := Locate(bs, p);
    assert n < |chain| - 1 ==> chain[n] != chain[|chain| - 1];
    hide Locate, NoRepeats;
    LocateMonotone(bs, p, pos);
    LocateInBlock(bs, p);
    if n == |chain| - 1 {
      assert e[chain[n]][..off] == d[chain[n]][..off];
      assert e[chain[n]][o] == e[chain[n]][..off][o];
    }
  }

  // grown has room for position pos at byte off of its last block, which nobody else uses.
  ghost predicate ReadyAt(disk: Disk, bs: uint32, used: set<nat>, kept: set<nat>, pos: nat,
                          grown: seq<nat>, block: nat, off: nat)
  {
    && bs >= 112 && pos < FILE_MAX && |grown| > 0
    && Linked(disk, grown) && NoRepeats(grown) && Within(grown, used)
    && block == grown[|grown| - 1] && block !in kept && Locate(bs, pos) == (|grown| - 1, off)
  }

  lemma ExtendedIsReady(d: Disk, e: Disk, bs: uint32, used: set<nat>, origin: seq<nat>, pos: nat, block: nat, off: nat)
    requires bs >= 112 && pos < FILE_MAX && (pos > 0 ==> |origin| > 0)
    requires Extended(d, e, bs, origin, pos, block, off) && Within(origin, used) && block !in used && NoRepeats(origin)
    ensures ReadyAt(e, bs, used + {block}, used, pos, Grown(bs, origin, pos, block), block, off)
  {
    hide Locate, Content, Linked, NoRepeats;
    NoRepeatsAppend(origin, block);
    if pos > 0 {
      NoRepeatsPrefix(origin, |origin| - 1);
      NoRepeatsAppend(origin[..|origin| - 1], block);
    } else {
      NoRepeatsAppend([], block);
      assert [] + [block] == [block];
    }
  }

  lemma FewerKept(disk: Disk, bs: uint32, used: set<nat>, kept: set<nat>, fewer: set<nat>, pos: nat,
                  grown: seq<nat>, block: nat, off: nat)
    requires ReadyAt(disk, bs, used, kept, pos, grown, block, off) && fewer <= kept
    ensures ReadyAt(disk, bs, used, fewer, pos, grown, block, off)
  {
  }

  // Overlaying a written front on the old file, one write further.
  ghost function Overlay(front: seq<byte>, base: seq<byte>): seq<byte> {
    front + if |front| < |base| then base[|front|..] else []
  }

  lemma OverlaySplices(front: seq<byte>, base: seq<byte>, data: seq<byte>)
    ensures Overlay(front + data, base) == Overwritten(Overlay(front, base), |front|, data)
  {
  }

  lemma OverlayPrefix(base: seq<byte>, p: nat)
    requires p <= |base|
    ensures Overlay(base[..p], base) == base
  {
  }

  lemma ZeroFillSplices(base: seq<byte>, p: nat, data: seq<byte>)
    requires p > |base|
    ensures Overwritten(base, p, data) == Overlay(base + Zeros(p - |base|) + data, base)
  {
  }

  // Bytes read straight from a block are the file's bytes.
  lemma BlockRun(disk: Disk, bs: uint32, chain: seq<nat>, size: nat, pos: nat, off: nat, len: nat)
    requires Holds(disk, bs, chain, size) && pos + len <= size && len > 0
    requires Locate(bs, pos).1 == off && off + len <= bs
    ensures var n := Locate(bs, pos).0;
            n < |chain| && disk[chain[n]][off..off + len] == Content(disk, bs, chain, size)[pos..pos + len]
  {
    hide Locate, NoRepeats;
    LocateMonotone(bs, pos, size - 1);
    var run := disk[chain[Locate(bs, pos).0]][off..off + len];
    var text := Content(disk, bs, chain, size)[pos..pos + len];
    forall k | 0 <= k < len
      ensures run[k] == text[k]
    {
      RunInBlock(bs, pos, k);
    }
  }

  // Copying the next bytes of the old file forward changes nothing the user sees.
  lemma OverlayCopies(front: seq<byte>, base: seq<byte>, p: nat, q: nat)
    requires |front| == p <= q <= |base|
    ensures Overlay(front + base[p..q], base) == Overlay(front, base)
  {
  }

  // The same offset in the next block.
  lemma OneBlockOn(bs: uint32, p: nat, n: nat, q: nat)
    requires bs >= 112 && p < n <= FILE_MAX && Locate(bs, p).0 == Locate(bs, n - 1).0 && q <= FILE_MAX
    requires var k := Locate(bs, p).0 + 1;
             PointerBytes(k) <= Locate(bs, p).1 && q == p + bs - PointerBytes(k)
    ensures n <= q && Locate(bs, q) == (Locate(bs, p).0 + 1, Locate(bs, p).1)
  {
    hide Locate, PointerBytes;
    var k, off := Locate(bs, p).0 + 1, Locate(bs, p).1;
    LocateInBlock(bs, p);
    LocateInBlock(bs, n - 1);
    LocateInBlock(bs, q);
    LivesAtUnique(bs, q, k, off, Locate(bs, q).0, Locate(bs, q).1);
  }

  lemma JustBehind(bs: uint32, n: nat)
    requires bs >= 112 && 0 < n <= FILE_MAX && !ShrinksInPlace(bs, n)
    ensures Locate(bs, n).0 == Locate(bs, n - 1).0 + 1
  {
    hide Locate;
    NextPosition(bs, n - 1);
  }

  lemma HeadBeyond(bs: uint32, whole: seq<nat>, n: nat, head: nat)
    requires bs >= 112 && n <= FILE_MAX && NoRepeats(whole)
    requires Locate(bs, n).0 < |whole| && head == whole[Locate(bs, n).0]
    ensures n > 0 && Locate(bs, n - 1).0 < Locate(bs, n).0 ==> head !in Upto(bs, whole, n)
  {
    hide Locate;
  }

  // Positions n and n - 1 share a block, so both lookups give the same head.
  ghost predicate ShrinksInPlace(bs: uint32, n: nat)
    requires bs >= 112 && n <= FILE_MAX
  {
    n == 0 || Locate(bs, n).0 == Locate(bs, n - 1).0
  }

  // That is the case for every length that is not a block's first position.
  lemma ShrinksInPlaceUnlessBlockStart(bs: uint32, n: nat)
    requires bs >= 112 && 0 < n <= FILE_MAX
    ensures ShrinksInPlace(bs, n) <==> n != Start(bs, Locate(bs, n).0)
  {
    hide Locate, NoRepeats, PointerBytes;
    LocateInBlock(bs, n - 1);
    LocateInBlock(bs, n);
    NextPosition(bs, n - 1);
  }

  lemma SecondBlock(bs: nat)
    requires bs >= 112
    ensures Start(bs, 1) == bs && LivesAt(bs, bs, 1, 4)
  {
    assert Start(bs, 0) == 0 && PointerBytes(0) == 0 && Bits.Ctz(1) == 0;
    assert Start(bs, 2) == Start(bs, 1) + bs - PointerBytes(1);
  }

  /** It is not when a file is cut to its first block. */
  lemma CutToOneBlock(bs: uint32)
    requires 112 <= bs <= FILE_MAX
    ensures !ShrinksInPlace(bs, bs)
  {
    hide Locate, NoRepeats;
    LocateInBlock(bs, bs);
    SecondBlock(bs);
    LivesAtUnique(bs, bs, 1, 4, Locate(bs, bs).0, Locate(bs, bs).1);
    ShrinksInPlaceUnlessBlockStart(bs, bs);
  }

  /** An open file. chain is the list its directory entry names; while writing, wchain is the
      new list growing beside it, and kept are the blocks that were in use when it was begun. */
  class File {
    const store: Store
    const fileMax: nat
    const append: bool
    var head: nat
    var size: nat
    var pos: nat
    var block: nat
    var off: nat
    var writing: bool
    var reading: bool
    var dirty: bool
    var errored: bool
    ghost var chain: seq<nat>
    ghost var wchain: seq<nat>
    ghost var kept: set<nat>

    // The blocks a write must leave alone.
    ghost function Protected(): set<nat>
      reads this`writing, this`kept, store
    {
      if writing then kept else store.used
    }

    ghost predicate Based()
      reads this`head, this`size, this`pos, this`chain, this`writing, this`kept, store
    {
      Rooted() && pos <= fileMax
    }

    ghost predicate Rooted()
      reads this`head, this`size, this`chain, this`writing, this`kept, store
    {
      && store.Valid() && fileMax <= FILE_MAX && size <= fileMax
      && Holds(store.disk, store.bs, chain, size)
      && (size > 0 ==> head == chain[|chain| - 1])
      && Within(chain, Protected()) && Protected() <= store.used
    }

    ghost predicate Growing()
      reads this, store
      requires store.Valid()
    {
      && 0 < pos <= FILE_MAX && !reading && (append ==> pos >= size)
      && Holds(store.disk, store.bs, wchain, pos) && NoRepeats(wchain) && Within(wchain, store.used)
      && block == wchain[|wchain| - 1] && block !in kept && off == Locate(store.bs, pos - 1).1 + 1
    }

    // Where the read loop stands: at pos, or at the end of a block.
    ghost predicate Placed()
      reads this, store
      requires store.Valid()
    {
      pos < size <= FILE_MAX && off != store.bs ==>
        var (n, o) := Locate(store.bs, pos); n < |chain| && block == chain[n] && off == o
    }

    ghost predicate Valid()
      reads this, store
    {
      Based() && (writing ==> Growing()) && (reading ==> Placed())
    }

    // What the list named by the directory entry holds.
    ghost function Base(): seq<byte>
      reads this`head, this`size, this`chain, this`writing, this`kept, store
      requires Rooted()
    {
      Content(store.disk, store.bs, chain, size)
    }

    // What the file holds up to pos.
    ghost function Front(): (s: seq<byte>)
      reads this, store
      requires Valid() && (!writing ==> pos <= size)
      ensures |s| == pos
    {
      if writing then Content(store.disk, store.bs, wchain, pos) else Base()[..pos]
    }

    /** The file as its user sees it: what was written up to pos, then the rest of the old file. */
    ghost function Text(): seq<byte>
      reads this, store
      requires Valid()
    {
      if writing then Overlay(Front(), Base()) else Base()
    }

    constructor (store: Store, fileMax: nat, append: bool, head: nat, size: nat, ghost chain: seq<nat>)
      requires store.Valid() && size <= fileMax <= FILE_MAX
      requires Holds(store.disk, store.bs, chain, size) && Within(chain, store.used)
      requires size > 0 ==> head == chain[|chain| - 1]
      ensures Valid() && this.store == store && this.fileMax == fileMax && this.append == append
      ensures !writing && !reading && pos == 0 && this.chain == chain && this.size == size && this.head == head
    {
      this.store, this.fileMax, this.append := store, fileMax, append;
      this.head, this.size, this.chain := head, size, chain;
      pos, block, off := 0, 0, 0;
      writing, reading, dirty, errored := false, false, false, false;
      wchain, kept := [], {};
    }

    // The block to extend from: the one holding pos - 1 of the old list, or the one just filled.
    method Origin() returns (from: nat, ghost origin: seq<nat>)
      requires Valid() && !reading && (!writing ==> pos <= size)
      ensures Holds(store.disk, store.bs, origin, pos) && Within(origin, store.used)
      ensures pos > 0 ==> |origin| > 0 && from == origin[|origin| - 1]
      ensures Content(store.disk, store.bs, origin, pos) == Front()
      ensures NoRepeats(origin) && (writing ==> origin == wchain)
    {
      hide Locate, Content, Linked, NoRepeats;
      from, origin := block, wchain;
      if !writing {
        origin := Upto(store.bs, chain, pos);
        PrefixHolds(store.disk, store.bs, chain, size, pos);
        if pos > 0 {
          var o, steps;
          from, o, steps := store.CtzFind(head, size, pos - 1, chain);
        }
      }
    }

    ghost predicate Ready(grown: seq<nat>)
      reads this, store
    {
      ReadyAt(store.disk, store.bs, store.used, kept, pos, grown, block, off)
    }

    // A new block for position pos: the first of this writing session, or the next.
    method Prepare() returns (r: Result<()>, ghost grown: seq<nat>)
      requires Valid() && !reading && (!writing ==> pos <= size) && pos < fileMax
      requires writing ==> off == store.bs
      modifies this, store
      ensures Based() && !reading && head == old(head) && size == old(size) && pos == old(pos) && chain == old(chain)
      ensures Protected() == old(Protected()) && SameOn(old(store.disk), store.disk, old(Protected()))
      ensures Base() == old(Base())
      ensures r.Err? ==>
                && r.error == NoSpace && store.Full() && Valid() && errored && writing == old(writing)
                && Front() == old(Front())
      ensures r.Ok? ==> writing && Ready(grown) && Content(store.disk, store.bs, grown, pos) == old(Front())
    {
      hide Locate, Content, Linked, NoRepeats, Holds, ReadyAt, Grown, Formatted, PointerBytes;
      grown := [];
      var from;
      ghost var origin;
      from, origin := Origin();
      ghost var saved, before, used := Protected(), store.disk, store.used;
      var got := store.CtzExtend(from, pos, origin);
      HoldsFrame(before, store.disk, store.bs, chain, size);
      if got.Err? {
        errored := true;
        return Err(got.error), [];
      }
      block, off := got.value.0, got.value.1;
      grown := Grown(store.bs, origin, pos, block);
      ExtendedIsReady(before, store.disk, store.bs, used, origin, pos, block, off);
      FewerKept(store.disk, store.bs, store.used, used, saved, pos, grown, block, off);
      kept := saved;
      writing := true;
      return Ok(()), grown;
    }

    // Go to another block, if this one is full or none is open.
    method Place() returns (r: Result<()>, ghost grown: seq<nat>)
      requires Valid() && !reading && (!writing ==> pos <= size) && pos < fileMax
      modifies this, store
      ensures Based() && !reading && head == old(head) && size == old(size) && pos == old(pos) && chain == old(chain)
      ensures Protected() == old(Protected()) && SameOn(old(store.disk), store.disk, old(Protected()))
      ensures Base() == old(Base())
      ensures r.Err? ==>
                && r.error == NoSpace && store.Full() && Valid() && errored && writing == old(writing)
                && Front() == old(Front())
      ensures r.Ok? ==> writing && Ready(grown) && off < store.bs
      ensures r.Ok? ==> Content(store.disk, store.bs, grown, pos) == old(Front())
    {
      hide Locate, Content, Linked, NoRepeats;
      LocateInBlock(store.bs, pos);
      if !writing || off == store.bs {
        r, grown := Prepare();
      } else {
        NextPosition(store.bs, pos - 1);
        return Ok(()), wchain;
      }
    }

    // One turn of the write loop: a new block if one is needed, then as much as fits in it.
    method WriteRun(data: seq<byte>) returns (r: Result<nat>)
      requires Valid() && !reading && (!writing ==> pos <= size) && (append ==> pos >= size)
      requires |data| > 0 && pos + |data| <= fileMax
      modifies this, store
      ensures Valid() && !reading && head == old(head) && size == old(size) && chain == old(chain)
      ensures Protected() == old(Protected()) && SameOn(old(store.disk), store.disk, old(Protected()))
      ensures Base() == old(Base())
      ensures r.Err? ==>
                r.error == NoSpace && store.Full() && errored && writing == old(writing) && pos == old(pos)
                && Front() == old(Front())
      ensures r.Ok? ==> writing && 0 < r.value <= |data| && pos == old(pos) + r.value
      ensures r.Ok? ==> Front() == old(Front()) + data[..r.value]
    {
      hide Locate, Content, Linked, Holds, NoRepeats, ReadyAt;
      var ready;
      ghost var grown;
      ready, grown := Place();
      if ready.Err? {
        return Err(ready.error);
      }
      var diff := if |data| < store.bs - off then |data| else store.bs - off;
      Program(data[..diff], grown);
      return Ok(diff);
    }

    // Program a run at the prepared place and step over it.
    method Program(run: seq<byte>, ghost grown: seq<nat>)
      requires Based() && writing && !reading && Ready(grown) && (append ==> pos >= size)
      requires |run| > 0 && off + |run| <= store.bs && pos + |run| <= fileMax
      modifies this`pos, this`off, this`wchain, store`disk
      ensures Valid() && pos == old(pos) + |run|
      ensures SameOn(old(store.disk), store.disk, kept) && Base() == old(Base())
      ensures Front() == Content(old(store.disk), store.bs, grown, old(pos)) + run
    {
      hide Locate, Content, Put, NoRepeats;
      ghost var before := store.disk;
      assert OnDisk(store.disk, grown);
      store.Prog(block, off, run);
      RunAppends(before, store.disk, store.bs, grown, pos, off, run);
      HoldsFrame(before, store.disk, store.bs, chain, size);
      pos, off := pos + |run|, off + |run|;
      wchain := grown;
    }

    // The write loop of lfs_file_write.
    method WriteRuns(data: seq<byte>) returns (r: Result<nat>)
      requires Valid() && !reading && (!writing ==> pos <= size) && (append ==> pos >= size)
      requires pos + |data| <= fileMax
      modifies this, store
      ensures Valid() && !reading && head == old(head) && size == old(size) && chain == old(chain)
      ensures Protected() == old(Protected()) && SameOn(old(store.disk), store.disk, old(Protected()))
      ensures Base() == old(Base()) && (!writing ==> pos <= size)
      ensures r.Err? ==>
                r.error == NoSpace && store.Full() && errored && old(pos) <= pos <= old(pos) + |data|
                && (old(writing) ==> writing)
      ensures r.Ok? ==> r.value == |data| && pos == old(pos) + |data| && (writing <==> old(writing) || |data| > 0)
      ensures pos - old(pos) <= |data| && Front() == old(Front()) + data[..pos - old(pos)]
    {
      hide Locate, Content, NoRepeats, Linked, Holds, ReadyAt, Placed, Growing, Front, Protected, Text, Target;
      var done := 0;
      while done < |data|
        invariant done <= |data| && pos == old(pos) + done
        invariant Valid() && !reading && head == old(head) && size == old(size) && chain == old(chain)
        invariant Protected() == old(Protected()) && SameOn(old(store.disk), store.disk, old(Protected()))
        invariant Base() == old(Base()) && (!writing ==> pos <= size)
        invariant writing <==> old(writing) || done > 0
        invariant Front() == old(Front()) + data[..done]
      {
        ghost var front := Front();
        var turn := WriteRun(data[done..]);
        if turn.Err? {
          return Err(turn.error);
        }
        assert data[..done + turn.value] == data[..done] + data[done..][..turn.value];
        assert front + data[done..][..turn.value] == old(Front()) + data[..done + turn.value];
        done := done + turn.value;
      }
      return Ok(|data|);
    }

    // The loop, and the error flag that it clears.
    method WriteAll(data: seq<byte>) returns (r: Result<nat>)
      requires Valid() && !reading && (!writing ==> pos <= size) && (append ==> pos >= size)
      requires pos + |data| <= fileMax
      modifies this, store
      ensures Valid() && !reading && head == old(head) && size == old(size) && chain == old(chain)
      ensures Protected() == old(Protected()) && SameOn(old(store.disk), store.disk, old(Protected()))
      ensures Base() == old(Base()) && (!writing ==> pos <= size)
      ensures r.Err? ==>
                r.error == NoSpace && store.Full() && errored && old(pos) <= pos <= old(pos) + |data|
                && (old(writing) ==> writing)
      ensures r.Ok? ==> r.value == |data| && pos == old(pos) + |data| && (writing <==> old(writing) || |data| > 0)
      ensures pos - old(pos) <= |data| && Front() == old(Front()) + data[..pos - old(pos)]
    {
      hide Locate, Content, NoRepeats, Linked, Holds;
      r := WriteRuns(data);
      if r.Ok? {
        errored := false;
      }
    }

    lemma ReadableHere()
      requires Valid() && !writing && pos < size
      ensures store.Valid() && Holds(store.disk, store.bs, chain, size) && pos < size <= FILE_MAX && store.bs >= 112
      ensures |chain| > 0 && head == chain[|chain| - 1] && Locate(store.bs, pos).1 < store.bs
    {
      hide Locate, Placed;
      LocateInBlock(store.bs, pos);
    }

    // Find the block of the position, unless it is at hand.
    method PlaceRead()
      requires Valid() && !writing && pos < size
      modifies this`block, this`off, this`reading
      ensures Valid() && reading && off < store.bs
      ensures Locate(store.bs, pos).0 < |chain|
      ensures block == chain[Locate(store.bs, pos).0] && off == Locate(store.bs, pos).1
    {
      hide Locate, Holds, Rooted, Store.Valid, Growing;
      ReadableHere();
      if !reading || off == store.bs {
        var at, within, steps := store.CtzFind(head, size, pos, chain);
        block, off, reading := at, within, true;
      }
    }

    // One turn of the read loop: as much as the current block has.
    lemma RunRead(diff: nat)
      requires Valid() && 0 < diff <= size - pos && off + diff <= store.bs
      requires Locate(store.bs, pos).0 < |chain|
      requires block == chain[Locate(store.bs, pos).0] && off == Locate(store.bs, pos).1
      requires block < |store.disk| && |store.disk[block]| == store.bs
      ensures |Base()| == size && store.disk[block][off..off + diff] == Base()[pos..pos + diff]
    {
      hide Locate, Holds, Growing, Within, Formatted, OnDisk;
      BlockRun(store.disk, store.bs, chain, size, pos, off, diff);
    }

    method ReadRun(n: nat) returns (run: seq<byte>)
      requires Valid() && !writing && reading && 0 < n <= size - pos && off < store.bs
      requires Locate(store.bs, pos).0 < |chain|
      requires block == chain[Locate(store.bs, pos).0] && off == Locate(store.bs, pos).1
      modifies this`pos, this`off
      ensures Valid() && 0 < |run| <= n && pos == old(pos) + |run|
      ensures run == Base()[old(pos)..pos]
    {
      var diff := if n < store.bs - off then n else store.bs - off;
      assert block < |store.disk| && |store.disk[block]| == store.bs && size <= FILE_MAX && store.bs >= 112 by {
        assert OnDisk(store.disk, chain);
      }
      RunRead(diff);
      hide Locate, Rooted, Growing, Base;
      run := store.disk[block][off..off + diff];
      if off + diff < store.bs {
        RunInBlock(store.bs, pos, diff);
      }
      pos, off := pos + diff, off + diff;
    }

    // The read loop of lfs_file_read.
    method ReadAll(n: nat) returns (data: seq<byte>)
      requires Valid() && !writing
      modifies this`pos, this`block, this`off, this`reading
      ensures Valid() && pos == old(pos) + |data|
      ensures old(pos) >= size ==> data == []
      ensures old(pos) < size ==> |data| == (if n < size - old(pos) then n else size - old(pos))
      ensures old(pos) < size ==> data == Base()[old(pos)..pos]
    {
      hide Locate, Content, Linked, Holds, NoRepeats;
      data := [];
      if pos >= size {
        return;
      }
      var want := if n < size - pos then n else size - pos;
      ghost var base := Base();
      while |data| < want
        invariant |data| <= want && pos == old(pos) + |data| && Valid()
        invariant Base() == base && data == base[old(pos)..pos]
      {
        ghost var from := pos;
        PlaceRead();
        var run := ReadRun(want - |data|);
        assert base[old(pos)..pos] == base[old(pos)..from] + base[from..pos];
        data := data + run;
      }
    }

    // A reader of the old list, standing where the writer stands.
    ghost predicate FollowedBy(orig: File)
      reads this, orig, store
      requires store.Valid()
    {
      && orig != this && orig.store == store && orig.chain == chain && orig.size == size && orig.head == head
      && orig.fileMax == fileMax && !orig.writing && orig.pos == pos && (orig.reading ==> orig.Placed())
    }

    method CopyByte(orig: File) returns (r: Result<nat>)
      requires Valid() && writing && pos < size && FollowedBy(orig)
      modifies this, store, orig
      ensures Valid() && writing && head == old(head) && size == old(size) && chain == old(chain)
      ensures Protected() == old(Protected()) && SameOn(old(store.disk), store.disk, old(Protected()))
      ensures Base() == old(Base()) && Text() == old(Text())
      ensures r.Ok? ==> pos == old(pos) + 1 && FollowedBy(orig)
      ensures r.Err? ==> r.error == NoSpace && store.Full()
    {
      hide Locate, Content, Linked, Holds, NoRepeats;
      ghost var base, front, q := Base(), Front(), pos;
      var data := orig.ReadAll(1);
      r := WriteAll(data);
      assert data[..pos - q] == base[q..pos];
      OverlayCopies(front, base, q, pos);
    }

    // Copy over anything after the current branch, a byte at a time, through a reader of the old list.
    method CopyRest() returns (r: Result<()>)
      requires Valid() && writing
      modifies this, store
      ensures Valid() && writing && head == old(head) && size == old(size) && chain == old(chain)
      ensures Protected() == old(Protected()) && SameOn(old(store.disk), store.disk, old(Protected()))
      ensures Base() == old(Base()) && Text() == old(Text())
      ensures r.Ok? ==> pos == if old(pos) < size then size else old(pos)
      ensures r.Err? ==> r.error == NoSpace && store.Full()
    {
      hide Locate, Content, Linked, Holds, NoRepeats, Growing;
      var orig := new File(store, fileMax, false, head, size, chain);
      orig.pos := pos;
      while pos < size
        invariant Valid() && writing && head == old(head) && size == old(size) && chain == old(chain)
        invariant Protected() == old(Protected()) && SameOn(old(store.disk), store.disk, old(Protected()))
        invariant Base() == old(Base()) && Text() == old(Text())
        invariant fresh(orig) && FollowedBy(orig)
        invariant old(pos) <= pos && (pos > old(pos) ==> pos <= size)
      {
        var copied := CopyByte(orig);
        if copied.Err? {
          return Err(copied.error);
        }
      }
      return Ok(());
    }

    lemma HasGrown()
      requires Valid() && writing
      ensures 0 < pos <= FILE_MAX && Holds(store.disk, store.bs, wchain, pos) && |wchain| > 0
      ensures Within(wchain, store.used) && block == wchain[|wchain| - 1]
      ensures pos >= size ==> Text() == Content(store.disk, store.bs, wchain, pos)
    {
      hide Locate, Content;
    }

    /** lfs_file_flush: the rest of the old file is copied behind what was written, and
        the new list takes the old one's place. Nothing the user sees changes. */
    method Flush() returns (r: Result<()>)
      requires Valid()
      modifies this, store
      ensures Valid() && Text() == old(Text()) && SameOn(old(store.disk), store.disk, old(Protected()))
      ensures r.Ok? ==> !writing && !reading && pos == old(pos) && (old(writing) ==> dirty)
      ensures r.Err? ==>
                r.error == NoSpace && store.Full() && head == old(head) && size == old(size) && chain == old(chain)
      ensures !old(writing) ==> r.Ok? && head == old(head) && size == old(size) && chain == old(chain)
      ensures !old(writing) ==> store.disk == old(store.disk) && store.used == old(store.used)
      ensures Content(store.disk, store.bs, old(chain), old(size)) == old(Base())
      ensures old(Protected()) <= Protected()
    {
      hide Locate, Content, Holds, Within, Overlay;
      reading := false;
      if writing {
        var p := pos;
        var copied := CopyRest();
        if copied.Err? {
          return Err(copied.error);
        }
        HasGrown();
        head, size := block, pos;
        chain := wchain;
        writing, dirty := false, true;
        pos := p;
      }
      return Ok(());
    }

    // Where a write lands: at the end for a file opened to append, else at the position.
    ghost function Target(): nat
      reads this
    {
      if append && pos < size then size else pos
    }

    // Fill up to a position past the end with zeros, a byte at a time.
    method FillZeros(p: nat) returns (r: Result<()>)
      requires Valid() && !writing && !reading && pos == size < p <= fileMax
      modifies this, store
      ensures Valid() && !reading && head == old(head) && size == old(size) && chain == old(chain)
      ensures Protected() == old(Protected()) && SameOn(old(store.disk), store.disk, old(Protected()))
      ensures Base() == old(Base())
      ensures r.Err? ==> r.error == NoSpace && store.Full()
      ensures r.Ok? ==> writing && pos == p && Front() == old(Base()) + Zeros(p - size)
    {
      hide Locate, Content, Linked, Holds, NoRepeats;
      ghost var base := Base();
      while pos < p
        invariant Valid() && !reading && head == old(head) && size == old(size) && chain == old(chain)
        invariant Protected() == old(Protected()) && SameOn(old(store.disk), store.disk, old(Protected()))
        invariant Base() == base && size <= pos <= p && (writing <==> pos > size)
        invariant Front() == base + Zeros(pos - size)
        decreases p - pos
      {
        ghost var front := Front();
        var wrote := WriteAll([0]);
        if wrote.Err? {
          return Err(wrote.error);
        }
        assert front + [0] == base + Zeros(pos - size);
      }
      return Ok(());
    }

    /** lfs_file_write: the file becomes the old one with data spliced in, and whatever the
        write does, the list that the directory entry names keeps its content. */
    method Write(data: seq<byte>) returns (r: Result<nat>)
      requires Valid() && |data| <= 0x7fff_ffff
      modifies this, store
      ensures Valid() && head == old(head) && size == old(size) && chain == old(chain)
      ensures SameOn(old(store.disk), store.disk, old(Protected())) && Base() == old(Base())
      ensures old(Protected()) <= Protected()
      ensures old(Target()) + |data| > fileMax ==> r == Err(TooBig) && Text() == old(Text())
      ensures old(Target()) + |data| <= fileMax && r.Err? ==> r.error == NoSpace && store.Full()
      ensures r.Ok? ==> r.value == |data| && pos == old(Target()) + |data|
      ensures r.Ok? ==> Text() == Overwritten(old(Text()), old(Target()), data)
    {
      WritingIsAtEnd();
      hide Locate, Content, Linked, Holds, NoRepeats, Growing, Overwritten;
      if reading {
        var flushed := Flush();
      }
      if append && pos < size {
        pos := size;
      }
      if pos + |data| > fileMax {
        return Err(TooBig);
      }
      r := WriteAtPos(data);
    }

    lemma WritingIsAtEnd()
      requires Valid()
      ensures writing && append ==> pos >= size
      ensures writing ==> !reading
    {
    }

    method WriteAtPos(data: seq<byte>) returns (r: Result<nat>)
      requires Valid() && !reading && (append ==> pos >= size) && pos + |data| <= fileMax
      modifies this, store
      ensures Valid() && head == old(head) && size == old(size) && chain == old(chain)
      ensures SameOn(old(store.disk), store.disk, old(Protected())) && Base() == old(Base())
      ensures old(Protected()) <= Protected()
      ensures r.Err? ==> r.error == NoSpace && store.Full()
      ensures r.Ok? ==> r.value == |data| && pos == old(pos) + |data|
      ensures r.Ok? ==> Text() == Overwritten(old(Text()), old(pos), data)
    {
      hide Locate, Content, Linked, Holds, NoRepeats, Growing, Overwritten;
      if !writing && pos > size {
        r := WriteBeyond(data);
      } else {
        r := WriteHere(data);
      }
    }

    // Past the end, zeros come first.
    method WriteBeyond(data: seq<byte>) returns (r: Result<nat>)
      requires Valid() && !reading && (append ==> pos >= size) && pos + |data| <= fileMax && !writing && pos > size
      modifies this, store
      ensures Valid() && head == old(head) && size == old(size) && chain == old(chain)
      ensures SameOn(old(store.disk), store.disk, old(Protected())) && Base() == old(Base())
      ensures old(Protected()) <= Protected()
      ensures r.Err? ==> r.error == NoSpace && store.Full()
      ensures r.Ok? ==> r.value == |data| && pos == old(pos) + |data|
      ensures r.Ok? ==> Text() == Overwritten(old(Text()), old(pos), data)
    {
      hide Locate, Content, Linked, Holds, NoRepeats, Growing, Overwritten, Zeros, Within;
      var p := pos;
      ghost var base := Base();
      ZeroFillSplices(base, p, data);
      pos := size;
      var filled := FillZeros(p);
      if filled.Err? {
        return Err(filled.error);
      }
      r := WriteAll(data);
      assert data[..|data|] == data;
      hide Overlay;
      TextIsOverlay();
    }

    method WriteHere(data: seq<byte>) returns (r: Result<nat>)
      requires Valid() && !reading && (append ==> pos >= size) && pos + |data| <= fileMax && (writing || pos <= size)
      modifies this, store
      ensures Valid() && head == old(head) && size == old(size) && chain == old(chain)
      ensures SameOn(old(store.disk), store.disk, old(Protected())) && Base() == old(Base())
      ensures old(Protected()) <= Protected()
      ensures r.Err? ==> r.error == NoSpace && store.Full()
      ensures r.Ok? ==> r.value == |data| && pos == old(pos) + |data|
      ensures r.Ok? ==> Text() == Overwritten(old(Text()), old(pos), data)
    {
      hide Locate, Content, Linked, Holds, NoRepeats, Growing, Overwritten, Within, Overlay;
      TextIsOverlay();
      OverlaySplices(Front(), Base(), data);
      r := WriteAll(data);
      assert data[..|data|] == data;
      TextIsOverlay();
    }

    // Before a fill there is nothing to overlay, and after one the front is the whole story.
    lemma TextIsOverlay()
      requires Valid() && (!writing ==> pos <= size)
      ensures Text() == Overlay(Front(), Base())
    {
      if !writing {
        OverlayPrefix(Base(), pos);
      }
    }

    /** lfs_file_read: the bytes at the position, as many as there are. */
    method Read(n: nat) returns (r: Result<seq<byte>>)
      requires Valid()
      modifies this, store
      ensures Valid() && Text() == old(Text()) && SameOn(old(store.disk), store.disk, old(Protected()))
      ensures r.Err? ==> old(writing) && r.error == NoSpace && store.Full()
      ensures r.Ok? ==> pos == old(pos) + |r.value|
      ensures r.Ok? ==> |r.value| == if old(pos) >= |Text()| then 0 else if n < |Text()| - old(pos) then n
              else |Text()| - old(pos)
      ensures r.Ok? && r.value != [] ==> r.value == Text()[old(pos)..pos]
    {
      hide Locate, Content, Linked, Holds, NoRepeats;
      if writing {
        var flushed := Flush();
        if flushed.Err? {
          return Err(flushed.error);
        }
      }
      var data := ReadAll(n);
      return Ok(data);
    }

    /** lfs_file_seek: the target is a 32-bit sum; past the size limit it is refused. */
    method Seek(base: nat, offset: int) returns (r: Result<nat>)
      requires Valid() && base <= 0xffff_ffff && -0x8000_0000 <= offset < 0x8000_0000
      modifies this, store
      ensures Valid() && Text() == old(Text()) && SameOn(old(store.disk), store.disk, old(Protected()))
      ensures r.Ok? ==> !writing && !reading && pos == r.value == (base + offset) % 0x1_0000_0000
      ensures !old(writing) ==> head == old(head) && size == old(size) && chain == old(chain)
      ensures !old(writing) ==> store.disk == old(store.disk) && store.used == old(store.used)
      ensures r == Err(Invalid) ==> (base + offset) % 0x1_0000_0000 > fileMax && pos == old(pos)
      ensures r.Err? && r.error != Invalid ==> old(writing) && r.error == NoSpace && store.Full()
      ensures (base + offset) % 0x1_0000_0000 > fileMax ==> r.Err?
      ensures old(Protected()) <= Protected()
    {
      hide Locate, Content, Linked, Holds, NoRepeats;
      var flushed := Flush();
      if flushed.Err? {
        return Err(flushed.error);
      }
      var npos := (base + offset) % 0x1_0000_0000;
      if npos > fileMax {
        return Err(Invalid);
      }
      pos := npos;
      return Ok(npos);
    }

    /** The shrinking half of lfs_file_truncate. It looks the new head up at position n, not
        n - 1, so the stored head is right exactly when n does not begin a block (or is 0). */
    method Shrink(n: nat) returns (r: Result<()>, ghost whole: seq<nat>)
      requires Valid() && n < |Text()|
      modifies this, store
      ensures SameOn(old(store.disk), store.disk, old(Protected()))
      ensures r.Err? ==> Valid() && Text() == old(Text()) && old(writing) && r.error == NoSpace && store.Full()
      ensures r.Ok? && ShrinksInPlace(store.bs, n) ==> Valid() && Text() == old(Text())[..n]
      ensures r.Ok? && !ShrinksInPlace(store.bs, n) ==>
                && Holds(store.disk, store.bs, chain, n) && Content(store.disk, store.bs, chain, n) == old(Text())[..n]
                && head !in chain && BehindItsEnd(whole, n)
                && Holds(store.disk, store.bs, whole, |old(Text())|)
                && Content(store.disk, store.bs, whole, |old(Text())|) == old(Text())
    {
      hide Locate, Content, Linked, NoRepeats, Growing, Overlay;
      var flushed := Flush();
      whole := chain;
      if flushed.Err? {
        return Err(flushed.error), whole;
      }
      FlushedIs();
      CutAt(n);
      return Ok(()), whole;
    }

    lemma FlushedIs()
      requires Valid() && !writing
      ensures Holds(store.disk, store.bs, chain, size) && Text() == Content(store.disk, store.bs, chain, size)
      ensures |Text()| == size
    {
      hide Locate, Content, Linked;
    }

    // The head is the block behind the one in which the file ends.
    ghost predicate BehindItsEnd(whole: seq<nat>, n: nat)
      requires store.bs >= 112
      reads this
    {
      && 0 < n <= FILE_MAX && size == n && !writing && Locate(store.bs, n - 1).0 + 1 < |whole|
      && head == whole[Locate(store.bs, n - 1).0 + 1]
    }

    /** What is read from the last block of such a file: the block behind at the same offset, which holds a byte that
        has been cut away, or one of its pointers. */
    method ReadBehind(p: nat, ghost whole: seq<nat>, ghost was: nat, ghost n: nat) returns (b: byte)
      requires store.Valid() && BehindItsEnd(whole, n) && p < n && Locate(store.bs, p).0 == Locate(store.bs, n - 1).0
      requires Holds(store.disk, store.bs, whole, was) && was <= FILE_MAX
      ensures var k, off := Locate(store.bs, p).0 + 1, Locate(store.bs, p).1;
              var q := p + store.bs - PointerBytes(k);
              && whole[k] < |store.disk| && off < store.bs && b == store.disk[whole[k]][off]
              && (off >= PointerBytes(k) && q < was ==> n <= q && b == Content(store.disk, store.bs, whole, was)[q])
    {
      hide Locate, Holds, PointerBytes, Content;
      InTheEnd(p, whole, was, n);
      var at, off, steps := store.CtzFind(head, size, p, []);
      b := store.disk[at][off];
    }

    lemma InTheEnd(p: nat, whole: seq<nat>, was: nat, n: nat)
      requires store.Valid() && BehindItsEnd(whole, n) && p < n && Locate(store.bs, p).0 == Locate(store.bs, n - 1).0
      requires Holds(store.disk, store.bs, whole, was) && was <= FILE_MAX
      ensures var k, off := Locate(store.bs, p).0 + 1, Locate(store.bs, p).1;
              var q := p + store.bs - PointerBytes(k);
              && whole[k] < |store.disk| && off < store.bs == |store.disk[whole[k]]|
              && (off >= PointerBytes(k) && q < was ==>
                    n <= q && store.disk[whole[k]][off] == Content(store.disk, store.bs, whole, was)[q])
    {
      hide Locate, Linked, PointerBytes;
      LocateInBlock(store.bs, p);
      LinkedOnDisk(store.disk, whole);
      var k, off := Locate(store.bs, p).0 + 1, Locate(store.bs, p).1;
      var q := p + store.bs - PointerBytes(k);
      if off >= PointerBytes(k) && q < was {
        OneBlockOn(store.bs, p, n, q);
      }
    }

    // Lookup of the new head in the skip list, after the flush.
    method CutAt(n: nat)
      requires Valid() && !writing && !reading && n < size
      modifies this
      ensures Protected() == old(Protected()) && pos == old(pos)
      ensures ShrinksInPlace(store.bs, n) ==> Valid() && !writing && Base() == old(Base())[..n]
      ensures !ShrinksInPlace(store.bs, n) ==>
                && Holds(store.disk, store.bs, chain, n) && Content(store.disk, store.bs, chain, n) == old(Base())[..n]
                && head !in chain && BehindItsEnd(old(chain), n)
    {
      hide Locate, Content, Linked, NoRepeats;
      ghost var whole := chain;
      PrefixHolds(store.disk, store.bs, chain, size, n);
      var steps;
      block, off, steps := store.CtzFind(head, size, n, chain);
      LocateMonotone(store.bs, n, size - 1);
      if n > 0 {
        LocateMonotone(store.bs, n - 1, n);
      }
      chain := Upto(store.bs, chain, n);
      head, size := block, n;
      HeadBeyond(store.bs, whole, n, head);
      if !ShrinksInPlace(store.bs, n) {
        JustBehind(store.bs, n);
      }
      dirty, reading := true, true;
      // the seek back to the old position starts with a flush, which drops the read
      reading := false;
    }

    /** Seek, any number of writes, flush: the flushed list holds the spliced bytes, and the
        list it replaces still reads as before. A file opened to append is spliced at its end. */
    method Rewrite(p: nat, chunks: seq<seq<byte>>) returns (r: Result<()>)
      requires Valid() && p <= fileMax && |chunks| > 0
      requires forall c :: 0 <= c < |chunks| ==> |chunks[c]| <= 0x7fff_ffff
      modifies this, store
      ensures Valid()
      ensures r.Ok? ==>
                var text := old(Text());
                var at := if append && p < |text| then |text| else p;
                !writing && Base() == Overwritten(text, at, Flatten(chunks))
      ensures r.Err? ==>
                var at := if append && p < |old(Text())| then |old(Text())| else p;
                if r.error == TooBig then at + |Flatten(chunks)| > fileMax else r.error == NoSpace && store.Full()
      ensures Content(store.disk, store.bs, old(chain), old(size)) == old(Base())
    {
      hide Locate, Content, Linked, NoRepeats, Holds, Growing, Overwritten;
      ghost var was, blocks, list, length := store.disk, Protected(), chain, size;
      var sought := Seek(p, 0);
      if sought.Err? {
        Survives(was, store.disk, store.bs, list, length, blocks);
        return Err(sought.error);
      }
      r := WriteChunks(p, chunks);
      Survives(was, store.disk, store.bs, list, length, blocks);
    }

    // The writes and the flush, from a position just sought.
    method WriteChunks(p: nat, chunks: seq<seq<byte>>) returns (r: Result<()>)
      requires Valid() && !writing && !reading && pos == p && |chunks| > 0
      requires forall c :: 0 <= c < |chunks| ==> |chunks[c]| <= 0x7fff_ffff
      modifies this, store
      ensures Valid() && SameOn(old(store.disk), store.disk, old(Protected()))
      ensures r.Ok? ==> !writing && Base() == Overwritten(old(Text()), old(Target()), Flatten(chunks))
      ensures r.Err? ==>
                if r.error == TooBig then old(Target()) + |Flatten(chunks)| > fileMax
                else r.error == NoSpace && store.Full()
    {
      hide Locate, Content, Linked, NoRepeats, Holds, Growing, Overwritten;
      ghost var before, text, blocks, at := store.disk, Text(), Protected(), Target();
      var c := 0;
      while c < |chunks|
        invariant 0 <= c <= |chunks| && Valid() && head == old(head) && size == old(size) && chain == old(chain)
        invariant blocks <= Protected() && SameOn(before, store.disk, blocks) && Base() == text
        invariant c == 0 ==> !writing && Text() == text && pos == p
        invariant c > 0 ==> pos == at + |Flatten(chunks[..c])| && Text() == Overwritten(text, at, Flatten(chunks[..c]))
      {
        var wrote := Write(chunks[c]);
        if wrote.Err? {
          LongerWithMore(chunks, c + 1);
          assert chunks[..c + 1][..c] == chunks[..c];
          return Err(wrote.error);
        }
        assert chunks[..c + 1][..c] == chunks[..c];
        SpliceTwice(text, at, Flatten(chunks[..c]), chunks[c]);
        assert [] + chunks[c] == chunks[c];
        c := c + 1;
      }
      assert chunks[..|chunks|] == chunks;
      r := Flush();
    }
  }

  // A list outlives what is done to other blocks.
  lemma Survives(d: Disk, e: Disk, bs: uint32, chain: seq<nat>, size: nat, blocks: set<nat>)
    requires bs >= 112 && size <= FILE_MAX && Holds(d, bs, chain, size)
    requires Within(chain, blocks) && SameOn(d, e, blocks) && Formatted(e, bs)
    ensures Holds(e, bs, chain, size) && Content(e, bs, chain, size) == Content(d, bs, chain, size)
  {
    HoldsFrame(d, e, bs, chain, size);
  }
}
