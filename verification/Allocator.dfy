/** The block allocator: a window of lookahead bits slides over the device, and an
    acknowledgement bounds how far it may go (littlefs/lfs.cpp:463-532). */
module Allocator {
  import opened Words
  import opened Blocks
  import opened Wrappers
  import Arith

  // n positions on from a block, around the device.
  function Around(bc: nat, from: nat, n: nat): (b: nat)
    requires from < bc && n <= bc
    ensures b < bc
  {
    if from + n < bc then from + n else from + n - bc
  }

  // How many blocks the scan has passed since it passed b, when it stands at p.
  function Behind(bc: nat, p: nat, b: nat): (n: nat)
    requires p < bc && b < bc
    ensures n < bc
  {
    if b < p then p - b - 1 else p - b - 1 + bc
  }

  // The last n blocks passed.
  function Passed(bc: nat, p: nat, n: nat): set<nat>
    requires p < bc
  {
    set b: nat | b < bc && Behind(bc, p, b) < n
  }

  lemma PassOne(bc: nat, p: nat, n: nat)
    requires p < bc && n < bc
    ensures p !in Passed(bc, p, n) && Passed(bc, Around(bc, p, 1), n + 1) == Passed(bc, p, n) + {p}
  {
  }

  // How many blocks lie before b, from p on.
  function Ahead(bc: nat, p: nat, b: nat): (n: nat)
    requires p < bc && b < bc
    ensures n < bc && Around(bc, p, n) == b
  {
    if b >= p then b - p else b - p + bc
  }

  lemma AheadOnly(bc: nat, p: nat, n: nat)
    requires p < bc && n < bc
    ensures Ahead(bc, p, Around(bc, p, n)) == n
  {
  }

  lemma AroundTwice(bc: nat, p: nat, n: nat, m: nat)
    requires p < bc && n + m <= bc
    ensures Around(bc, Around(bc, p, n), m) == Around(bc, p, n + m)
  {
  }

  lemma AheadOnward(bc: nat, p: nat, n: nat, rest: nat, b: nat)
    requires p < bc && b < bc && n + rest <= bc && Ahead(bc, Around(bc, p, n), b) < rest
    ensures Ahead(bc, p, b) == n + Ahead(bc, Around(bc, p, n), b)
  {
  }

  // The n blocks from p on are among these.
  ghost predicate Passes(bc: nat, p: nat, n: nat, those: iset<nat>)
    requires p < bc && n <= bc
  {
    forall m :: 0 <= m < n ==> Around(bc, p, m) in those
  }

  // The marked blocks among the next ones.
  ghost function Rest(bc: nat, window: set<nat>, p: nat, rest: int): iset<nat>
    requires p < bc
  {
    iset b: nat | b < bc && b in window && Ahead(bc, p, b) < rest
  }

  lemma InRest(bc: nat, window: set<nat>, p: nat, n: nat, rest: int)
    requires p < bc && n < rest <= bc && Around(bc, p, n) in window
    ensures Around(bc, p, n) in Rest(bc, window, p, rest)
  {
    AheadOnly(bc, p, n);
  }

  // No block in use is unmarked among the next ones.
  ghost predicate SafeAhead(bc: nat, window: set<nat>, p: nat, rest: int, visits: seq<nat>)
    requires p < bc
  {
    forall b :: b in visits && b < bc && Ahead(bc, p, b) < rest ==> b in window
  }

  // Further on in a window.
  lemma RestShrinks(bc: nat, window: set<nat>, p: nat, n: nat, rest: int, visits: seq<nat>)
    requires p < bc && n <= rest <= bc
    ensures Rest(bc, window, Around(bc, p, n), rest - n) <= Rest(bc, window, p, rest)
    ensures SafeAhead(bc, window, p, rest, visits) ==> SafeAhead(bc, window, Around(bc, p, n), rest - n, visits)
  {
    var q := Around(bc, p, n);
    forall b: nat | b < bc && Ahead(bc, q, b) < rest - n
      ensures Ahead(bc, p, b) < rest
    {
      AheadOnward(bc, p, n, rest - n, b);
    }
  }

  lemma NotVisited(bc: nat, window: set<nat>, p: nat, n: nat, rest: int, visits: seq<nat>, b: nat)
    requires p < bc && b < bc && Ahead(bc, p, b) < n <= rest && SafeAhead(bc, window, p, rest, visits) && b !in window
    ensures b !in visits
  {
  }

  // One scan after others.
  lemma ScansOn(bc: nat, p: nat, n: nat, m: nat, those: iset<nat>, more: iset<nat>, found: Option<nat>)
    requires p < bc && n + m <= bc && Passes(bc, p, n, those) && more <= those
    requires Passes(bc, Around(bc, p, n), m, With(more, found))
    requires found.Some? ==> found.value < bc && Ahead(bc, Around(bc, p, n), found.value) < m
    ensures Passes(bc, p, n + m, With(those, found)) && Around(bc, Around(bc, p, n), m) == Around(bc, p, n + m)
    ensures found.Some? ==> Ahead(bc, p, found.value) < n + m
  {
    AroundTwice(bc, p, n, m);
    if found.Some? {
      AheadOnward(bc, p, n, m, found.value);
    }
    forall k | 0 <= k < n + m
      ensures Around(bc, p, k) in With(those, found)
    {
      if k >= n {
        AroundTwice(bc, p, n, k - n);
        assert Around(bc, Around(bc, p, n), k - n) in With(more, found);
      }
    }
  }

  ghost function With(those: iset<nat>, found: Option<nat>): iset<nat> {
    iset b: nat | b in those || found == Some(b)
  }

  lemma WithMeans(those: iset<nat>, b: nat)
    ensures With(those, None) == those && those <= With(those, Some(b)) && b in With(those, Some(b))
  {
  }

  lemma NothingPassed(bc: nat, p: nat, those: iset<nat>)
    requires p < bc
    ensures Passes(bc, p, 0, those) && Around(bc, p, 0) == p
  {
  }

  lemma PassesOne(bc: nat, p: nat, n: nat, those: iset<nat>, more: iset<nat>)
    requires p < bc && n < bc && Passes(bc, p, n, those) && those <= more && Around(bc, p, n) in more
    ensures Passes(bc, p, n + 1, more) && Around(bc, Around(bc, p, n), 1) == Around(bc, p, n + 1)
    ensures Ahead(bc, p, Around(bc, p, n)) == n
  {
  }

  // lfs_alloc_lookahead's bit for a block, in 32-bit arithmetic.
  function Slot(bc: nat, off: nat, block: nat): nat
    requires 0 < bc
  {
    ((block - off) % 0x1_0000_0000 + bc) % 0x1_0000_0000 % bc
  }

  /** The bit is the right one for every block, wherever the window starts, exactly on devices of
      at most 2^31 blocks: beyond that the sum wraps around. */
  lemma SlotExact(bc: nat)
    requires 0 < bc < 0x1_0000_0000
    ensures bc <= 0x8000_0000 <==>
              forall off: nat, k: nat :: off < bc && k < bc ==> Slot(bc, off, Around(bc, off, k)) == k
  {
    if bc <= 0x8000_0000 {
      forall off: nat, k: nat | off < bc && k < bc
        ensures Slot(bc, off, Around(bc, off, k)) == k
      {
        SlotOf(bc, off, k);
      }
    } else {
      var sum := (bc - 1 + bc) % 0x1_0000_0000;
      assert sum == 2 * bc - 1 - 0x1_0000_0000;
      Small(sum, bc);
      assert Around(bc, 0, bc - 1) == bc - 1 && Slot(bc, 0, bc - 1) == sum;
    }
  }

  lemma Small(x: nat, d: nat)
    requires x < d
    ensures x % d == x
  {
  }

  lemma OneOver(x: nat, d: nat)
    requires d <= x < 2 * d
    ensures x % d == x - d
  {
  }

  lemma SlotOf(bc: nat, off: nat, k: nat)
    requires 0 < bc <= 0x8000_0000 && off < bc && k < bc
    ensures Slot(bc, off, Around(bc, off, k)) == k
  {
    var b := Around(bc, off, k);
    if b >= off {
      assert (b - off) % 0x1_0000_0000 == k && (k + bc) % 0x1_0000_0000 == k + bc;
      OneOver(k + bc, bc);
    } else {
      assert (b - off) % 0x1_0000_0000 == b - off + 0x1_0000_0000;
      assert (b - off + 0x1_0000_0000 + bc) % 0x1_0000_0000 == b - off + bc == k;
      Small(k, bc);
    }
  }

  lemma AroundMod(bc: nat, p: nat, n: nat)
    requires p < bc && n <= bc
    ensures (p + n) % bc == if p + n < 2 * bc then Around(bc, p, n) else 0
  {
    if p + n < bc {
      Small(p + n, bc);
    } else {
      OneOver(p + n, bc);
    }
  }

  /* Drawing pairs */

  // Blocks that are sure to come, and have not come yet, come before those that have.
  ghost predicate InTurn(bc: nat, p: nat, drawn: seq<nat>, sure: set<nat>)
    requires p < bc
  {
    forall b, d :: b in sure && b !in drawn && d in drawn && b < bc && d < bc ==> Ahead(bc, p, b) < Ahead(bc, p, d)
  }

  lemma InTurnOn(bc: nat, p: nat, n: nat, held: iset<nat>, x: nat, drawn: seq<nat>, sure: set<nat>)
    requires p < bc && n <= bc && Passes(bc, p, n, With(held, Some(x))) && x < bc && Ahead(bc, p, x) < n
    requires InTurn(bc, p, drawn, sure) && (forall b :: b in sure ==> b < bc && b !in held)
    ensures InTurn(bc, Around(bc, p, n), drawn + [x], sure)
    ensures x in drawn ==> forall b :: b in sure ==> b in drawn
  {
    forall b | b in sure && b != x
      ensures Ahead(bc, p, b) >= n
    {
      assert Around(bc, p, Ahead(bc, p, b)) == b;
    }
  }

  class Allocator {
    const bc: nat           // block_count
    const buffer: array<bool> // 8 * lookahead_size bits
    var off: nat
    var size: nat
    var i: nat
    var ack: nat
    ghost var window: set<nat> // the blocks whose bits are set in this window
    ghost var given: set<nat> // handed out since the last acknowledgement
    ghost var taken: set<nat> // passed over since then, because their bits were set

    constructor (blockCount: nat, bits: nat)
      requires 0 < blockCount <= 0x8000_0000 && bits > 0
      ensures Valid() && bc == blockCount && size == i == 0 && window == given == taken == {} && fresh(buffer)
    {
      bc, buffer := blockCount, new bool[bits];
      off, size, i, ack := 0, 0, 0, blockCount;
      window, given, taken := {}, {}, {};
    }

    // Where the scan stands.
    function Pos(): (p: nat)
      requires bc > 0
      reads this
      ensures p < bc
    {
      (off + i) % bc
    }

    ghost predicate Valid()
      reads this, buffer
    {
      && 0 < bc <= 0x8000_0000 && buffer.Length > 0
      && i <= size <= buffer.Length && size - i <= ack <= bc && (size > 0 ==> off < bc) && size <= bc
      && (forall k :: 0 <= k < size ==> (buffer[k] <==> Around(bc, off, k) in window))
      && given !! taken && given + taken == Passed(bc, Pos(), bc - ack)
    }

    // Whether the block's bit is set in the rest of the window.
    ghost predicate Marked(b: nat)
      requires 0 < bc
      reads this
    {
      b in Rest(bc, window, Pos(), size - i)
    }

    // Blocks in use are not handed out from the rest of the window.
    ghost predicate Safe(visits: seq<nat>)
      requires 0 < bc
      reads this
    {
      SafeAhead(bc, window, Pos(), size - i, visits)
    }

    // What is passed over before anything else: bits of this window, or later blocks in use.
    ghost function Avoids(visits: seq<nat>): iset<nat>
      requires 0 < bc
      reads this
    {
      Rest(bc, window, Pos(), size - i) + iset b | b in visits
    }

    /** lfs_alloc_ack */
    method Ack()
      requires Valid()
      modifies this
      ensures Valid() && given == taken == {} && window == old(window)
      ensures off == old(off) && size == old(size) && i == old(i) && ack == bc
    {
      ack := bc;
      given, taken := {}, {};
    }

    /** lfs_alloc_reset: a new scan begins anywhere. The start is reduced by the block size, which may
        exceed the number of blocks; the first window puts that right. */
    method Reset(seed: nat, blockSize: nat)
      requires 0 < bc <= 0x8000_0000 && buffer.Length > 0 && blockSize > 0
      modifies this
      ensures Valid() && given == taken == {} && ack == bc && size == i == 0
    {
      off := seed % blockSize;
      size, i, ack := 0, 0, bc;
      given, taken := {}, {};
    }

    /** lfs_alloc_lookahead, for each block that a traversal of the file system visits. */
    method Mark(visits: seq<nat>)
      requires 0 < bc <= 0x8000_0000 && size <= buffer.Length && size <= bc && off < bc
      requires forall k :: 0 <= k < size ==> !buffer[k]
      modifies buffer, this`window
      ensures forall k :: 0 <= k < size ==> (buffer[k] <==> exists v :: v in visits && Slot(bc, off, v) == k)
      ensures forall k :: 0 <= k < size ==> (buffer[k] <==> Around(bc, off, k) in window)
      ensures forall b :: b in visits && b < bc && Slot(bc, off, b) < size ==> b in window
      ensures forall x :: x in window ==> exists k :: 0 <= k < size && buffer[k] && x == Around(bc, off, k)
    {
      hide Slot;
      for n := 0 to |visits|
        invariant forall k :: 0 <= k < size ==> (buffer[k] <==> exists v :: v in visits[..n] && Slot(bc, off, v) == k)
      {
        var slot := Slot(bc, off, visits[n]);
        if slot < size {
          buffer[slot] := true;
        }
        assert visits[..n + 1] == visits[..n] + [visits[n]];
      }
      assert visits[..|visits|] == visits;
      window := set k | 0 <= k < size && buffer[k] :: Around(bc, off, k);
      forall k | 0 <= k < size
        ensures buffer[k] <==> Around(bc, off, k) in window
      {
        if Around(bc, off, k) in window {
          var m :| 0 <= m < size && buffer[m] && Around(bc, off, m) == Around(bc, off, k);
        }
      }
      forall b | b in visits && b < bc && Slot(bc, off, b) < size
        ensures b in window
      {
        var d := if b >= off then b - off else b - off + bc;
        assert Around(bc, off, d) == b;
        SlotOf(bc, off, d);
        assert buffer[d];
      }
    }

    // The block at the scan's position.
    lemma Here()
      requires Valid() && i < size
      ensures Pos() == Around(bc, off, i) && Pos() !in given + taken
      ensures (off + i + 1) % bc == Around(bc, Pos(), 1)
    {
      AroundMod(bc, off, i);
      AroundMod(bc, off, i + 1);
      PassOne(bc, Pos(), bc - ack);
    }

    // One position further; the block passed was handed out, or had its bit set.
    method Advance(ghost free: bool)
      requires Valid() && i < size && (free <==> !buffer[i])
      modifies this`i, this`ack, this`given, this`taken
      ensures Valid() && i == old(i) + 1 && ack == old(ack) - 1 && Pos() == Around(bc, old(Pos()), 1)
      ensures given == old(given) + (if free then {old(Pos())} else {})
      ensures taken == old(taken) + (if free then {} else {old(Pos())})
    {
      Here();
      PassOne(bc, Pos(), bc - ack);
      if free {
        given := given + {Pos()};
      } else {
        taken := taken + {Pos()};
      }
      i, ack := i + 1, ack - 1;
    }

    // Where the scan comes to depends on how far it went only.
    ghost predicate Went(p: nat, n: int)
      requires p < bc
      reads this
    {
      0 <= n <= bc && Pos() == Around(bc, p, n)
    }

    // The scan has come from p, where i was i0, past these blocks, which those of the window's with a bit are among.
    ghost predicate Passing(p: nat, i0: nat, those: iset<nat>)
      requires 0 < bc
      reads this
    {
      && p < bc && i0 <= i <= size && size - i0 <= bc && Pos() == Around(bc, p, i - i0)
      && Passes(bc, p, i - i0, those) && Rest(bc, window, p, size - i0) <= those
    }

    // One position further, which is among those.
    method Pass(ghost free: bool, ghost p: nat, ghost i0: nat, ghost those: iset<nat>)
      requires Valid() && i < size && (free <==> !buffer[i]) && Passing(p, i0, those) && (free ==> Pos() in those)
      modifies this`i, this`ack, this`given, this`taken
      ensures Valid() && i == old(i) + 1 && ack == old(ack) - 1 && Passing(p, i0, those)
      ensures given == old(given) + (if free then {old(Pos())} else {})
      ensures taken == old(taken) + (if free then {} else {old(Pos())})
      ensures Ahead(bc, p, old(Pos())) == i - 1 - i0 && (!free ==> old(Pos()) in window)
    {
      hide Around, Ahead, Passes, Passed, Rest, Pos;
      Here();
      if !free {
        InRest(bc, window, p, i - i0, size - i0);
      }
      PassesOne(bc, p, i - i0, those, those);
      Advance(free);
    }

    // What lies before the next clear bit is spent already now.
    method SkipMarked(ghost p: nat, ghost i0: nat, ghost those: iset<nat>)
      requires Valid() && Passing(p, i0, those)
      modifies this`i, this`ack, this`given, this`taken
      ensures Valid() && ack - (size - i) == old(ack - (size - i)) && Passing(p, i0, those) && i >= old(i)
      ensures given == old(given) && old(taken) <= taken <= old(taken) + window
    {
      hide Around, Ahead, Passes, Passed, Rest, Passing;
      while i != size && buffer[i]
        invariant Valid() && ack - (size - i) == old(ack - (size - i)) && Passing(p, i0, those) && i >= old(i)
        invariant given == old(given) && old(taken) <= taken <= old(taken) + window
        decreases size - i
      {
        Pass(false, p, i0, those);
      }
    }

    // The rest of the window (the inner loops of lfs_alloc).
    method Scan() returns (found: Option<nat>)
      requires Valid()
      modifies this`i, this`ack, this`given, this`taken
      ensures Valid() && ack - (size - i) == old(ack - (size - i))
      ensures old(taken) <= taken <= old(taken) + window
      ensures i >= old(i) && Went(old(Pos()), i - old(i))
      ensures Passes(bc, old(Pos()), i - old(i), With(Rest(bc, window, old(Pos()), old(size - i)), found))
      ensures Rest(bc, window, Pos(), size - i) <= Rest(bc, window, old(Pos()), old(size - i))
      ensures found.None? ==> i == size && given == old(given)
      ensures found.Some? ==>
                && found.value < bc && found.value !in window
                && found.value !in old(given) && found.value !in old(taken)
                && given == old(given) + {found.value}
                && Ahead(bc, old(Pos()), found.value) < i - old(i)
                && exists k :: 0 <= k < size && found.value == Around(bc, off, k)
    {
      hide Around, Ahead, Passes, Passed, Rest, With, Passing;
      ghost var p, i0, held := Pos(), i, Rest(bc, window, Pos(), size - i);
      AtStart();
      while i != size
        invariant Valid() && ack - (size - i) == old(ack - (size - i)) && Passing(p, i0, held) && i >= i0
        invariant given == old(given) && old(taken) <= taken <= old(taken) + window
        decreases size - i
      {
        var at := i;
        if !buffer[at] {
          // this one is clear
          var block := (off + at) % bc;
          Here();
          PassingMore(p, i0, held, block);
          Pass(true, p, i0, With(held, Some(block)));
          SkipMarked(p, i0, With(held, Some(block)));
          HasPassed(p, i0, With(held, Some(block)));
          return Some(block);
        }
        Pass(false, p, i0, held);
      }
      WithMeans(held, 0);
      HasPassed(p, i0, held);
      return None;
    }

    lemma HasPassed(p: nat, i0: nat, those: iset<nat>)
      requires Valid() && Passing(p, i0, those)
      ensures Went(p, i - i0) && Passes(bc, p, i - i0, those)
      ensures Rest(bc, window, Pos(), size - i) <= Rest(bc, window, p, size - i0)
    {
      hide Rest, Passes;
      RestShrinks(bc, window, p, i - i0, size - i0, []);
    }

    lemma AtStart()
      requires Valid()
      ensures Passing(Pos(), i, Rest(bc, window, Pos(), size - i))
    {
    }

    lemma PassingMore(p: nat, i0: nat, those: iset<nat>, b: nat)
      requires 0 < bc && Passing(p, i0, those)
      ensures Passing(p, i0, With(those, Some(b))) && b in With(those, Some(b))
    {
    }

    // Blocks in use lie in the window if their bit does.
    ghost predicate Built(visits: seq<nat>)
      requires bc > 0
      reads this
    {
      off < bc && forall b :: b in visits && b < bc && Slot(bc, off, b) < size ==> b in window
    }

    // The next window, with the blocks in use marked.
    method Refill(visits: seq<nat>)
      requires Valid() && i == size && ack > 0
      modifies this, buffer
      ensures Valid() && Built(visits) && size > 0 && i == 0
      ensures ack == old(ack) && given == old(given) && taken == old(taken) && Pos() == old(Pos())
      ensures (forall v :: v in visits ==> v < bc) ==> forall b :: b in window ==> b in visits
    {
      hide Slot;
      ghost var p := Pos();
      off := (off + size) % bc;
      size := if buffer.Length < ack then buffer.Length else ack;
      i := 0;
      Small(off, bc);
      for k := 0 to size
        invariant forall m :: 0 <= m < k ==> !buffer[m]
        modifies buffer
      {
        buffer[k] := false;
      }
      Mark(visits);
      if forall v :: v in visits ==> v < bc {
        forall b | b in window
          ensures b in visits
        {
          OnlyVisited(visits, b);
        }
      }
    }

    lemma OnlyVisited(visits: seq<nat>, b: nat)
      requires 0 < bc <= 0x8000_0000 && off < bc && size <= buffer.Length && size <= bc
      requires b in window && forall v :: v in visits ==> v < bc
      requires forall k :: 0 <= k < size ==> (buffer[k] <==> exists v :: v in visits && Slot(bc, off, v) == k)
      requires forall x :: x in window ==> exists k :: 0 <= k < size && buffer[k] && x == Around(bc, off, k)
      ensures b in visits
    {
      hide Slot;
      var k :| 0 <= k < size && buffer[k] && b == Around(bc, off, k);
      var v :| v in visits && Slot(bc, off, v) == k;
      var d := if v >= off then v - off else v - off + bc;
      assert Around(bc, off, d) == v;
      SlotOf(bc, off, d);
    }

    // A new window holds bits of blocks in use only, and all of those.
    lemma NewWindow(visits: seq<nat>)
      requires Valid() && Built(visits) && i == 0 && forall b :: b in window ==> b in visits
      ensures Safe(visits) && Rest(bc, window, Pos(), size - i) <= iset b | b in visits
    {
      hide Slot;
      Small(off, bc);
      forall b: nat | b in visits && b < bc && Ahead(bc, Pos(), b) < size
        ensures b in window
      {
        SlotOf(bc, off, Ahead(bc, off, b));
      }
    }

    /** Since the scan stood at p, with a0 left to go, it has passed over blocks of held, and what it will pass
        over is among them too. */
    ghost predicate Track(visits: seq<nat>, p: nat, a0: nat, held: iset<nat>, safe: bool, found: Option<nat>)
      requires 0 < bc
      reads this
    {
      && p < bc && Went(p, a0 - ack) && Passes(bc, p, a0 - ack, With(held, found)) && Avoids(visits) <= held
      && (safe ==> Safe(visits) && (found.Some? ==> found.value !in visits))
      && (found.Some? ==> found.value < bc && Ahead(bc, p, found.value) < a0 - ack)
    }

    lemma AllPassed()
      requires Valid() && ack == 0
      ensures forall b :: 0 <= b < bc ==> b in given || b in taken
    {
      assert forall b :: 0 <= b < bc ==> b in given + taken;
    }

    lemma TrackBegins(visits: seq<nat>)
      requires Valid()
      ensures Track(visits, Pos(), ack, Avoids(visits), Safe(visits), None)
    {
      hide Rest;
    }

    lemma Tracked(visits: seq<nat>, p: nat, a0: nat, held: iset<nat>, safe: bool, found: Option<nat>,
                  n: nat, m: nat, rest: iset<nat>)
      requires Valid() && a0 <= bc && p < bc && n + m == a0 - ack <= bc && Passes(bc, p, n, held) && m <= i
      requires var q := Around(bc, p, n);
               && rest == Rest(bc, window, q, size - i + m) && rest + (iset b | b in visits) <= held
               && Went(q, m) && Passes(bc, q, m, With(rest, found))
               && (safe ==> SafeAhead(bc, window, q, size - i + m, visits))
               && (found.Some? ==> found.value < bc && found.value !in window && Ahead(bc, q, found.value) < m)
      ensures Track(visits, p, a0, held, safe, found)
    {
      hide Around, Ahead, Passes, Rest, With, SafeAhead;
      ScansOn(bc, p, n, m, held, rest, found);
      RestShrinks(bc, window, Around(bc, p, n), m, size - i + m, visits);
      if safe && found.Some? {
        NotVisited(bc, window, Around(bc, p, n), m, size - i + m, visits, found.value);
      }
    }

    method ScanOn(ghost visits: seq<nat>, ghost p: nat, ghost a0: nat, ghost held: iset<nat>, ghost safe: bool,
                  ghost known: bool)
      returns (found: Option<nat>)
      requires Valid() && a0 <= bc && (known ==> Track(visits, p, a0, held, safe, None))
      modifies this`i, this`ack, this`given, this`taken
      ensures Valid() && ack - (size - i) == old(ack - (size - i))
      ensures old(taken) <= taken <= old(taken) + window
      ensures found.None? ==> i == size && given == old(given)
      ensures found.Some? ==>
                && found.value < bc && found.value !in window
                && found.value !in old(given) && found.value !in old(taken)
                && given == old(given) + {found.value}
                && exists k :: 0 <= k < size && found.value == Around(bc, off, k)
      ensures known ==> Track(visits, p, a0, held, safe, found)
    {
      hide Around, Ahead, Passes, Rest, With, SafeAhead, Passed;
      ghost var q, m, rest := Pos(), i, Rest(bc, window, Pos(), size - i);
      ghost var n := a0 - ack;
      WithMeans(held, 0);
      found := Scan();
      if known {
        Tracked(visits, p, a0, held, safe, found, n, i - m, rest);
      }
    }

    method RefillOn(visits: seq<nat>, ghost p: nat, ghost a0: nat, ghost held: iset<nat>, ghost safe: bool,
                    ghost known: bool)
      requires Valid() && i == size && ack > 0 && (known <==> forall v :: v in visits ==> v < bc)
      requires known ==> Track(visits, p, a0, held, safe, None)
      modifies this, buffer
      ensures Valid() && Built(visits) && size > 0 && i == 0
      ensures ack == old(ack) && given == old(given) && taken == old(taken)
      ensures known ==> (forall b :: b in window ==> b in visits) && Track(visits, p, a0, held, safe, None)
    {
      hide Slot, Around, Ahead, Passes, Rest, With, SafeAhead, Passed;
      Refill(visits);
      if known {
        NewWindow(visits);
      }
    }

    /** lfs_alloc: a block handed out is not in use and was not handed out since the last acknowledgement.
        The traversal may fail, and then everything starts over; the device is called full only when
        every block was handed out since then or found in use. Between two blocks handed out the scan passes
        over blocks in use only, and over those that were when the window was marked. */
    method Alloc(visits: seq<nat>, fails: bool, seed: nat, blockSize: nat) returns (r: Result<nat>)
      requires Valid() && blockSize > 0
      modifies this, buffer
      ensures Valid()
      ensures r.Ok? ==>
                && r.value < bc && r.value !in old(given) && r.value !in old(taken) && given == old(given) + {r.value}
                && r.value !in window && (r.value !in visits || window == old(window))
      ensures r == Err(NoSpace) ==>
                && given == old(given) && (forall b :: 0 <= b < bc ==> b in given || b in taken) && ack == 0
                && ((forall v :: v in visits ==> v < bc) ==> forall b :: b in taken ==>
                   b in old(taken + window) || b in visits)
      ensures r.Err? ==> r.error == NoSpace || (fails && r.error == IO && given == taken == {})
      ensures (r.Ok? || r.error == NoSpace) && (forall v :: v in visits ==> v < bc) ==>
                Track(visits, old(Pos()), old(ack), old(Avoids(visits)), old(Safe(visits)),
                      if r.Ok? then Some(r.value) else None)
    {
      hide Slot, Around, Ahead, Track, Avoids, Safe, Passed;
      ghost var rebuilt, p, a0, held, safe := false, Pos(), ack, Avoids(visits), Safe(visits);
      ghost var known := forall v :: v in visits ==> v < bc;
      TrackBegins(visits);
      while true
        invariant Valid() && given == old(given) && old(taken) <= taken
        invariant !rebuilt ==> window == old(window)
        invariant rebuilt ==> Built(visits)
        invariant known ==>
                    && (forall b :: b in taken ==> b in old(taken + window) || b in visits)
                    && (forall b :: b in window ==> b in old(window) || b in visits)
                    && Track(visits, p, a0, held, safe, None)
        decreases ack - (size - i)
      {
        var found := ScanOn(visits, p, a0, held, safe, known);
        if found.Some? {
          if rebuilt {
            ghost var k :| 0 <= k < size && found.value == Around(bc, off, k);
            SlotOf(bc, off, k);
          }
          return Ok(found.value);
        }
        // the budget is spent: every block has been looked at
        if ack == 0 {
          AllPassed();
          return Err(NoSpace);
        }
        if fails {
          Reset(seed, blockSize);
          return Err(IO);
        }
        RefillOn(visits, p, a0, held, safe, known);
        rebuilt := true;
      }
    }

    // What a compaction may count on: blocks that neither are in use nor have a stale bit, and those drawn so far.
    ghost predicate Drawing(visits: seq<nat>, drawn: seq<nat>, sure: set<nat>)
      requires 0 < bc
      reads this
    {
      && (forall v :: v in visits ==> v < bc) && Safe(visits)
      && (forall b :: b in sure ==> b < bc && b !in Avoids(visits))
         && (forall d :: d in drawn ==> d < bc && d !in visits)
      && (|sure| >= 2 ==> InTurn(bc, Pos(), drawn, sure))
      && (|sure| >= |drawn| ==> NoRepeats(drawn))
    }

    // One block more.
    lemma DrawnOne(visits: seq<nat>, p: nat, a0: nat, held: iset<nat>, drawn: seq<nat>, sure: set<nat>, x: nat)
      requires Valid() && a0 <= bc && Track(visits, p, a0, held, true, Some(x))
      requires (forall v :: v in visits ==> v < bc) && (forall b :: b in sure ==> b < bc && b !in held)
      requires (forall d :: d in drawn ==> d < bc && d !in visits) && (|sure| >= 2 ==> InTurn(bc, p, drawn, sure))
      requires |sure| >= |drawn| ==> NoRepeats(drawn)
      ensures Drawing(visits, drawn + [x], sure)
    {
      hide Passes, Rest, SafeAhead, With, Ahead, Around;
      if |sure| >= 2 {
        InTurnOn(bc, p, a0 - ack, held, x, drawn, sure);
      }
      if |sure| >= |drawn| + 1 {
        if x in drawn {
          HoldingAllFits(drawn, sure);
        }
        NoRepeatsAppend(drawn, x);
      }
    }

    // All around the device, with nothing found.
    lemma NothingSure(bc: nat, p: nat, held: iset<nat>, sure: set<nat>)
      requires p < bc && Passes(bc, p, bc, With(held, None)) && forall b :: b in sure ==> b < bc && b !in held
      ensures sure == {}
    {
      forall b: nat | b < bc
        ensures b in held
      {
        assert Around(bc, p, Ahead(bc, p, b)) in With(held, None);
      }
    }

    lemma OneSure(bc: nat, p: nat, n: nat, held: iset<nat>, x: nat, more: iset<nat>, sure: set<nat>)
      requires p < bc && n <= bc && Passes(bc, p, n, With(held, Some(x))) && more <= held
      requires Passes(bc, Around(bc, p, n), bc - n, With(more, None)) && forall b :: b in sure ==> b < bc && b !in held
      ensures |sure| <= 1
    {
      forall b: nat | b < bc
        ensures b in held || b == x
      {
        var m := Ahead(bc, p, b);
        if m >= n {
          AroundTwice(bc, p, n, m - n);
          assert Around(bc, Around(bc, p, n), m - n) in With(more, None);
        } else {
          assert Around(bc, p, m) in With(held, Some(x));
        }
      }
      assert sure <= {x};
      if sure != {} {
        assert sure == {x};
      }
    }

    ghost function Unvisited(visits: seq<nat>): set<nat> {
      set b: nat | b < bc && b !in visits
    }

    // Where the rest of the window is as a traversal would mark it now, every block that is not in use is sure.
    lemma DrawingBegins(visits: seq<nat>)
      requires Valid() && Safe(visits) && (forall v :: v in visits ==> v < bc)
      requires forall b :: Marked(b) ==> b in visits
      ensures Drawing(visits, [], Unvisited(visits))
    {
      hide Rest;
    }

    /** Then the blocks drawn repeat exactly if they are more than there are. */
    lemma DrawnExactly(visits: seq<nat>, drawn: seq<nat>)
      requires 0 < bc && Drawing(visits, drawn, Unvisited(visits))
      ensures NoRepeats(drawn) <==> |drawn| <= |Unvisited(visits)|
    {
      if NoRepeats(drawn) {
        NoRepeatsFits(drawn, Unvisited(visits));
      }
    }

    // One of the two lfs_alloc.
    method AllocOne(visits: seq<nat>, ghost drawn: seq<nat>, ghost sure: set<nat>) returns (r: Result<nat>)
      requires Valid() && Drawing(visits, drawn, sure)
      modifies this, buffer
      ensures Valid() && ack <= old(ack) && Went(old(Pos()), old(ack) - ack) && Avoids(visits) <= old(Avoids(visits))
      ensures Passes(bc, old(Pos()), old(ack) - ack,
                     With(old(Avoids(visits)), if r.Ok? then Some(r.value) else None))
      ensures r.Ok? ==>
                r.value !in old(given) && given == old(given) + {r.value}
                && Drawing(visits, drawn + [r.value], sure)
      ensures r.Err? ==> r.error == NoSpace && ack == 0 && Safe(visits)
    {
      hide Passes, Rest, SafeAhead, With, Ahead, Around, Passed, InTurn;
      ghost var p, a0, held := Pos(), ack, Avoids(visits);
      r := Alloc(visits, false, 0, 1);
      if r.Ok? {
        DrawnOne(visits, p, a0, held, drawn, sure, r.value);
      }
    }

    /** lfs_alloc_ack, and the two lfs_alloc of lfs_dir_alloc, the second block first. The acknowledgement makes the
        allocator forget the pairs drawn before, but it comes back to them only when it has been all around. */
    method AllocPair(visits: seq<nat>, ghost drawn: seq<nat>, ghost sure: set<nat>) returns (r: Result<(nat, nat)>)
      requires Valid() && Drawing(visits, drawn, sure)
      modifies this, buffer
      ensures Valid()
      ensures r.Ok? ==> r.value.0 != r.value.1 && Drawing(visits, drawn + [r.value.1, r.value.0], sure)
      ensures r.Err? ==> r.error == NoSpace && |sure| <= 1 && Drawing(visits, drawn, sure)
    {
      hide Passes, Rest, SafeAhead, With, Ahead, Around, Passed, InTurn;
      Ack();
      ghost var p, held := Pos(), Avoids(visits);
      var second := AllocOne(visits, drawn, sure);
      if second.Err? {
        NothingSure(bc, p, held, sure);
        return Err(NoSpace);
      }
      ghost var n, more := bc - ack, Avoids(visits);
      var first := AllocOne(visits, drawn + [second.value], sure);
      if first.Err? {
        OneSure(bc, p, n, held, second.value, more, sure);
        return Err(NoSpace);
      }
      assert drawn + [second.value] + [first.value] == drawn + [second.value, first.value];
      return Ok((first.value, second.value));
    }
  }
}
